/** Topic strings: trimming, splitting into levels, and the validity check
    (src/CppUtils.hpp and ChTree::isChannel in src/ChTree.hpp). */
module Topics {
  import opened Basics

  // ----- standard string functions

  /** Position of the first c at or after from (std::string::find); None is npos. */
  function Find(s: string, c: char, from: nat): (r: Option<nat>)
    ensures r.Some? ==> from <= r.value < |s| && s[r.value] == c && Lacks(s, c, from, r.value)
    ensures r.None? ==> Lacks(s, c, from, |s|)
    decreases |s| - from
  {
    if from >= |s| then None
    else if s[from] == c then Some(from)
    else Find(s, c, from + 1)
  }

  /** s has no c from lo to hi. */
  predicate Lacks(s: string, c: char, lo: nat, hi: nat)
    requires hi <= |s|
  {
    forall i :: lo <= i < hi ==> s[i] != c
  }

  predicate IsBlank(c: char) { c == ' ' || c == '\n' || c == '\r' || c == '\t' }

  function TrimFront(s: string): string {
    if s != [] && IsBlank(s[0]) then TrimFront(s[1..]) else s
  }

  function TrimBack(s: string): string {
    if s != [] && IsBlank(s[|s| - 1]) then TrimBack(s[..|s| - 1]) else s
  }

  function TrimSpec(s: string): string { TrimBack(TrimFront(s)) }

  ghost predicate Blank(s: string) { forall i :: 0 <= i < |s| ==> IsBlank(s[i]) }

  lemma {:induction false} TrimFrontCuts(s: string) returns (a: string)
    ensures s == a + TrimFront(s) && Blank(a)
    ensures TrimFront(s) != [] ==> !IsBlank(TrimFront(s)[0])
  {
    if s != [] && IsBlank(s[0]) {
      a := TrimFrontCuts(s[1..]);
      a := [s[0]] + a;
    } else {
      a := [];
    }
  }

  lemma {:induction false} TrimBackCuts(s: string) returns (b: string)
    ensures s == TrimBack(s) + b && Blank(b)
    ensures TrimBack(s) != [] ==> !IsBlank(TrimBack(s)[|TrimBack(s)| - 1])
  {
    if s != [] && IsBlank(s[|s| - 1]) {
      b := TrimBackCuts(s[..|s| - 1]);
      b := b + [s[|s| - 1]];
    } else {
      b := [];
    }
  }

  /** Trimming removes blanks at both ends and nothing else, and leaves none there. */
  lemma TrimCuts(s: string) returns (a: string, b: string)
    ensures s == a + TrimSpec(s) + b && Blank(a) && Blank(b)
    ensures TrimSpec(s) != [] ==> !IsBlank(TrimSpec(s)[0]) && !IsBlank(TrimSpec(s)[|TrimSpec(s)| - 1])
  {
    a := TrimFrontCuts(s);
    b := TrimBackCuts(TrimFront(s));
    assert TrimSpec(s) != [] ==> TrimSpec(s)[0] == TrimFront(s)[0];
  }

  lemma {:induction false} TrimFrontIs(s: string, i: nat)
    requires i <= |s| && Blank(s[..i]) && (i < |s| ==> !IsBlank(s[i]))
    ensures TrimFront(s) == s[i..]
  {
    if i > 0 {
      assert s[..i][0] == s[0];
      assert s[1..][..i - 1] == s[..i][1..];
      TrimFrontIs(s[1..], i - 1);
      assert s[1..][i - 1..] == s[i..];
    }
  }

  lemma {:induction false} TrimBackIs(s: string, j: nat)
    requires j <= |s| && Blank(s[j..]) && (j > 0 ==> !IsBlank(s[j - 1]))
    ensures TrimBack(s) == s[..j]
  {
    if j < |s| {
      var t := s[..|s| - 1];
      assert s[j..][|s| - 1 - j] == s[|s| - 1];
      assert t[j..] == s[j..][..|s| - 1 - j];
      TrimBackIs(t, j);
      assert t[..j] == s[..j];
    }
  }

  /** find_first_not_of the blanks; |s| for npos. */
  method FirstNonBlank(s: string) returns (i: nat)
    ensures i <= |s| && Blank(s[..i]) && (i < |s| ==> !IsBlank(s[i]))
  {
    i := 0;
    while i < |s| && IsBlank(s[i])
      invariant 0 <= i <= |s| && Blank(s[..i])
    {
      i := i + 1;
    }
  }

  /** One more than find_last_not_of the blanks; 0 for npos. */
  method BehindLastNonBlank(s: string) returns (j: nat)
    ensures j <= |s| && Blank(s[j..]) && (j > 0 ==> !IsBlank(s[j - 1]))
  {
    j := |s|;
    while 0 < j && IsBlank(s[j - 1])
      invariant 0 <= j <= |s| && Blank(s[j..])
    {
      j := j - 1;
    }
  }

  /** CppUtils::trim: both ends of the copy are erased in turn. */
  method Trim(s: string) returns (text: string)
    ensures text == TrimSpec(s)
  {
    text := s;
    if text != "" {
      var i := FirstNonBlank(text);
      TrimFrontIs(text, i);
      text := text[i..];
      var j := BehindLastNonBlank(text);
      TrimBackIs(text, j);
      text := text[..j];
    }
  }

  // ----- levels

  /** The levels of a topic: the pieces between the slashes. */
  function Levels(s: string): (v: seq<string>)
    ensures v != []
  {
    if s == "" then [""] else Behind(s[0], Levels(s[1..]))
  }

  /** The levels of a topic when a character is put in front. */
  function Behind(x: char, v: seq<string>): (r: seq<string>)
    requires v != []
    ensures r != []
  {
    if x == '/' then [""] + v else [[x] + v[0]] + v[1..]
  }

  function Join(v: seq<string>): string
    requires v != []
  {
    if |v| == 1 then v[0] else v[0] + "/" + Join(v[1..])
  }

  lemma {:induction false} JoinLevels(s: string)
    ensures Join(Levels(s)) == s
  {
    if s == "" {
    } else {
      JoinLevels(s[1..]);
      var v := Levels(s[1..]);
      if s[0] == '/' {
        assert ([""] + v)[1..] == v;
        assert s == "" + "/" + s[1..];
      } else {
        var w := [[s[0]] + v[0]] + v[1..];
        assert w[1..] == v[1..];
        assert s == [s[0]] + s[1..];
      }
    }
  }

  /** The first slash ends the first level. */
  lemma {:induction false} LevelsAt(s: string, i: nat)
    requires i < |s| && s[i] == '/' && Lacks(s, '/', 0, i)
    ensures Levels(s) == [s[..i]] + Levels(s[i + 1..])
  {
    if i > 0 {
      LevelsAt(s[1..], i - 1);
      assert s[1..][i..] == s[i + 1..];
      assert [s[0]] + s[1..][..i - 1] == s[..i];
    }
  }

  lemma {:induction false} OneLevel(s: string)
    requires '/' !in s
    ensures Levels(s) == [s]
  {
    if s != "" {
      OneLevel(s[1..]);
      assert [s[0]] + s[1..] == s;
    }
  }

  lemma {:induction false} LevelsAppend(c: string, e: string)
    ensures Levels(c + "/" + e) == Levels(c) + Levels(e)
    decreases |c|
  {
    if c == "" {
      LevelsCons('/', e, c + "/" + e);
      assert Levels(c) == [""];
    } else {
      LevelsAppend(c[1..], e);
      LevelsCons(c[0], c[1..], c);
      LevelsCons(c[0], c[1..] + "/" + e, c + "/" + e);
      BehindAppend(c[0], Levels(c[1..]), Levels(e));
    }
  }

  lemma LevelsCons(x: char, t: string, s: string)
    requires s == [x] + t
    ensures Levels(s) == Behind(x, Levels(t))
  {
    assert s[1..] == t;
  }

  lemma BehindAppend(x: char, v: seq<string>, w: seq<string>)
    requires v != []
    ensures Behind(x, v + w) == Behind(x, v) + w
  {
    assert (v + w)[1..] == v[1..] + w;
  }

  /** All levels but empty ones; the last one stays even when it is empty. */
  function NonEmptyButLast(v: seq<string>): seq<string>
    requires v != []
  {
    if |v| == 1 then v
    else (if v[0] == "" then [] else [v[0]]) + NonEmptyButLast(v[1..])
  }

  predicate LeadingSlash(s: string) { s != "" && s[0] == '/' }

  /** One leading slash and then a single level, as in "/x" or "/". */
  predicate LoneSlash(s: string) { LeadingSlash(s) && '/' !in s[1..] }

  /** The segments of a channel. A leading slash is kept as part of the first segment,
      except that it is lost when no other slash follows. */
  function Split(s: string): (v: seq<string>)
    ensures v != []
  {
    if LoneSlash(s) then [s[1..]]
    else if LeadingSlash(s) then
      var v := Levels(s[1..]);
      if |v| == 1 then v else ["/" + v[0]] + NonEmptyButLast(v[1..])
    else NonEmptyButLast(Levels(s))
  }

  /** The segments of a channel with a leading slash and a second one at i. */
  lemma SplitFirst(s: string, i: nat)
    requires 1 <= i < |s| && s[0] == '/' && s[i] == '/' && Lacks(s, '/', 1, i)
    ensures Split(s) == [s[..i]] + NonEmptyButLast(Levels(s[i + 1..]))
  {
    var t := s[1..];
    LevelsAt(t, i - 1);
    assert t[i - 1] in t;
    assert t[i..] == s[i + 1..];
    assert s[..i] == "/" + t[..i - 1];
    assert Levels(t)[1..] == Levels(s[i + 1..]);
  }

  /** One turn of the loops of splitChannel: the piece before the slash is kept unless it
      is empty. */
  method SplitMore(s: string, v: seq<string>, last: nat, index: nat)
    returns (v': seq<string>, last': nat, index': Option<nat>)
    requires last <= index < |s| && Find(s, '/', last) == Some(index)
    ensures last' == index + 1 && index' == Find(s, '/', last')
    ensures v' + NonEmptyButLast(Levels(s[last'..])) == v + NonEmptyButLast(Levels(s[last..]))
  {
    v' := v;
    if index != last {
      v' := v' + [s[last..index]];
    }
    last' := index + 1;
    index' := Find(s, '/', last');
    PieceAt(s, last, index);
    assert v + [] == v;
    Associate(v, if index != last then [s[last..index]] else [], NonEmptyButLast(Levels(s[last'..])));
  }

  lemma PieceAt(s: string, last: nat, index: nat)
    requires last <= index < |s| && s[index] == '/' && Lacks(s, '/', last, index)
    ensures NonEmptyButLast(Levels(s[last..]))
         == (if index != last then [s[last..index]] else []) + NonEmptyButLast(Levels(s[index + 1..]))
  {
    var t := s[last..];
    LevelsAt(t, index - last);
    assert t[..index - last] == s[last..index];
    assert t[index - last + 1..] == s[index + 1..];
    assert Levels(t)[1..] == Levels(s[index + 1..]);
  }

  /** CppUtils::splitChannel. */
  method SplitChannel(s: string) returns (v: seq<string>)
    ensures v == Split(s)
  {
    var index := Find(s, '/', 0);
    if index == Some(0) {
      index := Find(s, '/', 1);
      if index.Some? {
        SplitFirst(s, index.value);
        v := SplitRest(s, [s[..index.value]], index.value + 1);
      } else {
        v := [s[1..]];
      }
    } else {
      assert s[0..] == s;
      v := SplitRest(s, [], 0);
    }
  }

  /** The loops at lines 111 and 131 of src/CppUtils.hpp, with the piece behind the last
      slash. */
  method SplitRest(s: string, front: seq<string>, from: nat) returns (v: seq<string>)
    requires from <= |s|
    ensures v == front + NonEmptyButLast(Levels(s[from..]))
  {
    v := front;
    var last := from;
    var index := Find(s, '/', last);
    while index.Some?
      invariant last <= |s| && index == Find(s, '/', last)
      invariant v + NonEmptyButLast(Levels(s[last..])) == front + NonEmptyButLast(Levels(s[from..]))
      decreases |s| - last
    {
      v, last, index := SplitMore(s, v, last, index.value);
    }
    OneLevel(s[last..]);
    v := v + [s[last..]];
  }

  // ----- splitting is undone by joining

  ghost predicate NoEmptyLevel(s: string) {
    forall i :: 0 <= i < |s| - 1 ==> !(s[i] == '/' && s[i + 1] == '/')
  }

  ghost predicate SlashFree(v: seq<string>) {
    forall i :: 0 <= i < |v| ==> '/' !in v[i]
  }

  lemma {:induction false} LevelsAreSlashFree(s: string)
    ensures SlashFree(Levels(s))
  {
    if s != "" {
      LevelsAreSlashFree(s[1..]);
    }
  }

  /** Without "//" only the first and the last level can be empty. */
  lemma {:induction false} EmptyLevels(s: string)
    requires NoEmptyLevel(s)
    ensures forall i :: 0 < i < |Levels(s)| - 1 ==> Levels(s)[i] != ""
    ensures Levels(s)[0] == "" <==> s == "" || s[0] == '/'
  {
    if s != "" {
      assert NoEmptyLevel(s[1..]) by {
        forall i | 0 <= i < |s[1..]| - 1 ensures !(s[1..][i] == '/' && s[1..][i + 1] == '/') {
          assert s[1..][i] == s[i + 1];
        }
      }
      EmptyLevels(s[1..]);
      if s[0] == '/' && s[1..] != "" {
        assert s[0 + 1] != '/';
      }
    }
  }

  lemma {:induction false} NothingDropped(v: seq<string>)
    requires v != [] && forall i :: 0 <= i < |v| - 1 ==> v[i] != ""
    ensures NonEmptyButLast(v) == v
  {
    if |v| > 1 {
      NothingDropped(v[1..]);
    }
  }

  /** The segments in terms of the levels: they are the levels, with the empty level in
      front of a leading slash merged into the next one. */
  lemma SplitIsLevels(s: string)
    requires NoEmptyLevel(s)
    ensures LoneSlash(s) ==> Levels(s) == [""] + Split(s)
    ensures LeadingSlash(s) && !LoneSlash(s) ==>
              |Levels(s)| >= 3 && Split(s) == ["/" + Levels(s)[1]] + Levels(s)[2..]
    ensures !LeadingSlash(s) ==> Split(s) == Levels(s)
  {
    EmptyLevels(s);
    if LoneSlash(s) {
      OneLevel(s[1..]);
      LevelsCons('/', s[1..], s);
    } else if LeadingSlash(s) {
      LevelsCons('/', s[1..], s);
      SeveralLevels(s[1..]);
      SplitLeading(s);
      MergedFirst(Levels(s[1..]));
    } else if s != "" {
      NothingDropped(Levels(s));
    }
  }

  lemma SeveralLevels(s: string)
    requires '/' in s
    ensures |Levels(s)| > 1
  {
    LevelsAreSlashFree(s);
    JoinLevels(s);
    assert '/' !in Levels(s)[0];
  }

  lemma SplitLeading(s: string)
    requires LeadingSlash(s) && !LoneSlash(s) && |Levels(s[1..])| > 1
    ensures Split(s) == ["/" + Levels(s[1..])[0]] + NonEmptyButLast(Levels(s[1..])[1..])
  {
  }

  lemma MergedFirst(v: seq<string>)
    requires |v| > 1
    requires forall i :: 0 < i < |v| ==> ([""] + v)[i] != ""
    ensures ["/" + v[0]] + NonEmptyButLast(v[1..]) == ["/" + ([""] + v)[1]] + ([""] + v)[2..]
  {
    forall i | 0 <= i < |v[1..]| - 1 ensures v[1..][i] != "" {
      assert ([""] + v)[i + 2] == v[i + 1];
    }
    NothingDropped(v[1..]);
    assert ([""] + v)[2..] == v[1..];
  }

  /** Splitting is undone by joining, for every string without "//", except exactly when
      the string is one leading slash and a single level. */
  lemma JoinSplit(s: string)
    requires NoEmptyLevel(s)
    ensures Join(Split(s)) == s <==> !LoneSlash(s)
    ensures LoneSlash(s) ==> Split(s) == [s[1..]] && "/" + Join(Split(s)) == s
  {
    SplitIsLevels(s);
    JoinLevels(s);
    if LeadingSlash(s) && !LoneSlash(s) {
      var v := Levels(s);
      assert v[0] == "" by { EmptyLevels(s); }
      assert Join(v) == "" + "/" + Join(v[1..]);
      assert Join(v[1..]) == v[1] + "/" + Join(v[2..]) by { assert v[1..][1..] == v[2..]; }
      assert Split(s)[1..] == v[2..];
      assert "" + "/" + (v[1] + "/" + Join(v[2..])) == "/" + v[1] + "/" + Join(v[2..]);
    }
  }

  /** Two channels have the same segments only if they are equal or are the pair "x" and
      "/x" of a single level with and without its leading slash. */
  lemma SplitInjective(c: string, d: string)
    requires c != "" && d != "" && NoEmptyLevel(c) && NoEmptyLevel(d)
    ensures Split(c) == Split(d) <==>
              c == d || (c == "/" + d && '/' !in d) || (d == "/" + c && '/' !in c)
  {
    JoinSplit(c);
    JoinSplit(d);
    if c == "/" + d && '/' !in d {
      SlashlessSplit(d);
      assert c[1..] == d;
    }
    if d == "/" + c && '/' !in c {
      SlashlessSplit(c);
      assert d[1..] == c;
    }
    if LoneSlash(c) { assert c == "/" + c[1..]; }
    if LoneSlash(d) { assert d == "/" + d[1..]; }
  }

  lemma SlashlessSplit(s: string)
    requires '/' !in s
    ensures Split(s) == [s]
  {
    OneLevel(s);
    assert s != "" ==> s[0] in s;
  }

  // ----- ancestry

  /** The topic c is d or one of its ancestors. */
  predicate IsAncestor(c: string, d: string) {
    c == d || c + "/" <= d
  }

  /** Whatever follows a proper prefix of the levels follows a slash. */
  lemma {:induction false} JoinPrefix(v: seq<string>, w: seq<string>)
    requires v != [] && v < w
    ensures Join(v) + "/" <= Join(w)
  {
    assert v[0] == w[0];
    if |v| > 1 {
      JoinPrefix(v[1..], w[1..]);
      assert Join(v) + "/" == v[0] + "/" + (Join(v[1..]) + "/");
    }
  }

  lemma SplitExtends(c: string, d: string)
    requires NoEmptyLevel(c) && NoEmptyLevel(d) && c + "/" <= d
    requires c != "" && !LoneSlash(c) && !LoneSlash(d)
    ensures Split(c) <= Split(d)
  {
    var e := d[|c| + 1..];
    assert d == c + "/" + e;
    assert c[0] == d[0];
    LevelsAppend(c, e);
    SplitIsLevels(c);
    SplitIsLevels(d);
    if LeadingSlash(c) {
      FirstMerged(Levels(c), Levels(e));
    }
  }

  lemma FirstMerged(v: seq<string>, w: seq<string>)
    requires |v| >= 3
    ensures ["/" + v[1]] + v[2..] <= ["/" + (v + w)[1]] + (v + w)[2..]
  {
    assert (v + w)[2..] == v[2..] + w;
  }

  /** Being a prefix of segments is being an ancestor, for channels that are not a
      leading slash and a single level. */
  lemma SplitPrefixIsAncestor(c: string, d: string)
    requires c != "" && d != "" && NoEmptyLevel(c) && NoEmptyLevel(d)
    requires !LoneSlash(c) && !LoneSlash(d)
    ensures Split(c) <= Split(d) <==> IsAncestor(c, d)
  {
    JoinSplit(c);
    JoinSplit(d);
    if Split(c) < Split(d) {
      JoinPrefix(Split(c), Split(d));
    } else if Split(c) <= Split(d) {
      assert Split(c) == Split(d);
    }
    if c + "/" <= d {
      SplitExtends(c, d);
    }
  }

  /** A channel without the slash that its segments lose. */
  function Base(s: string): string { if LoneSlash(s) then s[1..] else s }

  /** The branch of the tree on which c ends passes d's: c without its lost slash is d or
      an ancestor of d without its own. "/" has only itself below it. */
  predicate Covers(c: string, d: string) {
    if c == "/" then d == "/" else IsAncestor(Base(c), Base(d))
  }

  lemma SplitBase(s: string)
    requires NoEmptyLevel(s)
    ensures Split(Base(s)) == Split(s) && NoEmptyLevel(Base(s)) && !LoneSlash(Base(s))
  {
    if LoneSlash(s) {
      SlashlessSplit(s[1..]);
      NoSlashNoEmpty(s[1..]);
    }
  }

  lemma NoSlashNoEmpty(s: string)
    requires '/' !in s
    ensures NoEmptyLevel(s) && !LoneSlash(s)
  {
    forall i | 0 <= i < |s| - 1 ensures s[i] != '/' { assert s[i] in s; }
    assert s != "" ==> s[0] in s;
  }

  /** Only "/" and the empty string have an empty first segment. */
  lemma FirstSegment(s: string)
    requires s != "" && NoEmptyLevel(s)
    ensures Split(s)[0] == "" <==> s == "/"
    ensures s == "/" ==> Split(s) == [""]
  {
    SplitIsLevels(s);
    EmptyLevels(s);
    if s == "/" {
      assert s[1..] == "" && LoneSlash(s);
    } else if LoneSlash(s) {
      assert s == "/" + s[1..];
    }
  }

  lemma BaseEmpty(s: string)
    requires s != ""
    ensures Base(s) == "" <==> s == "/"
  {
    if LoneSlash(s) { assert s == "/" + s[1..]; }
  }

  /** The same for all channels: being a prefix of segments is being covered. */
  lemma SplitPrefixIff(c: string, d: string)
    requires c != "" && d != "" && NoEmptyLevel(c) && NoEmptyLevel(d)
    ensures Split(c) <= Split(d) <==> Covers(c, d)
    ensures !LoneSlash(c) && !LoneSlash(d) ==> (Covers(c, d) <==> IsAncestor(c, d))
  {
    FirstSegment(c);
    FirstSegment(d);
    BaseEmpty(c);
    BaseEmpty(d);
    if c != "/" && d != "/" {
      SplitBase(c);
      SplitBase(d);
      SplitPrefixIsAncestor(Base(c), Base(d));
    }
  }

  // ----- the validity check

  /** Position of the first "//". */
  function FindDoubleSlash(s: string, from: nat): (r: Option<nat>)
    ensures r.Some? ==> from <= r.value < |s| - 1 && s[r.value] == '/' && s[r.value + 1] == '/'
    ensures r.None? ==> forall i :: from <= i < |s| - 1 ==> !(s[i] == '/' && s[i + 1] == '/')
    decreases |s| - from
  {
    if from + 1 >= |s| then None
    else if s[from] == '/' && s[from + 1] == '/' then Some(from)
    else FindDoubleSlash(s, from + 1)
  }

  const MAX_TOPIC := 0xFFFF

  /** ChTree::isChannel, test by test. */
  predicate IsChannel(channel: string) {
    if |channel| > MAX_TOPIC then false
    else if FindDoubleSlash(channel, 0).Some? then false
    else
      var str := TrimSpec(channel);
      if str == "" then false
      else
        var pos := Find(str, '#', 0);
        if pos.Some? && pos.value != |str| - 1 then false
        else if pos.Some? && pos.value > 0 && str[pos.value - 1] != '/' then false
        else
          var pos := Find(str, '+', 0);
          if pos.Some? && pos.value > 0 && str[pos.value - 1] != '/' then false
          else if pos.Some? && pos.value < |str| - 1 && str[pos.value + 1] != '/' then false
          else true
  }

  /** '#' only as the whole last level (section 4.7.1.2 of MQTT 3.1.1). */
  ghost predicate HashRule(v: seq<string>) {
    forall i :: 0 <= i < |v| ==> '#' in v[i] ==> v[i] == "#" && i == |v| - 1
  }

  /** '+' only as a whole level (section 4.7.1.3 of MQTT 3.1.1). */
  ghost predicate PlusRule(v: seq<string>) {
    forall i :: 0 <= i < |v| ==> '+' in v[i] ==> v[i] == "+"
  }

  /** The first level that contains '+' is a '+' alone. */
  predicate FirstPlusRule(v: seq<string>) {
    v != [] ==> if '+' in v[0] then v[0] == "+" else FirstPlusRule(v[1..])
  }

  ghost predicate Alone(s: string, p: int)
    requires 0 <= p < |s|
  {
    (p > 0 ==> s[p - 1] == '/') && (p < |s| - 1 ==> s[p + 1] == '/')
  }

  /** The levels of s, one at a time: the first one and, if there is a slash, the rest. */
  lemma FirstLevel(s: string) returns (i: nat)
    ensures i <= |s| && Lacks(s, '/', 0, i) && (i < |s| ==> s[i] == '/')
    ensures Levels(s) == [s[..i]] + if i < |s| then Levels(s[i + 1..]) else []
  {
    var slash := Find(s, '/', 0);
    if slash == None {
      i := |s|;
      assert s[..i] == s;
      OneLevel(s);
    } else {
      i := slash.value;
      LevelsAt(s, i);
    }
  }

  /** A character is alone in the part after the first slash iff it is alone in s. */
  lemma RestAt(s: string, i: nat)
    requires i < |s| && s[i] == '/'
    ensures var rest := s[i + 1..];
            forall q :: 0 <= q < |rest| ==> rest[q] == s[i + 1 + q] && (Alone(rest, q) <==> Alone(s, i + 1 + q))
  {
  }

  lemma LevelHas(s: string, i: nat, c: char)
    requires i <= |s|
    ensures c !in s[..i] <==> Lacks(s, c, 0, i)
  {
    forall p | 0 <= p < i ensures s[p] in s[..i] {
      assert s[..i][p] == s[p];
    }
  }

  /** In a level without slashes only a level of one character is alone. */
  lemma AloneInLevel(s: string, i: nat, p: nat)
    requires p < i <= |s| && Lacks(s, '/', 0, i) && (i < |s| ==> s[i] == '/')
    ensures Alone(s, p) <==> i == 1
  {
    assert p > 0 ==> s[p - 1] != '/';
    assert p + 1 < i ==> s[p + 1] != '/';
  }

  lemma HashRuleTail(v: seq<string>)
    requires |v| > 1
    ensures HashRule(v) <==> '#' !in v[0] && HashRule(v[1..])
  {
    forall k | 0 <= k < |v| - 1 ensures v[1..][k] == v[k + 1] { }
    if '#' !in v[0] && HashRule(v[1..]) {
      forall k | 0 <= k < |v| && '#' in v[k] ensures v[k] == "#" && k == |v| - 1 {
        assert v[k] == v[1..][k - 1];
      }
    }
  }

  ghost predicate HashesLast(s: string) {
    forall p :: 0 <= p < |s| && s[p] == '#' ==> p == |s| - 1 && Alone(s, p)
  }

  lemma HashesLastTail(s: string, i: nat)
    requires i < |s| && s[i] == '/'
    ensures HashesLast(s) <==> Lacks(s, '#', 0, i) && HashesLast(s[i + 1..])
  {
    RestAt(s, i);
    var rest := s[i + 1..];
    if Lacks(s, '#', 0, i) && HashesLast(rest) {
      forall p | 0 <= p < |s| && s[p] == '#' ensures p == |s| - 1 && Alone(s, p) {
        assert rest[p - i - 1] == '#';
      }
    }
  }

  lemma {:induction false} HashLevels(s: string)
    ensures HashRule(Levels(s)) <==> HashesLast(s)
    decreases |s|
  {
    var i := FirstLevel(s);
    var v := Levels(s);
    LevelHas(s, i, '#');
    if i < |s| {
      HashLevels(s[i + 1..]);
      HashesLastTail(s, i);
      HashRuleTail(v);
      assert v[1..] == Levels(s[i + 1..]);
    } else {
      assert s[..i] == s;
      forall p | 0 <= p < |s| ensures Alone(s, p) <==> |s| == 1 {
        AloneInLevel(s, i, p);
      }
      assert |s| == 1 ==> s == [s[0]];
      assert v == [s] && HashRule(v) == ('#' in v[0] ==> v[0] == "#");
      if p :| 0 <= p < |s| && s[p] == '#' {
        assert HashesLast(s) ==> Alone(s, p);
      }
    }
  }

  lemma {:induction false} PlusLevels(s: string)
    ensures FirstPlusRule(Levels(s)) <==> (Find(s, '+', 0).Some? ==> Alone(s, Find(s, '+', 0).value))
    decreases |s|
  {
    var i := FirstLevel(s);
    var v := Levels(s);
    var plus := Find(s, '+', 0);
    LevelHas(s, i, '+');
    assert v[1..] == if i < |s| then Levels(s[i + 1..]) else [];
    if plus.Some? && plus.value < i {
      AloneInLevel(s, i, plus.value);
      assert i == 1 ==> s[..i] == [s[0]];
    } else if i < |s| {
      PlusLevels(s[i + 1..]);
      RestAt(s, i);
      PlusInRest(s, i);
    }
  }

  lemma PlusInRest(s: string, i: nat)
    requires i < |s| && Lacks(s, '+', 0, i) && s[i] != '+'
    ensures Find(s, '+', 0) == match Find(s[i + 1..], '+', 0) case None => None case Some(q) => Some(i + 1 + q)
  {
    var rest := s[i + 1..];
    var r := Find(rest, '+', 0);
    forall p | i < p < |s| ensures s[p] == rest[p - i - 1] { }
  }

  /** What the check accepts, for every string: at most 65535 characters, no "//", and,
      after trimming, something non-empty in which '#' is only the whole last level and
      the first level with a '+' is a '+' alone. */
  lemma IsChannelIff(c: string)
    ensures IsChannel(c) <==>
              && |c| <= MAX_TOPIC && NoEmptyLevel(c) && TrimSpec(c) != ""
              && HashRule(Levels(TrimSpec(c))) && FirstPlusRule(Levels(TrimSpec(c)))
  {
    var t := TrimSpec(c);
    HashLevels(t);
    PlusLevels(t);
  }

  // ----- the check against the standard

  /** What sections 4.7.1 and 4.7.3 of MQTT 3.1.1 ask of a topic filter: between 1 and 65535
      bytes, none of them zero, '#' only as the whole last level, '+' only as a whole level.
      Empty levels are allowed, and blanks are characters like any others. The characters of a
      string are the bytes of the source's. */
  ghost predicate Conforms(c: string) {
    c != "" && |c| <= MAX_TOPIC && '\0' !in c && HashRule(Levels(c)) && PlusRule(Levels(c))
  }

  ghost predicate PlussesAlone(s: string) {
    forall p :: 0 <= p < |s| && s[p] == '+' ==> Alone(s, p)
  }

  lemma PlusRuleTail(v: seq<string>)
    requires |v| > 1
    ensures PlusRule(v) <==> ('+' in v[0] ==> v[0] == "+") && PlusRule(v[1..])
  {
    forall k | 0 <= k < |v| - 1 ensures v[1..][k] == v[k + 1] { }
    if ('+' in v[0] ==> v[0] == "+") && PlusRule(v[1..]) {
      forall k | 0 <= k < |v| && '+' in v[k] ensures v[k] == "+" {
        assert k > 0 ==> v[k] == v[1..][k - 1];
      }
    }
  }

  lemma PlussesAloneTail(s: string, i: nat)
    requires i < |s| && s[i] == '/'
    ensures PlussesAlone(s) <==>
              (forall p :: 0 <= p < i && s[p] == '+' ==> Alone(s, p)) && PlussesAlone(s[i + 1..])
  {
    RestAt(s, i);
    var rest := s[i + 1..];
    if (forall p :: 0 <= p < i && s[p] == '+' ==> Alone(s, p)) && PlussesAlone(rest) {
      forall p | 0 <= p < |s| && s[p] == '+' ensures Alone(s, p) {
        assert p > i ==> rest[p - i - 1] == '+';
      }
    }
  }

  /** The first level obeys the rule for '+' iff each '+' in it is alone. */
  lemma PlusInLevel(s: string, i: nat)
    requires i <= |s| && Lacks(s, '/', 0, i) && (i < |s| ==> s[i] == '/')
    ensures ('+' in s[..i] ==> s[..i] == "+") <==> forall p :: 0 <= p < i && s[p] == '+' ==> Alone(s, p)
  {
    LevelHas(s, i, '+');
    forall p | 0 <= p < i ensures Alone(s, p) <==> i == 1 {
      AloneInLevel(s, i, p);
    }
    assert i == 1 ==> s[..i] == [s[0]];
  }

  lemma {:induction false} PlusRuleLevels(s: string)
    ensures PlusRule(Levels(s)) <==> PlussesAlone(s)
    decreases |s|
  {
    var i := FirstLevel(s);
    var v := Levels(s);
    PlusInLevel(s, i);
    if i < |s| {
      PlusRuleLevels(s[i + 1..]);
      PlussesAloneTail(s, i);
      PlusRuleTail(v);
      assert v[1..] == Levels(s[i + 1..]);
    } else {
      assert s[..i] == s;
      assert v == [s] && PlusRule(v) == ('+' in v[0] ==> v[0] == "+");
    }
  }

  predicate IsWildcard(x: char) { x == '#' || x == '+' }

  /** A blank at an end of c stands next to a wildcard at an end of t. */
  predicate BlankBeside(c: string, t: string) {
    c != "" && t != "" &&
    ((IsBlank(c[0]) && IsWildcard(t[0])) || (IsBlank(c[|c| - 1]) && IsWildcard(t[|t| - 1])))
  }

  /** The trimmed text begins or ends with a wildcard where a blank was cut. */
  predicate BlankBesideWildcard(c: string) { BlankBeside(c, TrimSpec(c)) }

  /** A '+' after the first one has something other than a slash or an end beside it. */
  ghost predicate LaterPlus(t: string) {
    exists q, p :: 0 <= q < p < |t| && t[q] == '+' && t[p] == '+' && !Alone(t, p)
  }

  /** c is t between the blanks a and b. */
  ghost predicate Between(c: string, a: string, t: string, b: string) {
    c == a + t + b && Blank(a) && Blank(b) && t != "" && !IsBlank(t[0]) && !IsBlank(t[|t| - 1])
  }

  lemma AloneBetween(c: string, a: string, t: string, b: string, p: nat)
    requires Between(c, a, t, b) && p < |t|
    ensures c[|a| + p] == t[p]
    ensures Alone(c, |a| + p) <==> Alone(t, p) && (p == 0 ==> a == "") && (p == |t| - 1 ==> b == "")
  {
    var k := |a| + p;
    assert p > 0 ==> c[k - 1] == t[p - 1];
    assert p == 0 && a != "" ==> c[k - 1] == a[|a| - 1];
    assert p < |t| - 1 ==> c[k + 1] == t[p + 1];
    assert p == |t| - 1 && b != "" ==> c[k + 1] == b[0];
  }

  lemma WildcardBetween(c: string, a: string, t: string, b: string, k: nat)
    requires Between(c, a, t, b) && k < |c| && IsWildcard(c[k])
    ensures |a| <= k < |a| + |t| && c[k] == t[k - |a|]
  {
    forall j | 0 <= j < |a| ensures IsBlank(c[j]) { assert c[j] == a[j]; }
    forall j | |a| + |t| <= j < |c| ensures IsBlank(c[j]) { assert c[j] == b[j - |a| - |t|]; }
  }

  /** The two rules for c, in terms of the text between its blanks. */
  lemma HashesBetween(c: string, a: string, t: string, b: string)
    requires Between(c, a, t, b)
    ensures HashesLast(c) <==>
              forall p :: 0 <= p < |t| && t[p] == '#' ==>
                p == |t| - 1 && Alone(t, p) && b == "" && (p == 0 ==> a == "")
  {
    if HashesLast(c) {
      forall p | 0 <= p < |t| && t[p] == '#'
        ensures p == |t| - 1 && Alone(t, p) && b == "" && (p == 0 ==> a == "")
      {
        AloneBetween(c, a, t, b, p);
      }
    } else {
      var k :| 0 <= k < |c| && c[k] == '#' && !(k == |c| - 1 && Alone(c, k));
      WildcardBetween(c, a, t, b, k);
      AloneBetween(c, a, t, b, k - |a|);
    }
  }

  lemma PlussesBetween(c: string, a: string, t: string, b: string)
    requires Between(c, a, t, b)
    ensures PlussesAlone(c) <==>
              forall p :: 0 <= p < |t| && t[p] == '+' ==>
                Alone(t, p) && (p == 0 ==> a == "") && (p == |t| - 1 ==> b == "")
  {
    if PlussesAlone(c) {
      forall p | 0 <= p < |t| && t[p] == '+'
        ensures Alone(t, p) && (p == 0 ==> a == "") && (p == |t| - 1 ==> b == "")
      {
        AloneBetween(c, a, t, b, p);
      }
    } else {
      var k :| 0 <= k < |c| && c[k] == '+' && !Alone(c, k);
      WildcardBetween(c, a, t, b, k);
      AloneBetween(c, a, t, b, k - |a|);
    }
  }

  lemma BlankBesideBetween(c: string, a: string, t: string, b: string)
    requires Between(c, a, t, b)
    ensures BlankBeside(c, t) <==> (a != "" && IsWildcard(t[0])) || (b != "" && IsWildcard(t[|t| - 1]))
  {
    assert c[0] == if a != "" then a[0] else t[0];
    assert c[|c| - 1] == if b != "" then b[|b| - 1] else t[|t| - 1];
  }

  /** A blank beside a wildcard, or a later '+' that is not alone, breaks the rules. */
  lemma RulesBroken(c: string, a: string, t: string, b: string)
    requires Between(c, a, t, b) && (BlankBeside(c, t) || LaterPlus(t))
    ensures !HashesLast(c) || !PlussesAlone(c)
  {
    BlankBesideBetween(c, a, t, b);
    AloneBetween(c, a, t, b, 0);
    AloneBetween(c, a, t, b, |t| - 1);
    if LaterPlus(t) {
      var q, p :| 0 <= q < p < |t| && t[q] == '+' && t[p] == '+' && !Alone(t, p);
      AloneBetween(c, a, t, b, p);
    }
  }

  /** When the text between the blanks has its '#' last and its first '+' alone, nothing
      else does. */
  lemma RulesKept(c: string, a: string, t: string, b: string)
    requires Between(c, a, t, b) && !BlankBeside(c, t) && !LaterPlus(t)
    requires HashesLast(t) && (Find(t, '+', 0).Some? ==> Alone(t, Find(t, '+', 0).value))
    ensures HashesLast(c) && PlussesAlone(c)
  {
    BlankBesideBetween(c, a, t, b);
    PlussesOfText(t);
    HashesKept(c, a, t, b);
    PlussesKept(c, a, t, b);
  }

  lemma HashesKept(c: string, a: string, t: string, b: string)
    requires Between(c, a, t, b) && HashesLast(t)
    requires (IsWildcard(t[0]) ==> a == "") && (IsWildcard(t[|t| - 1]) ==> b == "")
    ensures HashesLast(c)
  {
    forall k | 0 <= k < |c| && c[k] == '#' ensures k == |c| - 1 && Alone(c, k) {
      WildcardBetween(c, a, t, b, k);
      AloneBetween(c, a, t, b, k - |a|);
    }
  }

  lemma PlussesKept(c: string, a: string, t: string, b: string)
    requires Between(c, a, t, b) && PlussesAlone(t)
    requires (IsWildcard(t[0]) ==> a == "") && (IsWildcard(t[|t| - 1]) ==> b == "")
    ensures PlussesAlone(c)
  {
    forall k | 0 <= k < |c| && c[k] == '+' ensures Alone(c, k) {
      WildcardBetween(c, a, t, b, k);
      AloneBetween(c, a, t, b, k - |a|);
    }
  }

  /** Every '+' is the first one or a later one. */
  lemma PlussesOfText(t: string)
    requires (Find(t, '+', 0).Some? ==> Alone(t, Find(t, '+', 0).value)) && !LaterPlus(t)
    ensures PlussesAlone(t)
  {
    forall p | 0 <= p < |t| && t[p] == '+' ensures Alone(t, p) {
      var q := Find(t, '+', 0).value;
      if q < p { assert t[q] == '+' && t[p] == '+'; }
    }
  }

  /** When c obeys the rules, so does the text between its blanks. */
  lemma RulesInside(c: string, a: string, t: string, b: string)
    requires Between(c, a, t, b) && HashesLast(c) && PlussesAlone(c)
    ensures HashesLast(t) && (Find(t, '+', 0).Some? ==> Alone(t, Find(t, '+', 0).value))
  {
    HashesBetween(c, a, t, b);
    PlussesBetween(c, a, t, b);
  }

  /** The check against the standard, for every string. A channel that it accepts breaks the
      rules exactly when a blank at an end stands next to a wildcard, a '+' after the first one
      is not a level of its own, or there is a zero in it. A topic filter that it rejects
      although it conforms has "//" in it or consists of blanks. */
  lemma IsChannelAgainstRules(c: string)
    ensures IsChannel(c) ==>
      (Conforms(c) <==> !BlankBesideWildcard(c) && !LaterPlus(TrimSpec(c)) && '\0' !in c)
    ensures Conforms(c) ==> (IsChannel(c) <==> NoEmptyLevel(c) && TrimSpec(c) != "")
  {
    IsChannelIff(c);
    var t := TrimSpec(c);
    HashLevels(t);
    PlusLevels(t);
    HashLevels(c);
    PlusRuleLevels(c);
    if t != "" {
      var a, b := TrimCuts(c);
      if BlankBesideWildcard(c) || LaterPlus(t) {
        RulesBroken(c, a, t, b);
      } else if IsChannel(c) {
        RulesKept(c, a, t, b);
      }
      if Conforms(c) {
        RulesInside(c, a, t, b);
      }
    }
  }

  /** A string without blanks at its ends is accepted, without a misused later '+' and without
      a zero, exactly when it conforms and has no "//". */
  lemma IsChannelOfTrimmed(c: string)
    requires TrimSpec(c) == c
    ensures IsChannel(c) && !LaterPlus(c) && '\0' !in c <==> Conforms(c) && NoEmptyLevel(c)
  {
    IsChannelAgainstRules(c);
    IsChannelIff(c);
    var a, b := TrimCuts(c);
  }

  // ----- where they differ

  lemma NotTrimmed(c: string)
    requires c != "" && !IsBlank(c[0]) && !IsBlank(c[|c| - 1])
    ensures TrimSpec(c) == c
  {
  }

  /** A second '+' is not looked at. */
  lemma SecondPlusUnchecked()
    ensures IsChannel("+/a+") && !Conforms("+/a+")
  {
    var c := "+/a+";
    NotTrimmed(c);
    assert c[0] == '+' && c[3] == '+' && !Alone(c, 3);
    assert LaterPlus(c);
    IsChannelAgainstRules(c);
    assert Find(c, '#', 0) == None && Find(c, '+', 0) == Some(0);
  }

  /** Nor is a blank behind a wildcard, although the tree is given the untrimmed segments. */
  lemma BlankBehindHash()
    ensures IsChannel("a/# ") && !Conforms("a/# ") && Split("a/# ") == ["a", "# "]
  {
    var c, t := "a/# ", "a/#";
    assert c[..3] == t;
    NotTrimmed(t);
    assert TrimSpec(c) == t;
    assert Find(t, '#', 0) == Some(2) && Find(t, '+', 0) == None;
    IsChannelAgainstRules(c);
    SplitAtSlash("a", "# ", c);
  }

  lemma BlankBehindPlus()
    ensures IsChannel("+ ") && !Conforms("+ ") && Split("+ ") == ["+ "]
  {
    var c, t := "+ ", "+";
    assert c[..1] == t;
    NotTrimmed(t);
    assert TrimSpec(c) == t;
    assert Find(t, '#', 0) == None && Find(t, '+', 0) == Some(0);
    IsChannelAgainstRules(c);
    SlashlessSplit(c);
  }

  lemma SplitAtSlash(x: string, y: string, c: string)
    requires c == x + "/" + y && x != "" && '/' !in x && '/' !in y
    ensures Split(c) == [x, y]
  {
    LevelsAppend(x, y);
    OneLevel(x);
    OneLevel(y);
    assert c[0] == x[0] && x[0] in x;
    var v := [x] + [y];
    assert Levels(c) == v && v[0] != "" && v[1..] == [y];
    assert NonEmptyButLast(v) == [x] + NonEmptyButLast([y]);
  }

  /** Nor is a zero, which section 4.7.3 forbids. */
  lemma ZeroUnchecked()
    ensures IsChannel("a\0b") && !Conforms("a\0b") && HashRule(Levels("a\0b")) && PlusRule(Levels("a\0b"))
  {
    var c := "a\0b";
    NotTrimmed(c);
    assert c[1] == '\0';
    assert Find(c, '#', 0) == None && Find(c, '+', 0) == None;
    HashLevels(c);
    PlusRuleLevels(c);
    IsChannelAgainstRules(c);
  }

  /** And an empty level is rejected although it is allowed. */
  lemma EmptyLevelRejected()
    ensures !IsChannel("a//b") && Conforms("a//b")
  {
    var c := "a//b";
    assert c[1] == '/' && c[1 + 1] == '/';
    IsChannelIff(c);
    HashLevels(c);
    PlusRuleLevels(c);
  }
}
