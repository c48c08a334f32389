/** The channel tree as a map from paths to nodes: what adding, removing and looking up
    a path mean, and the properties that follow (src/ChTree.hpp). */
module ChannelPaths {
  import opened Basics
  import opened Topics

  type Path = seq<string>

  /** What a node holds besides its children: messages and users, each with the counter
      that is kept beside the list. */
  datatype Load = Load(messages: seq<string>, msgSize: int, users: seq<string>, userSize: int)

  const NO_LOAD := Load([], 0, [], 0)

  /** A node: the names of its children in order, the counter kept beside them, the rest. */
  datatype Node = Node(kids: seq<string>, nodeSize: int, load: Load)

  type Tree = map<Path, Node>

  const INIT_TREE: Tree := map[[] := Node([], 0, NO_LOAD)]

  function Parent(p: Path): Path
    requires p != []
  {
    p[..|p| - 1]
  }

  function Last(p: Path): string
    requires p != []
  {
    p[|p| - 1]
  }

  /** Node p hangs in its parent, its children are paths, siblings have different names,
      and the counter is the number of children. */
  ghost predicate NodeOk(t: Tree, p: Path)
    requires p in t
  {
    && (p != [] ==> Parent(p) in t && Last(p) in t[Parent(p)].kids)
    && (forall x :: x in t[p].kids ==> p + [x] in t)
    && Distinct(t[p].kids)
    && t[p].nodeSize == |t[p].kids|
  }

  ghost predicate WellFormed(t: Tree) {
    [] in t && forall p {:trigger NodeOk(t, p)} :: p in t ==> NodeOk(t, p)
  }

  // ----- adding

  function AddChild(t: Tree, q: Path, x: string): Tree
    requires q in t
  {
    t[q := t[q].(kids := t[q].kids + [x], nodeSize := t[q].nodeSize + 1)][q + [x] := Node([], 0, NO_LOAD)]
  }

  /** Walks along p from its prefix of length k, adding what is missing. */
  function AddFrom(t: Tree, p: Path, k: nat): (u: Tree)
    requires k <= |p| && p[..k] in t
    ensures t.Keys <= u.Keys
    decreases |p| - k
  {
    if k == |p| then t
    else
      assert p[..k + 1] == p[..k] + [p[k]];
      if p[..k + 1] in t then AddFrom(t, p, k + 1)
      else AddFrom(AddChild(t, p[..k], p[k]), p, k + 1)
  }

  lemma AddOne(t: Tree, p: Path, k: nat)
    requires k < |p| && p[..k] in t
    ensures p[..k + 1] == p[..k] + [p[k]]
    ensures p[..k + 1] in t ==> AddFrom(t, p, k) == AddFrom(t, p, k + 1)
    ensures p[..k + 1] !in t ==> AddFrom(t, p, k) == AddFrom(AddChild(t, p[..k], p[k]), p, k + 1)
  {
  }

  function AddPath(t: Tree, p: Path): Tree
    requires [] in t
  {
    AddFrom(t, p, 0)
  }

  // ----- removing

  /** std::list::remove on the names. */
  function Without(s: seq<string>, x: string): seq<string> {
    if s == [] then [] else (if s[0] == x then [] else [s[0]]) + Without(s[1..], x)
  }

  /** Takes the node at q, and all below it, out of its parent. */
  function Detach(t: Tree, q: Path): Tree
    requires q != []
  {
    map r | r in t && !(q <= r) ::
      if r == Parent(q) then t[r].(kids := Without(t[r].kids, Last(q)), nodeSize := t[r].nodeSize - 1) else t[r]
  }

  /** The longest prefix of p that is a path of the tree, looking on from length k. */
  function LongestFrom(t: Tree, p: Path, k: nat): (m: nat)
    requires k <= |p| && p[..k] in t
    ensures k <= m <= |p| && p[..m] in t
    ensures forall i :: k <= i <= m ==> p[..i] in t
    ensures m < |p| ==> p[..m + 1] !in t
    decreases |p| - k
  {
    if k < |p| && p[..k + 1] in t then LongestFrom(t, p, k + 1) else k
  }

  function Longest(t: Tree, p: Path): (m: nat)
    requires [] in t
    ensures m <= |p| && p[..m] in t && (m < |p| ==> p[..m + 1] !in t)
    ensures forall i :: 0 <= i <= m ==> p[..i] in t
  {
    LongestFrom(t, p, 0)
  }

  lemma LongestIs(t: Tree, p: Path, k: nat)
    requires k <= |p| && [] in t && forall i :: 0 <= i <= k ==> p[..i] in t
    requires k < |p| ==> p[..k + 1] !in t
    ensures Longest(t, p) == k
  {
    var m := Longest(t, p);
    assert p[..m] in t;
  }

  /** A node that is left without children and has no users goes with its last child. */
  predicate Emptied(n: Node) {
    n.nodeSize - 1 == 0 && n.load.userSize == 0
  }

  /** Where the removed part begins: the climb from length k goes on while the parent is
      not the root and would be left empty. */
  function CutFrom(t: Tree, p: Path, k: nat): (c: nat)
    requires 1 <= k <= |p| && forall i :: 0 <= i < k ==> p[..i] in t
    ensures 1 <= c <= k
  {
    if k >= 2 && Emptied(t[p[..k - 1]]) then CutFrom(t, p, k - 1) else k
  }

  function RemovePath(t: Tree, p: Path): Tree
    requires [] in t
  {
    var m := Longest(t, p);
    if m == 0 then t else Detach(t, p[..CutFrom(t, p, m)])
  }

  // ----- looking up

  /** ChTree::findNode: None is nullptr. */
  function FindFrom(t: Tree, p: Path, pos: nat, q: Path): Option<Path>
    requires q in t && WellFormed(t)
    decreases |p| - pos
  {
    assert NodeOk(t, q);
    if pos < |p| then
      if p[pos] !in t[q].kids then
        if q == [] then None else Some(q)
      else if pos + 1 < |p| then FindFrom(t, p, pos + 1, q + [p[pos]])
      else Some(q + [p[pos]])
    else None
  }

  // ===== properties

  lemma ChildIsPath(t: Tree, q: Path, x: string)
    requires WellFormed(t) && q in t
    ensures x in t[q].kids <==> q + [x] in t
  {
    assert NodeOk(t, q);
    if q + [x] in t {
      assert NodeOk(t, q + [x]);
      assert Parent(q + [x]) == q && Last(q + [x]) == x;
    }
  }

  /** The lookup returns the node of the longest present prefix, and nothing iff not even
      the first segment is present. */
  lemma {:induction false} FindFromIsLongest(t: Tree, p: Path, pos: nat)
    requires WellFormed(t) && pos < |p| && p[..pos] in t
    ensures FindFrom(t, p, pos, p[..pos])
         == if LongestFrom(t, p, pos) == 0 then None else Some(p[..LongestFrom(t, p, pos)])
    decreases |p| - pos
  {
    ChildIsPath(t, p[..pos], p[pos]);
    assert p[..pos + 1] == p[..pos] + [p[pos]];
    if p[..pos + 1] in t && pos + 1 < |p| {
      FindFromIsLongest(t, p, pos + 1);
    }
  }

  lemma FindIsLongest(t: Tree, p: Path)
    requires WellFormed(t) && p != []
    ensures FindFrom(t, p, 0, []) == if Longest(t, p) == 0 then None else Some(p[..Longest(t, p)])
    ensures Longest(t, p) == 0 <==> [p[0]] !in t
  {
    assert p[..0] == [];
    assert p[..1] == [p[0]];
    FindFromIsLongest(t, p, 0);
  }

  // ----- adding

  lemma AddChildKeeps(t: Tree, q: Path, x: string)
    requires WellFormed(t) && q in t && q + [x] !in t
    ensures WellFormed(AddChild(t, q, x))
  {
    var u := AddChild(t, q, x);
    ChildIsPath(t, q, x);
    assert q != q + [x];
    forall p | p in u ensures NodeOk(u, p) {
      if p == q + [x] {
        assert Parent(p) == q && Last(p) == x;
      } else {
        assert NodeOk(t, p);
      }
    }
  }

  lemma {:induction false} AddFromKeeps(t: Tree, p: Path, k: nat)
    requires WellFormed(t) && k <= |p| && p[..k] in t
    ensures WellFormed(AddFrom(t, p, k))
    decreases |p| - k
  {
    if k < |p| {
      assert p[..k + 1] == p[..k] + [p[k]];
      if p[..k + 1] in t {
        AddFromKeeps(t, p, k + 1);
      } else {
        AddChildKeeps(t, p[..k], p[k]);
        AddFromKeeps(AddChild(t, p[..k], p[k]), p, k + 1);
      }
    }
  }

  lemma {:induction false} AddFromPaths(t: Tree, p: Path, k: nat)
    requires k <= |p| && p[..k] in t
    ensures forall r :: r in AddFrom(t, p, k) <==> r in t || (r <= p && |r| > k)
    decreases |p| - k
  {
    if k < |p| {
      assert p[..k + 1] == p[..k] + [p[k]];
      forall r | r <= p && |r| == k + 1 ensures r == p[..k + 1] { }
      if p[..k + 1] in t {
        AddFromPaths(t, p, k + 1);
      } else {
        AddFromPaths(AddChild(t, p[..k], p[k]), p, k + 1);
      }
    }
  }

  lemma {:induction false} AddFromNodes(t: Tree, p: Path, k: nat, r: Path)
    requires k <= |p| && p[..k] in t
    ensures var u := AddFrom(t, p, k);
            && (r in t ==> r in u && u[r].load == t[r].load && t[r].kids <= u[r].kids)
            && (r in u && r !in t ==> u[r].load == NO_LOAD)
    decreases |p| - k
  {
    if k < |p| {
      assert p[..k + 1] == p[..k] + [p[k]];
      if p[..k + 1] in t {
        AddFromNodes(t, p, k + 1, r);
      } else {
        AddFromNodes(AddChild(t, p[..k], p[k]), p, k + 1, r);
      }
    }
  }

  /** Adding a path adds exactly its prefixes, leaves users and messages of the nodes that
      were there alone, and keeps the tree well formed. */
  lemma AddExact(t: Tree, p: Path)
    requires WellFormed(t)
    ensures var u := AddPath(t, p);
            && WellFormed(u)
            && (forall r :: r in u <==> r in t || r <= p)
            && (forall r :: r in t ==> u[r].load == t[r].load && t[r].kids <= u[r].kids)
            && (forall r :: r in u && r !in t ==> u[r].load == NO_LOAD)
  {
    assert p[..0] == [];
    AddFromKeeps(t, p, 0);
    AddFromPaths(t, p, 0);
    forall r
      ensures r in t ==> r in AddPath(t, p) && AddPath(t, p)[r].load == t[r].load && t[r].kids <= AddPath(t, p)[r].kids
      ensures r in AddPath(t, p) && r !in t ==> AddPath(t, p)[r].load == NO_LOAD
    {
      AddFromNodes(t, p, 0, r);
    }
  }

  lemma {:induction false} AddFromPresent(t: Tree, p: Path, k: nat)
    requires k <= |p| && forall r :: r <= p ==> r in t
    ensures AddFrom(t, p, k) == t
    decreases |p| - k
  {
    assert p[..k] <= p;
    if k < |p| {
      assert p[..k + 1] <= p;
      AddFromPresent(t, p, k + 1);
    }
  }

  /** Adding a path twice is adding it once. */
  lemma AddIdempotent(t: Tree, p: Path)
    requires WellFormed(t)
    ensures [] in AddPath(t, p) && AddPath(AddPath(t, p), p) == AddPath(t, p)
  {
    AddExact(t, p);
    AddFromPresent(AddPath(t, p), p, 0);
  }

  // ----- removing

  lemma {:induction false} WithoutIs(s: seq<string>, x: string)
    requires Distinct(s)
    ensures forall y :: y in Without(s, x) <==> y in s && y != x
    ensures Distinct(Without(s, x))
    ensures |Without(s, x)| == |s| - if x in s then 1 else 0
  {
    if s != [] {
      assert forall i, j :: 0 <= i < j < |s[1..]| ==> s[1..][i] == s[i + 1] && s[1..][j] == s[j + 1];
      WithoutIs(s[1..], x);
      assert s == [s[0]] + s[1..];
      assert s[0] !in s[1..];
    }
  }

  lemma {:induction false} WithoutLast(s: seq<string>, x: string)
    requires x !in s
    ensures Without(s + [x], x) == s
  {
    if s == [] {
      assert s + [x] == [x];
    } else {
      assert (s + [x])[1..] == s[1..] + [x];
      WithoutLast(s[1..], x);
    }
  }

  lemma DetachKeeps(t: Tree, q: Path)
    requires WellFormed(t) && q != [] && q in t
    ensures WellFormed(Detach(t, q))
    ensures Parent(q) in Detach(t, q)
  {
    var u := Detach(t, q);
    assert NodeOk(t, q);
    assert q == Parent(q) + [Last(q)];
    forall p | p in u ensures NodeOk(u, p) {
      assert NodeOk(t, p);
      WithoutIs(t[p].kids, Last(q));
      if p != [] {
        assert !(q <= Parent(p));
        assert p == Parent(p) + [Last(p)];
        WithoutIs(t[Parent(p)].kids, Last(q)) by { assert NodeOk(t, Parent(p)); }
      }
      forall x | x in u[p].kids ensures p + [x] in u {
        assert q <= p + [x] ==> q <= p || q == p + [x];
      }
    }
  }

  /** Taking a node out after its child is taking the node out. */
  lemma DetachTwice(t: Tree, p: Path, k: nat)
    requires 1 <= k < |p|
    ensures Detach(Detach(t, p[..k + 1]), p[..k]) == Detach(t, p[..k])
  {
    var q, r := p[..k + 1], p[..k];
    assert Parent(q) == r;
    assert r <= q;
  }

  /** The climb stops at the first parent that is the root or would not be left empty. */
  lemma {:induction false} CutExact(t: Tree, p: Path, k: nat)
    requires 1 <= k <= |p| && forall i :: 0 <= i < k ==> p[..i] in t
    ensures var c := CutFrom(t, p, k);
            && (forall i :: c <= i < k ==> Emptied(t[p[..i]]))
            && (c >= 2 ==> !Emptied(t[p[..c - 1]]))
  {
    if k >= 2 && Emptied(t[p[..k - 1]]) {
      CutExact(t, p, k - 1);
    }
  }

  /** What a present prefix of p says about the node before its last segment. */
  lemma OnPath(t: Tree, p: Path, i: nat)
    requires WellFormed(t) && i < |p| && p[..i] in t && p[..i + 1] in t
    ensures p[i] in t[p[..i]].kids && Distinct(t[p[..i]].kids)
    ensures Emptied(t[p[..i]]) <==> t[p[..i]].kids == [p[i]] && t[p[..i]].load.userSize == 0
  {
    assert NodeOk(t, p[..i]) && NodeOk(t, p[..i + 1]);
    assert Parent(p[..i + 1]) == p[..i] && Last(p[..i + 1]) == p[i];
  }

  /** Length c is where the climb from length m along p ends: every node passed has no
      other child and no users, and the climb stopped below the root or below a node with
      another child or with users. */
  ghost predicate IsCut(t: Tree, p: Path, m: nat, c: nat)
    requires m <= |p| && forall i :: 0 <= i <= m ==> p[..i] in t
  {
    && 1 <= c <= m
    && (forall i :: c <= i < m ==> t[p[..i]].kids == [p[i]] && t[p[..i]].load.userSize == 0)
    && (c == 1 || |t[p[..c - 1]].kids| > 1 || t[p[..c - 1]].load.userSize != 0)
  }

  lemma CutIsCut(t: Tree, p: Path, m: nat)
    requires WellFormed(t) && 1 <= m <= |p| && forall i :: 0 <= i <= m ==> p[..i] in t
    ensures IsCut(t, p, m, CutFrom(t, p, m))
  {
    var c := CutFrom(t, p, m);
    CutExact(t, p, m);
    forall i | c <= i < m ensures t[p[..i]].kids == [p[i]] && t[p[..i]].load.userSize == 0 {
      OnPath(t, p, i);
    }
    OnPath(t, p, c - 1);
    if c >= 2 && |t[p[..c - 1]].kids| == 1 {
      assert t[p[..c - 1]].kids == [t[p[..c - 1]].kids[0]];
    }
  }

  /** The exact effect of removing a path from any well-formed tree. With m the length of
      its longest present prefix, nothing happens if m is 0; otherwise exactly the paths at
      or below the cut disappear, and every other node is as before, but for the parent of
      the cut, which loses that child from its list and from its counter. */
  lemma RemoveExact(t: Tree, p: Path) returns (m: nat, c: nat)
    requires WellFormed(t)
    ensures m == Longest(t, p) && WellFormed(RemovePath(t, p))
    ensures m == 0 ==> RemovePath(t, p) == t
    ensures m > 0 ==> IsCut(t, p, m, c)
    ensures m > 0 ==>
      var u := RemovePath(t, p);
      var parent := p[..c - 1];
      && (forall r :: r in u <==> r in t && !(p[..c] <= r))
      && (forall r :: r in u && r != parent ==> u[r] == t[r])
      && parent in u && u[parent] == Node(Without(t[parent].kids, p[c - 1]), t[parent].nodeSize - 1, t[parent].load)
  {
    m, c := Longest(t, p), 0;
    if m > 0 {
      c := CutFrom(t, p, m);
      CutIsCut(t, p, m);
      assert Parent(p[..c]) == p[..c - 1] && Last(p[..c]) == p[c - 1];
      DetachKeeps(t, p[..c]);
    }
  }

  /** Removing never takes the root, and leaves no empty userless node behind on the path
      but for the root. */
  lemma RemoveLeavesNoEmpty(t: Tree, p: Path, i: nat)
    requires WellFormed(t) && i <= |p|
    ensures [] in RemovePath(t, p)
    ensures var u := RemovePath(t, p);
            0 < i < Longest(t, p) && p[..i] in u ==> u[p[..i]].kids != [] || u[p[..i]].load.userSize != 0
  {
    var m, c := RemoveExact(t, p);
    if 0 < i < m && p[..i] in RemovePath(t, p) {
      if i < c - 1 {
        OnPath(t, p, i);
      } else {
        assert p[..c] <= p[..c];
        assert i == c - 1;
        OnPath(t, p, c - 1);
        WithoutIs(t[p[..c - 1]].kids, p[c - 1]);
      }
    }
  }

  // ----- removing what was just added

  /** The nodes that adding makes below the last present prefix, of length k. */
  lemma {:induction false} AddFresh(t: Tree, p: Path, k: nat)
    requires k < |p| && p[..k] in t && forall i :: k < i <= |p| ==> p[..i] !in t
    ensures var u := AddFrom(t, p, k);
            && (forall r :: r in t && r != p[..k] ==> u[r] == t[r])
            && u[p[..k]] == Node(t[p[..k]].kids + [p[k]], t[p[..k]].nodeSize + 1, t[p[..k]].load)
            && forall i :: k < i <= |p| ==>
                 p[..i] in u && u[p[..i]] == if i < |p| then Node([p[i]], 1, NO_LOAD) else Node([], 0, NO_LOAD)
    decreases |p| - k
  {
    assert p[..k + 1] == p[..k] + [p[k]];
    assert forall i, j :: 0 <= i < j <= |p| ==> |p[..i]| != |p[..j]|;
    var s := AddChild(t, p[..k], p[k]);
    if k + 1 < |p| {
      forall i | k + 1 < i <= |p| ensures p[..i] !in s {
        assert |p[..i]| != |p[..k + 1]|;
      }
      AddFresh(s, p, k + 1);
    }
  }

  /** Walking along what is present changes nothing. */
  lemma {:induction false} AddSkips(t: Tree, p: Path, k: nat, m: nat)
    requires k <= m <= |p| && forall i :: k <= i <= m ==> p[..i] in t
    ensures AddFrom(t, p, k) == AddFrom(t, p, m)
    decreases m - k
  {
    if k < m {
      assert p[..k + 1] in t;
      AddSkips(t, p, k + 1, m);
    }
  }

  lemma PrefixClosed(t: Tree, p: Path, i: nat, j: nat)
    requires WellFormed(t) && i <= j <= |p| && p[..j] in t
    ensures p[..i] in t
    decreases j
  {
    if i < j {
      assert NodeOk(t, p[..j]);
      assert Parent(p[..j]) == p[..j - 1];
      PrefixClosed(t, p, i, j - 1);
    }
  }

  lemma AddShape(t: Tree, p: Path)
    requires WellFormed(t) && p !in t
    ensures var k := Longest(t, p);
            && k < |p| && AddPath(t, p) == AddFrom(t, p, k)
            && forall i :: k < i <= |p| ==> p[..i] !in t
  {
    var k := Longest(t, p);
    assert p[..|p|] == p;
    AddSkips(t, p, 0, k);
    forall i | k < i <= |p| ensures p[..i] !in t {
      if p[..i] in t { PrefixClosed(t, p, k + 1, i); }
    }
  }

  /** Where removing p cuts once p has been added: at the first node that was made, unless
      the node it was attached to is not the root and had no child and no users. */
  lemma CutAfterAdd(t: Tree, p: Path) returns (c: nat)
    requires WellFormed(t) && p !in t
    ensures WellFormed(AddPath(t, p)) && Longest(AddPath(t, p), p) == |p|
    ensures c == CutFrom(AddPath(t, p), p, |p|) <= Longest(t, p) + 1
    ensures var k := Longest(t, p);
            c == k + 1 <==> k == 0 || t[p[..k]].kids != [] || t[p[..k]].load.userSize != 0
  {
    var k := Longest(t, p);
    var u := AddPath(t, p);
    AddShape(t, p);
    AddFresh(t, p, k);
    AddExact(t, p);
    assert p[..|p|] == p;
    c := CutFrom(u, p, |p|);
    CutIsCut(u, p, |p|);
    assert forall i :: k < i < |p| ==> u[p[..i]] == Node([p[i]], 1, NO_LOAD);
    if c == k + 1 {
      assert u[p[..k]].kids == t[p[..k]].kids + [p[k]];
    }
  }

  /** Removing a path undoes adding it, restoring the identical tree with the order of
      siblings and the counters, exactly when the add made at least one node and the node
      it was attached to was the root or had a child or a user. */
  lemma RemoveUndoesAddIff(t: Tree, p: Path)
    requires WellFormed(t) && p != []
    ensures [] in AddPath(t, p)
    ensures var k := Longest(t, p);
            RemovePath(AddPath(t, p), p) == t <==>
              p !in t && (k == 0 || t[p[..k]].kids != [] || t[p[..k]].load.userSize != 0)
  {
    var k := Longest(t, p);
    var u := AddPath(t, p);
    AddExact(t, p);
    if p in t {
      forall r | r <= p ensures r in t {
        assert p[..|p|] == p && r == p[..|r|];
        PrefixClosed(t, p, |r|, |p|);
      }
      AddFromPresent(t, p, 0);
      var m, c := RemoveExact(u, p);
      assert p[..|p|] == p && Longest(u, p) == |p|;
      assert p !in RemovePath(u, p);
    } else {
      var c := CutAfterAdd(t, p);
      AddShape(t, p);
      AddFresh(t, p, k);
      if c == k + 1 {
        UndoneAtCut(t, p, k);
      } else {
        assert p[..c] in t && p[..c] !in Detach(u, p[..c]);
      }
    }
  }

  lemma UndoneAtCut(t: Tree, p: Path, k: nat)
    requires WellFormed(t) && k < |p| && p[..k] in t && forall i :: k < i <= |p| ==> p[..i] !in t
    ensures Detach(AddFrom(t, p, k), p[..k + 1]) == t
  {
    var u := AddFrom(t, p, k);
    var q := p[..k + 1];
    AddFresh(t, p, k);
    AddFromPaths(t, p, k);
    assert Parent(q) == p[..k] && Last(q) == p[k];
    ChildIsPath(t, p[..k], p[k]);
    assert q == p[..k] + [p[k]];
    WithoutLast(t[p[..k]].kids, p[k]);
    forall r | r in u ensures q <= r <==> r !in t {
      if r in t && q <= r {
        assert r[..|q|] == q && r[..|r|] == r;
        PrefixClosed(t, r, |q|, |r|);
      }
    }
  }

  // ===== channels

  function AddChannel(t: Tree, channel: string): (u: Tree)
    requires [] in t
    ensures [] in u
  {
    if IsChannel(channel) then AddPath(t, Split(channel)) else t
  }

  function RemoveChannel(t: Tree, channel: string): (u: Tree)
    requires [] in t
    ensures [] in u
  {
    if IsChannel(channel) then RemovePath(t, Split(channel)) else t
  }

  function FindNode(t: Tree, channel: string): Option<Path>
    requires WellFormed(t)
  {
    if IsChannel(channel) then FindFrom(t, Split(channel), 0, []) else None
  }

  datatype Op = Add(channel: string) | Remove(channel: string)

  /** The tree after some operations on a new tree. */
  function Reached(ops: seq<Op>): (t: Tree)
    ensures [] in t
  {
    if ops == [] then INIT_TREE
    else
      var t := Reached(ops[..|ops| - 1]);
      match ops[|ops| - 1]
      case Add(c) => AddChannel(t, c)
      case Remove(c) => RemoveChannel(t, c)
  }

  predicate Leaf(t: Tree, p: Path) { p in t && p != [] && t[p].kids == [] }

  ghost predicate WasAdded(ops: seq<Op>, p: Path) {
    exists c :: Add(c) in ops && IsChannel(c) && p == Split(c)
  }

  ghost predicate NoUsers(t: Tree) {
    forall p :: p in t ==> t[p].load.userSize == 0
  }

  /** Adding makes no leaf but the added path. */
  lemma LeavesAfterAdd(t: Tree, p: Path, r: Path)
    requires WellFormed(t) && Leaf(AddPath(t, p), r)
    ensures r == p || Leaf(t, r)
  {
    var u := AddPath(t, p);
    AddExact(t, p);
    if r !in t && r != p {
      assert r == p[..|r|] && p[..|r| + 1] <= p;
      OnPath(u, p, |r|);
    }
  }

  /** Removing makes no new leaf as long as there are no users. */
  lemma LeavesAfterRemove(t: Tree, p: Path, r: Path)
    requires WellFormed(t) && NoUsers(t) && Leaf(RemovePath(t, p), r)
    ensures Leaf(t, r)
  {
    var m, c := RemoveExact(t, p);
    if m > 0 {
      OnPath(t, p, c - 1);
      WithoutIs(t[p[..c - 1]].kids, p[c - 1]);
    }
  }

  /** Every tree that adds and removes can reach is well formed: counters are the numbers
      of children, siblings have different names, the paths are closed under prefixes. As
      nothing registers users, none of its branches dangles: every leaf is a channel that
      was added. */
  lemma {:induction false} ReachedIsSound(ops: seq<Op>)
    ensures WellFormed(Reached(ops)) && NoUsers(Reached(ops))
    ensures forall p :: Leaf(Reached(ops), p) ==> WasAdded(ops, p)
  {
    if ops == [] {
      assert NodeOk(INIT_TREE, []);
    } else {
      var before, op := ops[..|ops| - 1], ops[|ops| - 1];
      ReachedIsSound(before);
      var t, u := Reached(before), Reached(ops);
      forall p | WasAdded(before, p) ensures WasAdded(ops, p) {
        var c :| Add(c) in before && IsChannel(c) && p == Split(c);
        assert Add(c) in ops;
      }
      if IsChannel(op.channel) {
        var p := Split(op.channel);
        if op.Add? {
          AddExact(t, p);
          assert op in ops;
          forall r | Leaf(u, r) ensures WasAdded(ops, r) { LeavesAfterAdd(t, p, r); }
        } else {
          var m, c := RemoveExact(t, p);
          forall r | Leaf(u, r) ensures WasAdded(ops, r) { LeavesAfterRemove(t, p, r); }
        }
      }
    }
  }

  /** findChannel as the source has it: the found test is inverted, so the loop stops at a
      segment that is present and goes on from the end iterator at one that is missing. */
  datatype Lookup = Returns(node: Option<Path>) | PastEnd

  function FindChannelFrom(t: Tree, p: Path, k: nat, q: Path): Lookup
    requires q in t
  {
    if k >= |p| then Returns(Some(q))
    else if p[k] in t[q].kids then Returns(if q == [] then None else Some(q))
    else PastEnd
  }

  function FindChannelAsWritten(t: Tree, channel: string): Lookup
    requires [] in t
  {
    if IsChannel(channel) then FindChannelFrom(t, Split(channel), 0, []) else Returns(None)
  }

  /** It returns what findNode returns exactly for the channels that are rejected. */
  lemma FindChannelAgreesIff(t: Tree, channel: string)
    requires WellFormed(t)
    ensures FindChannelAsWritten(t, channel) == Returns(FindNode(t, channel)) <==> !IsChannel(channel)
  {
    if IsChannel(channel) {
      var p := Split(channel);
      FindIsLongest(t, p);
      assert [] + [p[0]] == [p[0]];
      ChildIsPath(t, [], p[0]);
    }
  }

  /** Adding d makes present exactly the channels that cover d, that is the ancestors of d
      but for lost slashes, and looking one of them up gives its own node. */
  lemma AncestorsArePresent(t: Tree, c: string, d: string)
    requires WellFormed(t) && IsChannel(c) && IsChannel(d)
    ensures WellFormed(AddChannel(t, d))
    ensures Split(c) in AddChannel(t, d) <==> Split(c) in t || Covers(c, d)
    ensures Covers(c, d) ==> FindNode(AddChannel(t, d), c) == Some(Split(c))
    ensures !LoneSlash(c) && !LoneSlash(d) ==> (Covers(c, d) <==> IsAncestor(c, d))
  {
    IsChannelIff(c);
    IsChannelIff(d);
    assert TrimSpec("") == "";
    AddExact(t, Split(d));
    SplitPrefixIff(c, d);
    if Covers(c, d) {
      FindPresent(AddChannel(t, d), Split(c));
    }
  }

  /** A present path is found at its own node. */
  lemma FindPresent(t: Tree, p: Path)
    requires WellFormed(t) && p != [] && p in t
    ensures FindFrom(t, p, 0, []) == Some(p)
  {
    assert p[..|p|] == p;
    forall i | 0 <= i <= |p| ensures p[..i] in t { PrefixClosed(t, p, i, |p|); }
    FindIsLongest(t, p);
  }
}
