/** SUBSCRIBE and UNSUBSCRIBE (sections 3.8 and 3.10 of MQTT 3.1.1), whose payload is a
    list of topics, with a QoS byte each or without. */
module TopicPackets {
  import opened Basics
  import opened RemainingLength
  import opened Wire

  /** A topic and its maximal QoS; without QoS bytes the second part is 0. */
  type Topic = (Str, Byte)

  function EncTopic(t: Topic, withQos: bool): (r: seq<Byte>)
    ensures |r| == |t.0| + 2 + Bit(withQos)
  {
    EncStr(t.0) + if withQos then [t.1] else []
  }

  function EncTopics(ts: seq<Topic>, withQos: bool): seq<Byte> {
    if ts == [] then [] else EncTopic(ts[0], withQos) + EncTopics(ts[1..], withQos)
  }

  /** One topic at a position. */
  function ReadTopic(buf: seq<Byte>, step: nat, withQos: bool): (r: Option<(Topic, nat)>)
    ensures r.Some? ==> step < r.value.1 && |r.value.0.0| < 0x1_0000
  {
    var (topic, step) :- ReadStr(buf, step);
    if !withQos then Some(((topic, 0), step))
    else if step < |buf| then Some(((topic, buf[step]), step + 1))
    else None
  }

  /** Topics are read as long as the position is before the end; each one moves it on. */
  function ReadTopics(buf: seq<Byte>, step: nat, end: nat, withQos: bool): Option<seq<Topic>>
    decreases end - step
  {
    if step >= end then Some([])
    else
      var (t, step) :- ReadTopic(buf, step, withQos);
      var ts :- ReadTopics(buf, step, end, withQos);
      Some([t] + ts)
  }

  ghost predicate ShortTopics(ts: seq<Topic>) {
    forall i :: 0 <= i < |ts| ==> |ts[i].0| < 0x1_0000
  }

  lemma {:induction false} ReadTopicsAreShort(buf: seq<Byte>, step: nat, end: nat, withQos: bool)
    ensures ReadTopics(buf, step, end, withQos).Some? ==> ShortTopics(ReadTopics(buf, step, end, withQos).value)
    decreases end - step
  {
    if step < end {
      var r := ReadTopic(buf, step, withQos);
      if r.Some? {
        ReadTopicsAreShort(buf, r.value.1, end, withQos);
      }
    }
  }

  lemma ReadEncTopic(pre: seq<Byte>, t: Topic, withQos: bool, post: seq<Byte>)
    requires |t.0| < 0x1_0000 && (withQos || t.1 == 0)
    ensures ReadTopic(pre + EncTopic(t, withQos) + post, |pre|, withQos)
         == Some((t, |pre| + |EncTopic(t, withQos)|))
  {
    var buf := pre + EncTopic(t, withQos) + post;
    var rest := (if withQos then [t.1] else []) + post;
    assert buf == pre + EncStr(t.0) + rest;
    ReadEncStr(pre, t.0, rest);
    assert withQos ==> buf[|pre| + 2 + |t.0|] == t.1;
  }

  lemma {:induction false} ReadEncTopics(pre: seq<Byte>, ts: seq<Topic>, withQos: bool, buf: seq<Byte>)
    requires ShortTopics(ts) && buf == pre + EncTopics(ts, withQos)
    requires withQos || forall i :: 0 <= i < |ts| ==> ts[i].1 == 0
    ensures ReadTopics(buf, |pre|, |buf|, withQos) == Some(ts)
    decreases |ts|
  {
    if ts != [] {
      var t, rest := ts[0], ts[1..];
      var one, more := EncTopic(t, withQos), EncTopics(rest, withQos);
      Associate(pre, one, more);
      FirstTopic(pre, t, withQos, more, buf);
      ReadEncTopics(pre + one, rest, withQos, buf);
      TopicsOneByOne(buf, |pre|, |buf|, withQos, t, |pre + one|, rest);
      assert ts == [t] + rest;
    }
  }

  lemma FirstTopic(pre: seq<Byte>, t: Topic, withQos: bool, more: seq<Byte>, buf: seq<Byte>)
    requires |t.0| < 0x1_0000 && (withQos || t.1 == 0) && buf == pre + EncTopic(t, withQos) + more
    ensures ReadTopic(buf, |pre|, withQos) == Some((t, |pre + EncTopic(t, withQos)|))
  {
    ReadEncTopic(pre, t, withQos, more);
  }

  lemma TopicsOneByOne(buf: seq<Byte>, step: nat, end: nat, withQos: bool, t: Topic, next: nat, ts: seq<Topic>)
    requires step < end && ReadTopic(buf, step, withQos) == Some((t, next))
    requires ReadTopics(buf, next, end, withQos) == Some(ts)
    ensures ReadTopics(buf, step, end, withQos) == Some([t] + ts)
  {
  }

  // ----- the packets

  /** The common shape of the two packets. */
  datatype TopicList = TopicList(header: Header, id: Int16, topics: seq<Topic>)

  function ListBody(m: TopicList, withQos: bool): seq<Byte> {
    U16(SeqToWire(m.id)) + EncTopics(m.topics, withQos)
  }

  /** The topic bytes as the encoders should add them up. */
  function TopicsSize(ts: seq<Topic>, withQos: bool): nat {
    if ts == [] then 0 else TopicsSize(ts[..|ts| - 1], withQos) + |ts[|ts| - 1].0| + 2 + Bit(withQos)
  }

  lemma {:induction false} TopicsPush(ts: seq<Topic>, t: Topic, withQos: bool)
    ensures EncTopics(ts + [t], withQos) == EncTopics(ts, withQos) + EncTopic(t, withQos)
  {
    if ts == [] {
      assert ts + [t] == [t];
    } else {
      TopicsPush(ts[1..], t, withQos);
      assert (ts + [t])[1..] == ts[1..] + [t];
      Associate(EncTopic(ts[0], withQos), EncTopics(ts[1..], withQos), EncTopic(t, withQos));
    }
  }

  lemma {:induction false} TopicsSizeIsBytes(ts: seq<Topic>, withQos: bool)
    ensures TopicsSize(ts, withQos) == |EncTopics(ts, withQos)|
  {
    if ts != [] {
      var init, t := ts[..|ts| - 1], ts[|ts| - 1];
      TopicsSizeIsBytes(init, withQos);
      TopicsPush(init, t, withQos);
      assert ts == init + [t];
    }
  }

  const NO_TOPIC := -1

  function EncodeList(m: TopicList, withQos: bool): (int, seq<Byte>) {
    if m.topics == [] then (NO_TOPIC, [])
    else Emit(m.header, (TopicsSize(m.topics, withQos) + 2) % 0x1_0000_0000, ListBody(m, withQos))
  }

  function DecodeList(buf: seq<Byte>, withQos: bool): Option<TopicList> {
    var (h, size, step) :- ReadFixed(buf);
    var t :- ReadU16(buf, step);
    var ts :- ReadTopics(buf, step + 2, step + size, withQos);
    Some(TopicList(h, SeqFromWire(t), ts))
  }

  lemma ListEncoded(m: TopicList, withQos: bool)
    requires m.topics != [] && |ListBody(m, withQos)| <= MAX_LENGTH
    ensures var out := FixedHeader(m.header, |ListBody(m, withQos)|) + ListBody(m, withQos);
            EncodeList(m, withQos) == (|out|, out)
  {
    TopicsSizeIsBytes(m.topics, withQos);
    EmitFits(m.header, (TopicsSize(m.topics, withQos) + 2) % 0x1_0000_0000, ListBody(m, withQos));
  }

  lemma ListComesBack(m: TopicList, withQos: bool)
    requires ShortTopics(m.topics) && |ListBody(m, withQos)| <= MAX_LENGTH
    requires withQos || forall i :: 0 <= i < |m.topics| ==> m.topics[i].1 == 0
    ensures DecodeList(FixedHeader(m.header, |ListBody(m, withQos)|) + ListBody(m, withQos), withQos) == Some(m)
  {
    var body := ListBody(m, withQos);
    var pre := FixedHeader(m.header, |body|);
    ReadFixedHeader(m.header, |body|, body);
    var id, list := U16(SeqToWire(m.id)), EncTopics(m.topics, withQos);
    Associate(pre, id, list);
    ReadEncU16(pre, SeqToWire(m.id), list);
    ReadEncTopics(pre + id, m.topics, withQos, pre + body);
    ListAssembled(m, withQos, pre + body, |body|, |pre|);
  }

  lemma ListAssembled(m: TopicList, withQos: bool, buf: seq<Byte>, size: nat, step: nat)
    requires ReadFixed(buf) == Some((m.header, size, step)) && ReadU16(buf, step) == Some(SeqToWire(m.id))
    requires step + size == |buf| && ReadTopics(buf, step + 2, |buf|, withQos) == Some(m.topics)
    ensures DecodeList(buf, withQos) == Some(m)
  {
  }

  /** SUBSCRIBE and UNSUBSCRIBE with any non-empty list of topics that fits come back from
      the wire, identifier and list in order, exactly when the topics are shorter than 65536
      bytes; the declared size is the number of bytes after the fixed header. */
  lemma ListRoundTrip(m: TopicList, withQos: bool)
    requires m.topics != [] && |ListBody(m, withQos)| <= MAX_LENGTH
    requires withQos || forall i :: 0 <= i < |m.topics| ==> m.topics[i].1 == 0
    ensures EncodeList(m, withQos).0 == |EncodeList(m, withQos).1|
    ensures TopicsSize(m.topics, withQos) + 2 == |ListBody(m, withQos)|
    ensures DecodeList(EncodeList(m, withQos).1, withQos) == Some(m) <==> ShortTopics(m.topics)
  {
    ListEncoded(m, withQos);
    TopicsSizeIsBytes(m.topics, withQos);
    if ShortTopics(m.topics) {
      ListComesBack(m, withQos);
    } else {
      ListIsShort(EncodeList(m, withQos).1, withQos);
    }
  }

  lemma ListIsShort(buf: seq<Byte>, withQos: bool)
    ensures DecodeList(buf, withQos).Some? ==> ShortTopics(DecodeList(buf, withQos).value.topics)
  {
    var f := ReadFixed(buf);
    if f.Some? {
      ReadTopicsAreShort(buf, f.value.2 + 2, f.value.2 + f.value.1, withQos);
    }
  }

  // ----- the message objects

  lemma OneMore(front: seq<Topic>, t: Topic, rest: Option<seq<Topic>>)
    ensures rest.Some? ==> front + ([t] + rest.value) == front + [t] + rest.value
  {
  }

  class MqttSubscribe {
    var size: nat
    var header: Header
    var id: Int16
    var topics: seq<Topic>

    ghost function Value(): TopicList
      reads this
    {
      TopicList(header, id, topics)
    }

    constructor ()
      ensures topics == []
    {
      size, header, id, topics := 0, Header(false, 0, false, 0), 0, [];
    }

    method AddTopic(topic: Str, qos: Byte)
      modifies `topics
      ensures topics == old(topics) + [(topic, qos)]
    {
      topics := topics + [(topic, qos)];
    }

    method PayloadLength() returns (len: nat)
      ensures len == TopicsSize(topics, true) % 0x1_0000_0000
    {
      len := 0;
      for i := 0 to |topics|
        invariant len == TopicsSize(topics[..i], true) % 0x1_0000_0000
      {
        assert topics[..i + 1][..i] == topics[..i];
        len := (len + |topics[i].0| + 2 + 1) % 0x1_0000_0000;
      }
      assert topics[..|topics|] == topics;
    }

    method PushTopics(buf: seq<Byte>) returns (out: seq<Byte>)
      ensures out == buf + EncTopics(topics, true)
    {
      out := buf;
      for i := 0 to |topics|
        invariant out == buf + EncTopics(topics[..i], true)
      {
        TopicsPush(topics[..i], topics[i], true);
        assert topics[..i + 1] == topics[..i] + [topics[i]];
        out := out + EncStr(topics[i].0);
        out := out + [topics[i].1];
      }
      assert topics[..|topics|] == topics;
    }

    method Encode(buf: seq<Byte>) returns (ret: int, out: seq<Byte>)
      modifies this`size
      ensures out == buf + EncodeList(Value(), true).1
      ensures ret == if EncodeList(Value(), true).0 < 0 then EncodeList(Value(), true).0 else |out|
      ensures size == if topics == [] then old(size) else (TopicsSize(topics, true) + 2) % 0x1_0000_0000
    {
      if |topics| < 1 { return NO_TOPIC, buf; }
      var payloadLen := PayloadLength();
      WrapAdd(TopicsSize(topics, true), 2);
      size := (payloadLen + 2) % 0x1_0000_0000;
      var ok;
      ok, out := PushFixedHeader(buf, header, size);
      if !ok { return TOO_LONG, out; }
      out := PushBody(out);
      Associate(buf, FixedHeader(header, size), ListBody(Value(), true));
      return |out|, out;
    }

    method PushBody(buf: seq<Byte>) returns (out: seq<Byte>)
      ensures out == buf + ListBody(Value(), true)
    {
      out := buf + U16(SeqToWire(id));
      out := PushTopics(out);
      Associate(buf, U16(SeqToWire(id)), EncTopics(topics, true));
    }

    method Decode(buf: seq<Byte>) returns (ret: Option<int>)
      modifies this
      ensures ret == if DecodeList(buf, true) == None then None else Some(|buf|)
      ensures ret.Some? ==> size == ReadFixed(buf).value.1
      ensures ret.Some? ==>
        var m := DecodeList(buf, true).value;
        Value() == m.(topics := old(topics) + m.topics)
    {
      var fixed := ReadFixed(buf);
      if fixed == None { return None; }
      header, size := fixed.value.0, fixed.value.1;
      var step := fixed.value.2;
      var t := ReadU16(buf, step);
      if t == None { return None; }
      id := SeqFromWire(t.value);
      step := step + 2;
      var ok := TakeTopics(buf, step, fixed.value.2 + size);
      return if ok then Some(|buf|) else None;
    }

    /** The loop of decode. */
    method TakeTopics(buf: seq<Byte>, from: nat, end: nat) returns (ok: bool)
      modifies `topics
      ensures ok == ReadTopics(buf, from, end, true).Some?
      ensures ok ==> topics == old(topics) + ReadTopics(buf, from, end, true).value
    {
      var step := from;
      ghost var all := ReadTopics(buf, from, end, true);
      while end > step
        invariant var rest := ReadTopics(buf, step, end, true);
                  all.Some? <==> rest.Some?
        invariant all.Some? ==> topics + ReadTopics(buf, step, end, true).value == old(topics) + all.value
        decreases end - step
      {
        var r := ReadStr(buf, step);
        if r == None { return false; }
        step := r.value.1;
        if step >= |buf| { return false; }
        var qos := buf[step];
        step := step + 1;
        OneMore(topics, (r.value.0, qos), ReadTopics(buf, step, end, true));
        AddTopic(r.value.0, qos);
      }
      return true;
    }
  }

  /** Topics without QoS bytes. */
  function Plain(ts: seq<Str>): (r: seq<Topic>)
    ensures |r| == |ts| && forall i :: 0 <= i < |ts| ==> r[i] == (ts[i], 0)
  {
    seq(|ts|, i requires 0 <= i < |ts| => (ts[i], 0))
  }

  class MqttUnsubscribe {
    var size: nat
    var header: Header
    var id: Int16
    var topics: seq<Str>

    ghost function Value(): TopicList
      reads this
    {
      TopicList(header, id, Plain(topics))
    }

    constructor ()
      ensures topics == []
    {
      size, header, id, topics := 0, Header(false, 0, false, 0), 0, [];
    }

    method DelTopic(topic: Str)
      modifies `topics
      ensures topics == old(topics) + [topic]
    {
      topics := topics + [topic];
    }

    method PayloadLength() returns (len: nat)
      ensures len == TopicsSize(Plain(topics), false) % 0x1_0000_0000
    {
      len := 0;
      ghost var all := Plain(topics);
      for i := 0 to |topics|
        invariant len == TopicsSize(all[..i], false) % 0x1_0000_0000
      {
        assert all[..i + 1][..i] == all[..i];
        WrapAdd(TopicsSize(all[..i], false), |topics[i]| + 2);
        len := (len + |topics[i]| + 2) % 0x1_0000_0000;
      }
      assert all[..|topics|] == all;
    }

    method PushTopics(buf: seq<Byte>) returns (out: seq<Byte>)
      ensures out == buf + EncTopics(Plain(topics), false)
    {
      out := buf;
      ghost var all := Plain(topics);
      for i := 0 to |topics|
        invariant out == buf + EncTopics(all[..i], false)
      {
        TopicsPush(all[..i], all[i], false);
        assert all[..i + 1] == all[..i] + [all[i]];
        out := out + EncStr(topics[i]);
      }
      assert all[..|topics|] == all;
    }

    method PushBody(buf: seq<Byte>) returns (out: seq<Byte>)
      ensures out == buf + ListBody(Value(), false)
    {
      out := buf + U16(SeqToWire(id));
      out := PushTopics(out);
      Associate(buf, U16(SeqToWire(id)), EncTopics(Plain(topics), false));
    }

    method Encode(buf: seq<Byte>) returns (ret: int, out: seq<Byte>)
      modifies this`size
      ensures out == buf + EncodeList(Value(), false).1
      ensures ret == if EncodeList(Value(), false).0 < 0 then EncodeList(Value(), false).0 else |out|
      ensures size == if topics == [] then old(size) else (TopicsSize(Plain(topics), false) + 2) % 0x1_0000_0000
    {
      if |topics| < 1 { return NO_TOPIC, buf; }
      var payloadLen := PayloadLength();
      WrapAdd(TopicsSize(Plain(topics), false), 2);
      size := (payloadLen + 2) % 0x1_0000_0000;
      var ok;
      ok, out := PushFixedHeader(buf, header, size);
      if !ok { return TOO_LONG, out; }
      out := PushBody(out);
      Associate(buf, FixedHeader(header, size), ListBody(Value(), false));
      return |out|, out;
    }

    method Decode(buf: seq<Byte>) returns (ret: Option<int>)
      modifies this
      ensures ret == if DecodeList(buf, false) == None then None else Some(|buf|)
      ensures ret.Some? ==> size == ReadFixed(buf).value.1
      ensures ret.Some? ==>
        var m := DecodeList(buf, false).value;
        Value() == m.(topics := Plain(old(topics)) + m.topics)
    {
      var fixed := ReadFixed(buf);
      if fixed == None { return None; }
      header, size := fixed.value.0, fixed.value.1;
      var step := fixed.value.2;
      var t := ReadU16(buf, step);
      if t == None { return None; }
      id := SeqFromWire(t.value);
      step := step + 2;
      var ok := TakeTopics(buf, step, fixed.value.2 + size);
      return if ok then Some(|buf|) else None;
    }

    /** The loop of decode. */
    method TakeTopics(buf: seq<Byte>, from: nat, end: nat) returns (ok: bool)
      modifies `topics
      ensures ok == ReadTopics(buf, from, end, false).Some?
      ensures ok ==> Plain(topics) == Plain(old(topics)) + ReadTopics(buf, from, end, false).value
    {
      var step := from;
      ghost var all := ReadTopics(buf, from, end, false);
      while end > step
        invariant var rest := ReadTopics(buf, step, end, false);
                  all.Some? <==> rest.Some?
        invariant all.Some? ==>
          Plain(topics) + ReadTopics(buf, step, end, false).value == Plain(old(topics)) + all.value
        decreases end - step
      {
        var r := ReadStr(buf, step);
        if r == None { return false; }
        step := r.value.1;
        DelTopic(r.value.0);
      }
      return true;
    }
  }
}
