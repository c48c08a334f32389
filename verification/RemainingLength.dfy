/** The remaining-length field (section 2.2.3 of MQTT 3.1.1): encLen and decLen of
    src/mqtt/Protocol.cpp against the standard's encoding. */
module RemainingLength {
  import opened Basics

  const MAX_LENGTH := 0x0FFFFFFF

  /** The encoding of the standard: seven bits a byte, least significant first, the high
      bit set on all but the last. */
  function VarLen(n: nat): (f: seq<Byte>)
    ensures f != []
  {
    if n < 128 then [n] else [n % 128 + 128] + VarLen(n / 128)
  }

  /** A complete field: continuation bytes and then a byte below 128. */
  ghost predicate IsField(f: seq<Byte>) {
    f != [] && f[|f| - 1] < 128 && forall i :: 0 <= i < |f| - 1 ==> f[i] >= 128
  }

  /** The number a field stands for. */
  function FieldValue(f: seq<Byte>): nat {
    if f == [] then 0 else f[0] % 128 + 128 * FieldValue(f[1..])
  }

  // ----- decLen

  /** The number decLen accumulates: it stops at a zero byte and after a byte below 127. */
  function DecLenSpec(data: seq<Byte>): nat {
    if data == [] || data[0] == 0 then 0
    else data[0] % 128 + if data[0] < 0x7F then 0 else 128 * DecLenSpec(data[1..])
  }

  function Pow128(i: nat): (p: nat)
    ensures p > 0
  {
    if i == 0 then 1 else 128 * Pow128(i - 1)
  }

  /** Taking one more group of seven bits in. */
  lemma TakeIn(len: nat, t: nat, rest: nat, p: nat)
    requires len < p && t < 128
    ensures len + t * p < 128 * p
    ensures len + (t + 128 * rest) * p == len + t * p + rest * (128 * p)
  {
    assert t * p <= 127 * p;
  }

  /** decLen. The bits that are or-ed in at position 7i are above all bits set so far, so
      that the or is an addition; the result is cut to 32 bits. */
  method DecLen(data: seq<Byte>) returns (r: Uint32)
    ensures r == DecLenSpec(data) % 0x1_0000_0000
  {
    var len, i, shifted := 0, 0, 1;
    while i < |data|
      invariant 0 <= i <= |data| && shifted == Pow128(i)
      invariant 0 <= len < shifted
      invariant len + DecLenSpec(data[i..]) * shifted == DecLenSpec(data)
    {
      if data[i] == 0 {
        return len % 0x1_0000_0000;
      }
      var t := data[i] % 128;
      ghost var rest := if data[i] < 0x7F then 0 else DecLenSpec(data[i + 1..]);
      assert data[i..][1..] == data[i + 1..];
      TakeIn(len, t, rest, shifted);
      if data[i] < 0x7F {
        len := len + t * shifted;
        return len % 0x1_0000_0000;
      }
      len := len + t * shifted;
      shifted := 128 * shifted;
      i := i + 1;
    }
    return len % 0x1_0000_0000;
  }

  /** On every complete field decLen gives its number. */
  lemma {:induction false} DecLenOfField(f: seq<Byte>)
    requires IsField(f)
    ensures DecLenSpec(f) == FieldValue(f)
  {
    if |f| > 1 {
      assert f[0] >= 128 && IsField(f[1..]);
      DecLenOfField(f[1..]);
    }
  }

  lemma {:induction false} VarLenIsField(n: nat)
    ensures IsField(VarLen(n)) && FieldValue(VarLen(n)) == n
  {
    if n >= 128 {
      VarLenIsField(n / 128);
      assert VarLen(n)[1..] == VarLen(n / 128);
    }
  }

  /** Decoding an encoded length gives it back, for every length. */
  lemma {:induction false} DecLenVarLen(n: nat)
    ensures DecLenSpec(VarLen(n)) == n
  {
    VarLenIsField(n);
    DecLenOfField(VarLen(n));
  }

  /** The encoding is the shortest field for its number, and the only one of its length. */
  lemma {:induction false} VarLenIsMinimal(f: seq<Byte>)
    requires IsField(f)
    ensures |VarLen(FieldValue(f))| <= |f|
    ensures |VarLen(FieldValue(f))| == |f| ==> f == VarLen(FieldValue(f))
  {
    if |f| > 1 {
      assert f[0] >= 128 && IsField(f[1..]);
      VarLenIsMinimal(f[1..]);
      var n := FieldValue(f);
      assert n / 128 == FieldValue(f[1..]) && n % 128 == f[0] % 128;
      assert f == [f[0]] + f[1..];
    }
  }

  /** The widths of the standard's table. */
  lemma VarLenWidth(n: nat)
    ensures |VarLen(n)| == 1 <==> n < 0x80
    ensures |VarLen(n)| <= 2 <==> n < 0x4000
    ensures |VarLen(n)| <= 3 <==> n < 0x20_0000
    ensures |VarLen(n)| <= 4 <==> n <= MAX_LENGTH
  {
    if n >= 128 {
      assert |VarLen(n)| == 1 + |VarLen(n / 128)|;
      if n / 128 >= 128 {
        assert |VarLen(n / 128)| == 1 + |VarLen(n / 128 / 128)|;
        if n / 128 / 128 >= 128 {
          assert |VarLen(n / 128 / 128)| == 1 + |VarLen(n / 128 / 128 / 128)|;
        }
      }
    }
  }

  // ----- encLen

  function Reverse(s: seq<Byte>): seq<Byte> {
    if s == [] then [] else Reverse(s[1..]) + [s[0]]
  }

  /** encLen, byte by byte. None is nullptr. */
  method EncLen(len: Uint32) returns (r: Option<seq<Byte>>)
    ensures r == if len > MAX_LENGTH then None else Some([0] + Reverse(VarLen(len)))
  {
    if len > MAX_LENGTH {
      return None;
    }
    var vec: seq<Byte> := [0];
    var tmp := new Byte[4](_ => 0);
    tmp[0] := len % 128;
    tmp[1] := (len / 128) % 128;
    tmp[2] := (len / 128 / 128) % 128;
    tmp[3] := (len / 128 / 128 / 128) % 128;
    Digits(len);
    if tmp[3] != 0 {
      vec := vec + [tmp[3]];
      tmp[2] := tmp[2] + 128;
      vec := vec + [tmp[2]];
      tmp[1] := tmp[1] + 128;
      vec := vec + [tmp[1]];
      tmp[0] := tmp[0] + 128;
      vec := vec + [tmp[0]];
    } else if tmp[2] != 0 {
      vec := vec + [tmp[2]];
      tmp[1] := tmp[1] + 128;
      vec := vec + [tmp[1]];
      tmp[0] := tmp[0] + 128;
      vec := vec + [tmp[0]];
    } else if tmp[1] != 0 {
      vec := vec + [tmp[1]];
      tmp[0] := tmp[0] + 128;
      vec := vec + [tmp[0]];
    } else {
      vec := vec + [tmp[0]];
    }
    assert vec == [0] + Reverse(VarLen(len));
    return Some(vec);
  }

  /** The reversed encoding, digit by digit. */
  lemma Digits(n: nat)
    requires n <= MAX_LENGTH
    ensures var a, b, c, d := n % 128, n / 128 % 128, n / 128 / 128 % 128, n / 128 / 128 / 128 % 128;
            Reverse(VarLen(n)) == if d != 0 then [d, c + 128, b + 128, a + 128]
                                  else if c != 0 then [c, b + 128, a + 128]
                                  else if b != 0 then [b, a + 128]
                                  else [a]
  {
    var n1 := n / 128;
    var n2 := n1 / 128;
    var n3 := n2 / 128;
    LastDigit(n, n1, n % 128);
    LastDigit(n1, n2, n1 % 128);
    LastDigit(n2, n3, n2 % 128);
    LastDigit(n3, 0, n3 % 128);
  }

  lemma LastDigit(n: nat, q: nat, r: nat)
    requires n == 128 * q + r && r < 128
    ensures Reverse(VarLen(n)) == if q == 0 then [r] else Reverse(VarLen(q)) + [r + 128]
  {
    if q == 0 {
      assert VarLen(n) == [r] && VarLen(n)[1..] == [];
    } else {
      assert n / 128 == q && n % 128 == r;
      assert VarLen(n)[1..] == VarLen(q);
    }
  }

  lemma {:induction false} ReverseTwice(s: seq<Byte>)
    ensures Reverse(Reverse(s)) == s
  {
    if s != [] {
      ReverseTwice(s[1..]);
      ReversePush(Reverse(s[1..]), s[0]);
    }
  }

  lemma {:induction false} ReversePush(s: seq<Byte>, b: Byte)
    ensures Reverse(s + [b]) == [b] + Reverse(s)
  {
    if s == [] {
      assert s + [b] == [b];
    } else {
      ReversePush(s[1..], b);
      assert (s + [b])[1..] == s[1..] + [b];
    }
  }

  /** What encLen returns: without its leading zero and read backwards it is the standard's
      encoding; as it stands, decLen takes it back only for 0, because it stops at the
      leading zero. */
  lemma EncLenAgainstDecLen(n: nat)
    ensures var r: seq<Byte> := [0] + Reverse(VarLen(n));
            && r[1..] == Reverse(VarLen(n)) && Reverse(r[1..]) == VarLen(n)
            && DecLenSpec(Reverse(r[1..])) == n
            && (DecLenSpec(r) == n <==> n == 0)
  {
    ReverseTwice(VarLen(n));
    DecLenVarLen(n);
  }
}
