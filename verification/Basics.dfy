/** Types shared by the models of the broker's components. */
module Basics {

  /** One octet (Uint8 in src/mqtt/VarTypes.h). */
  type Byte = b: int | 0 <= b < 256

  /** The signed 16-bit type in which the broker keeps packet identifiers. */
  type Int16 = i: int | -0x8000 <= i < 0x8000

  /** An unsigned 32-bit length (Uint in src/mqtt/VarTypes.h). */
  type Uint32 = u: int | 0 <= u < 0x1_0000_0000

  function Zeros(n: nat): seq<Byte> { seq(n, _ => 0) }

  datatype Option<+T> = None | Some(value: T) {
    predicate IsFailure() { None? }

    function PropagateFailure<U>(): Option<U>
      requires None?
    {
      None
    }

    function Extract(): T
      requires Some?
    {
      value
    }
  }

  /** No element of s occurs at two positions. */
  ghost predicate Distinct<T>(s: seq<T>) {
    forall i, j :: 0 <= i < j < |s| ==> s[i] != s[j]
  }

  lemma Associate<T>(a: seq<T>, b: seq<T>, c: seq<T>)
    ensures a + (b + c) == a + b + c
  {
  }
}
