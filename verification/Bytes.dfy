/** Vocabulary shared by the transport models. */
module Bytes {

  /** An unsigned 8-bit value. */
  type byte = b: int | 0 <= b < 0x100

  datatype Option<+T> = None | Some(value: T)

  function Min(a: int, b: int): int {
    if a <= b then a else b
  }

  /** The pieces laid end to end. */
  function Concat(pieces: seq<seq<byte>>): seq<byte> {
    if pieces == [] then [] else Concat(pieces[..|pieces| - 1]) + pieces[|pieces| - 1]
  }

  lemma {:induction false} ConcatSplit(a: seq<seq<byte>>, b: seq<seq<byte>>)
    ensures Concat(a + b) == Concat(a) + Concat(b)
    decreases |b|
  {
    if b == [] {
      assert a + b == a;
    } else {
      var front := b[..|b| - 1];
      assert (a + b)[..|a + b| - 1] == a + front;
      ConcatSplit(a, front);
      assert Concat(a) + (Concat(front) + b[|b| - 1]) == (Concat(a) + Concat(front)) + b[|b| - 1];
    }
  }

  /** Unrolls `Concat` at the front. */
  lemma ConcatFront(pieces: seq<seq<byte>>)
    requires pieces != []
    ensures Concat(pieces) == pieces[0] + Concat(pieces[1..])
  {
    var one := [pieces[0]];
    assert pieces == one + pieces[1..];
    assert one[..0] == [];
    ConcatSplit(one, pieces[1..]);
  }
}
