/** Small shared vocabulary: optional values, bytes, and flattening a list of chunks. */
module Prelude {

  datatype Option<+T> = None | Some(value: T)

  const TWO_32: int := 0x1_0000_0000

  type u8 = x: int | 0 <= x < 0x100
  type u32 = x: int | 0 <= x < 0x1_0000_0000
  type Bytes = seq<u8>

  function Min(a: nat, b: nat): nat {
    if a <= b then a else b
  }

  function Max(a: nat, b: nat): nat {
    if a <= b then b else a
  }

  /** The chunks of a stream, one after the other. */
  function Flatten<T>(chunks: seq<seq<T>>): seq<T> {
    if chunks == [] then [] else chunks[0] + Flatten(chunks[1..])
  }

  lemma {:induction false} FlattenConcat<T>(a: seq<seq<T>>, b: seq<seq<T>>)
    ensures Flatten(a + b) == Flatten(a) + Flatten(b)
  {
    if a == [] {
      assert a + b == b;
    } else {
      FlattenConcat(a[1..], b);
      assert (a + b)[1..] == a[1..] + b;
      assert (a + b)[0] == a[0];
    }
  }

  lemma FlattenSnoc<T>(a: seq<seq<T>>, last: seq<T>)
    ensures Flatten(a + [last]) == Flatten(a) + last
  {
    FlattenConcat(a, [last]);
    assert Flatten([last]) == last + Flatten([last][1..]);
  }

  predicate Commute(x: Bytes, y: Bytes) {
    x + y == y + x
  }

  /** Two chunks after each other can change places exactly when they commute. */
  lemma PrefixAfterSwap(front: Bytes, x: Bytes, y: Bytes, whole: Bytes)
    requires front + x + y <= whole
    ensures front + y + x <= whole <==> Commute(x, y)
  {
    var n := |front| + |x| + |y|;
    assert whole[..n] == front + x + y;
    assert (front + x + y)[|front|..] == x + y;
    assert (front + y + x)[|front|..] == y + x;
    if front + y + x <= whole {
      assert whole[..n] == front + y + x;
    }
    if x + y == y + x {
      assert front + (x + y) == front + x + y && front + (y + x) == front + y + x;
    }
  }
}
