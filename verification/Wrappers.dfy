/** Results of operations that can fail or find nothing. */
module Wrappers {

  datatype Option<+T> = None | Some(value: T)

  datatype Result<+T, +E> = Ok(value: T) | Err(error: E)
}

/** Bytes and the contents of files. */
module Octets {

  type Byte = x: int | 0 <= x < 256

  type Bytes = seq<Byte>

  /** The whole of what a reader delivers piece by piece. */
  function Flatten(chunks: seq<Bytes>): Bytes {
    if chunks == [] then [] else Flatten(chunks[..|chunks| - 1]) + chunks[|chunks| - 1]
  }

  /** The pieces come one after the other, in the order they are delivered. */
  lemma {:induction false} FlattenAppends(a: seq<Bytes>, b: seq<Bytes>)
    ensures Flatten(a + b) == Flatten(a) + Flatten(b)
    ensures forall piece: Bytes :: Flatten([piece]) == piece
  {
    forall piece: Bytes
      ensures Flatten([piece]) == piece
    {
      assert [piece][..0] == [];
    }
    if b == [] {
      assert a + b == a;
    } else {
      FlattenAppends(a, b[..|b| - 1]);
      assert (a + b)[..|a + b| - 1] == a + b[..|b| - 1];
    }
  }
}

/** The 64-bit integers of the program. */
module Int64 {

  const TWO63 := 0x8000_0000_0000_0000
}

/** What is in a sequence, order and repetitions aside. */
module Sequences {

  function Elements<T>(s: seq<T>): set<T> {
    set x | x in s
  }
}
