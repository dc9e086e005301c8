/** Byte chunks: the `Uint8Array` values that the downloader receives and stores. */
module Bytes {

  /** One element of a `Uint8Array`. */
  newtype byte = x: int | 0 <= x < 256

  /** One `Uint8Array`: a network fragment, or a block kept in the chunk store. */
  type Chunk = seq<byte>

  /** `chunks.reduce((acc, chunk) => acc + chunk.length, 0)`: a left fold, so the
      last chunk is added last. */
  function TotalLength(chunks: seq<Chunk>): nat
  {
    if |chunks| == 0 then 0 else TotalLength(chunks[..|chunks| - 1]) + |chunks[|chunks| - 1]|
  }

  /** The bytes of `chunks` laid end to end, in order. */
  function Concat(chunks: seq<Chunk>): seq<byte>
  {
    if |chunks| == 0 then [] else Concat(chunks[..|chunks| - 1]) + chunks[|chunks| - 1]
  }

  lemma AppendAssoc<T>(a: seq<T>, b: seq<T>, c: seq<T>)
    ensures a + (b + c) == (a + b) + c
  {
  }

  /** The summed length is the length of the concatenation. */
  lemma {:induction false} ConcatLength(chunks: seq<Chunk>)
    ensures |Concat(chunks)| == TotalLength(chunks)
  {
    if |chunks| > 0 {
      ConcatLength(chunks[..|chunks| - 1]);
    }
  }

  /** Concatenation distributes over appending sequences of chunks. */
  lemma {:induction false} ConcatSplit(a: seq<Chunk>, b: seq<Chunk>)
    ensures Concat(a + b) == Concat(a) + Concat(b)
  {
    if |b| == 0 {
      assert a + b == a;
    } else {
      var b', c := b[..|b| - 1], b[|b| - 1];
      assert a + b == (a + b') + [c];
      ConcatSnoc(a + b', c);
      ConcatSplit(a, b');
      assert Concat(b) == Concat(b') + c;
      AppendAssoc(Concat(a), Concat(b'), c);
    }
  }

  /** Appending one chunk adds exactly its bytes at the end. */
  lemma ConcatSnoc(a: seq<Chunk>, c: Chunk)
    ensures Concat(a + [c]) == Concat(a) + c
  {
    assert (a + [c])[..|a|] == a;
  }

  /** Appending one chunk adds exactly its length to the sum. */
  lemma TotalLengthSnoc(a: seq<Chunk>, c: Chunk)
    ensures TotalLength(a + [c]) == TotalLength(a) + |c|
  {
    assert (a + [c])[..|a|] == a;
  }

  /** The bytes of a prefix of the chunks are a prefix of the bytes. */
  lemma ConcatPrefix(a: seq<Chunk>, k: nat)
    requires k <= |a|
    ensures Concat(a[..k]) <= Concat(a)
  {
    assert a == a[..k] + a[k..];
    ConcatSplit(a[..k], a[k..]);
  }
}
