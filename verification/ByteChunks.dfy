/** Bytes, and streams of them that arrive in pieces. */
module ByteChunks {
  newtype byte = x: int | 0 <= x < 256

  type Bytes = seq<byte>

  function Concat(chunks: seq<Bytes>): Bytes {
    if chunks == [] then [] else Concat(chunks[..|chunks| - 1]) + chunks[|chunks| - 1]
  }

  /** The number of bytes received after the first `j` chunks. */
  function Cut(chunks: seq<Bytes>, j: nat): nat
    requires j <= |chunks|
  {
    |Concat(chunks[..j])|
  }

  lemma ConcatNext(chunks: seq<Bytes>, i: nat)
    requires i < |chunks|
    ensures Concat(chunks[..i + 1]) == Concat(chunks[..i]) + chunks[i]
  {
    assert chunks[..i + 1][..i] == chunks[..i];
  }

  lemma {:induction false} ConcatPrefix(chunks: seq<Bytes>, i: nat)
    requires i <= |chunks|
    ensures Cut(chunks, i) <= |Concat(chunks)| && Concat(chunks)[..Cut(chunks, i)] == Concat(chunks[..i])
    decreases |chunks| - i
  {
    if i == |chunks| {
      assert chunks[..i] == chunks;
    } else {
      ConcatNext(chunks, i);
      ConcatPrefix(chunks, i + 1);
      assert Concat(chunks[..i]) == Concat(chunks[..i + 1])[..Cut(chunks, i)];
    }
  }

  lemma {:induction false} CutsGrow(chunks: seq<Bytes>, i: nat, j: nat)
    requires i <= j <= |chunks|
    ensures Cut(chunks, i) <= Cut(chunks, j)
  {
    if i < j {
      CutsGrow(chunks, i, j - 1);
      ConcatNext(chunks, j - 1);
    }
  }

  lemma {:induction false} ConcatAppend(a: seq<Bytes>, b: seq<Bytes>)
    ensures Concat(a + b) == Concat(a) + Concat(b)
  {
    if b == [] {
      assert a + b == a;
    } else {
      ConcatAppend(a, b[..|b| - 1]);
      assert (a + b)[..|a + b| - 1] == a + b[..|b| - 1];
    }
  }

  lemma ConcatOne(b: Bytes)
    ensures Concat([b]) == b
  {
  }
}
