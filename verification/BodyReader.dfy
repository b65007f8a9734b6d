/** Reading a streamed body under a size rule that belongs to the URL guard. */
module BodyReader {
  import opened Seqs
  import opened ByteChunks

  /** The body so far is acceptable after each of the first `n` chunks. */
  ghost predicate AllowedUpTo(chunks: seq<Bytes>, n: nat, allowed: nat -> bool) {
    forall j :: 1 <= j <= n && j <= |chunks| ==> allowed(Cut(chunks, j))
  }

  /** The body is the concatenation of all chunks, or it is refused at the first chunk whose arrival
      makes it too large, and nothing after that chunk is read. */
  method ReadBody(chunks: seq<Bytes>, allowed: nat -> bool) returns (body: Option<Bytes>, read: nat)
    ensures body.Some? <==> AllowedUpTo(chunks, |chunks|, allowed)
    ensures body.Some? ==> body.value == Concat(chunks) && read == |chunks|
    ensures body.None? ==>
              1 <= read <= |chunks| && !allowed(Cut(chunks, read)) && AllowedUpTo(chunks, read - 1, allowed)
  {
    var buffer: Bytes := [];
    read := 0;
    while read < |chunks|
      invariant read <= |chunks| && buffer == Concat(chunks[..read]) && AllowedUpTo(chunks, read, allowed)
    {
      ConcatNext(chunks, read);
      buffer := buffer + chunks[read];
      read := read + 1;
      if !allowed(|buffer|) {
        assert !allowed(Cut(chunks, read));
        return None, read;
      }
    }
    assert chunks[..|chunks|] == chunks;
    body := Some(buffer);
  }
}
