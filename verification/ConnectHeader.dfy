/** The receive loop of the CONNECT handshake: bytes arrive in pieces the peer and the network choose. */
module ConnectHeader {
  import opened Seqs
  import opened ByteChunks

  const CR: byte := 13
  const LF: byte := 10
  const BLANK_LINE: Bytes := [CR, LF, CR, LF]

  /** What one `recv` gives: bytes, an end of stream, or an error such as a timeout. */
  datatype Event = Data(bytes: Bytes) | Closed | Broken

  datatype Received =
    | Head(header: Bytes, buffer: Bytes, receives: nat)
    | ClosedByProxy(buffer: Bytes, receives: nat)
    | ReceiveFailed(buffer: Bytes, receives: nat)
    | TooLong(buffer: Bytes, receives: nat)

  predicate EndsAt(w: Bytes, e: nat) {
    4 <= e <= |w| && w[e - 4..e] == BLANK_LINE
  }

  /** Where the first blank line ends. */
  function FirstEnd(w: Bytes): (end: Option<nat>)
    ensures end.Some? ==> 4 <= end.value <= |w|
  {
    if w == [] then None
    else
      var before := FirstEnd(w[..|w| - 1]);
      if before.Some? then before else if EndsAt(w, |w|) then Some(|w|) else None
  }

  /** A blank line is a carriage return and a line feed, twice. */
  lemma BlankLineBytes(w: Bytes, e: nat)
    ensures EndsAt(w, e) <==> 4 <= e <= |w| && w[e - 4] == 13 && w[e - 3] == 10 && w[e - 2] == 13 && w[e - 1] == 10
  {
    if 4 <= e <= |w| {
      assert w[e - 4..e] == [w[e - 4], w[e - 3], w[e - 2], w[e - 1]];
    }
  }

  lemma EndsInside(w: Bytes)
    ensures forall d :: d > |w| ==> !EndsAt(w, d)
    ensures w == [] ==> !EndsAt(w, 0)
  {
  }

  lemma EndsAtPrefix(w: Bytes, n: nat)
    requires n <= |w|
    ensures forall d :: 0 <= d <= n ==> (EndsAt(w[..n], d) <==> EndsAt(w, d))
  {
    forall d | 0 <= d <= n ensures EndsAt(w[..n], d) <==> EndsAt(w, d) {
      if 4 <= d {
        assert w[..n][d - 4..d] == w[d - 4..d];
      }
    }
  }

  lemma {:induction false} FirstEndMeans(w: Bytes)
    ensures match FirstEnd(w)
            case Some(e) => EndsAt(w, e) && forall d :: 0 <= d < e ==> !EndsAt(w, d)
            case None => forall d :: 0 <= d <= |w| ==> !EndsAt(w, d)
  {
    if w != [] {
      var v := w[..|w| - 1];
      hide EndsAt;
      FirstEndMeans(v);
      EndsAtPrefix(w, |w| - 1);
    }
    EndsInside(w);
  }

  /** A prefix shows the first blank line exactly when it reaches its end. */
  lemma {:induction false} FirstEndPrefix(w: Bytes, n: nat)
    requires n <= |w|
    ensures FirstEnd(w[..n]) == if FirstEnd(w).Some? && FirstEnd(w).value <= n then FirstEnd(w) else None
  {
    hide EndsAt, FirstEnd;
    FirstEndMeans(w);
    FirstEndMeans(w[..n]);
    EndsInside(w[..n]);
    EndsAtPrefix(w, n);
  }

  function HeaderLength(response: Bytes): (n: nat)
    requires FirstEnd(response).Some?
    ensures n + 4 == FirstEnd(response).value && n <= |response|
  {
    FirstEndMeans(response);
    FirstEnd(response).value - 4
  }

  /** The loop: stop at a blank line, refuse an end of stream, an error, or more than `cap` bytes. */
  function Collect(events: nat -> Event, i: nat, buffer: Bytes, cap: nat): (r: Received)
    requires |buffer| <= cap
    decreases cap - |buffer|
  {
    match events(i)
    case Closed => ClosedByProxy(buffer, i + 1)
    case Broken => ReceiveFailed(buffer, i + 1)
    case Data(bytes) =>
      var response := buffer + bytes;
      if bytes == [] then ClosedByProxy(buffer, i + 1)
      else if FirstEnd(response).Some? then Head(response[..HeaderLength(response)], response, i + 1)
      else if |response| > cap then TooLong(response, i + 1)
      else Collect(events, i + 1, response, cap)
  }

  /** The kernel gives at most `most` bytes at a time. */
  ghost predicate AtMost(events: nat -> Event, most: nat) {
    forall i :: events(i).Data? ==> |events(i).bytes| <= most
  }

  /** Whatever arrives, the loop ends within `cap + 1` receives, and when each gives at most `most` bytes
      it never buffers more than `cap + most`. */
  lemma {:induction false} LoopBounds(events: nat -> Event, i: nat, buffer: Bytes, cap: nat, most: nat)
    requires i <= |buffer| <= cap
    ensures var r := Collect(events, i, buffer, cap);
            i < r.receives <= cap + 1 && (AtMost(events, most) ==> |r.buffer| <= cap + most)
    decreases cap - |buffer|
  {
    if events(i).Data? && events(i).bytes != [] {
      var response := buffer + events(i).bytes;
      if FirstEnd(response).None? && |response| <= cap {
        LoopBounds(events, i + 1, response, cap, most);
      }
    }
  }

  // ---- What each receive means ----

  /** The bytes that the first `n` receives gave. */
  function Sofar(events: nat -> Event, n: nat): Bytes {
    if n == 0 then [] else Sofar(events, n - 1) + if events(n - 1).Data? then events(n - 1).bytes else []
  }

  predicate GivesBytes(e: Event) {
    e.Data? && e.bytes != []
  }

  /** The loop goes on after `n` receives: all gave bytes, with no blank line and no more than the cap. */
  ghost predicate GoesOn(events: nat -> Event, n: nat, cap: nat) {
    && (forall j :: 0 <= j < n ==> GivesBytes(events(j)))
    && FirstEnd(Sofar(events, n)).None? && |Sofar(events, n)| <= cap
  }

  /** The last receive, the `n`th, decides what the loop comes to. */
  ghost predicate Decides(events: nat -> Event, r: Received, cap: nat) {
    && r.receives > 0
    && var (last, all) := (events(r.receives - 1), Sofar(events, r.receives));
       match r
       case Head(header, buffer, _) =>
         GivesBytes(last) && buffer == all && FirstEnd(all).Some? && header == all[..FirstEnd(all).value - 4]
       case ClosedByProxy(_, _) => last.Closed? || last == Data([])
       case ReceiveFailed(_, _) => last.Broken?
       case TooLong(_, _) => GivesBytes(last) && FirstEnd(all).None? && |all| > cap
  }

  /** One receive, the `n + 1`st, and what it decides. */
  lemma CollectOnce(events: nat -> Event, n: nat, cap: nat)
    requires GoesOn(events, n, cap)
    ensures var r := Collect(events, n, Sofar(events, n), cap);
            if GoesOn(events, n + 1, cap) then r == Collect(events, n + 1, Sofar(events, n + 1), cap)
            else r.receives == n + 1 && Decides(events, r, cap)
  {
    hide FirstEnd;
    assert Sofar(events, n + 1) == Sofar(events, n) + if events(n).Data? then events(n).bytes else [];
    assert GoesOn(events, n + 1, cap) <==> GivesBytes(events(n)) && FirstEnd(Sofar(events, n + 1)).None?
                                           && |Sofar(events, n + 1)| <= cap;
  }

  lemma {:induction false} CollectDecides(events: nat -> Event, n: nat, cap: nat)
    requires GoesOn(events, n, cap)
    ensures var r := Collect(events, n, Sofar(events, n), cap);
            n < r.receives && (forall j :: n <= j < r.receives ==> GoesOn(events, j, cap)) && Decides(events, r, cap)
    decreases cap - |Sofar(events, n)|
  {
    hide Collect, FirstEnd, Decides;
    CollectOnce(events, n, cap);
    if GoesOn(events, n + 1, cap) {
      assert GivesBytes(events(n));
      CollectDecides(events, n + 1, cap);
    }
  }

  /** For any bytes, ends of stream and errors, in any order: the loop goes on while receives give bytes with
      no blank line within the cap, and the first one that does otherwise decides. */
  lemma CollectOutcome(events: nat -> Event, cap: nat)
    ensures var r := Collect(events, 0, [], cap);
            (forall j :: 0 <= j < r.receives ==> GoesOn(events, j, cap)) && Decides(events, r, cap)
  {
    CollectDecides(events, 0, cap);
  }

  /** The `n`th receive completes the first blank line, and the loop went on until then. */
  ghost predicate BlankLineAt(events: nat -> Event, n: nat, cap: nat) {
    && n > 0 && (forall j :: 0 <= j < n ==> GoesOn(events, j, cap))
    && GivesBytes(events(n - 1)) && FirstEnd(Sofar(events, n)).Some?
  }

  /** A header comes out iff receives give bytes up to a blank line before the cap is passed. */
  lemma HeadFromEvents(events: nat -> Event, cap: nat)
    ensures Collect(events, 0, [], cap).Head? <==> exists n :: BlankLineAt(events, n, cap)
  {
    hide Collect, FirstEnd, Sofar;
    CollectOutcome(events, cap);
    var r := Collect(events, 0, [], cap);
    if r.Head? {
      assert BlankLineAt(events, r.receives, cap);
    }
    forall n: nat | BlankLineAt(events, n, cap) ensures r.Head? {
      assert r.receives < n ==> GoesOn(events, r.receives, cap);
      assert n < r.receives ==> GoesOn(events, n, cap);
    }
  }

  // ---- Chunking ----

  /** The chunks in turn, then the end of the stream. */
  function Feed(chunks: seq<Bytes>): nat -> Event {
    (i: nat) => if i < |chunks| then Data(chunks[i]) else Closed
  }

  ghost predicate NonEmpty(chunks: seq<Bytes>) {
    forall i :: 0 <= i < |chunks| ==> chunks[i] != []
  }

  /** From chunk `i` on, no cut short of `e` exceeds the cap. */
  ghost predicate CutsWithin(chunks: seq<Bytes>, i: nat, e: nat, cap: nat) {
    forall j :: i <= j <= |chunks| && Cut(chunks, j) < e ==> Cut(chunks, j) <= cap
  }

  /** One turn of the loop, with the `i + 1`st chunk. */
  lemma CollectChunk(chunks: seq<Bytes>, i: nat, cap: nat)
    requires NonEmpty(chunks) && i < |chunks| && Cut(chunks, i) <= cap
    ensures var response := Concat(chunks[..i + 1]);
            Collect(Feed(chunks), i, Concat(chunks[..i]), cap)
            == if FirstEnd(response).Some? then Head(response[..HeaderLength(response)], response, i + 1)
               else if |response| > cap then TooLong(response, i + 1)
               else Collect(Feed(chunks), i + 1, response, cap)
  {
    ConcatNext(chunks, i);
  }

  /** `r` is a header iff the stream has a blank line and no cut from `i` on stops between the cap and its
      end; the header is then the stream up to that blank line. */
  ghost predicate HeadIff(chunks: seq<Bytes>, i: nat, cap: nat, r: Received) {
    var w := Concat(chunks);
    && (r.Head? <==> FirstEnd(w).Some? && CutsWithin(chunks, i, FirstEnd(w).value, cap))
    && (r.Head? ==> r.header == w[..HeaderLength(w)])
  }

  lemma LaterCutsPast(chunks: seq<Bytes>, i: nat, cap: nat, e: nat)
    requires i < |chunks| && Cut(chunks, i) <= cap && e <= Cut(chunks, i + 1)
    ensures CutsWithin(chunks, i, e, cap)
  {
    forall j | i <= j <= |chunks| && Cut(chunks, j) < e ensures Cut(chunks, j) <= cap {
      if j > i {
        CutsGrow(chunks, i + 1, j);
      }
    }
  }

  lemma HeaderOfPrefix(w: Bytes, n: nat)
    requires n <= |w| && FirstEnd(w[..n]).Some? && FirstEnd(w[..n]) == FirstEnd(w)
    ensures w[..n][..HeaderLength(w[..n])] == w[..HeaderLength(w)]
  {
  }

  lemma HeadReached(chunks: seq<Bytes>, i: nat, cap: nat)
    requires i < |chunks| && Cut(chunks, i) <= cap && FirstEnd(Concat(chunks[..i + 1])).Some?
    ensures var response := Concat(chunks[..i + 1]);
            HeadIff(chunks, i, cap, Head(response[..HeaderLength(response)], response, i + 1))
  {
    hide FirstEnd, Concat;
    var (w, n) := (Concat(chunks), Cut(chunks, i + 1));
    ConcatPrefix(chunks, i + 1);
    FirstEndPrefix(w, n);
    LaterCutsPast(chunks, i, cap, FirstEnd(w).value);
    HeaderOfPrefix(w, n);
  }

  lemma EarlierCutWithin(chunks: seq<Bytes>, i: nat, cap: nat, r: Received)
    requires i < |chunks| && Cut(chunks, i) <= cap && HeadIff(chunks, i + 1, cap, r)
    ensures HeadIff(chunks, i, cap, r)
  {
    hide FirstEnd, Concat;
  }

  lemma CapPassed(chunks: seq<Bytes>, i: nat, cap: nat, r: Received)
    requires i < |chunks| && Cut(chunks, i + 1) > cap && FirstEnd(Concat(chunks[..i + 1])).None? && !r.Head?
    ensures HeadIff(chunks, i, cap, r)
  {
    hide FirstEnd, Concat;
    ConcatPrefix(chunks, i + 1);
    FirstEndPrefix(Concat(chunks), Cut(chunks, i + 1));
    assert i <= i + 1 <= |chunks|;
  }

  /** What the loop comes to from chunk `i` on. */
  lemma {:induction false} CollectMeans(chunks: seq<Bytes>, i: nat, cap: nat)
    requires NonEmpty(chunks) && i <= |chunks|
    requires Cut(chunks, i) <= cap && FirstEnd(Concat(chunks[..i])).None?
    ensures HeadIff(chunks, i, cap, Collect(Feed(chunks), i, Concat(chunks[..i]), cap))
    decreases |chunks| - i
  {
    if i == |chunks| {
      assert chunks[..i] == chunks;
    } else {
      hide Collect, FirstEnd, Concat, HeadIff;
      CollectChunk(chunks, i, cap);
      if FirstEnd(Concat(chunks[..i + 1])).Some? {
        HeadReached(chunks, i, cap);
      } else if Cut(chunks, i + 1) <= cap {
        CollectMeans(chunks, i + 1, cap);
        EarlierCutWithin(chunks, i, cap, Collect(Feed(chunks), i + 1, Concat(chunks[..i + 1]), cap));
      } else {
        CapPassed(chunks, i, cap, TooLong(Concat(chunks[..i + 1]), i + 1));
      }
    }
  }

  /** Some receive ends past the cap and short of `e`. */
  ghost predicate StopsBetween(chunks: seq<Bytes>, cap: nat, e: nat) {
    exists j :: 0 <= j <= |chunks| && cap < Cut(chunks, j) < e
  }

  /** The exact condition: a stream's header is accepted iff its first blank line is there and no
      receive stopped strictly between the cap and the end of that blank line. */
  lemma HeaderFoundIff(chunks: seq<Bytes>, cap: nat)
    requires NonEmpty(chunks)
    ensures var (w, r) := (Concat(chunks), Collect(Feed(chunks), 0, [], cap));
            && (r.Head? <==> FirstEnd(w).Some? && !StopsBetween(chunks, cap, FirstEnd(w).value))
            && (r.Head? ==> r.header == w[..HeaderLength(w)])
  {
    CollectMeans(chunks, 0, cap);
  }

  /** A blank line that ends within `cap + 1` bytes is found, with the same header, in every split. */
  lemma EarlyEndAlwaysFound(chunks: seq<Bytes>, cap: nat)
    requires NonEmpty(chunks)
    requires var e := FirstEnd(Concat(chunks)); e.Some? && e.value <= cap + 1
    ensures var r := Collect(Feed(chunks), 0, [], cap);
            r.Head? && r.header == Concat(chunks)[..HeaderLength(Concat(chunks))]
  {
    HeaderFoundIff(chunks, cap);
  }

  /** A header is found only in a buffer that holds its blank line. */
  lemma {:induction false} HeadBuffer(chunks: seq<Bytes>, i: nat, cap: nat)
    requires NonEmpty(chunks) && i <= |chunks| && Cut(chunks, i) <= cap
    requires Collect(Feed(chunks), i, Concat(chunks[..i]), cap).Head?
    ensures var r := Collect(Feed(chunks), i, Concat(chunks[..i]), cap);
            FirstEnd(Concat(chunks)).Some? && FirstEnd(Concat(chunks)).value <= |r.buffer|
    decreases |chunks| - i
  {
    ConcatNext(chunks, i);
    ConcatPrefix(chunks, i + 1);
    FirstEndPrefix(Concat(chunks), Cut(chunks, i + 1));
    if FirstEnd(Concat(chunks[..i + 1])).None? {
      HeadBuffer(chunks, i + 1, cap);
    }
  }

  /** With receives of at most `most` bytes, a stream with no blank line ending within `cap + most` bytes
      is refused in every split. */
  lemma LateEndNeverFound(chunks: seq<Bytes>, cap: nat, most: nat)
    requires NonEmpty(chunks) && forall i :: 0 <= i < |chunks| ==> |chunks[i]| <= most
    requires var e := FirstEnd(Concat(chunks)); e.None? || e.value > cap + most
    ensures !Collect(Feed(chunks), 0, [], cap).Head?
  {
    LoopBounds(Feed(chunks), 0, [], cap, most);
    var r := Collect(Feed(chunks), 0, [], cap);
    HeaderFoundIff(chunks, cap);
    if r.Head? {
      HeadBuffer(chunks, 0, cap);
    }
  }

  // ---- Between the two bounds the split decides ----

  function Singles(w: Bytes): (chunks: seq<Bytes>)
    ensures |chunks| == |w| && forall i :: 0 <= i < |w| ==> |chunks[i]| == 1
  {
    seq(|w|, i requires 0 <= i < |w| => [w[i]])
  }

  lemma {:induction false} ConcatSingles(w: Bytes)
    ensures Concat(Singles(w)) == w
  {
    if w != [] {
      var n := |w| - 1;
      ConcatSingles(w[..n]);
      assert Singles(w)[..n] == Singles(w[..n]);
      assert w == w[..n] + [w[n]];
    }
  }

  /** The stream byte by byte, except that the bytes from the cap up to `e` come at once. */
  function InOneGo(w: Bytes, cap: nat, e: nat): seq<Bytes>
    requires cap <= e <= |w|
  {
    Singles(w[..cap]) + [w[cap..e]] + Singles(w[e..])
  }

  /** `chunks` is a way for `w` to arrive in receives of at most `most` bytes. */
  ghost predicate SplitOf(chunks: seq<Bytes>, w: Bytes, most: nat) {
    NonEmpty(chunks) && Concat(chunks) == w && forall i :: 0 <= i < |chunks| ==> |chunks[i]| <= most
  }

  lemma SinglesStop(w: Bytes, cap: nat, e: nat)
    requires cap + 1 < e <= |w|
    ensures SplitOf(Singles(w), w, 1) && StopsBetween(Singles(w), cap, e)
  {
    var chunks := Singles(w);
    ConcatSingles(w);
    ConcatSingles(w[..cap + 1]);
    assert chunks[..cap + 1] == Singles(w[..cap + 1]);
    assert Cut(chunks, cap + 1) == cap + 1;
  }

  lemma InOneGoPasses(w: Bytes, cap: nat, e: nat)
    requires cap < e <= |w|
    ensures SplitOf(InOneGo(w, cap, e), w, e - cap) && !StopsBetween(InOneGo(w, cap, e), cap, e)
  {
    hide Concat;
    var a, b, c := Singles(w[..cap]), [w[cap..e]], Singles(w[e..]);
    var chunks := a + b + c;
    ConcatSingles(w[..cap]);
    ConcatSingles(w[e..]);
    ConcatAppend(a + b, c);
    ConcatAppend(a, b);
    ConcatOne(w[cap..e]);
    assert w[..cap] + w[cap..e] == w[..e] && w[..e] + w[e..] == w;
    assert chunks[..cap] == a && chunks[..cap + 1] == a + b;
    forall j | 0 <= j <= |chunks| ensures Cut(chunks, j) <= cap || Cut(chunks, j) >= e {
      if j <= cap {
        CutsGrow(chunks, j, cap);
      } else {
        CutsGrow(chunks, cap + 1, j);
      }
    }
  }

  /** For a blank line that ends past `cap + 1` but within `cap + most` bytes, one split of the very same
      stream is accepted and one is refused. */
  lemma SplitDecides(w: Bytes, cap: nat, most: nat)
    requires FirstEnd(w).Some? && cap + 1 < FirstEnd(w).value <= cap + most
    ensures var (accepted, refused) := (InOneGo(w, cap, FirstEnd(w).value), Singles(w));
            && SplitOf(accepted, w, most) && Collect(Feed(accepted), 0, [], cap).Head?
            && SplitOf(refused, w, most) && !Collect(Feed(refused), 0, [], cap).Head?
  {
    hide Collect, FirstEnd, Concat, InOneGo, Singles, StopsBetween;
    var e := FirstEnd(w).value;
    InOneGoPasses(w, cap, e);
    SinglesStop(w, cap, e);
    HeaderFoundIff(InOneGo(w, cap, e), cap);
    HeaderFoundIff(Singles(w), cap);
  }
}
