/** The CONNECT negotiation on a socket, with its deadline, byte cap and cleanup on every exit. The
    clock and everything the network does are inputs. */
module ProxyConnect {
  import opened Seqs
  import opened ByteChunks
  import opened ConnectHeader
  import opened StatusLine

  const MAX_HEADER_BYTES: nat := 64 * 1024
  const RECEIVE_BYTES: nat := 4096

  datatype Route = Route(rdns: bool, isHttps: bool, connectTimeout: int)

  /** Wrapping for TLS: a new socket takes the descriptor, or it fails before or after detaching it. */
  datatype Wrap = Wrapped | FailedDetached | FailedAttached

  datatype World = World(resolves: bool, connects: bool, wrap: Wrap, sends: bool, receive: nat -> Event,
                         clock: nat -> real)

  datatype Failure =
    | NotResolved
    | NotConnected
    | NotWrapped
    | NotSent
    | ConnectionClosed
    | ReceiveError
    | HeaderTooLong
    | MalformedResponse
    | ProxyRejected(code: int)

  datatype Outcome = Tunneled | Fails(failure: Failure)

  /** A blocking call: when it began and for how long it may block. */
  datatype Wait = Wait(began: real, timeout: real)

  class Socket {
    var open: bool
    var timeout: Option<real>
    var delegate: Socket?  // the TLS socket whose I/O this one forwards to

    constructor (timeout: Option<real>)
      ensures open && this.timeout == timeout && delegate == null
    {
      open, this.timeout, delegate := true, timeout, null;
    }

    /** A blocking call on this socket that begins at `now`. */
    function Blocking(now: real): Wait
      requires timeout.Some?
      reads this
    {
      Wait(now, timeout.value)
    }

    method Close()
      modifies this`open
      ensures !open
    {
      open := false;
    }
  }

  /** What the proxy's answer comes to. */
  function Answered(received: Received): Outcome {
    match received
    case ClosedByProxy(_, _) => Fails(ConnectionClosed)
    case ReceiveFailed(_, _) => Fails(ReceiveError)
    case TooLong(_, _) => Fails(HeaderTooLong)
    case Head(header, _, _) =>
      match Judge(header)
      case Accepted => Tunneled
      case Malformed => Fails(MalformedResponse)
      case Rejected(code) => Fails(ProxyRejected(code))
  }

  /** What the negotiation comes to, as a function of what the world does. */
  function Negotiation(route: Route, world: World): Outcome {
    if !world.connects then Fails(NotConnected)
    else if route.isHttps && !world.wrap.Wrapped? then Fails(NotWrapped)
    else if !world.sends then Fails(NotSent)
    else Answered(Collect(world.receive, 0, [], MAX_HEADER_BYTES))
  }

  /** The whole connect: local name lookup first, then the negotiation. */
  function Connect(route: Route, world: World): Outcome {
    if !route.rdns && !world.resolves then Fails(NotResolved) else Negotiation(route, world)
  }

  /** What every world leads to, cause by cause: a lookup, connection, handshake or send that fails; then the
      receive that stops the loop, the `n`th; and then the second word of the first line. */
  lemma ConnectOutcome(route: Route, world: World) returns (n: nat)
    ensures var r := Connect(route, world);
            if !route.rdns && !world.resolves then r == Fails(NotResolved)
            else if !world.connects then r == Fails(NotConnected)
            else if route.isHttps && !world.wrap.Wrapped? then r == Fails(NotWrapped)
            else if !world.sends then r == Fails(NotSent)
            else
              && n > 0 && (forall j :: 0 <= j < n ==> GoesOn(world.receive, j, MAX_HEADER_BYTES))
              && var (last, all) := (world.receive(n - 1), Sofar(world.receive, n));
                 if last.Closed? || last == Data([]) then r == Fails(ConnectionClosed)
                 else if last.Broken? then r == Fails(ReceiveError)
                 else if FirstEnd(all).None? then |all| > 65536 && r == Fails(HeaderTooLong)
                 else
                   var words := Split(FirstLine(all[..FirstEnd(all).value - 4]));
                   if |words| < 2 || !WellSpelled(Unsigned(words[1])) then r == Fails(MalformedResponse)
                   else if Reads200(words[1]) then r == Tunneled
                   else r == Fails(ProxyRejected(SignedNumber(words[1])))
  {
    hide Collect, FirstEnd, Split, FirstLine, WellSpelled, Unsigned, SignedNumber, Reads200, Judge, Sofar;
    CollectOutcome(world.receive, MAX_HEADER_BYTES);
    var received := Collect(world.receive, 0, [], MAX_HEADER_BYTES);
    n := received.receives;
    if received.Head? {
      AcceptedIff(received.header);
      JudgeMeans(received.header);
    }
  }

  /** For a stream whose header ends within the cap and one byte, cut in any way: the tunnel stands iff the
      name resolves or is left to the proxy, the connection, the handshake and the send succeed, and the second
      word of the first line is a spelling of 200. */
  lemma TunneledIff(route: Route, world: World, chunks: seq<Bytes>)
    requires NonEmpty(chunks) && world.receive == Feed(chunks)
    requires FirstEnd(Concat(chunks)).Some? && FirstEnd(Concat(chunks)).value <= 65537
    ensures var words := Split(FirstLine(Concat(chunks)[..FirstEnd(Concat(chunks)).value - 4]));
            Connect(route, world).Tunneled?
            <==> (route.rdns || world.resolves) && world.connects && (route.isHttps ==> world.wrap.Wrapped?)
                 && world.sends && |words| >= 2 && Reads200(words[1])
  {
    hide Collect, FirstEnd, Split, FirstLine, Reads200, Judge, Concat;
    EarlyEndAlwaysFound(chunks, MAX_HEADER_BYTES);
    AcceptedIff(Concat(chunks)[..HeaderLength(Concat(chunks))]);
  }

  function TimeLeft(deadline: real, now: real): real {
    if deadline - now > 0.0 then deadline - now else 0.0
  }

  /** The call blocks up to the deadline and no longer; at or past it, not at all. */
  predicate InTime(w: Wait, deadline: real) {
    if w.began < deadline then w.began + w.timeout == deadline else w.timeout == 0.0
  }

  /** One blocking call for each clock reading, from the `first` on, each under the time left. */
  ghost predicate AllInTime(waits: seq<Wait>, clock: nat -> real, first: nat, deadline: real) {
    forall i :: 0 <= i < |waits| ==> waits[i].began == clock(first + i) && InTime(waits[i], deadline)
  }

  lemma NoneYet(clock: nat -> real, first: nat, deadline: real)
    ensures AllInTime([], clock, first, deadline)
  {
  }

  /** One more blocking call, under the time left at its own clock reading. */
  lemma OneMore(waits: seq<Wait>, clock: nat -> real, first: nat, deadline: real, w: Wait)
    requires AllInTime(waits, clock, first, deadline)
    requires w.began == clock(first + |waits|) && w.timeout == TimeLeft(deadline, w.began)
    ensures AllInTime(waits + [w], clock, first, deadline)
  {
  }

  lemma AllTogether(waits: seq<Wait>, more: seq<Wait>, clock: nat -> real, first: nat, deadline: real)
    requires AllInTime(waits, clock, first, deadline) && AllInTime(more, clock, first + |waits|, deadline)
    ensures AllInTime(waits + more, clock, first, deadline)
  {
  }

  /** The blocking calls the negotiation gets to, apart from the send: the connection, the TLS handshake, and
      every receive. */
  function BlockingCalls(route: Route, world: World): nat {
    if !world.connects then 1
    else
      var handshake := if route.isHttps then 1 else 0;
      if (route.isHttps && !world.wrap.Wrapped?) || !world.sends then 1 + handshake
      else 1 + handshake + Collect(world.receive, 0, [], MAX_HEADER_BYTES).receives
  }

  /** The receive loop. */
  method ReceiveHeader(sock: Socket, receive: nat -> Event, clock: nat -> real, first: nat, deadline: real)
    returns (r: Received, waits: seq<Wait>)
    modifies sock`timeout
    ensures r == Collect(receive, 0, [], MAX_HEADER_BYTES)
    ensures |waits| == r.receives <= 65537 && AllInTime(waits, clock, first, deadline)
    ensures AtMost(receive, RECEIVE_BYTES) ==> |r.buffer| <= MAX_HEADER_BYTES + RECEIVE_BYTES
  {
    hide AllInTime;
    LoopBounds(receive, 0, [], MAX_HEADER_BYTES, RECEIVE_BYTES);
    NoneYet(clock, first, deadline);
    var response: Bytes := [];
    var i := 0;
    waits := [];
    while true
      invariant |response| <= MAX_HEADER_BYTES && |waits| == i
      invariant Collect(receive, i, response, MAX_HEADER_BYTES) == Collect(receive, 0, [], MAX_HEADER_BYTES)
      invariant AllInTime(waits, clock, first, deadline)
      decreases MAX_HEADER_BYTES - |response|
    {
      var now := clock(first + i);
      sock.timeout := Some(TimeLeft(deadline, now));
      OneMore(waits, clock, first, deadline, sock.Blocking(now));
      waits := waits + [sock.Blocking(now)];
      match receive(i) {
        case Closed =>
          return ClosedByProxy(response, i + 1), waits;
        case Broken =>
          return ReceiveFailed(response, i + 1), waits;
        case Data(data) =>
          if data == [] {
            return ClosedByProxy(response, i + 1), waits;
          }
          var before := response;
          response := response + data;
          i := i + 1;
          if FirstEnd(response).Some? {
            return Head(response[..HeaderLength(response)], response, i), waits;
          }
          if |response| > MAX_HEADER_BYTES {
            return TooLong(response, i), waits;
          }
      }
    }
  }

  /** The receive loop and the status line. */
  method AwaitAnswer(sock: Socket, world: World, first: nat, deadline: real) returns (r: Outcome, waits: seq<Wait>)
    modifies sock`timeout
    ensures r == Answered(Collect(world.receive, 0, [], MAX_HEADER_BYTES))
    ensures |waits| == Collect(world.receive, 0, [], MAX_HEADER_BYTES).receives
    ensures AllInTime(waits, world.clock, first, deadline)
  {
    var received: Received;
    received, waits := ReceiveHeader(sock, world.receive, world.clock, first, deadline);
    match received {
      case ClosedByProxy(_, _) => r := Fails(ConnectionClosed);
      case ReceiveFailed(_, _) => r := Fails(ReceiveError);
      case TooLong(_, _) => r := Fails(HeaderTooLong);
      case Head(header, _, _) =>
        match Judge(header) {
          case Malformed => r := Fails(MalformedResponse);
          case Rejected(code) => r := Fails(ProxyRejected(code));
          case Accepted => r := Tunneled;
        }
    }
  }

  /** The body of the `try`: `owner` is the socket that owns the descriptor when it ends. */
  method Negotiate(self: Socket, route: Route, world: World, deadline: real)
    returns (r: Outcome, owner: Socket, waits: seq<Wait>)
    requires self.open && self.delegate == null
    modifies self
    ensures r == Negotiation(route, world)
    ensures |waits| == BlockingCalls(route, world) && AllInTime(waits, world.clock, 1, deadline)
    ensures r.Tunneled? ==> owner.open
    ensures if route.isHttps && world.connects && world.wrap.Wrapped?
            then fresh(owner) && !self.open else owner == self
    ensures r.Tunneled? ==> self.delegate == if route.isHttps then owner else null
  {
    hide AllInTime, Answered, Collect;
    owner := self;
    NoneYet(world.clock, 1, deadline);
    self.timeout := Some(TimeLeft(deadline, world.clock(1)));
    OneMore([], world.clock, 1, deadline, self.Blocking(world.clock(1)));
    waits := [self.Blocking(world.clock(1))];
    assert [] + waits == waits;
    if !world.connects {
      return Fails(NotConnected), owner, waits;
    }
    if route.isHttps {
      self.timeout := Some(TimeLeft(deadline, world.clock(2)));
      OneMore(waits, world.clock, 1, deadline, self.Blocking(world.clock(2)));
      waits := waits + [self.Blocking(world.clock(2))];
      match world.wrap {
        case Wrapped =>
          self.open := false;
          owner := new Socket(self.timeout);
        case FailedDetached =>
          self.open := false;
          return Fails(NotWrapped), owner, waits;
        case FailedAttached =>
          return Fails(NotWrapped), owner, waits;
      }
    }
    if !world.sends {
      return Fails(NotSent), owner, waits;
    }
    var more: seq<Wait>;
    r, more := AwaitAnswer(owner, world, 1 + |waits|, deadline);
    AllTogether(waits, more, world.clock, 1, deadline);
    waits := waits + more;
    if r.Tunneled? && owner != self {
      self.delegate := owner;
    }
  }

  /** The whole connect. A failure leaves the descriptor open iff it is that of the local name lookup, which
      comes before the `try`; on every other failure it is closed, wherever it lives by then. On success
      exactly one socket owns it, with the caller's own timeout, and a TLS tunnel is reachable through the
      socket the caller holds. */
  method ConnectViaHttpProxy(self: Socket, route: Route, world: World)
    returns (r: Outcome, owner: Socket, waits: seq<Wait>)
    requires self.open && self.delegate == null
    modifies self
    ensures r == Connect(route, world)
    ensures r.Fails? ==> (self.open || owner.open <==> !route.rdns && !world.resolves)
    ensures r == Fails(NotResolved) ==> owner == self && self.open && self.timeout == old(self.timeout)
    ensures r.Tunneled? ==> owner.open && owner.timeout == old(self.timeout)
    ensures r.Tunneled? && !route.isHttps ==> owner == self && self.delegate == null
    ensures r.Tunneled? && route.isHttps ==> fresh(owner) && !self.open && self.delegate == owner
    ensures AllInTime(waits, world.clock, 1, world.clock(0) + route.connectTimeout as real)
    ensures |waits| == if !route.rdns && !world.resolves then 0 else BlockingCalls(route, world)
  {
    if !route.rdns && !world.resolves {
      return Fails(NotResolved), self, [];
    }
    var original := self.timeout;
    var deadline := world.clock(0) + route.connectTimeout as real;
    r, owner, waits := Negotiate(self, route, world, deadline);
    if r.Fails? && owner.open {
      owner.Close();
    }
    if owner.open {
      owner.timeout := original;
    }
  }

  /** The verdict does not depend on how the proxy's bytes were split: two streams of the same bytes whose
      header ends within the cap and one byte come to the same outcome. */
  lemma SplitIrrelevant(route: Route, world: World, a: seq<Bytes>, b: seq<Bytes>)
    requires NonEmpty(a) && NonEmpty(b) && Concat(a) == Concat(b)
    requires FirstEnd(Concat(a)).Some? && FirstEnd(Concat(a)).value <= MAX_HEADER_BYTES + 1
    ensures Negotiation(route, world.(receive := Feed(a))) == Negotiation(route, world.(receive := Feed(b)))
  {
    EarlyEndAlwaysFound(a, MAX_HEADER_BYTES);
    EarlyEndAlwaysFound(b, MAX_HEADER_BYTES);
  }
}
