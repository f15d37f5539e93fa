/** The wire protocol reader: one handshake, then messages (reader.h, reader.c). */
module Readers {
  import opened Nodes
  import opened Trees
  import opened Dictionary
  import opened Connections
  import opened Registry

  datatype State = Start | Handshake | Wait | Header | Actor | Data {
    predicate InBody() { Header? || Actor? || Data? }
  }

  /** The sizes of `ch_rd_handshake_t` and `ch_ms_message_t`, and the offsets of the fields used here. */
  const HANDSHAKE_SIZE := 20
  const MESSAGE_SIZE := 44
  const HEADER_LEN := 34
  const ACTOR_LEN := 36
  const DATA_LEN := 40

  /** What `uv_tcp_getpeername` answers. */
  datatype Peername =
    | Failed
    | V4(a: Octet, b: Octet, c: Octet, d: Octet)
    | V6(address: Address)

  /** The bytes one call is given, those that happen to lie behind them in memory, and the peer. */
  datatype Chunk = Chunk(buffer: seq<Octet>, behind: nat -> Octet, peer: Peername) {
    function Size(): nat { |buffer| }

    /** What the program finds at offset `i` of the buffer. */
    function At(i: nat): Octet {
      if i < |buffer| then buffer[i] else behind(i - |buffer|)
    }
  }

  /** A connection in the middle of `ch_rd_read`: what it is known by, the reader's state, the bytes
      handled so far, what it has done to the registry, and whether the function has returned. */
  datatype Pass = Pass(key: Peer, state: State, actorLen: int, dataLen: int, shuttingDown: bool,
                       handled: nat, events: seq<Event>, returned: bool)

  function Short(c: Chunk, i: nat): (r: int)
    ensures 0 <= r < 0x1_0000
  {
    var high: int, low: int := c.At(i), c.At(i + 1);
    256 * high + low
  }

  function Long(c: Chunk, i: nat): (r: int)
    ensures 0 <= r < 0x1_0000_0000
  {
    0x1_0000 * Short(c, i) + Short(c, i + 2)
  }

  /** `ch_cn_shutdown`, as far as the registry sees it: the second call does nothing. */
  ghost function ShutDown(n: Node<Peer>, p: Pass): (q: Pass)
    ensures q.state == p.state && q.handled == p.handled && q.returned == p.returned
  {
    if p.shuttingDown then p
    else p.(shuttingDown := true, events := p.events + [Leave(Entry(p.key, n.addr))])
  }

  /** The key of a connection once the peer is known; an IPv4 address fills the first four bytes only. */
  function PeerKey(key: Peer, peer: Peername): Peer
    requires !peer.Failed?
  {
    match peer
    case V4(a, b, c, d) => Key(IPV4, [a, b, c, d] + key.address[4..], key.port)
    case V6(address) => Key(IPV6, address, key.port)
  }

  function PortOf(c: Chunk): Int32
    ensures 0 <= PortOf(c) < 0x1_0000
  {
    Short(c, 0) as Int32
  }

  /** The key a handshake in `c` gives a connection known as `key` before. */
  function HandshakeKey(key: Peer, c: Chunk): Peer
    requires !c.peer.Failed?
  {
    PeerKey(key.(port := PortOf(c)), c.peer)
  }

  /** `_ch_rd_handshake`. */
  ghost function Greet(n: Node<Peer>, p: Pass, c: Chunk): (q: Pass)
    ensures q.returned == p.returned
  {
    if c.Size() < HANDSHAKE_SIZE then ShutDown(n, p)
    else
      var q := p.(key := p.key.(port := PortOf(c)));
      if c.peer.Failed? then ShutDown(n, q)
      else
        var key := HandshakeKey(p.key, c);
        q.(key := key, events := q.events + [Enter(Cell(n, key))])
  }

  /** Where a message goes on once its header has been read. */
  function Next(header: int, actor: int, data: int): State {
    if header > 0 then Header else if actor > 0 then Actor else if data > 0 then Data else Wait
  }

  /** Between two passes of the loop nothing has been handled unless the handshake is over. */
  predicate Ready(p: Pass) {
    p.state.Start? || p.state.Handshake? ==> p.handled == 0
  }

  /** One pass of the loop. Reading a body is a stub that takes nothing. */
  ghost function Turn(n: Node<Peer>, p: Pass, c: Chunk): (q: Pass)
    requires Ready(p) && (p.handled == 0 || p.handled < c.Size())
    ensures Ready(q)
  {
    match p.state
    case Start => p.(state := Handshake)
    case Handshake => Greet(n, p, c).(handled := HANDSHAKE_SIZE, state := Wait)
    case Wait =>
      if c.Size() + p.handled < MESSAGE_SIZE then ShutDown(n, p).(returned := true)
      else
        var header, actor := Short(c, p.handled + HEADER_LEN), Short(c, p.handled + ACTOR_LEN);
        var data := Long(c, p.handled + DATA_LEN);
        p.(state := Next(header, actor, data), actorLen := actor, dataLen := data, handled := p.handled + MESSAGE_SIZE)
    case _ => p
  }

  function Rank(s: State): nat {
    match s
    case Start => 2
    case Handshake => 1
    case _ => 0
  }

  /** The loop, up to the point where it returns or reaches a body. */
  ghost function Finish(n: Node<Peer>, p: Pass, c: Chunk): (q: Pass)
    requires Ready(p) && (p.handled == 0 || p.handled < c.Size())
    ensures Ready(q)
    decreases Rank(p.state), c.Size() - p.handled
  {
    var q := Turn(n, p, c);
    if q.returned || q.handled >= c.Size() || p.state.InBody() then q else Finish(n, q, c)
  }

  // ---------- the key ----------

  /** What the other side writes for its port: `htons`. */
  function Sent(port: int): seq<Octet>
    requires 0 <= port < 0x1_0000
  {
    [port / 256, port % 256]
  }

  /** The port read is the port the other side sent. */
  lemma PortRoundTrip(c: Chunk, port: int)
    requires c.Size() >= HANDSHAKE_SIZE && 0 <= port < 0x1_0000 && c.buffer[..2] == Sent(port)
    ensures PortOf(c) as int == port
  {
    assert c.buffer[0] == c.buffer[..2][0] && c.buffer[1] == c.buffer[..2][1];
  }

  /** Whatever the address bytes were before: two handshakes give the same key exactly when
      peer and port are the same. */
  lemma SamePeerSameKey(k: Peer, l: Peer, c: Chunk, d: Chunk)
    requires c.Size() >= HANDSHAKE_SIZE && !c.peer.Failed?
    requires d.Size() >= HANDSHAKE_SIZE && !d.peer.Failed?
    ensures KeyCmp(HandshakeKey(k, c), HandshakeKey(l, d)) == 0 <==> c.peer == d.peer && PortOf(c) == PortOf(d)
  {
    hide PortOf;
    var x, y := HandshakeKey(k, c), HandshakeKey(l, d);
    SameKey(x, y);
    match (c.peer, d.peer)
    case (V4(a0, a1, a2, a3), V4(b0, b1, b2, b3)) =>
      assert x.address[..4] == [a0, a1, a2, a3] && y.address[..4] == [b0, b1, b2, b3];
    case (V6(a), V6(b)) =>
      assert x.address[..16] == a && y.address[..16] == b;
    case _ =>
  }

  /** `key` is what a handshake in `c` makes of the key `before`: protocol and address of the peer, and the
      port the first two bytes hold in network order. */
  ghost predicate IsKeyOf(key: Peer, before: Peer, c: Chunk) {
    && key.port as int == 256 * (c.At(0) as int) + c.At(1) as int
    && match c.peer
       case Failed => key.protocol == before.protocol && key.address == before.address
       case V4(a, b, x, y) =>
         key.protocol == IPV4 && key.address[..4] == [a, b, x, y] && key.address[4..] == before.address[4..]
       case V6(address) => key.protocol == IPV6 && key.address == address
  }

  /** A whole handshake from a known peer registers the connection under that key, and does nothing else. */
  lemma GreetRegisters(n: Node<Peer>, p: Pass, c: Chunk)
    requires c.Size() >= 20 && !c.peer.Failed?
    ensures var q := Greet(n, p, c);
            && IsKeyOf(q.key, p.key, c) && q.events == p.events + [Enter(Cell(n, q.key))]
            && q == p.(key := q.key, events := q.events)
  {
  }

  /** A short handshake, and a whole one from a peer that is not known, lead to a shutdown: the connection is
      marked, and the first time it is deleted by its key. */
  lemma GreetRefuses(n: Node<Peer>, p: Pass, c: Chunk)
    requires c.Size() < 20 || c.peer.Failed?
    ensures var q := Greet(n, p, c);
            && q.shuttingDown && q.events == p.events + Withdrawal(n, p.shuttingDown, q.key)
            && (if c.Size() < 20 then q.key == p.key else IsKeyOf(q.key, p.key, c))
            && q == p.(key := q.key, shuttingDown := true, events := q.events)
  {
  }

  /** What a shutdown adds to the history. */
  ghost function Withdrawal(n: Node<Peer>, already: bool, key: Peer): seq<Event> {
    if already then [] else [Leave(Entry(key, n.addr))]
  }

  // ---------- at most one registration ----------

  ghost function Enters(evs: seq<Event>): nat {
    if evs == [] then 0 else Enters(evs[..|evs| - 1]) + if evs[|evs| - 1].Enter? then 1 else 0
  }

  /** Whoever registers here is `n`. */
  ghost predicate OnlyItself(n: Node<Peer>, evs: seq<Event>) {
    forall i :: 0 <= i < |evs| && evs[i].Enter? ==> evs[i].cell.node == n
  }

  /** The events have grown by some of `n`, with `k` registrations among them. */
  ghost predicate Adds(n: Node<Peer>, evs: seq<Event>, evs': seq<Event>, k: nat) {
    evs <= evs' && OnlyItself(n, evs'[|evs|..]) && Enters(evs') == Enters(evs) + k
  }

  lemma AddsNothing(n: Node<Peer>, evs: seq<Event>)
    ensures Adds(n, evs, evs, 0)
  {
  }

  lemma AddsOne(n: Node<Peer>, evs: seq<Event>, ev: Event)
    requires ev.Enter? ==> ev.cell.node == n
    ensures Adds(n, evs, evs + [ev], if ev.Enter? then 1 else 0)
  {
    assert (evs + [ev])[..|evs|] == evs && (evs + [ev])[|evs|..] == [ev];
  }

  lemma AddsMore(n: Node<Peer>, evs: seq<Event>, evs': seq<Event>, evs'': seq<Event>, k: nat, l: nat)
    requires Adds(n, evs, evs', k) && Adds(n, evs', evs'', l)
    ensures Adds(n, evs, evs'', k + l)
  {
    assert evs''[|evs|..] == evs'[|evs|..] + evs''[|evs'|..];
  }

  /** A call of `ch_rd_read` that deals with the handshake. */
  predicate Greets(state: State, c: Chunk) {
    state.Handshake? || (state.Start? && c.Size() > 0)
  }

  /** A call that completes it. */
  predicate Completes(state: State, c: Chunk) {
    Greets(state, c) && c.Size() >= 20 && !c.peer.Failed?
  }

  /** A call that leads to a shutdown: of a short handshake, an unknown peer, or what the header test rejects. */
  predicate Refused(state: State, c: Chunk) {
    if state.Wait? then c.Size() < 44
    else Greets(state, c) && (c.Size() < 20 || c.peer.Failed? || 20 < c.Size() < 24)
  }

  lemma ShutDownAdds(n: Node<Peer>, p: Pass)
    ensures Adds(n, p.events, ShutDown(n, p).events, 0) && ShutDown(n, p).state == p.state
  {
    hide Adds;
    AddsNothing(n, p.events);
    AddsOne(n, p.events, Leave(Entry(p.key, n.addr)));
  }

  lemma GreetAdds(n: Node<Peer>, p: Pass, c: Chunk)
    ensures Adds(n, p.events, Greet(n, p, c).events, if Completes(Handshake, c) then 1 else 0)
  {
    hide Adds, ShutDown, PortOf, HandshakeKey;
    ShutDownAdds(n, p);
    if c.Size() >= HANDSHAKE_SIZE {
      var q := p.(key := p.key.(port := PortOf(c)));
      ShutDownAdds(n, q);
      if !c.peer.Failed? {
        AddsOne(n, p.events, Enter(Cell(n, HandshakeKey(p.key, c))));
      }
    }
  }

  lemma TurnAdds(n: Node<Peer>, p: Pass, c: Chunk)
    requires Ready(p) && (p.handled == 0 || p.handled < c.Size())
    ensures Adds(n, p.events, Turn(n, p, c).events, if p.state.Handshake? && Completes(Handshake, c) then 1 else 0)
  {
    hide Adds, ShutDown, Greet, Short, Long, Next, HandshakeKey;
    AddsNothing(n, p.events);
    ShutDownAdds(n, p);
    GreetAdds(n, p, c);
  }

  /** Which state a pass leads to. */
  lemma TurnMoves(n: Node<Peer>, p: Pass, c: Chunk)
    requires Ready(p) && (p.handled == 0 || p.handled < c.Size())
    ensures var q := Turn(n, p, c);
            && (p.state.Start? ==> q.state.Handshake? && q.handled == 0 && !q.returned == !p.returned)
            && (!p.state.Start? ==> !q.state.Start? && !q.state.Handshake?)
            && (p.state.Wait? && !q.returned ==> q.handled == p.handled + MESSAGE_SIZE)
            && (p.state.InBody() ==> q == p)
  {
    hide Greet, Short, Long;
  }

  /** One call registers the connection exactly when it completes the handshake, under the key the
      handshake gives it, and leaves the handshake states unless it was a first call without data. */
  lemma {:induction false} FinishAdds(n: Node<Peer>, p: Pass, c: Chunk)
    requires Ready(p) && (p.handled == 0 || p.handled < c.Size()) && !p.returned
    ensures var q := Finish(n, p, c);
            && Adds(n, p.events, q.events, if Completes(p.state, c) then 1 else 0)
            && (Completes(p.state, c) ==> IsKeyOf(q.key, p.key, c) && Enter(Cell(n, q.key)) in q.events)
            && (q.state.Handshake? <==> p.state.Start? && c.Size() == 0) && !q.state.Start?
    decreases Rank(p.state), c.Size() - p.handled
  {
    hide Turn, Enters, OnlyItself, IsKeyOf;
    if Completes(p.state, c) {
      CallAnswers(n, p, c);
    }
    TurnAdds(n, p, c);
    TurnMoves(n, p, c);
    var q := Turn(n, p, c);
    if !(q.returned || q.handled >= c.Size() || p.state.InBody()) {
      FinishAdds(n, q, c);
      AddsMore(n, p.events, q.events, Finish(n, q, c).events,
               if p.state.Handshake? && Completes(Handshake, c) then 1 else 0,
               if Completes(q.state, c) then 1 else 0);
    }
  }

  /** Any number of calls, one after the other. */
  ghost function Reads(n: Node<Peer>, p: Pass, cs: seq<Chunk>): Pass
    decreases |cs|
  {
    if cs == [] then p else Reads(n, Finish(n, p.(handled := 0, returned := false), cs[0]), cs[1..])
  }

  /** Past the handshake nothing registers any more. */
  lemma {:induction false} NoMoreEnters(n: Node<Peer>, p: Pass, cs: seq<Chunk>)
    requires !p.state.Start? && !p.state.Handshake?
    ensures Enters(Reads(n, p, cs).events) == Enters(p.events)
    decreases |cs|
  {
    if cs != [] {
      var q := p.(handled := 0, returned := false);
      FinishAdds(n, q, cs[0]);
      NoMoreEnters(n, Finish(n, q, cs[0]), cs[1..]);
    }
  }

  /** The handshake arrives with the first call, or, if that brought no data, with the second. */
  predicate HandshakeArrives(cs: seq<Chunk>) {
    var k := if |cs| > 0 && cs[0].Size() == 0 then 1 else 0;
    k < |cs| && cs[k].Size() >= HANDSHAKE_SIZE && !cs[k].peer.Failed?
  }

  /** A connection registers at most once in its life, and exactly when its whole handshake arrives in one piece. */
  lemma RegistersOnce(n: Node<Peer>, p: Pass, cs: seq<Chunk>)
    requires p.state.Start? && p.events == []
    ensures Enters(Reads(n, p, cs).events) == if HandshakeArrives(cs) then 1 else 0
  {
    if cs != [] {
      var q := p.(handled := 0, returned := false);
      FinishAdds(n, q, cs[0]);
      var r := Finish(n, q, cs[0]);
      if cs[0].Size() > 0 {
        NoMoreEnters(n, r, cs[1..]);
      } else if |cs| > 1 {
        var r' := r.(handled := 0, returned := false);
        FinishAdds(n, r', cs[1]);
        NoMoreEnters(n, Finish(n, r', cs[1]), cs[2..]);
        assert cs[1..][1..] == cs[2..];
      }
    }
  }

  // ---------- a header ----------

  /** The header at `at` announces no body. */
  predicate Empty(c: Chunk, at: nat) {
    && c.At(at + 34) == 0 && c.At(at + 35) == 0 && c.At(at + 36) == 0 && c.At(at + 37) == 0
    && c.At(at + 40) == 0 && c.At(at + 41) == 0 && c.At(at + 42) == 0 && c.At(at + 43) == 0
  }

  /** The reader has taken the header at `at`: the lengths, in network order, and the first body part that is
      not empty, in the order header, actor, data. */
  ghost predicate HasHeader(q: Pass, c: Chunk, at: nat) {
    && q.actorLen == 256 * (c.At(at + 36) as int) + c.At(at + 37) as int
    && q.dataLen == 0x100_0000 * (c.At(at + 40) as int) + 0x1_0000 * (c.At(at + 41) as int)
                    + 256 * (c.At(at + 42) as int) + c.At(at + 43) as int
    && (q.state.Header? <==> c.At(at + 34) != 0 || c.At(at + 35) != 0)
    && (q.state.Actor? <==> c.At(at + 34) == 0 && c.At(at + 35) == 0 && q.actorLen != 0)
    && (q.state.Data? <==> c.At(at + 34) == 0 && c.At(at + 35) == 0 && q.actorLen == 0 && q.dataLen != 0)
    && (q.state.Wait? <==> Empty(c, at))
  }

  /** A pass that finds a header takes it, and changes nothing else. */
  lemma HeaderTaken(n: Node<Peer>, p: Pass, c: Chunk)
    requires p.state.Wait? && (p.handled == 0 || p.handled < c.Size()) && c.Size() + p.handled >= 44
    ensures var q := Turn(n, p, c);
            && HasHeader(q, c, p.handled)
            && q == p.(state := q.state, actorLen := q.actorLen, dataLen := q.dataLen, handled := p.handled + 44)
  {
  }

  /** A pass that finds none shuts the connection down and returns. */
  lemma HeaderRefused(n: Node<Peer>, p: Pass, c: Chunk)
    requires p.state.Wait? && (p.handled == 0 || p.handled < c.Size()) && c.Size() + p.handled < 44
    ensures Turn(n, p, c) == p.(returned := true, shuttingDown := true,
                                events := p.events + Withdrawal(n, p.shuttingDown, p.key))
  {
  }

  /** Over several headers: the reader goes on while they are empty and bytes are left, and ends with the
      header after which that is no longer so. */
  lemma {:induction false} HeadersTaken(n: Node<Peer>, p: Pass, c: Chunk, k: nat)
    requires p.state.Wait? && !p.returned && (p.handled == 0 || p.handled < c.Size()) && c.Size() + p.handled >= 44
    requires forall j: nat :: j < k ==> EmptyAt(c, p.handled, j) && p.handled + 44 * (j + 1) < c.Size()
    requires !EmptyAt(c, p.handled, k) || p.handled + 44 * (k + 1) >= c.Size()
    ensures var q := Finish(n, p, c);
            && HasHeader(q, c, p.handled + 44 * k)
            && q == p.(state := q.state, actorLen := q.actorLen, dataLen := q.dataLen,
                       handled := p.handled + 44 * (k + 1))
    decreases k
  {
    hide Turn, HasHeader, Empty;
    HeaderTaken(n, p, c);
    var q := Turn(n, p, c);
    TakenState(q, c, p.handled);
    NextEmpty(c, p.handled, 0);
    if k > 0 {
      assert EmptyAt(c, p.handled, 0) && p.handled + 44 * (0 + 1) < c.Size();
      forall j: nat | j < k - 1 ensures EmptyAt(c, q.handled, j) && q.handled + 44 * (j + 1) < c.Size() {
        NextEmpty(c, p.handled, j);
        assert EmptyAt(c, p.handled, j + 1);
      }
      NextEmpty(c, p.handled, k - 1);
      HeadersTaken(n, q, c, k - 1);
    } else if q.handled < c.Size() {
      BodyStays(n, q, c);
    }
  }

  lemma TakenState(q: Pass, c: Chunk, at: nat)
    requires HasHeader(q, c, at)
    ensures q.state.Wait? <==> Empty(c, at)
  {
  }

  lemma BodyStays(n: Node<Peer>, p: Pass, c: Chunk)
    requires p.state.InBody() && p.handled < c.Size()
    ensures Finish(n, p, c) == p
  {
  }

  // ---------- what a whole call does to the registry ----------

  lemma {:induction false} HeadersKeep(n: Node<Peer>, p: Pass, c: Chunk)
    requires p.state.Wait? && !p.returned && (p.handled == 0 || p.handled < c.Size()) && c.Size() + p.handled >= 44
    ensures var q := Finish(n, p, c);
            q.key == p.key && q.events == p.events && q.shuttingDown == p.shuttingDown
    decreases c.Size() - p.handled
  {
    hide Turn, HasHeader;
    HeaderTaken(n, p, c);
    TurnMoves(n, p, c);
    var q := Turn(n, p, c);
    if q.handled < c.Size() {
      if q.state.Wait? {
        HeadersKeep(n, q, c);
      } else {
        BodyStays(n, q, c);
      }
    }
  }

  lemma FromWait(n: Node<Peer>, p: Pass, c: Chunk)
    requires p.state.Wait? && !p.returned && (p.handled == 0 || p.handled < c.Size())
    ensures var q := Finish(n, p, c);
            && q.key == p.key && q.shuttingDown == (p.shuttingDown || c.Size() + p.handled < 44)
            && q.events == p.events + if c.Size() + p.handled < 44 then Withdrawal(n, p.shuttingDown, p.key) else []
  {
    hide Turn;
    if c.Size() + p.handled < 44 {
      HeaderRefused(n, p, c);
    } else {
      HeadersKeep(n, p, c);
    }
  }

  lemma FromHandshake(n: Node<Peer>, p: Pass, c: Chunk)
    requires p.state.Handshake? && p.handled == 0 && !p.returned
    ensures var q := Finish(n, p, c);
            && q.shuttingDown == (p.shuttingDown || Refused(p.state, c))
            && q.events == p.events + (if Completes(p.state, c) then [Enter(Cell(n, q.key))] else [])
                           + (if Refused(p.state, c) then Withdrawal(n, p.shuttingDown, q.key) else [])
            && (if c.Size() >= 20 then IsKeyOf(q.key, p.key, c) else q.key == p.key)
  {
    hide Greet, IsKeyOf;
    var g := Greet(n, p, c);
    if Completes(p.state, c) {
      GreetRegisters(n, p, c);
    } else {
      GreetRefuses(n, p, c);
    }
    var w := Turn(n, p, c);
    assert w == g.(handled := 20, state := Wait);
    if 20 < c.Size() {
      assert Finish(n, p, c) == Finish(n, w, c);
      FromWait(n, w, c);
    } else {
      assert Finish(n, p, c) == w;
    }
  }

  /** What one call does to the key of its connection and to the registry, by the state it begins in and the bytes
      it is given: it registers the connection if it completes the handshake, under the key it gives it, and then,
      if it is refused and the connection is not shutting down already, deletes by that key. */
  lemma CallAnswers(n: Node<Peer>, p: Pass, c: Chunk)
    requires p.handled == 0 && !p.returned
    ensures var q := Finish(n, p, c);
            && q.shuttingDown == (p.shuttingDown || Refused(p.state, c))
            && q.events == p.events + (if Completes(p.state, c) then [Enter(Cell(n, q.key))] else [])
                           + (if Refused(p.state, c) then Withdrawal(n, p.shuttingDown, q.key) else [])
            && (if Greets(p.state, c) && c.Size() >= 20 then IsKeyOf(q.key, p.key, c) else q.key == p.key)
  {
    hide Greet, IsKeyOf;
    if p.state.Wait? {
      FromWait(n, p, c);
    } else if p.state.Handshake? {
      FromHandshake(n, p, c);
    } else if p.state.Start? && c.Size() > 0 {
      var h := p.(state := Handshake);
      assert Finish(n, p, c) == Finish(n, h, c);
      FromHandshake(n, h, c);
    }
  }

  // ---------- the header test ----------

  /** The test for a complete message header gives the right answer except for sizes within the number of
      bytes already handled of a header's size. */
  lemma HeaderTest(n: Node<Peer>, p: Pass, c: Chunk)
    requires p.state.Wait? && !p.returned && (p.handled == 0 || p.handled < c.Size())
    ensures (!Turn(n, p, c).returned <==> c.Size() - p.handled >= MESSAGE_SIZE) <==>
            !(MESSAGE_SIZE - p.handled <= c.Size() < MESSAGE_SIZE + p.handled)
  {
    hide ShutDown, Short, Long, Next;
  }

  /** A first read of a handshake and four or more bytes is taken for a handshake and a whole header. */
  lemma PartialHeaderTaken(n: Node<Peer>, p: Pass, c: Chunk)
    requires p.state.Start? && p.handled == 0 && !p.returned && 24 <= c.Size() < 64
    ensures var q := Finish(n, p, c);
            !q.returned && q.handled == 64 && HasHeader(q, c, 20)
  {
    hide Greet, HasHeader;
    var greeted := Turn(n, Turn(n, p, c), c);
    assert greeted.state.Wait? && greeted.handled == 20 && !greeted.returned;
    HeaderTaken(n, greeted, c);
    assert Finish(n, p, c) == Finish(n, greeted, c) == Turn(n, greeted, c);
  }

  /** What lies behind the bytes read then decides how long a body the reader expects. */
  lemma UnreadBytesDecide(n: Node<Peer>, p: Pass, buffer: seq<Octet>, peer: Peername)
    requires p.state.Start? && p.handled == 0 && !p.returned && 24 <= |buffer| < 64
    ensures Finish(n, p, Chunk(buffer, (i: nat) => 0, peer)).dataLen
         != Finish(n, p, Chunk(buffer, (i: nat) => 1, peer)).dataLen
  {
    hide Finish;
    var c, d := Chunk(buffer, (i: nat) => 0, peer), Chunk(buffer, (i: nat) => 1, peer);
    PartialHeaderTaken(n, p, c);
    PartialHeaderTaken(n, p, d);
    assert c.At(63) == 0 && d.At(63) == 1;
    assert c.At(60) <= d.At(60) && c.At(61) <= d.At(61) && c.At(62) <= d.At(62);
  }

  // ---------- bodies ----------

  /** The `k`-th of the headers that follow each other from `at` on announces no body. */
  predicate EmptyAt(c: Chunk, at: nat, k: nat) {
    Empty(c, at + MESSAGE_SIZE * k)
  }

  /** Of the headers that follow each other from `at` on, the first that announces a body is followed by
      more bytes. */
  ghost predicate BodyAhead(c: Chunk, at: nat) {
    exists k: nat :: !EmptyAt(c, at, k) && at + MESSAGE_SIZE * k + MESSAGE_SIZE < c.Size()
                     && forall j: nat :: j < k ==> EmptyAt(c, at, j)
  }

  /** The calls that never return, by the state they begin in and the bytes they are given. */
  ghost predicate Spins(state: State, c: Chunk) {
    if state.InBody() then c.Size() > 0 else BodyAhead(c, if state.Wait? then 0 else HANDSHAKE_SIZE)
  }

  lemma NextEmpty(c: Chunk, at: nat, j: nat)
    ensures EmptyAt(c, at, 0) == Empty(c, at)
    ensures EmptyAt(c, at + MESSAGE_SIZE, j) == EmptyAt(c, at, j + 1)
  {
    hide Empty;
    assert at + MESSAGE_SIZE + MESSAGE_SIZE * j == at + MESSAGE_SIZE * (j + 1);
  }

  lemma BodyAheadOfOne(c: Chunk, at: nat)
    ensures BodyAhead(c, at) <==>
            at + MESSAGE_SIZE < c.Size() && (!Empty(c, at) || BodyAhead(c, at + MESSAGE_SIZE))
  {
    hide EmptyAt, Empty, BodyAhead;
    if BodyAhead(c, at) {
      BodyAheadOn(c, at);
    }
    if at + MESSAGE_SIZE < c.Size() {
      if !Empty(c, at) {
        BodyHere(c, at);
      } else if BodyAhead(c, at + MESSAGE_SIZE) {
        BodyAheadBack(c, at);
      }
    }
  }

  lemma BodyHere(c: Chunk, at: nat)
    requires at + MESSAGE_SIZE < c.Size() && !Empty(c, at)
    ensures BodyAhead(c, at)
  {
    hide EmptyAt, Empty;
    NextEmpty(c, at, 0);
    assert !EmptyAt(c, at, 0);
  }

  lemma BodyAheadOn(c: Chunk, at: nat)
    requires BodyAhead(c, at)
    ensures at + MESSAGE_SIZE < c.Size() && (!Empty(c, at) || BodyAhead(c, at + MESSAGE_SIZE))
  {
    hide EmptyAt, Empty;
    var next := at + MESSAGE_SIZE;
    var k: nat :| !EmptyAt(c, at, k) && at + MESSAGE_SIZE * k + MESSAGE_SIZE < c.Size()
                  && forall j: nat :: j < k ==> EmptyAt(c, at, j);
    NextEmpty(c, at, 0);
    if k > 0 {
      NextEmpty(c, at, k - 1);
      forall j: nat | j < k - 1 ensures EmptyAt(c, next, j) {
        NextEmpty(c, at, j);
      }
      assert !EmptyAt(c, next, k - 1);
    }
  }

  lemma BodyAheadBack(c: Chunk, at: nat)
    requires Empty(c, at) && BodyAhead(c, at + MESSAGE_SIZE)
    ensures BodyAhead(c, at)
  {
    hide EmptyAt, Empty;
    var next := at + MESSAGE_SIZE;
    var k: nat :| !EmptyAt(c, next, k) && next + MESSAGE_SIZE * k + MESSAGE_SIZE < c.Size()
                  && forall j: nat :: j < k ==> EmptyAt(c, next, j);
    NextEmpty(c, at, k);
    forall j: nat | j < k + 1 ensures EmptyAt(c, at, j) {
      NextEmpty(c, at, if j > 0 then j - 1 else 0);
    }
    assert !EmptyAt(c, at, k + 1);
  }

  lemma {:induction false} WaitSpins(n: Node<Peer>, p: Pass, c: Chunk)
    requires p.state.Wait? && !p.returned && (p.handled == 0 || p.handled < c.Size())
    ensures var q := Finish(n, p, c);
            !q.returned && q.handled < c.Size() <==> BodyAhead(c, p.handled)
    decreases c.Size() - p.handled
  {
    hide Turn, HasHeader, Empty, BodyAhead;
    BodyAheadOfOne(c, p.handled);
    BodyAheadOfOne(c, p.handled + MESSAGE_SIZE);
    var q := Turn(n, p, c);
    if c.Size() + p.handled >= 44 {
      HeaderTaken(n, p, c);
      TakenState(q, c, p.handled);
    } else {
      HeaderRefused(n, p, c);
    }
    if !q.returned && q.handled < c.Size() {
      if q.state.Wait? {
        WaitSpins(n, q, c);
        assert Finish(n, p, c) == Finish(n, q, c);
      } else {
        TurnMoves(n, p, c);
        BodyStays(n, q, c);
      }
    }
  }

  /** A call goes round for ever exactly if `Spins` says so. */
  lemma CallSpins(n: Node<Peer>, p: Pass, c: Chunk)
    requires p.handled == 0 && !p.returned
    ensures var q := Finish(n, p, c);
            !q.returned && q.handled < c.Size() <==> Spins(p.state, c)
  {
    hide Short, Long, ShutDown, Greet, BodyAhead;
    BodyAheadOfOne(c, HANDSHAKE_SIZE);
    if p.state.Wait? {
      WaitSpins(n, p, c);
    } else if !p.state.InBody() {
      var h := if p.state.Start? then Turn(n, p, c) else p;
      var w := Turn(n, h, c);
      assert w.state.Wait? && w.handled == HANDSHAKE_SIZE && !w.returned;
      if (p.state.Start? ==> c.Size() > 0) && HANDSHAKE_SIZE < c.Size() {
        assert Finish(n, p, c) == Finish(n, w, c);
        WaitSpins(n, w, c);
      }
    }
  }

  /** After `k` rounds the loop is still running. */
  ghost predicate StillRunning(n: Node<Peer>, p: Pass, c: Chunk, k: nat)
    requires Ready(p) && (p.handled == 0 || p.handled < c.Size())
    decreases k
  {
    k > 0 ==>
      var q := Turn(n, p, c);
      !q.returned && q.handled < c.Size() && StillRunning(n, q, c, k - 1)
  }

  ghost predicate RunsForEver(n: Node<Peer>, p: Pass, c: Chunk)
    requires Ready(p) && (p.handled == 0 || p.handled < c.Size())
  {
    forall k: nat :: StillRunning(n, p, c, k)
  }

  lemma OneRound(n: Node<Peer>, p: Pass, c: Chunk, k: nat)
    requires Ready(p) && (p.handled == 0 || p.handled < c.Size())
    ensures var q := Turn(n, p, c);
            StillRunning(n, p, c, k + 1) <==> !q.returned && q.handled < c.Size() && StillRunning(n, q, c, k)
    ensures StillRunning(n, p, c, 0)
  {
    hide Turn;
  }

  /** With a body announced and bytes left the loop makes no progress, however often it goes round. */
  lemma {:induction false} BodySpins(n: Node<Peer>, p: Pass, c: Chunk, k: nat)
    requires p.state.InBody() && !p.returned && p.handled < c.Size()
    ensures StillRunning(n, p, c, k)
  {
    if k > 0 {
      BodySpins(n, p, c, k - 1);
    }
  }

  lemma RunsOn(n: Node<Peer>, p: Pass, c: Chunk)
    requires Ready(p) && (p.handled == 0 || p.handled < c.Size())
    ensures var q := Turn(n, p, c);
            RunsForEver(n, p, c) <==> !q.returned && q.handled < c.Size() && RunsForEver(n, q, c)
  {
    hide Turn, StillRunning;
    var q := Turn(n, p, c);
    if RunsForEver(n, p, c) {
      OneRound(n, p, c, 0);
      assert StillRunning(n, p, c, 0 + 1);
      forall k: nat ensures StillRunning(n, q, c, k) {
        OneRound(n, p, c, k);
        assert StillRunning(n, p, c, k + 1);
      }
    }
    if !q.returned && q.handled < c.Size() && RunsForEver(n, q, c) {
      forall k: nat ensures StillRunning(n, p, c, k) {
        OneRound(n, p, c, if k > 0 then k - 1 else 0);
        assert k > 0 ==> StillRunning(n, q, c, k - 1);
      }
    }
  }

  /** The loop runs for ever exactly if it comes to a body with bytes left. */
  lemma {:induction false} ForEver(n: Node<Peer>, p: Pass, c: Chunk)
    requires Ready(p) && (p.handled == 0 || p.handled < c.Size()) && !p.returned
    ensures var q := Finish(n, p, c);
            RunsForEver(n, p, c) <==> !q.returned && q.handled < c.Size()
    decreases Rank(p.state), c.Size() - p.handled
  {
    hide Turn, StillRunning, RunsForEver;
    TurnMoves(n, p, c);
    var q := Turn(n, p, c);
    RunsOn(n, p, c);
    if !q.returned && q.handled < c.Size() {
      if p.state.InBody() {
        BodyForEver(n, p, c);
      } else {
        ForEver(n, q, c);
      }
    }
  }

  lemma BodyForEver(n: Node<Peer>, p: Pass, c: Chunk)
    requires p.state.InBody() && !p.returned && p.handled < c.Size()
    ensures RunsForEver(n, p, c)
  {
    forall k: nat ensures StillRunning(n, p, c, k) {
      BodySpins(n, p, c, k);
    }
  }

  /** A call of `ch_rd_read` never returns exactly if it begins in a body with any bytes, or the first header that
      announces a body, counting from behind the handshake where that is due, is followed by more bytes. */
  lemma NeverReturns(n: Node<Peer>, p: Pass, c: Chunk)
    requires p.handled == 0 && !p.returned
    ensures RunsForEver(n, p, c) <==> Spins(p.state, c)
  {
    hide RunsForEver, Finish, Spins;
    ForEver(n, p, c);
    CallSpins(n, p, c);
  }

  /** A handshake, a header that announces one byte of header, and that byte, all in the first read. */
  const STUCK: seq<Octet> := seq(65, i => if i == HANDSHAKE_SIZE + HEADER_LEN + 1 then 1 else 0)

  lemma StuckFromStart(n: Node<Peer>, p: Pass, behind: nat -> Octet, peer: Peername)
    requires p.state.Start? && p.handled == 0 && !p.returned
    ensures RunsForEver(n, p, Chunk(STUCK, behind, peer))
  {
    hide RunsForEver, Spins;
    var c := Chunk(STUCK, behind, peer);
    NeverReturns(n, p, c);
    BodyAheadOfOne(c, HANDSHAKE_SIZE);
    assert c.At(HANDSHAKE_SIZE + HEADER_LEN + 1) == 1;
    SpinsFromStart(c);
  }

  lemma SpinsFromStart(c: Chunk)
    ensures Spins(Start, c) <==> BodyAhead(c, HANDSHAKE_SIZE)
  {
  }

  // ---------- the reader itself ----------

  class Connection {
    const node: Node<Peer>
    var state: State
    var actorLen: int
    var dataLen: int
    var shuttingDown: bool

    constructor (node: Node<Peer>)
      ensures this.node == node && state.Start? && !shuttingDown
    {
      this.node := node;
      state, actorLen, dataLen, shuttingDown := Start, 0, 0, false;
    }

    /** The connection's part of `p`. */
    ghost predicate Is(p: Pass)
      reads this, node
    {
      && node.key == p.key && state == p.state && actorLen == p.actorLen && dataLen == p.dataLen
      && shuttingDown == p.shuttingDown
    }

    /** A connection that may still register is in neither tree, and nobody there has its address. */
    ghost predicate Unmet(b: Books)
      reads this
    {
      state.Start? || state.Handshake? ==> Newcomer(b, node)
    }
  }

  /** What the history of registrations and shutdowns has become by `p`. */
  ghost predicate Logged(protocol: Protocol, base: seq<Event>, p: Pass)
    reads protocol, protocol.Nodes()
  {
    protocol.Valid() && protocol.log == base + p.events
  }

  /** `ch_cn_shutdown`, as far as the registry sees it. */
  method ShutDownConnection(protocol: Protocol, conn: Connection, ghost p: Pass, ghost base: seq<Event>)
    requires Logged(protocol, base, p) && conn.Is(p)
    modifies protocol, protocol.Nodes()`left, protocol.Nodes()`right, protocol.Nodes()`red, conn`shuttingDown
    ensures Logged(protocol, base, ShutDown(conn.node, p)) && conn.Is(ShutDown(conn.node, p))
    ensures conn.shuttingDown
    ensures protocol.log == old(protocol.log) + Withdrawal(conn.node, old(conn.shuttingDown), conn.node.key)
    ensures protocol.Nodes() <= old(protocol.Nodes())
  {
    if !conn.shuttingDown {
      protocol.Withdraw(conn.node);
      conn.shuttingDown := true;
      assert protocol.log == base + (p.events + [Leave(Entry(p.key, conn.node.addr))]);
    }
  }

  /** `_ch_rd_handshake`. */
  method GreetPeer(protocol: Protocol, conn: Connection, c: Chunk, ghost p: Pass, ghost base: seq<Event>)
    requires Logged(protocol, base, p) && conn.Is(p) && Newcomer(protocol.books, conn.node)
    modifies protocol, protocol.Nodes()`left, protocol.Nodes()`right, protocol.Nodes()`red, conn`shuttingDown, conn.node
    ensures Logged(protocol, base, Greet(conn.node, p, c)) && conn.Is(Greet(conn.node, p, c))
    ensures if c.Size() >= 20 then IsKeyOf(conn.node.key, old(conn.node.key), c)
            else conn.node.key == old(conn.node.key)
    ensures c.Size() >= 20 && !c.peer.Failed? ==>
              && conn.shuttingDown == old(conn.shuttingDown)
              && protocol.log == old(protocol.log) + [Enter(Cell(conn.node, conn.node.key))]
    ensures c.Size() < 20 || c.peer.Failed? ==>
              && conn.shuttingDown
              && protocol.log == old(protocol.log) + Withdrawal(conn.node, old(conn.shuttingDown), conn.node.key)
    ensures protocol.Nodes() <= old(protocol.Nodes()) + {conn.node}
  {
    if c.Size() >= 20 && !c.peer.Failed? {
      GreetRegisters(conn.node, p, c);
    } else {
      GreetRefuses(conn.node, p, c);
    }
    hide ShutDown, HandshakeKey, PortOf, Protocol.Valid, Newcomer, IsKeyOf;
    if c.Size() < HANDSHAKE_SIZE {
      ShutDownConnection(protocol, conn, p, base);
      return;
    }
    NotListed(protocol, conn.node);
    var key := conn.node.key.(port := PortOf(c));
    if c.peer.Failed? {
      conn.node.key := key;
      assert protocol.Valid();
      ShutDownConnection(protocol, conn, p.(key := key), base);
      return;
    }
    var previous := protocol.Register(conn.node, HandshakeKey(conn.node.key, c));
    ghost var e := Enter(Cell(conn.node, conn.node.key));
    assert protocol.log == base + (p.events + [e]);
  }

  lemma NotListed(protocol: Protocol, n: Node<Peer>)
    requires Newcomer(protocol.books, n)
    ensures n !in protocol.Nodes()
  {
  }

  /** One pass of the loop of `ch_rd_read`. */
  method TurnOnce(protocol: Protocol, conn: Connection, c: Chunk, handled: nat, ghost p: Pass, ghost base: seq<Event>)
    returns (handled': nat, returned: bool)
    requires Ready(p) && (p.handled == 0 || p.handled < c.Size()) && !p.returned && p.handled == handled
    requires Logged(protocol, base, p) && conn.Is(p) && conn.Unmet(protocol.books)
    modifies protocol, protocol.Nodes()`left, protocol.Nodes()`right, protocol.Nodes()`red, conn, conn.node
    ensures var q := Turn(conn.node, p, c);
            Logged(protocol, base, q) && conn.Is(q) && handled' == q.handled && returned == q.returned
    ensures protocol.Nodes() <= old(protocol.Nodes()) + {conn.node}
    ensures conn.Unmet(protocol.books)
  {
    hide ShutDown, Greet, Protocol.Valid, Newcomer, Short, Long;
    handled', returned := handled, false;
    match conn.state
    case Start =>
      conn.state := Handshake;
    case Handshake =>
      GreetPeer(protocol, conn, c, p, base);
      conn.state := Wait;
      handled' := HANDSHAKE_SIZE;
    case Wait =>
      if c.Size() + handled < MESSAGE_SIZE {
        ShutDownConnection(protocol, conn, p, base);
        returned := true;
      } else {
        var header, data := Short(c, handled + HEADER_LEN), Long(c, handled + DATA_LEN);
        conn.actorLen, conn.dataLen := Short(c, handled + ACTOR_LEN), data;
        conn.state := Next(header, conn.actorLen, data);
        handled' := handled + MESSAGE_SIZE;
      }
    case _ =>
  }

  /** The connections there are: none that may still register is in the trees, and no two share an address. */
  ghost predicate Settled(b: Books, known: set<Connection>)
    reads known
  {
    && (forall c :: c in known ==> c.Unmet(b))
    && (forall c, d :: c in known && d in known && c.node.addr == d.node.addr ==> c == d)
  }

  lemma StillNewcomer(b: Books, b': Books, m: Node<Peer>, n: Node<Peer>)
    requires Newcomer(b, n) && Kept(b') && m.addr != n.addr
    requires NodeSet(b'.live) + NodeSet(b'.replaced) <= NodeSet(b.live) + NodeSet(b.replaced) + {m}
    ensures Newcomer(b', n)
  {
    hide Valid, OnePerKey, NodeSet;
  }

  lemma ValidIsKept(protocol: Protocol)
    requires protocol.Valid()
    ensures Kept(protocol.books)
  {
  }

  /** What a call has come to, for the registry and the fields. */
  lemma Answered(protocol: Protocol, conn: Connection, p: Pass, c: Chunk, base: seq<Event>)
    requires p.handled == 0 && !p.returned && p.events == []
    requires protocol.Valid() && protocol.log == base + Finish(conn.node, p, c).events
    requires conn.Is(Finish(conn.node, p, c))
    ensures conn.shuttingDown == (p.shuttingDown || Refused(p.state, c))
    ensures protocol.log == base + (if Completes(p.state, c) then [Enter(Cell(conn.node, conn.node.key))] else [])
                            + (if Refused(p.state, c) then Withdrawal(conn.node, p.shuttingDown, conn.node.key) else [])
    ensures if Greets(p.state, c) && c.Size() >= 20 then IsKeyOf(conn.node.key, p.key, c) else conn.node.key == p.key
    ensures Refused(p.state, c) && !p.shuttingDown ==>
              !HasKey(PeerCmp, Elements(protocol.books.live), Entry(conn.node.key, conn.node.addr))
    ensures Completes(p.state, c) && !Refused(p.state, c) ==>
              Cell(conn.node, conn.node.key) in Elements(protocol.books.live)
  {
    hide Finish, IsKeyOf, HasKey, Elements, PeerCmp, Refused, Completes, After, Admissible, Kept;
    var q := Finish(conn.node, p, c);
    CallAnswers(n := conn.node, p := p, c := c);
    var me := Cell(conn.node, q.key);
    var first := if Completes(p.state, c) then [Enter(me)] else [];
    if Refused(p.state, c) && !p.shuttingDown {
      assert protocol.log == (base + first) + [Leave(me.AsEntry())];
      LeftLast(base + first, me.AsEntry());
    }
    if Completes(p.state, c) && !Refused(p.state, c) {
      assert protocol.log == base + [Enter(me)];
      EnteredLast(base, me);
    }
  }

  /** `ch_rd_read`, up to the point where it returns or cannot get past a body. Whatever other
      connections have been and will be read from, in whatever order: this one registers at most once. */
  method Read(protocol: Protocol, conn: Connection, c: Chunk, ghost known: set<Connection>)
    returns (spins: bool, ghost q: Pass)
    requires protocol.Valid() && conn in known && Settled(protocol.books, known)
    modifies protocol, protocol.Nodes()`left, protocol.Nodes()`right, protocol.Nodes()`red, conn, conn.node
    ensures q == Finish(conn.node, Pass(old(conn.node.key), old(conn.state), old(conn.actorLen), old(conn.dataLen),
                                        old(conn.shuttingDown), 0, [], false), c)
    ensures protocol.Valid() && protocol.log == old(protocol.log) + q.events && conn.Is(q)
    ensures conn.shuttingDown == (old(conn.shuttingDown) || Refused(old(conn.state), c))
    ensures protocol.log == old(protocol.log)
                            + (if Completes(old(conn.state), c) then [Enter(Cell(conn.node, conn.node.key))] else [])
                            + (if Refused(old(conn.state), c)
                               then Withdrawal(conn.node, old(conn.shuttingDown), conn.node.key) else [])
    ensures if Greets(old(conn.state), c) && c.Size() >= 20 then IsKeyOf(conn.node.key, old(conn.node.key), c)
            else conn.node.key == old(conn.node.key)
    ensures Refused(old(conn.state), c) && !old(conn.shuttingDown) ==>
              !HasKey(PeerCmp, Elements(protocol.books.live), Entry(conn.node.key, conn.node.addr))
    ensures Completes(old(conn.state), c) && !Refused(old(conn.state), c) ==>
              Cell(conn.node, conn.node.key) in Elements(protocol.books.live)
    ensures Settled(protocol.books, known)
    ensures spins <==> Spins(old(conn.state), c)
    ensures protocol.Nodes() <= old(protocol.Nodes()) + {conn.node}
  {
    hide Turn, Protocol.Valid, Newcomer;
    var handled, returned, again := 0, false, true;
    ghost var base, before := protocol.log, protocol.books;
    q := Pass(conn.node.key, conn.state, conn.actorLen, conn.dataLen, conn.shuttingDown, 0, [], false);
    ghost var p := q;
    while again
      invariant Logged(protocol, base, q) && conn.Is(q) && handled == q.handled && returned == q.returned
      invariant conn.Unmet(protocol.books) && protocol.Nodes() <= old(protocol.Nodes()) + {conn.node}
      invariant again ==> Ready(q) && (q.handled == 0 || q.handled < c.Size()) && !q.returned
      invariant Finish(conn.node, p, c) == if again then Finish(conn.node, q, c) else q
      invariant again || returned || handled >= c.Size() || q.state.InBody()
      decreases again, Rank(q.state), c.Size() - q.handled
    {
      var body := conn.state.InBody();
      TurnMoves(conn.node, q, c);
      handled, returned := TurnOnce(protocol, conn, c, handled, q, base);
      q := Turn(conn.node, q, c);
      again := !returned && handled < c.Size() && !body;
    }
    spins := !returned && handled < c.Size();
    CallSpins(conn.node, p, c);
    Answered(protocol, conn, p, c, base);
    ValidIsKept(protocol);
    forall d | d in known ensures d.Unmet(protocol.books) {
      if d != conn && (d.state.Start? || d.state.Handshake?) {
        StillNewcomer(before, protocol.books, conn.node, d.node);
      }
    }
  }
}
