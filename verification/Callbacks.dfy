/** The calls and callbacks of the teardown as they update a connection and its instance (connection.c,
    chirp.c, protocol.c), against `Teardown.Happens` and `Closing.Step`, and the loop that makes them. */
module Callbacks {
  import opened Connections
  import opened Nodes
  import opened Teardown
  import opened Closing
  import Registry

  datatype Error = Success | InProgress | UvError | Fatal

  class Chirp {
    var down: bool
    var tasks: int
    var called: bool
    var stopped: bool
    var owedV4: bool
    var owedV6: bool
    var owedAsync: bool
    var watching: bool
    var leaving: bool
    var gone: bool

    /** This instance, with connections `cs`. */
    ghost function View(cs: seq<Conn>): Instance
      reads this
    {
      Instance(down, tasks, cs, called, stopped, owedV4, owedV6, owedAsync, watching, leaving, gone)
    }

    constructor ()
      ensures View([]) == OPENED
    {
      down, tasks, called, stopped := false, 0, false, false;
      owedV4, owedV6, owedAsync, watching, leaving, gone := false, false, false, false, false, false;
    }

    /** `ch_chirp_close_ts`. */
    method CloseSafely(sent: bool, ghost cs: seq<Conn>) returns (r: Error)
      modifies this
      ensures View(cs) == if old(gone) then old(View(cs)) else Step(old(View(cs)), Close(sent))
      ensures View(cs) == if old(gone) || old(down) then old(View(cs)) else old(View(cs)).(down := true, called := sent)
      ensures r == if old(gone) then Fatal else if old(down) then InProgress else if sent then Success else UvError
    {
      if gone {
        return Fatal;
      }
      if down {
        return InProgress;
      }
      down := true;
      called := sent;
      r := if sent then Success else UvError;
    }

    /** `_ch_chirp_close_async_cb` from the closing of the servers on. */
    method CloseServers(ghost cs: seq<Conn>)
      requires Enabled(View(cs), CloseAsync)
      modifies this
      ensures View(cs) == Step(old(View(cs)), CloseAsync)
      ensures tasks == old(tasks) + 3 && stopped && watching && owedV4 && owedV6 && owedAsync && !called
      ensures down == old(down) && leaving == old(leaving) && gone == old(gone)
    {
      hide Enabled;
      called := false;
      stopped := true;
      owedV4, owedV6 := true, true;
      tasks := tasks + 2;
      owedAsync := true;
      tasks := tasks + 1;
      watching := true;
    }

    /** `ch_chirp_close_cb`. */
    method ServerClosedCallback(server: Server, ghost cs: seq<Conn>)
      requires Enabled(View(cs), ServerClosed(server))
      modifies this
      ensures View(cs) == Step(old(View(cs)), ServerClosed(server))
      ensures tasks == old(tasks) - 1 && owedV4 == (old(owedV4) && !server.V4?)
      ensures owedV6 == (old(owedV6) && !server.V6?) && owedAsync == (old(owedAsync) && !server.Async?)
    {
      hide Enabled, Happens;
      match server {
        case V4 => owedV4 := false;
        case V6 => owedV6 := false;
        case Async => owedAsync := false;
      }
      tasks := tasks - 1;
    }

    /** `_ch_chirp_check_closing_cb`. */
    method CheckClosing(ghost cs: seq<Conn>)
      requires Enabled(View(cs), Check)
      modifies this
      ensures View(cs) == Step(old(View(cs)), Check)
      ensures View(cs) == if old(tasks) < 1 then old(View(cs)).(watching := false, leaving := true) else old(View(cs))
    {
      if tasks < 1 {
        watching := false;
        leaving := true;
      }
    }

    /** `_ch_chirp_closing_down_cb`. */
    method ClosingDown(ghost cs: seq<Conn>)
      requires Enabled(View(cs), Closing.Leave)
      modifies this
      ensures View(cs) == Step(old(View(cs)), Closing.Leave)
    {
      gone := true;
    }
  }

  class Connection {
    const chirp: Chirp
    const protocol: Registry.Protocol
    const node: Node<Peer>
    var shuttingDown: bool
    var tasks: int
    var pending: bool
    var armed: bool
    var closing: bool
    var timerClosing: bool
    var owedClient: bool
    var owedTimer: bool
    var freed: nat

    ghost function View(): Conn
      reads this
    {
      Conn(shuttingDown, tasks, pending, armed, closing, timerClosing, owedClient, owedTimer, freed)
    }

    /** `_ch_pr_new_connection_cb`, from `uv_accept` on. */
    constructor (chirp: Chirp, protocol: Registry.Protocol, node: Node<Peer>, ok: bool)
      ensures this.chirp == chirp && this.protocol == protocol && this.node == node
      ensures View() == if ok then ACCEPTED else REFUSED
    {
      this.chirp, this.protocol, this.node := chirp, protocol, node;
      shuttingDown, tasks, pending, armed, closing, timerClosing := false, 0, false, false, false, false;
      owedClient, owedTimer, freed := false, false, 0;
      if !ok {
        tasks := 1;
        closing, owedClient := true, true;
      }
    }

    /** `_ch_cn_shutdown_gen`: `granted` and `timer` say whether libuv takes the request and starts the timer. */
    method Shutdown(granted: bool, timer: bool) returns (r: Error)
      requires protocol.Valid()
      modifies this, chirp`tasks
      modifies protocol, protocol.Nodes()`left, protocol.Nodes()`right, protocol.Nodes()`red
      ensures View() == Happens(old(View()), Teardown.Shutdown(granted, timer), chirp.down).0
      ensures chirp.tasks == old(chirp.tasks) + Happens(old(View()), Teardown.Shutdown(granted, timer), chirp.down).1
      ensures protocol.Valid() && protocol.Nodes() <= old(protocol.Nodes())
      ensures protocol.log == old(protocol.log) +
                              if old(shuttingDown) then [] else [Registry.Leave(Entry(node.key, node.addr))]
      ensures View() == if old(shuttingDown) then old(View()) else if !granted then old(View()).(shuttingDown := true)
                        else old(View()).(shuttingDown := true, pending := true, armed := timer)
      ensures chirp.tasks == old(chirp.tasks) + if !old(shuttingDown) && granted && chirp.down then 1 else 0
      ensures r == if old(shuttingDown) then InProgress else if granted then Success else UvError
    {
      hide Registry.Protocol.Valid;
      if shuttingDown {
        return InProgress;
      }
      protocol.Withdraw(node);
      shuttingDown := true;
      if !granted {
        return UvError;
      }
      pending := true;
      if chirp.down {
        chirp.tasks := chirp.tasks + 1;
      }
      armed := timer;
      r := Success;
    }

    /** `_ch_cn_shutdown_gen_cb`. */
    method AfterShutdown()
      modifies this, chirp`tasks
      ensures View() == Teardown.AfterShutdown(old(View()), chirp.down).0
      ensures chirp.tasks == old(chirp.tasks) + Teardown.AfterShutdown(old(View()), chirp.down).1
      ensures closing && !armed && pending == old(pending) && shuttingDown == old(shuttingDown) && freed == old(freed)
      ensures old(closing) ==> tasks == old(tasks) && timerClosing == old(timerClosing)
      ensures old(closing) ==> owedClient == old(owedClient) && owedTimer == old(owedTimer)
      ensures !old(closing) ==> tasks == old(tasks) + 2 && timerClosing && owedClient && owedTimer
      ensures chirp.tasks == old(chirp.tasks) + if !chirp.down then 0 else if old(closing) then -1 else 1
    {
      armed := false;
      if closing {
        if chirp.down {
          chirp.tasks := chirp.tasks - 1;
        }
      } else {
        closing, owedClient := true, true;
        timerClosing, owedTimer := true, true;
        if chirp.down {
          chirp.tasks := chirp.tasks + 1;
        }
        tasks := tasks + 2;
      }
    }

    /** `_ch_cn_shutdown_cb`, called by libuv. */
    method ShutdownCallback()
      modifies this, chirp`tasks
      ensures View() == Happens(old(View()), Down, chirp.down).0
      ensures chirp.tasks == old(chirp.tasks) + Happens(old(View()), Down, chirp.down).1
    {
      pending := false;
      AfterShutdown();
    }

    /** `_ch_cn_shutdown_timeout_gen_cb`. Cancelling a shutdown request is not something libuv can do,
        so that the request stays pending. */
    method TimeoutCallback()
      modifies this, chirp`tasks
      ensures View() == Happens(old(View()), Timeout, chirp.down).0
      ensures chirp.tasks == old(chirp.tasks) + Happens(old(View()), Timeout, chirp.down).1
    {
      armed := false;
      if chirp.down {
        chirp.tasks := chirp.tasks - 1;
      }
      AfterShutdown();
    }

    /** `ch_cn_close_cb`. The assertion is the source's own. */
    method CloseCallback(handle: Handle)
      requires Sound(View()) && Possible(View(), Closed(handle))
      modifies this, chirp`tasks
      ensures View() == Happens(old(View()), Closed(handle), chirp.down).0
      ensures chirp.tasks == old(chirp.tasks) + Happens(old(View()), Closed(handle), chirp.down).1
    {
      match handle {
        case Client => owedClient := false;
        case Timer => owedTimer := false;
      }
      if chirp.down {
        chirp.tasks := chirp.tasks - 1;
      }
      tasks := tasks - 1;
      assert tasks > -1;
      if tasks < 1 {
        freed := freed + 1;
      }
    }
  }

  /** One of the calls and callbacks above. */
  method Make(c: Connection, h: Happening)
    requires Sound(c.View()) && Possible(c.View(), h) && c.protocol.Valid()
    modifies c, c.chirp`tasks
    modifies c.protocol, c.protocol.Nodes()`left, c.protocol.Nodes()`right, c.protocol.Nodes()`red
    ensures c.View() == Happens(old(c.View()), h, c.chirp.down).0
    ensures c.chirp.tasks == old(c.chirp.tasks) + Happens(old(c.View()), h, c.chirp.down).1
    ensures c.freed > old(c.freed) <==> h.Closed? && Closes(old(c.View())) == 1
    ensures c.protocol.Valid() && c.protocol.Nodes() <= old(c.protocol.Nodes())
    ensures c.protocol.log == old(c.protocol.log) + Told(old(c.View()), h, c.node)
  {
    hide Sound, Happens, Registry.Protocol.Valid, Closes;
    FreedByTheLast(c.View(), h, c.chirp.down);
    assert allocated(c.protocol.Nodes());
    match h
    case Shutdown(granted, timer) => var r := c.Shutdown(granted, timer);
    case Down => c.ShutdownCallback();
    case Timeout => c.TimeoutCallback();
    case Closed(handle) => c.CloseCallback(handle);
  }

  /** What the registry is told: the first call for a shutdown deletes by key. */
  ghost function Told(c: Conn, h: Happening, node: Node<Peer>): seq<Registry.Event>
    reads node
  {
    if h.Shutdown? && !c.shuttingDown then [Registry.Leave(Entry(node.key, node.addr))] else []
  }

  // ---------- the loop ----------

  ghost function Views(cs: seq<Connection>): (vs: seq<Conn>)
    reads cs
    ensures |vs| == |cs| && forall i :: 0 <= i < |cs| ==> vs[i] == cs[i].View()
  {
    if cs == [] then [] else Views(cs[..|cs| - 1]) + [cs[|cs| - 1].View()]
  }

  lemma ViewsMore(cs: seq<Connection>, c: Connection)
    ensures Views(cs + [c]) == Views(cs) + [c.View()]
  {
    assert (cs + [c])[..|cs|] == cs;
  }

  /** The event loop with one instance and all the connections it has accepted or tried to. */
  class Loop {
    const chirp: Chirp
    const protocol: Registry.Protocol
    var connections: seq<Connection>
    ghost var log: seq<Event>

    ghost function View(): Instance
      reads `connections, chirp, connections
    {
      chirp.View(Views(connections))
    }

    ghost predicate Apart()
      reads `connections
    {
      && (forall i, j :: 0 <= i < j < |connections| ==> connections[i] != connections[j])
      && (forall i :: 0 <= i < |connections| ==> connections[i].chirp == chirp && connections[i].protocol == protocol)
    }

    /** What has happened could happen, and the objects are in the state it leads to. */
    ghost predicate Valid()
      reads this, chirp, connections, protocol, protocol.Nodes()
    {
      Apart() && Legal(log) && View() == Run(log) && protocol.Valid()
    }

    /** The laws of the run, for the fields themselves. */
    ghost predicate Lawful()
      reads this, chirp, connections
    {
      && chirp.tasks == (if chirp.down then Outstanding(View()) - Drift(log) else 0)
      && forall i :: 0 <= i < |connections| ==>
                       connections[i].freed <= 1 && connections[i].tasks == Closes(connections[i].View())
    }

    constructor ()
      ensures Valid() && log == [] && connections == []
    {
      var c := new Chirp();
      var p := new Registry.Protocol();
      chirp, protocol, connections, log := c, p, [], [];
      new;
      Opened();
    }

    lemma AllSound()
      requires Valid()
      ensures forall i :: 0 <= i < |connections| ==> Sound(connections[i].View())
    {
      hide Legal, Run, Outstanding, Registry.Protocol.Valid, Sound;
      SemaphoreLaw(log);
      forall i | 0 <= i < |connections| ensures Sound(connections[i].View()) {
        assert Sound(Run(log).conns[i]);
      }
    }

    lemma Laws()
      requires Valid()
      ensures Lawful()
    {
      hide Legal, Run, Outstanding, Registry.Protocol.Valid;
      SemaphoreLaw(log);
      AllSound();
    }

    /** The objects have made the step; the log follows. */
    ghost method Record(ev: Event)
      requires Apart() && Legal(log) && Enabled(Run(log), ev) && View() == Step(Run(log), ev) && protocol.Valid()
      modifies `log
      ensures Valid() && Lawful() && log == old(log) + [ev]
    {
      hide Legal, Run, Enabled, Step, Outstanding, Registry.Protocol.Valid, Lawful, Apart;
      More(log, ev);
      assert allocated(protocol.Nodes());
      log := log + [ev];
      Laws();
    }

    /** A connection comes in; `ok` says whether it can be accepted. */
    method Accept(node: Node<Peer>, ok: bool)
      requires Valid() && Enabled(View(), Closing.Accept(ok))
      modifies `connections, `log
      ensures Valid() && Lawful() && log == old(log) + [Closing.Accept(ok)]
      ensures |connections| == |old(connections)| + 1 && connections[..|old(connections)|] == old(connections)
      ensures connections[|old(connections)|].node == node
    {
      hide Legal, Run, Enabled, Outstanding, Registry.Protocol.Valid, Lawful, Views;
      Admit(node, ok);
      Record(Closing.Accept(ok));
    }

    method Admit(node: Node<Peer>, ok: bool)
      requires Apart() && protocol.Valid()
      modifies `connections
      ensures Apart() && protocol.Valid()
      ensures View() == old(View()).(conns := old(Views(connections)) + [if ok then ACCEPTED else REFUSED])
      ensures |connections| == |old(connections)| + 1 && connections[..|old(connections)|] == old(connections)
      ensures connections[|old(connections)|].node == node
    {
      hide Registry.Protocol.Valid, Views;
      ghost var before := connections;
      assert allocated(protocol.Nodes()) && allocated(before);
      var c := new Connection(chirp, protocol, node, ok);
      ViewsMore(before, c);
      connections := connections + [c];
    }

    /** Something happens to the connection `id`: its shutdown is called for, or libuv calls it back. */
    method Deliver(id: nat, h: Happening)
      requires Valid() && Enabled(View(), On(id, h))
      modifies connections[id], chirp`tasks, `log
      modifies protocol, protocol.Nodes()`left, protocol.Nodes()`right, protocol.Nodes()`red
      ensures Valid() && Lawful() && log == old(log) + [On(id, h)]
      ensures connections[id].freed > old(connections[id].freed) <==>
                h.Closed? && Closes(old(connections[id].View())) == 1
      ensures protocol.log == old(protocol.log) + Told(old(connections[id].View()), h, connections[id].node)
      ensures protocol.Nodes() <= old(protocol.Nodes())
    {
      hide Legal, Run, Enabled, Outstanding, Registry.Protocol.Valid, Lawful, Happens, Sound, Possible, Step, Views,
           Closes;
      hide Told, Apart, Connection.View;
      AllSound();
      StepOn(Run(log), id, h);
      Apply(id, h);
      Record(On(id, h));
    }

    method Apply(id: nat, h: Happening)
      requires Apart() && protocol.Valid() && id < |connections|
      requires Sound(connections[id].View()) && Possible(connections[id].View(), h)
      modifies connections[id], chirp`tasks
      modifies protocol, protocol.Nodes()`left, protocol.Nodes()`right, protocol.Nodes()`red
      ensures protocol.Valid() && protocol.Nodes() <= old(protocol.Nodes())
      ensures protocol.log == old(protocol.log) + Told(old(connections[id].View()), h, connections[id].node)
      ensures connections[id].freed > old(connections[id].freed) <==>
                h.Closed? && Closes(old(connections[id].View())) == 1
      ensures var r := Happens(old(connections[id].View()), h, chirp.down);
              && connections[id].View() == r.0
              && View() == old(View()).(conns := old(Views(connections))[id := r.0], tasks := old(chirp.tasks) + r.1)
    {
      hide Registry.Protocol.Valid, Happens, Sound, Possible, Views, Told, Closes;
      ghost var vs := Views(connections);
      var c := connections[id];
      Make(c, h);
      OthersStay(c, vs, id);
    }

    /** Only the connection `id` has another view than it had. */
    lemma OthersStay(c: Connection, vs: seq<Conn>, id: nat)
      requires id < |connections| == |vs| && connections[id] == c
      requires forall i :: 0 <= i < |vs| && i != id ==> connections[i].View() == vs[i]
      ensures Views(connections) == vs[id := c.View()]
    {
      hide Connection.View, Views;
    }

    /** The handshake of the connection `id` completes: the registry enters it, and the laws are untouched. */
    method Register(id: nat, key: Peer) returns (previous: Node?<Peer>)
      requires Valid() && id < |connections| && Registry.Newcomer(protocol.books, connections[id].node)
      modifies connections[id].node, protocol, protocol.Nodes()`left, protocol.Nodes()`right, protocol.Nodes()`red
      ensures Valid() && Lawful() && log == old(log) && connections[id].node.key == key
      ensures protocol.log == old(protocol.log) + [Registry.Enter(Cell(connections[id].node, key))]
    {
      hide Legal, Run, Outstanding, Registry.Protocol.Valid, Registry.Newcomer, Lawful, Views;
      assert allocated(connections);
      previous := protocol.Register(connections[id].node, key);
      Laws();
    }

    /** `ch_chirp_close_ts`. */
    method CloseSafely(sent: bool) returns (r: Error)
      requires Valid()
      modifies chirp, `log
      ensures Valid() && Lawful()
      ensures log == old(log) + if old(chirp.gone) then [] else [Close(sent)]
      ensures View() == if old(chirp.gone) || old(chirp.down) then old(View())
                        else old(View()).(down := true, called := sent)
      ensures r == if old(chirp.gone) then Fatal else if old(chirp.down) then InProgress
                   else if sent then Success else UvError
    {
      hide Legal, Run, Outstanding, Registry.Protocol.Valid, Lawful, Views, Step, Apart;
      assert allocated(protocol.Nodes()) && allocated(connections);
      ghost var cs := Views(connections);
      r := chirp.CloseSafely(sent, cs);
      if r != Fatal {
        Record(Close(sent));
      } else {
        Laws();
      }
    }

    /** `_ch_chirp_close_async_cb`: `visits` says which connections the walks come to, and what libuv
        answers to their shutdown requests. */
    method CloseCallback(visits: seq<Visit>)
      requires Valid() && (!chirp.gone ==> Enabled(View(), CloseAsync))
      requires !chirp.gone ==> forall i :: 0 <= i < |visits| ==> Enabled(View(), visits[i].Event())
      modifies chirp, `log, connections
      modifies protocol, protocol.Nodes()`left, protocol.Nodes()`right, protocol.Nodes()`red
      ensures Valid() && Lawful()
      ensures log == old(log) + if old(chirp.gone) then [] else Visited(visits) + [CloseAsync]
    {
      hide Legal, Run, Enabled, Outstanding, Registry.Protocol.Valid, Lawful, Views, Step, Apart, Told;
      if chirp.gone {
        Laws();
        return;
      }
      var i := 0;
      while i < |visits|
        invariant 0 <= i <= |visits| && Valid() && log == old(log) + Visited(visits[..i])
        invariant connections == old(connections) && protocol.Nodes() <= old(protocol.Nodes())
        invariant Enabled(View(), CloseAsync) && forall j :: i <= j < |visits| ==> Enabled(View(), visits[j].Event())
      {
        ghost var s, before := View(), log;
        var v := visits[i];
        VisitKeeps(s, v, CloseAsync);
        forall j | i < j < |visits| ensures Enabled(Step(s, v.Event()), visits[j].Event()) {
          VisitKeeps(s, v, visits[j].Event());
        }
        OnIsThere(s, v);
        Deliver(v.id, Shutdown(v.granted, v.timer));
        More(before, v.Event());
        assert visits[..i + 1][..i] == visits[..i];
        i := i + 1;
      }
      assert visits[..i] == visits;
      CloseServers();
    }

    method CloseServers()
      requires Valid() && Enabled(View(), CloseAsync)
      modifies chirp, `log
      ensures Valid() && Lawful() && log == old(log) + [CloseAsync]
    {
      hide Legal, Run, Enabled, Outstanding, Registry.Protocol.Valid, Lawful, Views, Step, Apart;
      assert allocated(protocol.Nodes()) && allocated(connections);
      ghost var cs := Views(connections);
      chirp.CloseServers(cs);
      Record(CloseAsync);
    }

    /** `ch_chirp_close_cb`. */
    method ServerClosedCallback(server: Server)
      requires Valid() && Enabled(View(), ServerClosed(server))
      modifies chirp, `log
      ensures Valid() && Lawful() && log == old(log) + [ServerClosed(server)]
    {
      hide Legal, Run, Enabled, Outstanding, Registry.Protocol.Valid, Lawful, Views, Step, Apart;
      assert allocated(protocol.Nodes()) && allocated(connections);
      ghost var cs := Views(connections);
      chirp.ServerClosedCallback(server, cs);
      Record(ServerClosed(server));
    }

    /** `_ch_chirp_check_closing_cb`: the teardown starts exactly when no more is outstanding than has slipped. */
    method CheckClosing()
      requires Valid() && Enabled(View(), Check) && !chirp.leaving
      modifies chirp, `log
      ensures Valid() && Lawful() && log == old(log) + [Check]
      ensures chirp.leaving <==> Outstanding(old(View())) <= Drift(old(log))
    {
      hide Legal, Run, Enabled, Outstanding, Registry.Protocol.Valid, Lawful, Views, Step, Apart;
      assert allocated(protocol.Nodes()) && allocated(connections);
      ghost var cs := Views(connections);
      ghost var before := log;
      More(before, Check);
      chirp.CheckClosing(cs);
      Record(Check);
      TornDownWhen(before);
    }

    /** `_ch_chirp_closing_down_cb`. */
    method ClosingDown()
      requires Valid() && Enabled(View(), Closing.Leave)
      modifies chirp, `log
      ensures Valid() && Lawful() && log == old(log) + [Closing.Leave] && chirp.gone
    {
      hide Legal, Run, Enabled, Outstanding, Registry.Protocol.Valid, Lawful, Views, Apart;
      assert allocated(protocol.Nodes()) && allocated(connections);
      ghost var cs := Views(connections);
      chirp.ClosingDown(cs);
      Record(Closing.Leave);
    }
  }

  /** The closing walk comes to connection `id`. */
  datatype Visit = Visit(id: nat, granted: bool, timer: bool) {
    function Event(): Event { On(id, Shutdown(granted, timer)) }
  }

  ghost function Visited(visits: seq<Visit>): seq<Event> {
    if visits == [] then [] else Visited(visits[..|visits| - 1]) + [visits[|visits| - 1].Event()]
  }

  lemma OnIsThere(s: Instance, v: Visit)
    requires Enabled(s, v.Event())
    ensures v.id < |s.conns|
  {
  }

  /** A shutdown keeps closing and the other shutdowns possible. */
  lemma VisitKeeps(s: Instance, v: Visit, ev: Event)
    requires Enabled(s, v.Event()) && Enabled(s, ev)
    requires ev == CloseAsync || (ev.On? && ev.what.Shutdown?)
    ensures Enabled(Step(s, v.Event()), ev)
  {
  }

  lemma StepOn(s: Instance, id: nat, h: Happening)
    requires Enabled(s, On(id, h))
    ensures id < |s.conns| && Possible(s.conns[id], h)
    ensures var r := Happens(s.conns[id], h, s.down);
            Step(s, On(id, h)) == s.(conns := s.conns[id := r.0], tasks := s.tasks + r.1)
  {
    hide Happens, Possible;
  }

  lemma FreedByTheLast(c: Conn, h: Happening, down: bool)
    requires Sound(c) && Possible(c, h)
    ensures Happens(c, h, down).0.freed > c.freed <==> h.Closed? && Closes(c) == 1
  {
    hide Happens, Sound, Possible, Work, Owed;
    StepAccounted(c, h, down);
  }
}
