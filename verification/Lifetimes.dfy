/** Connections from registration to release: what the registry still knows of one that has been freed, and
    what that does to the connections that come after it (reader.c, connection.c, protocol.c). */
module Lifetimes {
  import opened Nodes
  import opened Trees
  import opened Connections
  import opened Dictionary
  import opened Teardown
  import Receipts
  import Registry
  import Walks

  /** A connection registers, or something happens to it while it is known as `cell`. */
  datatype Act = Registers(cell: Cell<Peer>) | Does(cell: Cell<Peer>, what: Happening, down: bool)

  /** What has happened to the connection `n`. */
  ghost function Of(acts: seq<Act>, n: Node<Peer>): seq<(Happening, bool)> {
    if acts == [] then []
    else
      var last := acts[|acts| - 1];
      Of(acts[..|acts| - 1], n) + if last.Does? && last.cell.node == n then [(last.what, last.down)] else []
  }

  ghost function State(acts: seq<Act>, n: Node<Peer>): Conn {
    After(ACCEPTED, Of(acts, n))
  }

  /** What an act does to the registry: the first call for a shutdown deletes by key. */
  ghost function Effect(acts: seq<Act>, act: Act): seq<Registry.Event> {
    match act
    case Registers(c) => [Registry.Enter(c)]
    case Does(c, h, _) =>
      if h.Shutdown? && !State(acts, c.node).shuttingDown then [Registry.Leave(c.AsEntry())] else []
  }

  ghost function Log(acts: seq<Act>): seq<Registry.Event> {
    if acts == [] then [] else Log(acts[..|acts| - 1]) + Effect(acts[..|acts| - 1], acts[|acts| - 1])
  }

  ghost function Books(acts: seq<Act>): Registry.Books {
    Registry.After(Log(acts))
  }

  /** The connections that have registered, and those of them that have not been deleted since. */
  ghost function Met(acts: seq<Act>): set<Cell<Peer>> {
    Registry.Entrants(Log(acts))
  }

  ghost function Listed(acts: seq<Act>): set<Cell<Peer>> {
    Registry.AllCurrent(Log(acts)) + Registry.AllDisplaced(Log(acts))
  }

  /** What the allocator promises for memory it hands out: nothing that is not freed is there. */
  ghost predicate Unused(acts: seq<Act>, n: Node<Peer>) {
    forall x :: x in Listed(acts) && State(acts, x.node).freed == 0 ==> x.node.addr != n.addr
  }

  /** The reader registers a connection once and not after it has been freed, and the allocator gave it memory
      of its own; from then on it goes by its key; libuv keeps its guarantees. */
  ghost predicate Allowed(acts: seq<Act>, act: Act) {
    match act
    case Registers(c) =>
      State(acts, c.node).freed == 0 && Unused(acts, c.node) && forall x :: x in Met(acts) ==> x.node != c.node
    case Does(c, h, _) =>
      Possible(State(acts, c.node), h) && forall x :: x in Met(acts) && x.node == c.node ==> x == c
  }

  ghost predicate Legal(acts: seq<Act>) {
    acts != [] ==> Legal(acts[..|acts| - 1]) && Allowed(acts[..|acts| - 1], acts[|acts| - 1])
  }

  // ---------- one more act ----------

  lemma OneMoreAct(acts: seq<Act>, act: Act, n: Node<Peer>)
    ensures (acts + [act])[..|acts|] == acts && Log(acts + [act]) == Log(acts) + Effect(acts, act)
    ensures State(acts + [act], n) == if act.Does? && act.cell.node == n
                                      then Happens(State(acts, n), act.what, act.down).0 else State(acts, n)
    ensures Legal(acts + [act]) <==> Legal(acts) && Allowed(acts, act)
  {
    hide Happens, Effect, Allowed;
    var all := acts + [act];
    assert all[..|acts|] == acts && all[|acts|] == act;
    if act.Does? && act.cell.node == n {
      var hs, h := Of(acts, n), (act.what, act.down);
      assert (hs + [h])[..|hs|] == hs;
    } else {
      assert Of(acts, n) + [] == Of(acts, n);
    }
  }

  lemma MetOneMore(acts: seq<Act>, act: Act)
    ensures Met(acts + [act]) == Met(acts) + if act.Registers? then {act.cell} else {}
  {
    hide Log, State;
    OneMoreAct(acts, act, act.cell.node);
    EntrantsMore(Log(acts), Effect(acts, act));
  }

  lemma EntrantsMore(evs: seq<Registry.Event>, more: seq<Registry.Event>)
    requires |more| <= 1
    ensures Registry.Entrants(evs + more) ==
            Registry.Entrants(evs) + if more != [] && more[0].Enter? then {more[0].cell} else {}
  {
    var all := evs + more;
    assert forall i :: 0 <= i < |evs| ==> all[i] == evs[i];
    if more != [] && more[0].Enter? {
      assert all[|evs|].Enter? && all[|evs|].cell == more[0].cell;
    }
    forall c | c in Registry.Entrants(evs) ensures c in Registry.Entrants(all) {
      var i :| 0 <= i < |evs| && evs[i].Enter? && evs[i].cell == c;
      assert all[i].Enter? && all[i].cell == c;
    }
  }

  // ---------- when the registry stays intact ----------

  /** No freed connection that is still listed was at the address of `n`. */
  ghost predicate Clear(acts: seq<Act>, n: Node<Peer>) {
    forall x :: x in Listed(acts) && State(acts, x.node).freed == 1 ==> x.node.addr != n.addr
  }

  lemma NothingYet()
    ensures CanHappen(ACCEPTED, [])
  {
  }

  lemma {:induction false} OfCanHappen(acts: seq<Act>, n: Node<Peer>)
    requires Legal(acts)
    ensures CanHappen(ACCEPTED, Of(acts, n))
  {
    hide Happens, Possible, CanHappen, Registry.After, Log, Unused, Met;
    if acts == [] {
      NothingYet();
    } else {
      var before, last := acts[..|acts| - 1], acts[|acts| - 1];
      OfCanHappen(before, n);
      if last.Does? && last.cell.node == n {
        CanHappenMore(ACCEPTED, Of(before, n), (last.what, last.down));
      } else {
        assert Of(before, n) + [] == Of(before, n);
      }
    }
  }

  lemma CanHappenMore(c: Conn, hs: seq<(Happening, bool)>, h: (Happening, bool))
    requires CanHappen(c, hs) && Possible(After(c, hs), h.0)
    ensures CanHappen(c, hs + [h]) && After(c, hs + [h]) == Happens(After(c, hs), h.0, h.1).0
  {
    hide Happens, Possible;
    var all := hs + [h];
    assert all[..|hs|] == hs;
    forall i | 0 <= i < |all| ensures Possible(After(c, all[..i]), all[i].0) {
      assert i < |hs| ==> all[..i] == hs[..i];
    }
  }

  lemma FreedOnce(acts: seq<Act>, n: Node<Peer>)
    requires Legal(acts)
    ensures State(acts, n).freed == 0 || (State(acts, n).freed == 1 && State(acts, n).shuttingDown)
  {
    hide After, CanHappen, Legal;
    OfCanHappen(acts, n);
    RunSound(ACCEPTED, Of(acts, n));
    TimerKept(ACCEPTED, Of(acts, n));
  }

  /** A connection to whose memory the allocator has a right may register without harm exactly if no
      freed connection that is still listed was there. */
  lemma HarmlessWhenClear(acts: seq<Act>, n: Node<Peer>)
    requires Legal(acts) && Registry.Admissible(Log(acts)) && Unused(acts, n)
    ensures Registry.Newcomer(Books(acts), n) <==> Clear(acts, n)
  {
    hide State, Legal, Log, Registry.After, Registry.Newcomer, Registry.Admissible;
    hide Registry.AllCurrent, Registry.AllDisplaced;
    Registry.WhoMayRegister(Log(acts), n);
    forall x | x in Listed(acts)
      ensures State(acts, x.node).freed == 0 || State(acts, x.node).freed == 1
    {
      FreedOnce(acts, x.node);
    }
  }

  /** Whoever registers comes to memory where no freed connection is still listed. */
  ghost predicate NeverRecycled(acts: seq<Act>) {
    forall i :: 0 <= i < |acts| && acts[i].Registers? ==> Clear(acts[..i], acts[i].cell.node)
  }

  lemma NeverRecycledMore(acts: seq<Act>, act: Act)
    ensures NeverRecycled(acts + [act]) <==> NeverRecycled(acts) && (act.Registers? ==> Clear(acts, act.cell.node))
  {
    hide Clear;
    var all := acts + [act];
    assert all[..|acts|] == acts && all[|acts|] == act;
    assert forall i :: 0 <= i < |acts| ==> all[i] == acts[i] && all[..i] == acts[..i];
    if NeverRecycled(all) {
      forall i | 0 <= i < |acts| && acts[i].Registers? ensures Clear(acts[..i], acts[i].cell.node) {
        assert all[i].Registers? && Clear(all[..i], all[i].cell.node);
      }
      assert act.Registers? ==> Clear(all[..|acts|], all[|acts|].cell.node);
    }
  }

  /** In a run of the program the registry stays intact, at every step, exactly if no connection ever registers
      at the address of a freed one that is still listed. */
  lemma {:induction false} IntactExactly(acts: seq<Act>)
    requires Legal(acts)
    ensures Registry.Admissible(Log(acts)) <==> NeverRecycled(acts)
  {
    hide State, Registry.Newcomer, Registry.Admissible, NeverRecycled, Unused, Clear, Met, Registry.After, Possible;
    if acts == [] {
      NoActs();
    } else {
      var before, last := acts[..|acts| - 1], acts[|acts| - 1];
      assert acts == before + [last];
      IntactExactly(before);
      NeverRecycledMore(before, last);
      IntactStep(before, last);
    }
  }

  lemma NoActs()
    ensures Registry.Admissible(Log([])) && NeverRecycled([])
  {
  }

  lemma IntactStep(acts: seq<Act>, act: Act)
    requires Legal(acts) && Allowed(acts, act)
    ensures Registry.Admissible(Log(acts + [act])) <==>
            Registry.Admissible(Log(acts)) && (act.Registers? ==> Clear(acts, act.cell.node))
  {
    hide State, Legal, Log, Registry.Newcomer, Unused, Clear, Met, Registry.After, Registry.Admissible, Possible;
    OneMoreAct(acts, act, act.cell.node);
    var evs, more := Log(acts), Effect(acts, act);
    if more == [] {
      assert evs + [] == evs;
    } else {
      var all := evs + more;
      assert more == [more[0]] && all[..|evs|] == evs && all[|evs|] == more[0];
      if Registry.Admissible(all) {
        Registry.AdmissibleBefore(all, |evs|);
      }
      if Registry.Admissible(evs) {
        if act.Registers? {
          HarmlessWhenClear(acts, act.cell.node);
        }
        if act.Registers? ==> Clear(acts, act.cell.node) {
          Registry.AdmissibleMore(evs, more[0]);
        }
      }
    }
  }

  // ---------- freed, but listed ----------

  /** The trees hold the nodes of the listed connections, and the walk over the replaced ones, which closing
      shuts down, comes to those that were displaced. */
  lemma ListedNodes(acts: seq<Act>, n: Node<Peer>)
    requires Registry.Admissible(Log(acts))
    ensures n in NodeSet(Books(acts).live) + NodeSet(Books(acts).replaced) <==>
            exists x :: x in Listed(acts) && x.node == n
    ensures n in Visited(Books(acts).replaced) <==> exists x :: x in Registry.AllDisplaced(Log(acts)) && x.node == n
  {
    hide Log, Registry.After, Registry.Admissible, Registry.AllCurrent, Registry.AllDisplaced, Registry.Kept;
    hide Visited, NodeSet, Elements;
    var b := Books(acts);
    Registry.LatestHolds(Log(acts));
    Registry.ValidIsDistinct(b);
    VisitedNodes(b.replaced);
    Registry.ElementNodes(b.live);
    Registry.ElementNodes(b.replaced);
    if n in NodeSet(b.live) {
      var x := Registry.Whose(b.live, n);
    }
    if n in NodeSet(b.replaced) {
      var x := Registry.Whose(b.replaced, n);
    }
  }

  /** The nodes the iterator yields in its default order. */
  ghost function Visited(t: Tree<Peer>): seq<Node<Peer>> {
    Receipts.NodeSeq(Walks.Walk(2, Walks.Everything, t))
  }

  lemma VisitedNodes(t: Tree<Peer>)
    requires Distinct(t)
    ensures forall n :: n in Visited(t) <==> n in NodeSet(t)
  {
    Receipts.EachOnce(2, t);
    assert (set n | n in Visited(t)) == NodeSet(t);
  }

  /** A connection registers under one key only. */
  lemma {:induction false} OneKey(acts: seq<Act>, x: Cell<Peer>, y: Cell<Peer>)
    requires Legal(acts) && x in Met(acts) && y in Met(acts) && x.node == y.node
    ensures x == y
  {
    hide State, Registry.Entrants, Log, Possible, Unused;
    NobodyMet();
    var before, last := acts[..|acts| - 1], acts[|acts| - 1];
    assert acts == before + [last];
    MetOneMore(before, last);
    if x in Met(before) && y in Met(before) {
      OneKey(before, x, y);
    }
  }

  lemma NobodyMet()
    ensures Met([]) == {}
  {
  }

  /** The handshake arrived after a shutdown had been called for. */
  ghost predicate Late(acts: seq<Act>, c: Cell<Peer>) {
    exists i :: 0 <= i < |acts| && acts[i] == Registers(c) && State(acts[..i], c.node).shuttingDown
  }

  lemma LateMore(acts: seq<Act>, act: Act, c: Cell<Peer>)
    ensures Late(acts + [act], c) <==> Late(acts, c) || (act == Registers(c) && State(acts, c.node).shuttingDown)
  {
    hide State;
    var all := acts + [act];
    assert all[..|acts|] == acts && all[|acts|] == act;
    if Late(acts, c) {
      var i :| 0 <= i < |acts| && acts[i] == Registers(c) && State(acts[..i], c.node).shuttingDown;
      assert all[i] == Registers(c) && all[..i] == acts[..i];
    }
    if act == Registers(c) && State(acts, c.node).shuttingDown {
      assert all[|acts|] == Registers(c) && State(all[..|acts|], c.node).shuttingDown;
    }
    if Late(all, c) {
      var i :| 0 <= i < |all| && all[i] == Registers(c) && State(all[..i], c.node).shuttingDown;
      if i < |acts| {
        assert acts[i] == Registers(c) && all[..i] == acts[..i];
      }
    }
  }

  /** The registry has been told of the shutdown of a connection that registered before it, and the connection
      has not registered after that. */
  lemma {:induction false} LeaveLogged(acts: seq<Act>, c: Cell<Peer>) returns (k: nat)
    requires Legal(acts) && c in Met(acts) && !Late(acts, c) && State(acts, c.node).shuttingDown
    ensures k < |Log(acts)| && Log(acts)[k] == Registry.Leave(c.AsEntry())
    ensures forall i :: k < i < |Log(acts)| ==> Log(acts)[i] != Registry.Enter(c)
  {
    hide Happens, State, Log, Legal, Late, Registry.Entrants, Possible, Unused;
    NobodyMet();
    var before, last := acts[..|acts| - 1], acts[|acts| - 1];
    assert acts == before + [last];
    OneMoreAct(before, last, c.node);
    LateMore(before, last, c);
    MetOneMore(before, last);
    if last.Does? && last.cell.node == c.node && !last.what.Shutdown? {
      MarkStays(State(before, c.node), last.what, last.down);
    }
    if State(before, c.node).shuttingDown {
      k := LeaveLogged(before, c);
    } else {
      k := |Log(before)|;
    }
  }

  /** Only a shutdown marks a connection. */
  lemma MarkStays(c: Conn, h: Happening, down: bool)
    requires !h.Shutdown?
    ensures Happens(c, h, down).0.shuttingDown == c.shuttingDown
  {
    hide AfterShutdown;
    match h
    case Down => MarkKept(c.(pending := false), down);
    case Timeout => MarkKept(c.(armed := false), down);
    case Closed(handle) => MarkClosed(c, handle, down);
  }

  lemma MarkClosed(c: Conn, handle: Handle, down: bool)
    ensures Happens(c, Closed(handle), down).0.shuttingDown == c.shuttingDown
  {
  }

  lemma MarkKept(c: Conn, down: bool)
    ensures AfterShutdown(c, down).0.shuttingDown == c.shuttingDown
  {
  }

  /** A connection that has registered and been freed is still in one of the trees exactly if another one took its
      key while it was registered, or its handshake came late and nothing with its key has happened since. */
  lemma FreedButListed(acts: seq<Act>, c: Cell<Peer>)
    requires Legal(acts) && NeverRecycled(acts) && c in Met(acts) && State(acts, c.node).freed == 1
    ensures c.node in NodeSet(Books(acts).live) + NodeSet(Books(acts).replaced) <==>
            Registry.Displaced(Log(acts), c) || (Late(acts, c) && Registry.Current(Log(acts), c))
  {
    hide State, Legal, NeverRecycled, Late, Elements, NodeSet, Log;
    hide Registry.Displaced, Registry.Current, Registry.After, Registry.Admissible;
    var evs := Log(acts);
    FreedOnce(acts, c.node);
    IntactExactly(acts);
    ListedNodes(acts, c.node);
    ListedAsItself(acts, c);
    Registry.AllOfThem(evs, c);
    if !Late(acts, c) {
      var k := LeaveLogged(acts, c);
      Registry.GoneUnlessDisplaced(evs, k, c);
      Registry.LatestHolds(evs);
    }
  }

  lemma ListedAsItself(acts: seq<Act>, c: Cell<Peer>)
    requires Legal(acts) && c in Met(acts)
    ensures forall x :: x in Listed(acts) && x.node == c.node ==> x == c
  {
    hide Legal, Log, Registry.Current, Registry.Displaced, Registry.Entrants;
    forall x | x in Listed(acts) && x.node == c.node ensures x == c {
      OneKey(acts, x, c);
    }
  }

  /** With its handshake in time it is listed exactly if it was replaced. */
  lemma FreedInTime(acts: seq<Act>, c: Cell<Peer>)
    requires Legal(acts) && NeverRecycled(acts) && c in Met(acts) && State(acts, c.node).freed == 1 && !Late(acts, c)
    ensures c in Elements(Books(acts).live) + Elements(Books(acts).replaced) <==> Registry.Displaced(Log(acts), c)
  {
    hide State, Legal, NeverRecycled, Late, Elements, Registry.Displaced, Log, Registry.After, Registry.Admissible;
    FreedOnce(acts, c.node);
    IntactExactly(acts);
    var k := LeaveLogged(acts, c);
    Registry.GoneUnlessDisplaced(Log(acts), k, c);
  }

  /** Closing the instance walks the set of replaced connections and shuts each down: it comes to a connection,
      freed or not, exactly if that was replaced. */
  lemma ClosingReaches(acts: seq<Act>, c: Cell<Peer>)
    requires Legal(acts) && NeverRecycled(acts) && c in Met(acts)
    ensures c.node in Visited(Books(acts).replaced) <==> Registry.Displaced(Log(acts), c)
  {
    hide State, Legal, NeverRecycled, Log, Visited;
    hide Registry.Displaced, Registry.Current, Registry.After, Registry.Admissible;
    IntactExactly(acts);
    ListedNodes(acts, c.node);
    ListedAsItself(acts, c);
    Registry.AllOfThem(Log(acts), c);
  }

  // ---------- runs in which it goes wrong ----------

  lemma Begin(n: Node<Peer>)
    ensures Legal([]) && Log([]) == [] && Met([]) == {} && Listed([]) == {} && State([], n) == ACCEPTED
  {
  }

  /** One more registration. */
  lemma Joins(acts: seq<Act>, c: Cell<Peer>, n: Node<Peer>)
    requires Legal(acts) && Allowed(acts, Registers(c))
    ensures Legal(acts + [Registers(c)]) && Log(acts + [Registers(c)]) == Log(acts) + [Registry.Enter(c)]
    ensures Met(acts + [Registers(c)]) == Met(acts) + {c} && State(acts + [Registers(c)], n) == State(acts, n)
  {
    hide Legal, Log, State, Registry.Entrants, Allowed;
    OneMoreAct(acts, Registers(c), n);
    MetOneMore(acts, Registers(c));
  }

  /** One more thing that happens to `c`. */
  lemma Goes(acts: seq<Act>, c: Cell<Peer>, h: Happening, down: bool)
    requires Legal(acts) && Possible(State(acts, c.node), h)
    requires forall x :: x in Met(acts) && x.node == c.node ==> x == c
    ensures var acts', s := acts + [Does(c, h, down)], State(acts, c.node);
            && Legal(acts') && Met(acts') == Met(acts) && State(acts', c.node) == Happens(s, h, down).0
            && Log(acts') == Log(acts) + if h.Shutdown? && !s.shuttingDown then [Registry.Leave(c.AsEntry())] else []
  {
    hide Legal, Log, State, Registry.Entrants, Happens, Possible;
    OneMoreAct(acts, Does(c, h, down), c.node);
    MetOneMore(acts, Does(c, h, down));
  }

  /** After a granted shutdown: the three callbacks that lead to the free. */
  function Ending(c: Cell<Peer>): seq<Act> {
    [Does(c, Down, false), Does(c, Closed(Client), false), Does(c, Closed(Timer), false)]
  }

  const FREED := Conn(true, 0, false, false, true, true, false, false, 1)

  lemma Ends(acts: seq<Act>, c: Cell<Peer>)
    requires Legal(acts) && State(acts, c.node) == ACCEPTED.(shuttingDown := true, pending := true, armed := true)
    requires forall x :: x in Met(acts) && x.node == c.node ==> x == c
    ensures var acts' := acts + Ending(c);
            Legal(acts') && Log(acts') == Log(acts) && Met(acts') == Met(acts) && State(acts', c.node) == FREED
  {
    hide Legal, Log, State, Registry.Entrants;
    Goes(acts, c, Down, false);
    var a1 := acts + [Does(c, Down, false)];
    Goes(a1, c, Closed(Client), false);
    var a2 := a1 + [Does(c, Closed(Client), false)];
    Goes(a2, c, Closed(Timer), false);
    assert a2 + [Does(c, Closed(Timer), false)] == acts + Ending(c);
    assert forall l: seq<Registry.Event> :: l + [] == l;
  }

  /** The source's own case: `d` registers with the key of `c`, and the shutdown of `c` runs to its end. */
  function Replacement(c: Cell<Peer>, d: Cell<Peer>): seq<Act> {
    [Registers(c), Registers(d), Does(c, Shutdown(true, true), false)] + Ending(c)
  }

  lemma BothRegister(c: Cell<Peer>, d: Cell<Peer>)
    requires c.node.addr != d.node.addr
    ensures var acts := [Registers(c), Registers(d)];
            && Legal(acts) && Log(acts) == [Registry.Enter(c), Registry.Enter(d)] && Met(acts) == {c, d}
            && State(acts, c.node) == ACCEPTED
  {
    hide Legal, Log, State, Registry.Entrants;
    Begin(c.node);
    Begin(d.node);
    Joins([], c, c.node);
    Joins([], c, d.node);
    var one := [Registers(c)];
    assert [] + [Registers(c)] == one;
    assert Listed(one) <= Met(one);
    Joins(one, d, c.node);
    assert one + [Registers(d)] == [Registers(c), Registers(d)];
    assert [] + [Registry.Enter(c)] + [Registry.Enter(d)] == [Registry.Enter(c), Registry.Enter(d)];
  }

  lemma ReplacementFrees(c: Cell<Peer>, d: Cell<Peer>)
    requires c.node.addr != d.node.addr
    ensures var acts := Replacement(c, d);
            && Legal(acts) && Log(acts) == [Registry.Enter(c), Registry.Enter(d), Registry.Leave(c.AsEntry())]
            && Met(acts) == {c, d} && State(acts, c.node) == FREED
  {
    hide Legal, Log, State, Registry.Entrants;
    BothRegister(c, d);
    var two, three := [Registers(c), Registers(d)], [Registers(c), Registers(d), Does(c, Shutdown(true, true), false)];
    Goes(two, c, Shutdown(true, true), false);
    assert two + [Does(c, Shutdown(true, true), false)] == three;
    Ends(three, c);
  }

  /** There `c` has been freed, the set still holds it, the walk at closing time comes to it, and its shutdown
      is called for once more. */
  lemma FreedInTheSet(c: Cell<Peer>, d: Cell<Peer>, timer: bool)
    requires c.node.addr != d.node.addr && PeerCmp(d.AsEntry(), c.AsEntry()) == 0
    ensures var acts := Replacement(c, d);
            && Legal(acts) && State(acts, c.node).freed == 1 && Elements(Books(acts).replaced) == {c}
            && c.node in Visited(Books(acts).replaced) && Legal(acts + [Does(c, Shutdown(false, timer), true)])
  {
    hide Legal, Log, State, Registry.After, Visited, PeerCmp, Registry.Entrants, Registry.Admissible, NodeSet;
    ReplacementFrees(c, d);
    var acts := Replacement(c, d);
    Registry.ReplacedTakesTheNewOneAlong(c, d);
    Registry.DistinctAddresses(Log(acts));
    Registry.LatestHolds(Log(acts));
    Registry.ValidIsDistinct(Books(acts));
    VisitedNodes(Books(acts).replaced);
    Registry.ElementNodes(Books(acts).replaced);
    assert c in Elements(Books(acts).replaced);
    Goes(acts, c, Shutdown(false, timer), true);
  }

  /** The allocator may then hand the memory of `c` out again; whoever registers from there breaks the registry. */
  lemma RecycledMemory(c: Cell<Peer>, d: Cell<Peer>, e: Cell<Peer>)
    requires c.node.addr != d.node.addr && PeerCmp(d.AsEntry(), c.AsEntry()) == 0
    requires e.node.addr == c.node.addr && e.node != c.node
    ensures var acts := Replacement(c, d);
            && Legal(acts + [Registers(e)]) && !Registry.Newcomer(Books(acts), e.node)
            && !Registry.Kept(Books(acts + [Registers(e)]))
  {
    hide Legal, Log, State, Registry.After, Registry.Entrants, Registry.Kept, Visited, NodeSet, PeerCmp, Elements;
    var acts := Replacement(c, d);
    var b := Books(acts);
    ReplacementFrees(c, d);
    FreedInTheSet(c, d, true);
    Untouched(acts, e.node);
    assert Listed(acts) <= Met(acts);
    Joins(acts, e, e.node);
    Registry.DistinctAddresses(Log(acts));
    Registry.LatestHolds(Log(acts));
    Registry.ValidIsDistinct(b);
    VisitedNodes(b.replaced);
    Registry.AfterMore(Log(acts), Registry.Enter(e));
    Registry.RegistrationExact(b, e);
  }

  lemma {:induction false} Untouched(acts: seq<Act>, n: Node<Peer>)
    requires forall i :: 0 <= i < |acts| ==> acts[i].cell.node != n
    ensures State(acts, n) == ACCEPTED
  {
    if acts != [] {
      var before, last := acts[..|acts| - 1], acts[|acts| - 1];
      Untouched(before, n);
      OneMoreAct(before, last, n);
      assert before + [last] == acts;
    }
  }

  /** The other way to be listed: the handshake arrives after a shutdown has been called for, which deleted by
      the key of a connection that has none yet. */
  function LateHandshake(c: Cell<Peer>): seq<Act> {
    [Does(Cell(c.node, BLANK), Shutdown(true, true), false), Registers(c)] + Ending(c)
  }

  lemma LeaveThenEnter(c: Cell<Peer>, e: Entry<Peer>)
    ensures var evs := [Registry.Leave(e), Registry.Enter(c)];
            Registry.Admissible(evs) && c in Elements(Registry.After(evs).live)
  {
    hide PeerCmp;
    var first, evs := [Registry.Leave(e)], [Registry.Leave(e), Registry.Enter(c)];
    Registry.DistinctAddresses(evs);
    Registry.LatestHolds(evs);
    Registry.OneMore(first, Registry.Enter(c), c);
    assert first + [Registry.Enter(c)] == evs;
    Registry.AllOfThem(evs, c);
  }

  /** There `c` has been freed while the dictionary still holds it. */
  lemma FreedInTheDictionary(c: Cell<Peer>)
    ensures var acts := LateHandshake(c);
            Legal(acts) && State(acts, c.node).freed == 1 && c in Elements(Books(acts).live)
  {
    hide Legal, Log, State, Registry.After, Registry.Entrants, Elements;
    var blank := Cell(c.node, BLANK);
    var evs := [Registry.Leave(blank.AsEntry()), Registry.Enter(c)];
    LeaveThenEnter(c, blank.AsEntry());
    Begin(c.node);
    Goes([], blank, Shutdown(true, true), false);
    var one: seq<Act> := [Does(blank, Shutdown(true, true), false)];
    assert [] + one == one;
    assert Listed(one) <= Met(one);
    Joins(one, c, c.node);
    assert [] + [Registry.Leave(blank.AsEntry())] + [Registry.Enter(c)] == evs;
    Ends(one + [Registers(c)], c);
    assert one + [Registers(c)] + Ending(c) == LateHandshake(c);
  }
}
