/** Closing an instance: a semaphore counts the callbacks to wait for before it is torn down (chirp.c,
    protocol.c, connection.c). */
module Closing {
  import opened Teardown

  datatype Server = V4 | V6 | Async

  /** An instance as far as closing goes. `down` is the flag CH_CHIRP_CLOSING, `tasks` the semaphore; `called`
      says that the closing callback has been asked for, the `owed` fields which handles' close callbacks libuv
      still has to call, `watching` that the semaphore is looked at in every round of the loop, `leaving` that
      the prepare handle is being closed, and `gone` that the instance has been freed. */
  datatype Instance = Instance(
    down: bool, tasks: int, conns: seq<Conn>,
    called: bool, stopped: bool, owedV4: bool, owedV6: bool, owedAsync: bool,
    watching: bool, leaving: bool, gone: bool)

  const OPENED := Instance(false, 0, [], false, false, false, false, false, false, false, false)

  datatype Event =
    | Accept(ok: bool)
    | On(id: nat, what: Happening)
    | Close(sent: bool)
    | CloseAsync
    | ServerClosed(server: Server)
    | Check
    | Leave

  /** What libuv can do next, or a caller. New connections come until the servers are closed. */
  predicate Enabled(s: Instance, ev: Event) {
    && !s.gone
    && match ev
       case Accept(_) => !s.stopped
       case On(id, h) => id < |s.conns| && Possible(s.conns[id], h)
       case Close(_) => true
       case CloseAsync => s.called
       case ServerClosed(V4) => s.owedV4
       case ServerClosed(V6) => s.owedV6
       case ServerClosed(Async) => s.owedAsync
       case Check => s.watching
       case Leave => s.leaving
  }

  /** What the program does about it. */
  function Step(s: Instance, ev: Event): Instance {
    match ev
    case Accept(ok) => s.(conns := s.conns + [if ok then ACCEPTED else REFUSED])
    case On(id, h) =>
      if id < |s.conns| then
        var r := Happens(s.conns[id], h, s.down);
        s.(conns := s.conns[id := r.0], tasks := s.tasks + r.1)
      else s
    case Close(sent) => if s.down then s else s.(down := true, called := sent)
    case CloseAsync =>
      s.(called := false, stopped := true, owedV4 := true, owedV6 := true, owedAsync := true,
         tasks := s.tasks + 3, watching := true)
    case ServerClosed(V4) => s.(owedV4 := false, tasks := s.tasks - 1)
    case ServerClosed(V6) => s.(owedV6 := false, tasks := s.tasks - 1)
    case ServerClosed(Async) => s.(owedAsync := false, tasks := s.tasks - 1)
    case Check => if s.tasks < 1 then s.(watching := false, leaving := true) else s
    case Leave => s.(gone := true)
  }

  ghost function Run(evs: seq<Event>): Instance {
    if evs == [] then OPENED else Step(Run(evs[..|evs| - 1]), evs[|evs| - 1])
  }

  ghost predicate Legal(evs: seq<Event>) {
    forall i :: 0 <= i < |evs| ==> Enabled(Run(evs[..i]), evs[i])
  }

  // ---------- what is outstanding ----------

  ghost function Total(cs: seq<Conn>): nat {
    if cs == [] then 0 else Total(cs[..|cs| - 1]) + Owed(cs[|cs| - 1])
  }

  /** The shutdown and close callbacks still to come. */
  ghost function Outstanding(s: Instance): nat {
    Total(s.conns) + (if s.owedV4 then 1 else 0) + (if s.owedV6 then 1 else 0) + (if s.owedAsync then 1 else 0)
  }

  lemma TotalGrows(cs: seq<Conn>, c: Conn)
    ensures Total(cs + [c]) == Total(cs) + Owed(c)
  {
    assert (cs + [c])[..|cs|] == cs;
  }

  lemma {:induction false} TotalUpdate(cs: seq<Conn>, i: nat, c: Conn)
    requires i < |cs|
    ensures Total(cs[i := c]) == Total(cs) - Owed(cs[i]) + Owed(c)
  {
    var n := |cs| - 1;
    if i < n {
      TotalUpdate(cs[..n], i, c);
      assert cs[i := c][..n] == cs[..n][i := c];
    } else {
      assert cs[i := c][..n] == cs[..n];
    }
  }

  lemma {:induction false} TotalZero(cs: seq<Conn>)
    ensures Total(cs) == 0 <==> forall i :: 0 <= i < |cs| ==> Owed(cs[i]) == 0
  {
    if cs != [] {
      var n := |cs| - 1;
      TotalZero(cs[..n]);
      assert forall i :: 0 <= i < n ==> cs[..n][i] == cs[i];
    }
  }

  // ---------- how far the semaphore is off ----------

  /** How much one event takes off the semaphore too much: all that is outstanding when closing begins was never
      counted, a timeout while closing takes off two, and a connection that could not be accepted is not counted. */
  ghost function Slip(s: Instance, ev: Event): nat {
    match ev
    case Close(_) => if s.down then 0 else Outstanding(s)
    case On(_, h) => if s.down && h.Timeout? then 2 else 0
    case Accept(ok) => if s.down && !ok then 1 else 0
    case _ => 0
  }

  ghost function Drift(evs: seq<Event>): nat {
    if evs == [] then 0
    else Drift(evs[..|evs| - 1]) + Slip(Run(evs[..|evs| - 1]), evs[|evs| - 1])
  }

  /** What every run keeps, `drift` being what has slipped so far. */
  ghost predicate Balanced(s: Instance, drift: nat) {
    && (forall i :: 0 <= i < |s.conns| ==> Sound(s.conns[i]))
    && (s.called || s.stopped ==> s.down) && (s.called ==> !s.stopped)
    && (s.owedV4 || s.owedV6 || s.owedAsync || s.leaving ==> s.stopped)
    && (s.watching <==> s.stopped && !s.leaving) && (s.gone ==> s.leaving)
    && s.tasks == (if s.down then Outstanding(s) - drift else 0)
    && (!s.down ==> drift == 0)
  }

  lemma OnKeeps(s: Instance, id: nat, h: Happening, drift: nat)
    requires Balanced(s, drift) && Enabled(s, On(id, h))
    ensures Balanced(Step(s, On(id, h)), drift + Slip(s, On(id, h)))
  {
    hide Happens, Sound, Possible, Owed, Work, Closes;
    var r := Happens(s.conns[id], h, s.down);
    StepAccounted(s.conns[id], h, s.down);
    TotalUpdate(s.conns, id, r.0);
  }

  lemma AcceptKeeps(s: Instance, ok: bool, drift: nat)
    requires Balanced(s, drift) && Enabled(s, Accept(ok))
    ensures Balanced(Step(s, Accept(ok)), drift + Slip(s, Accept(ok)))
  {
    TotalGrows(s.conns, if ok then ACCEPTED else REFUSED);
  }

  lemma StepKeeps(s: Instance, ev: Event, drift: nat)
    requires Balanced(s, drift) && Enabled(s, ev)
    ensures Balanced(Step(s, ev), drift + Slip(s, ev))
  {
    hide Enabled, Step, Slip, Balanced;
    match ev
    case On(id, h) => OnKeeps(s, id, h, drift);
    case Accept(ok) => AcceptKeeps(s, ok, drift);
    case ServerClosed(server) => ServerClosedKeeps(s, server, drift);
    case CloseAsync => CloseAsyncKeeps(s, drift);
    case _ => OtherKeeps(s, ev, drift);
  }

  lemma ServerClosedKeeps(s: Instance, server: Server, drift: nat)
    requires Balanced(s, drift) && Enabled(s, ServerClosed(server))
    ensures Balanced(Step(s, ServerClosed(server)), drift + Slip(s, ServerClosed(server)))
  {
    hide Sound, Total;
  }

  lemma CloseAsyncKeeps(s: Instance, drift: nat)
    requires Balanced(s, drift) && Enabled(s, CloseAsync)
    ensures Balanced(Step(s, CloseAsync), drift + Slip(s, CloseAsync))
  {
    hide Sound, Total;
  }

  lemma OtherKeeps(s: Instance, ev: Event, drift: nat)
    requires Balanced(s, drift) && Enabled(s, ev) && (ev.Close? || ev.Check? || ev.Leave?)
    ensures Balanced(Step(s, ev), drift + Slip(s, ev))
  {
    hide Sound, Total;
  }

  lemma LegalBefore(evs: seq<Event>, n: nat)
    requires Legal(evs) && n <= |evs|
    ensures Legal(evs[..n]) && (n < |evs| ==> Enabled(Run(evs[..n]), evs[n]))
  {
    forall i | 0 <= i < n ensures Enabled(Run(evs[..n][..i]), evs[..n][i]) {
      assert evs[..n][..i] == evs[..i];
    }
  }

  /** In every run the semaphore is what is outstanding, less what has slipped. */
  lemma {:induction false} SemaphoreLaw(evs: seq<Event>)
    requires Legal(evs)
    ensures Balanced(Run(evs), Drift(evs))
  {
    if evs != [] {
      var n := |evs| - 1;
      LegalBefore(evs, n);
      SemaphoreLaw(evs[..n]);
      StepKeeps(Run(evs[..n]), evs[n], Drift(evs[..n]));
    }
  }

  // ---------- when the instance is torn down ----------

  /** Looking at the semaphore starts the teardown exactly when no more is outstanding than has slipped. */
  lemma TornDownWhen(evs: seq<Event>)
    requires Legal(evs + [Check]) && !Run(evs).leaving
    ensures Run(evs + [Check]).leaving <==> Outstanding(Run(evs)) <= Drift(evs)
  {
    assert (evs + [Check])[..|evs|] == evs;
    LegalBefore(evs + [Check], |evs|);
    SemaphoreLaw(evs);
  }

  /** Nothing slips: no callback is outstanding when closing begins, and after that no shutdown timer fires
      and no connection fails to be accepted. */
  ghost predicate Clean(evs: seq<Event>) {
    forall i :: 0 <= i < |evs| ==> Undisturbed(Run(evs[..i]), evs[i])
  }

  ghost predicate Undisturbed(s: Instance, ev: Event) {
    if s.down then !(ev.On? && ev.what.Timeout?) && ev != Accept(false)
    else ev.Close? ==> Outstanding(s) == 0
  }

  /** The semaphore is exact in the clean runs and in no others. */
  lemma {:induction false} CleanIsExact(evs: seq<Event>)
    requires Legal(evs)
    ensures Drift(evs) == 0 <==> Clean(evs)
    ensures Run(evs).down ==> (Run(evs).tasks == Outstanding(Run(evs)) <==> Clean(evs))
  {
    hide Legal, Run, Outstanding;
    SemaphoreLaw(evs);
    if evs != [] {
      var n := |evs| - 1;
      LegalBefore(evs, n);
      CleanIsExact(evs[..n]);
      forall i | 0 <= i < n ensures evs[..n][..i] == evs[..i] {
      }
      assert Clean(evs) <==> Clean(evs[..n]) && Undisturbed(Run(evs[..n]), evs[n]);
    }
  }

  /** In a clean run the instance is torn down only when no callback is left, of a connection or of a server. */
  lemma CleanTeardown(evs: seq<Event>)
    requires Legal(evs + [Check]) && Clean(evs) && !Run(evs).leaving && Run(evs + [Check]).leaving
    ensures var s := Run(evs);
            && (forall id, h: Happening :: !h.Shutdown? ==> !Enabled(s, On(id, h)))
            && (forall server :: !Enabled(s, ServerClosed(server)))
            && (forall i :: 0 <= i < |s.conns| ==> s.conns[i].tasks == 0)
  {
    hide Legal, Run, Outstanding, Balanced, Enabled;
    TornDownWhen(evs);
    LegalBefore(evs + [Check], |evs|);
    assert (evs + [Check])[..|evs|] == evs;
    CleanIsExact(evs);
    SemaphoreLaw(evs);
    NothingLeft(Run(evs));
  }

  lemma NothingLeft(s: Instance)
    requires Balanced(s, 0) && Outstanding(s) == 0
    ensures forall id, h: Happening :: !h.Shutdown? ==> !Enabled(s, On(id, h))
    ensures forall server :: !Enabled(s, ServerClosed(server))
    ensures forall i :: 0 <= i < |s.conns| ==> s.conns[i].tasks == 0
  {
    hide Possible, Sound, Owed;
    TotalZero(s.conns);
    forall i | 0 <= i < |s.conns|
      ensures s.conns[i].tasks == 0 && forall h: Happening :: !h.Shutdown? ==> !Possible(s.conns[i], h)
    {
      Idle(s.conns[i]);
    }
  }

  lemma Idle(c: Conn)
    requires Sound(c) && Owed(c) == 0
    ensures c.tasks == 0 && forall h: Happening :: !h.Shutdown? ==> !Possible(c, h)
  {
  }

  /** While something is outstanding, one of the callbacks it consists of can come next. */
  lemma NeverStuck(evs: seq<Event>)
    requires Legal(evs) && !Run(evs).gone && Outstanding(Run(evs)) > 0
    ensures exists ev :: Enabled(Run(evs), ev) && (ev.ServerClosed? || (ev.On? && !ev.what.Shutdown?))
  {
    hide Legal, Run;
    SemaphoreLaw(evs);
    var s := Run(evs);
    TotalZero(s.conns);
    if i :| 0 <= i < |s.conns| && Owed(s.conns[i]) > 0 {
      var c := s.conns[i];
      assert Sound(c);
      var h := if c.pending then Down else if c.owedClient then Closed(Client) else Closed(Timer);
      assert Enabled(s, On(i, h));
    } else if s.owedV4 {
      assert Enabled(s, ServerClosed(V4));
    } else if s.owedV6 {
      assert Enabled(s, ServerClosed(V6));
    } else {
      assert Enabled(s, ServerClosed(Async));
    }
  }

  // ---------- runs in which it goes wrong ----------

  lemma More(evs: seq<Event>, ev: Event)
    requires Legal(evs) && Enabled(Run(evs), ev)
    ensures Legal(evs + [ev]) && Run(evs + [ev]) == Step(Run(evs), ev)
  {
    var all := evs + [ev];
    assert all[..|evs|] == evs;
    forall i | 0 <= i < |evs| ensures Enabled(Run(all[..i]), all[i]) {
      assert all[..i] == evs[..i];
    }
  }

  /** The closing callback, and the close callbacks of the servers. */
  const SERVERS: seq<Event> := [CloseAsync, ServerClosed(V4), ServerClosed(V6), ServerClosed(Async)]

  lemma ServersClose(evs: seq<Event>)
    requires Legal(evs) && Run(evs).called && !Run(evs).gone
    ensures Legal(evs + SERVERS)
    ensures Run(evs + SERVERS) == Run(evs).(called := false, stopped := true, watching := true,
                                            owedV4 := false, owedV6 := false, owedAsync := false)
  {
    hide Legal, Run;
    More(evs, CloseAsync);
    var e1 := evs + [CloseAsync];
    More(e1, ServerClosed(V4));
    var e2 := e1 + [ServerClosed(V4)];
    More(e2, ServerClosed(V6));
    var e3 := e2 + [ServerClosed(V6)];
    More(e3, ServerClosed(Async));
    assert e3 + [ServerClosed(Async)] == evs + SERVERS;
  }

  /** What follows once closing has begun: those callbacks, a look at the semaphore, and the end. */
  const REST: seq<Event> := SERVERS + [Check, Leave]

  /** If the semaphore stood at zero or less when the closing callback is due, the instance is freed
      by `REST`, whatever is outstanding. */
  lemma RestFrees(evs: seq<Event>)
    requires Legal(evs) && Run(evs).called && !Run(evs).gone && Run(evs).tasks <= 0
    ensures Legal(evs + REST) && Run(evs + REST).gone && Run(evs + REST).conns == Run(evs).conns
  {
    hide Legal, Run;
    ServersClose(evs);
    var e4 := evs + SERVERS;
    More(e4, Check);
    var e5 := e4 + [Check];
    More(e5, Leave);
    assert e5 + [Leave] == evs + REST;
  }

  /** A connection that began to shut down before closing did: the instance is freed while its callback is to come. */
  lemma EarlyShutdownIsForgotten()
    ensures var evs := [Accept(true), On(0, Shutdown(true, true)), Close(true)] + REST;
            Legal(evs) && Run(evs).gone && |Run(evs).conns| == 1 && Possible(Run(evs).conns[0], Down)
  {
    hide Legal, Run;
    Opened();
    More([], Accept(true));
    var e1: seq<Event> := [] + [Accept(true)];
    assert Run(e1).conns == [ACCEPTED];
    MoreOn(e1, Shutdown(true, true), ACCEPTED);
    var e2 := e1 + [On(0, Shutdown(true, true))];
    More(e2, Close(true));
    var e3 := e2 + [Close(true)];
    RestFrees(e3);
    assert e3 + REST == [Accept(true), On(0, Shutdown(true, true)), Close(true)] + REST;
  }

  /** A connection that could not be accepted while closing, whose stream has been closed since, makes the
      instance forget the shutdown of another one, though that began after closing did and no timer fired. */
  lemma RefusedConnectionMakesForget()
    ensures var evs := [Accept(true), Close(true), Accept(false), On(1, Closed(Client)),
                        On(0, Shutdown(true, true))] + REST;
            Legal(evs) && Run(evs).gone && |Run(evs).conns| == 2 && Possible(Run(evs).conns[0], Down)
  {
    hide Legal, Run;
    Opened();
    More([], Accept(true));
    var e1: seq<Event> := [] + [Accept(true)];
    More(e1, Close(true));
    var e2 := e1 + [Close(true)];
    More(e2, Accept(false));
    var e3 := e2 + [Accept(false)];
    assert Run(e3).conns == [ACCEPTED, REFUSED];
    More(e3, On(1, Closed(Client)));
    var e4 := e3 + [On(1, Closed(Client))];
    assert Run(e4).conns[0] == ACCEPTED && Run(e4).tasks == -1;
    More(e4, On(0, Shutdown(true, true)));
    var e5 := e4 + [On(0, Shutdown(true, true))];
    RestFrees(e5);
    assert e5 + REST == [Accept(true), Close(true), Accept(false), On(1, Closed(Client)),
                         On(0, Shutdown(true, true))] + REST;
  }

  /** `More` for the only connection. */
  lemma MoreOn(evs: seq<Event>, h: Happening, c: Conn)
    requires Legal(evs) && !Run(evs).gone && Run(evs).conns == [c] && Possible(c, h)
    ensures var s, r := Run(evs), Happens(c, h, Run(evs).down);
            Legal(evs + [On(0, h)]) && Run(evs + [On(0, h)]) == s.(conns := [r.0], tasks := s.tasks + r.1)
  {
    hide Legal, Run, Happens, Possible;
    More(evs, On(0, h));
    var r := Happens(c, h, Run(evs).down);
    assert [c][0 := r.0] == [r.0];
  }

  lemma Opened()
    ensures Legal([]) && Run([]) == OPENED
  {
  }

  /** A connection in the middle of its teardown, its shutdown callback still to come. */
  const HALFWAY := Conn(true, 2, true, false, true, true, true, true, 0)

  const OUTCOME: seq<Event> := [On(0, Down), On(0, Closed(Client)), On(0, Closed(Timer))]

  lemma OutcomeFrees(evs: seq<Event>)
    requires Legal(evs) && Run(evs).conns == [HALFWAY] && Run(evs).down && !Run(evs).gone
    ensures var s := Run(evs + OUTCOME);
            && Legal(evs + OUTCOME) && |s.conns| == 1 && s.conns[0].freed == 1
            && s == Run(evs).(conns := s.conns, tasks := Run(evs).tasks - 3)
  {
    hide Legal, Run;
    MoreOn(evs, Down, HALFWAY);
    var e1, c1 := evs + [On(0, Down)], HALFWAY.(pending := false);
    MoreOn(e1, Closed(Client), c1);
    var e2, c2 := e1 + [On(0, Closed(Client))], c1.(owedClient := false, tasks := 1);
    MoreOn(e2, Closed(Timer), c2);
    assert e2 + [On(0, Closed(Timer))] == evs + OUTCOME;
  }

  /** A timer that fires while closing: when everything has arrived the semaphore stands at minus two. */
  lemma TimeoutTakesTwo()
    ensures var evs := [Accept(true), Close(true), On(0, Shutdown(true, true))] + SERVERS + [On(0, Timeout)] + OUTCOME;
            && Legal(evs) && Outstanding(Run(evs)) == 0 && Run(evs).tasks == -2
            && |Run(evs).conns| == 1 && Run(evs).conns[0].freed == 1
  {
    hide Legal, Run, Outstanding;
    Opened();
    More([], Accept(true));
    var e1: seq<Event> := [] + [Accept(true)];
    More(e1, Close(true));
    var e2 := e1 + [Close(true)];
    assert Run(e2).conns == [ACCEPTED];
    MoreOn(e2, Shutdown(true, true), ACCEPTED);
    var e3, c3 := e2 + [On(0, Shutdown(true, true))], ACCEPTED.(shuttingDown := true, pending := true, armed := true);
    ServersClose(e3);
    var e4 := e3 + SERVERS;
    MoreOn(e4, Timeout, c3);
    var e5 := e4 + [On(0, Timeout)];
    assert e3 == [Accept(true), Close(true), On(0, Shutdown(true, true))];
    OutcomeFrees(e5);
    AllFreed(Run(e5 + OUTCOME), e5 + OUTCOME);
  }

  /** The only connection being freed, nothing is outstanding but for the servers. */
  lemma AllFreed(s: Instance, evs: seq<Event>)
    requires Legal(evs) && s == Run(evs) && |s.conns| == 1 && s.conns[0].freed == 1
    requires !s.owedV4 && !s.owedV6 && !s.owedAsync
    ensures Outstanding(s) == 0
  {
    hide Legal, Run;
    SemaphoreLaw(evs);
    assert Sound(s.conns[0]);
    TotalZero(s.conns);
  }
}
