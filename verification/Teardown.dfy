/** How one connection is shut down, closed and freed, and what that does to the closing semaphore
    (connection.c). libuv is the environment: its guarantees are the predicates that say which
    callback can come next. */
module Teardown {

  datatype Handle = Client | Timer

  /** A connection as far as its teardown goes. The first two fields and the last are the program's;
      the others are what libuv keeps of the stream, the timer and the shutdown request. */
  datatype Conn = Conn(
    shuttingDown: bool, tasks: int,
    pending: bool, armed: bool, closing: bool, timerClosing: bool, owedClient: bool, owedTimer: bool,
    freed: nat)

  /** A connection that has been accepted, and one that could not be (protocol.c). */
  const ACCEPTED := Conn(false, 0, false, false, false, false, false, false, 0)
  const REFUSED := Conn(false, 1, false, false, true, false, true, false, 0)

  /** What happens to a connection. */
  datatype Happening =
    | Shutdown(granted: bool, timer: bool)
    | Down
    | Timeout
    | Closed(handle: Handle)

  /** libuv's guarantees: a request is granted only while the stream is open; each granted request has one
      callback, each `uv_close` has one, a pending request has its callback before the stream's; a timer
      that is armed and not closing may fire once. A shutdown may be called for at any time. */
  predicate Possible(c: Conn, h: Happening) {
    match h
    case Shutdown(granted, _) => granted ==> !c.closing
    case Down => c.pending
    case Timeout => c.armed && !c.timerClosing
    case Closed(Client) => c.owedClient && !c.pending
    case Closed(Timer) => c.owedTimer
  }

  /** `_ch_cn_shutdown_gen_cb`: what it does to the connection and to the closing semaphore. */
  function AfterShutdown(c: Conn, down: bool): (Conn, int) {
    var s := c.(armed := false);
    var unit := if down then 1 else 0;
    if c.closing then (s, -unit)
    else (s.(closing := true, timerClosing := true, owedClient := true, owedTimer := true, tasks := c.tasks + 2), unit)
  }

  /** One callback or call; `down` says whether the instance is closing. */
  function Happens(c: Conn, h: Happening, down: bool): (Conn, int) {
    var unit := if down then 1 else 0;
    match h
    case Shutdown(granted, timer) =>
      if c.shuttingDown then (c, 0)
      else if !granted then (c.(shuttingDown := true), 0)
      else (c.(shuttingDown := true, pending := true, armed := timer), unit)
    case Down => AfterShutdown(c.(pending := false), down)
    case Timeout =>
      var r := AfterShutdown(c.(armed := false), down);
      (r.0, r.1 - unit)
    case Closed(handle) =>
      var s := c.(tasks := c.tasks - 1);
      var t := if handle.Client? then s.(owedClient := false) else s.(owedTimer := false);
      (if t.tasks < 1 then t.(freed := t.freed + 1) else t, -unit)
  }

  /** The close callbacks still to come, and those together with the shutdown callback. */
  function Closes(c: Conn): nat { (if c.owedClient then 1 else 0) + (if c.owedTimer then 1 else 0) }

  function Owed(c: Conn): nat { (if c.pending then 1 else 0) + Closes(c) }

  /** What every step keeps. */
  predicate Sound(c: Conn) {
    && c.tasks == Closes(c)
    && c.freed == (if c.closing && Closes(c) == 0 then 1 else 0)
    && (c.owedClient || c.owedTimer || c.timerClosing ==> c.closing)
    && (c.timerClosing ==> c.shuttingDown) && (c.owedTimer ==> c.timerClosing)
    && (c.pending ==> c.shuttingDown && (c.closing ==> c.owedClient))
    && (c.armed ==> c.pending && !c.closing)
  }

  ghost function After(c: Conn, hs: seq<(Happening, bool)>): Conn {
    if hs == [] then c else Happens(After(c, hs[..|hs| - 1]), hs[|hs| - 1].0, hs[|hs| - 1].1).0
  }

  ghost predicate CanHappen(c: Conn, hs: seq<(Happening, bool)>) {
    forall i :: 0 <= i < |hs| ==> Possible(After(c, hs[..i]), hs[i].0)
  }

  /** How much closing work is left. */
  function Work(c: Conn): nat {
    if c.closing then Owed(c) else if c.pending then 3 + (if c.armed then 1 else 0) else 0
  }

  /** What one step does, for every kind of step: the invariant is kept; the connection is freed by the last
      close callback and by nothing else; a callback leaves less to do; and the closing semaphore moves with
      the callbacks owed, but for a timeout, which takes two off. */
  ghost predicate Accounted(c: Conn, h: Happening, down: bool) {
    var s, n := Happens(c, h, down).0, Happens(c, h, down).1;
    && Sound(s)
    && (s.freed > c.freed <==> h.Closed? && Closes(c) == 1)
    && (c.pending || c.closing ==> s.pending || s.closing)
    && (h.Shutdown? && (c.pending || c.closing) ==> Work(s) == Work(c)) && (!h.Shutdown? ==> Work(s) < Work(c))
    && n == if down then Owed(s) - Owed(c) - (if h.Timeout? then 2 else 0) else 0
  }

  lemma StepAccounted(c: Conn, h: Happening, down: bool)
    requires Sound(c) && Possible(c, h)
    ensures Accounted(c, h, down)
  {
    hide Accounted, Sound, Possible;
    match h
    case Shutdown(granted, timer) => ShutdownAccounted(c, granted, timer, down);
    case Down => DownAccounted(c, down);
    case Timeout => TimeoutAccounted(c, down);
    case Closed(handle) => ClosedAccounted(c, handle, down);
  }

  lemma ShutdownAccounted(c: Conn, granted: bool, timer: bool, down: bool)
    requires Sound(c) && Possible(c, Shutdown(granted, timer))
    ensures Accounted(c, Shutdown(granted, timer), down)
  {
  }

  lemma DownAccounted(c: Conn, down: bool)
    requires Sound(c) && Possible(c, Down)
    ensures Accounted(c, Down, down)
  {
  }

  lemma TimeoutAccounted(c: Conn, down: bool)
    requires Sound(c) && Possible(c, Timeout)
    ensures Accounted(c, Timeout, down)
  {
  }

  lemma ClosedAccounted(c: Conn, handle: Handle, down: bool)
    requires Sound(c) && Possible(c, Closed(handle))
    ensures Accounted(c, Closed(handle), down)
  {
  }

  lemma {:induction false} RunSound(c: Conn, hs: seq<(Happening, bool)>)
    requires Sound(c) && CanHappen(c, hs)
    ensures Sound(After(c, hs))
  {
    if hs != [] {
      var n := |hs| - 1;
      CanHappenBefore(c, hs, n);
      RunSound(c, hs[..n]);
      StepAccounted(After(c, hs[..n]), hs[n].0, hs[n].1);
    }
  }

  lemma CanHappenBefore(c: Conn, hs: seq<(Happening, bool)>, n: nat)
    requires CanHappen(c, hs) && n <= |hs|
    ensures CanHappen(c, hs[..n])
    ensures n < |hs| ==> Possible(After(c, hs[..n]), hs[n].0)
  {
    forall i | 0 <= i < n ensures Possible(After(c, hs[..n][..i]), hs[..n][i].0) {
      assert hs[..n][..i] == hs[..i];
    }
  }

  /** In every run the shutdown semaphore counts the close callbacks to come, the connection is freed at most
      once, namely by the last of them, and then no callback comes for it any more. */
  lemma FreedOnceAtTheEnd(c: Conn, hs: seq<(Happening, bool)>)
    requires c == ACCEPTED || c == REFUSED
    requires CanHappen(c, hs)
    ensures var s := After(c, hs);
            && s.tasks == Closes(s) && 0 <= s.tasks <= 2 && s.freed <= 1
            && (s.freed == 1 ==> forall h :: Possible(s, h) ==> h.Shutdown? && !h.granted)
    ensures |hs| > 0 ==>
              var before := After(c, hs[..|hs| - 1]);
              After(c, hs).freed > before.freed <==> hs[|hs| - 1].0.Closed? && Closes(before) == 1
  {
    hide After, Happens, CanHappen, Possible;
    assert Sound(c);
    RunSound(c, hs);
    if After(c, hs).freed == 1 {
      NoCallbackAfterFree(After(c, hs));
    }
    if |hs| > 0 {
      LastStep(c, hs);
    }
  }

  lemma NoCallbackAfterFree(c: Conn)
    requires Sound(c) && c.freed == 1
    ensures forall h :: Possible(c, h) ==> h.Shutdown? && !h.granted
  {
  }

  /** A shutdown called for after the free reads and writes memory given back. As long as that memory still
      holds the connection, an accepted one is left as it is, a refused one is marked as shutting down; nothing
      becomes owed, nothing is counted and nothing is freed again. */
  lemma ShutdownAfterFree(c: Conn, hs: seq<(Happening, bool)>, h: Happening, down: bool)
    requires c == ACCEPTED || c == REFUSED
    requires CanHappen(c, hs) && After(c, hs).freed == 1 && h.Shutdown? && Possible(After(c, hs), h)
    ensures var s := After(c, hs);
            Happens(s, h, down) == (if c == ACCEPTED then s else s.(shuttingDown := true), 0)
  {
    hide After, CanHappen;
    RunSound(c, hs);
    TimerKept(c, hs);
    NoCallbackAfterFree(After(c, hs));
  }

  /** The timer handle is initialized with the connection, but closed only with a stream that was accepted. */
  lemma {:induction false} TimerKept(c: Conn, hs: seq<(Happening, bool)>)
    requires (c == ACCEPTED || c == REFUSED) && CanHappen(c, hs)
    ensures var s := After(c, hs);
            if c == ACCEPTED then s.closing == s.timerClosing else s.closing && !s.timerClosing && !s.pending
  {
    if hs != [] {
      var n := |hs| - 1;
      CanHappenBefore(c, hs, n);
      TimerKept(c, hs[..n]);
      RunSound(c, hs[..n]);
      TimerStep(After(c, hs[..n]), hs[n].0, hs[n].1);
    }
  }

  lemma TimerStep(c: Conn, h: Happening, down: bool)
    requires Sound(c) && Possible(c, h)
    ensures var s := Happens(c, h, down).0;
            && (c.closing == c.timerClosing ==> s.closing == s.timerClosing)
            && (c.closing && !c.timerClosing && !c.pending ==> s.closing && !s.timerClosing && !s.pending)
  {
  }

  /** A connection that could not be accepted is freed with its timer handle still open; one that was
      accepted is not. */
  lemma FreedWithTimerClosed(c: Conn, hs: seq<(Happening, bool)>)
    requires (c == ACCEPTED || c == REFUSED) && CanHappen(c, hs) && After(c, hs).freed == 1
    ensures After(c, hs).timerClosing <==> c == ACCEPTED
  {
    hide After, CanHappen;
    RunSound(c, hs);
    TimerKept(c, hs);
  }

  lemma LastStep(c: Conn, hs: seq<(Happening, bool)>)
    requires Sound(c) && CanHappen(c, hs) && |hs| > 0
    ensures var before := After(c, hs[..|hs| - 1]);
            After(c, hs).freed > before.freed <==> hs[|hs| - 1].0.Closed? && Closes(before) == 1
  {
    hide Happens, CanHappen, Possible, Sound;
    var n := |hs| - 1;
    CanHappenBefore(c, hs, n);
    RunSound(c, hs[..n]);
    StepAccounted(After(c, hs[..n]), hs[n].0, hs[n].1);
  }

  /** A connection that is being closed and not yet freed has a callback to come. */
  lemma SomethingToCome(c: Conn)
    requires Sound(c) && (c.pending || c.closing)
    ensures c.freed == 0 <==> Possible(c, Down) || Possible(c, Closed(Client)) || Possible(c, Closed(Timer))
    ensures c.freed == 0 <==> Work(c) > 0
  {
  }

  /** In whatever order the callbacks arrive: when no more can come, the connection has been freed. */
  lemma FreedInTheEnd(c: Conn, hs: seq<(Happening, bool)>)
    requires Sound(c) && (c.pending || c.closing) && CanHappen(c, hs)
    requires forall h: Happening :: !h.Shutdown? ==> !Possible(After(c, hs), h)
    ensures After(c, hs).freed == 1
  {
    StillClosing(c, hs);
    RunSound(c, hs);
    SomethingToCome(After(c, hs));
  }

  lemma {:induction false} StillClosing(c: Conn, hs: seq<(Happening, bool)>)
    requires Sound(c) && (c.pending || c.closing) && CanHappen(c, hs)
    ensures After(c, hs).pending || After(c, hs).closing
  {
    if hs != [] {
      var n := |hs| - 1;
      CanHappenBefore(c, hs, n);
      StillClosing(c, hs[..n]);
      RunSound(c, hs[..n]);
    }
  }

  /** A connection whose shutdown request libuv refuses is never freed, whatever happens. */
  lemma {:induction false} RefusedShutdownLeaks(hs: seq<(Happening, bool)>)
    requires CanHappen(ACCEPTED, hs) && |hs| > 0 && hs[0].0.Shutdown? && !hs[0].0.granted
    ensures After(ACCEPTED, hs) == ACCEPTED.(shuttingDown := true)
  {
    var n := |hs| - 1;
    CanHappenBefore(ACCEPTED, hs, n);
    if n > 0 {
      assert hs[..n][0] == hs[0];
      RefusedShutdownLeaks(hs[..n]);
    } else {
      assert hs[..n] == [];
    }
  }

  /** The callbacks among what happens. */
  function CallbackCount(hs: seq<(Happening, bool)>): nat {
    if hs == [] then 0 else CallbackCount(hs[..|hs| - 1]) + (if hs[|hs| - 1].0.Shutdown? then 0 else 1)
  }

  /** Once closing is under way there are at most as many callbacks as work was left. */
  lemma {:induction false} BoundedCallbacks(c: Conn, hs: seq<(Happening, bool)>)
    requires Sound(c) && (c.pending || c.closing) && CanHappen(c, hs)
    ensures Work(After(c, hs)) + CallbackCount(hs) <= Work(c) <= 4
  {
    hide Happens, Possible, CanHappen, Sound, Work;
    if hs == [] {
      WorkBounded(c);
    } else {
      var n := |hs| - 1;
      CanHappenBefore(c, hs, n);
      BoundedCallbacks(c, hs[..n]);
      StillClosing(c, hs[..n]);
      RunSound(c, hs[..n]);
      StepAccounted(After(c, hs[..n]), hs[n].0, hs[n].1);
    }
  }

  lemma WorkBounded(c: Conn)
    requires Sound(c)
    ensures Work(c) <= 4
  {
  }

  /** The first thing that happens to an accepted connection is that a shutdown is called for; if the request
      is granted, the connection is on its way from then on. */
  lemma {:induction false} OnItsWay(hs: seq<(Happening, bool)>)
    requires CanHappen(ACCEPTED, hs) && |hs| > 0
    ensures hs[0].0.Shutdown?
    ensures hs[0].0.granted ==> After(ACCEPTED, hs).pending || After(ACCEPTED, hs).closing
  {
    var n := |hs| - 1;
    CanHappenBefore(ACCEPTED, hs, n);
    RunSound(ACCEPTED, hs[..n]);
    StepAccounted(After(ACCEPTED, hs[..n]), hs[n].0, hs[n].1);
    if n > 0 {
      OnItsWay(hs[..n]);
      assert hs[..n][0] == hs[0];
    } else {
      assert hs[..n] == [];
    }
  }

  /** Whatever happens to an accepted connection: when no callback is to come any more, it has been freed exactly
      if its first request was granted. */
  lemma FreedIffGranted(hs: seq<(Happening, bool)>)
    requires CanHappen(ACCEPTED, hs)
    requires forall h: Happening :: !h.Shutdown? ==> !Possible(After(ACCEPTED, hs), h)
    ensures After(ACCEPTED, hs).freed == 1 <==> |hs| > 0 && hs[0].0.Shutdown? && hs[0].0.granted
  {
    hide CanHappen;
    if |hs| > 0 {
      OnItsWay(hs);
      if hs[0].0.granted {
        RunSound(ACCEPTED, hs);
        SomethingToCome(After(ACCEPTED, hs));
      } else {
        RefusedShutdownLeaks(hs);
      }
    }
  }
}
