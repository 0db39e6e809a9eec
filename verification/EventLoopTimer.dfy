/**
 How the event loop drives the wheel by the clock: `advanceTimer` runs as many turns as whole ticks
 have passed. Times are in nanoseconds, the resolution of the clock; the loop compares milliseconds.
 */
module EventLoopTimers {
  import opened Words
  import opened Wheels
  import TimerWheels

  const NS: nat := 1_000_000  // nanoseconds in a millisecond

  /** Whole milliseconds between two readings of the clock, truncated towards zero. */
  function ElapsedMs(now: int, last: int): int {
    if now >= last then (now - last) / NS else -((last - now) / NS)
  }

  function CatchUp(now: int, last: int, tickMs: nat): nat
    requires tickMs > 0
  {
    if ElapsedMs(now, last) >= tickMs then ElapsedMs(now, last) / tickMs else 0
  }

  /** A turn of the wheel and the loop's `onTimerTick` after it, which may add and cancel timers too. */
  function LoopTick<C>(w: Wheel, c: C, cb: Callback<C>, onTick: Callback<C>): (r: (Wheel, C))
    requires w.Valid()
    ensures r.0.Valid() && |r.0.slots| == |w.slots| && r.0.tickMs == w.tickMs
    ensures r.0.currentTick == w.currentTick + 1
  {
    var (w1, c1, _) := Tick(w, c, cb);
    var (c2, acts) := onTick(c1, w1.currentTick, w1.nextId);
    (DoAll(w1, acts), c2)
  }

  function LoopTicks<C>(w: Wheel, c: C, n: nat, cb: Callback<C>, onTick: Callback<C>): (r: (Wheel, C))
    requires w.Valid()
    ensures r.0.Valid() && |r.0.slots| == |w.slots| && r.0.tickMs == w.tickMs
    ensures r.0.currentTick == w.currentTick + n
    decreases n
  {
    if n == 0 then (w, c)
    else
      var r := LoopTick(w, c, cb, onTick);
      LoopTicks(r.0, r.1, n - 1, cb, onTick)
  }

  lemma MoreTicks<C>(w: Wheel, c: C, n: nat, cb: Callback<C>, onTick: Callback<C>)
    requires w.Valid() && n > 0
    ensures LoopTicks(w, c, n, cb, onTick)
         == LoopTicks(LoopTick(w, c, cb, onTick).0, LoopTick(w, c, cb, onTick).1, n - 1, cb, onTick)
  {
  }

  lemma NoTicks<C>(w: Wheel, c: C, cb: Callback<C>, onTick: Callback<C>)
    requires w.Valid()
    ensures LoopTicks(w, c, 0, cb, onTick) == (w, c)
  {
  }

  class EventLoop {
    const timerWheel: TimerWheels.TimerWheel
    var lastTimerTick: int

    ghost predicate Valid()
      reads this, timerWheel, timerWheel.slots
    {
      timerWheel.Valid()
    }

    constructor (timerSlots: nat, timerTickMs: nat, now: int)
      requires timerSlots > 0 && timerTickMs > 0
      ensures Valid() && fresh(timerWheel) && fresh(timerWheel.slots)
      ensures timerWheel.Model() == NewWheel(timerSlots, timerTickMs) && lastTimerTick == now
    {
      timerWheel := new TimerWheels.TimerWheel(timerSlots, timerTickMs);
      lastTimerTick := now;
    }

    method RunAfter(delayMs: uint64) returns (id: nat)
      requires Valid()
      modifies timerWheel`nextId, timerWheel.slots
      ensures Valid() && id == old(timerWheel.nextId)
      ensures timerWheel.Model() == AddTimer(old(timerWheel.Model()), delayMs)
    {
      id := timerWheel.AddTimer(delayMs);
    }

    method AdvanceTimer<C>(now: int, c: C, cb: Callback<C>, onTick: Callback<C>) returns (c': C)
      requires Valid()
      modifies this, timerWheel, timerWheel.slots
      ensures Valid()
      ensures var n := CatchUp(now, old(lastTimerTick), timerWheel.tickMs);
              && timerWheel.Model() == LoopTicks(old(timerWheel.Model()), c, n, cb, onTick).0
              && c' == LoopTicks(old(timerWheel.Model()), c, n, cb, onTick).1
              && lastTimerTick == old(lastTimerTick) + n * timerWheel.tickMs * NS
    {
      hide WellFormed, LoopTicks;
      c' := c;
      var elapsed := ElapsedMs(now, lastTimerTick);
      var tickMs := timerWheel.tickMs;
      if elapsed >= tickMs {
        var catchUp := elapsed / tickMs;
        c' := RunTicks(catchUp, c, cb, onTick);
        lastTimerTick := lastTimerTick + catchUp * tickMs * NS;
      } else {
        NoTicks(timerWheel.Model(), c, cb, onTick);
      }
    }

    method RunTicks<C>(n: nat, c: C, cb: Callback<C>, onTick: Callback<C>) returns (c': C)
      requires Valid()
      modifies timerWheel, timerWheel.slots
      ensures Valid()
      ensures timerWheel.Model() == LoopTicks(old(timerWheel.Model()), c, n, cb, onTick).0
      ensures c' == LoopTicks(old(timerWheel.Model()), c, n, cb, onTick).1
    {
      hide WellFormed, LoopTick, LoopTicks;
      c' := c;
      for i := 0 to n
        invariant Valid() && timerWheel.Model().Valid()
        invariant LoopTicks(old(timerWheel.Model()), c, n, cb, onTick)
               == LoopTicks(timerWheel.Model(), c', n - i, cb, onTick)
      {
        MoreTicks(timerWheel.Model(), c', n - i, cb, onTick);
        c' := RunTick(c', cb, onTick);
      }
      NoTicks(timerWheel.Model(), c', cb, onTick);
    }

    method RunTick<C>(c: C, cb: Callback<C>, onTick: Callback<C>) returns (c': C)
      requires Valid()
      modifies timerWheel, timerWheel.slots
      ensures Valid()
      ensures timerWheel.Model() == LoopTick(old(timerWheel.Model()), c, cb, onTick).0
      ensures c' == LoopTick(old(timerWheel.Model()), c, cb, onTick).1
    {
      hide WellFormed, Tick, DoAll;
      var fired;
      c', fired := timerWheel.Tick(c, cb);
      c' := OnTimerTick(c', onTick);
    }

    method OnTimerTick<C>(c: C, onTick: Callback<C>) returns (c': C)
      requires Valid()
      modifies timerWheel`nextId, timerWheel.slots
      ensures Valid()
      ensures var (next, acts) := onTick(c, timerWheel.currentTick, old(timerWheel.nextId));
              c' == next && timerWheel.Model() == DoAll(old(timerWheel.Model()), acts)
    {
      var (next, acts) := onTick(c, timerWheel.currentTick, timerWheel.nextId);
      timerWheel.RunActions(acts);
      c' := next;
    }
  }

  // ---- The same on the set of deadlines ----

  function RefLoopTick<C>(d: Deadlines, c: C, cb: Callback<C>, onTick: Callback<C>): (r: (Deadlines, C))
    requires d.Valid()
    ensures r.0.Valid() && r.0.tickMs == d.tickMs && r.0.numSlots == d.numSlots
    ensures r.0.currentTick == d.currentTick + 1
  {
    var (d1, c1) := RefTick(d, c, cb);
    var (c2, acts) := onTick(c1, d1.currentTick, d1.nextId);
    (RefDoAll(d1, acts, d1.currentTick), c2)
  }

  function RefLoopTicks<C>(d: Deadlines, c: C, n: nat, cb: Callback<C>, onTick: Callback<C>): (r: (Deadlines, C))
    requires d.Valid()
    ensures r.0.Valid() && r.0.tickMs == d.tickMs && r.0.numSlots == d.numSlots
    ensures r.0.currentTick == d.currentTick + n
    decreases n
  {
    if n == 0 then (d, c)
    else
      var r := RefLoopTick(d, c, cb, onTick);
      RefLoopTicks(r.0, r.1, n - 1, cb, onTick)
  }

  lemma RefinesLoopTick<C>(w: Wheel, d: Deadlines, c: C, cb: Callback<C>, onTick: Callback<C>)
    requires Refines(w, d, d.currentTick)
    ensures w.Valid() && d.Valid()
    ensures Refines(LoopTick(w, c, cb, onTick).0, RefLoopTick(d, c, cb, onTick).0, d.currentTick + 1)
    ensures LoopTick(w, c, cb, onTick).1 == RefLoopTick(d, c, cb, onTick).1
  {
    hide Refines, Tick, RefTick;
    RefinesTick(w, d, c, cb);
    var w1 := Tick(w, c, cb).0;
    var d1 := RefTick(d, c, cb).0;
    RefinesSameIds(w1, d1, d.currentTick + 1);
    var (c2, acts) := onTick(Tick(w, c, cb).1, w1.currentTick, w1.nextId);
    RefinesDoAll(w1, d1, d1.currentTick, acts);
  }

  lemma {:induction false} RefinesLoopTicks<C>(w: Wheel, d: Deadlines, c: C, n: nat, cb: Callback<C>,
                                               onTick: Callback<C>)
    requires Refines(w, d, d.currentTick)
    ensures w.Valid() && d.Valid()
    ensures Refines(LoopTicks(w, c, n, cb, onTick).0, RefLoopTicks(d, c, n, cb, onTick).0, d.currentTick + n)
    ensures LoopTicks(w, c, n, cb, onTick).1 == RefLoopTicks(d, c, n, cb, onTick).1
    decreases n
  {
    hide Refines, LoopTick, RefLoopTick;
    RefinesSameIds(w, d, d.currentTick);
    if n > 0 {
      RefinesLoopTick(w, d, c, cb, onTick);
      var (w', c') := LoopTick(w, c, cb, onTick);
      var d' := RefLoopTick(d, c, cb, onTick).0;
      RefinesLoopTicks(w', d', c', n - 1, cb, onTick);
    }
  }

  lemma InvLoopTick<C>(d: Deadlines, c: C, cb: Callback<C>, onTick: Callback<C>)
    requires Inv(d, d.currentTick)
    ensures Inv(RefLoopTick(d, c, cb, onTick).0, d.currentTick + 1)
    ensures KeepsDeadlines(d, RefLoopTick(d, c, cb, onTick).0)
  {
    assert d.Valid();
    hide Inv, KeepsDeadlines, RefTick;
    InvTick(d, c, cb);
    var (d1, c1) := RefTick(d, c, cb);
    var (c2, acts) := onTick(c1, d1.currentTick, d1.nextId);
    InvDoAll(d1, acts, d1.currentTick);
    KeepsDeadlinesTwice(d, d1, RefDoAll(d1, acts, d1.currentTick));
  }

  lemma MoreRefTicks<C>(d: Deadlines, c: C, n: nat, cb: Callback<C>, onTick: Callback<C>)
    requires d.Valid()
    ensures n == 0 ==> RefLoopTicks(d, c, n, cb, onTick) == (d, c)
    ensures n > 0 ==>
              RefLoopTicks(d, c, n, cb, onTick)
              == RefLoopTicks(RefLoopTick(d, c, cb, onTick).0, RefLoopTick(d, c, cb, onTick).1, n - 1, cb, onTick)
  {
  }

  lemma InvAtStart(d: Deadlines)
    requires Inv(d, d.currentTick)
    ensures d.Valid() && KeepsDeadlines(d, d)
  {
  }

  lemma {:induction false} InvLoopTicks<C>(d: Deadlines, c: C, n: nat, cb: Callback<C>, onTick: Callback<C>)
    requires Inv(d, d.currentTick)
    ensures Inv(RefLoopTicks(d, c, n, cb, onTick).0, d.currentTick + n)
    ensures KeepsDeadlines(d, RefLoopTicks(d, c, n, cb, onTick).0)
    decreases n
  {
    hide Inv, KeepsDeadlines, RefLoopTick, RefLoopTicks;
    InvAtStart(d);
    MoreRefTicks(d, c, n, cb, onTick);
    if n > 0 {
      InvLoopTick(d, c, cb, onTick);
      var r := RefLoopTick(d, c, cb, onTick);
      InvLoopTicks(r.0, r.1, n - 1, cb, onTick);
      KeepsDeadlinesTwice(d, r.0, RefLoopTicks(r.0, r.1, n - 1, cb, onTick).0);
    }
  }

  // ---- Runs of the loop against the clock ----

  datatype LoopEvent = Advance(now: int) | Call(a: Action)

  datatype LoopState<C> = LoopState(d: Deadlines, c: C, last: int)

  function Start<C>(numSlots: nat, tickMs: nat, start: int, c: C): LoopState<C> {
    LoopState(NewDeadlines(numSlots, tickMs), c, start)
  }

  function LoopStep<C>(s: LoopState<C>, e: LoopEvent, cb: Callback<C>, onTick: Callback<C>): (r: LoopState<C>)
    requires s.d.Valid()
    ensures r.d.Valid() && r.d.tickMs == s.d.tickMs && r.d.numSlots == s.d.numSlots
  {
    match e
    case Advance(now) =>
      var n := CatchUp(now, s.last, s.d.tickMs);
      var (d', c') := RefLoopTicks(s.d, s.c, n, cb, onTick);
      LoopState(d', c', s.last + n * s.d.tickMs * NS)
    case Call(a) => s.(d := RefDo(s.d, a, s.d.currentTick))
  }

  function RunLoop<C>(s: LoopState<C>, events: seq<LoopEvent>, cb: Callback<C>, onTick: Callback<C>): (r: LoopState<C>)
    requires s.d.Valid()
    ensures r.d.Valid() && r.d.tickMs == s.d.tickMs && r.d.numSlots == s.d.numSlots
    decreases |events|
  {
    if events == [] then s
    else LoopStep(RunLoop(s, events[..|events| - 1], cb, onTick), events[|events| - 1], cb, onTick)
  }

  /** The last reading of the clock. */
  function Latest(start: int, events: seq<LoopEvent>): int
    decreases |events|
  {
    if events == [] then start
    else match events[|events| - 1]
      case Advance(now) => now
      case Call(_) => Latest(start, events[..|events| - 1])
  }

  /** The clock is steady. */
  predicate Steady(start: int, events: seq<LoopEvent>)
    decreases |events|
  {
    events == [] ||
    (&& Steady(start, events[..|events| - 1])
     && (events[|events| - 1].Advance? ==> Latest(start, events[..|events| - 1]) <= events[|events| - 1].now))
  }

  lemma Multiply(q2: nat, k: nat, r2: nat, m: nat, r: nat)
    requires r < m && r2 < k
    ensures (q2 * k + r2) * m + r == q2 * (m * k) + (r2 * m + r)
    ensures r2 * m + r < m * k
  {
    assert (q2 * k) * m == q2 * (m * k);
    assert (r2 + 1) * m <= k * m;
  }

  lemma Parts(x: nat, m: nat)
    requires m > 0
    ensures x == x / m * m + x % m
  {
  }

  lemma DivideTwice(x: nat, m: nat, k: nat)
    requires m > 0 && k > 0
    ensures m * k > 0 && x / m / k == x / (m * k)
  {
    Parts(x, m);
    Parts(x / m, k);
    Nested(x, m, k, x / m, x % m, x / m / k, x / m % k);
  }

  lemma Nested(x: nat, m: nat, k: nat, q: nat, r: nat, q2: nat, r2: nat)
    requires x == q * m + r && r < m && q == q2 * k + r2 && r2 < k
    ensures m * k > 0 && x / (m * k) == q2
  {
    Multiply(q2, k, r2, m, r);
    QuotientUnique(x, m * k, q2, r2 * m + r);
  }

  /** The turns still owed are the whole ticks since the last one. */
  lemma CatchUpIsQuotient(now: int, last: int, tickMs: nat)
    requires tickMs > 0 && now >= last
    ensures CatchUp(now, last, tickMs) == (now - last) / (NS * tickMs)
  {
    DivideTwice(now - last, NS, tickMs);
    var e := ElapsedMs(now, last);
    if e < tickMs {
      QuotientUnique(e, tickMs, 0, e);
    }
  }

  lemma AddQuotients(t: nat, x: nat, p: nat)
    requires p > 0
    ensures (t * p + x) / p == t + x / p
  {
    assert t * p + x == (t + x / p) * p + x % p;
    QuotientUnique(t * p + x, p, t + x / p, x % p);
  }

  /**
   No drift: after any run, the turns taken are the whole ticks between the start and the last
   reading of the clock, however irregular the readings were.
   */
  lemma {:induction false} NoDrift<C>(numSlots: nat, tickMs: nat, start: int, c: C, events: seq<LoopEvent>,
                                      cb: Callback<C>, onTick: Callback<C>)
    requires numSlots > 0 && tickMs > 0 && Steady(start, events)
    ensures Latest(start, events) >= start
    ensures (var s := RunLoop(Start(numSlots, tickMs, start, c), events, cb, onTick);
             && s.d.currentTick == (Latest(start, events) - start) / (NS * tickMs)
             && s.last == start + s.d.currentTick * (NS * tickMs))
    decreases |events|
  {
    if events != [] {
      var prefix := events[..|events| - 1];
      NoDrift(numSlots, tickMs, start, c, prefix, cb, onTick);
      if events[|events| - 1].Advance? {
        var s := RunLoop(Start(numSlots, tickMs, start, c), prefix, cb, onTick);
        AdvanceCounts(start, s.d.currentTick, s.last, events[|events| - 1].now, tickMs, Latest(start, prefix));
      }
    }
  }

  lemma AdvanceCounts(start: int, t: nat, last: int, now: int, tickMs: nat, earlier: int)
    requires tickMs > 0 && last == start + t * (NS * tickMs)
    requires start <= earlier <= now && t == (earlier - start) / (NS * tickMs)
    ensures last <= now
    ensures var n := CatchUp(now, last, tickMs);
            t + n == (now - start) / (NS * tickMs) && last + n * tickMs * NS == start + (t + n) * (NS * tickMs)
  {
    var p := NS * tickMs;
    QuotientBelow(earlier - start, p);
    CatchUpIsQuotient(now, last, tickMs);
    AddQuotients(t, now - last, p);
    var n := CatchUp(now, last, tickMs);
    Distribute(t, n, tickMs);
  }

  lemma QuotientBelow(x: nat, p: nat)
    requires p > 0
    ensures x / p * p <= x
  {
  }

  lemma Distribute(t: nat, n: nat, tickMs: nat)
    ensures t * (NS * tickMs) + n * tickMs * NS == (t + n) * (NS * tickMs)
  {
  }

  lemma {:induction false} InvRunLoop<C>(s: LoopState<C>, events: seq<LoopEvent>, cb: Callback<C>, onTick: Callback<C>)
    requires Inv(s.d, s.d.currentTick)
    ensures Inv(RunLoop(s, events, cb, onTick).d, RunLoop(s, events, cb, onTick).d.currentTick)
    ensures KeepsDeadlines(s.d, RunLoop(s, events, cb, onTick).d)
    decreases |events|
  {
    if events != [] {
      var prefix := events[..|events| - 1];
      InvRunLoop(s, prefix, cb, onTick);
      var s1 := RunLoop(s, prefix, cb, onTick);
      InvLoopStep(s1, events[|events| - 1], cb, onTick);
      KeepsDeadlinesTwice(s.d, s1.d, LoopStep(s1, events[|events| - 1], cb, onTick).d);
    }
  }

  lemma InvLoopStep<C>(s: LoopState<C>, e: LoopEvent, cb: Callback<C>, onTick: Callback<C>)
    requires Inv(s.d, s.d.currentTick)
    ensures Inv(LoopStep(s, e, cb, onTick).d, LoopStep(s, e, cb, onTick).d.currentTick)
    ensures KeepsDeadlines(s.d, LoopStep(s, e, cb, onTick).d)
  {
    assert s.d.Valid();
    match e
    case Advance(now) =>
      hide Inv, KeepsDeadlines;
      InvLoopTicks(s.d, s.c, CatchUp(now, s.last, s.d.tickMs), cb, onTick);
    case Call(a) => InvDo(s.d, a, s.d.currentTick);
  }

  lemma {:induction false} RunLoopOfConcat<C>(s: LoopState<C>, a: seq<LoopEvent>, b: seq<LoopEvent>, cb: Callback<C>,
                                              onTick: Callback<C>)
    requires s.d.Valid()
    ensures RunLoop(s, a + b, cb, onTick) == RunLoop(RunLoop(s, a, cb, onTick), b, cb, onTick)
    decreases |b|
  {
    if b == [] {
      assert a + b == a;
    } else {
      assert (a + b)[..|a + b| - 1] == a + b[..|b| - 1];
      RunLoopOfConcat(s, a, b[..|b| - 1], cb, onTick);
    }
  }

  /** The moment the wheel ends the turn with tick `t`. */
  function Boundary(start: int, t: nat, tickMs: nat): int {
    start + (t + 1) * (NS * tickMs)
  }

  lemma BoundaryOfDelay(start: int, now: int, t: nat, delayMs: nat, tickMs: nat)
    requires tickMs > 0 && now >= start && t == (now - start) / (NS * tickMs)
    ensures now + delayMs * NS
          < Boundary(start, t + Ceil(delayMs, tickMs), tickMs)
          < now + (delayMs + 2 * tickMs) * NS
  {
  }

  /** The tick in which a timer added between turns will fire. */
  function DeadlineIf(d: Deadlines, delayMs: uint64): nat
    requires d.Valid()
  {
    RefDo(d, Add(delayMs), d.currentTick).deadline[d.nextId]
  }

  /** Neither of the two 64-bit sums that lead to a timer's expiration wraps. */
  predicate NothingWraps(d: Deadlines, delayMs: uint64)
    requires d.Valid()
  {
    delayMs + d.tickMs - 1 < TWO_64 && d.currentTick + Ceil(delayMs, d.tickMs) < TWO_64
  }

  /** A timer added while the wheel is caught up fires after its delay if and only if neither sum wraps. */
  lemma NotEarlyIff(d: Deadlines, start: int, now: int, delayMs: uint64)
    requires d.Valid() && d.tickMs < 0x1_0000_0000 && d.currentTick + d.numSlots < TWO_64
    requires now >= start && d.currentTick == (now - start) / (NS * d.tickMs)
    ensures now + delayMs * NS < Boundary(start, DeadlineIf(d, delayMs), d.tickMs) <==> NothingWraps(d, delayMs)
  {
    DeadlineOfAdd(d, delayMs, false);
    var t, k := d.currentTick, Ceil(delayMs, d.tickMs);
    BoundaryOfDelay(start, now, t, delayMs, d.tickMs);
    hide Ceil, DeadlineIf, Boundary;
    if delayMs + d.tickMs - 1 >= TWO_64 {
      NextBoundary(start, now, t, delayMs, d.tickMs);
    } else if t + k >= TWO_64 {
      BoundariesApart(start, DeadlineIf(d, delayMs), t + k, d.tickMs);
    }
  }

  lemma NextBoundary(start: int, now: int, t: nat, delayMs: nat, tickMs: nat)
    requires 0 < tickMs <= delayMs && now >= start && t == (now - start) / (NS * tickMs)
    ensures Boundary(start, t, tickMs) <= now + delayMs * NS
  {
  }

  lemma BoundariesApart(start: int, t: nat, t': nat, tickMs: nat)
    requires t + 2 <= t'
    ensures Boundary(start, t, tickMs) + 2 * (NS * tickMs) <= Boundary(start, t', tickMs)
  {
    var p := NS * tickMs;
    assert (t' + 1) * p == (t + 1) * p + 2 * p + (t' - t - 2) * p;
  }

  /** At an input: rounding the delay up does not wrap, but the expiration does, and the timer fires in tick 256. */
  lemma WrappingTimerIsEarly(d: Deadlines)
    requires d == Deadlines(1, 256, 1, 0, map[], {}, {}, [])
    ensures DeadlineIf(d, TWO_64 - 1) == 256
    ensures (TWO_64 - 1) + d.tickMs - 1 < TWO_64
    ensures Boundary(0, 256, d.tickMs) < NS + (TWO_64 - 1) * NS
  {
  }

  /**
   When a timer runs. It is added at time `now`, after any run, while the wheel is caught up. Unless its
   expiration wraps, its boundary lies after the delay and less than two ticks after it. After any further
   run, it has not fired if the last reading of the clock is before the boundary, and it has fired or been
   cancelled if it is not: the first advance at or after the boundary is the one that runs it.
   */
  lemma TimerIsOnTime<C>(numSlots: nat, tickMs: nat, start: int, c: C, events: seq<LoopEvent>, now: int,
                         delayMs: uint64, later: seq<LoopEvent>, cb: Callback<C>, onTick: Callback<C>)
    requires numSlots > 0 && tickMs > 0
    requires Steady(start, events + [Call(Add(delayMs))] + later) && Latest(start, events) <= now
    requires var d := RunLoop(Start(numSlots, tickMs, start, c), events, cb, onTick).d;
             now >= start && d.currentTick == (now - start) / (NS * tickMs)
    ensures var d := RunLoop(Start(numSlots, tickMs, start, c), events, cb, onTick).d;
            var all := events + [Call(Add(delayMs))] + later;
            var d' := RunLoop(Start(numSlots, tickMs, start, c), all, cb, onTick).d;
            var boundary := Boundary(start, DeadlineIf(d, delayMs), tickMs);
            && (NothingWraps(d, delayMs) ==> now + delayMs * NS < boundary < now + (delayMs + 2 * tickMs) * NS)
            && (Latest(start, all) < boundary ==> !Logged(d', d.nextId))
            && (Latest(start, all) >= boundary ==> Logged(d', d.nextId) || d.nextId in d'.cancelled)
  {
    var s0 := Start(numSlots, tickMs, start, c);
    var d := RunLoop(s0, events, cb, onTick).d;
    var all := events + [Call(Add(delayMs))] + later;
    hide RunLoop, Steady, Latest, Logged;
    NoDrift(numSlots, tickMs, start, c, all, cb, onTick);
    LeavesAtDeadline(s0, events, delayMs, later, cb, onTick);
    if NothingWraps(d, delayMs) {
      PlainDeadline(d, delayMs, false);
      BoundaryOfDelay(start, now, d.currentTick, delayMs, tickMs);
    }
    hide Boundary, Ceil, NothingWraps, DeadlineIf;
    ReachedIff(start, Latest(start, all), DeadlineIf(d, delayMs), tickMs);
  }

  /** A timer added after a run leaves the set, by firing or by being cancelled, exactly when its tick is over. */
  lemma LeavesAtDeadline<C>(s0: LoopState<C>, events: seq<LoopEvent>, delayMs: uint64, later: seq<LoopEvent>,
                            cb: Callback<C>, onTick: Callback<C>)
    requires Inv(s0.d, s0.d.currentTick)
    ensures var d := RunLoop(s0, events, cb, onTick).d;
            var d' := RunLoop(s0, events + [Call(Add(delayMs))] + later, cb, onTick).d;
            && (Logged(d', d.nextId) ==> DeadlineIf(d, delayMs) < d'.currentTick)
            && (DeadlineIf(d, delayMs) < d'.currentTick ==> Logged(d', d.nextId) || d.nextId in d'.cancelled)
  {
    InvRunLoop(s0, events, cb, onTick);
    RunLoopSnoc(s0, events, Call(Add(delayMs)), cb, onTick);
    RunLoopOfConcat(s0, events + [Call(Add(delayMs))], later, cb, onTick);
    hide RunLoop, LoopStep, Logged, DeadlineIf;
    DeadlineKept(RunLoop(s0, events, cb, onTick), delayMs, later, cb, onTick);
  }

  lemma RunLoopSnoc<C>(s: LoopState<C>, events: seq<LoopEvent>, e: LoopEvent, cb: Callback<C>, onTick: Callback<C>)
    requires s.d.Valid()
    ensures RunLoop(s, events + [e], cb, onTick) == LoopStep(RunLoop(s, events, cb, onTick), e, cb, onTick)
  {
  }

  /** After an addition and any further run, the timer has left the set exactly if its tick is over. */
  lemma DeadlineKept<C>(s: LoopState<C>, delayMs: uint64, later: seq<LoopEvent>, cb: Callback<C>, onTick: Callback<C>)
    requires Inv(s.d, s.d.currentTick)
    ensures var d' := RunLoop(LoopStep(s, Call(Add(delayMs)), cb, onTick), later, cb, onTick).d;
            && (Logged(d', s.d.nextId) ==> DeadlineIf(s.d, delayMs) < d'.currentTick)
            && (DeadlineIf(s.d, delayMs) < d'.currentTick ==> Logged(d', s.d.nextId) || s.d.nextId in d'.cancelled)
  {
    InvLoopStep(s, Call(Add(delayMs)), cb, onTick);
    InvRunLoop(LoopStep(s, Call(Add(delayMs)), cb, onTick), later, cb, onTick);
  }

  /** The turn for tick `t` has been taken exactly when its boundary is reached. */
  lemma ReachedIff(start: int, now: int, t: nat, tickMs: nat)
    requires tickMs > 0 && now >= start
    ensures now >= Boundary(start, t, tickMs) <==> t < (now - start) / (NS * tickMs)
  {
    var p := NS * tickMs;
    var q := (now - start) / p;
    assert q * p <= now - start < (q + 1) * p;
    if t < q {
      assert (t + 1) * p <= q * p;
    } else {
      assert (q + 1) * p <= (t + 1) * p;
    }
  }

  // ---- The loop's own callback ----

  /** What a client that only keeps a record sees: timers fire, and the loop ticks. */
  datatype Mark = Fired(id: nat) | Ticked(tick: nat)

  function MarkFired(c: seq<Mark>, id: nat, next: nat): (seq<Mark>, seq<Action>) {
    (c + [Fired(id)], [])
  }

  function MarkTicked(c: seq<Mark>, tick: nat, next: nat): (seq<Mark>, seq<Action>) {
    (c + [Ticked(tick)], [])
  }

  function MarksOf(ids: seq<nat>): seq<Mark> {
    seq(|ids|, i requires 0 <= i < |ids| => Fired(ids[i]))
  }

  lemma {:induction false} MarkedFirings(w: Wheel, c: seq<Mark>, ids: seq<nat>)
    requires w.Valid()
    ensures FireAll(w, c, ids, MarkFired) == (w, c + MarksOf(ids))
    decreases |ids|
  {
    if ids == [] {
      assert c + MarksOf([]) == c;
    } else {
      assert DoAll(w, []) == w;
      MarkedFirings(w, c + [Fired(ids[0])], ids[1..]);
      assert c + [Fired(ids[0])] + MarksOf(ids[1..]) == c + MarksOf(ids);
    }
  }

  /** In every turn the timers fire first, and then `onTimerTick` is called, once, with the tick moved on. */
  lemma TickedAfterFiring(w: Wheel, c: seq<Mark>)
    requires w.Valid()
    ensures LoopTick(w, c, MarkFired, MarkTicked).1 == c + MarksOf(SweptIds(w)) + [Ticked(w.currentTick + 1)]
  {
    MarkedFirings(Swept(w), c, SweptIds(w));
    TickParts(w, c, MarkFired);
  }
}
