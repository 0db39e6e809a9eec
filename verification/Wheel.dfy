/**
 The hashed timer wheel. Callbacks are arbitrary: firing timer `id` runs `cb(c, id, nextId)`, which
 changes the client's state `c` and adds and cancels timers; `nextId` is the id its first added
 timer will get.
 */
module Wheels {
  import opened Words

  datatype Action = Add(delayMs: uint64) | Cancel(id: nat)

  type Callback<!C> = (C, nat, nat) -> (C, seq<Action>)

  // ---- Deadlines ----

  /** The delay in ticks, rounded up; the sum is taken in 64 bits. */
  function Ticks(delayMs: uint64, tickMs: nat): nat
    requires tickMs > 0
  {
    (delayMs + tickMs - 1) % TWO_64 / tickMs
  }

  function ExpireTick(current: nat, delayMs: uint64, tickMs: nat): nat
    requires tickMs > 0
  {
    (current + Ticks(delayMs, tickMs)) % TWO_64
  }

  /** The tick at which an entry for tick `exp` fires, if `from` is the next tick to be swept. */
  function FireTick(exp: nat, from: nat, numSlots: nat): nat
    requires numSlots > 0
  {
    if exp >= from then exp else from + (exp - from) % numSlots
  }

  lemma ModSame(a: int, b: int, n: int)
    requires n > 0 && a % n == b % n
    ensures (a - b) % n == 0 && a - b == n * (a / n - b / n)
  {
    var k := a / n - b / n;
    assert a - b == n * k;
    MultipleMod(k, n);
  }

  lemma MultipleMod(k: int, n: int)
    requires n > 0
    ensures (n * k) % n == 0
  {
    assert n * k == k * n + 0;
    QuotientUnique(n * k, n, k, 0);
  }

  lemma ModShift(exp: int, from: int, n: int)
    requires n > 0
    ensures (from + (exp - from) % n) % n == exp % n
  {
    var x := from + (exp - from) % n;
    var k := (exp - from) / n;
    assert x == exp - n * k;
    QuotientUnique(x, n, exp / n - k, exp % n);
  }

  /** `FireTick` is the first tick from `from` on that sweeps the entry's slot and is not before `exp`. */
  lemma FireTickIsFirst(exp: nat, from: nat, numSlots: nat)
    requires numSlots > 0
    ensures (var t := FireTick(exp, from, numSlots);
             t >= from && t >= exp && t % numSlots == exp % numSlots)
    ensures forall t :: from <= t < FireTick(exp, from, numSlots) && t % numSlots == exp % numSlots ==> t < exp
  {
    ModShift(exp, from, numSlots);
    forall t | from <= t < FireTick(exp, from, numSlots) && t % numSlots == exp % numSlots
      ensures t < exp
    {
      if exp <= t {
        SameSlotApart(FireTick(exp, from, numSlots), t, numSlots);
        assert false;
      }
    }
  }

  /** Two ticks that sweep the same slot are at least a round apart. */
  lemma SameSlotApart(a: nat, b: nat, n: nat)
    requires n > 0 && a % n == b % n && a > b
    ensures a >= b + n
  {
    ModSame(a, b, n);
    var k := a / n - b / n;
    if a - b < n {
      NoMultipleWithin(k, n);
      assert false;
    }
  }

  // ---- The wheel as a value ----

  datatype Entry = Entry(id: nat, exp: nat, canceled: bool)

  datatype Wheel = Wheel(tickMs: nat, currentTick: nat, nextId: nat, slots: seq<seq<Entry>>)
  {
    predicate Valid() {
      tickMs > 0 && |slots| > 0
    }

    /** `e` is stored, in the slot of its tick. */
    predicate Has(e: Entry)
      requires |slots| > 0
    {
      e in slots[e.exp % |slots|]
    }
  }

  predicate Sorted(slot: seq<Entry>) {
    forall j, k | 0 <= j < k < |slot| :: slot[j].id < slot[k].id
  }

  ghost predicate WellFormed(w: Wheel) {
    && w.Valid()
    && (forall s | 0 <= s < |w.slots| :: Sorted(w.slots[s]))
    && (forall s, k | 0 <= s < |w.slots| && 0 <= k < |w.slots[s]| ::
          w.slots[s][k].id < w.nextId && w.slots[s][k].exp % |w.slots| == s)
    && (forall e, e' | w.Has(e) && w.Has(e') && e.id == e'.id :: e == e')
  }

  function AddTimer(w: Wheel, delayMs: uint64): Wheel
    requires w.Valid()
  {
    var exp := ExpireTick(w.currentTick, delayMs, w.tickMs);
    var s := exp % |w.slots|;
    w.(nextId := w.nextId + 1, slots := w.slots[s := w.slots[s] + [Entry(w.nextId, exp, false)]])
  }

  function Marked(e: Entry, id: nat): Entry {
    if e.id == id then e.(canceled := true) else e
  }

  function MarkedSlot(slot: seq<Entry>, id: nat): seq<Entry> {
    seq(|slot|, k requires 0 <= k < |slot| => Marked(slot[k], id))
  }

  function CancelTimer(w: Wheel, id: nat): Wheel {
    w.(slots := seq(|w.slots|, s requires 0 <= s < |w.slots| => MarkedSlot(w.slots[s], id)))
  }

  function Do(w: Wheel, a: Action): (r: Wheel)
    requires w.Valid()
    ensures r.Valid() && |r.slots| == |w.slots| && r.tickMs == w.tickMs && r.currentTick == w.currentTick
  {
    match a
    case Add(delayMs) => AddTimer(w, delayMs)
    case Cancel(id) => CancelTimer(w, id)
  }

  function DoAll(w: Wheel, acts: seq<Action>): (r: Wheel)
    requires w.Valid()
    ensures r.Valid() && |r.slots| == |w.slots| && r.tickMs == w.tickMs && r.currentTick == w.currentTick
    decreases |acts|
  {
    if acts == [] then w else DoAll(Do(w, acts[0]), acts[1..])
  }

  /** The ids of the entries that a sweep at tick `t` takes out to fire. */
  function ToFire(slot: seq<Entry>, t: nat): seq<nat> {
    if slot == [] then []
    else (if !slot[0].canceled && slot[0].exp <= t then [slot[0].id] else []) + ToFire(slot[1..], t)
  }

  /** The entries it leaves for a later round. */
  function ToKeep(slot: seq<Entry>, t: nat): seq<Entry> {
    if slot == [] then []
    else (if !slot[0].canceled && slot[0].exp > t then [slot[0]] else []) + ToKeep(slot[1..], t)
  }

  /** Runs the callbacks of `ids` in order. */
  function FireAll<C>(w: Wheel, c: C, ids: seq<nat>, cb: Callback<C>): (r: (Wheel, C))
    requires w.Valid()
    ensures r.0.Valid() && |r.0.slots| == |w.slots| && r.0.tickMs == w.tickMs && r.0.currentTick == w.currentTick
    decreases |ids|
  {
    if ids == [] then (w, c)
    else
      var (c', acts) := cb(c, ids[0], w.nextId);
      FireAll(DoAll(w, acts), c', ids[1..], cb)
  }

  function Swept(w: Wheel): Wheel
    requires w.Valid()
  {
    var s := w.currentTick % |w.slots|;
    w.(slots := w.slots[s := ToKeep(w.slots[s], w.currentTick)])
  }

  function SweptIds(w: Wheel): seq<nat>
    requires w.Valid()
  {
    ToFire(w.slots[w.currentTick % |w.slots|], w.currentTick)
  }

  function Tick<C>(w: Wheel, c: C, cb: Callback<C>): (r: (Wheel, C, seq<nat>))
    requires w.Valid()
    ensures r.0.Valid() && |r.0.slots| == |w.slots| && r.0.tickMs == w.tickMs
    ensures r.0.currentTick == w.currentTick + 1
  {
    var ids := SweptIds(w);
    var (w', c') := FireAll(Swept(w), c, ids, cb);
    (w'.(currentTick := w.currentTick + 1), c', ids)
  }

  // ---- What each step does to the stored entries ----

  lemma OnlyEntry(w: Wheel, s: nat, k: nat)
    requires WellFormed(w) && s < |w.slots| && k < |w.slots[s]|
    ensures forall i, j | 0 <= i < |w.slots| && 0 <= j < |w.slots[i]| && w.slots[i][j].id == w.slots[s][k].id ::
              i == s && j == k
  {
  }

  lemma HasAfterAdd(w: Wheel, delayMs: uint64, e: Entry)
    requires w.Valid()
    ensures AddTimer(w, delayMs).Has(e)
       <==> w.Has(e) || e == Entry(w.nextId, ExpireTick(w.currentTick, delayMs, w.tickMs), false)
  {
  }

  lemma HasAfterCancel(w: Wheel, id: nat, e: Entry)
    requires w.Valid()
    ensures CancelTimer(w, id).Has(e)
       <==> if e.id != id then w.Has(e)
            else e.canceled && (w.Has(e) || w.Has(e.(canceled := false)))
  {
    var slot := w.slots[e.exp % |w.slots|];
    var marked := MarkedSlot(slot, id);
    assert CancelTimer(w, id).slots[e.exp % |w.slots|] == marked;
    if e in marked {
      var k :| 0 <= k < |marked| && marked[k] == e;
      assert slot[k] in slot;
    }
    forall f: Entry | f in slot
      ensures Marked(f, id) in marked
    {
      var k :| 0 <= k < |slot| && slot[k] == f;
      assert marked[k] == Marked(f, id);
    }
    assert w.Has(e) ==> Marked(e, id) in marked;
    assert w.Has(e.(canceled := false)) ==> Marked(e.(canceled := false), id) in marked;
  }

  lemma {:induction false} InKept(slot: seq<Entry>, t: nat, e: Entry)
    ensures e in ToKeep(slot, t) <==> e in slot && !e.canceled && e.exp > t
    decreases |slot|
  {
    if slot != [] {
      InKept(slot[1..], t, e);
      assert slot == [slot[0]] + slot[1..];
    }
  }

  lemma {:induction false} KeptIsSorted(slot: seq<Entry>, t: nat)
    requires Sorted(slot)
    ensures Sorted(ToKeep(slot, t))
    decreases |slot|
  {
    if slot != [] {
      KeptIsSorted(slot[1..], t);
      forall e | e in ToKeep(slot[1..], t)
        ensures slot[0].id < e.id
      {
        InKept(slot[1..], t, e);
      }
    }
  }

  lemma HasAfterSweep(w: Wheel, e: Entry)
    requires w.Valid()
    ensures Swept(w).Has(e)
       <==> w.Has(e) && (e.exp % |w.slots| == w.currentTick % |w.slots| ==> !e.canceled && e.exp > w.currentTick)
  {
    InKept(w.slots[w.currentTick % |w.slots|], w.currentTick, e);
  }

  lemma AddKeepsUniqueIds(w: Wheel, delayMs: uint64)
    requires WellFormed(w)
    ensures var w' := AddTimer(w, delayMs);
            |w'.slots| > 0 && forall e, e' | w'.Has(e) && w'.Has(e') && e.id == e'.id :: e == e'
  {
  }

  lemma AddKeepsSlots(w: Wheel, delayMs: uint64, s: nat)
    requires WellFormed(w) && s < |w.slots|
    ensures var slot := AddTimer(w, delayMs).slots[s];
            Sorted(slot) && forall k | 0 <= k < |slot| :: slot[k].id < w.nextId + 1 && slot[k].exp % |w.slots| == s
  {
  }

  lemma AddKeepsWellFormed(w: Wheel, delayMs: uint64)
    requires WellFormed(w)
    ensures WellFormed(AddTimer(w, delayMs))
  {
    AddKeepsUniqueIds(w, delayMs);
    forall s | 0 <= s < |w.slots|
      ensures var slot := AddTimer(w, delayMs).slots[s];
              Sorted(slot) && forall k | 0 <= k < |slot| :: slot[k].id < w.nextId + 1 && slot[k].exp % |w.slots| == s
    {
      AddKeepsSlots(w, delayMs, s);
    }
    hide ExpireTick, Sorted;
  }

  lemma CancelKeepsWellFormed(w: Wheel, id: nat)
    requires WellFormed(w)
    ensures WellFormed(CancelTimer(w, id))
  {
    var w' := CancelTimer(w, id);
    forall e, e' | w'.Has(e) && w'.Has(e') && e.id == e'.id
      ensures e == e'
    {
      HasAfterCancel(w, id, e);
      HasAfterCancel(w, id, e');
    }
  }

  lemma SweepKeepsWellFormed(w: Wheel)
    requires WellFormed(w)
    ensures WellFormed(Swept(w))
  {
    var w' := Swept(w);
    var s := w.currentTick % |w.slots|;
    KeptIsSorted(w.slots[s], w.currentTick);
    forall k | 0 <= k < |w'.slots[s]|
      ensures w'.slots[s][k] in w.slots[s]
    {
      InKept(w.slots[s], w.currentTick, w'.slots[s][k]);
    }
    forall e | w'.Has(e)
      ensures w.Has(e)
    {
      HasAfterSweep(w, e);
    }
  }

  lemma TickCountKeepsWellFormed(w: Wheel, t: nat)
    requires WellFormed(w)
    ensures WellFormed(w.(currentTick := t))
  {
  }

  // ---- The reference: a set of deadlines ----

  datatype Firing = Firing(id: nat, tick: nat)

  /**
   `deadline` is the tick given to each id when it was added, for good; `cancelled` are the ids
   cancelled while they were pending; `log` is everything that fired.
   */
  datatype Deadlines = Deadlines(
    tickMs: nat, numSlots: nat, currentTick: nat, nextId: nat,
    deadline: map<nat, nat>, pending: set<nat>, cancelled: set<nat>, log: seq<Firing>)
  {
    predicate Valid() {
      tickMs > 0 && numSlots > 0
    }
  }

  /** `from` is the next tick that sweeps a slot: the current one, or in a callback the one after it. */
  function RefDo(d: Deadlines, a: Action, from: nat): (r: Deadlines)
    requires d.Valid()
    ensures r.Valid() && r.currentTick == d.currentTick && r.log == d.log
    ensures r.tickMs == d.tickMs && r.numSlots == d.numSlots
  {
    match a
    case Add(delayMs) =>
      var t := FireTick(ExpireTick(d.currentTick, delayMs, d.tickMs), from, d.numSlots);
      d.(nextId := d.nextId + 1, deadline := d.deadline[d.nextId := t], pending := d.pending + {d.nextId})
    case Cancel(id) =>
      if id in d.pending then d.(pending := d.pending - {id}, cancelled := d.cancelled + {id}) else d
  }

  function RefDoAll(d: Deadlines, acts: seq<Action>, from: nat): (r: Deadlines)
    requires d.Valid()
    ensures r.Valid() && r.currentTick == d.currentTick && r.log == d.log
    ensures r.tickMs == d.tickMs && r.numSlots == d.numSlots
    decreases |acts|
  {
    if acts == [] then d else RefDoAll(RefDo(d, acts[0], from), acts[1..], from)
  }

  function RefFireAll<C>(d: Deadlines, c: C, ids: seq<nat>, cb: Callback<C>): (r: (Deadlines, C))
    requires d.Valid()
    ensures r.0.Valid() && r.0.currentTick == d.currentTick && r.0.log == d.log
    ensures r.0.tickMs == d.tickMs && r.0.numSlots == d.numSlots
    decreases |ids|
  {
    if ids == [] then (d, c)
    else
      var (c', acts) := cb(c, ids[0], d.nextId);
      RefFireAll(RefDoAll(d, acts, d.currentTick + 1), c', ids[1..], cb)
  }

  predicate Due(d: Deadlines, id: nat) {
    id in d.pending && id in d.deadline && d.deadline[id] == d.currentTick
  }

  /** The due ids below `n`, in order of addition. */
  function DueBelow(d: Deadlines, n: nat): seq<nat> {
    if n == 0 then [] else DueBelow(d, n - 1) + (if Due(d, n - 1) then [n - 1] else [])
  }

  function DueIds(d: Deadlines): seq<nat> {
    DueBelow(d, d.nextId)
  }

  function Firings(ids: seq<nat>, t: nat): seq<Firing> {
    seq(|ids|, i requires 0 <= i < |ids| => Firing(ids[i], t))
  }

  /** All that is due leaves the set and is logged, then the callbacks run. */
  function TakeDue(d: Deadlines): Deadlines {
    d.(pending := (set id | id in d.pending && !Due(d, id)), log := d.log + Firings(DueIds(d), d.currentTick))
  }

  function RefTick<C>(d: Deadlines, c: C, cb: Callback<C>): (r: (Deadlines, C))
    requires d.Valid()
    ensures r.0.Valid() && r.0.tickMs == d.tickMs && r.0.numSlots == d.numSlots
    ensures r.0.currentTick == d.currentTick + 1
  {
    var (d', c') := RefFireAll(TakeDue(d), c, DueIds(d), cb);
    (d'.(currentTick := d.currentTick + 1), c')
  }

  // ---- Refinement ----

  /** The live entries of the wheel are the pending ids, and each fires at its deadline. */
  ghost predicate Refines(w: Wheel, d: Deadlines, from: nat) {
    && WellFormed(w)
    && d.Valid()
    && w.tickMs == d.tickMs && |w.slots| == d.numSlots
    && w.currentTick == d.currentTick && w.nextId == d.nextId
    && (forall e | w.Has(e) && !e.canceled ::
          e.id in d.pending && e.id in d.deadline && d.deadline[e.id] == FireTick(e.exp, from, d.numSlots))
    && (forall id | id in d.pending :: exists exp: nat :: w.Has(Entry(id, exp, false)))
  }

  lemma RefinesAdd(w: Wheel, d: Deadlines, from: nat, delayMs: uint64)
    requires Refines(w, d, from)
    ensures Refines(AddTimer(w, delayMs), RefDo(d, Add(delayMs), from), from)
  {
    var w' := AddTimer(w, delayMs);
    var d' := RefDo(d, Add(delayMs), from);
    var exp := ExpireTick(w.currentTick, delayMs, w.tickMs);
    AddKeepsWellFormed(w, delayMs);
    forall e | w'.Has(e) && !e.canceled
      ensures e.id in d'.pending && e.id in d'.deadline && d'.deadline[e.id] == FireTick(e.exp, from, d.numSlots)
    {
      HasAfterAdd(w, delayMs, e);
    }
    forall id | id in d'.pending
      ensures exists exp: nat :: w'.Has(Entry(id, exp, false))
    {
      if id in d.pending {
        var x: nat :| w.Has(Entry(id, x, false));
        HasAfterAdd(w, delayMs, Entry(id, x, false));
      } else {
        HasAfterAdd(w, delayMs, Entry(id, exp, false));
      }
    }
  }

  lemma CancelKeepsShape(w: Wheel, id: nat)
    ensures var r := CancelTimer(w, id);
            && |r.slots| == |w.slots| && r.tickMs == w.tickMs
            && r.currentTick == w.currentTick && r.nextId == w.nextId
  {
  }

  lemma RefinesCancel(w: Wheel, d: Deadlines, from: nat, id: nat)
    requires Refines(w, d, from)
    ensures Refines(CancelTimer(w, id), RefDo(d, Cancel(id), from), from)
  {
    var w' := CancelTimer(w, id);
    var d' := RefDo(d, Cancel(id), from);
    CancelKeepsWellFormed(w, id);
    CancelKeepsShape(w, id);
    hide CancelTimer, FireTick, WellFormed;
    forall e | w'.Has(e) && !e.canceled
      ensures e.id in d'.pending && e.id in d'.deadline && d'.deadline[e.id] == FireTick(e.exp, from, d.numSlots)
    {
      HasAfterCancel(w, id, e);
    }
    forall i | i in d'.pending
      ensures exists exp: nat :: w'.Has(Entry(i, exp, false))
    {
      var x: nat :| w.Has(Entry(i, x, false));
      HasAfterCancel(w, id, Entry(i, x, false));
    }
  }

  lemma RefinesDo(w: Wheel, d: Deadlines, from: nat, a: Action)
    requires Refines(w, d, from)
    ensures Refines(Do(w, a), RefDo(d, a, from), from)
  {
    match a
    case Add(delayMs) => RefinesAdd(w, d, from, delayMs);
    case Cancel(id) => RefinesCancel(w, d, from, id);
  }

  lemma {:induction false} RefinesDoAll(w: Wheel, d: Deadlines, from: nat, acts: seq<Action>)
    requires Refines(w, d, from)
    ensures Refines(DoAll(w, acts), RefDoAll(d, acts, from), from)
    decreases |acts|
  {
    RefinesSameIds(w, d, from);
    hide Refines;
    if acts != [] {
      RefinesDo(w, d, from, acts[0]);
      RefinesDoAll(Do(w, acts[0]), RefDo(d, acts[0], from), from, acts[1..]);
    }
  }

  lemma RefinesSameIds(w: Wheel, d: Deadlines, from: nat)
    requires Refines(w, d, from)
    ensures w.Valid() && d.Valid() && w.nextId == d.nextId && w.currentTick == d.currentTick
  {
  }

  lemma {:induction false} RefinesFireAll<C>(w: Wheel, d: Deadlines, c: C, ids: seq<nat>, cb: Callback<C>)
    requires Refines(w, d, d.currentTick + 1)
    ensures Refines(FireAll(w, c, ids, cb).0, RefFireAll(d, c, ids, cb).0, d.currentTick + 1)
    ensures FireAll(w, c, ids, cb).1 == RefFireAll(d, c, ids, cb).1
    decreases |ids|
  {
    hide Refines;
    if ids != [] {
      RefinesSameIds(w, d, d.currentTick + 1);
      var (c', acts) := cb(c, ids[0], w.nextId);
      RefinesDoAll(w, d, d.currentTick + 1, acts);
      RefinesFireAll(DoAll(w, acts), RefDoAll(d, acts, d.currentTick + 1), c', ids[1..], cb);
    }
  }

  predicate Increasing(s: seq<nat>) {
    forall i, j | 0 <= i < j < |s| :: s[i] < s[j]
  }

  lemma IncreasingConcat(a: seq<nat>, b: seq<nat>)
    requires Increasing(a) && Increasing(b) && forall x, y | x in a && y in b :: x < y
    ensures Increasing(a + b)
  {
    forall i, j | 0 <= i < j < |a + b|
      ensures (a + b)[i] < (a + b)[j]
    {
      if i < |a| <= j {
        assert a[i] in a && b[j - |a|] in b;
      }
    }
  }

  lemma {:induction false} SortedSetsAreEqual(a: seq<nat>, b: seq<nat>)
    requires Increasing(a) && Increasing(b) && forall x: nat :: x in a <==> x in b
    ensures a == b
    decreases |a|
  {
    assert b == [] || b[0] in b;
    if a != [] {
      assert a[0] in b;
      assert b[0] in a;
      forall x: nat
        ensures x in a[1..] <==> x in b[1..]
      {
        assert x in a <==> x == a[0] || x in a[1..];
        assert x in b <==> x == b[0] || x in b[1..];
      }
      SortedSetsAreEqual(a[1..], b[1..]);
    }
  }

  lemma {:induction false} DueBelowIsSorted(d: Deadlines, n: nat)
    ensures Increasing(DueBelow(d, n))
    ensures forall x: nat :: x in DueBelow(d, n) <==> x < n && Due(d, x)
    decreases n
  {
    if n > 0 {
      DueBelowIsSorted(d, n - 1);
      if Due(d, n - 1) {
        IncreasingConcat(DueBelow(d, n - 1), [n - 1]);
      }
    }
  }

  lemma {:induction false} ToFireIsSorted(slot: seq<Entry>, t: nat)
    requires Sorted(slot)
    ensures Increasing(ToFire(slot, t))
    ensures forall x: nat :: x in ToFire(slot, t) <==> exists e :: e in slot && e.id == x && !e.canceled && e.exp <= t
    decreases |slot|
  {
    if slot != [] {
      ToFireIsSorted(slot[1..], t);
      assert forall e :: e in slot <==> e == slot[0] || e in slot[1..];
      forall e | e in slot[1..]
        ensures slot[0].id < e.id
      {
        var k :| 0 <= k < |slot[1..]| && slot[1..][k] == e;
        assert slot[k + 1] == e;
      }
      if ToFire(slot, t) != ToFire(slot[1..], t) {
        IncreasingConcat([slot[0].id], ToFire(slot[1..], t));
      }
    }
  }

  /** A live entry is swept out in the current tick exactly if its deadline is the current tick. */
  lemma SweptIffDue(w: Wheel, d: Deadlines, e: Entry)
    requires Refines(w, d, d.currentTick) && w.Has(e) && !e.canceled
    ensures Due(d, e.id) <==> e.exp % |w.slots| == w.currentTick % |w.slots| && e.exp <= w.currentTick
  {
    FireTickIsFirst(e.exp, d.currentTick, d.numSlots);
    if e.exp % |w.slots| == w.currentTick % |w.slots| && e.exp < w.currentTick {
      ModSame(e.exp, d.currentTick, d.numSlots);
    }
  }

  /** Waiting past a tick that does not fire an entry does not move its fire tick. */
  lemma FireTickStays(exp: nat, t: nat, numSlots: nat)
    requires numSlots > 0 && FireTick(exp, t, numSlots) != t
    ensures FireTick(exp, t + 1, numSlots) == FireTick(exp, t, numSlots)
  {
    FireTickIsFirst(exp, t, numSlots);
    FireTickIsFirst(exp, t + 1, numSlots);
  }

  lemma SweptIsDue(w: Wheel, d: Deadlines)
    requires Refines(w, d, d.currentTick)
    ensures SweptIds(w) == DueIds(d)
  {
    var s := w.currentTick % |w.slots|;
    var slot := w.slots[s];
    ToFireIsSorted(slot, w.currentTick);
    DueBelowIsSorted(d, d.nextId);
    forall x: nat
      ensures x in SweptIds(w) <==> x in DueIds(d)
    {
      if x in SweptIds(w) {
        var e :| e in slot && e.id == x && !e.canceled && e.exp <= w.currentTick;
        SweptIffDue(w, d, e);
      }
      if x in DueIds(d) {
        var exp: nat :| w.Has(Entry(x, exp, false));
        SweptIffDue(w, d, Entry(x, exp, false));
      }
    }
    SortedSetsAreEqual(SweptIds(w), DueIds(d));
  }

  lemma RefinesSweep(w: Wheel, d: Deadlines)
    requires Refines(w, d, d.currentTick)
    ensures Refines(Swept(w), TakeDue(d), d.currentTick + 1)
  {
    var w' := Swept(w);
    var d' := TakeDue(d);
    SweepKeepsWellFormed(w);
    forall e | w'.Has(e) && !e.canceled
      ensures e.id in d'.pending && e.id in d'.deadline
           && d'.deadline[e.id] == FireTick(e.exp, d.currentTick + 1, d.numSlots)
    {
      HasAfterSweep(w, e);
      SweptIffDue(w, d, e);
      FireTickStays(e.exp, d.currentTick, d.numSlots);
    }
    forall id | id in d'.pending
      ensures exists exp: nat :: w'.Has(Entry(id, exp, false))
    {
      var exp: nat :| w.Has(Entry(id, exp, false));
      HasAfterSweep(w, Entry(id, exp, false));
      SweptIffDue(w, d, Entry(id, exp, false));
    }
  }

  /** A turn of the wheel fires what is due, in order of addition, and ends in agreement again. */
  lemma RefinesTick<C>(w: Wheel, d: Deadlines, c: C, cb: Callback<C>)
    requires Refines(w, d, d.currentTick)
    ensures w.Valid() && d.Valid()
    ensures Refines(Tick(w, c, cb).0, RefTick(d, c, cb).0, d.currentTick + 1)
    ensures Tick(w, c, cb).1 == RefTick(d, c, cb).1
    ensures Tick(w, c, cb).2 == DueIds(d) && w.currentTick == d.currentTick
    ensures RefTick(d, c, cb).0.log == d.log + Firings(DueIds(d), d.currentTick)
  {
    hide *;
    RefinesSameIds(w, d, d.currentTick);
    TickParts(w, c, cb);
    RefTickParts(d, c, cb);
    SweptIsDue(w, d);
    RefinesSweep(w, d);
    RefinesFireAll(Swept(w), TakeDue(d), c, SweptIds(w), cb);
    RefinesNextTick(FireAll(Swept(w), c, SweptIds(w), cb).0, RefFireAll(TakeDue(d), c, DueIds(d), cb).0);
  }

  lemma TickParts<C>(w: Wheel, c: C, cb: Callback<C>)
    requires w.Valid()
    ensures Swept(w).Valid()
    ensures Tick(w, c, cb).0 == FireAll(Swept(w), c, SweptIds(w), cb).0.(currentTick := w.currentTick + 1)
    ensures Tick(w, c, cb).1 == FireAll(Swept(w), c, SweptIds(w), cb).1
    ensures Tick(w, c, cb).2 == SweptIds(w)
  {
  }

  lemma RefTickParts<C>(d: Deadlines, c: C, cb: Callback<C>)
    requires d.Valid()
    ensures TakeDue(d).Valid() && TakeDue(d).currentTick == d.currentTick
    ensures RefTick(d, c, cb).0 == RefFireAll(TakeDue(d), c, DueIds(d), cb).0.(currentTick := d.currentTick + 1)
    ensures RefTick(d, c, cb).1 == RefFireAll(TakeDue(d), c, DueIds(d), cb).1
    ensures RefTick(d, c, cb).0.log == d.log + Firings(DueIds(d), d.currentTick)
  {
  }

  lemma RefinesNextTick(w: Wheel, d: Deadlines)
    requires Refines(w, d, d.currentTick + 1)
    ensures Refines(w.(currentTick := d.currentTick + 1), d.(currentTick := d.currentTick + 1), d.currentTick + 1)
  {
  }

  // ---- Whole runs ----

  /** What happens to a wheel from outside: a turn, or an addition or cancellation between turns. */
  datatype Event = Turn | Outside(a: Action)

  datatype WheelRun<C> = WheelRun(w: Wheel, c: C, log: seq<Firing>)

  function RunWheel<C>(w: Wheel, c: C, events: seq<Event>, cb: Callback<C>): (r: WheelRun<C>)
    requires w.Valid()
    ensures r.w.Valid()
    decreases |events|
  {
    if events == [] then WheelRun(w, c, [])
    else
      var before := RunWheel(w, c, events[..|events| - 1], cb);
      match events[|events| - 1]
      case Turn =>
        var (w', c', ids) := Tick(before.w, before.c, cb);
        WheelRun(w', c', before.log + Firings(ids, before.w.currentTick))
      case Outside(a) => before.(w := Do(before.w, a))
  }

  function RunRef<C>(d: Deadlines, c: C, events: seq<Event>, cb: Callback<C>): (r: (Deadlines, C))
    requires d.Valid()
    ensures r.0.Valid() && r.0.tickMs == d.tickMs && r.0.numSlots == d.numSlots
    decreases |events|
  {
    if events == [] then (d, c)
    else
      var (d', c') := RunRef(d, c, events[..|events| - 1], cb);
      match events[|events| - 1]
      case Turn => RefTick(d', c', cb)
      case Outside(a) => (RefDo(d', a, d'.currentTick), c')
  }

  function NewWheel(numSlots: nat, tickMs: nat): Wheel {
    Wheel(tickMs, 0, 0, seq(numSlots, _ => []))
  }

  function NewDeadlines(numSlots: nat, tickMs: nat): Deadlines {
    Deadlines(tickMs, numSlots, 0, 0, map[], {}, {}, [])
  }

  /** The wheel and the set of deadlines cannot be told apart: same firings, same client state, on every run. */
  lemma {:induction false} WheelRefinesDeadlines<C>(numSlots: nat, tickMs: nat, c: C, events: seq<Event>,
                                                    cb: Callback<C>)
    requires numSlots > 0 && tickMs > 0
    ensures (var r := RunWheel(NewWheel(numSlots, tickMs), c, events, cb);
             var (d, rc) := RunRef(NewDeadlines(numSlots, tickMs), c, events, cb);
             Refines(r.w, d, d.currentTick) && r.c == rc && r.log == d.log)
    decreases |events|
  {
    if events == [] {
      NewRefines(numSlots, tickMs);
    } else {
      hide Refines, Tick, RefTick, Do, RefDo, FireTick;
      var prefix := events[..|events| - 1];
      WheelRefinesDeadlines(numSlots, tickMs, c, prefix, cb);
      var r := RunWheel(NewWheel(numSlots, tickMs), c, prefix, cb);
      var (d, rc) := RunRef(NewDeadlines(numSlots, tickMs), c, prefix, cb);
      match events[|events| - 1] {
        case Turn => RefinesTick(r.w, d, r.c, cb);
        case Outside(a) => RefinesDo(r.w, d, d.currentTick, a);
      }
    }
  }

  lemma NewRefines(numSlots: nat, tickMs: nat)
    requires numSlots > 0 && tickMs > 0
    ensures Refines(NewWheel(numSlots, tickMs), NewDeadlines(numSlots, tickMs), 0)
  {
  }

  // ---- What the deadlines promise ----

  predicate Logged(d: Deadlines, id: nat) {
    exists i :: 0 <= i < |d.log| && d.log[i].id == id
  }

  predicate Before(a: Firing, b: Firing) {
    a.tick < b.tick || (a.tick == b.tick && a.id < b.id)
  }

  /** What fired did so in the tick of its deadline, in order of tick and then of addition (so each once). */
  predicate LogOk(d: Deadlines, from: nat) {
    && (forall i | 0 <= i < |d.log| ::
          && d.log[i].id < d.nextId && d.log[i].id in d.deadline
          && d.log[i].tick == d.deadline[d.log[i].id] && d.log[i].tick < from)
    && (forall i, j | 0 <= i < j < |d.log| :: Before(d.log[i], d.log[j]))
  }

  /**
   Every id issued is pending, cancelled or fired, and only one of them; what is pending is due at
   `from` or later.
   */
  ghost predicate Inv(d: Deadlines, from: nat) {
    && d.Valid()
    && (forall id: nat :: id in d.deadline <==> id < d.nextId)
    && (forall id | id in d.pending :: id < d.nextId && d.deadline[id] >= from && id !in d.cancelled && !Logged(d, id))
    && (forall id | id in d.cancelled :: id < d.nextId && !Logged(d, id))
    && (forall id: nat | id < d.nextId :: id in d.pending || id in d.cancelled || Logged(d, id))
    && LogOk(d, from)
  }

  lemma InvDo(d: Deadlines, a: Action, from: nat)
    requires Inv(d, from)
    ensures Inv(RefDo(d, a, from), from)
    ensures forall id | id in d.deadline ::
              id in RefDo(d, a, from).deadline && RefDo(d, a, from).deadline[id] == d.deadline[id]
  {
  }

  lemma {:induction false} InvDoAll(d: Deadlines, acts: seq<Action>, from: nat)
    requires Inv(d, from)
    ensures Inv(RefDoAll(d, acts, from), from)
    ensures KeepsDeadlines(d, RefDoAll(d, acts, from))
    decreases |acts|
  {
    if acts != [] {
      InvDo(d, acts[0], from);
      InvDoAll(RefDo(d, acts[0], from), acts[1..], from);
    }
  }

  /** Deadlines once given never change, and what fired stays in the log. */
  ghost predicate KeepsDeadlines(d: Deadlines, d': Deadlines) {
    && (forall id | id in d.deadline :: id in d'.deadline && d'.deadline[id] == d.deadline[id])
    && d.cancelled <= d'.cancelled
    && d.log <= d'.log
  }

  lemma KeepsDeadlinesTwice(a: Deadlines, b: Deadlines, c: Deadlines)
    requires KeepsDeadlines(a, b) && KeepsDeadlines(b, c)
    ensures KeepsDeadlines(a, c)
  {
  }

  lemma {:induction false} InvFireAll<C>(d: Deadlines, c: C, ids: seq<nat>, cb: Callback<C>)
    requires Inv(d, d.currentTick + 1)
    ensures Inv(RefFireAll(d, c, ids, cb).0, d.currentTick + 1)
    ensures KeepsDeadlines(d, RefFireAll(d, c, ids, cb).0)
    decreases |ids|
  {
    assert d.Valid();
    if ids != [] {
      hide Inv, KeepsDeadlines;
      var (c', acts) := cb(c, ids[0], d.nextId);
      var d1 := RefDoAll(d, acts, d.currentTick + 1);
      InvDoAll(d, acts, d.currentTick + 1);
      InvFireAll(d1, c', ids[1..], cb);
      KeepsDeadlinesTwice(d, d1, RefFireAll(d, c, ids, cb).0);
    }
  }

  lemma LoggedAfterTakeDue(d: Deadlines, id: nat)
    ensures Logged(TakeDue(d), id) <==> Logged(d, id) || id in DueIds(d)
  {
    var d' := TakeDue(d);
    var n := |d.log|;
    if Logged(d, id) {
      var i :| 0 <= i < n && d.log[i].id == id;
      assert d'.log[i].id == id;
    }
    if id in DueIds(d) {
      var i :| 0 <= i < |DueIds(d)| && DueIds(d)[i] == id;
      assert d'.log[n + i].id == id;
    }
  }

  lemma LogAfterTakeDue(d: Deadlines)
    requires LogOk(d, d.currentTick)
    ensures LogOk(TakeDue(d), d.currentTick + 1)
  {
    var d' := TakeDue(d);
    var due := DueIds(d);
    var n := |d.log|;
    DueBelowIsSorted(d, d.nextId);
    assert forall i | 0 <= i < n :: d'.log[i] == d.log[i];
    assert forall i | n <= i < |d'.log| :: d'.log[i] == Firing(due[i - n], d.currentTick) && due[i - n] in due;
  }

  lemma InvTakeDue(d: Deadlines)
    requires Inv(d, d.currentTick)
    ensures Inv(TakeDue(d), d.currentTick + 1)
  {
    var d' := TakeDue(d);
    DueBelowIsSorted(d, d.nextId);
    LogAfterTakeDue(d);
    forall id: nat
      ensures Logged(d', id) <==> Logged(d, id) || id in DueIds(d)
    {
      LoggedAfterTakeDue(d, id);
    }
    hide DueIds, Logged;
  }

  lemma InvTick<C>(d: Deadlines, c: C, cb: Callback<C>)
    requires Inv(d, d.currentTick)
    ensures Inv(RefTick(d, c, cb).0, d.currentTick + 1)
    ensures KeepsDeadlines(d, RefTick(d, c, cb).0)
  {
    InvTakeDue(d);
    InvFireAll(TakeDue(d), c, DueIds(d), cb);
    var d1 := RefFireAll(TakeDue(d), c, DueIds(d), cb).0;
    var d2 := d1.(currentTick := d.currentTick + 1);
    assert forall id: nat :: Logged(d1, id) <==> Logged(d2, id);
  }

  lemma {:induction false} InvRun<C>(d: Deadlines, c: C, events: seq<Event>, cb: Callback<C>)
    requires Inv(d, d.currentTick)
    ensures var d' := RunRef(d, c, events, cb).0; Inv(d', d'.currentTick) && KeepsDeadlines(d, d')
    decreases |events|
  {
    if events != [] {
      InvRun(d, c, events[..|events| - 1], cb);
      var (d', c') := RunRef(d, c, events[..|events| - 1], cb);
      match events[|events| - 1]
      case Turn => InvTick(d', c', cb);
      case Outside(a) => InvDo(d', a, d'.currentTick);
    }
  }

  /**
   The promise of the wheel, on every run from a new wheel with any callbacks: the log of the wheel is
   ordered by tick and then by order of addition; an id is in it at most once and only in the tick of
   its deadline; and once that tick is over, it is in it unless it was cancelled before the tick began.
   */
  lemma FiresExactlyOnce<C>(numSlots: nat, tickMs: nat, c: C, events: seq<Event>, cb: Callback<C>)
    requires numSlots > 0 && tickMs > 0
    ensures var r := RunWheel(NewWheel(numSlots, tickMs), c, events, cb);
            var d := RunRef(NewDeadlines(numSlots, tickMs), c, events, cb).0;
            && (forall i, j | 0 <= i < j < |r.log| :: Before(r.log[i], r.log[j]) && r.log[i].id != r.log[j].id)
            && (forall i | 0 <= i < |r.log| :: r.log[i].id in d.deadline && r.log[i].tick == d.deadline[r.log[i].id])
            && (forall id | id in d.deadline && d.deadline[id] < r.w.currentTick ::
                  Firing(id, d.deadline[id]) in r.log <==> id !in d.cancelled)
  {
    WheelRefinesDeadlines(numSlots, tickMs, c, events, cb);
    InvRun(NewDeadlines(numSlots, tickMs), c, events, cb);
  }

  lemma PlainDeadline(d: Deadlines, delayMs: uint64, inCallback: bool)
    requires d.Valid()
    requires delayMs + d.tickMs - 1 < TWO_64
    requires d.currentTick + Ceil(delayMs, d.tickMs) < TWO_64
    ensures RefDo(d, Add(delayMs), if inCallback then d.currentTick + 1 else d.currentTick).deadline[d.nextId]
         == if inCallback && delayMs == 0 then d.currentTick + d.numSlots
            else d.currentTick + Ceil(delayMs, d.tickMs)
  {
    CeilIsTicks(delayMs, d.tickMs);
    if delayMs == 0 {
      var n := d.numSlots;
      QuotientUnique(-1, n, -1, n - 1);
    } else {
      CeilIsPositive(delayMs, d.tickMs);
    }
  }

  /** The delay in whole ticks, rounded up. */
  function Ceil(delayMs: nat, tickMs: nat): nat
    requires tickMs > 0
  {
    if delayMs % tickMs == 0 then delayMs / tickMs else delayMs / tickMs + 1
  }

  lemma CeilIsTicks(delayMs: uint64, tickMs: nat)
    requires tickMs > 0 && delayMs + tickMs - 1 < TWO_64
    ensures Ticks(delayMs, tickMs) == Ceil(delayMs, tickMs)
  {
    var q, r := delayMs / tickMs, delayMs % tickMs;
    assert delayMs == q * tickMs + r;
    if r == 0 {
      QuotientUnique(delayMs + tickMs - 1, tickMs, q, tickMs - 1);
    } else {
      assert (q + 1) * tickMs == q * tickMs + tickMs;
      QuotientUnique(delayMs + tickMs - 1, tickMs, q + 1, r - 1);
    }
  }

  lemma CeilIsPositive(delayMs: nat, tickMs: nat)
    requires tickMs > 0 && delayMs > 0
    ensures Ceil(delayMs, tickMs) > 0
  {
  }

  /** A timer is due at once if its delay is 0, or if the 64-bit sum wraps. */
  lemma DueAtOnceIff(delayMs: uint64, tickMs: nat)
    requires 0 < tickMs < TWO_64
    ensures Ticks(delayMs, tickMs) == 0 <==> delayMs == 0 || delayMs + tickMs - 1 >= TWO_64
  {
  }

  lemma WrappingDeadline(d: Deadlines, delayMs: uint64, inCallback: bool)
    requires d.Valid() && d.tickMs < TWO_64 && d.currentTick < TWO_64
    ensures var from := if inCallback then d.currentTick + 1 else d.currentTick;
            var deadline := RefDo(d, Add(delayMs), from).deadline[d.nextId];
            && (delayMs + d.tickMs - 1 >= TWO_64 ==>
                  deadline == if inCallback then d.currentTick + d.numSlots else d.currentTick)
            && (delayMs + d.tickMs - 1 < TWO_64 <= d.currentTick + Ceil(delayMs, d.tickMs) ==>
                  from <= deadline < from + d.numSlots)
  {
    DueAtOnceIff(delayMs, d.tickMs);
    if delayMs + d.tickMs - 1 >= TWO_64 {
      QuotientUnique(-1, d.numSlots, -1, d.numSlots - 1);
    } else {
      CeilIsTicks(delayMs, d.tickMs);
      CeilBound(delayMs, d.tickMs);
    }
  }

  /** The delay in ticks that the code comes to: rounded up, or none if rounding up wraps 64 bits. */
  function DelayTicks(delayMs: uint64, tickMs: nat): nat
    requires tickMs > 0
  {
    if delayMs + tickMs - 1 < TWO_64 then Ceil(delayMs, tickMs) else 0
  }

  /**
   The deadline of a timer: the current tick plus the delay in ticks. A delay of no ticks given in a
   callback comes round once more, and an expiration past the last of 2^64 ticks comes within a round.
   */
  lemma DeadlineOfAdd(d: Deadlines, delayMs: uint64, inCallback: bool)
    requires d.Valid() && d.tickMs < TWO_64 && d.currentTick < TWO_64
    ensures var from := if inCallback then d.currentTick + 1 else d.currentTick;
            var deadline := RefDo(d, Add(delayMs), from).deadline[d.nextId];
            var ticks := DelayTicks(delayMs, d.tickMs);
            if d.currentTick + ticks >= TWO_64 then from <= deadline < from + d.numSlots
            else deadline == d.currentTick + if inCallback && ticks == 0 then d.numSlots else ticks
  {
    if d.currentTick + DelayTicks(delayMs, d.tickMs) < TWO_64 && delayMs + d.tickMs - 1 < TWO_64 {
      PlainDeadline(d, delayMs, inCallback);
      if delayMs > 0 {
        CeilIsPositive(delayMs, d.tickMs);
      }
    } else {
      WrappingDeadline(d, delayMs, inCallback);
    }
  }

  lemma CeilBound(delayMs: nat, tickMs: nat)
    requires tickMs > 0
    ensures Ceil(delayMs, tickMs) <= delayMs
  {
    ScaledUp(delayMs / tickMs, tickMs);
  }

  lemma ScaledUp(q: nat, m: nat)
    requires m > 0
    ensures q * m >= q
  {
  }

  // ---- Which timers are cancelled ----

  /** A timer that has been issued and not fired, once cancelled by any of some actions, has left the set for good. */
  lemma {:induction false} ActsCancel(d: Deadlines, acts: seq<Action>, from: nat, id: nat)
    requires Inv(d, from) && id < d.nextId && !Logged(d, id) && Cancel(id) in acts
    ensures d.Valid() && id in RefDoAll(d, acts, from).cancelled
    decreases |acts|
  {
    assert d.Valid();
    var d1 := RefDo(d, acts[0], from);
    InvDo(d, acts[0], from);
    InvDoAll(d1, acts[1..], from);
    if acts[0] != Cancel(id) {
      assert Logged(d1, id) <==> Logged(d, id);
      ActsCancel(d1, acts[1..], from, id);
    }
  }

  /** On every run, a timer cancelled between turns before it has fired never fires, whatever comes later. */
  lemma CancelPrevents<C>(numSlots: nat, tickMs: nat, c: C, events: seq<Event>, id: nat, later: seq<Event>,
                          cb: Callback<C>)
    requires numSlots > 0 && tickMs > 0
    ensures var before := RunWheel(NewWheel(numSlots, tickMs), c, events, cb);
            var after := RunWheel(NewWheel(numSlots, tickMs), c, events + [Outside(Cancel(id))] + later, cb);
            id < before.w.nextId && (forall i | 0 <= i < |before.log| :: before.log[i].id != id) ==>
              forall i | 0 <= i < |after.log| :: after.log[i].id != id
  {
    var d0 := NewDeadlines(numSlots, tickMs);
    var cancel := events + [Outside(Cancel(id))];
    WheelRefinesDeadlines(numSlots, tickMs, c, events, cb);
    WheelRefinesDeadlines(numSlots, tickMs, c, cancel + later, cb);
    var r := RunRef(d0, c, events, cb);
    InvRun(d0, c, events, cb);
    InvRun(d0, c, cancel + later, cb);
    RunRefOfConcat(d0, c, cancel, later, cb);
    assert cancel[..|events|] == events;
    RefinesSameIds(RunWheel(NewWheel(numSlots, tickMs), c, events, cb).w, r.0, r.0.currentTick);
    if id < r.0.nextId && !Logged(r.0, id) {
      ActsCancel(r.0, [Cancel(id)], r.0.currentTick, id);
      assert [Cancel(id)][1..] == [];
      var s := RunRef(d0, c, cancel, cb);
      assert id in s.0.cancelled;
      InvRun(d0, c, cancel, cb);
      InvRun(s.0, s.1, later, cb);
    }
    hide RunRef, RunWheel, Inv, Refines;
  }

  lemma {:induction false} RunRefOfConcat<C>(d: Deadlines, c: C, a: seq<Event>, b: seq<Event>, cb: Callback<C>)
    requires d.Valid()
    ensures var r := RunRef(d, c, a, cb); RunRef(d, c, a + b, cb) == RunRef(r.0, r.1, b, cb)
    decreases |b|
  {
    if b == [] {
      assert a + b == a;
    } else {
      assert (a + b)[..|a + b| - 1] == a + b[..|b| - 1];
      RunRefOfConcat(d, c, a, b[..|b| - 1], cb);
    }
  }

  lemma {:induction false} ActsDoNotCancel(d: Deadlines, acts: seq<Action>, from: nat, id: nat)
    requires d.Valid() && id !in d.cancelled && Cancel(id) !in acts
    ensures id !in RefDoAll(d, acts, from).cancelled
    decreases |acts|
  {
    if acts != [] {
      ActsDoNotCancel(RefDo(d, acts[0], from), acts[1..], from, id);
    }
  }

  lemma {:induction false} FiringDoesNotCancel<C>(d: Deadlines, c: C, ids: seq<nat>, cb: Callback<C>, id: nat)
    requires d.Valid() && id !in d.cancelled && forall x, i, n :: Cancel(id) !in cb(x, i, n).1
    ensures id !in RefFireAll(d, c, ids, cb).0.cancelled
    decreases |ids|
  {
    if ids != [] {
      var (c', acts) := cb(c, ids[0], d.nextId);
      ActsDoNotCancel(d, acts, d.currentTick + 1, id);
      FiringDoesNotCancel(RefDoAll(d, acts, d.currentTick + 1), c', ids[1..], cb, id);
    }
  }

  /** Only a cancellation cancels: if neither a callback nor an event names the id, it is not cancelled. */
  lemma {:induction false} OnlyCancelCancels<C>(d: Deadlines, c: C, events: seq<Event>, cb: Callback<C>, id: nat)
    requires d.Valid() && id !in d.cancelled && Outside(Cancel(id)) !in events
    requires forall x, i, n :: Cancel(id) !in cb(x, i, n).1
    ensures id !in RunRef(d, c, events, cb).0.cancelled
    decreases |events|
  {
    if events != [] {
      var init := events[..|events| - 1];
      OnlyCancelCancels(d, c, init, cb, id);
      var r := RunRef(d, c, init, cb);
      assert events[|events| - 1] in events;
      match events[|events| - 1]
      case Turn => FiringDoesNotCancel(TakeDue(r.0), r.1, DueIds(r.0), cb, id);
      case Outside(a) => ActsDoNotCancel(r.0, [a], r.0.currentTick, id);
    }
  }

  /** So a timer that nobody cancels has fired, once, in the tick of its deadline, as soon as that tick is over. */
  lemma UncancelledFires<C>(numSlots: nat, tickMs: nat, c: C, events: seq<Event>, cb: Callback<C>, id: nat)
    requires numSlots > 0 && tickMs > 0 && Outside(Cancel(id)) !in events
    requires forall x, i, n :: Cancel(id) !in cb(x, i, n).1
    ensures var r := RunWheel(NewWheel(numSlots, tickMs), c, events, cb);
            var d := RunRef(NewDeadlines(numSlots, tickMs), c, events, cb).0;
            id < r.w.nextId ==>
              id in d.deadline && (d.deadline[id] < r.w.currentTick <==> Firing(id, d.deadline[id]) in r.log)
  {
    var d0 := NewDeadlines(numSlots, tickMs);
    WheelRefinesDeadlines(numSlots, tickMs, c, events, cb);
    FiresExactlyOnce(numSlots, tickMs, c, events, cb);
    InvRun(d0, c, events, cb);
    OnlyCancelCancels(d0, c, events, cb, id);
    var r := RunWheel(NewWheel(numSlots, tickMs), c, events, cb);
    var d := RunRef(d0, c, events, cb).0;
    RefinesSameIds(r.w, d, d.currentTick);
    hide RunRef, RunWheel, Refines;
  }

  // ---- The order of the callbacks ----

  /** The same callbacks, with a record of which timers they ran for. */
  function Recorded<C>(cb: Callback<C>): Callback<(C, seq<nat>)> {
    (x: (C, seq<nat>), id: nat, next: nat) =>
      var (c', acts) := cb(x.0, id, next);
      ((c', x.1 + [id]), acts)
  }

  lemma {:induction false} FiresInOrder<C>(w: Wheel, x: (C, seq<nat>), ids: seq<nat>, cb: Callback<C>)
    requires w.Valid()
    ensures var r := FireAll(w, x, ids, Recorded(cb));
            r.1.1 == x.1 + ids && (r.0, r.1.0) == FireAll(w, x.0, ids, cb)
    decreases |ids|
  {
    if ids == [] {
      assert x.1 + [] == x.1;
    } else {
      var (c', acts) := cb(x.0, ids[0], w.nextId);
      var x' := (c', x.1 + [ids[0]]);
      assert Recorded(cb)(x, ids[0], w.nextId) == (x', acts);
      FiresInOrder(DoAll(w, acts), x', ids[1..], cb);
      assert x.1 + [ids[0]] + ids[1..] == x.1 + ids;
    }
  }

  function IdsOf(log: seq<Firing>): (r: seq<nat>)
    ensures |r| == |log|
  {
    seq(|log|, i requires 0 <= i < |log| => log[i].id)
  }

  /** On every run the callbacks run in the order of the log, each once, and recording them changes nothing. */
  lemma {:induction false} CallbacksFollowLog<C>(w: Wheel, c: C, events: seq<Event>, cb: Callback<C>)
    requires w.Valid()
    ensures var r := RunWheel(w, (c, []), events, Recorded(cb));
            var q := RunWheel(w, c, events, cb);
            r.c.1 == IdsOf(r.log) && r.w == q.w && r.c.0 == q.c && r.log == q.log
    decreases |events|
  {
    if events != [] {
      var init := events[..|events| - 1];
      CallbacksFollowLog(w, c, init, cb);
      var r := RunWheel(w, (c, []), init, Recorded(cb));
      if events[|events| - 1].Turn? {
        FiresInOrder(Swept(r.w), r.c, SweptIds(r.w), cb);
        TickParts(r.w, r.c, Recorded(cb));
        TickParts(r.w, r.c.0, cb);
        assert IdsOf(r.log + Firings(SweptIds(r.w), r.w.currentTick)) == IdsOf(r.log) + SweptIds(r.w);
      }
    }
  }
}
