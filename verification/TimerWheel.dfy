/** The timer wheel as the library keeps it, each method proved against the wheel as a value. */
module TimerWheels {
  import opened Words
  import opened Wheels

  class TimerWheel {
    const numSlots: nat
    const tickMs: nat
    var currentTick: nat
    var nextId: nat
    const slots: array<seq<Entry>>

    ghost predicate Valid()
      reads this, slots
    {
      tickMs > 0 && numSlots == slots.Length && numSlots > 0 && WellFormed(Model())
    }

    ghost function Model(): Wheel
      reads this, slots
    {
      Wheel(tickMs, currentTick, nextId, slots[..])
    }

    constructor (numSlots: nat, tickMs: nat)
      requires numSlots > 0 && tickMs > 0
      ensures Valid() && fresh(slots)
      ensures Model() == Wheel(tickMs, 0, 0, seq(numSlots, _ => []))
    {
      this.numSlots := numSlots;
      this.tickMs := tickMs;
      currentTick, nextId := 0, 0;
      slots := new seq<Entry>[numSlots](_ => []);
      new;
      assert slots[..] == seq(numSlots, _ => []);
    }

    method AddTimer(delayMs: uint64) returns (id: nat)
      requires Valid()
      modifies this`nextId, slots
      ensures Valid()
      ensures id == old(nextId) && Model() == Wheels.AddTimer(old(Model()), delayMs)
    {
      var ticks := (delayMs + tickMs - 1) % TWO_64 / tickMs;
      var expireTick := (currentTick + ticks) % TWO_64;
      var slot := expireTick % numSlots;
      id := nextId;
      nextId := nextId + 1;
      ghost var before := old(Model());
      slots[slot] := slots[slot] + [Entry(id, expireTick, false)];
      assert slots[..] == Wheels.AddTimer(before, delayMs).slots;
      AddKeepsWellFormed(before, delayMs);
    }

    method CancelTimer(timerId: nat)
      requires Valid()
      modifies slots
      ensures Valid()
      ensures Model() == Wheels.CancelTimer(old(Model()), timerId)
    {
      ghost var before := Model();
      CancelKeepsWellFormed(before, timerId);
      for s := 0 to numSlots
        invariant slots[..] == before.slots
        invariant forall i | 0 <= i < s :: AbsentIn(before.slots[i], timerId)
      {
        var slot := slots[s];
        for k := 0 to |slot|
          invariant forall j | 0 <= j < k :: slot[j].id != timerId
        {
          if slot[k].id == timerId {
            CancelOfFound(before, s, k);
            slots[s] := slot[k := slot[k].(canceled := true)];
            return;
          }
        }
      }
      CancelOfAbsent(before, timerId);
    }

    /** Takes the due entries out of the current slot and drops the cancelled ones. */
    method Sweep() returns (toFire: seq<nat>)
      requires Valid()
      modifies slots
      ensures Valid()
      ensures Model() == Swept(old(Model())) && toFire == SweptIds(old(Model()))
    {
      ghost var before := Model();
      SweepKeepsWellFormed(before);
      var slot := currentTick % numSlots;
      var keep;
      toFire, keep := Partition(slots[slot], currentTick);
      slots[slot] := keep;
      assert slots[..] == Swept(before).slots;
    }

    method RunCallbacks<C>(c: C, ids: seq<nat>, cb: Callback<C>) returns (c': C)
      requires Valid()
      modifies this`nextId, slots
      ensures Valid()
      ensures (Model(), c') == FireAll(old(Model()), c, ids, cb)
    {
      hide WellFormed;
      c' := c;
      for k := 0 to |ids|
        invariant Valid() && Model().Valid()
        invariant FireAll(old(Model()), c, ids, cb) == FireAll(Model(), c', ids[k..], cb)
      {
        var (next, acts) := cb(c', ids[k], nextId);
        RunActions(acts);
        c' := next;
      }
    }

    /** One turn: sweeps the current slot, runs the callbacks it took out, and moves on. */
    method Tick<C>(c: C, cb: Callback<C>) returns (c': C, fired: seq<nat>)
      requires Valid()
      modifies this, slots
      ensures Valid()
      ensures Model() == Wheels.Tick(old(Model()), c, cb).0
      ensures c' == Wheels.Tick(old(Model()), c, cb).1
      ensures fired == Wheels.Tick(old(Model()), c, cb).2
    {
      hide WellFormed;
      fired := Sweep();
      c' := RunCallbacks(c, fired, cb);
      TickCountKeepsWellFormed(Model(), currentTick + 1);
      currentTick := currentTick + 1;
    }

    method RunActions(acts: seq<Action>)
      requires Valid()
      modifies this`nextId, slots
      ensures Valid()
      ensures Model() == DoAll(old(Model()), acts)
    {
      for k := 0 to |acts|
        invariant Valid() && Model().Valid()
        invariant DoAll(old(Model()), acts) == DoAll(Model(), acts[k..])
      {
        match acts[k]
        case Add(delayMs) => var _ := AddTimer(delayMs);
        case Cancel(id) => CancelTimer(id);
      }
    }
  }

  method Partition(entries: seq<Entry>, t: nat) returns (toFire: seq<nat>, keep: seq<Entry>)
    ensures toFire == ToFire(entries, t) && keep == ToKeep(entries, t)
  {
    toFire, keep := [], [];
    for k := 0 to |entries|
      invariant ToFire(entries, t) == toFire + ToFire(entries[k..], t)
      invariant ToKeep(entries, t) == keep + ToKeep(entries[k..], t)
    {
      var e := entries[k];
      if !e.canceled {
        if e.exp <= t {
          toFire := toFire + [e.id];
        } else {
          keep := keep + [e];
        }
      }
    }
  }

  predicate AbsentIn(slot: seq<Entry>, id: nat) {
    forall k | 0 <= k < |slot| :: slot[k].id != id
  }

  lemma CancelOfAbsent(w: Wheel, id: nat)
    requires forall i | 0 <= i < |w.slots| :: AbsentIn(w.slots[i], id)
    ensures CancelTimer(w, id) == w
  {
    forall i | 0 <= i < |w.slots|
      ensures CancelTimer(w, id).slots[i] == w.slots[i]
    {
      assert AbsentIn(w.slots[i], id);
    }
    assert CancelTimer(w, id).slots == w.slots;
  }

  /** Ids are unique, so marking the first entry found is marking all. */
  lemma CancelOfFound(w: Wheel, s: nat, k: nat)
    requires WellFormed(w) && s < |w.slots| && k < |w.slots[s]|
    ensures CancelTimer(w, w.slots[s][k].id).slots
         == w.slots[s := w.slots[s][k := w.slots[s][k].(canceled := true)]]
  {
    var id := w.slots[s][k].id;
    OnlyEntry(w, s, k);
    forall i | 0 <= i < |w.slots| && i != s
      ensures MarkedSlot(w.slots[i], id) == w.slots[i]
    {
    }
    assert MarkedSlot(w.slots[s], id) == w.slots[s][k := w.slots[s][k].(canceled := true)];
  }
}
