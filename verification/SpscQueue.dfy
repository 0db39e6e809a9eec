/**
 The single-producer single-consumer ring. `push` and `popAll` are broken into their atomic steps
 (one load or store of an index, or one access to a slot), and the two threads are interleaved freely.
 */
module SpscRing {
  import opened Words
  import Bytes

  /** A slot that was never filled, or whose item has been moved out, holds nothing to read. */
  datatype Slot<T> = Item(value: T) | Moved

  /** Where the producer is in `push`; `freed` counts the items popped when it read `head`. */
  datatype Producer<T> =
    | NoPush
    | ReadTail(item: T, t: nat)
    | ReadHead(item: T, t: nat, h: nat, freed: nat)
    | Wrote(item: T, nt: nat)

  /** Where the consumer is in `popAll`; `seen` counts the items accepted when it read `tail`. */
  datatype Consumer<T> =
    | NoPop
    | GotHead(h: nat)
    | Copying(h: nat, t: nat, out: seq<T>, seen: nat)

  /** The shared ring, both threads, and the history: what `push` accepted and what `popAll` returned. */
  datatype Ring<T> = Ring(
    buf: seq<Slot<T>>, head: nat, tail: nat, p: Producer<T>, c: Consumer<T>,
    accepted: seq<T>, popped: seq<T>)

  /** The atomic steps; a step that is not the thread's next one does nothing. */
  datatype Step<T> =
    | LoadTailForPush(item: T)
    | LoadHeadForPush
    | RejectOrWrite
    | PublishTail
    | LoadHeadForPop
    | LoadTailForPop
    | CopyOne
    | PublishHead

  /** `(i + 1) & sizeMask_` */
  function Next(i: nat, size: nat): nat
    requires size > 0
  {
    (i + 1) % size
  }

  function Do<T>(s: Ring<T>, step: Step<T>): (r: Ring<T>)
    requires |s.buf| > 0
    ensures |r.buf| == |s.buf|
  {
    match step
    case LoadTailForPush(item) =>
      if s.p.NoPush? then s.(p := ReadTail(item, s.tail)) else s
    case LoadHeadForPush =>
      if s.p.ReadTail? then s.(p := ReadHead(s.p.item, s.p.t, s.head, |s.popped|)) else s
    case RejectOrWrite =>
      if !s.p.ReadHead? then s
      else
        var nt := Next(s.p.t, |s.buf|);
        if nt == s.p.h || s.p.t >= |s.buf| then s.(p := NoPush)
        else s.(buf := s.buf[s.p.t := Item(s.p.item)], p := Wrote(s.p.item, nt))
    case PublishTail =>
      if s.p.Wrote? then s.(tail := s.p.nt, accepted := s.accepted + [s.p.item], p := NoPush) else s
    case LoadHeadForPop =>
      if s.c.NoPop? then s.(c := GotHead(s.head)) else s
    case LoadTailForPop =>
      if s.c.GotHead? then s.(c := Copying(s.c.h, s.tail, [], |s.accepted|)) else s
    case CopyOne =>
      if s.c.Copying? && s.c.h != s.c.t && s.c.h < |s.buf| && s.buf[s.c.h].Item? then
        s.(buf := s.buf[s.c.h := Moved],
           c := s.c.(out := s.c.out + [s.buf[s.c.h].value], h := Next(s.c.h, |s.buf|)))
      else s
    case PublishHead =>
      if s.c.Copying? && s.c.h == s.c.t then s.(head := s.c.h, popped := s.popped + s.c.out, c := NoPop) else s
  }

  function Exec<T>(s: Ring<T>, steps: seq<Step<T>>): (r: Ring<T>)
    requires |s.buf| > 0
    ensures |r.buf| == |s.buf|
    decreases |steps|
  {
    if steps == [] then s else Do(Exec(s, steps[..|steps| - 1]), steps[|steps| - 1])
  }

  function Empty<T>(size: nat): Ring<T> {
    Ring(seq(size, _ => Moved), 0, 0, NoPush, NoPop, [], [])
  }

  /** Items the consumer has taken out of the ring and not returned yet. */
  function Held<T>(s: Ring<T>): seq<T> {
    if s.c.Copying? then s.c.out else []
  }

  /** How many items have left their slots. */
  function Taken<T>(s: Ring<T>): nat {
    |s.popped| + |Held(s)|
  }

  /** The items read from the slots, from where the consumer is up to `tail`. */
  function InRing<T>(s: Ring<T>, n: nat): seq<Slot<T>>
    requires |s.buf| > 0
  {
    seq(n, i requires 0 <= i < n => s.buf[(Taken(s) + i) % |s.buf|])
  }

  ghost predicate Inv<T>(s: Ring<T>) {
    && |s.buf| > 0
    && s.head == |s.popped| % |s.buf|
    && s.tail == |s.accepted| % |s.buf|
    && Taken(s) <= |s.accepted| < |s.popped| + |s.buf|
    && s.popped + Held(s) == s.accepted[..Taken(s)]
    && (forall i | Taken(s) <= i < |s.accepted| :: s.buf[i % |s.buf|] == Item(s.accepted[i]))
    && match s.p {
         case NoPush => true
         case ReadTail(_, t) => t == s.tail
         case ReadHead(_, t, h, freed) =>
           t == s.tail && freed <= |s.popped| && h == freed % |s.buf| && |s.accepted| < freed + |s.buf|
         case Wrote(item, nt) =>
           nt == (|s.accepted| + 1) % |s.buf| && |s.accepted| + 1 < |s.popped| + |s.buf| && s.buf[s.tail] == Item(item)
       }
    && match s.c {
         case NoPop => true
         case GotHead(h) => h == s.head
         case Copying(h, t, _, seen) =>
           h == Taken(s) % |s.buf| && t == seen % |s.buf| && Taken(s) <= seen <= |s.accepted|
       }
  }

  // ---- Positions on the ring ----

  lemma NextMod(a: nat, n: nat)
    requires n > 0
    ensures (a % n + 1) % n == (a + 1) % n
  {
    var q, r := a / n, a % n;
    assert a == q * n + r;
    if r + 1 < n {
      ModOf(a + 1, q, r + 1, n);
      ModOf(r + 1, 0, r + 1, n);
    } else {
      assert (q + 1) * n == q * n + n;
      ModOf(a + 1, q + 1, 0, n);
      ModOf(n, 1, 0, n);
    }
  }

  lemma ModOf(x: nat, q: nat, r: nat, n: nat)
    requires n > 0 && r < n && x == q * n + r
    ensures x % n == r
  {
    var d := x / n - q;
    assert d * n == r - x % n;
    if d != 0 {
      Scaled(d, n);
      assert false;
    }
  }

  lemma Scaled(d: int, n: int)
    requires n > 0 && d != 0
    ensures d * n >= n || d * n <= -n
  {
  }

  /** Different counts less than a round apart are in different slots. */
  lemma ApartMod(a: nat, b: nat, n: nat)
    requires n > 0 && a < b < a + n
    ensures a % n != b % n
  {
    if a % n == b % n {
      var d := b / n - a / n;
      assert d * n == b - a;
      Scaled(d, n);
      assert false;
    }
  }

  // ---- Every step keeps the invariant ----

  lemma InvWrite<T>(s: Ring<T>)
    requires Inv(s) && s.p.ReadHead?
    ensures Inv(Do(s, RejectOrWrite))
  {
    var n := |s.buf|;
    var ReadHead(item, t, h, freed) := s.p;
    NextMod(|s.accepted|, n);
    if Next(t, n) != h {
      if |s.accepted| + 1 == freed + n {
        NextRound(freed, n);
        assert false;
      }
      forall i | Taken(s) <= i < |s.accepted|
        ensures i % n != t
      {
        ApartMod(i, |s.accepted|, n);
      }
    }
  }

  lemma NextRound(a: nat, n: nat)
    requires n > 0
    ensures (a + n) % n == a % n
  {
    ModOf(a + n, a / n + 1, a % n, n);
  }

  lemma InvPublishTail<T>(s: Ring<T>)
    requires Inv(s) && s.p.Wrote?
    ensures Inv(Do(s, PublishTail))
  {
  }

  lemma InvCopy<T>(s: Ring<T>)
    requires Inv(s) && s.c.Copying? && s.c.h != s.c.t
    ensures s.c.h < |s.buf| && s.buf[s.c.h].Item?
    ensures Inv(Do(s, CopyOne))
  {
    var n := |s.buf|;
    var k := Taken(s);
    assert k < s.c.seen;
    assert s.buf[k % n] == Item(s.accepted[k]);
    NextMod(k, n);
    var s' := Do(s, CopyOne);
    assert s'.popped + Held(s') == s.popped + Held(s) + [s.accepted[k]] == s.accepted[..k + 1];
    forall i | Taken(s') <= i < |s'.accepted|
      ensures s'.buf[i % n] == Item(s'.accepted[i])
    {
      ApartMod(k, i, n);
    }
    if s.p.Wrote? {
      ApartMod(k, |s.accepted|, n);
    }
  }

  lemma InvPublishHead<T>(s: Ring<T>)
    requires Inv(s) && s.c.Copying? && s.c.h == s.c.t
    ensures Inv(Do(s, PublishHead))
    ensures Taken(s) == s.c.seen
  {
    if Taken(s) < s.c.seen {
      ApartMod(Taken(s), s.c.seen, |s.buf|);
      assert false;
    }
  }

  lemma InvStep<T>(s: Ring<T>, step: Step<T>)
    requires Inv(s)
    ensures Inv(Do(s, step))
  {
    match step
    case LoadTailForPush(_) =>
    case LoadHeadForPush =>
    case RejectOrWrite => if s.p.ReadHead? { InvWrite(s); }
    case PublishTail => if s.p.Wrote? { InvPublishTail(s); }
    case LoadHeadForPop =>
    case LoadTailForPop =>
    case CopyOne => if s.c.Copying? && s.c.h != s.c.t { InvCopy(s); }
    case PublishHead => if s.c.Copying? && s.c.h == s.c.t { InvPublishHead(s); }
  }

  lemma {:induction false} InvExec<T>(size: nat, steps: seq<Step<T>>)
    requires size > 0
    ensures Inv(Exec(Empty(size), steps))
    decreases |steps|
  {
    if steps != [] {
      InvExec(size, steps[..|steps| - 1]);
      InvStep(Exec(Empty(size), steps[..|steps| - 1]), steps[|steps| - 1]);
    }
  }

  // ---- Main results ----

  function Items<T>(xs: seq<T>): seq<Slot<T>> {
    seq(|xs|, i requires 0 <= i < |xs| => Item(xs[i]))
  }

  /**
   First in, first out, under every interleaving: what was returned, then what the consumer holds, then
   what the slots hold is what was accepted, in order. Nothing is lost, repeated or read after a move.
   */
  lemma FirstInFirstOut<T>(size: nat, steps: seq<Step<T>>)
    requires size > 0
    ensures var s := Exec(Empty(size), steps);
            && Taken(s) <= |s.accepted|
            && Items(s.accepted) == Items(s.popped + Held(s)) + InRing(s, |s.accepted| - Taken(s))
  {
    InvExec(size, steps);
    var s := Exec(Empty(size), steps);
    var rest := |s.accepted| - Taken(s);
    assert Items(s.accepted)[..Taken(s)] == Items(s.popped + Held(s));
    assert Items(s.accepted)[Taken(s)..] == InRing(s, rest);
    assert Items(s.accepted) == Items(s.accepted)[..Taken(s)] + Items(s.accepted)[Taken(s)..];
  }

  /**
   The threads never meet in a slot: the slot the producer is about to write holds no item the consumer
   has not given back by publishing `head`, and the slot the consumer reads holds an item.
   */
  lemma NoSlotIsShared<T>(size: nat, steps: seq<Step<T>>)
    requires size > 0
    ensures var s := Exec(Empty(size), steps);
            && (s.p.ReadHead? && Next(s.p.t, size) != s.p.h ==>
                  forall i | |s.popped| <= i < |s.accepted| :: i % size != s.p.t)
            && (s.c.Copying? && s.c.h != s.c.t ==> s.c.h < size && s.buf[s.c.h].Item?)
  {
    InvExec(size, steps);
    var s := Exec(Empty(size), steps);
    if s.p.ReadHead? && Next(s.p.t, size) != s.p.h {
      forall i | |s.popped| <= i < |s.accepted|
        ensures i % size != s.p.t
      {
        ApartMod(i, |s.accepted|, size);
      }
    }
    if s.c.Copying? && s.c.h != s.c.t {
      InvCopy(s);
    }
  }

  /** `push` refuses exactly when the ring held one item less than its size at the moment it read `head`. */
  lemma RefusedIffFull<T>(size: nat, steps: seq<Step<T>>)
    requires size > 0
    ensures var s := Exec(Empty(size), steps);
            s.p.ReadHead? ==>
              && (Next(s.p.t, size) == s.p.h <==> |s.accepted| - s.p.freed == size - 1)
              && Do(s, RejectOrWrite).p == if |s.accepted| - s.p.freed == size - 1 then NoPush
                                           else Wrote(s.p.item, (s.tail + 1) % size)
  {
    InvExec(size, steps);
    var s := Exec(Empty(size), steps);
    if s.p.ReadHead? {
      NextMod(|s.accepted|, size);
      if |s.accepted| + 1 == s.p.freed + size {
        NextRound(s.p.freed, size);
      } else {
        ApartMod(s.p.freed, |s.accepted| + 1, size);
      }
    }
  }

  /** `popAll` returns everything that was accepted when it read `tail`, and no more. */
  lemma PopAllTakesAllSeen<T>(size: nat, steps: seq<Step<T>>)
    requires size > 0
    ensures var s := Exec(Empty(size), steps);
            s.c.Copying? && s.c.h == s.c.t ==>
              s.c.seen <= |s.accepted| && Do(s, PublishHead).popped == s.accepted[..s.c.seen]
  {
    InvExec(size, steps);
    var s := Exec(Empty(size), steps);
    if s.c.Copying? && s.c.h == s.c.t {
      InvPublishHead(s);
    }
  }

  // ---- The size of the ring ----

  /** The least power of two that is at least `n`, and 1 for 0. */
  method NextPowerOfTwo(n: nat) returns (p: nat)
    ensures exists k :: p == Bytes.Pow2(k)
    ensures p >= n && (p == 1 || p / 2 < n)
  {
    if n == 0 {
      assert Bytes.Pow2(0) == 1;
      return 1;
    }
    p := 1;
    ghost var k := 0;
    while p < n
      invariant p == Bytes.Pow2(k)
      invariant p == 1 || p / 2 < n
      decreases n - p
    {
      p := p * 2;
      k := k + 1;
    }
  }

  /** The value of the loop's variable after `k` turns, in 64 bits. */
  function Doublings(k: nat): nat {
    if k == 0 then 1 else 2 * Doublings(k - 1) % TWO_64
  }

  const HALF: nat := 0x8000_0000_0000_0000

  lemma {:induction false} Pow2Sum(a: nat, b: nat)
    ensures Bytes.Pow2(a + b) == Bytes.Pow2(a) * Bytes.Pow2(b)
    decreases a
  {
    if a > 0 {
      Pow2Sum(a - 1, b);
    }
  }

  lemma Pow2Of63()
    ensures Bytes.Pow2(63) == HALF
  {
    Pow2Step(0);
    Bytes.Pow2Of8();
    hide Bytes.Pow2;
    Pow2Sum(8, 8);
    Pow2Sum(16, 16);
    Pow2Sum(1, 31);
    Pow2Sum(32, 31);
  }

  lemma Pow2Step(k: nat)
    ensures Bytes.Pow2(0) == 1
    ensures Bytes.Pow2(k + 1) == 2 * Bytes.Pow2(k)
    ensures Doublings(k + 1) == 2 * Doublings(k) % TWO_64
  {
  }

  lemma Pow2Within(k: nat)
    requires k <= 63
    ensures Bytes.Pow2(k) <= HALF
  {
    Pow2Of63();
    Pow2Sum(k, 63 - k);
    hide Bytes.Pow2;
    Bounded(Bytes.Pow2(k), Bytes.Pow2(63 - k));
  }

  lemma {:induction false} DoublingsAre(k: nat)
    ensures k <= 63 ==> Doublings(k) == Bytes.Pow2(k) <= HALF
    ensures k > 63 ==> Doublings(k) == 0
    decreases k
  {
    Pow2Step(if k == 0 then 0 else k - 1);
    if k <= 63 {
      Pow2Within(k);
    } else {
      Pow2Of63();
    }
    hide Bytes.Pow2;
    if k > 0 {
      hide Doublings;
      DoublingsAre(k - 1);
      Doubled(Doublings(k - 1));
    }
  }

  lemma Doubled(x: nat)
    requires x <= HALF
    ensures 2 * x % TWO_64 == if x == HALF then 0 else 2 * x
  {
  }

  lemma Bounded(x: nat, y: nat)
    requires y > 0
    ensures x <= x * y
  {
  }

  /**
   In 64 bits the loop of `nextPowerOfTwo` ends if and only if its argument is not above 2^63; above, it
   runs on with 0.
   */
  lemma DoublingEndsIff(n: uint64)
    ensures (exists k :: Doublings(k) >= n) <==> n <= HALF
  {
    DoublingsAre(63);
    Pow2Of63();
    forall k: nat
      ensures Doublings(k) <= HALF
    {
      DoublingsAre(k);
    }
  }

  /** On 64-bit words, masking with a power of two less one is stepping round the ring. */
  lemma MaskIsNext(t: bv64, size: bv64)
    requires size != 0 && size & (size - 1) == 0 && t < size
    ensures (t + 1) & (size - 1) == if t + 1 == size then 0 else t + 1
  {
  }
}

/** The queue as a class. Used by one thread at a time, its methods are the steps of `SpscRing` in a row. */
module SpscQueues {
  import opened SpscRing

  class SpscQueue<T> {
    const buf: array<Slot<T>>
    const sizeMask: nat
    var head: nat
    var tail: nat
    ghost var accepted: seq<T>
    ghost var popped: seq<T>

    ghost function Snapshot(): Ring<T>
      reads this, buf
    {
      Ring(buf[..], head, tail, NoPush, NoPop, accepted, popped)
    }

    ghost predicate Valid()
      reads this, buf
    {
      buf.Length == sizeMask + 1 && Inv(Snapshot())
    }

    /** What is queued. */
    ghost function Contents(): seq<T>
      reads this, buf
      requires Valid()
    {
      accepted[|popped|..]
    }

    constructor (size: nat)
      ensures Valid() && fresh(buf) && Contents() == []
      ensures sizeMask + 1 >= size && (sizeMask == 0 || (sizeMask + 1) / 2 < size)
    {
      var n := NextPowerOfTwo(size);
      buf := new Slot<T>[n](_ => Moved);
      sizeMask := n - 1;
      head, tail := 0, 0;
      accepted, popped := [], [];
      new;
      InvExec<T>(n, []);
      assert Snapshot() == Empty<T>(n);
    }

    method Push(item: T) returns (ok: bool)
      requires Valid()
      modifies this`tail, this`accepted, buf
      ensures Valid()
      ensures ok <==> |old(Contents())| < sizeMask
      ensures Contents() == if ok then old(Contents()) + [item] else old(Contents())
      ensures popped == old(popped)
    {
      ghost var s0 := Snapshot();
      ghost var s1 := Do(s0, LoadTailForPush(item));
      var t := tail;
      InvStep(s0, LoadTailForPush(item));
      ghost var s2 := Do(s1, LoadHeadForPush);
      var h := head;
      InvStep(s1, LoadHeadForPush);
      var nt := (t + 1) % (sizeMask + 1);
      FullIff(s0);
      ghost var s3 := Do(s2, RejectOrWrite);
      InvStep(s2, RejectOrWrite);
      if nt == h {
        return false;
      }
      buf[t] := Item(item);
      assert buf[..] == s3.buf;
      tail := nt;
      accepted := accepted + [item];
      InvStep(s3, PublishTail);
      assert Snapshot() == Do(s3, PublishTail);
      ok := true;
    }

    /** One turn of the copying loop: the slot at `h` is moved out of. */
    method CopyItem(h: nat, ghost s: Ring<T>) returns (v: T, h': nat)
      requires buf.Length == sizeMask + 1 && Inv(s) && s.c.Copying? && s.c.h == h != s.c.t
      requires s == Snapshot().(c := s.c)
      modifies buf
      ensures Do(s, CopyOne).c == Copying(h', s.c.t, s.c.out + [v], s.c.seen)
      ensures Do(s, CopyOne) == Snapshot().(c := Do(s, CopyOne).c)
    {
      InvCopy(s);
      hide Inv;
      match buf[h] {
        case Item(item) => v := item;
      }
      buf[h] := Moved;
      h' := (h + 1) % (sizeMask + 1);
      assert buf[..] == Do(s, CopyOne).buf;
    }

    method PopAll() returns (out: seq<T>)
      requires Valid()
      modifies this`head, this`popped, buf
      ensures Valid()
      ensures out == old(Contents()) && Contents() == []
      ensures accepted == old(accepted)
    {
      ghost var s := Do(Do(Snapshot(), LoadHeadForPop), LoadTailForPop);
      InvStep(Snapshot(), LoadHeadForPop);
      InvStep(Do(Snapshot(), LoadHeadForPop), LoadTailForPop);
      CopyOut(s);
      hide Inv, Do;
      var h := head;
      var t := tail;
      out := [];
      while h != t
        invariant Inv(s) && s.c == Copying(h, t, out, |accepted|)
        invariant s == Snapshot().(c := s.c)
        invariant popped == old(popped) && Taken(s) <= |accepted|
        decreases |accepted| - Taken(s)
      {
        InvCopy(s);
        var v;
        v, h := CopyItem(h, s);
        s := Do(s, CopyOne);
        out := out + [v];
        CopyOut(s);
      }
      Release(h, out, s);
    }

    /** The store of `head` that gives the slots back. */
    method Release(h: nat, out: seq<T>, ghost s: Ring<T>)
      requires buf.Length == sizeMask + 1 && Inv(s)
      requires s.c == Copying(h, h, out, |accepted|)
      requires s == Snapshot().(c := s.c)
      modifies this`head, this`popped
      ensures Valid() && Contents() == []
      ensures popped == old(popped) + out
      ensures |popped| == |accepted| && out == accepted[|old(popped)|..]
    {
      InvPublishHead(s);
      PublishHeadIs(s);
      CopyOut(s);
      hide Inv, Do;
      assert popped + out == accepted[..|accepted|] == accepted;
      assert out == accepted[|popped|..];
      head := h;
      popped := popped + out;
      assert Snapshot() == Do(s, PublishHead);
    }
  }

  lemma PublishHeadIs<T>(s: Ring<T>)
    requires |s.buf| > 0 && s.c.Copying? && s.c.h == s.c.t
    ensures Do(s, PublishHead) == s.(head := s.c.h, popped := s.popped + s.c.out, c := NoPop)
  {
  }

  lemma CopyOut<T>(s: Ring<T>)
    requires Inv(s)
    ensures Taken(s) <= |s.accepted|
    ensures s.popped + Held(s) == s.accepted[..Taken(s)]
  {
  }

  lemma FullIff<T>(s: Ring<T>)
    requires Inv(s)
    ensures Next(s.tail, |s.buf|) == s.head <==> |s.accepted| - |s.popped| == |s.buf| - 1
  {
    var n := |s.buf|;
    NextMod(|s.accepted|, n);
    if |s.accepted| + 1 == |s.popped| + n {
      NextRound(|s.popped|, n);
    } else {
      ApartMod(|s.popped|, |s.accepted| + 1, n);
    }
  }
}
