/**
 The write path of a connection: what the pipeline appends, what a flush hands to the kernel at once, and
 what writable events hand to it later. What the kernel does with a write is left open.
 */
module WritePath {
  import opened Bytes
  import ByteBuffers

  /** The kernel takes up to `n` of the bytes offered, asks to try again later, or fails. */
  datatype Kernel = Takes(n: nat) | TryAgain | Fails

  /** `sent` is what the kernel has taken and `appended` what the pipeline has written, since the start. */
  datatype Conn = Conn(pending: bytes, closed: bool, keepAlive: bool, writing: bool, waterMark: nat,
                       sent: bytes, appended: bytes)

  function Taken(pending: bytes, n: nat): (k: nat)
    ensures k <= |pending|
  {
    if n < |pending| then n else |pending|
  }

  function Send(c: Conn, n: nat): Conn {
    var k := Taken(c.pending, n);
    c.(pending := c.pending[k..], sent := c.sent + c.pending[..k])
  }

  /** `flushWriteBuf` */
  function Flush(c: Conn, kernel: Kernel): Conn {
    if c.pending == [] then c
    else
      match kernel
      case TryAgain => c.(writing := true)
      case Fails => c.(closed := true)
      case Takes(n) =>
        if n == 0 then c.(closed := true)
        else
          var s := Send(c, n);
          s.(writing := s.pending != [] || c.writing, closed := c.closed || !c.keepAlive)
  }

  /** A write that reaches the front of the pipeline: appended, then flushed unless the buffer has grown too large. */
  function Append(c: Conn, data: bytes, kernel: Kernel): Conn {
    var a := c.(pending := c.pending + data, appended := c.appended + data);
    if a.waterMark > 0 && |a.pending| > a.waterMark then a.(closed := true) else Flush(a, kernel)
  }

  /** The loop of `onWrite`; `kernel[i]` answers its i-th write, and the kernel is not ready after the last. */
  function Drain(c: Conn, kernel: seq<Kernel>): Conn
    decreases |kernel|
  {
    if c.pending == [] then c.(writing := false)
    else if kernel == [] || kernel[0].TryAgain? then c
    else if kernel[0].Fails? || kernel[0].n == 0 then c.(closed := true)
    else Drain(Send(c, kernel[0].n), kernel[1..])
  }

  function OnWrite(c: Conn, kernel: seq<Kernel>): Conn {
    if c.closed then c else Drain(c, kernel)
  }

  class Connection {
    const writeBuf: ByteBuffers.ByteBuf
    var closed: bool
    var keepAlive: bool
    var writing: bool  // write interest with the poller
    var writeBufWaterMark: nat
    ghost var sent: bytes
    ghost var appended: bytes

    ghost predicate Valid()
      reads this, writeBuf
    {
      writeBuf.Valid()
    }

    ghost function Value(): Conn
      reads this, writeBuf, writeBuf.data
      requires Valid()
    {
      Conn(writeBuf.Contents(), closed, keepAlive, writing, writeBufWaterMark, sent, appended)
    }

    constructor (waterMark: nat)
      ensures Valid() && fresh(writeBuf) && fresh(writeBuf.data)
      ensures Value() == Conn([], false, true, false, waterMark, [], [])
    {
      writeBuf := new ByteBuffers.ByteBuf(0);
      closed, keepAlive, writing := false, true, false;
      writeBufWaterMark := waterMark;
      sent, appended := [], [];
    }

    /** The kernel's side of a write of `n` bytes or less from the front of the buffer. */
    method Discard(n: nat)
      requires Valid()
      modifies this`sent, writeBuf`readerIndex
      ensures Valid() && Value() == Send(old(Value()), n)
    {
      ghost var pending := writeBuf.Contents();
      sent := sent + pending[..Taken(pending, n)];
      writeBuf.Discard(n);
      assert pending[|pending|..] == [];
    }

    method FlushWriteBuf(kernel: Kernel)
      requires Valid()
      modifies this`closed, this`writing, this`sent, writeBuf`readerIndex, writeBuf`writerIndex
      ensures Valid() && Value() == Flush(old(Value()), kernel)
    {
      var hdrLen := writeBuf.writerIndex - writeBuf.readerIndex;
      if hdrLen == 0 {
        return;
      }
      if kernel.TryAgain? {
        writing := true;
        return;
      }
      if kernel.Fails? || kernel.n == 0 {
        closed := true;
        return;
      }
      Discard(kernel.n);
      if writeBuf.writerIndex - writeBuf.readerIndex > 0 {
        writing := true;
      } else {
        writeBuf.Clear();
      }
      if !keepAlive {
        closed := true;
      }
    }

    method FireWrite(data: bytes, kernel: Kernel)
      requires Valid()
      modifies this`closed, this`writing, this`sent, this`appended, writeBuf, writeBuf.data
      ensures Valid() && (writeBuf.data == old(writeBuf.data) || fresh(writeBuf.data))
      ensures Value() == Append(old(Value()), data, kernel)
    {
      writeBuf.WriteBytes(data);
      appended := appended + data;
      if writeBufWaterMark > 0 && writeBuf.writerIndex - writeBuf.readerIndex > writeBufWaterMark {
        closed := true;
        return;
      }
      FlushWriteBuf(kernel);
    }

    method OnWritable(kernel: seq<Kernel>)
      requires Valid()
      modifies this`closed, this`writing, this`sent, writeBuf`readerIndex, writeBuf`writerIndex
      ensures Valid() && Value() == OnWrite(old(Value()), kernel)
    {
      if closed {
        return;
      }
      var i := 0;
      while writeBuf.writerIndex - writeBuf.readerIndex > 0
        invariant Valid() && i <= |kernel|
        invariant Drain(old(Value()), kernel) == Drain(Value(), kernel[i..])
        decreases |kernel| - i
      {
        if i == |kernel| || kernel[i].TryAgain? {
          return;
        }
        if kernel[i].Fails? || kernel[i].n == 0 {
          closed := true;
          return;
        }
        Discard(kernel[i].n);
        assert kernel[i..][1..] == kernel[i + 1..];
        i := i + 1;
      }
      writeBuf.Clear();
      writing := false;
    }
  }

  // ---- Every run ----

  datatype Event =
    | Write(data: bytes, kernel: Kernel)
    | FlushNow(kernel: Kernel)
    | Writable(answers: seq<Kernel>)
    | KeepAlive(on: bool)
    | Close

  function Step(c: Conn, e: Event): Conn {
    match e
    case Write(data, kernel) => Append(c, data, kernel)
    case FlushNow(kernel) => Flush(c, kernel)
    case Writable(kernel) => OnWrite(c, kernel)
    case KeepAlive(on) => c.(keepAlive := on)
    case Close => c.(closed := true)
  }

  function Run(c: Conn, events: seq<Event>): Conn
    decreases |events|
  {
    if events == [] then c else Step(Run(c, events[..|events| - 1]), events[|events| - 1])
  }

  function Fresh(waterMark: nat): Conn {
    Conn([], false, true, false, waterMark, [], [])
  }

  /** No byte lost, repeated or out of order; and what is pending on an open connection will be asked for. */
  predicate Inv(c: Conn) {
    && c.sent + c.pending == c.appended
    && (!c.closed && c.pending != [] ==> c.writing)
  }

  lemma SendKeeps(c: Conn, n: nat)
    requires c.sent + c.pending == c.appended
    ensures Send(c, n).sent + Send(c, n).pending == c.appended && Send(c, n).appended == c.appended
    ensures n > 0 && c.pending != [] ==> |Send(c, n).pending| < |c.pending|
  {
  }

  lemma FlushKeeps(c: Conn, kernel: Kernel)
    requires c.sent + c.pending == c.appended
    ensures Inv(Flush(c, kernel)) && Flush(c, kernel).appended == c.appended
  {
  }

  lemma {:induction false} DrainKeeps(c: Conn, kernel: seq<Kernel>)
    requires Inv(c)
    ensures Inv(Drain(c, kernel))
    decreases |kernel|
  {
    if c.pending != [] && kernel != [] && kernel[0].Takes? && kernel[0].n > 0 {
      SendKeeps(c, kernel[0].n);
      DrainKeeps(Send(c, kernel[0].n), kernel[1..]);
    }
  }

  /**
   Whatever the kernel does: what it took, then what is pending, is what was appended, and an open
   connection with bytes pending waits to write.
   */
  lemma {:induction false} WritePathConserves(waterMark: nat, events: seq<Event>)
    ensures Inv(Run(Fresh(waterMark), events))
    decreases |events|
  {
    if events != [] {
      var c := Run(Fresh(waterMark), events[..|events| - 1]);
      WritePathConserves(waterMark, events[..|events| - 1]);
      match events[|events| - 1]
      case Write(data, kernel) =>
        assert c.sent + (c.pending + data) == c.appended + data;
        FlushKeeps(c.(pending := c.pending + data, appended := c.appended + data), kernel);
      case FlushNow(kernel) => FlushKeeps(c, kernel);
      case Writable(kernel) => if !c.closed { DrainKeeps(c, kernel); }
      case KeepAlive(_) =>
      case Close =>
    }
  }

  /** A writable event in which the kernel is always willing to take something sends everything. */
  lemma {:induction false} WritableSendsAll(c: Conn, kernel: seq<Kernel>)
    requires Inv(c) && !c.closed && |kernel| >= |c.pending|
    requires forall i | 0 <= i < |kernel| :: kernel[i].Takes? && kernel[i].n > 0
    ensures OnWrite(c, kernel).sent == c.appended && OnWrite(c, kernel).pending == [] && !OnWrite(c, kernel).writing
    decreases |kernel|
  {
    assert c.sent + [] == c.sent;
    if c.pending != [] {
      SendKeeps(c, kernel[0].n);
      WritableSendsAll(Send(c, kernel[0].n), kernel[1..]);
    }
  }

  // ---- What closes a connection ----

  predicate Bad(kernel: Kernel) {
    kernel.Fails? || kernel == Takes(0)
  }

  predicate Willing(kernel: Kernel) {
    kernel.Takes? && kernel.n > 0
  }

  function Total(kernel: seq<Kernel>): nat {
    if kernel == [] then 0 else (if kernel[0].Takes? then kernel[0].n else 0) + Total(kernel[1..])
  }

  /** Some write of a writable event goes wrong: those before it are answered, and do not use up what is pending. */
  predicate GoesWrong(pending: nat, kernel: seq<Kernel>) {
    exists i :: 0 <= i < |kernel| && Bad(kernel[i]) && (forall j | 0 <= j < i :: Willing(kernel[j]))
                && Total(kernel[..i]) < pending
  }

  /** An event that closes an open connection. */
  predicate Closes(c: Conn, e: Event) {
    match e
    case Write(data, kernel) =>
      var n := |c.pending| + |data|;
      || (c.waterMark > 0 && n > c.waterMark)
      || (n > 0 && (Bad(kernel) || (Willing(kernel) && !c.keepAlive)))
    case FlushNow(kernel) => c.pending != [] && (Bad(kernel) || (Willing(kernel) && !c.keepAlive))
    case Writable(kernel) => GoesWrong(|c.pending|, kernel)
    case KeepAlive(_) => false
    case Close => true
  }

  lemma {:induction false} DrainClosesIff(c: Conn, kernel: seq<Kernel>)
    requires !c.closed
    ensures Drain(c, kernel).closed <==> GoesWrong(|c.pending|, kernel)
    decreases |kernel|
  {
    if c.pending != [] && kernel != [] && Willing(kernel[0]) {
      var s := Send(c, kernel[0].n);
      DrainClosesIff(s, kernel[1..]);
      GoesWrongLater(|c.pending|, |s.pending|, kernel);
    } else if c.pending != [] && kernel != [] && Bad(kernel[0]) {
      assert Total(kernel[..0]) == 0;
    }
  }

  lemma GoesWrongLater(pending: nat, left: nat, kernel: seq<Kernel>)
    requires kernel != [] && Willing(kernel[0])
    requires left == if kernel[0].n < pending then pending - kernel[0].n else 0
    ensures GoesWrong(pending, kernel) <==> GoesWrong(left, kernel[1..])
  {
    if GoesWrong(pending, kernel) {
      var i :| 0 <= i < |kernel| && Bad(kernel[i]) && (forall j | 0 <= j < i :: Willing(kernel[j]))
                && Total(kernel[..i]) < pending;
      assert kernel[..i][1..] == kernel[1..][..i - 1];
      assert kernel[1..][i - 1] == kernel[i];
    }
    if GoesWrong(left, kernel[1..]) {
      var tail := kernel[1..];
      var i :| 0 <= i < |tail| && Bad(tail[i]) && (forall j | 0 <= j < i :: Willing(tail[j]))
                && Total(tail[..i]) < left;
      assert kernel[..i + 1][1..] == tail[..i];
      assert kernel[i + 1] == tail[i];
      assert forall j | 0 <= j < i + 1 :: Willing(kernel[j]) by {
        assert forall j | 0 < j < i + 1 :: kernel[j] == tail[j - 1];
      }
    }
  }

  lemma StepClosesIff(c: Conn, e: Event)
    ensures Step(c, e).closed <==> c.closed || Closes(c, e)
  {
    match e
    case Writable(kernel) => if !c.closed { DrainClosesIff(c, kernel); }
    case _ =>
  }

  predicate ClosedAt(c: Conn, events: seq<Event>, i: nat)
    requires i < |events|
  {
    Closes(Run(c, events[..i]), events[i])
  }

  /** On every run an open connection is closed if and only if some event closed it. */
  lemma {:induction false} ClosedIff(c: Conn, events: seq<Event>)
    requires !c.closed
    ensures Run(c, events).closed <==> exists i :: 0 <= i < |events| && ClosedAt(c, events, i)
    decreases |events|
  {
    if events != [] {
      var n := |events| - 1;
      var init := events[..n];
      ClosedIff(c, init);
      StepClosesIff(Run(c, init), events[n]);
      hide Closes, Step;
      forall i | 0 <= i < n
        ensures ClosedAt(c, init, i) <==> ClosedAt(c, events, i)
      {
        assert init[..i] == events[..i];
      }
      assert ClosedAt(c, events, n) <==> Closes(Run(c, init), events[n]);
      hide ClosedAt;
    }
  }

  /**
   So as long as nothing closes it, one writable event with a willing kernel delivers all that was
   appended, and the connection stays open.
   */
  lemma OpenRunDelivers(waterMark: nat, events: seq<Event>, kernel: seq<Kernel>)
    requires forall i | 0 <= i < |events| :: !ClosedAt(Fresh(waterMark), events, i)
    requires |kernel| >= |Run(Fresh(waterMark), events).pending| && forall i | 0 <= i < |kernel| :: Willing(kernel[i])
    ensures var c := Run(Fresh(waterMark), events + [Writable(kernel)]);
            !c.closed && c.sent == c.appended == Run(Fresh(waterMark), events).appended && c.pending == [] && !c.writing
  {
    var c := Run(Fresh(waterMark), events);
    assert (events + [Writable(kernel)])[..|events|] == events;
    ClosedIff(Fresh(waterMark), events);
    WritePathConserves(waterMark, events);
    WritableSendsAll(c, kernel);
    StepClosesIff(c, Writable(kernel));
    WritePathConserves(waterMark, events + [Writable(kernel)]);
    assert OnWrite(c, kernel).sent + [] == OnWrite(c, kernel).sent;
  }

  // ---- Closed connections ----

  /**
   The most that an event on a closed connection hands to the kernel: only flushes do, and a write is
   flushed unless it overflows.
   */
  function OfferedBy(c: Conn, e: Event): nat {
    match e
    case FlushNow(kernel) => if kernel.Takes? then kernel.n else 0
    case Write(data, kernel) =>
      if c.waterMark > 0 && |c.pending + data| > c.waterMark then 0 else if kernel.Takes? then kernel.n else 0
    case _ => 0
  }

  function Offered(c: Conn, events: seq<Event>): nat
    decreases |events|
  {
    if events == [] then 0
    else
      var init := events[..|events| - 1];
      Offered(c, init) + OfferedBy(Run(c, init), events[|events| - 1])
  }

  /** What is pending after one flush of `c`. */
  lemma FlushTakes(c: Conn, kernel: Kernel)
    requires c.sent + c.pending == c.appended
    ensures var f := Flush(c, kernel);
            var n := if kernel.Takes? then kernel.n else 0;
            && f.waterMark == c.waterMark && (c.closed ==> f.closed)
            && |f.pending| == if n < |c.pending| then |c.pending| - n else 0
  {
  }

  /**
   Once a connection is closed, writable events send nothing any more, but flushes and the writes flushed
   still do, in order.
   */
  lemma {:induction false} ClosedSends(c: Conn, events: seq<Event>)
    requires c.closed && c.sent + c.pending == c.appended
    ensures var r := Run(c, events);
            && r.closed && c.appended <= r.appended && r.sent + r.pending == r.appended
            && (|r.sent| >= |c.appended| <==> Offered(c, events) >= |c.pending|)
            && (|r.sent| < |c.appended| ==> |r.sent| == |c.sent| + Offered(c, events))
    decreases |events|
  {
    if events != [] {
      ClosedSends(c, events[..|events| - 1]);
      ClosedStep(Run(c, events[..|events| - 1]), events[|events| - 1]);
    }
  }

  /** One event on a closed connection. */
  lemma ClosedStep(c: Conn, e: Event)
    requires c.closed && c.sent + c.pending == c.appended
    ensures var r := Step(c, e);
            && r.closed && c.appended <= r.appended && r.sent + r.pending == r.appended
            && |c.sent| <= |r.sent| <= |c.sent| + OfferedBy(c, e)
            && (|r.sent| < |c.appended| ==> |r.sent| == |c.sent| + OfferedBy(c, e))
  {
    match e
    case Write(data, kernel) =>
      var a := c.(pending := c.pending + data, appended := c.appended + data);
      assert c.sent + (c.pending + data) == c.appended + data;
      FlushKeeps(a, kernel);
      FlushTakes(a, kernel);
    case FlushNow(kernel) =>
      FlushKeeps(c, kernel);
      FlushTakes(c, kernel);
    case _ =>
  }

  /**
   The flush of a connection that is not kept alive closes it with the first bytes it gets rid of. What
   was appended then reaches the kernel only through flushes: all of it does if and only if that flush and
   the later ones, those of later writes included, together take it all, whatever else comes between.
   */
  lemma ClosingFlushSendsAllIff(c: Conn, n: nat, events: seq<Event>)
    requires Inv(c) && !c.keepAlive && c.pending != [] && n > 0
    ensures var f := Flush(c, Takes(n));
            && f.closed
            && (c.appended <= Run(f, events).sent <==> n + Offered(f, events) >= |c.pending|)
  {
    var f := Flush(c, Takes(n));
    SendKeeps(c, n);
    FlushTakes(c, Takes(n));
    ClosedSends(f, events);
    var r := Run(f, events);
    assert r.sent <= r.appended && c.appended <= r.appended;
  }

  /** So with writable events alone, what that flush did not take is never sent. */
  lemma WritableAddsNothing(c: Conn, n: nat, events: seq<Event>)
    requires Inv(c) && !c.keepAlive && c.pending != [] && n > 0
    requires forall e | e in events :: e.Writable?
    ensures c.appended <= Run(Flush(c, Takes(n)), events).sent <==> n >= |c.pending|
  {
    ClosingFlushSendsAllIff(c, n, events);
    NothingOffered(Flush(c, Takes(n)), events);
  }

  lemma {:induction false} NothingOffered(c: Conn, events: seq<Event>)
    requires forall e | e in events :: e.Writable?
    ensures Offered(c, events) == 0
    decreases |events|
  {
    if events != [] {
      assert events[|events| - 1] in events;
      NothingOffered(c, events[..|events| - 1]);
    }
  }

  /** At an input: of two bytes the kernel takes one in the closing flush, and is then never offered the other. */
  lemma LostByte(c: Conn, events: seq<Event>)
    requires c == Conn([1, 2], false, false, true, 0, [], [1, 2]) && forall e | e in events :: e.Writable?
    ensures Run(Flush(c, Takes(1)), events).sent == [1]
  {
    var f := Flush(c, Takes(1));
    ClosedStaysSame(f, events);
  }

  lemma {:induction false} ClosedStaysSame(c: Conn, events: seq<Event>)
    requires c.closed && forall e | e in events :: e.Writable?
    ensures Run(c, events) == c
    decreases |events|
  {
    if events != [] {
      assert events[|events| - 1] in events;
      ClosedStaysSame(c, events[..|events| - 1]);
    }
  }
}
