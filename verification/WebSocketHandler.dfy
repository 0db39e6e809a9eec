/**
 The WebSocket handler as the library writes it: fields updated event by event, and calls to the wheel
 of the loop. Each method is proved to do to the fields and to the wheel what `KeepAlive` says.
 */
module WebSocketHandlers {
  import opened Words
  import opened Wheels
  import opened KeepAlive
  import TimerWheels

  /** A frame sent in answer. */
  datatype Reply = NoReply | Reply(opcode: Opcode, payload: seq<int>)

  class WsState {
    var hasOpened: bool
    var waitingPong: bool
    var pingTimerId: nat
    var pongTimerId: nat
    var closed: bool
    const pingIntervalMs: uint64
    const pongTimeoutMs: uint64

    constructor (pingIntervalMs: uint64, pongTimeoutMs: uint64)
      ensures Value() == Conn(false, false, 0, 0, false, pingIntervalMs, pongTimeoutMs)
    {
      hasOpened, waitingPong, closed := false, false, false;
      pingTimerId, pongTimerId := 0, 0;
      this.pingIntervalMs, this.pongTimeoutMs := pingIntervalMs, pongTimeoutMs;
    }

    ghost function Value(): Conn
      reads this
    {
      Conn(hasOpened, waitingPong, pingTimerId, pongTimerId, closed, pingIntervalMs, pongTimeoutMs)
    }

    /** This is connection `k` of `e`, and the wheel is what the actions of `e` make of `start`. */
    ghost predicate At(e: Effect, k: nat, wheel: TimerWheels.TimerWheel, start: Wheel)
      reads this, wheel, wheel.slots
    {
      && wheel.Valid()
      && start.Valid()
      && k in e.c.conns && e.c.conns[k] == Value()
      && e.next == wheel.nextId
      && wheel.Model() == DoAll(start, e.acts)
    }

    method CancelTimers(wheel: TimerWheels.TimerWheel, ghost e: Effect, ghost k: nat, ghost start: Wheel)
      requires At(e, k, wheel, start)
      modifies this, wheel.slots
      ensures k in e.c.conns && At(KeepAlive.CancelTimers(e, k), k, wheel, start)
    {
      if pingTimerId != 0 {
        wheel.CancelTimer(pingTimerId);
        DoAllSnoc(start, e.acts, Cancel(pingTimerId));
        pingTimerId := 0;
      }
      ghost var acts := e.acts + if e.c.conns[k].pingTimerId != 0 then [Cancel(e.c.conns[k].pingTimerId)] else [];
      if pongTimerId != 0 {
        wheel.CancelTimer(pongTimerId);
        DoAllSnoc(start, acts, Cancel(pongTimerId));
        pongTimerId := 0;
      }
      waitingPong := false;
      assert e.acts + [] == e.acts && acts + [] == acts;
    }

    method SchedulePing(wheel: TimerWheels.TimerWheel, ghost e: Effect, ghost k: nat, ghost start: Wheel)
      requires At(e, k, wheel, start)
      modifies this, wheel`nextId, wheel.slots
      ensures k in e.c.conns && At(KeepAlive.SchedulePing(e, k), k, wheel, start)
    {
      CancelTimers(wheel, e, k, start);
      ghost var e1 := KeepAlive.CancelTimers(e, k);
      if pingIntervalMs == 0 {
        return;
      }
      pingTimerId := wheel.AddTimer(pingIntervalMs);
      DoAllSnoc(start, e1.acts, Add(pingIntervalMs));
    }

    /** Closing the connection, once: its handlers learn that it is inactive. */
    method Close(wheel: TimerWheels.TimerWheel, ghost e: Effect, ghost k: nat, ghost start: Wheel)
      requires At(e, k, wheel, start)
      modifies this, wheel.slots
      ensures k in e.c.conns && At(CloseConn(e, k), k, wheel, start)
    {
      if !closed {
        closed := true;
        CancelTimers(wheel, e.(c := e.c.(conns := e.c.conns[k := Value()])), k, start);
      }
    }

    /** A failed write: the connection is closed, and no handler learns of it. */
    method Break(wheel: TimerWheels.TimerWheel, ghost e: Effect, ghost k: nat, ghost start: Wheel)
      requires At(e, k, wheel, start)
      modifies this`closed
      ensures k in e.c.conns && At(KeepAlive.Break(e, k), k, wheel, start)
    {
      closed := true;
    }

    /** Hands a frame to the pipeline; `write` is what comes of it. */
    method WriteFrame(write: Write, wheel: TimerWheels.TimerWheel, ghost e: Effect, ghost k: nat, ghost start: Wheel)
      requires At(e, k, wheel, start)
      modifies this, wheel.slots
      ensures k in e.c.conns && At(Written(e, k, write), k, wheel, start)
    {
      match write
      case Passes =>
      case Breaks => Break(wheel, e, k, start);
      case Overflows => Close(wheel, e, k, start);
    }

    /** The ping timer's callback; a PING is sent unless a PONG is awaited already. */
    method OnPingTimer(write: Write, wheel: TimerWheels.TimerWheel,
                       ghost e: Effect, ghost k: nat, ghost id: nat, ghost start: Wheel)
      returns (sent: bool)
      requires At(e, k, wheel, start) && id in e.c.owner && e.c.owner[id] == PingOf(k)
      requires write == WriteOf(e.c, id)
      modifies this, wheel`nextId, wheel.slots
      ensures At(Fire(e, id), k, wheel, start)
      ensures sent <==> Fire(e, id).c.trace == e.c.trace + [PingSent(k, e.c.now)]
    {
      if waitingPong {
        return false;
      }
      WriteFrame(write, wheel, e, k, start);
      ghost var e1 := Written(e, k, write);
      waitingPong := true;
      pingTimerId := 0;
      pongTimerId := wheel.AddTimer(pongTimeoutMs);
      DoAllSnoc(start, e1.acts, Add(pongTimeoutMs));
      return true;
    }

    /** The pong timer's callback. */
    method OnPongTimer(wheel: TimerWheels.TimerWheel, ghost e: Effect, ghost k: nat, ghost id: nat, ghost start: Wheel)
      requires At(e, k, wheel, start) && id in e.c.owner && e.c.owner[id] == PongOf(k)
      modifies this, wheel.slots
      ensures At(Fire(e, id), k, wheel, start)
    {
      Close(wheel, if closed then e else Note(e, TimedOut(k, e.c.now)), k, start);
    }

    method OpenOnce(wheel: TimerWheels.TimerWheel, ghost e: Effect, ghost k: nat, ghost start: Wheel)
      requires At(e, k, wheel, start)
      modifies this, wheel`nextId, wheel.slots
      ensures k in e.c.conns && At(Opening(e, k), k, wheel, start)
    {
      if !hasOpened {
        hasOpened := true;
        SchedulePing(wheel, e.(c := e.c.(conns := e.c.conns[k := Value()])), k, start);
      }
    }

    /**
     A frame: PING is answered by PONG and CLOSE by CLOSE, with the payload that came; `answer` is what
     comes of that write.
     */
    method ChannelRead(op: Opcode, payload: seq<int>, answer: Write, wheel: TimerWheels.TimerWheel,
                       ghost e: Effect, ghost k: nat, ghost start: Wheel) returns (reply: Reply)
      requires At(e, k, wheel, start)
      modifies this, wheel`nextId, wheel.slots
      ensures k in e.c.conns && At(ReadFrame(e, k, op, answer), k, wheel, start)
      ensures reply == match op
                       case Ping => Reply(Pong, payload)
                       case Close => Reply(Opcode.Close, payload)
                       case _ => NoReply
    {
      OpenOnce(wheel, e, k, start);
      reply := HandleFrame(op, payload, answer, wheel, Opening(e, k), k, start);
    }

    method HandleFrame(op: Opcode, payload: seq<int>, answer: Write, wheel: TimerWheels.TimerWheel,
                       ghost e: Effect, ghost k: nat, ghost start: Wheel) returns (reply: Reply)
      requires At(e, k, wheel, start)
      modifies this, wheel`nextId, wheel.slots
      ensures k in e.c.conns && At(FrameTimers(e, k, op, answer), k, wheel, start)
      ensures reply == match op
                       case Ping => Reply(Pong, payload)
                       case Close => Reply(Opcode.Close, payload)
                       case _ => NoReply
    {
      reply := NoReply;
      if op == Pong {
        CancelTimers(wheel, e, k, start);
        SchedulePing(wheel, KeepAlive.CancelTimers(e, k), k, start);
      }
      if op == Ping {
        reply := Reply(Pong, payload);
        WriteFrame(answer, wheel, e, k, start);
        SchedulePing(wheel, Written(e, k, answer), k, start);
        return;
      }
      match op {
        case Text => SchedulePing(wheel, e, k, start);
        case Binary => SchedulePing(wheel, e, k, start);
        case Close =>
          CancelTimers(wheel, e, k, start);
          reply := Reply(Opcode.Close, payload);
          WriteFrame(answer, wheel, KeepAlive.CancelTimers(e, k), k, start);
        case _ =>
      }
    }
  }

  lemma {:induction false} DoAllSnoc(w: Wheel, acts: seq<Action>, a: Action)
    requires w.Valid()
    ensures DoAll(w, acts + [a]) == Do(DoAll(w, acts), a)
    decreases |acts|
  {
    if acts == [] {
      assert [a][1..] == [] && [] + [a] == [a];
    } else {
      assert (acts + [a])[1..] == acts[1..] + [a];
      DoAllSnoc(Do(w, acts[0]), acts[1..], a);
    }
  }
}
