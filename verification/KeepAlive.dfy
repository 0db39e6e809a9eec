/**
 The WebSocket keep-alive: a ping timer restarted by traffic, and after each PING a pong timer that
 closes the connection. Any number of connections share one wheel; the wheel is taken as its set of
 deadlines, which it refines (`Wheels.WheelRefinesDeadlines`).
 */
module KeepAlive {
  import opened Wrappers
  import opened Words
  import opened Wheels

  datatype Opcode = Text | Binary | Close | Ping | Pong | Reserved

  /** Whose timer an id is, and which of the two callbacks it runs. */
  datatype Owner = PingOf(conn: nat) | PongOf(conn: nat)

  /** The per-connection state; a timer id of 0 stands for no timer. */
  datatype Conn = Conn(hasOpened: bool, waitingPong: bool, pingTimerId: nat, pongTimerId: nat, closed: bool,
                       pingIntervalMs: uint64, pongTimeoutMs: uint64)

  /** What an observer of the connections sees, each with the tick at which it happens. */
  datatype Observed =
    | Opened(conn: nat, tick: nat)
    | PingSent(conn: nat, tick: nat)  // handed to the pipeline
    | Received(conn: nat, opcode: Opcode, tick: nat)
    | TimedOut(conn: nat, tick: nat)

  /** What handing a frame to the pipeline does: nothing more, or it fails, or it overflows the write buffer. */
  datatype Write = Passes | Breaks | Overflows

  /** What happens in callbacks: to the PINGs that do not simply pass, and in the timers of others. */
  datatype World = World(writes: map<nat, Write>, others: map<nat, seq<Action>>)

  datatype Client = Client(now: nat, conns: map<nat, Conn>, owner: map<nat, Owner>, trace: seq<Observed>, world: World)

  /** A client state, the timer actions that led to it, and the next id the wheel will issue. */
  datatype Effect = Effect(c: Client, acts: seq<Action>, next: nat)

  // ---- The handler ----

  function CancelTimers(e: Effect, k: nat): (r: Effect)
    requires k in e.c.conns
    ensures r.c.conns.Keys == e.c.conns.Keys
  {
    var st := e.c.conns[k];
    Effect(e.c.(conns := e.c.conns[k := st.(pingTimerId := 0, pongTimerId := 0, waitingPong := false)]),
           e.acts + (if st.pingTimerId != 0 then [Cancel(st.pingTimerId)] else [])
                  + (if st.pongTimerId != 0 then [Cancel(st.pongTimerId)] else []),
           e.next)
  }

  function SchedulePing(e: Effect, k: nat): (r: Effect)
    requires k in e.c.conns
    ensures r.c.conns.Keys == e.c.conns.Keys
  {
    var e1 := CancelTimers(e, k);
    if e.c.conns[k].pingIntervalMs == 0 then e1 else ArmPing(e1, k)
  }

  function ArmPing(e: Effect, k: nat): (r: Effect)
    requires k in e.c.conns
    ensures r.c.conns.Keys == e.c.conns.Keys
  {
    var st := e.c.conns[k];
    Effect(e.c.(conns := e.c.conns[k := st.(pingTimerId := e.next)], owner := e.c.owner[e.next := PingOf(k)]),
           e.acts + [Add(st.pingIntervalMs)], e.next + 1)
  }

  /** The ping callback, past its check that no PONG is awaited. */
  function SendPing(e: Effect, k: nat): (r: Effect)
    requires k in e.c.conns
    ensures r.c.conns.Keys == e.c.conns.Keys
  {
    var st := e.c.conns[k];
    Effect(e.c.(conns := e.c.conns[k := st.(waitingPong := true, pingTimerId := 0, pongTimerId := e.next)],
                owner := e.c.owner[e.next := PongOf(k)],
                trace := e.c.trace + [PingSent(k, e.c.now)]),
           e.acts + [Add(st.pongTimeoutMs)], e.next + 1)
  }

  function Open(e: Effect, k: nat): (r: Effect)
    requires k in e.c.conns
    ensures r.c.conns.Keys == e.c.conns.Keys
  {
    if e.c.conns[k].hasOpened then e
    else SchedulePing(e.(c := e.c.(conns := e.c.conns[k := e.c.conns[k].(hasOpened := true)])), k)
  }

  predicate Resets(op: Opcode) {
    op != Reserved
  }

  function Note(e: Effect, o: Observed): Effect {
    e.(c := e.c.(trace := e.c.trace + [o]))
  }

  /** Closing the connection makes it inactive, which cancels its timers; closing it again does nothing. */
  function CloseConn(e: Effect, k: nat): (r: Effect)
    requires k in e.c.conns
    ensures r.c.conns.Keys == e.c.conns.Keys
  {
    if e.c.conns[k].closed then e
    else CancelTimers(e.(c := e.c.(conns := e.c.conns[k := e.c.conns[k].(closed := true)])), k)
  }

  /** A failed write marks the connection closed and tells no handler. */
  function Break(e: Effect, k: nat): (r: Effect)
    requires k in e.c.conns
    ensures r.c.conns.Keys == e.c.conns.Keys
  {
    e.(c := e.c.(conns := e.c.conns[k := e.c.conns[k].(closed := true)]))
  }

  function WriteOf(c: Client, id: nat): Write {
    if id in c.world.writes then c.world.writes[id] else Passes
  }

  /** The write of a frame, whatever becomes of it. */
  function Written(e: Effect, k: nat, w: Write): (r: Effect)
    requires k in e.c.conns
    ensures r.c.conns.Keys == e.c.conns.Keys
  {
    match w
    case Passes => e
    case Breaks => Break(e, k)
    case Overflows => CloseConn(e, k)
  }

  /** Opening, as it is observed. */
  function Opening(e: Effect, k: nat): (r: Effect)
    requires k in e.c.conns
    ensures r.c.conns.Keys == e.c.conns.Keys
  {
    if e.c.conns[k].hasOpened then e else Note(Open(e, k), Opened(k, e.c.now))
  }

  /** `channelRead` with a frame; `answer` is what becomes of the PONG or CLOSE written in answer, if any. */
  function ReadFrame(e: Effect, k: nat, op: Opcode, answer: Write): Effect
    requires k in e.c.conns
  {
    Note(FrameTimers(Opening(e, k), k, op, answer), Received(k, op, e.c.now))
  }

  function FrameTimers(e: Effect, k: nat, op: Opcode, answer: Write): (r: Effect)
    requires k in e.c.conns
    ensures r.c.conns.Keys == e.c.conns.Keys
  {
    match op
    case Pong => SchedulePing(CancelTimers(e, k), k)
    case Ping => SchedulePing(Written(e, k, answer), k)
    case Text => SchedulePing(e, k)
    case Binary => SchedulePing(e, k)
    case Close => Written(CancelTimers(e, k), k, answer)
    case Reserved => e
  }

  /** What others do with the wheel: anything but cancel a keep-alive timer. */
  function Foreign(e: Effect, acts: seq<Action>): Effect {
    var allowed := Allowed(e.c, acts);
    e.(acts := e.acts + allowed, next := e.next + Additions(allowed))
  }

  function Allowed(c: Client, acts: seq<Action>): (r: seq<Action>)
    ensures forall i | 0 <= i < |r| :: IsForeign(c, r[i])
  {
    if acts == [] then []
    else (if IsForeign(c, acts[0]) then [acts[0]] else []) + Allowed(c, acts[1..])
  }

  predicate IsForeign(c: Client, a: Action) {
    a.Cancel? ==> a.id !in c.owner
  }

  function Additions(acts: seq<Action>): nat {
    if acts == [] then 0 else (if acts[0].Add? then 1 else 0) + Additions(acts[1..])
  }

  function Fire(e: Effect, id: nat): Effect {
    if id !in e.c.owner then Foreign(e, if id in e.c.world.others then e.c.world.others[id] else [])
    else
      match e.c.owner[id]
      case PingOf(k) =>
        if k !in e.c.conns || e.c.conns[k].waitingPong then e else SendPing(Written(e, k, WriteOf(e.c, id)), k)
      case PongOf(k) =>
        if k !in e.c.conns || e.c.conns[k].closed then e
        else CloseConn(Note(e, TimedOut(k, e.c.now)), k)
  }

  /** The callback of timer `id`. */
  function FireTimer(c: Client, id: nat, next: nat): (Client, seq<Action>) {
    var e := Fire(Effect(c, [], next), id);
    (e.c, e.acts)
  }

  const Quiet := World(map[], map[])

  // ---- Runs ----

  datatype Event =
    | Connect(conn: nat, pingIntervalMs: uint64, pongTimeoutMs: uint64)
    | Frame(conn: nat, opcode: Opcode, answer: Write)
    | OtherMessage(conn: nat)     // a message that is no frame
    | Inactive(conn: nat)
    | Broken(conn: nat)           // a write of the application fails
    | Others(acts: seq<Action>)   // someone else adds and cancels timers
    | Turn

  function Handle(e: Effect, ev: Event): Effect
    requires !ev.Turn?
  {
    match ev
    case Connect(k, ping, pong) =>
      if k in e.c.conns then e
      else e.(c := e.c.(conns := e.c.conns[k := Conn(false, false, 0, 0, false, ping, pong)]))
    case Frame(k, op, answer) => if k in e.c.conns then ReadFrame(e, k, op, answer) else e
    case OtherMessage(k) => if k in e.c.conns then Opening(e, k) else e
    case Inactive(k) => if k in e.c.conns then CloseConn(e, k) else e
    case Broken(k) => if k in e.c.conns then Break(e, k) else e
    case Others(acts) => Foreign(e, acts)
  }

  datatype State = State(d: Deadlines, c: Client)

  function Step(s: State, ev: Event): (r: State)
    requires s.d.Valid()
    ensures r.d.Valid() && r.d.tickMs == s.d.tickMs && r.d.numSlots == s.d.numSlots
  {
    if ev.Turn? then
      var r := RefTick(s.d, s.c, FireTimer);
      State(r.0, r.1.(now := r.0.currentTick))
    else
      var e := Handle(Effect(s.c, [], s.d.nextId), ev);
      State(RefDoAll(s.d, e.acts, s.d.currentTick), e.c)
  }

  function Run(s: State, events: seq<Event>): (r: State)
    requires s.d.Valid()
    ensures r.d.Valid() && r.d.tickMs == s.d.tickMs && r.d.numSlots == s.d.numSlots
    decreases |events|
  {
    if events == [] then s else Step(Run(s, events[..|events| - 1]), events[|events| - 1])
  }

  /** No connection yet. */
  function Fresh(d: Deadlines, world: World): State {
    State(d, Client(d.currentTick, map[], map[], [], world))
  }

  // ---- The invariant ----

  /** The tick of the last PING to `k`, if nothing that resets the keep-alive has been received from it since. */
  function PingUnanswered(trace: seq<Observed>, k: nat): Option<nat>
    decreases |trace|
  {
    if trace == [] then None
    else
      var last := trace[|trace| - 1];
      if last.PingSent? && last.conn == k then Some(last.tick)
      else if last.Received? && last.conn == k && Resets(last.opcode) then None
      else PingUnanswered(trace[..|trace| - 1], k)
  }

  /** The tick in which a pong timer started in the turn `tick` fires. */
  function PongDue(d: Deadlines, tick: nat, pongTimeoutMs: uint64): nat
    requires d.Valid()
  {
    FireTick(ExpireTick(tick, pongTimeoutMs, d.tickMs), tick + 1, d.numSlots)
  }

  /** Still to fire: in the set, or taken out of it in this turn and not run yet. */
  predicate Armed(d: Deadlines, todo: seq<nat>, id: nat) {
    id in d.pending || id in todo
  }

  ghost predicate ConnOk(d: Deadlines, c: Client, todo: seq<nat>, k: nat)
    requires d.Valid() && k in c.conns
  {
    var st := c.conns[k];
    && (st.pingTimerId != 0 ==>
          && st.pongTimerId == 0 && !st.waitingPong
          && Armed(d, todo, st.pingTimerId)
          && st.pingTimerId in c.owner && c.owner[st.pingTimerId] == PingOf(k))
    && (st.pongTimerId != 0 ==>
          && st.pongTimerId in c.owner && c.owner[st.pongTimerId] == PongOf(k)
          && (Armed(d, todo, st.pongTimerId) || st.closed)
          && (Armed(d, todo, st.pongTimerId) ==>
                && PingUnanswered(c.trace, k).Some?
                && st.pongTimerId in d.deadline
                && d.deadline[st.pongTimerId] == PongDue(d, PingUnanswered(c.trace, k).value, st.pongTimeoutMs)))
  }

  /** An armed timer of a connection is the one its state names. */
  predicate OwnerOk(c: Client, id: nat)
    requires id in c.owner
  {
    match c.owner[id]
    case PingOf(k) => k in c.conns && c.conns[k].pingTimerId == id
    case PongOf(k) => k in c.conns && c.conns[k].pongTimerId == id
  }

  ghost predicate TimeoutOk(d: Deadlines, c: Client, i: nat)
    requires d.Valid() && i < |c.trace| && c.trace[i].TimedOut?
  {
    var k := c.trace[i].conn;
    var ping := PingUnanswered(c.trace[..i], k);
    k in c.conns && ping.Some? && c.trace[i].tick == PongDue(d, ping.value, c.conns[k].pongTimeoutMs)
  }

  ghost predicate Good(d: Deadlines, c: Client, todo: seq<nat>) {
    && d.Valid()
    && d.nextId > 0
    && c.now == d.currentTick
    && 0 !in c.owner
    && (forall id | id in c.owner :: id < d.nextId)
    && (forall id | id in d.pending || id in todo :: id < d.nextId)
    && (forall i, j | 0 <= i < j < |todo| :: todo[i] != todo[j])
    && (forall id | id in todo :: id !in d.pending && id in d.deadline && d.deadline[id] == d.currentTick)
    && (forall k | k in c.conns :: ConnOk(d, c, todo, k))
    && (forall id | id in c.owner && Armed(d, todo, id) :: OwnerOk(c, id))
    && (forall i | 0 <= i < |c.trace| && c.trace[i].TimedOut? :: TimeoutOk(d, c, i))
  }

  /** The actions of an effect, run from `d`, lead to a good state. */
  ghost predicate Sound(d: Deadlines, e: Effect, from: nat, todo: seq<nat>) {
    && d.Valid()
    && RefDoAll(d, e.acts, from).nextId == e.next
    && Good(RefDoAll(d, e.acts, from), e.c, todo)
  }

  lemma {:induction false} DoAllOfConcat(d: Deadlines, a: seq<Action>, b: seq<Action>, from: nat)
    requires d.Valid()
    ensures RefDoAll(d, a + b, from) == RefDoAll(RefDoAll(d, a, from), b, from)
    decreases |a|
  {
    if a == [] {
      assert a + b == b;
    } else {
      assert (a + b)[1..] == a[1..] + b;
      DoAllOfConcat(RefDo(d, a[0], from), a[1..], b, from);
    }
  }

  lemma DoAllOfSnoc(d: Deadlines, a: seq<Action>, x: Action, from: nat)
    requires d.Valid()
    ensures RefDoAll(d, a + [x], from) == RefDo(RefDoAll(d, a, from), x, from)
  {
    DoAllOfConcat(d, a, [x], from);
    assert [x][1..] == [];
  }

  lemma UnansweredAfter(trace: seq<Observed>, o: Observed, k: nat)
    ensures PingUnanswered(trace + [o], k)
         == if o.PingSent? && o.conn == k then Some(o.tick)
            else if o.Received? && o.conn == k && Resets(o.opcode) then None
            else PingUnanswered(trace, k)
  {
  }

  /** Timeouts seen so far stay explained when the trace grows. */
  lemma TimeoutsKept(d: Deadlines, c: Client, d': Deadlines, c': Client)
    requires d.Valid() && d'.Valid() && d'.tickMs == d.tickMs && d'.numSlots == d.numSlots
    requires forall i | 0 <= i < |c.trace| && c.trace[i].TimedOut? :: TimeoutOk(d, c, i)
    requires c.trace <= c'.trace
    requires forall k | k in c.conns :: k in c'.conns && c'.conns[k].pongTimeoutMs == c.conns[k].pongTimeoutMs
    ensures forall i | 0 <= i < |c.trace| && c'.trace[i].TimedOut? :: TimeoutOk(d', c', i)
  {
    forall i | 0 <= i < |c.trace| && c'.trace[i].TimedOut?
      ensures TimeoutOk(d', c', i)
    {
      assert c'.trace[..i] == c.trace[..i];
      assert TimeoutOk(d, c, i);
    }
  }

  // ---- Each step of the handler keeps it ----

  lemma ActsOfCancel(d: Deadlines, c: Client, k: nat, from: nat)
    requires d.Valid() && k in c.conns && (c.conns[k].pingTimerId == 0 || c.conns[k].pongTimerId == 0)
    ensures RefDoAll(d, CancelTimers(Effect(c, [], d.nextId), k).acts, from)
         == if c.conns[k].pingTimerId != 0 then RefDo(d, Cancel(c.conns[k].pingTimerId), from)
            else if c.conns[k].pongTimerId != 0 then RefDo(d, Cancel(c.conns[k].pongTimerId), from)
            else d
  {
  }

  lemma GoodCancel(d: Deadlines, c: Client, todo: seq<nat>, k: nat, from: nat)
    requires Good(d, c, todo) && k in c.conns
    requires c.conns[k].pingTimerId != 0 ==> c.conns[k].pingTimerId !in todo
    requires c.conns[k].pongTimerId != 0 ==> c.conns[k].pongTimerId !in todo
    ensures Sound(d, CancelTimers(Effect(c, [], d.nextId), k), from, todo)
  {
    var e := CancelTimers(Effect(c, [], d.nextId), k);
    var st := c.conns[k];
    assert ConnOk(d, c, todo, k);
    ActsOfCancel(d, c, k, from);
    var d' := RefDoAll(d, e.acts, from);
    forall j | j in e.c.conns
      ensures ConnOk(d', e.c, todo, j)
    {
      assert ConnOk(d, c, todo, j);
    }
    forall id | id in e.c.owner && Armed(d', todo, id)
      ensures OwnerOk(e.c, id)
    {
      assert OwnerOk(c, id);
    }
    TimeoutsKept(d, c, d', e.c);
  }

  lemma GoodArm(d: Deadlines, c: Client, todo: seq<nat>, k: nat, from: nat)
    requires Good(d, c, todo) && k in c.conns
    requires c.conns[k].pingTimerId == 0 && c.conns[k].pongTimerId == 0 && !c.conns[k].waitingPong
    ensures Sound(d, ArmPing(Effect(c, [], d.nextId), k), from, todo)
  {
    var e := ArmPing(Effect(c, [], d.nextId), k);
    DoAllOfSnoc(d, [], Add(c.conns[k].pingIntervalMs), from);
    var d' := RefDoAll(d, e.acts, from);
    forall j | j in e.c.conns
      ensures ConnOk(d', e.c, todo, j)
    {
      assert ConnOk(d, c, todo, j);
    }
    forall id | id in e.c.owner && Armed(d', todo, id)
      ensures OwnerOk(e.c, id)
    {
      assert id != d.nextId ==> OwnerOk(c, id);
    }
    TimeoutsKept(d, c, d', e.c);
  }

  /** Changing a connection in what the timers do not depend on. */
  lemma GoodConnChange(d: Deadlines, c: Client, todo: seq<nat>, k: nat, st: Conn)
    requires Good(d, c, todo)
    requires st == (if k in c.conns then c.conns[k].(hasOpened := st.hasOpened, closed := st.closed)
                    else Conn(false, false, 0, 0, false, st.pingIntervalMs, st.pongTimeoutMs))
    requires k in c.conns && c.conns[k].closed ==> st.closed
    ensures Good(d, c.(conns := c.conns[k := st]), todo)
  {
  }

  /** A due timer that is no longer to be run changes nothing once its connection forgets it. */
  lemma GoodDrop(d: Deadlines, c: Client, todo: seq<nat>)
    requires Good(d, c, todo) && todo != []
    requires todo[0] in c.owner ==>
               match c.owner[todo[0]]
               case PingOf(k) => false
               case PongOf(k) => c.conns[k].closed
    ensures Good(d, c, todo[1..])
  {
    var id := todo[0];
    assert forall x | x in todo[1..] :: x in todo && x != id;
    forall k | k in c.conns
      ensures ConnOk(d, c, todo[1..], k)
    {
      assert ConnOk(d, c, todo, k);
    }
    forall x | x in c.owner && Armed(d, todo[1..], x)
      ensures OwnerOk(c, x)
    {
      assert Armed(d, todo, x);
    }
  }

  /** The client after a PING, once the pong timer is in the set. */
  lemma GoodAfterSend(d: Deadlines, c: Client, todo: seq<nat>, k: nat, d': Deadlines, c': Client)
    requires Good(d, c, todo) && todo != [] && todo[0] in c.owner && c.owner[todo[0]] == PingOf(k)
    requires k in c.conns && c' == SendPing(Effect(c, [], d.nextId), k).c
    requires d' == RefDo(d, Add(c.conns[k].pongTimeoutMs), d.currentTick + 1)
    ensures forall j | j in c'.conns :: ConnOk(d', c', todo[1..], j)
    ensures forall x | x in c'.owner && Armed(d', todo[1..], x) :: OwnerOk(c', x)
  {
    var id := todo[0];
    assert Armed(d, todo, id) && OwnerOk(c, id) && ConnOk(d, c, todo, k);
    assert forall x | x in todo[1..] :: x in todo && x != id;
    forall j | j in c'.conns
      ensures ConnOk(d', c', todo[1..], j)
    {
      assert ConnOk(d, c, todo, j);
      UnansweredAfter(c.trace, PingSent(k, c.now), j);
    }
    forall x | x in c'.owner && Armed(d', todo[1..], x)
      ensures OwnerOk(c', x)
    {
      assert x != d.nextId ==> OwnerOk(c, x);
    }
  }

  /** An addition by the callback of the first of `todo` leaves the rest due as they were. */
  lemma TodoAfterAdd(d: Deadlines, c: Client, todo: seq<nat>, delayMs: uint64)
    requires Good(d, c, todo) && todo != []
    ensures var d' := RefDo(d, Add(delayMs), d.currentTick + 1);
            && (forall id | id in d'.pending || id in todo[1..] :: id < d'.nextId)
            && (forall i, j | 0 <= i < j < |todo[1..]| :: todo[1..][i] != todo[1..][j])
            && (forall id | id in todo[1..] ::
                  id !in d'.pending && id in d'.deadline && d'.deadline[id] == d'.currentTick)
  {
    assert forall x | x in todo[1..] :: x in todo;
  }

  lemma GoodSend(d: Deadlines, c: Client, todo: seq<nat>, k: nat)
    requires Good(d, c, todo) && todo != [] && todo[0] in c.owner && c.owner[todo[0]] == PingOf(k) && k in c.conns
    ensures Sound(d, SendPing(Effect(c, [], d.nextId), k), d.currentTick + 1, todo[1..])
  {
    var e := SendPing(Effect(c, [], d.nextId), k);
    DoAllOfSnoc(d, [], Add(c.conns[k].pongTimeoutMs), d.currentTick + 1);
    var d' := RefDoAll(d, e.acts, d.currentTick + 1);
    assert d' == RefDo(d, Add(c.conns[k].pongTimeoutMs), d.currentTick + 1);
    GoodAfterSend(d, c, todo, k, d', e.c);
    TimeoutsKept(d, c, d', e.c);
    TodoAfterAdd(d, c, todo, c.conns[k].pongTimeoutMs);
    hide ConnOk, OwnerOk, TimeoutOk, FireTick, ExpireTick, RefDoAll, Armed;
  }

  /** The ping timer being run is the one its connection names, and out of the set already. */
  lemma PingBeingRun(d: Deadlines, c: Client, todo: seq<nat>, k: nat)
    requires Good(d, c, todo) && todo != [] && todo[0] in c.owner && c.owner[todo[0]] == PingOf(k)
    ensures k in c.conns && !c.conns[k].waitingPong
    ensures c.conns[k].pingTimerId == todo[0] != 0 && c.conns[k].pongTimerId == 0 && todo[0] !in d.pending && d.Valid()
  {
  }

  /** A PING is sent; if the write closes the connection, the pong timer is started all the same. */
  lemma GoodPing(d: Deadlines, c: Client, todo: seq<nat>, k: nat, w: Write)
    requires Good(d, c, todo) && todo != [] && todo[0] in c.owner && c.owner[todo[0]] == PingOf(k)
    ensures k in c.conns && !c.conns[k].waitingPong
    ensures Sound(d, SendPing(Written(Effect(c, [], d.nextId), k, w), k), d.currentTick + 1, todo[1..])
  {
    PingBeingRun(d, c, todo, k);
    if w == Passes || (w == Overflows && c.conns[k].closed) {
      GoodSend(d, c, todo, k);
    } else {
      var b := c.(conns := c.conns[k := c.conns[k].(closed := true)]);
      GoodConnChange(d, c, todo, k, c.conns[k].(closed := true));
      GoodSend(d, b, todo, k);
      hide Good;
      if w == Overflows {
        OverflowIsBreak(d, c, todo[0], k);
      }
    }
  }

  /** Closing the connection in the callback cancels the timer being run, which does nothing. */
  lemma OverflowIsBreak(d: Deadlines, c: Client, id: nat, k: nat)
    requires d.Valid() && k in c.conns && !c.conns[k].closed && id !in d.pending
    requires c.conns[k].pingTimerId == id != 0 && c.conns[k].pongTimerId == 0
    ensures var e := Effect(c, [], d.nextId);
            var x, y := SendPing(Written(e, k, Overflows), k), SendPing(Written(e, k, Breaks), k);
            x.c == y.c && x.next == y.next
            && RefDoAll(d, x.acts, d.currentTick + 1) == RefDoAll(d, y.acts, d.currentTick + 1)
  {
    var from := d.currentTick + 1;
    var timeout := Add(c.conns[k].pongTimeoutMs);
    OverflowActs(c, d.nextId, k);
    assert RefDo(d, Cancel(id), from) == d;
    hide SendPing, Written;
    DoAllOfSnoc(d, [Cancel(id)], timeout, from);
    DoAllOfSnoc(d, [], Cancel(id), from);
    DoAllOfSnoc(d, [], timeout, from);
    assert [] + [timeout] == [timeout] && [] + [Cancel(id)] == [Cancel(id)];
  }

  lemma OverflowActs(c: Client, next: nat, k: nat)
    requires k in c.conns && !c.conns[k].closed && c.conns[k].pingTimerId != 0 && c.conns[k].pongTimerId == 0
    ensures var e := Effect(c, [], next);
            var x, y := SendPing(Written(e, k, Overflows), k), SendPing(Written(e, k, Breaks), k);
            var timeout := Add(c.conns[k].pongTimeoutMs);
            x.c == y.c && x.next == y.next
            && y.acts == [timeout] && x.acts == [Cancel(c.conns[k].pingTimerId)] + [timeout]
  {
  }

  lemma GoodNoteTimeout(d: Deadlines, c: Client, todo: seq<nat>, k: nat, c2: Client)
    requires Good(d, c, todo) && todo != [] && todo[0] in c.owner && c.owner[todo[0]] == PongOf(k)
    requires k in c.conns && !c.conns[k].closed
    requires c2 == c.(trace := c.trace + [TimedOut(k, c.now)], conns := c.conns[k := c.conns[k].(closed := true)])
    ensures Good(d, c2, todo[1..])
    ensures c.conns[k].pingTimerId == 0 && c.conns[k].pongTimerId !in todo[1..]
  {
    var id := todo[0];
    assert Armed(d, todo, id) && OwnerOk(c, id) && ConnOk(d, c, todo, k);
    assert forall x | x in todo[1..] :: x in todo && x != id;
    forall j | j in c2.conns
      ensures ConnOk(d, c2, todo[1..], j)
    {
      assert ConnOk(d, c, todo, j);
      UnansweredAfter(c.trace, TimedOut(k, c.now), j);
    }
    forall x | x in c2.owner && Armed(d, todo[1..], x)
      ensures OwnerOk(c2, x)
    {
      assert Armed(d, todo, x) && OwnerOk(c, x);
    }
    TimeoutsKept(d, c, d, c2);
    assert c2.trace[..|c.trace|] == c.trace;
    assert TimeoutOk(d, c2, |c.trace|);
  }

  lemma GoodTimeout(d: Deadlines, c: Client, todo: seq<nat>, k: nat)
    requires Good(d, c, todo) && todo != [] && todo[0] in c.owner && c.owner[todo[0]] == PongOf(k)
    requires k in c.conns && !c.conns[k].closed
    ensures Sound(d, CloseConn(Note(Effect(c, [], d.nextId), TimedOut(k, c.now)), k), d.currentTick + 1, todo[1..])
  {
    var c2 := c.(trace := c.trace + [TimedOut(k, c.now)], conns := c.conns[k := c.conns[k].(closed := true)]);
    GoodNoteTimeout(d, c, todo, k, c2);
    hide Good;
    GoodCancel(d, c2, todo[1..], k, d.currentTick + 1);
  }

  lemma GoodForeignOne(d: Deadlines, c: Client, todo: seq<nat>, a: Action, from: nat)
    requires Good(d, c, todo) && IsForeign(c, a)
    ensures Good(RefDo(d, a, from), c, todo)
  {
  }

  /** What others do leaves the keep-alive as it is. */
  lemma {:induction false} GoodForeign(d: Deadlines, c: Client, todo: seq<nat>, acts: seq<Action>, from: nat)
    requires Good(d, c, todo) && forall i | 0 <= i < |acts| :: IsForeign(c, acts[i])
    ensures d.Valid() && Good(RefDoAll(d, acts, from), c, todo)
    ensures RefDoAll(d, acts, from).nextId == d.nextId + Additions(acts)
    decreases |acts|
  {
    assert d.Valid();
    hide Good, IsForeign;
    if acts != [] {
      GoodForeignOne(d, c, todo, acts[0], from);
      GoodForeign(RefDo(d, acts[0], from), c, todo, acts[1..], from);
    }
  }

  /** One callback of a turn. */
  lemma GoodFire(d: Deadlines, c: Client, todo: seq<nat>)
    requires Good(d, c, todo) && todo != []
    ensures Sound(d, Fire(Effect(c, [], d.nextId), todo[0]), d.currentTick + 1, todo[1..])
  {
    var id := todo[0];
    if id !in c.owner {
      GoodDrop(d, c, todo);
      var acts := Allowed(c, if id in c.world.others then c.world.others[id] else []);
      assert [] + acts == acts;
      GoodForeign(d, c, todo[1..], acts, d.currentTick + 1);
    } else {
      assert Armed(d, todo, id) && OwnerOk(c, id);
      match c.owner[id]
      case PingOf(k) => GoodPing(d, c, todo, k, WriteOf(c, id));
      case PongOf(k) =>
        if c.conns[k].closed {
          GoodDrop(d, c, todo);
        } else {
          GoodTimeout(d, c, todo, k);
        }
    }
  }

  lemma {:induction false} GoodFireAll(d: Deadlines, c: Client, todo: seq<nat>)
    requires Good(d, c, todo)
    ensures Good(RefFireAll(d, c, todo, FireTimer).0, RefFireAll(d, c, todo, FireTimer).1, [])
    decreases |todo|
  {
    assert d.Valid();
    hide Good, Fire;
    if todo != [] {
      GoodFire(d, c, todo);
      var e := Fire(Effect(c, [], d.nextId), todo[0]);
      GoodFireAll(RefDoAll(d, e.acts, d.currentTick + 1), e.c, todo[1..]);
    }
  }

  lemma GoodTakeDue(d: Deadlines, c: Client)
    requires Good(d, c, [])
    ensures Good(TakeDue(d), c, DueIds(d))
  {
    var d' := TakeDue(d);
    var due := DueIds(d);
    DueBelowIsSorted(d, d.nextId);
    assert forall id: nat :: Armed(d', due, id) <==> Armed(d, [], id);
    forall k | k in c.conns
      ensures ConnOk(d', c, due, k)
    {
      assert ConnOk(d, c, [], k);
    }
    forall id | id in c.owner && Armed(d', due, id)
      ensures OwnerOk(c, id)
    {
      assert Armed(d, [], id);
    }
    TimeoutsKept(d, c, d', c);
  }

  lemma GoodNextTick(d: Deadlines, c: Client)
    requires Good(d, c, [])
    ensures Good(d.(currentTick := d.currentTick + 1), c.(now := d.currentTick + 1), [])
  {
  }

  lemma GoodTurn(s: State)
    requires s.d.Valid() && Good(s.d, s.c, [])
    ensures Good(Step(s, Event.Turn).d, Step(s, Event.Turn).c, [])
  {
    hide Good, FireTimer;
    GoodTakeDue(s.d, s.c);
    GoodFireAll(TakeDue(s.d), s.c, DueIds(s.d));
    RefTickParts(s.d, s.c, FireTimer);
    var r := RefFireAll(TakeDue(s.d), s.c, DueIds(s.d), FireTimer);
    GoodNextTick(r.0, r.1);
  }

  // ---- Events between turns ----

  lemma SoundThen(d: Deadlines, e: Effect, next: Effect, whole: Effect, from: nat)
    requires Sound(d, e, from, [])
    requires Sound(RefDoAll(d, e.acts, from), next, from, [])
    requires whole == Effect(next.c, e.acts + next.acts, next.next)
    ensures Sound(d, whole, from, [])
  {
    DoAllOfConcat(d, e.acts, next.acts, from);
  }

  lemma SoundCancel(d: Deadlines, e: Effect, from: nat, k: nat)
    requires Sound(d, e, from, []) && k in e.c.conns
    ensures Sound(d, CancelTimers(e, k), from, [])
  {
    var d1 := RefDoAll(d, e.acts, from);
    GoodCancel(d1, e.c, [], k, from);
    SoundThen(d, e, CancelTimers(Effect(e.c, [], e.next), k), CancelTimers(e, k), from);
  }

  lemma SoundSchedule(d: Deadlines, e: Effect, from: nat, k: nat)
    requires Sound(d, e, from, []) && k in e.c.conns
    ensures Sound(d, SchedulePing(e, k), from, [])
  {
    hide Good;
    SoundCancel(d, e, from, k);
    if e.c.conns[k].pingIntervalMs != 0 {
      var e1 := CancelTimers(e, k);
      GoodArm(RefDoAll(d, e1.acts, from), e1.c, [], k, from);
      SoundThen(d, e1, ArmPing(Effect(e1.c, [], e1.next), k), ArmPing(e1, k), from);
    }
  }

  /** Noting a frame, once nothing waits for a PONG any more if the frame resets the keep-alive. */
  lemma GoodReceived(d: Deadlines, c: Client, k: nat, op: Opcode, tick: nat)
    requires Good(d, c, []) && k in c.conns
    requires Resets(op) ==> c.conns[k].pongTimerId == 0
    ensures Good(d, c.(trace := c.trace + [Received(k, op, tick)]), [])
  {
    var c' := c.(trace := c.trace + [Received(k, op, tick)]);
    forall j | j in c'.conns
      ensures ConnOk(d, c', [], j)
    {
      assert ConnOk(d, c, [], j);
      UnansweredAfter(c.trace, Received(k, op, tick), j);
    }
    forall id | id in c'.owner && Armed(d, [], id)
      ensures OwnerOk(c', id)
    {
      assert OwnerOk(c, id);
    }
    TimeoutsKept(d, c, d, c');
  }

  lemma SoundOpen(d: Deadlines, e: Effect, from: nat, k: nat)
    requires Sound(d, e, from, []) && k in e.c.conns
    ensures Sound(d, Open(e, k), from, [])
  {
    if !e.c.conns[k].hasOpened {
      var st := e.c.conns[k].(hasOpened := true);
      GoodConnChange(RefDoAll(d, e.acts, from), e.c, [], k, st);
      SoundSchedule(d, e.(c := e.c.(conns := e.c.conns[k := st])), from, k);
    }
  }

  lemma SoundClose(d: Deadlines, e: Effect, from: nat, k: nat)
    requires Sound(d, e, from, []) && k in e.c.conns
    ensures Sound(d, CloseConn(e, k), from, [])
  {
    if !e.c.conns[k].closed {
      var st := e.c.conns[k].(closed := true);
      GoodConnChange(RefDoAll(d, e.acts, from), e.c, [], k, st);
      SoundCancel(d, e.(c := e.c.(conns := e.c.conns[k := st])), from, k);
    }
  }

  lemma SoundWritten(d: Deadlines, e: Effect, from: nat, k: nat, w: Write)
    requires Sound(d, e, from, []) && k in e.c.conns
    ensures Sound(d, Written(e, k, w), from, [])
  {
    match w
    case Passes =>
    case Breaks => GoodConnChange(RefDoAll(d, e.acts, from), e.c, [], k, e.c.conns[k].(closed := true));
    case Overflows => SoundClose(d, e, from, k);
  }

  lemma SoundFrameTimers(d: Deadlines, e: Effect, from: nat, k: nat, op: Opcode, answer: Write)
    requires Sound(d, e, from, []) && k in e.c.conns
    ensures Sound(d, FrameTimers(e, k, op, answer), from, [])
    ensures Resets(op) ==> FrameTimers(e, k, op, answer).c.conns[k].pongTimerId == 0
  {
    hide Sound;
    match op
    case Pong =>
      SoundCancel(d, e, from, k);
      SoundSchedule(d, CancelTimers(e, k), from, k);
    case Ping =>
      SoundWritten(d, e, from, k, answer);
      SoundSchedule(d, Written(e, k, answer), from, k);
    case Text => SoundSchedule(d, e, from, k);
    case Binary => SoundSchedule(d, e, from, k);
    case Close =>
      SoundCancel(d, e, from, k);
      SoundWritten(d, CancelTimers(e, k), from, k, answer);
    case Reserved =>
  }

  /** Noting the opening changes nothing else. */
  lemma GoodOpened(d: Deadlines, c: Client, k: nat, tick: nat)
    requires Good(d, c, [])
    ensures Good(d, c.(trace := c.trace + [Opened(k, tick)]), [])
  {
    var c' := c.(trace := c.trace + [Opened(k, tick)]);
    forall j | j in c'.conns
      ensures ConnOk(d, c', [], j)
    {
      assert ConnOk(d, c, [], j);
      UnansweredAfter(c.trace, Opened(k, tick), j);
    }
    forall id | id in c'.owner && Armed(d, [], id)
      ensures OwnerOk(c', id)
    {
      assert OwnerOk(c, id);
    }
    TimeoutsKept(d, c, d, c');
  }

  lemma SoundOpening(d: Deadlines, e: Effect, from: nat, k: nat)
    requires Sound(d, e, from, []) && k in e.c.conns
    ensures Sound(d, Opening(e, k), from, [])
  {
    hide Good, Open;
    if !e.c.conns[k].hasOpened {
      SoundOpen(d, e, from, k);
      var e1 := Open(e, k);
      GoodOpened(RefDoAll(d, e1.acts, from), e1.c, k, e.c.now);
    }
  }

  lemma SoundFrame(d: Deadlines, e: Effect, from: nat, k: nat, op: Opcode, answer: Write)
    requires Sound(d, e, from, []) && k in e.c.conns
    ensures Sound(d, ReadFrame(e, k, op, answer), from, [])
  {
    hide Good, FrameTimers, Opening;
    SoundOpening(d, e, from, k);
    SoundFrameTimers(d, Opening(e, k), from, k, op, answer);
    var e1 := FrameTimers(Opening(e, k), k, op, answer);
    GoodReceived(RefDoAll(d, e1.acts, from), e1.c, k, op, e.c.now);
  }

  lemma GoodStep(s: State, ev: Event)
    requires s.d.Valid() && Good(s.d, s.c, [])
    ensures Good(Step(s, ev).d, Step(s, ev).c, [])
  {
    var e := Effect(s.c, [], s.d.nextId);
    var from := s.d.currentTick;
    assert Sound(s.d, e, from, []);
    hide Good;
    match ev
    case Turn => GoodTurn(s);
    case Connect(k, ping, pong) =>
      if k !in s.c.conns {
        GoodConnChange(s.d, s.c, [], k, Conn(false, false, 0, 0, false, ping, pong));
      }
    case Frame(k, op, answer) => if k in s.c.conns { SoundFrame(s.d, e, from, k, op, answer); }
    case OtherMessage(k) => if k in s.c.conns { SoundOpening(s.d, e, from, k); }
    case Inactive(k) => if k in s.c.conns { SoundClose(s.d, e, from, k); }
    case Broken(k) =>
      if k in s.c.conns {
        GoodConnChange(s.d, s.c, [], k, s.c.conns[k].(closed := true));
      }
    case Others(acts) =>
      assert [] + Allowed(s.c, acts) == Allowed(s.c, acts);
      GoodForeign(s.d, s.c, [], Allowed(s.c, acts), from);
  }

  lemma {:induction false} GoodRun(d: Deadlines, world: World, events: seq<Event>)
    requires Inv(d, d.currentTick) && d.nextId > 0
    ensures Good(Run(Fresh(d, world), events).d, Run(Fresh(d, world), events).c, [])
    decreases |events|
  {
    if events != [] {
      GoodRun(d, world, events[..|events| - 1]);
      GoodStep(Run(Fresh(d, world), events[..|events| - 1]), events[|events| - 1]);
    }
  }

  // ---- An open connection that awaits a PONG has its pong timer ----

  /**
   No PING is unanswered, or the connection has closed or has opened and holds a pong timer; only an
   opened one holds a ping timer.
   */
  predicate WaitsAt(c: Client, k: nat) {
    && (PingUnanswered(c.trace, k).Some? ==>
          k in c.conns && (c.conns[k].closed || (c.conns[k].hasOpened && c.conns[k].pongTimerId != 0)))
    && (k in c.conns && c.conns[k].pingTimerId != 0 ==> c.conns[k].hasOpened)
  }

  ghost predicate Waits(c: Client) {
    forall k: nat :: WaitsAt(c, k)
  }

  /** From `c` to `c'` only the connection `k` changes; it stays opened and stays closed. */
  ghost predicate OnlyAt(c: Client, c': Client, k: nat) {
    && k in c.conns && c'.conns.Keys == c.conns.Keys && c'.trace == c.trace
    && (forall j | j in c.conns && j != k :: c'.conns[j] == c.conns[j])
    && (c.conns[k].hasOpened ==> c'.conns[k].hasOpened)
    && (c.conns[k].closed ==> c'.conns[k].closed)
    && c'.conns[k].pingIntervalMs == c.conns[k].pingIntervalMs && c'.now == c.now
  }

  lemma OnlyAtTwice(a: Client, b: Client, c: Client, k: nat)
    requires OnlyAt(a, b, k) && OnlyAt(b, c, k)
    ensures OnlyAt(a, c, k)
  {
  }

  lemma ScheduleOnlyAt(e: Effect, k: nat)
    requires k in e.c.conns
    ensures OnlyAt(e.c, CancelTimers(e, k).c, k) && e.acts <= CancelTimers(e, k).acts
    ensures OnlyAt(e.c, SchedulePing(e, k).c, k) && e.acts <= SchedulePing(e, k).acts
  {
  }

  lemma WrittenOnlyAt(e: Effect, k: nat, w: Write)
    requires k in e.c.conns
    ensures OnlyAt(e.c, Written(e, k, w).c, k) && e.acts <= Written(e, k, w).acts
  {
  }

  lemma OpenOnlyAt(e: Effect, k: nat)
    requires k in e.c.conns
    ensures OnlyAt(e.c, Open(e, k).c, k) && Open(e, k).c.conns[k].hasOpened
  {
  }

  lemma TimersOnlyAt(e: Effect, k: nat, op: Opcode, answer: Write)
    requires k in e.c.conns
    ensures OnlyAt(e.c, FrameTimers(e, k, op, answer).c, k) && e.acts <= FrameTimers(e, k, op, answer).acts
  {
    hide CancelTimers, SchedulePing, Written, OnlyAt;
    ScheduleOnlyAt(e, k);
    match op
    case Pong =>
      ScheduleOnlyAt(CancelTimers(e, k), k);
      OnlyAtTwice(e.c, CancelTimers(e, k).c, SchedulePing(CancelTimers(e, k), k).c, k);
    case Ping =>
      WrittenOnlyAt(e, k, answer);
      ScheduleOnlyAt(Written(e, k, answer), k);
      OnlyAtTwice(e.c, Written(e, k, answer).c, SchedulePing(Written(e, k, answer), k).c, k);
    case Close =>
      WrittenOnlyAt(CancelTimers(e, k), k, answer);
      OnlyAtTwice(e.c, CancelTimers(e, k).c, Written(CancelTimers(e, k), k, answer).c, k);
    case Reserved => SameOnlyAt(e.c, k);
    case _ =>
  }

  lemma SameOnlyAt(c: Client, k: nat)
    requires k in c.conns
    ensures OnlyAt(c, c, k)
  {
  }

  /** Noting something that is not a PING, once the connection it is about is as it should be. */
  lemma WaitsAfter(c: Client, c': Client, k: nat, o: Observed)
    requires Waits(c) && OnlyAt(c, c', k) && !o.PingSent? && o.conn == k
    requires WaitsAt(c'.(trace := c'.trace + [o]), k)
    ensures Waits(c'.(trace := c'.trace + [o]))
  {
    var c2 := c'.(trace := c'.trace + [o]);
    forall j: nat
      ensures WaitsAt(c2, j)
    {
      assert WaitsAt(c, j);
      UnansweredAfter(c'.trace, o, j);
    }
  }

  lemma WaitsOnlyAt(c: Client, c': Client, k: nat)
    requires Waits(c) && OnlyAt(c, c', k) && WaitsAt(c', k)
    ensures Waits(c')
  {
    forall j: nat
      ensures WaitsAt(c', j)
    {
      assert WaitsAt(c, j);
    }
  }

  lemma WaitsFrame(e: Effect, k: nat, op: Opcode, answer: Write)
    requires Waits(e.c) && k in e.c.conns
    ensures Waits(ReadFrame(e, k, op, answer).c)
  {
    var e1 := Opening(e, k);
    var e2 := FrameTimers(e1, k, op, answer);
    var o := Received(k, op, e.c.now);
    WaitsOpening(e, k);
    assert WaitsAt(e1.c, k);
    TimersOnlyAt(e1, k, op, answer);
    UnansweredAfter(e2.c.trace, o, k);
    WaitsAfter(e1.c, e2.c, k, o);
  }

  lemma WaitsOpening(e: Effect, k: nat)
    requires Waits(e.c) && k in e.c.conns
    ensures Waits(Opening(e, k).c) && Opening(e, k).c.conns[k].hasOpened
  {
    if !e.c.conns[k].hasOpened {
      var c1 := Open(e, k).c;
      assert WaitsAt(e.c, k);
      OpenOnlyAt(e, k);
      UnansweredAfter(c1.trace, Opened(k, e.c.now), k);
      WaitsAfter(e.c, c1, k, Opened(k, e.c.now));
    }
  }

  /** The ping callback: the PING is unanswered, and the pong timer is held. */
  lemma WaitsPing(e: Effect, k: nat, w: Write)
    requires Waits(e.c) && k in e.c.conns && e.c.conns[k].pingTimerId != 0 && e.next > 0
    ensures Waits(SendPing(Written(e, k, w), k).c)
  {
    assert WaitsAt(e.c, k);
    WrittenOnlyAt(e, k, w);
    var e1 := Written(e, k, w);
    var c2 := SendPing(e1, k).c;
    forall j: nat
      ensures WaitsAt(c2, j)
    {
      assert WaitsAt(e.c, j);
      UnansweredAfter(e1.c.trace, PingSent(k, e1.c.now), j);
    }
  }

  lemma WaitsTimeout(e: Effect, k: nat)
    requires Waits(e.c) && k in e.c.conns && !e.c.conns[k].closed
    ensures Waits(CloseConn(Note(e, TimedOut(k, e.c.now)), k).c)
  {
    var o := TimedOut(k, e.c.now);
    var c1 := CloseConn(e, k).c;
    assert WaitsAt(e.c, k);
    UnansweredAfter(c1.trace, o, k);
    WaitsAfter(e.c, c1, k, o);
  }

  lemma WaitsFire(d: Deadlines, c: Client, todo: seq<nat>)
    requires Good(d, c, todo) && todo != [] && Waits(c)
    ensures Waits(Fire(Effect(c, [], d.nextId), todo[0]).c)
  {
    var id := todo[0];
    var e := Effect(c, [], d.nextId);
    if id in c.owner {
      match c.owner[id]
      case PingOf(k) =>
        PingBeingRun(d, c, todo, k);
        WaitsPing(e, k, WriteOf(c, id));
      case PongOf(k) =>
        if k in c.conns && !c.conns[k].closed {
          WaitsTimeout(e, k);
        }
    }
  }

  lemma {:induction false} WaitsFireAll(d: Deadlines, c: Client, todo: seq<nat>)
    requires Good(d, c, todo) && Waits(c)
    ensures d.Valid() && Waits(RefFireAll(d, c, todo, FireTimer).1)
    decreases |todo|
  {
    assert d.Valid();
    hide Good, Fire, Waits;
    if todo != [] {
      GoodFire(d, c, todo);
      WaitsFire(d, c, todo);
      var e := Fire(Effect(c, [], d.nextId), todo[0]);
      WaitsFireAll(RefDoAll(d, e.acts, d.currentTick + 1), e.c, todo[1..]);
    }
  }

  lemma WaitsTurn(s: State)
    requires s.d.Valid() && Good(s.d, s.c, []) && Waits(s.c)
    ensures Waits(Step(s, Event.Turn).c)
  {
    hide Good, FireTimer;
    GoodTakeDue(s.d, s.c);
    WaitsFireAll(TakeDue(s.d), s.c, DueIds(s.d));
    RefTickParts(s.d, s.c, FireTimer);
    var c := RefFireAll(TakeDue(s.d), s.c, DueIds(s.d), FireTimer).1;
    var c' := c.(now := s.d.currentTick + 1);
    assert forall k: nat :: WaitsAt(c, k) ==> WaitsAt(c', k);
  }

  lemma WaitsHandle(e: Effect, ev: Event)
    requires Waits(e.c) && !ev.Turn?
    ensures Waits(Handle(e, ev).c)
  {
    match ev
    case Frame(k, op, answer) => if k in e.c.conns { WaitsFrame(e, k, op, answer); }
    case OtherMessage(k) => if k in e.c.conns { WaitsOpening(e, k); }
    case Inactive(k) =>
      if k in e.c.conns {
        assert WaitsAt(e.c, k);
        WaitsOnlyAt(e.c, CloseConn(e, k).c, k);
      }
    case Broken(k) =>
      if k in e.c.conns {
        assert WaitsAt(e.c, k);
        WaitsOnlyAt(e.c, Break(e, k).c, k);
      }
    case Connect(k, _, _) =>
      var c' := Handle(e, ev).c;
      forall j: nat
        ensures WaitsAt(c', j)
      {
        assert WaitsAt(e.c, j);
      }
    case Others(_) =>
  }

  lemma {:induction false} WaitsRun(d: Deadlines, world: World, events: seq<Event>)
    requires Inv(d, d.currentTick) && d.nextId > 0
    ensures var s := Run(Fresh(d, world), events); Waits(s.c) && Inv(s.d, s.d.currentTick)
    decreases |events|
  {
    assert d.Valid();
    if events != [] {
      var prefix, last := events[..|events| - 1], events[|events| - 1];
      WaitsRun(d, world, prefix);
      GoodRun(d, world, prefix);
      var s := Run(Fresh(d, world), prefix);
      hide Waits, Good, Inv, Handle, FireTimer;
      if last.Turn? {
        WaitsTurn(s);
        InvTick(s.d, s.c, FireTimer);
      } else {
        var e := Effect(s.c, [], s.d.nextId);
        WaitsHandle(e, last);
        InvDoAll(s.d, Handle(e, last).acts, s.d.currentTick);
      }
    }
  }

  // ---- When a PING is sent ----

  /** The tick of the opening or the last frame that set the ping timer of `k`, if no PING or CLOSE came after it. */
  function LastArm(trace: seq<Observed>, k: nat): Option<nat>
    decreases |trace|
  {
    if trace == [] then None
    else
      var last := trace[|trace| - 1];
      if last.conn != k then LastArm(trace[..|trace| - 1], k)
      else
        match last
        case Opened(_, tick) => Some(tick)
        case PingSent(_, _) => None
        case Received(_, op, tick) =>
          if op == Close then None
          else if op == Reserved then LastArm(trace[..|trace| - 1], k)
          else Some(tick)
        case TimedOut(_, _) => LastArm(trace[..|trace| - 1], k)
  }

  lemma ArmAfter(trace: seq<Observed>, o: Observed, k: nat)
    ensures LastArm(trace + [o], k)
         == if o.conn != k || o.TimedOut? || (o.Received? && o.opcode == Reserved) then LastArm(trace, k)
            else if o.PingSent? || (o.Received? && o.opcode == Close) then None
            else Some(o.tick)
  {
    assert (trace + [o])[..|trace|] == trace;
  }

  /** The tick in which a ping timer set between turns at tick `tick` fires. */
  function PingDue(d: Deadlines, tick: nat, pingIntervalMs: uint64): nat
    requires d.Valid()
  {
    FireTick(ExpireTick(tick, pingIntervalMs, d.tickMs), tick, d.numSlots)
  }

  /** A ping timer held is due the interval after it was set, and an open connection that set one holds it. */
  ghost predicate PingAt(d: Deadlines, c: Client, k: nat)
    requires d.Valid()
  {
    var arm := LastArm(c.trace, k);
    && (arm.Some? ==> k in c.conns)
    && (k in c.conns ==>
          var st := c.conns[k];
          && (st.pingTimerId != 0 ==>
                && arm.Some? && st.pingIntervalMs != 0 && st.pingTimerId in d.deadline
                && d.deadline[st.pingTimerId] == PingDue(d, arm.value, st.pingIntervalMs))
          && (!st.closed && st.pingIntervalMs != 0 && arm.Some? ==> st.pingTimerId != 0))
  }

  /** A PING that was sent was due. */
  ghost predicate WasDue(d: Deadlines, c: Client, i: nat)
    requires d.Valid() && i < |c.trace| && c.trace[i].PingSent?
  {
    var k := c.trace[i].conn;
    var arm := LastArm(c.trace[..i], k);
    && k in c.conns && arm.Some? && c.conns[k].pingIntervalMs != 0
    && c.trace[i].tick == PingDue(d, arm.value, c.conns[k].pingIntervalMs)
  }

  ghost predicate Pings(d: Deadlines, c: Client) {
    && d.Valid()
    && (forall k: nat :: PingAt(d, c, k))
    && (forall i | 0 <= i < |c.trace| && c.trace[i].PingSent? :: WasDue(d, c, i))
  }

  ghost predicate SameWheel(d: Deadlines, d': Deadlines) {
    d.Valid() && d'.Valid() && d'.tickMs == d.tickMs && d'.numSlots == d.numSlots && KeepsDeadlines(d, d')
  }

  lemma PingsKept(d: Deadlines, d': Deadlines, c: Client)
    requires Pings(d, c) && SameWheel(d, d')
    ensures Pings(d', c)
  {
    forall k: nat
      ensures PingAt(d', c, k)
    {
      assert PingAt(d, c, k);
    }
    forall i | 0 <= i < |c.trace| && c.trace[i].PingSent?
      ensures WasDue(d', c, i)
    {
      assert WasDue(d, c, i);
    }
  }

  /** More actions keep the deadlines that fewer gave. */
  lemma MoreActs(d: Deadlines, a: seq<Action>, b: seq<Action>, from: nat)
    requires Inv(d, from) && a <= b
    ensures d.Valid() && SameWheel(RefDoAll(d, a, from), RefDoAll(d, b, from))
  {
    assert d.Valid();
    hide Inv, KeepsDeadlines;
    InvDoAll(d, a, from);
    InvDoAll(RefDoAll(d, a, from), b[|a|..], from);
    assert a + b[|a|..] == b;
    DoAllOfConcat(d, a, b[|a|..], from);
  }

  lemma WasDueKept(d: Deadlines, c: Client, c': Client, k: nat)
    requires Pings(d, c) && OnlyAt(c, c', k)
    ensures forall i | 0 <= i < |c.trace| && c.trace[i].PingSent? :: WasDue(d, c', i)
  {
    forall i | 0 <= i < |c.trace| && c.trace[i].PingSent?
      ensures WasDue(d, c', i)
    {
      assert WasDue(d, c, i);
    }
  }

  /** Connection `k` changes, and something is noted about it that is no PING. */
  lemma PingsAfter(d: Deadlines, c: Client, c': Client, k: nat, o: Observed)
    requires Pings(d, c) && OnlyAt(c, c', k) && !o.PingSent? && o.conn == k
    requires PingAt(d, c'.(trace := c'.trace + [o]), k)
    ensures Pings(d, c'.(trace := c'.trace + [o]))
  {
    var c2 := c'.(trace := c'.trace + [o]);
    forall j: nat
      ensures PingAt(d, c2, j)
    {
      assert PingAt(d, c, j);
      ArmAfter(c'.trace, o, j);
    }
    WasDueKept(d, c, c', k);
    forall i | 0 <= i < |c2.trace| && c2.trace[i].PingSent?
      ensures WasDue(d, c2, i)
    {
      assert WasDue(d, c', i);
      assert c2.trace[..i] == c'.trace[..i];
    }
  }

  lemma PingsOnlyAt(d: Deadlines, c: Client, c': Client, k: nat)
    requires Pings(d, c) && OnlyAt(c, c', k) && PingAt(d, c', k)
    ensures Pings(d, c')
  {
    forall j: nat
      ensures PingAt(d, c', j)
    {
      assert PingAt(d, c, j);
    }
    WasDueKept(d, c, c', k);
  }

  /** Scheduling a ping between turns sets its timer to the interval from now. */
  lemma ScheduleDue(d: Deadlines, e: Effect, k: nat)
    requires Sound(d, e, d.currentTick, []) && k in e.c.conns
    ensures d.Valid() && k in SchedulePing(e, k).c.conns
    ensures var r := SchedulePing(e, k);
            var st := r.c.conns[k];
            var d' := RefDoAll(d, r.acts, d.currentTick);
            if st.pingIntervalMs == 0 then st.pingTimerId == 0
            else
              && st.pingTimerId != 0 && st.pingTimerId in d'.deadline
              && d'.deadline[st.pingTimerId] == PingDue(d, d.currentTick, st.pingIntervalMs)
  {
    assert d.Valid();
    SoundCancel(d, e, d.currentTick, k);
    var e1 := CancelTimers(e, k);
    var interval := e.c.conns[k].pingIntervalMs;
    DoAllOfSnoc(d, e1.acts, Add(interval), d.currentTick);
    assert Good(RefDoAll(d, e1.acts, d.currentTick), e1.c, []);
    hide Good;
  }

  /** The actions so far have led to a good state. */
  ghost predicate Soundly(d: Deadlines, e: Effect) {
    Inv(d, d.currentTick) && Sound(d, e, d.currentTick, []) && Pings(RefDoAll(d, e.acts, d.currentTick), e.c)
    && e.c.now == d.currentTick
  }

  /** Scheduling a ping, and noting what made it so. */
  lemma PingsScheduled(d: Deadlines, e: Effect, e1: Effect, k: nat, o: Observed)
    requires Soundly(d, e) && k in e.c.conns
    requires OnlyAt(e.c, e1.c, k) && e.acts <= e1.acts && Sound(d, e1, d.currentTick, [])
    requires o == Opened(k, d.currentTick)
          || (o.Received? && o.conn == k && o.tick == d.currentTick && o.opcode != Close && o.opcode != Reserved)
    ensures d.Valid() && k in e1.c.conns
    ensures var r := SchedulePing(e1, k);
            Pings(RefDoAll(d, r.acts, d.currentTick), r.c.(trace := r.c.trace + [o]))
  {
    assert d.Valid();
    var from := d.currentTick;
    var r := SchedulePing(e1, k);
    var d1, d2 := RefDoAll(d, e.acts, from), RefDoAll(d, r.acts, from);
    ScheduleOnlyAt(e1, k);
    OnlyAtTwice(e.c, e1.c, r.c, k);
    MoreActs(d, e.acts, r.acts, from);
    PingsKept(d1, d2, e.c);
    ScheduleDue(d, e1, k);
    ArmAfter(r.c.trace, o, k);
    hide SchedulePing, RefDoAll, Sound, Inv, KeepsDeadlines;
    PingsAfter(d2, e.c, r.c, k, o);
  }

  lemma PingsOpening(d: Deadlines, e: Effect, k: nat)
    requires Soundly(d, e) && k in e.c.conns
    ensures Soundly(d, Opening(e, k))
  {
    SoundOpening(d, e, d.currentTick, k);
    if !e.c.conns[k].hasOpened {
      var st := e.c.conns[k].(hasOpened := true);
      var e1 := e.(c := e.c.(conns := e.c.conns[k := st]));
      GoodConnChange(RefDoAll(d, e.acts, d.currentTick), e.c, [], k, st);
      ScheduleOnlyAt(e1, k);
      hide Good, Inv, Pings;
      PingsScheduled(d, e, e1, k, Opened(k, d.currentTick));
    }
  }

  lemma PingsFrame(d: Deadlines, e: Effect, k: nat, op: Opcode, answer: Write)
    requires Soundly(d, e) && k in e.c.conns
    ensures var r := ReadFrame(e, k, op, answer);
            d.Valid() && Pings(RefDoAll(d, r.acts, d.currentTick), r.c)
  {
    var e1 := Opening(e, k);
    var from := d.currentTick;
    var o := Received(k, op, e.c.now);
    PingsOpening(d, e, k);
    hide Opening, Good, Inv, Pings, Sound;
    match op
    case Pong =>
      SoundCancel(d, e1, from, k);
      ScheduleOnlyAt(e1, k);
      PingsScheduled(d, e1, CancelTimers(e1, k), k, o);
    case Ping =>
      SoundWritten(d, e1, from, k, answer);
      WrittenOnlyAt(e1, k, answer);
      PingsScheduled(d, e1, Written(e1, k, answer), k, o);
    case Text =>
      SameOnlyAt(e1.c, k);
      PingsScheduled(d, e1, e1, k, o);
    case Binary =>
      SameOnlyAt(e1.c, k);
      PingsScheduled(d, e1, e1, k, o);
    case Close => PingsOther(d, e1, k, op, answer);
    case Reserved => PingsOther(d, e1, k, op, answer);
  }

  /** A CLOSE leaves no ping timer, and a reserved opcode leaves it as it is. */
  lemma PingsOther(d: Deadlines, e: Effect, k: nat, op: Opcode, answer: Write)
    requires Soundly(d, e) && k in e.c.conns && (op == Close || op == Reserved)
    ensures var r := FrameTimers(e, k, op, answer);
            d.Valid()
            && Pings(RefDoAll(d, r.acts, d.currentTick), r.c.(trace := r.c.trace + [Received(k, op, e.c.now)]))
  {
    assert d.Valid();
    var r := FrameTimers(e, k, op, answer);
    var o := Received(k, op, e.c.now);
    var d1, d2 := RefDoAll(d, e.acts, d.currentTick), RefDoAll(d, r.acts, d.currentTick);
    TimersOnlyAt(e, k, op, answer);
    MoreActs(d, e.acts, r.acts, d.currentTick);
    PingsKept(d1, d2, e.c);
    assert PingAt(d2, e.c, k);
    ArmAfter(r.c.trace, o, k);
    PingsAfter(d2, e.c, r.c, k, o);
  }

  lemma PingsHandle(d: Deadlines, c: Client, ev: Event)
    requires Inv(d, d.currentTick) && Good(d, c, []) && Pings(d, c) && !ev.Turn?
    ensures var e := Handle(Effect(c, [], d.nextId), ev); Pings(RefDoAll(d, e.acts, d.currentTick), e.c)
  {
    var e := Effect(c, [], d.nextId);
    assert Soundly(d, e);
    match ev
    case Frame(k, op, answer) => if k in c.conns { PingsFrame(d, e, k, op, answer); }
    case OtherMessage(k) => if k in c.conns { PingsOpening(d, e, k); }
    case Inactive(k) => if k in c.conns { PingsClosed(d, e, k, CloseConn(e, k)); }
    case Broken(k) => if k in c.conns { PingsClosed(d, e, k, Break(e, k)); }
    case Connect(k, _, _) => if k !in c.conns { PingsConnected(d, c, k, ev); }
    case Others(acts) =>
      var r := Handle(e, ev);
      MoreActs(d, [], r.acts, d.currentTick);
      PingsKept(d, RefDoAll(d, r.acts, d.currentTick), c);
  }

  lemma PingsConnected(d: Deadlines, c: Client, k: nat, ev: Event)
    requires Pings(d, c) && ev.Connect? && ev.conn == k && k !in c.conns
    ensures Pings(d, Handle(Effect(c, [], d.nextId), ev).c)
  {
    var c' := Handle(Effect(c, [], d.nextId), ev).c;
    forall j: nat
      ensures PingAt(d, c', j)
    {
      assert PingAt(d, c, j);
    }
    forall i | 0 <= i < |c'.trace| && c'.trace[i].PingSent?
      ensures WasDue(d, c', i)
    {
      assert WasDue(d, c, i);
    }
  }

  lemma PingsClosed(d: Deadlines, e: Effect, k: nat, r: Effect)
    requires Soundly(d, e) && k in e.c.conns && (r == CloseConn(e, k) || r == Break(e, k))
    ensures d.Valid() && Pings(RefDoAll(d, r.acts, d.currentTick), r.c)
  {
    assert d.Valid();
    var d1, d2 := RefDoAll(d, e.acts, d.currentTick), RefDoAll(d, r.acts, d.currentTick);
    WrittenOnlyAt(e, k, Overflows);
    WrittenOnlyAt(e, k, Breaks);
    MoreActs(d, e.acts, r.acts, d.currentTick);
    PingsKept(d1, d2, e.c);
    assert PingAt(d2, e.c, k);
    PingsOnlyAt(d2, e.c, r.c, k);
  }

  /** The callback that sends the PING is the one due. */
  lemma PingsSent(d: Deadlines, c: Client, todo: seq<nat>, k: nat, w: Write)
    requires Good(d, c, todo) && Pings(d, c) && todo != [] && todo[0] in c.owner && c.owner[todo[0]] == PingOf(k)
    ensures k in c.conns && Pings(d, SendPing(Written(Effect(c, [], d.nextId), k, w), k).c)
  {
    PingBeingRun(d, c, todo, k);
    var e := Effect(c, [], d.nextId);
    var c1 := Written(e, k, w).c;
    var c2 := SendPing(Written(e, k, w), k).c;
    var o := PingSent(k, c.now);
    WrittenOnlyAt(e, k, w);
    assert PingAt(d, c, k) && d.deadline[todo[0]] == d.currentTick;
    assert c2.trace == c.trace + [o];
    WasDueKept(d, c, c1, k);
    hide Good;
    forall j: nat
      ensures PingAt(d, c2, j)
    {
      assert PingAt(d, c, j);
      ArmAfter(c.trace, o, j);
    }
    forall i | 0 <= i < |c2.trace| && c2.trace[i].PingSent?
      ensures WasDue(d, c2, i)
    {
      assert c2.trace[..i] == c.trace[..i];
      assert i < |c.trace| ==> WasDue(d, c1, i);
      assert c.trace[..|c.trace|] == c.trace;
    }
  }

  lemma PingsTimedOut(d: Deadlines, c: Client, k: nat)
    requires Pings(d, c) && k in c.conns && !c.conns[k].closed
    ensures Pings(d, CloseConn(Note(Effect(c, [], d.nextId), TimedOut(k, c.now)), k).c)
  {
    var e := Effect(c, [], d.nextId);
    var o := TimedOut(k, c.now);
    var c1 := CloseConn(e, k).c;
    WrittenOnlyAt(e, k, Overflows);
    assert PingAt(d, c, k);
    ArmAfter(c1.trace, o, k);
    PingsAfter(d, c, c1, k, o);
  }

  lemma PingsFire(d: Deadlines, c: Client, todo: seq<nat>)
    requires Good(d, c, todo) && todo != [] && Pings(d, c) && Inv(d, d.currentTick + 1)
    ensures var e := Fire(Effect(c, [], d.nextId), todo[0]);
            var d' := RefDoAll(d, e.acts, d.currentTick + 1);
            Pings(d', e.c) && Inv(d', d.currentTick + 1)
  {
    assert d.Valid();
    var id := todo[0];
    var e := Fire(Effect(c, [], d.nextId), id);
    if id in c.owner {
      assert Armed(d, todo, id) && OwnerOk(c, id);
      match c.owner[id]
      case PingOf(k) =>
        PingBeingRun(d, c, todo, k);
        PingsSent(d, c, todo, k, WriteOf(c, id));
      case PongOf(k) =>
        if !c.conns[k].closed {
          PingsTimedOut(d, c, k);
        }
    }
    hide Good, Inv, KeepsDeadlines, Pings, Fire;
    MoreActs(d, [], e.acts, d.currentTick + 1);
    InvDoAll(d, e.acts, d.currentTick + 1);
    PingsKept(d, RefDoAll(d, e.acts, d.currentTick + 1), e.c);
  }

  lemma {:induction false} PingsFireAll(d: Deadlines, c: Client, todo: seq<nat>)
    requires Good(d, c, todo) && Pings(d, c) && Inv(d, d.currentTick + 1)
    ensures d.Valid() && Pings(RefFireAll(d, c, todo, FireTimer).0, RefFireAll(d, c, todo, FireTimer).1)
    decreases |todo|
  {
    hide Good, Fire, Pings, Inv;
    GoodIsValid(d, c, todo);
    if todo != [] {
      GoodFire(d, c, todo);
      PingsFire(d, c, todo);
      var e := Fire(Effect(c, [], d.nextId), todo[0]);
      PingsFireAll(RefDoAll(d, e.acts, d.currentTick + 1), e.c, todo[1..]);
    }
  }

  lemma PingsTick(d: Deadlines, c: Client, d': Deadlines, c': Client)
    requires Pings(d, c) && d'.Valid()
    requires d'.tickMs == d.tickMs && d'.numSlots == d.numSlots && d'.deadline == d.deadline
    requires c'.conns == c.conns && c'.trace == c.trace
    ensures Pings(d', c')
  {
    forall k: nat
      ensures PingAt(d', c', k)
    {
      assert PingAt(d, c, k);
    }
    forall i | 0 <= i < |c'.trace| && c'.trace[i].PingSent?
      ensures WasDue(d', c', i)
    {
      assert WasDue(d, c, i);
    }
  }

  lemma PingsTurn(s: State)
    requires Good(s.d, s.c, []) && Pings(s.d, s.c) && Inv(s.d, s.d.currentTick)
    ensures s.d.Valid() && Pings(Step(s, Event.Turn).d, Step(s, Event.Turn).c)
  {
    hide Good, FireTimer, Pings, Inv;
    GoodIsValid(s.d, s.c, []);
    GoodTakeDue(s.d, s.c);
    InvTakeDue(s.d);
    PingsTick(s.d, s.c, TakeDue(s.d), s.c);
    PingsFireAll(TakeDue(s.d), s.c, DueIds(s.d));
    RefTickParts(s.d, s.c, FireTimer);
    var r := RefFireAll(TakeDue(s.d), s.c, DueIds(s.d), FireTimer);
    PingsTick(r.0, r.1, Step(s, Event.Turn).d, Step(s, Event.Turn).c);
  }

  lemma GoodIsValid(d: Deadlines, c: Client, todo: seq<nat>)
    requires Good(d, c, todo)
    ensures d.Valid()
  {
  }

  lemma {:induction false} PingsRun(d: Deadlines, world: World, events: seq<Event>)
    requires Inv(d, d.currentTick) && d.nextId > 0
    ensures d.Valid() && Pings(Run(Fresh(d, world), events).d, Run(Fresh(d, world), events).c)
    decreases |events|
  {
    assert d.Valid();
    if events != [] {
      var prefix, last := events[..|events| - 1], events[|events| - 1];
      PingsRun(d, world, prefix);
      GoodRun(d, world, prefix);
      WaitsRun(d, world, prefix);
      var s := Run(Fresh(d, world), prefix);
      hide Waits, Good, Inv, Pings, Handle, FireTimer;
      if last.Turn? {
        PingsTurn(s);
      } else {
        PingsHandle(s.d, s.c, last);
      }
    }
  }

  // ---- Main results ----

  function ConnOf(o: Owner): nat {
    o.conn
  }

  /** No connection has two keep-alive timers to fire. */
  predicate AtMostOneArmed(s: State) {
    forall a, b | a in s.d.pending && b in s.d.pending && a in s.c.owner && b in s.c.owner ::
      ConnOf(s.c.owner[a]) == ConnOf(s.c.owner[b]) ==> a == b
  }

  /** Every timeout comes the pong timeout after a PING with nothing that resets the keep-alive received in between. */
  ghost predicate TimeoutsExplained(s: State)
    requires s.d.Valid()
  {
    forall i | 0 <= i < |s.c.trace| && s.c.trace[i].TimedOut? ::
      var k := s.c.trace[i].conn;
      exists j, tick: nat :: 0 <= j < i && s.c.trace[j] == PingSent(k, tick)
        && k in s.c.conns && s.c.trace[i].tick == PongDue(s.d, tick, s.c.conns[k].pongTimeoutMs)
        && forall m | j < m < i :: !(s.c.trace[m].Received? && s.c.trace[m].conn == k && Resets(s.c.trace[m].opcode))
  }

  lemma {:induction false} UnansweredPing(trace: seq<Observed>, k: nat) returns (j: nat)
    requires PingUnanswered(trace, k).Some?
    ensures j < |trace| && trace[j] == PingSent(k, PingUnanswered(trace, k).value)
    ensures forall m | j < m < |trace| :: !(trace[m].Received? && trace[m].conn == k && Resets(trace[m].opcode))
    decreases |trace|
  {
    var last := trace[|trace| - 1];
    if last.PingSent? && last.conn == k {
      j := |trace| - 1;
    } else {
      j := UnansweredPing(trace[..|trace| - 1], k);
    }
  }

  /** On every run, from any wheel that has issued an id. */
  lemma KeepAliveIsSafe(d: Deadlines, world: World, events: seq<Event>)
    requires Inv(d, d.currentTick) && d.nextId > 0
    ensures AtMostOneArmed(Run(Fresh(d, world), events))
    ensures TimeoutsExplained(Run(Fresh(d, world), events))
  {
    GoodRun(d, world, events);
    var s := Run(Fresh(d, world), events);
    forall a, b | a in s.d.pending && b in s.d.pending && a in s.c.owner && b in s.c.owner
                && ConnOf(s.c.owner[a]) == ConnOf(s.c.owner[b])
      ensures a == b
    {
      assert Armed(s.d, [], a) && Armed(s.d, [], b);
      assert OwnerOk(s.c, a) && OwnerOk(s.c, b);
      assert ConnOk(s.d, s.c, [], ConnOf(s.c.owner[a]));
    }
    forall i | 0 <= i < |s.c.trace| && s.c.trace[i].TimedOut?
      ensures var k := s.c.trace[i].conn;
              exists j, tick: nat :: 0 <= j < i && s.c.trace[j] == PingSent(k, tick)
                && k in s.c.conns && s.c.trace[i].tick == PongDue(s.d, tick, s.c.conns[k].pongTimeoutMs)
                && forall m | j < m < i ::
                     !(s.c.trace[m].Received? && s.c.trace[m].conn == k && Resets(s.c.trace[m].opcode))
    {
      assert TimeoutOk(s.d, s.c, i);
      var k := s.c.trace[i].conn;
      var j := UnansweredPing(s.c.trace[..i], k);
      var tick := PingUnanswered(s.c.trace[..i], k).value;
      assert s.c.trace[j] == PingSent(k, tick);
      assert forall m | j < m < i :: s.c.trace[m] == s.c.trace[..i][m];
    }
  }

  /**
   The other half of the timeout: on every run, an open connection does not outlive the pong timeout of a
   PING that nothing resetting has followed, whatever else it received.
   */
  lemma UnansweredPingTimesOut(d: Deadlines, world: World, events: seq<Event>, k: nat)
    requires Inv(d, d.currentTick) && d.nextId > 0
    ensures var s := Run(Fresh(d, world), events);
            k in s.c.conns && !s.c.conns[k].closed && PingUnanswered(s.c.trace, k).Some? ==>
              s.d.currentTick <= PongDue(s.d, PingUnanswered(s.c.trace, k).value, s.c.conns[k].pongTimeoutMs)
  {
    GoodRun(d, world, events);
    WaitsRun(d, world, events);
    var s := Run(Fresh(d, world), events);
    hide Run;
    if k in s.c.conns && !s.c.conns[k].closed && PingUnanswered(s.c.trace, k).Some? {
      assert WaitsAt(s.c, k) && ConnOk(s.d, s.c, [], k);
      assert s.c.conns[k].pongTimerId in s.d.pending;
    }
  }

  /** What sets the ping timer of `k`: its opening, and every frame but CLOSE and the reserved opcodes. */
  predicate Arms(o: Observed, k: nat) {
    o.conn == k && (o.Opened? || (o.Received? && o.opcode != Close && o.opcode != Reserved))
  }

  /** What takes it back: a CLOSE, and the PING itself. */
  predicate Disarms(o: Observed, k: nat) {
    o.conn == k && (o.PingSent? || (o.Received? && o.opcode == Close))
  }

  lemma {:induction false} LastArmIs(trace: seq<Observed>, k: nat) returns (j: nat)
    requires LastArm(trace, k).Some?
    ensures j < |trace| && Arms(trace[j], k) && trace[j].tick == LastArm(trace, k).value
    ensures forall m | j < m < |trace| :: !Arms(trace[m], k) && !Disarms(trace[m], k)
    decreases |trace|
  {
    var last := trace[|trace| - 1];
    if Arms(last, k) {
      j := |trace| - 1;
    } else {
      j := LastArmIs(trace[..|trace| - 1], k);
    }
  }

  lemma {:induction false} ArmsIsLast(trace: seq<Observed>, k: nat, j: nat)
    requires j < |trace| && Arms(trace[j], k)
    requires forall m | j < m < |trace| :: !Arms(trace[m], k) && !Disarms(trace[m], k)
    ensures LastArm(trace, k) == Some(trace[j].tick)
    decreases |trace|
  {
    if j < |trace| - 1 {
      ArmsIsLast(trace[..|trace| - 1], k, j);
    }
  }

  /**
   Every PING, on every run, is sent the ping interval after what last set the timer: the opening, or a
   frame other than a CLOSE or a reserved opcode, with nothing since that sets it anew or takes it back.
   */
  lemma PingsComeInTime(d: Deadlines, world: World, events: seq<Event>, i: nat)
    requires Inv(d, d.currentTick) && d.nextId > 0
    requires d.Valid() && i < |Run(Fresh(d, world), events).c.trace|
    requires Run(Fresh(d, world), events).c.trace[i].PingSent?
    ensures var s := Run(Fresh(d, world), events);
            var k := s.c.trace[i].conn;
            && k in s.c.conns && s.c.conns[k].pingIntervalMs != 0
            && exists j: nat :: j < i && Arms(s.c.trace[j], k)
                 && s.c.trace[i].tick == PingDue(s.d, s.c.trace[j].tick, s.c.conns[k].pingIntervalMs)
                 && forall m | j < m < i :: !Arms(s.c.trace[m], k) && !Disarms(s.c.trace[m], k)
  {
    PingsRun(d, world, events);
    var s := Run(Fresh(d, world), events);
    hide Run, Inv;
    assert WasDue(s.d, s.c, i);
    var trace := s.c.trace[..i];
    var j := LastArmIs(trace, s.c.trace[i].conn);
    assert trace[j] == s.c.trace[j];
    assert forall m | j < m < i :: trace[m] == s.c.trace[m];
  }

  /**
   The other half: on every run, an open connection with a ping interval whose timer was set, and not set
   anew or taken back since, does not outlive the interval without a PING.
   */
  lemma IdleConnectionIsPinged(d: Deadlines, world: World, events: seq<Event>, k: nat, j: nat)
    requires Inv(d, d.currentTick) && d.nextId > 0
    ensures d.Valid()
    ensures var s := Run(Fresh(d, world), events);
            && j < |s.c.trace| && Arms(s.c.trace[j], k)
            && (forall m | j < m < |s.c.trace| :: !Arms(s.c.trace[m], k) && !Disarms(s.c.trace[m], k))
            && (k in s.c.conns ==> !s.c.conns[k].closed && s.c.conns[k].pingIntervalMs != 0)
            ==> k in s.c.conns && s.d.currentTick <= PingDue(s.d, s.c.trace[j].tick, s.c.conns[k].pingIntervalMs)
  {
    PingsRun(d, world, events);
    GoodRun(d, world, events);
    WaitsRun(d, world, events);
    var s := Run(Fresh(d, world), events);
    hide Run;
    if j < |s.c.trace| && Arms(s.c.trace[j], k)
       && forall m | j < m < |s.c.trace| :: !Arms(s.c.trace[m], k) && !Disarms(s.c.trace[m], k)
    {
      ArmsIsLast(s.c.trace, k, j);
      assert PingAt(s.d, s.c, k);
      if !s.c.conns[k].closed && s.c.conns[k].pingIntervalMs != 0 {
        assert ConnOk(s.d, s.c, [], k);
        assert s.c.conns[k].pingTimerId in s.d.pending;
      }
    }
  }

  /** The ping interval in ticks, rounded up. */
  lemma PingDueInTicks(d: Deadlines, tick: nat, pingIntervalMs: uint64)
    requires d.Valid() && d.tickMs < TWO_64 && tick < TWO_64
    ensures var ticks := DelayTicks(pingIntervalMs, d.tickMs);
            if tick + ticks >= TWO_64 then tick <= PingDue(d, tick, pingIntervalMs) < tick + d.numSlots
            else PingDue(d, tick, pingIntervalMs) == tick + ticks
  {
    DeadlineOfAdd(d.(currentTick := tick), pingIntervalMs, false);
  }

  /** A CLOSE frame, and the first closing of a connection, leave it without any timer, on every run. */
  lemma ClosingCancels(d: Deadlines, world: World, events: seq<Event>, k: nat, ev: Event)
    requires Inv(d, d.currentTick) && d.nextId > 0
    requires (ev.Frame? && ev.conn == k && ev.opcode == Close) || ev == Inactive(k)
    ensures d.Valid()
    ensures var s := Run(Fresh(d, world), events);
            var s' := Step(s, ev);
            k in s.c.conns && (ev.Inactive? ==> !s.c.conns[k].closed) ==>
              forall id | id in s'.d.pending && id in s'.c.owner :: ConnOf(s'.c.owner[id]) != k
  {
    GoodRun(d, world, events);
    var s := Run(Fresh(d, world), events);
    if k in s.c.conns && (ev.Inactive? ==> !s.c.conns[k].closed) {
      GoodStep(s, ev);
      var s' := Step(s, ev);
      NoTimerLeft(Effect(s.c, [], s.d.nextId), k, ev);
      forall id | id in s'.d.pending && id in s'.c.owner
        ensures ConnOf(s'.c.owner[id]) != k
      {
        assert Armed(s'.d, [], id) && OwnerOk(s'.c, id);
        assert 0 !in s'.c.owner;
      }
    }
  }

  lemma NoTimerLeft(e: Effect, k: nat, ev: Event)
    requires k in e.c.conns && ((ev.Frame? && ev.conn == k && ev.opcode == Close) || ev == Inactive(k))
    requires ev.Inactive? ==> !e.c.conns[k].closed
    ensures var c := Handle(e, ev).c;
            k in c.conns && c.conns[k].pingTimerId == 0 && c.conns[k].pongTimerId == 0
  {
  }

  lemma RunOfTwo(s: State, events: seq<Event>)
    requires s.d.Valid() && |events| == 2
    ensures Run(s, events) == Step(Step(s, events[0]), events[1])
  {
    var first := events[..1];
    assert first[..0] == [] && first[0] == events[0];
    assert Run(s, first) == Step(Run(s, []), events[0]);
  }

  /** The first frame of a connection schedules a ping on opening and again for itself. */
  lemma FirstFrame(c: Client)
    requires c.conns == map[0 := Conn(false, false, 0, 0, false, 1, 1)] && c.owner == map[]
    ensures var e := Handle(Effect(c, [], 0), Frame(0, Text, Passes));
            e.acts == [Add(1), Add(1)] && 0 in e.c.owner && 1 in e.c.owner && e.c.owner[0] == e.c.owner[1]
  {
  }

  lemma TwoAdditions(d: Deadlines)
    requires d.Valid() && d.nextId == 0
    ensures var d' := RefDoAll(d, [Add(1), Add(1)], d.currentTick); 0 in d'.pending && 1 in d'.pending
  {
  }

  lemma IdZeroStaysArmed(d: Deadlines, world: World)
    requires Inv(d, d.currentTick) && d.nextId == 0
    ensures !AtMostOneArmed(Run(Fresh(d, world), [Connect(0, 1, 1), Frame(0, Text, Passes)]))
  {
    assert d.Valid();
    hide Inv;
    RunOfTwo(Fresh(d, world), [Connect(0, 1, 1), Frame(0, Text, Passes)]);
    var s1 := Step(Fresh(d, world), Connect(0, 1, 1));
    FirstFrame(s1.c);
    TwoAdditions(d);
    hide Handle, RefDoAll;
    var s2 := Step(s1, Frame(0, Text, Passes));
    assert 0 in s2.d.pending && 1 in s2.d.pending;
  }

  /** A wheel that has issued no id gives the first ping timer id 0, which the handler takes for no timer. */
  lemma OneArmedIffIdZeroIsGone(d: Deadlines)
    requires Inv(d, d.currentTick)
    ensures (forall world, events :: AtMostOneArmed(Run(Fresh(d, world), events))) <==> d.nextId > 0
  {
    if d.nextId > 0 {
      forall world, events
        ensures AtMostOneArmed(Run(Fresh(d, world), events))
      {
        KeepAliveIsSafe(d, world, events);
      }
    } else {
      IdZeroStaysArmed(d, Quiet);
    }
  }

  // ---- Frames that do not reset the keep-alive ----

  /** On an open connection a frame with a reserved opcode is noted and changes nothing. */
  lemma ReservedFrameIsIgnored(s: State, k: nat)
    requires s.d.Valid() && k in s.c.conns && s.c.conns[k].hasOpened
    ensures Step(s, Frame(k, Reserved, Passes))
         == State(s.d, s.c.(trace := s.c.trace + [Received(k, Reserved, s.c.now)]))
  {
  }

  /** A turn in which a single timer is due. */
  lemma TurnOfOne(s: State, id: nat)
    requires s.d.Valid() && DueIds(s.d) == [id]
    ensures var e := Fire(Effect(s.c, [], s.d.nextId), id);
            var d' := RefDoAll(TakeDue(s.d), e.acts, s.d.currentTick + 1);
            Step(s, Event.Turn)
            == State(d'.(currentTick := s.d.currentTick + 1), e.c.(now := s.d.currentTick + 1))
  {
    RefTickParts(s.d, s.c, FireTimer);
    var d := TakeDue(s.d);
    var e := Fire(Effect(s.c, [], s.d.nextId), id);
    assert [id][1..] == [] && d.nextId == s.d.nextId;
    hide Fire, TakeDue, DueIds;
    var d1 := RefDoAll(d, e.acts, s.d.currentTick + 1);
    assert RefFireAll(d1, e.c, [], FireTimer) == (d1, e.c);
    assert RefFireAll(d, s.c, [id], FireTimer) == (d1, e.c);
  }

  /** So it does not keep the pong timer from closing the connection, though it is a frame received since the PING. */
  lemma ReservedFrameStopsNoTimeout(s: State, k: nat, id: nat)
    requires s.d.Valid() && DueIds(s.d) == [id]
    requires k in s.c.conns && s.c.conns[k].hasOpened && !s.c.conns[k].closed
    requires id in s.c.owner && s.c.owner[id] == PongOf(k)
    ensures Step(Step(s, Frame(k, Reserved, Passes)), Event.Turn).c.trace
         == s.c.trace + [Received(k, Reserved, s.c.now), TimedOut(k, s.c.now)]
  {
    ReservedFrameIsIgnored(s, k);
    var s1 := Step(s, Frame(k, Reserved, Passes));
    TurnOfOne(s1, id);
    hide Step;
    var trace := s.c.trace + [Received(k, Reserved, s.c.now)];
    assert trace + [TimedOut(k, s.c.now)] == s.c.trace + [Received(k, Reserved, s.c.now), TimedOut(k, s.c.now)];
  }

  const AFTER_ID_ZERO := Deadlines(1, 1, 0, 1, map[0 := 0], {}, {0}, [])
  const OPENED := State(
    Deadlines(1, 1, 0, 3, map[0 := 0, 1 := 1, 2 := 1], {2}, {0, 1}, []),
    Client(0, map[0 := Conn(true, false, 2, 0, false, 1, 1)], map[1 := PingOf(0), 2 := PingOf(0)],
           [Opened(0, 0), Received(0, Text, 0)], Quiet))
  const AWAITING := State(
    Deadlines(1, 1, 2, 4, map[0 := 0, 1 := 1, 2 := 1, 3 := 2], {3}, {0, 1}, [Firing(2, 1)]),
    Client(2, map[0 := Conn(true, true, 0, 3, false, 1, 1)], map[1 := PingOf(0), 2 := PingOf(0), 3 := PongOf(0)],
           [Opened(0, 0), Received(0, Text, 0), PingSent(0, 1)], Quiet))

  lemma OpeningRun()
    ensures Run(Fresh(AFTER_ID_ZERO, Quiet), [Connect(0, 1, 1), Frame(0, Text, Passes)]) == OPENED
  {
  }

  /** A turn in which no timer is due. */
  lemma TurnOfNone(s: State)
    requires s.d.Valid() && DueIds(s.d) == [] && forall id | id in s.d.pending :: !Due(s.d, id)
    ensures Step(s, Event.Turn)
         == State(s.d.(currentTick := s.d.currentTick + 1), s.c.(now := s.d.currentTick + 1))
  {
  }

  lemma PingTurns()
    ensures Step(Step(OPENED, Event.Turn), Event.Turn) == AWAITING
  {
    var d := OPENED.d;
    assert DueBelow(d, 1) == [] && DueBelow(d, 2) == [] && DueBelow(d, 3) == [];
    TurnOfNone(OPENED);
    var s := Step(OPENED, Event.Turn);
    assert s == State(d.(currentTick := 1), OPENED.c.(now := 1));
    PingTurn(s);
  }

  lemma PingTurn(s: State)
    requires s == State(OPENED.d.(currentTick := 1), OPENED.c.(now := 1))
    ensures Step(s, Event.Turn) == AWAITING
  {
  }

  lemma RunSnoc(s: State, events: seq<Event>, ev: Event)
    requires s.d.Valid()
    ensures Run(s, events + [ev]) == Step(Run(s, events), ev)
  {
  }

  /** A wheel that has issued id 0. */
  lemma AfterIdZero()
    ensures Inv(AFTER_ID_ZERO, 0) && AFTER_ID_ZERO.nextId > 0
  {
  }

  lemma TimeoutIsDue()
    ensures DueIds(AWAITING.d) == [3]
  {
  }

  /** On a run, a PING is sent and nothing received since. */
  lemma AwaitingRun(events: seq<Event>)
    requires events == [Connect(0, 1, 1), Frame(0, Text, Passes)] + [Event.Turn] + [Event.Turn]
    ensures Run(Fresh(AFTER_ID_ZERO, Quiet), events) == AWAITING
  {
    var opening := [Connect(0, 1, 1), Frame(0, Text, Passes)];
    var s := Fresh(AFTER_ID_ZERO, Quiet);
    OpeningRun();
    PingTurns();
    hide Step, Run;
    RunSnoc(s, opening, Event.Turn);
    RunSnoc(s, opening + [Event.Turn], Event.Turn);
  }

  /** At an input: a PING, then a frame with a reserved opcode, then the timeout. */
  lemma TimeoutAfterReservedFrame(events: seq<Event>)
    requires events == [Connect(0, 1, 1), Frame(0, Text, Passes)] + [Event.Turn] + [Event.Turn]
    ensures Inv(AFTER_ID_ZERO, 0) && AFTER_ID_ZERO.nextId > 0
    ensures Run(Fresh(AFTER_ID_ZERO, Quiet), events + [Frame(0, Reserved, Passes)] + [Event.Turn]).c.trace
         == [Opened(0, 0), Received(0, Text, 0), PingSent(0, 1), Received(0, Reserved, 2), TimedOut(0, 2)]
  {
    AfterIdZero();
    hide Inv;
    AwaitingRun(events);
    TimeoutIsDue();
    ReservedFrameStopsNoTimeout(AWAITING, 0, 3);
    hide Step, Run, DueBelow;
    RunSnoc(Fresh(AFTER_ID_ZERO, Quiet), events, Frame(0, Reserved, Passes));
    RunSnoc(Fresh(AFTER_ID_ZERO, Quiet), events + [Frame(0, Reserved, Passes)], Event.Turn);
  }

  /**
   The pong timeout in ticks. A timeout of no ticks lasts one round of the wheel, and one past the last of
   2^64 ticks ends within a round.
   */
  lemma PongDueInTicks(d: Deadlines, tick: nat, pongTimeoutMs: uint64)
    requires d.Valid() && d.tickMs < TWO_64 && tick < TWO_64
    ensures var ticks := DelayTicks(pongTimeoutMs, d.tickMs);
            if tick + ticks >= TWO_64 then tick < PongDue(d, tick, pongTimeoutMs) <= tick + d.numSlots
            else PongDue(d, tick, pongTimeoutMs) == tick + if ticks == 0 then d.numSlots else ticks
  {
    DeadlineOfAdd(d.(currentTick := tick), pongTimeoutMs, true);
  }

  // ---- The same on the wheel ----

  datatype WheelState = WheelState(w: Wheel, c: Client)

  function StepOnWheel(s: WheelState, ev: Event): (r: WheelState)
    requires s.w.Valid()
    ensures r.w.Valid()
  {
    if ev.Turn? then
      var r := Tick(s.w, s.c, FireTimer);
      WheelState(r.0, r.1.(now := r.0.currentTick))
    else
      var e := Handle(Effect(s.c, [], s.w.nextId), ev);
      WheelState(DoAll(s.w, e.acts), e.c)
  }

  function RunOnWheel(s: WheelState, events: seq<Event>): (r: WheelState)
    requires s.w.Valid()
    ensures r.w.Valid()
    decreases |events|
  {
    if events == [] then s else StepOnWheel(RunOnWheel(s, events[..|events| - 1]), events[|events| - 1])
  }

  lemma StepRefines(s: WheelState, t: State, ev: Event)
    requires Refines(s.w, t.d, t.d.currentTick) && s.c == t.c
    ensures s.w.Valid() && t.d.Valid()
    ensures Refines(StepOnWheel(s, ev).w, Step(t, ev).d, Step(t, ev).d.currentTick)
    ensures StepOnWheel(s, ev).c == Step(t, ev).c
  {
    hide Refines, Tick, RefTick, Handle, FireTimer;
    RefinesSameIds(s.w, t.d, t.d.currentTick);
    if ev.Turn? {
      RefinesTick(s.w, t.d, s.c, FireTimer);
    } else {
      RefinesDoAll(s.w, t.d, t.d.currentTick, Handle(Effect(s.c, [], s.w.nextId), ev).acts);
    }
  }

  /**
   A run on the wheel goes as the run on its deadlines: same connections, same trace, and a timer armed
   in one is armed in the other.
   */
  lemma {:induction false} RunRefines(w: Wheel, d: Deadlines, world: World, events: seq<Event>)
    requires Refines(w, d, d.currentTick)
    ensures w.Valid() && d.Valid()
    ensures var s, t := RunOnWheel(WheelState(w, Fresh(d, world).c), events), Run(Fresh(d, world), events);
            Refines(s.w, t.d, t.d.currentTick) && s.c == t.c
    decreases |events|
  {
    hide Refines;
    RefinesSameIds(w, d, d.currentTick);
    if events != [] {
      var prefix := events[..|events| - 1];
      RunRefines(w, d, world, prefix);
      var s, t := RunOnWheel(WheelState(w, Fresh(d, world).c), prefix), Run(Fresh(d, world), prefix);
      StepRefines(s, t, events[|events| - 1]);
    }
  }

  /** So no two live entries of the wheel belong to one connection. */
  lemma OneLiveEntry(w: Wheel, d: Deadlines, world: World, events: seq<Event>, a: Entry, b: Entry)
    requires Refines(w, d, d.currentTick) && Inv(d, d.currentTick) && d.nextId > 0
    ensures w.Valid()
    ensures var s := RunOnWheel(WheelState(w, Fresh(d, world).c), events);
            (&& s.w.Has(a) && s.w.Has(b) && !a.canceled && !b.canceled
             && a.id in s.c.owner && b.id in s.c.owner && ConnOf(s.c.owner[a.id]) == ConnOf(s.c.owner[b.id]))
            ==> a == b
  {
    RunRefines(w, d, world, events);
    KeepAliveIsSafe(d, world, events);
  }
}
