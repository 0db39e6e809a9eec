/**
 Waking the event loop: tasks queued from any number of threads, the `wakeupSent_` flag that spares
 system calls, and the pipe the loop polls. Every access to a shared variable is a step of its own,
 and the steps of all threads are interleaved freely. The queue is the ring of `SpscRing` with its
 pushes and `popAll` taken at the store and the load of `tail`.
 */
module EventLoopWakeup {

  /** A queued task: `n` tells it from all others, `owner` is the thread that queued it. */
  datatype Task = Task(owner: Thread, n: nat)

  datatype Thread = Loop | Other(id: nat)

  /** Where a thread is in `queueInLoop`. */
  datatype Queueing =
    | NotQueueing
    | Queued(task: Task)     // pushed; the exchange of the flag is next
    | MustWrite(task: Task)  // found the flag clear and set it; the write to the pipe is next

  /** Where the loop is in an iteration. */
  datatype Place =
    | Polling                              // about to block in poll
    | Polled(wakeReported: bool)           // handling events; the wake channel's is still to come if reported
    | AfterEvents                          // events handled, timers run: the flag is cleared next
    | Cleared                              // flag cleared: the queue is taken next
    | Running(batch: seq<Task>)            // running what was taken

  datatype State = State(
    queue: seq<Task>, wakeupSent: bool, pipe: nat,
    threads: map<nat, Queueing>, loop: Place, loopQueueing: Queueing,
    pushed: seq<Task>, ran: seq<Task>)

  datatype Step =
    | Push(id: nat)
    | Exchange(id: nat)
    | Write(id: nat)
    | StopWrites                        // `stop` writes the pipe whatever the flag says
    | PollReturns(wakeReported: bool)
    | HandleWakeup
    | LoopPush                          // a handler or timer of the loop queues a task: no wake-up
    | EventsDone
    | ClearFlag
    | TakeAll
    | RunOne
    | RunPush                           // a running task queues another
    | RunExchange
    | RunWrite
    | RunDone

  const PIPE_CAPACITY: nat := 8192  // messages of 8 bytes; when it is full a write is dropped

  function Written(pipe: nat): nat {
    if pipe < PIPE_CAPACITY then pipe + 1 else pipe
  }

  function At(s: State, id: nat): Queueing {
    if id in s.threads then s.threads[id] else NotQueueing
  }

  function PushTask(s: State, owner: Thread): State {
    s.(queue := s.queue + [Task(owner, |s.pushed|)], pushed := s.pushed + [Task(owner, |s.pushed|)])
  }

  function Do(s: State, step: Step): State {
    match step
    case Push(id) =>
      if At(s, id).NotQueueing? then
        PushTask(s, Other(id)).(threads := s.threads[id := Queued(Task(Other(id), |s.pushed|))])
      else s
    case Exchange(id) =>
      if !At(s, id).Queued? then s
      else if s.wakeupSent then s.(threads := s.threads[id := NotQueueing])
      else s.(wakeupSent := true, threads := s.threads[id := MustWrite(At(s, id).task)])
    case Write(id) =>
      if At(s, id).MustWrite? then s.(pipe := Written(s.pipe), threads := s.threads[id := NotQueueing]) else s
    case StopWrites => s.(pipe := Written(s.pipe))
    case PollReturns(wakeReported) =>
      if s.loop.Polling? && (wakeReported ==> s.pipe > 0) then s.(loop := Polled(wakeReported)) else s
    case HandleWakeup =>
      if s.loop.Polled? && s.loop.wakeReported then
        s.(pipe := if s.pipe > 0 then s.pipe - 1 else 0, loop := AfterEvents)
      else s
    case LoopPush =>
      if s.loop.Polled? || s.loop.AfterEvents? then PushTask(s, Loop) else s
    case EventsDone =>
      if s.loop.Polled? && !s.loop.wakeReported then s.(loop := AfterEvents) else s
    case ClearFlag =>
      if s.loop.AfterEvents? then s.(wakeupSent := false, loop := Cleared) else s
    case TakeAll =>
      if s.loop.Cleared? then s.(loop := Running(s.queue), queue := []) else s
    case RunOne =>
      if s.loop.Running? && s.loop.batch != [] && s.loopQueueing.NotQueueing? then
        s.(ran := s.ran + [s.loop.batch[0]], loop := Running(s.loop.batch[1..]))
      else s
    case RunPush =>
      if s.loop.Running? && s.loopQueueing.NotQueueing? then
        PushTask(s, Loop).(loopQueueing := Queued(Task(Loop, |s.pushed|)))
      else s
    case RunExchange =>
      if !s.loopQueueing.Queued? then s
      else if s.wakeupSent then s.(loopQueueing := NotQueueing)
      else s.(wakeupSent := true, loopQueueing := MustWrite(s.loopQueueing.task))
    case RunWrite =>
      if s.loopQueueing.MustWrite? then s.(pipe := Written(s.pipe), loopQueueing := NotQueueing) else s
    case RunDone =>
      if s.loop == Running([]) && s.loopQueueing.NotQueueing? then s.(loop := Polling) else s
  }

  const Initial := State([], false, 0, map[], Polling, NotQueueing, [], [])

  function Exec(steps: seq<Step>): State
    decreases |steps|
  {
    if steps == [] then Initial else Do(Exec(steps[..|steps| - 1]), steps[|steps| - 1])
  }

  // ---- The invariant ----

  /** Some thread has set the flag and not written the pipe yet. */
  ghost predicate WriteComing(s: State) {
    s.loopQueueing.MustWrite? || exists id :: At(s, id).MustWrite?
  }

  /** The thread that queued `t` has not come to the flag yet. */
  predicate NotSignalled(s: State, t: Task) {
    match t.owner
    case Loop => s.loopQueueing == Queued(t)
    case Other(id) => At(s, id) == Queued(t)
  }

  function Batch(s: State): seq<Task> {
    if s.loop.Running? then s.loop.batch else []
  }

  ghost predicate Inv(s: State) {
    // a flag that is set has been, or is about to be, told to the pipe, unless the loop is past reading it
    && (s.wakeupSent && !s.loop.AfterEvents? ==> s.pipe > 0 || WriteComing(s))
    // once the queue has been taken, what is queued afterwards sets the flag
    && (s.loop.Running? || s.loop.Polling? ==> forall t | t in s.queue :: NotSignalled(s, t) || s.wakeupSent)
    && (!s.loop.Running? ==> s.loopQueueing.NotQueueing?)
    && (s.loop.Polled? && s.loop.wakeReported ==> s.pipe > 0)
    && InOrder(s)
  }

  /** What ran, what is being run and what is queued is all that was pushed, in order. */
  ghost predicate InOrder(s: State) {
    && s.ran + Batch(s) + s.queue == s.pushed
    && (forall i | 0 <= i < |s.pushed| :: s.pushed[i].n == i)
  }

  lemma InvThread(s: State, step: Step, id: nat)
    requires Inv(s) && (step == Push(id) || step == Exchange(id) || step == Write(id))
    ensures Inv(Do(s, step))
  {
    var s' := Do(s, step);
    assert forall j | j != id :: At(s', j) == At(s, j);
    if step.Push? && s' != s {
      assert s.ran + Batch(s) + s'.queue == (s.ran + Batch(s) + s.queue) + [Task(Other(id), |s.pushed|)];
    }
    if WriteComing(s) && !step.Write? {
      if !s.loopQueueing.MustWrite? {
        var j :| At(s, j).MustWrite?;
        assert At(s', j).MustWrite?;
      }
    }
    if step.Exchange? && s' != s && !s.wakeupSent {
      assert At(s', id).MustWrite?;
    }
  }

  lemma InvLoop(s: State, step: Step)
    requires Inv(s) && !step.Push? && !step.Exchange? && !step.Write?
    ensures Inv(Do(s, step))
  {
    var s' := Do(s, step);
    InOrderLoop(s, step);
    hide InOrder;
    assert forall j :: At(s', j) == At(s, j);
  }

  /** The steps of the loop that move tasks: each keeps what ran, runs and waits in order. */
  lemma InOrderLoop(s: State, step: Step)
    requires InOrder(s) && !step.Push? && !step.Exchange? && !step.Write?
    ensures InOrder(Do(s, step))
  {
    if step.LoopPush? || step.RunPush? {
      InOrderPush(s, step);
    } else if step.TakeAll? || step.RunOne? || step.RunDone? {
      InOrderRun(s, step);
    }
  }

  lemma InOrderPush(s: State, step: Step)
    requires InOrder(s) && (step.LoopPush? || step.RunPush?)
    ensures InOrder(Do(s, step))
  {
    var s' := Do(s, step);
    assert s' != s ==> s.ran + Batch(s) + s'.queue == (s.ran + Batch(s) + s.queue) + [Task(Loop, |s.pushed|)];
  }

  lemma InOrderRun(s: State, step: Step)
    requires InOrder(s) && (step.TakeAll? || step.RunOne? || step.RunDone?)
    ensures InOrder(Do(s, step))
  {
    assert s.ran + s.queue + [] == s.ran + [] + s.queue == s.ran + s.queue;
    if step.RunOne? && Do(s, step) != s {
      assert s.ran + [s.loop.batch[0]] + s.loop.batch[1..] == s.ran + s.loop.batch;
    }
  }

  lemma InvStep(s: State, step: Step)
    requires Inv(s)
    ensures Inv(Do(s, step))
  {
    match step
    case Push(id) => InvThread(s, step, id);
    case Exchange(id) => InvThread(s, step, id);
    case Write(id) => InvThread(s, step, id);
    case _ => InvLoop(s, step);
  }

  lemma {:induction false} InvExec(steps: seq<Step>)
    ensures Inv(Exec(steps))
    decreases |steps|
  {
    if steps != [] {
      InvExec(steps[..|steps| - 1]);
      InvStep(Exec(steps[..|steps| - 1]), steps[|steps| - 1]);
    }
  }

  // ---- Main results ----

  /** The thread that queued `t` has left `queueInLoop` for it. */
  predicate Finished(s: State, t: Task) {
    match t.owner
    case Loop => s.loopQueueing != Queued(t) && s.loopQueueing != MustWrite(t)
    case Other(id) => At(s, id) != Queued(t) && At(s, id) != MustWrite(t)
  }

  /**
   No lost wake-up: whenever the loop is about to block and a task is queued whose thread is done with
   queueing it, the pipe holds a message or a thread is about to write one for another task.
   */
  lemma NoLostWakeup(steps: seq<Step>, t: Task)
    ensures var s := Exec(steps);
            s.loop.Polling? && t in s.queue && Finished(s, t) ==>
              s.pipe > 0 || exists id :: At(s, id).MustWrite? && At(s, id).task != t
  {
    InvExec(steps);
    var s := Exec(steps);
    if s.loop.Polling? && t in s.queue && Finished(s, t) && s.pipe == 0 {
      assert !NotSignalled(s, t);
      var id :| At(s, id).MustWrite?;
      MustWriteOwns(steps, id);
    }
  }

  /** A thread writes for a task it queued itself. */
  lemma {:induction false} MustWriteOwns(steps: seq<Step>, id: nat)
    ensures var q := At(Exec(steps), id); !q.NotQueueing? ==> q.task.owner == Other(id)
    decreases |steps|
  {
    if steps != [] {
      MustWriteOwns(steps[..|steps| - 1], id);
    }
  }

  /**
   Tasks run in the order they were queued, each once: what ran, what is being run and what is queued is
   all that was pushed.
   */
  lemma TasksRunInOrder(steps: seq<Step>)
    ensures var s := Exec(steps);
            && s.ran + Batch(s) + s.queue == s.pushed
            && forall i, j | 0 <= i < j < |s.pushed| :: s.pushed[i] != s.pushed[j]
  {
    InvExec(steps);
  }

  /**
   A loop left alone at the end of its events runs all that was queued, and goes back to polling with
   nothing queued.
   */
  lemma IterationDrains(steps: seq<Step>, k: nat)
    ensures var s := Exec(steps);
            s.loop.AfterEvents? && k == |s.queue| ==>
              var s' := Exec(steps + [ClearFlag, TakeAll] + seq(k, _ => RunOne) + [RunDone]);
              s'.loop.Polling? && s'.ran == s.pushed && s'.queue == []
  {
    hide Exec, Do;
    var s := Exec(steps);
    if s.loop.AfterEvents? && k == |s.queue| {
      AllQueued(steps);
      var taken := steps + [ClearFlag, TakeAll];
      TakenFrom(steps);
      RunBatch(taken, k);
      ExecSnoc(taken + seq(k, _ => RunOne), RunDone);
      DoneRunning(Exec(taken + seq(k, _ => RunOne)));
    }
  }

  lemma AllQueued(steps: seq<Step>)
    requires Exec(steps).loop.AfterEvents?
    ensures Exec(steps).ran + Exec(steps).queue == Exec(steps).pushed
    ensures Exec(steps).loopQueueing.NotQueueing?
  {
    InvExec(steps);
    var s := Exec(steps);
    hide Exec;
    assert s.ran + [] + s.queue == s.ran + s.queue;
  }

  lemma DoneRunning(s: State)
    requires s.loop == Running([]) && s.loopQueueing.NotQueueing?
    ensures Do(s, RunDone) == s.(loop := Polling)
  {
  }

  lemma TakenFrom(steps: seq<Step>)
    requires Exec(steps).loop.AfterEvents?
    ensures Exec(steps + [ClearFlag, TakeAll])
         == Exec(steps).(wakeupSent := false, loop := Running(Exec(steps).queue), queue := [])
  {
    ExecSnoc(steps, ClearFlag);
    ExecSnoc(steps + [ClearFlag], TakeAll);
    assert steps + [ClearFlag] + [TakeAll] == steps + [ClearFlag, TakeAll];
  }

  lemma ExecSnoc(steps: seq<Step>, step: Step)
    ensures Exec(steps + [step]) == Do(Exec(steps), step)
  {
  }

  lemma {:induction false} RunBatch(steps: seq<Step>, k: nat)
    requires Exec(steps).loop.Running? && |Exec(steps).loop.batch| == k && Exec(steps).loopQueueing.NotQueueing?
    ensures var s := Exec(steps);
            Exec(steps + seq(k, _ => RunOne)) == s.(ran := s.ran + s.loop.batch, loop := Running([]))
    decreases k
  {
    hide Exec;
    var s := Exec(steps);
    if k == 0 {
      assert steps + seq(k, _ => RunOne) == steps;
      assert s.ran + s.loop.batch == s.ran;
    } else {
      ExecSnoc(steps, RunOne);
      RunBatch(steps + [RunOne], k - 1);
      assert steps + [RunOne] + seq(k - 1, _ => RunOne) == steps + seq(k, _ => RunOne);
      assert s.ran + [s.loop.batch[0]] + s.loop.batch[1..] == s.ran + s.loop.batch;
    }
  }

  // ---- The flag spares system calls ----

  /** A thread, or the loop, finds the flag clear and takes it upon itself to write the pipe. */
  predicate TakesWakeup(s: State, step: Step) {
    || (step.Exchange? && !At(s, step.id).MustWrite? && At(Do(s, step), step.id).MustWrite?)
    || (step.RunExchange? && !s.loopQueueing.MustWrite? && Do(s, step).loopQueueing.MustWrite?)
  }

  function Wakeups(steps: seq<Step>): nat
    decreases |steps|
  {
    if steps == [] then 0
    else
      var n := |steps| - 1;
      Wakeups(steps[..n]) + if TakesWakeup(Exec(steps[..n]), steps[n]) then 1 else 0
  }

  /** How often the loop cleared the flag. */
  function Clears(steps: seq<Step>): nat
    decreases |steps|
  {
    if steps == [] then 0
    else
      var n := |steps| - 1;
      Clears(steps[..n]) + if steps[n].ClearFlag? && Exec(steps[..n]).loop.AfterEvents? then 1 else 0
  }

  lemma FlagStep(s: State, step: Step)
    ensures TakesWakeup(s, step) ==> !s.wakeupSent && Do(s, step).wakeupSent
    ensures s.wakeupSent && !Do(s, step).wakeupSent ==> step.ClearFlag? && s.loop.AfterEvents?
  {
  }

  /** However many tasks are queued, between two clearings of the flag at most one thread writes the pipe. */
  lemma {:induction false} FlagSparesWrites(steps: seq<Step>)
    ensures Wakeups(steps) <= Clears(steps) + 1
    ensures !Exec(steps).wakeupSent ==> Wakeups(steps) <= Clears(steps)
    decreases |steps|
  {
    hide Do, TakesWakeup;
    if steps != [] {
      var n := |steps| - 1;
      FlagSparesWrites(steps[..n]);
      FlagStep(Exec(steps[..n]), steps[n]);
    }
  }
}
