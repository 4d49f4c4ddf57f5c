/** The per-core worker threads of PCM (class CoreTaskQueue) together with the
    calling thread that pushes tasks, does work of its own and then waits for
    every task's future, as PCM::program and PCM::getAllCounterStates do.

    One step is one thing a thread does atomically: taking the mutex, pushing,
    notifying, releasing, testing the queue, one instruction of a task or of the
    caller, making a future ready, popping, waiting for a future. Any interleaving
    of such steps is a run, and condition variables may wake up spuriously. */
module CoreTaskQueues {
  import opened Options
  import opened Words
  import opened SharedMemory

  /** A task and the core on whose queue the caller pushes it. */
  datatype Task<L> = Task(core: nat, code: Program<L>)

  /** `tasks` in push order; `own` is what the caller executes between the last
      push and the first wait. */
  datatype Config<L> = Config(cores: nat, tasks: seq<Task<L>>, own: Program<L>, init: Memory<L>)

  /** `Contending`: wants the mutex, as a new thread or on the way out of wait.
      `Sleeping`: inside condVar.wait, not notified. The other three hold the
      mutex: `Testing` evaluates wQueue.empty(), `Running` executes the front
      task, `Popping` is between the end of that task and wQueue.pop(). */
  datatype Worker = Contending | Sleeping | Testing | Running(task: nat) | Popping

  datatype Owner = Nobody | TheWorker | TheCaller

  /** `items` are the queued tasks that have not been started; the task a worker
      is running or about to pop is still physically at the front, before them.
      `runs` records the tasks started so far, in order. */
  datatype CoreQueue = CoreQueue(items: seq<nat>, worker: Worker, owner: Owner, runs: seq<nat>)

  /** Where the caller is: about to push task `k` (`Pushing`), holding the mutex
      before the push, before notify_one, before the release, then executing its
      own code, then waiting for the futures of tasks `k`, `k + 1`, ... */
  datatype Caller =
    | Pushing(k: nat) | Locked(k: nat) | Notifying(k: nat) | Unlocking(k: nat)
    | Working | Waiting(k: nat)

  /** Thread `t < |tasks|` executes task `t`, thread `|tasks|` is the caller. */
  datatype State<L> = State(
    queues: seq<CoreQueue>, caller: Caller, mem: Memory<L>,
    progress: seq<nat>, tmp: seq<u64>, ready: set<nat>)

  datatype Step =
    | CallerLocks | CallerPushes | CallerNotifies | CallerUnlocks | CallerWorks | CallerWaits
    | WorkerLocks(core: nat) | WorkerTests(core: nat) | WorkerExecutes(core: nat)
    | WorkerFinishes(core: nat) | WorkerPops(core: nat) | SpuriousWakeup(core: nat)

  function Codes<L>(cfg: Config<L>): (codes: seq<Program<L>>)
    ensures |codes| == |cfg.tasks| + 1
    ensures forall t :: 0 <= t < |cfg.tasks| ==> codes[t] == cfg.tasks[t].code
    ensures codes[|cfg.tasks|] == cfg.own
  {
    seq(|cfg.tasks|, t requires 0 <= t < |cfg.tasks| => cfg.tasks[t].code) + [cfg.own]
  }

  /** Tasks are pushed on existing queues. What they execute does not matter to the
      queues: it may race. */
  ghost predicate ValidConfig<L>(cfg: Config<L>) {
    forall t :: 0 <= t < |cfg.tasks| ==> cfg.tasks[t].core < cfg.cores
  }

  predicate Shape<L>(cfg: Config<L>, s: State<L>) {
    && |s.queues| == cfg.cores
    && |s.progress| == |s.tmp| == |cfg.tasks| + 1
    && (s.caller.Pushing? || s.caller.Locked? || s.caller.Notifying? || s.caller.Unlocking? ==>
          s.caller.k < |cfg.tasks| && cfg.tasks[s.caller.k].core < cfg.cores)
    && (s.caller.Waiting? ==> s.caller.k <= |cfg.tasks|)
    && (forall c :: 0 <= c < |s.queues| && s.queues[c].worker.Running? ==> s.queues[c].worker.task < |cfg.tasks|)
  }

  predicate Enabled<L>(cfg: Config<L>, s: State<L>, step: Step) {
    && Shape(cfg, s)
    && var n := |cfg.tasks|;
    match step
    case CallerLocks => s.caller.Pushing? && s.queues[cfg.tasks[s.caller.k].core].owner == Nobody
    case CallerPushes => s.caller.Locked?
    case CallerNotifies => s.caller.Notifying?
    case CallerUnlocks => s.caller.Unlocking?
    case CallerWorks => s.caller.Working? && s.progress[n] <= |cfg.own|
    case CallerWaits => s.caller.Waiting? && s.caller.k < n && s.caller.k in s.ready
    case WorkerLocks(c) => c < cfg.cores && s.queues[c].worker.Contending? && s.queues[c].owner == Nobody
    case WorkerTests(c) => c < cfg.cores && s.queues[c].worker.Testing?
    case WorkerExecutes(c) =>
      && c < cfg.cores && s.queues[c].worker.Running?
      && s.progress[s.queues[c].worker.task] < |cfg.tasks[s.queues[c].worker.task].code|
    case WorkerFinishes(c) =>
      && c < cfg.cores && s.queues[c].worker.Running?
      && s.progress[s.queues[c].worker.task] == |cfg.tasks[s.queues[c].worker.task].code|
    case WorkerPops(c) => c < cfg.cores && s.queues[c].worker.Popping?
    case SpuriousWakeup(c) => c < cfg.cores && s.queues[c].worker.Sleeping?
  }

  /** Where the caller goes once task `k - 1` has been pushed. */
  function AfterPush<L>(cfg: Config<L>, k: nat): Caller {
    if k < |cfg.tasks| then Pushing(k) else Working
  }

  /** One instruction of thread `t`. */
  function ThreadStep<L>(s: State<L>, t: nat, i: Instr<L>): State<L>
    requires t < |s.progress| == |s.tmp|
  {
    var cpu := Exec(i, Cpu(s.mem, s.tmp[t]));
    s.(mem := cpu.mem, tmp := s.tmp[t := cpu.tmp], progress := s.progress[t := s.progress[t] + 1])
  }

  function WithQueue<L>(s: State<L>, c: nat, q: CoreQueue): State<L>
    requires c < |s.queues|
  {
    s.(queues := s.queues[c := q])
  }

  function Next<L>(cfg: Config<L>, s: State<L>, step: Step): State<L>
    requires Enabled(cfg, s, step)
  {
    match step
    case CallerLocks =>
      var c := cfg.tasks[s.caller.k].core;
      WithQueue(s, c, s.queues[c].(owner := TheCaller)).(caller := Locked(s.caller.k))
    case CallerPushes =>
      var c := cfg.tasks[s.caller.k].core;
      WithQueue(s, c, s.queues[c].(items := s.queues[c].items + [s.caller.k])).(caller := Notifying(s.caller.k))
    case CallerNotifies =>
      var c := cfg.tasks[s.caller.k].core;
      var woken := if s.queues[c].worker.Sleeping? then Contending else s.queues[c].worker;
      WithQueue(s, c, s.queues[c].(worker := woken)).(caller := Unlocking(s.caller.k))
    case CallerUnlocks =>
      var c := cfg.tasks[s.caller.k].core;
      WithQueue(s, c, s.queues[c].(owner := Nobody)).(caller := AfterPush(cfg, s.caller.k + 1))
    case CallerWorks =>
      var n := |cfg.tasks|;
      if s.progress[n] < |cfg.own| then ThreadStep(s, n, cfg.own[s.progress[n]])
      else s.(caller := Waiting(0))
    case CallerWaits => s.(caller := Waiting(s.caller.k + 1))
    case WorkerLocks(c) => WithQueue(s, c, s.queues[c].(worker := Testing, owner := TheWorker))
    case WorkerTests(c) =>
      var q := s.queues[c];
      // `while (wQueue.empty()) condVar.wait(lock)` releases the mutex and sleeps
      if q.items == [] then WithQueue(s, c, q.(worker := Sleeping, owner := Nobody))
      else WithQueue(s, c, q.(worker := Running(q.items[0]), items := q.items[1..], runs := q.runs + [q.items[0]]))
    case WorkerExecutes(c) =>
      var t := s.queues[c].worker.task;
      ThreadStep(s, t, cfg.tasks[t].code[s.progress[t]])
    case WorkerFinishes(c) =>
      WithQueue(s, c, s.queues[c].(worker := Popping)).(ready := s.ready + {s.queues[c].worker.task})
    case WorkerPops(c) => WithQueue(s, c, s.queues[c].(worker := Testing))
    case SpuriousWakeup(c) => WithQueue(s, c, s.queues[c].(worker := Contending))
  }

  /** The state after a schedule, None when one of its steps was not enabled. */
  function After<L>(cfg: Config<L>, s: State<L>, schedule: seq<Step>): Option<State<L>> {
    if schedule == [] then Some(s)
    else
      var before := After(cfg, s, schedule[..|schedule| - 1]);
      var step := schedule[|schedule| - 1];
      if before.Some? && Enabled(cfg, before.value, step) then Some(Next(cfg, before.value, step)) else None
  }

  /** A call begins with empty queues. A worker may be anywhere it can be with an
      empty queue: just created, asleep, about to test, or about to pop the last
      task of an earlier call. */
  ghost predicate Initial<L>(cfg: Config<L>, s: State<L>) {
    && Shape(cfg, s)
    && s.caller == AfterPush(cfg, 0)
    && s.mem == cfg.init && s.ready == {}
    && (forall t :: 0 <= t <= |cfg.tasks| ==> s.progress[t] == 0 && s.tmp[t] == 0)
    && (forall c :: 0 <= c < cfg.cores ==>
          var q := s.queues[c];
          && q.items == [] && q.runs == [] && !q.worker.Running?
          && q.owner == if q.worker.Testing? || q.worker.Popping? then TheWorker else Nobody)
  }

  /** Every future is ready and the caller has seen it. */
  predicate Complete<L>(cfg: Config<L>, s: State<L>) {
    s.caller == Waiting(|cfg.tasks|)
  }

  // ---------------------------------------------------------------- invariant

  /** The tasks among the first `k` that are pushed on the queue of core `c`. */
  function PushedTo<L>(tasks: seq<Task<L>>, c: nat, k: nat): seq<nat>
    requires k <= |tasks|
  {
    if k == 0 then []
    else if tasks[k - 1].core == c then PushedTo(tasks, c, k - 1) + [k - 1]
    else PushedTo(tasks, c, k - 1)
  }

  lemma {:induction false} PushedToIncreases<L>(tasks: seq<Task<L>>, c: nat, k: nat)
    requires k <= |tasks|
    ensures var p := PushedTo(tasks, c, k);
      && (forall i :: 0 <= i < |p| ==> p[i] < k && tasks[p[i]].core == c)
      && (forall i, j :: 0 <= i < j < |p| ==> p[i] < p[j])
      && (forall t :: 0 <= t < k && tasks[t].core == c ==> t in p)
  {
    if k > 0 {
      PushedToIncreases(tasks, c, k - 1);
    }
  }

  /** How many tasks are in the queues, started or not. */
  function Pushed<L>(cfg: Config<L>, caller: Caller): nat {
    match caller
    case Pushing(k) => k
    case Locked(k) => k
    case Notifying(k) => k + 1
    case Unlocking(k) => k + 1
    case _ => |cfg.tasks|
  }

  predicate CallerHolds<L>(cfg: Config<L>, caller: Caller, c: nat) {
    && (caller.Locked? || caller.Notifying? || caller.Unlocking?)
    && caller.k < |cfg.tasks| && cfg.tasks[caller.k].core == c
  }

  ghost predicate QueueInv<L>(cfg: Config<L>, s: State<L>, c: nat)
    requires Shape(cfg, s) && c < cfg.cores
  {
    QueueOk(cfg, s.caller, c, s.queues[c])
  }

  ghost predicate QueueOk<L>(cfg: Config<L>, caller: Caller, c: nat, q: CoreQueue)
    requires Pushed(cfg, caller) <= |cfg.tasks|
  {
    // nothing is lost, duplicated or reordered
    && q.runs + q.items == PushedTo(cfg.tasks, c, Pushed(cfg, caller))
    && (q.worker.Running? ==> q.runs != [] && q.runs[|q.runs| - 1] == q.worker.task)
    // mutual exclusion
    && (q.owner == TheWorker <==> q.worker.Testing? || q.worker.Running? || q.worker.Popping?)
    && (q.owner == TheCaller <==> CallerHolds(cfg, caller, c))
    // no lost wakeup
    && (q.worker.Sleeping? && q.items != [] ==> caller.Notifying? && CallerHolds(cfg, caller, c))
  }

  ghost predicate TaskInv<L>(cfg: Config<L>, s: State<L>, t: nat)
    requires Shape(cfg, s) && t < |cfg.tasks| && cfg.tasks[t].core < cfg.cores
  {
    var q := s.queues[cfg.tasks[t].core];
    && (t in s.ready <==> t in q.runs && q.worker != Running(t))
    && (t !in q.runs ==> s.progress[t] == 0)
    && (t in s.ready ==> s.progress[t] == |cfg.tasks[t].code|)
    && s.progress[t] <= |cfg.tasks[t].code|
  }

  ghost predicate CallerInv<L>(cfg: Config<L>, s: State<L>)
    requires Shape(cfg, s)
  {
    && s.progress[|cfg.tasks|] <= |cfg.own|
    && (s.caller.Waiting? ==> s.progress[|cfg.tasks|] == |cfg.own| && forall t :: 0 <= t < s.caller.k ==> t in s.ready)
  }

  ghost predicate ProgressInv<L>(cfg: Config<L>, s: State<L>)
    requires Shape(cfg, s)
  {
    forall t :: 0 <= t <= |cfg.tasks| ==> s.progress[t] <= |Codes(cfg)[t]|
  }

  /** The invariant of the queues, the tasks and the caller, whatever the tasks do. */
  ghost predicate Inv<L>(cfg: Config<L>, s: State<L>) {
    && ValidConfig(cfg) && Shape(cfg, s)
    && (forall c :: 0 <= c < cfg.cores ==> QueueInv(cfg, s, c))
    && (forall t :: 0 <= t < |cfg.tasks| ==> TaskInv(cfg, s, t))
    && CallerInv(cfg, s) && ProgressInv(cfg, s)
  }

  // ------------------------------------------------- the invariant is inductive

  lemma InitialEstablishesInv<L>(cfg: Config<L>, s: State<L>)
    requires ValidConfig(cfg) && Initial(cfg, s)
    ensures Inv(cfg, s)
  {
    assert Pushed(cfg, s.caller) == 0;
  }

  lemma StepKeepsShape<L>(cfg: Config<L>, s: State<L>, step: Step)
    requires Inv(cfg, s) && Enabled(cfg, s, step)
    ensures Shape(cfg, Next(cfg, s, step))
  {
    if step.WorkerTests? && s.queues[step.core].items != [] {
      FrontIsNew(cfg, s, step.core);
    }
  }

  predicate IsCallerStep(step: Step) {
    || step.CallerLocks? || step.CallerPushes? || step.CallerNotifies?
    || step.CallerUnlocks? || step.CallerWorks? || step.CallerWaits?
  }

  /** Pushing appends to one queue; the others wait for the same tasks as before. */
  lemma PushKeepsQueueOk<L>(cfg: Config<L>, k: nat, c: nat, q: CoreQueue)
    requires k < |cfg.tasks| && QueueOk(cfg, Locked(k), c, q)
    ensures QueueOk(cfg, Notifying(k), c, if cfg.tasks[k].core == c then q.(items := q.items + [k]) else q)
  {
    assert q.runs + (q.items + [k]) == (q.runs + q.items) + [k];
  }

  lemma LockKeepsQueueOk<L>(cfg: Config<L>, k: nat, c: nat, q: CoreQueue)
    requires k < |cfg.tasks| && QueueOk(cfg, Pushing(k), c, q) && (cfg.tasks[k].core == c ==> q.owner == Nobody)
    ensures QueueOk(cfg, Locked(k), c, if cfg.tasks[k].core == c then q.(owner := TheCaller) else q)
  {
  }

  lemma NotifyKeepsQueueOk<L>(cfg: Config<L>, k: nat, c: nat, q: CoreQueue)
    requires k < |cfg.tasks| && QueueOk(cfg, Notifying(k), c, q)
    ensures QueueOk(cfg, Unlocking(k), c,
                    if cfg.tasks[k].core == c && q.worker.Sleeping? then q.(worker := Contending) else q)
  {
  }

  lemma UnlockKeepsQueueOk<L>(cfg: Config<L>, k: nat, c: nat, q: CoreQueue)
    requires k < |cfg.tasks| && QueueOk(cfg, Unlocking(k), c, q)
    ensures QueueOk(cfg, AfterPush(cfg, k + 1), c, if cfg.tasks[k].core == c then q.(owner := Nobody) else q)
  {
  }

  lemma CallerStepKeepsQueueInv<L>(cfg: Config<L>, s: State<L>, step: Step, c: nat)
    requires Inv(cfg, s) && Enabled(cfg, s, step) && c < cfg.cores && IsCallerStep(step)
    requires Shape(cfg, Next(cfg, s, step))
    ensures QueueInv(cfg, Next(cfg, s, step), c)
  {
    assert QueueInv(cfg, s, c);
    match step
    case CallerLocks => LockKeepsQueueOk(cfg, s.caller.k, c, s.queues[c]);
    case CallerPushes => PushKeepsQueueOk(cfg, s.caller.k, c, s.queues[c]);
    case CallerNotifies => NotifyKeepsQueueOk(cfg, s.caller.k, c, s.queues[c]);
    case CallerUnlocks => UnlockKeepsQueueOk(cfg, s.caller.k, c, s.queues[c]);
    case _ =>
  }

  lemma WorkerStepKeepsQueueInv<L>(cfg: Config<L>, s: State<L>, step: Step, c: nat)
    requires Inv(cfg, s) && Enabled(cfg, s, step) && c < cfg.cores && !IsCallerStep(step)
    requires Shape(cfg, Next(cfg, s, step))
    ensures QueueInv(cfg, Next(cfg, s, step), c)
  {
    var q, q' := s.queues[c], Next(cfg, s, step).queues[c];
    assert QueueInv(cfg, s, c);
    assert Next(cfg, s, step).caller == s.caller;
    if step.core == c && step.WorkerTests? && q.items != [] {
      StartKeepsQueueOk(cfg, s.caller, c, q);
    } else {
      assert q'.runs == q.runs && q'.items == q.items;
    }
  }

  lemma StartKeepsQueueOk<L>(cfg: Config<L>, caller: Caller, c: nat, q: CoreQueue)
    requires Pushed(cfg, caller) <= |cfg.tasks| && QueueOk(cfg, caller, c, q)
    requires q.items != [] && q.worker.Testing?
    ensures QueueOk(cfg, caller, c,
                    q.(worker := Running(q.items[0]), items := q.items[1..], runs := q.runs + [q.items[0]]))
  {
    assert (q.runs + [q.items[0]]) + q.items[1..] == q.runs + q.items;
  }

  /** A task about to be started has not been started before. */
  lemma FrontIsNew<L>(cfg: Config<L>, s: State<L>, c: nat)
    requires Inv(cfg, s) && c < cfg.cores && s.queues[c].items != []
    ensures var t := s.queues[c].items[0];
      t < |cfg.tasks| && cfg.tasks[t].core == c && t !in s.queues[c].runs
  {
    var q := s.queues[c];
    assert QueueInv(cfg, s, c);
    PushedToIncreases(cfg.tasks, c, Pushed(cfg, s.caller));
    var p := q.runs + q.items;
    assert p[|q.runs|] == q.items[0];
    forall i | 0 <= i < |q.runs|
      ensures q.runs[i] != q.items[0]
    {
      assert p[i] == q.runs[i];
    }
  }

  /** The task a worker runs was pushed on that worker's queue. */
  lemma RunningIsOwn<L>(cfg: Config<L>, s: State<L>, c: nat)
    requires Inv(cfg, s) && c < cfg.cores && s.queues[c].worker.Running?
    ensures var t := s.queues[c].worker.task;
      t < |cfg.tasks| && cfg.tasks[t].core == c && t in s.queues[c].runs
  {
    var q, last := s.queues[c], |s.queues[c].runs| - 1;
    assert QueueInv(cfg, s, c);
    PushedToIncreases(cfg.tasks, c, Pushed(cfg, s.caller));
    assert q.runs[last] == q.worker.task == (q.runs + q.items)[last];
    assert PushedTo(cfg.tasks, c, Pushed(cfg, s.caller))[last] == q.worker.task;
  }

  lemma CallerStepKeepsTaskInv<L>(cfg: Config<L>, s: State<L>, step: Step, t: nat)
    requires Inv(cfg, s) && Enabled(cfg, s, step) && t < |cfg.tasks| && IsCallerStep(step)
    requires Shape(cfg, Next(cfg, s, step))
    ensures TaskInv(cfg, Next(cfg, s, step), t)
  {
    assert TaskInv(cfg, s, t);
    var c, s' := cfg.tasks[t].core, Next(cfg, s, step);
    assert s'.queues[c].runs == s.queues[c].runs && s'.progress[t] == s.progress[t];
  }

  lemma WorkerStepKeepsTaskInv<L>(cfg: Config<L>, s: State<L>, step: Step, t: nat)
    requires Inv(cfg, s) && Enabled(cfg, s, step) && t < |cfg.tasks| && !IsCallerStep(step)
    requires Shape(cfg, Next(cfg, s, step))
    ensures TaskInv(cfg, Next(cfg, s, step), t)
  {
    assert TaskInv(cfg, s, t) && QueueInv(cfg, s, cfg.tasks[t].core);
    if step.WorkerTests? && s.queues[step.core].items != [] {
      FrontIsNew(cfg, s, step.core);
    } else if step.WorkerExecutes? || step.WorkerFinishes? {
      RunningIsOwn(cfg, s, step.core);
    }
  }

  lemma StepKeepsProgressInv<L>(cfg: Config<L>, s: State<L>, step: Step)
    requires Inv(cfg, s) && Enabled(cfg, s, step) && Shape(cfg, Next(cfg, s, step))
    ensures ProgressInv(cfg, Next(cfg, s, step))
  {
    if step.WorkerExecutes? {
      RunningIsOwn(cfg, s, step.core);
    }
  }

  lemma StepKeepsInv<L>(cfg: Config<L>, s: State<L>, step: Step)
    requires Inv(cfg, s) && Enabled(cfg, s, step)
    ensures Inv(cfg, Next(cfg, s, step))
  {
    StepKeepsShape(cfg, s, step);
    forall c | 0 <= c < cfg.cores
      ensures QueueInv(cfg, Next(cfg, s, step), c)
    {
      if IsCallerStep(step) {
        CallerStepKeepsQueueInv(cfg, s, step, c);
      } else {
        WorkerStepKeepsQueueInv(cfg, s, step, c);
      }
    }
    forall t | 0 <= t < |cfg.tasks|
      ensures TaskInv(cfg, Next(cfg, s, step), t)
    {
      if IsCallerStep(step) {
        CallerStepKeepsTaskInv(cfg, s, step, t);
      } else {
        WorkerStepKeepsTaskInv(cfg, s, step, t);
      }
    }
    StepKeepsProgressInv(cfg, s, step);
    assert CallerInv(cfg, Next(cfg, s, step));
  }

  lemma {:induction false} RunKeepsInv<L>(cfg: Config<L>, s: State<L>, schedule: seq<Step>)
    requires Inv(cfg, s) && After(cfg, s, schedule).Some?
    ensures Inv(cfg, After(cfg, s, schedule).value)
  {
    if schedule != [] {
      var front := schedule[..|schedule| - 1];
      RunKeepsInv(cfg, s, front);
      StepKeepsInv(cfg, After(cfg, s, front).value, schedule[|schedule| - 1]);
    }
  }

  // ------------------------------------------------- race-free tasks and memory

  /** Besides, the memory is that of a serial execution of what every thread has done. */
  ghost predicate SerialInv<L>(cfg: Config<L>, s: State<L>) {
    && Inv(cfg, s) && DataRaceFree(Codes(cfg))
    && s.mem == Serial(Codes(cfg), s.progress, cfg.init)
    && forall t :: 0 <= t <= |cfg.tasks| ==> s.tmp[t] == SerialTmp(Codes(cfg), s.progress, t, cfg.init)
  }

  lemma {:induction false} SerialOfNothing<L>(codes: seq<Program<L>>, progress: seq<nat>, init: Memory<L>)
    requires |codes| == |progress| && forall t :: 0 <= t < |codes| ==> progress[t] == 0
    ensures Serial(codes, progress, init) == init
  {
    if codes != [] {
      SerialOfNothing(codes[..|codes| - 1], progress[..|codes| - 1], init);
    }
  }

  lemma InitialIsSerial<L>(cfg: Config<L>, s: State<L>)
    requires ValidConfig(cfg) && DataRaceFree(Codes(cfg)) && Initial(cfg, s)
    ensures SerialInv(cfg, s)
  {
    var codes := Codes(cfg);
    InitialEstablishesInv(cfg, s);
    SerialOfNothing(codes, s.progress, cfg.init);
    forall t | 0 <= t <= |cfg.tasks|
      ensures s.tmp[t] == SerialTmp(codes, s.progress, t, cfg.init)
    {
      assert codes[t][..s.progress[t]] == [];
    }
  }

  lemma ThreadStepAdvances<L>(cfg: Config<L>, s: State<L>, t: nat)
    requires SerialInv(cfg, s) && t <= |cfg.tasks| && s.progress[t] < |Codes(cfg)[t]|
    ensures var s' := ThreadStep(s, t, Codes(cfg)[t][s.progress[t]]);
      && Shape(cfg, s') && ProgressInv(cfg, s')
      && s'.mem == Serial(Codes(cfg), s'.progress, cfg.init)
      && s'.tmp[t] == SerialTmp(Codes(cfg), s'.progress, t, cfg.init)
  {
    assert Midway(Codes(cfg), s.progress, t);
    StepKeepsSerial(Codes(cfg), s.progress, t, cfg.init);
  }

  lemma ThreadStepKeepsMemoryInv<L>(cfg: Config<L>, s: State<L>, t: nat)
    requires SerialInv(cfg, s) && t <= |cfg.tasks| && s.progress[t] < |Codes(cfg)[t]|
    ensures var s' := ThreadStep(s, t, Codes(cfg)[t][s.progress[t]]);
      && s'.mem == Serial(Codes(cfg), s'.progress, cfg.init)
      && forall u :: 0 <= u <= |cfg.tasks| ==> s'.tmp[u] == SerialTmp(Codes(cfg), s'.progress, u, cfg.init)
  {
    var codes := Codes(cfg);
    ThreadStepAdvances(cfg, s, t);
    assert Midway(codes, s.progress, t);
    var s' := ThreadStep(s, t, codes[t][s.progress[t]]);
    forall u | 0 <= u <= |cfg.tasks|
      ensures s'.tmp[u] == SerialTmp(codes, s'.progress, u, cfg.init)
    {
      if u != t {
        StepKeepsOtherTmp(codes, s.progress, t, u, cfg.init);
      }
    }
  }

  lemma StepKeepsSerialInv<L>(cfg: Config<L>, s: State<L>, step: Step)
    requires SerialInv(cfg, s) && Enabled(cfg, s, step)
    ensures SerialInv(cfg, Next(cfg, s, step))
  {
    StepKeepsInv(cfg, s, step);
    if step.WorkerExecutes? {
      ThreadStepKeepsMemoryInv(cfg, s, s.queues[step.core].worker.task);
    } else if step.CallerWorks? && s.progress[|cfg.tasks|] < |cfg.own| {
      ThreadStepKeepsMemoryInv(cfg, s, |cfg.tasks|);
    }
  }

  lemma {:induction false} RunKeepsSerialInv<L>(cfg: Config<L>, s: State<L>, schedule: seq<Step>)
    requires SerialInv(cfg, s) && After(cfg, s, schedule).Some?
    ensures SerialInv(cfg, After(cfg, s, schedule).value)
  {
    if schedule != [] {
      var front := schedule[..|schedule| - 1];
      RunKeepsSerialInv(cfg, s, front);
      StepKeepsSerialInv(cfg, After(cfg, s, front).value, schedule[|schedule| - 1]);
    }
  }

  // ------------------------------------------------------------------ results

  /** Whole programs, one after another. */
  function RunAll<L>(codes: seq<Program<L>>, init: Memory<L>): Memory<L> {
    if codes == [] then init
    else Run(codes[|codes| - 1], Cpu(RunAll(codes[..|codes| - 1], init), 0)).mem
  }

  lemma {:induction false} SerialOfEverything<L>(codes: seq<Program<L>>, progress: seq<nat>, init: Memory<L>)
    requires |codes| == |progress| && forall t :: 0 <= t < |codes| ==> progress[t] == |codes[t]|
    ensures Serial(codes, progress, init) == RunAll(codes, init)
  {
    if codes != [] {
      var n := |codes| - 1;
      SerialOfEverything(codes[..n], progress[..n], init);
      assert codes[n][..progress[n]] == codes[n];
    }
  }

  /** Whatever the interleaving, once the caller has waited for all futures the
      memory is what running the tasks one after another in push order, and then
      the caller's own code, leaves. */
  lemma EveryScheduleIsSerial<L>(cfg: Config<L>, s: State<L>, schedule: seq<Step>)
    requires ValidConfig(cfg) && DataRaceFree(Codes(cfg)) && Initial(cfg, s)
    requires After(cfg, s, schedule).Some? && Complete(cfg, After(cfg, s, schedule).value)
    ensures After(cfg, s, schedule).value.mem == RunAll(Codes(cfg), cfg.init)
  {
    InitialIsSerial(cfg, s);
    RunKeepsSerialInv(cfg, s, schedule);
    var s' := After(cfg, s, schedule).value;
    forall t | 0 <= t <= |cfg.tasks|
      ensures s'.progress[t] == |Codes(cfg)[t]|
    {
      if t < |cfg.tasks| {
        assert TaskInv(cfg, s', t);
      }
    }
    SerialOfEverything(Codes(cfg), s'.progress, cfg.init);
  }

  lemma {:induction false} PushedToExtends<L>(tasks: seq<Task<L>>, c: nat, k: nat, n: nat)
    requires k <= n <= |tasks|
    ensures PushedTo(tasks, c, k) <= PushedTo(tasks, c, n)
  {
    if k < n {
      PushedToExtends(tasks, c, k, n - 1);
    }
  }

  lemma UnstartedIsNotReady<L>(cfg: Config<L>, s: State<L>, c: nat)
    requires Inv(cfg, s) && c < cfg.cores && s.queues[c].items != []
    ensures s.queues[c].items[0] < |cfg.tasks| && s.queues[c].items[0] !in s.ready
  {
    FrontIsNew(cfg, s, c);
    assert TaskInv(cfg, s, s.queues[c].items[0]);
  }

  lemma RunsAreAPrefix<L>(cfg: Config<L>, s: State<L>, c: nat)
    requires Inv(cfg, s) && c < cfg.cores
    ensures s.queues[c].runs <= PushedTo(cfg.tasks, c, |cfg.tasks|)
  {
    assert QueueInv(cfg, s, c);
    PushedToExtends(cfg.tasks, c, Pushed(cfg, s.caller), |cfg.tasks|);
  }

  lemma CompleteHasRunAll<L>(cfg: Config<L>, s: State<L>, c: nat)
    requires Inv(cfg, s) && c < cfg.cores && Complete(cfg, s)
    ensures s.queues[c].runs == PushedTo(cfg.tasks, c, |cfg.tasks|)
    ensures forall t :: 0 <= t < |cfg.tasks| ==> t in s.ready
  {
    assert QueueInv(cfg, s, c);
    if s.queues[c].items != [] {
      UnstartedIsNotReady(cfg, s, c);
    }
  }

  /** At any time each worker has started a prefix of the tasks pushed on its
      queue, in push order and none twice; when the caller returns it has run
      exactly those tasks. */
  lemma EveryTaskRunsOnceInPushOrder<L>(cfg: Config<L>, s: State<L>, schedule: seq<Step>, c: nat)
    requires ValidConfig(cfg) && Initial(cfg, s) && c < cfg.cores
    requires After(cfg, s, schedule).Some?
    ensures var s' := After(cfg, s, schedule).value;
      && c < |s'.queues|
      && s'.queues[c].runs <= PushedTo(cfg.tasks, c, |cfg.tasks|)
      && (Complete(cfg, s') ==> s'.queues[c].runs == PushedTo(cfg.tasks, c, |cfg.tasks|)
                                && forall t :: 0 <= t < |cfg.tasks| ==> t in s'.ready)
  {
    InitialEstablishesInv(cfg, s);
    RunKeepsInv(cfg, s, schedule);
    RunsAreAPrefix(cfg, After(cfg, s, schedule).value, c);
    if Complete(cfg, After(cfg, s, schedule).value) {
      CompleteHasRunAll(cfg, After(cfg, s, schedule).value, c);
    }
  }

  /** A worker that waits without having been notified has an empty queue: the
      only exception is the instant between push and notify_one, during which the
      caller holds the mutex of that very queue. */
  lemma NoLostWakeup<L>(cfg: Config<L>, s: State<L>, schedule: seq<Step>, c: nat)
    requires ValidConfig(cfg) && Initial(cfg, s) && c < cfg.cores
    requires After(cfg, s, schedule).Some?
    ensures var s' := After(cfg, s, schedule).value;
      && c < |s'.queues|
      && (s'.queues[c].worker.Sleeping? && s'.queues[c].items != [] ==>
            s'.caller.Notifying? && CallerHolds(cfg, s'.caller, c) && s'.queues[c].owner == TheCaller)
  {
    InitialEstablishesInv(cfg, s);
    RunKeepsInv(cfg, s, schedule);
    assert QueueInv(cfg, After(cfg, s, schedule).value, c);
  }

  /** A worker that is not asleep can move, unless the caller holds its mutex. */
  lemma WorkerCanMove<L>(cfg: Config<L>, s: State<L>, c: nat) returns (step: Step)
    requires Inv(cfg, s) && c < cfg.cores
    requires !s.queues[c].worker.Sleeping?
    requires s.queues[c].worker.Contending? ==> s.queues[c].owner == Nobody
    ensures Enabled(cfg, s, step) && !step.SpuriousWakeup?
  {
    match s.queues[c].worker
    case Contending => step := WorkerLocks(c);
    case Testing => step := WorkerTests(c);
    case Running(t) =>
      RunningIsOwn(cfg, s, c);
      assert TaskInv(cfg, s, t);
      step := if s.progress[t] < |cfg.tasks[t].code| then WorkerExecutes(c) else WorkerFinishes(c);
    case Popping => step := WorkerPops(c);
  }

  /** A caller that cannot take the mutex of a queue leaves its worker able to move. */
  lemma PushingIsNotStuck<L>(cfg: Config<L>, s: State<L>) returns (step: Step)
    requires Inv(cfg, s) && s.caller.Pushing?
    ensures Enabled(cfg, s, step) && !step.SpuriousWakeup?
  {
    var c := cfg.tasks[s.caller.k].core;
    assert QueueInv(cfg, s, c);
    if s.queues[c].owner == Nobody {
      step := CallerLocks;
    } else {
      step := WorkerCanMove(cfg, s, c);
    }
  }

  /** A caller that waits for an unready future leaves that task's worker able to
      move: it cannot be asleep. */
  lemma WaitingIsNotStuck<L>(cfg: Config<L>, s: State<L>) returns (step: Step)
    requires Inv(cfg, s) && s.caller.Waiting? && s.caller.k < |cfg.tasks|
    ensures Enabled(cfg, s, step) && !step.SpuriousWakeup?
  {
    var k := s.caller.k;
    if k in s.ready {
      step := CallerWaits;
    } else {
      WorkerOfUnready(cfg, s, k);
      step := WorkerCanMove(cfg, s, cfg.tasks[k].core);
    }
  }

  lemma WorkerOfUnready<L>(cfg: Config<L>, s: State<L>, t: nat)
    requires Inv(cfg, s) && s.caller.Waiting? && t < |cfg.tasks| && t !in s.ready
    ensures var q := s.queues[cfg.tasks[t].core];
      !q.worker.Sleeping? && (q.worker.Contending? ==> q.owner == Nobody)
  {
    var c := cfg.tasks[t].core;
    assert TaskInv(cfg, s, t) && QueueInv(cfg, s, c);
    PushedToIncreases(cfg.tasks, c, |cfg.tasks|);
    var q := s.queues[c];
    assert t in q.runs + q.items;
  }

  lemma SomeoneCanMove<L>(cfg: Config<L>, s: State<L>) returns (step: Step)
    requires Inv(cfg, s) && !Complete(cfg, s)
    ensures Enabled(cfg, s, step) && !step.SpuriousWakeup?
  {
    match s.caller
    case Pushing(_) => step := PushingIsNotStuck(cfg, s);
    case Locked(_) => step := CallerPushes;
    case Notifying(_) => step := CallerNotifies;
    case Unlocking(_) => step := CallerUnlocks;
    case Working => step := CallerWorks;
    case Waiting(_) => step := WaitingIsNotStuck(cfg, s);
  }

  /** No reachable state is stuck: as long as the caller has not returned, some
      thread can take a step that is not a spurious wakeup, even when a core has
      been given several tasks. */
  lemma NoDeadlock<L>(cfg: Config<L>, s: State<L>, schedule: seq<Step>) returns (step: Step)
    requires ValidConfig(cfg) && Initial(cfg, s)
    requires After(cfg, s, schedule).Some? && !Complete(cfg, After(cfg, s, schedule).value)
    ensures Enabled(cfg, After(cfg, s, schedule).value, step) && !step.SpuriousWakeup?
  {
    InitialEstablishesInv(cfg, s);
    RunKeepsInv(cfg, s, schedule);
    step := SomeoneCanMove(cfg, After(cfg, s, schedule).value);
  }

  // -------------------------------------------------------------- termination

  function SumOf(s: seq<nat>): nat {
    if s == [] then 0 else SumOf(s[..|s| - 1]) + s[|s| - 1]
  }

  lemma {:induction false} SumOfUpdate(s: seq<nat>, i: nat, v: nat)
    requires i < |s|
    ensures SumOf(s[i := v]) == SumOf(s) - s[i] + v
  {
    var n := |s| - 1;
    if i == n {
      assert s[i := v][..n] == s[..n];
    } else {
      SumOfUpdate(s[..n], i, v);
      assert s[i := v][..n] == s[..n][i := v];
    }
  }

  function WorkerWork(w: Worker): nat {
    match w
    case Sleeping => 0
    case Testing => 1
    case Contending => 2
    case Popping => 2
    case Running(_) => 3
  }

  /** What is left to do on the queue of core `c`, instructions not counted. */
  function QueueWork<L>(cfg: Config<L>, s: State<L>, c: nat): nat
    requires c < |s.queues|
  {
    var toStart := |PushedTo(cfg.tasks, c, |cfg.tasks|)| - |s.queues[c].runs|;
    (if toStart >= 0 then 3 * toStart else 0) + WorkerWork(s.queues[c].worker)
  }

  function CallerWork<L>(cfg: Config<L>, caller: Caller): nat {
    var n := |cfg.tasks|;
    match caller
    case Pushing(k) => if k <= n then 6 * (n - k) + n + 1 else 0
    case Locked(k) => if k < n then 6 * (n - k) + n else 0
    case Notifying(k) => if k < n then 6 * (n - k) + n - 1 else 0
    case Unlocking(k) => if k < n then 6 * (n - k) + n - 4 else 0
    case Working => n + 1
    case Waiting(k) => if k <= n then n - k else 0
  }

  function InstructionsLeft<L>(cfg: Config<L>, s: State<L>, t: nat): nat
    requires Shape(cfg, s) && t <= |cfg.tasks|
  {
    if s.progress[t] <= |Codes(cfg)[t]| then |Codes(cfg)[t]| - s.progress[t] else 0
  }

  /** An upper bound on the number of steps, other than spurious wakeups and
      their consequences, that are still possible. */
  function Work<L>(cfg: Config<L>, s: State<L>): nat
    requires Shape(cfg, s)
  {
    SumOf(Instructions(cfg, s)) + SumOf(QueueWorks(cfg, s)) + CallerWork(cfg, s.caller)
  }

  function Instructions<L>(cfg: Config<L>, s: State<L>): seq<nat>
    requires Shape(cfg, s)
  {
    seq(|cfg.tasks| + 1, t requires 0 <= t <= |cfg.tasks| => InstructionsLeft(cfg, s, t))
  }

  function QueueWorks<L>(cfg: Config<L>, s: State<L>): seq<nat>
    requires Shape(cfg, s)
  {
    seq(cfg.cores, c requires 0 <= c < cfg.cores => QueueWork(cfg, s, c))
  }

  lemma ThreadStepConsumesWork<L>(cfg: Config<L>, s: State<L>, t: nat)
    requires Inv(cfg, s) && t <= |cfg.tasks| && s.progress[t] < |Codes(cfg)[t]|
    ensures var s' := ThreadStep(s, t, Codes(cfg)[t][s.progress[t]]);
      Shape(cfg, s') && Work(cfg, s') == Work(cfg, s) - 1
  {
    var s' := ThreadStep(s, t, Codes(cfg)[t][s.progress[t]]);
    assert Instructions(cfg, s') == Instructions(cfg, s)[t := InstructionsLeft(cfg, s', t)];
    SumOfUpdate(Instructions(cfg, s), t, InstructionsLeft(cfg, s', t));
    assert QueueWorks(cfg, s') == QueueWorks(cfg, s);
  }

  lemma QueueStepWork<L>(cfg: Config<L>, s: State<L>, s': State<L>, c: nat)
    requires Shape(cfg, s) && Shape(cfg, s') && c < cfg.cores
    requires s'.progress == s.progress
    requires forall d :: 0 <= d < cfg.cores && d != c ==> s'.queues[d] == s.queues[d]
    ensures Work(cfg, s') == Work(cfg, s) - QueueWork(cfg, s, c) + QueueWork(cfg, s', c)
                             - CallerWork(cfg, s.caller) + CallerWork(cfg, s'.caller)
  {
    assert Instructions(cfg, s') == Instructions(cfg, s);
    assert QueueWorks(cfg, s') == QueueWorks(cfg, s)[c := QueueWork(cfg, s', c)];
    SumOfUpdate(QueueWorks(cfg, s), c, QueueWork(cfg, s', c));
  }

  lemma CallerStepConsumesWork<L>(cfg: Config<L>, s: State<L>, step: Step)
    requires Inv(cfg, s) && Enabled(cfg, s, step) && IsCallerStep(step) && Shape(cfg, Next(cfg, s, step))
    ensures Work(cfg, Next(cfg, s, step)) < Work(cfg, s)
  {
    var s' := Next(cfg, s, step);
    var n := |cfg.tasks|;
    if step.CallerWorks? && s.progress[n] < |cfg.own| {
      ThreadStepConsumesWork(cfg, s, n);
    } else if step.CallerWorks? || step.CallerWaits? {
      assert Instructions(cfg, s') == Instructions(cfg, s) && QueueWorks(cfg, s') == QueueWorks(cfg, s);
    } else {
      QueueStepWork(cfg, s, s', cfg.tasks[s.caller.k].core);
    }
  }

  lemma StartLeavesRoom<L>(cfg: Config<L>, s: State<L>, c: nat)
    requires Inv(cfg, s) && c < cfg.cores && s.queues[c].items != []
    ensures |s.queues[c].runs| < |PushedTo(cfg.tasks, c, |cfg.tasks|)|
  {
    var q := s.queues[c];
    assert QueueInv(cfg, s, c);
    PushedToExtends(cfg.tasks, c, Pushed(cfg, s.caller), |cfg.tasks|);
    assert |q.runs + q.items| <= |PushedTo(cfg.tasks, c, |cfg.tasks|)|;
  }

  lemma WorkerStepConsumesWork<L>(cfg: Config<L>, s: State<L>, step: Step)
    requires Inv(cfg, s) && Enabled(cfg, s, step) && !IsCallerStep(step) && Shape(cfg, Next(cfg, s, step))
    ensures Work(cfg, Next(cfg, s, step)) <= Work(cfg, s) + if step.SpuriousWakeup? then 2 else -1
  {
    var c, s' := step.core, Next(cfg, s, step);
    if step.WorkerExecutes? {
      ThreadStepConsumesWork(cfg, s, s.queues[c].worker.task);
    } else {
      if step.WorkerTests? && s.queues[c].items != [] {
        StartLeavesRoom(cfg, s, c);
      }
      assert QueueWork(cfg, s', c) <= QueueWork(cfg, s, c) + if step.SpuriousWakeup? then 2 else -1;
      QueueStepWork(cfg, s, s', c);
    }
  }

  function SpuriousWakeups(schedule: seq<Step>): nat {
    if schedule == [] then 0
    else SpuriousWakeups(schedule[..|schedule| - 1]) + if schedule[|schedule| - 1].SpuriousWakeup? then 1 else 0
  }

  /** The length of a schedule is bounded by the work of the initial state and the
      number of spurious wakeups. Together with NoDeadlock this says that the waits of
      the caller end under every scheduler with finitely many spurious wakeups. */
  lemma {:induction false} SchedulesAreBounded<L>(cfg: Config<L>, s: State<L>, schedule: seq<Step>)
    requires ValidConfig(cfg) && Initial(cfg, s)
    requires After(cfg, s, schedule).Some?
    ensures Shape(cfg, After(cfg, s, schedule).value)
    ensures |schedule| + Work(cfg, After(cfg, s, schedule).value) <= Work(cfg, s) + 3 * SpuriousWakeups(schedule)
  {
    if schedule != [] {
      var front := schedule[..|schedule| - 1];
      SchedulesAreBounded(cfg, s, front);
      InitialEstablishesInv(cfg, s);
      RunKeepsInv(cfg, s, front);
      var before, step := After(cfg, s, front).value, schedule[|schedule| - 1];
      StepKeepsShape(cfg, before, step);
      if IsCallerStep(step) {
        CallerStepConsumesWork(cfg, before, step);
      } else {
        WorkerStepConsumesWork(cfg, before, step);
      }
    }
  }
}
