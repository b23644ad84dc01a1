/** The round-robin scheduler: ready queue, current task and task states, over every run. */
module Scheduler {
  import opened Common

  type Pid = int

  /** The identity of a process control block; its pid need not be unique. */
  type Task = nat

  datatype TaskState = Ready | Running | Blocked | Zombie

  /** States and pids of the control blocks, the process table, the ready queue, the task on the CPU
      with its published pid, and the idle task if one is registered. */
  datatype Sched = Sched(
    states: map<Task, TaskState>, pids: map<Task, Pid>, table: map<Pid, Task>,
    queue: seq<Task>, current: Option<Task>, currentPid: Pid, idle: Option<Task>)

  // ----- the operations -----

  function PidOf(s: Sched, t: Task): (p: Pid) {
    if t in s.pids then s.pids[t] else 0
  }

  function Dispatch(s: Sched, next: Task): (r: Sched) {
    s.(states := s.states[next := Running], current := Some(next), currentPid := PidOf(s, next))
  }

  predicate CurrentIs(s: Sched, state: TaskState) {
    s.current.Some? && s.current.value in s.states && s.states[s.current.value] == state
  }

  function MarkBlocked(s: Sched): (r: Sched) {
    if CurrentIs(s, Running) then s.(states := s.states[s.current.value := Blocked]) else s
  }

  function MarkRunning(s: Sched): (r: Sched) {
    if CurrentIs(s, Blocked) then s.(states := s.states[s.current.value := Running]) else s
  }

  function MarkZombie(s: Sched): (r: Sched) {
    if s.current.Some? then s.(states := s.states[s.current.value := Zombie]) else s
  }

  /** Wakes the task that the table has under `p`, if it is blocked. */
  function WakeOne(s: Sched, p: Pid): (r: Sched) {
    if p in s.table && s.table[p] in s.states && s.states[s.table[p]] == Blocked
    then s.(states := s.states[s.table[p] := Ready], queue := s.queue + [s.table[p]]) else s
  }

  function Wake(s: Sched, pids: seq<Pid>): (r: Sched) {
    if pids == [] then s else WakeOne(Wake(s, pids[..|pids| - 1]), pids[|pids| - 1])
  }

  /** Leaves the current task, whose state the caller has set, for the head of the queue, or for the
      idle task if the queue is empty, or stays if there is none. */
  function SwitchOut(s: Sched): (r: Sched) {
    if s.current.None? then s
    else if s.queue != [] then Dispatch(s.(queue := s.queue[1..]), s.queue[0])
    else if s.idle.Some? then Dispatch(s, s.idle.value)
    else MarkRunning(s)
  }

  /** Puts the current task, if it is running, behind the queue and dispatches its head. */
  function Rotate(s: Sched): (r: Sched)
    requires s.queue != []
  {
    var rest := s.queue[1..];
    if CurrentIs(s, Running) then
      var prev := s.current.value;
      Dispatch(s.(states := s.states[prev := Ready], queue := rest + [prev]), s.queue[0])
    else Dispatch(s.(queue := rest), s.queue[0])
  }

  function Yield(s: Sched): (r: Sched) {
    if s.current.None? || s.queue == [] then s else Rotate(s)
  }

  function Tick(s: Sched): (r: Sched) {
    if s.queue == [] then s else Rotate(s)
  }

  // ----- steps -----

  /** Whole steps: fork of a new control block under a pid, wake-ups, block and switch, a block called
      off after its recheck, yield, timer tick, exit, and reaping of a zombie by its parent. */
  datatype Op =
    | Fork(child: Task, pid: Pid) | WakeUp(pids: seq<Pid>) | Block | CallOff | YieldCpu | TimerTick | Exit
      | Reap(pid: Pid)

  function Step(s: Sched, op: Op): (r: Sched) {
    match op
    case Fork(child, pid) =>
      s.(states := s.states[child := Ready], pids := s.pids[child := pid], table := s.table[pid := child],
        queue := s.queue + [child])
    case WakeUp(pids) => Wake(s, pids)
    case Block => SwitchOut(MarkBlocked(s))
    case CallOff => MarkRunning(MarkBlocked(s))
    case YieldCpu => Yield(s)
    case TimerTick => Tick(s)
    case Exit => SwitchOut(MarkZombie(s))
    case Reap(pid) => s.(table := s.table - {pid})
  }

  /** A fork makes a new control block, the idle loop never exits, and only zombies are reaped. */
  ghost predicate OpOk(s: Sched, op: Op) {
    && (op.Fork? ==> op.child !in s.states && op.child !in s.pids)
    && (op.Exit? ==> s.current != s.idle)
    && (op.Reap? ==> op.pid in s.table && s.table[op.pid] in s.states && s.states[s.table[op.pid]] == Zombie)
  }

  // ----- the invariant -----

  ghost predicate QueueOk(states: map<Task, TaskState>, queue: seq<Task>) {
    && (forall i, j :: 0 <= i < j < |queue| ==> queue[i] != queue[j])
    && (forall i :: 0 <= i < |queue| ==> queue[i] in states && states[queue[i]] == Ready)
  }

  /** Ready, but nothing will ever run it: not queued, not on the CPU, not the idle task. */
  ghost predicate Forgotten(s: Sched, t: Task) {
    t in s.states && s.states[t] == Ready && t !in s.queue && s.current != Some(t) && s.idle != Some(t)
  }

  /** Exactly one task runs, and both globals name it. */
  ghost predicate OneRunning(s: Sched) {
    && CurrentIs(s, Running) && s.currentPid == PidOf(s, s.current.value)
    && forall t :: t in s.states && s.states[t] == Running ==> s.current == Some(t)
  }

  ghost predicate IdleOk(s: Sched) {
    s.idle.Some? ==> s.idle.value in s.states && s.states[s.idle.value] != Zombie
  }

  /** The scheduler is sound, and exactly the tasks `lost` are forgotten. */
  ghost predicate Inv(s: Sched, lost: set<Task>) {
    && OneRunning(s) && QueueOk(s.states, s.queue) && IdleOk(s)
    && forall t :: t in lost <==> Forgotten(s, t)
  }

  lemma QueuePush(states: map<Task, TaskState>, queue: seq<Task>, t: Task)
    requires QueueOk(states, queue) && t !in queue
    ensures QueueOk(states[t := Ready], queue + [t])
    ensures forall u :: u in queue + [t] <==> u in queue || u == t
  {
  }

  lemma NotQueued(states: map<Task, TaskState>, queue: seq<Task>, t: Task)
    requires QueueOk(states, queue) && (t !in states || states[t] != Ready)
    ensures t !in queue
  {
  }

  /** A task that is put on the queue as ready leaves the rest as it was. */
  lemma EnqueueKeeps(s: Sched, lost: set<Task>, r: Sched, t: Task)
    requires Inv(s, lost) && (t !in s.states || s.states[t] == Blocked)
    requires r.states == s.states[t := Ready] && r.queue == s.queue + [t]
    requires r.current == s.current && r.currentPid == s.currentPid && r.idle == s.idle
    requires PidOf(r, s.current.value) == PidOf(s, s.current.value)
    ensures Inv(r, lost)
  {
    hide QueueOk;
    NotQueued(s.states, s.queue, t);
    QueuePush(s.states, s.queue, t);
    forall u
      ensures Forgotten(r, u) <==> Forgotten(s, u)
    {
    }
  }

  lemma WakeOneKeeps(s: Sched, lost: set<Task>, p: Pid)
    requires Inv(s, lost)
    ensures Inv(WakeOne(s, p), lost)
  {
    hide Inv;
    if WakeOne(s, p) != s {
      EnqueueKeeps(s, lost, WakeOne(s, p), s.table[p]);
    }
  }

  lemma {:induction false} WakeKeeps(s: Sched, lost: set<Task>, pids: seq<Pid>)
    requires Inv(s, lost)
    ensures Inv(Wake(s, pids), lost) && s.queue <= Wake(s, pids).queue && Wake(s, pids).current == s.current
  {
    hide Inv;
    if pids != [] {
      WakeKeeps(s, lost, pids[..|pids| - 1]);
      WakeOneKeeps(Wake(s, pids[..|pids| - 1]), lost, pids[|pids| - 1]);
    }
  }

  lemma ForkKeeps(s: Sched, lost: set<Task>, child: Task, pid: Pid)
    requires Inv(s, lost) && child !in s.states
    ensures Inv(Step(s, Fork(child, pid)), lost)
  {
    EnqueueKeeps(s, lost, Step(s, Fork(child, pid)), child);
  }

  lemma TailOk(states: map<Task, TaskState>, queue: seq<Task>)
    requires QueueOk(states, queue) && queue != []
    ensures QueueOk(states[queue[0] := Running], queue[1..]) && queue[0] in states && states[queue[0]] == Ready
    ensures forall t :: t in queue <==> t == queue[0] || t in queue[1..]
    ensures queue[0] !in queue[1..]
  {
    assert queue == [queue[0]] + queue[1..];
  }

  /** What leaving the current task needs: like the invariant, but the current task is in any state but
      running, and not queued. */
  ghost predicate Leaving(s: Sched, lost: set<Task>) {
    && s.current.Some? && s.current.value in s.states && s.current.value !in s.queue
    && s.currentPid == PidOf(s, s.current.value)
    && (forall t :: t in s.states ==> s.states[t] != Running)
    && QueueOk(s.states, s.queue) && IdleOk(s)
    && forall t :: t in lost <==> Forgotten(s, t)
  }

  /** The task that is left behind is forgotten exactly when it was ready. */
  function LeftBehind(s: Sched): (lost: set<Task>) {
    if CurrentIs(s, Ready) && s.idle != s.current then {s.current.value} else {}
  }

  lemma DispatchHead(s: Sched, lost: set<Task>)
    requires Leaving(s, lost) && s.queue != []
    ensures Inv(Dispatch(s.(queue := s.queue[1..]), s.queue[0]), lost + LeftBehind(s))
  {
    hide QueueOk;
    TailOk(s.states, s.queue);
    var r := Dispatch(s.(queue := s.queue[1..]), s.queue[0]);
    forall t
      ensures Forgotten(r, t) <==> t in lost + LeftBehind(s)
    {
      assert t in lost <==> Forgotten(s, t);
    }
  }

  lemma DispatchIdle(s: Sched, lost: set<Task>)
    requires Leaving(s, lost) && s.queue == [] && s.idle.Some?
    ensures Inv(Dispatch(s, s.idle.value), lost + LeftBehind(s))
  {
    var r := Dispatch(s, s.idle.value);
    forall t
      ensures Forgotten(r, t) <==> t in lost + LeftBehind(s)
    {
      assert t in lost <==> Forgotten(s, t);
    }
  }

  lemma SwitchKeeps(s: Sched, lost: set<Task>)
    requires Leaving(s, lost) && (s.queue != [] || s.idle.Some?)
    ensures Inv(SwitchOut(s), lost + LeftBehind(s))
  {
    hide Leaving, Inv, LeftBehind;
    LeavingCurrent(s, lost);
    if s.queue != [] {
      DispatchHead(s, lost);
    } else {
      DispatchIdle(s, lost);
    }
  }

  lemma LeavingCurrent(s: Sched, lost: set<Task>)
    requires Leaving(s, lost)
    ensures s.current.Some?
  {
  }

  /** A running task that is marked as blocked or finished can be left. */
  lemma MarkedLeaving(s: Sched, lost: set<Task>, state: TaskState)
    requires Inv(s, lost) && (state == Blocked || (state == Zombie && s.idle != s.current))
    ensures Leaving(s.(states := s.states[s.current.value := state]), lost)
  {
    var r := s.(states := s.states[s.current.value := state]);
    NotQueued(s.states, s.queue, s.current.value);
    forall t
      ensures Forgotten(r, t) <==> Forgotten(s, t)
    {
    }
  }

  lemma BlockKeeps(s: Sched, lost: set<Task>)
    requires Inv(s, lost)
    ensures Inv(Step(s, Block), lost)
  {
    MarkedLeaving(s, lost, Blocked);
    if s.queue != [] || s.idle.Some? {
      SwitchKeeps(MarkBlocked(s), lost);
      assert lost + LeftBehind(MarkBlocked(s)) == lost;
    } else {
      assert Step(s, Block).states == s.states;
    }
  }

  lemma ExitKeepsIff(s: Sched, lost: set<Task>)
    requires Inv(s, lost) && s.current != s.idle
    ensures Inv(Step(s, Exit), lost) <==> s.queue != [] || s.idle.Some?
  {
    MarkedLeaving(s, lost, Zombie);
    if s.queue != [] || s.idle.Some? {
      SwitchKeeps(MarkZombie(s), lost);
      assert lost + LeftBehind(MarkZombie(s)) == lost;
    }
  }

  lemma RotateKeeps(s: Sched, lost: set<Task>)
    requires Inv(s, lost) && s.queue != []
    ensures Inv(Rotate(s), lost)
  {
    hide QueueOk;
    TailOk(s.states, s.queue);
    var prev := s.current.value;
    var r := Rotate(s);
    NotQueued(s.states, s.queue, prev);
    QueuePush(s.states[s.queue[0] := Running], s.queue[1..], prev);
    assert r.states == s.states[s.queue[0] := Running][prev := Ready];
    forall t
      ensures Forgotten(r, t) <==> Forgotten(s, t)
    {
    }
  }

  lemma CallOffKeeps(s: Sched, lost: set<Task>)
    requires Inv(s, lost)
    ensures Inv(Step(s, CallOff), lost)
  {
    assert Step(s, CallOff).states == s.states;
  }

  lemma ReapKeeps(s: Sched, lost: set<Task>, pid: Pid)
    requires Inv(s, lost)
    ensures Inv(Step(s, Reap(pid)), lost)
  {
    hide QueueOk;
    var r := Step(s, Reap(pid));
    forall t
      ensures Forgotten(r, t) <==> Forgotten(s, t)
    {
    }
  }

  /** One step keeps the invariant and forgets nobody, except an exit with nothing queued and no idle
      task. */
  lemma StepKeepsIff(s: Sched, lost: set<Task>, op: Op)
    requires Inv(s, lost) && OpOk(s, op)
    ensures Inv(Step(s, op), lost) <==> !(op.Exit? && s.queue == [] && s.idle.None?)
  {
    hide Inv, Rotate, Step, Wake;
    StepIs(s, op);
    match op
    case Fork(child, pid) => ForkKeeps(s, lost, child, pid);
    case WakeUp(pids) => WakeKeeps(s, lost, pids);
    case Block => BlockKeeps(s, lost);
    case CallOff => CallOffKeeps(s, lost);
    case YieldCpu => if s.queue != [] { RotateKeeps(s, lost); }
    case TimerTick => if s.queue != [] { RotateKeeps(s, lost); }
    case Exit => ExitKeepsIff(s, lost);
    case Reap(pid) => ReapKeeps(s, lost, pid);
  }

  lemma StepIs(s: Sched, op: Op)
    ensures op.WakeUp? ==> Step(s, op) == Wake(s, op.pids)
    ensures op.YieldCpu? ==> Step(s, op) == Yield(s)
    ensures op.TimerTick? ==> Step(s, op) == Tick(s)
  {
    hide Wake, Yield, Tick;
  }

  ghost predicate Run(h: seq<Sched>, ops: seq<Op>) {
    |h| == |ops| + 1 && forall i :: 0 <= i < |ops| ==> OpOk(h[i], ops[i]) && h[i + 1] == Step(h[i], ops[i])
  }

  lemma IdleStays(s: Sched, op: Op)
    ensures Step(s, op).idle == s.idle
  {
    if op.WakeUp? { IdleWake(s, op.pids); }
  }

  lemma {:induction false} IdleWake(s: Sched, pids: seq<Pid>)
    ensures Wake(s, pids).idle == s.idle
  {
    if pids != [] { IdleWake(s, pids[..|pids| - 1]); }
  }

  /** With an idle task registered, every state of every run is sound and forgets nobody. */
  lemma {:induction false} RunKeeps(h: seq<Sched>, ops: seq<Op>, lost: set<Task>, i: nat, k: nat)
    requires Run(h, ops) && i <= k <= |ops| && Inv(h[i], lost) && h[i].idle.Some?
    ensures Inv(h[k], lost) && h[k].idle == h[i].idle
  {
    hide Inv, Step, OpOk;
    if k > i {
      RunKeeps(h, ops, lost, i, k - 1);
      StepKeepsIff(h[k - 1], lost, ops[k - 1]);
      IdleStays(h[k - 1], ops[k - 1]);
    }
  }

  // ----- the start -----

  /** The current task is ready and not queued, and nobody runs. */
  ghost predicate Unstarted(s: Sched, lost: set<Task>) {
    Leaving(s, lost) && CurrentIs(s, Ready) && s.idle != s.current
  }

  /** How the kernel starts: the control blocks of init, pid 1, and of the idle task, pid 0, both as new
      processes are, init on the CPU. */
  function Boot(): (s: Sched) {
    Sched(map[0 := Ready, 1 := Ready], map[0 := 0, 1 := 1], map[0 := 0, 1 := 1], [], Some(1), 1, Some(0))
  }

  /** The start state is not sound: init is on the CPU but not running. */
  lemma BootUnstarted()
    ensures Unstarted(Boot(), {}) && !OneRunning(Boot())
  {
  }

  /** The steps that leave the current task for another. */
  predicate SwitchesAway(s: Sched, op: Op) {
    || (op.Block? && (s.queue != [] || s.idle.Some?))
    || ((op.YieldCpu? || op.TimerTick?) && s.queue != [])
  }

  lemma UnstartedSwitch(s: Sched, lost: set<Task>, op: Op)
    requires Unstarted(s, lost) && SwitchesAway(s, op)
    ensures Inv(Step(s, op), lost + {s.current.value})
  {
    hide Inv, QueueOk;
    assert LeftBehind(s) == {s.current.value};
    if op.Block? {
      SwitchKeeps(s, lost);
    } else {
      DispatchHead(s, lost);
    }
  }

  lemma UnstartedExit(s: Sched, lost: set<Task>)
    requires Unstarted(s, lost) && (s.queue != [] || s.idle.Some?)
    ensures Inv(Step(s, Exit), lost)
  {
    var r := MarkZombie(s);
    forall t
      ensures Forgotten(r, t) <==> Forgotten(s, t)
    {
    }
    SwitchKeeps(r, lost);
    assert lost + LeftBehind(r) == lost;
  }

  lemma EnqueueUnstarted(s: Sched, lost: set<Task>, r: Sched, t: Task)
    requires Unstarted(s, lost) && (t !in s.states || s.states[t] == Blocked)
    requires r.states == s.states[t := Ready] && r.queue == s.queue + [t]
    requires r.current == s.current && r.currentPid == s.currentPid && r.idle == s.idle
    requires PidOf(r, s.current.value) == PidOf(s, s.current.value)
    ensures Unstarted(r, lost)
  {
    hide QueueOk;
    NotQueued(s.states, s.queue, t);
    QueuePush(s.states, s.queue, t);
    forall u
      ensures Forgotten(r, u) <==> Forgotten(s, u)
    {
    }
  }

  lemma {:induction false} WakeUnstarted(s: Sched, lost: set<Task>, pids: seq<Pid>)
    requires Unstarted(s, lost)
    ensures Unstarted(Wake(s, pids), lost) && s.queue <= Wake(s, pids).queue && Wake(s, pids).current == s.current
  {
    hide Unstarted;
    if pids != [] {
      WakeUnstarted(s, lost, pids[..|pids| - 1]);
      var w := Wake(s, pids[..|pids| - 1]);
      if Wake(s, pids) != w {
        EnqueueUnstarted(w, lost, Wake(s, pids), w.table[pids[|pids| - 1]]);
      }
    }
  }

  lemma UnstartedStays(s: Sched, lost: set<Task>, op: Op)
    requires Unstarted(s, lost) && OpOk(s, op) && !SwitchesAway(s, op) && !op.Exit?
    ensures Unstarted(Step(s, op), lost) && Step(s, op).current == s.current
  {
    hide QueueOk, Wake;
    match op
    case Fork(child, pid) => EnqueueUnstarted(s, lost, Step(s, op), child);
    case WakeUp(pids) => WakeUnstarted(s, lost, pids);
    case Block =>
    case CallOff =>
    case YieldCpu =>
    case TimerTick =>
    case Reap(pid) =>
      forall t
        ensures Forgotten(Step(s, op), t) <==> Forgotten(s, t)
      {
      }
  }

  /** A current task that is ready and not queued is forgotten by a step if and only if the step
      switches away from it; an exit ends it, and any other step leaves it on the CPU. */
  lemma ForgetsIff(s: Sched, lost: set<Task>, op: Op)
    requires Unstarted(s, lost) && OpOk(s, op)
    ensures Forgotten(Step(s, op), s.current.value) <==> SwitchesAway(s, op)
    ensures SwitchesAway(s, op) ==> Inv(Step(s, op), lost + {s.current.value})
    ensures op.Exit? && (s.queue != [] || s.idle.Some?) ==> Inv(Step(s, op), lost)
    ensures !SwitchesAway(s, op) && !op.Exit? ==> Unstarted(Step(s, op), lost) && Step(s, op).current == s.current
  {
    hide Inv, Step, Leaving;
    UnstartedCurrent(s, lost);
    if SwitchesAway(s, op) {
      UnstartedSwitch(s, lost, op);
      InvForgets(Step(s, op), lost + {s.current.value}, s.current.value);
    } else if op.Exit? {
      ExitNotReady(s);
      if s.queue != [] || s.idle.Some? {
        UnstartedExit(s, lost);
      }
    } else {
      UnstartedStays(s, lost, op);
    }
  }

  lemma UnstartedCurrent(s: Sched, lost: set<Task>)
    requires Unstarted(s, lost)
    ensures s.current.Some? && s.current.value !in lost
  {
  }

  lemma InvForgets(s: Sched, lost: set<Task>, t: Task)
    requires Inv(s, lost)
    ensures t in lost <==> Forgotten(s, t)
  {
    hide QueueOk;
  }

  lemma ExitNotReady(s: Sched)
    requires CurrentIs(s, Ready)
    ensures !Forgotten(Step(s, Exit), s.current.value)
  {
  }

  /** The first of the first `n` steps that ends the stay of the unstarted task, if any. */
  ghost function FirstLeave(h: seq<Sched>, ops: seq<Op>, n: nat): (r: Option<nat>)
    requires n <= |ops| <= |h|
    ensures r.Some? ==> r.value < n && (SwitchesAway(h[r.value], ops[r.value]) || ops[r.value].Exit?)
  {
    if n == 0 then None
    else
      var r := FirstLeave(h, ops, n - 1);
      if r.Some? then r
      else if SwitchesAway(h[n - 1], ops[n - 1]) || ops[n - 1].Exit? then Some(n - 1) else None
  }

  /** Every run from the start of the kernel, or from any state like it: the first task stays on the CPU
      until a step switches away or it exits. If the step switched away it is forgotten from then on,
      and nobody else ever is; apart from that every state is sound. */
  lemma {:induction false} RunFromStart(h: seq<Sched>, ops: seq<Op>, k: nat)
    requires Run(h, ops) && Unstarted(h[0], {}) && h[0].idle.Some? && k <= |ops|
    ensures h[0].current.Some? && h[k].idle == h[0].idle
    ensures var first := h[0].current.value; var left := FirstLeave(h, ops, k);
            && (left.None? ==> Unstarted(h[k], {}) && h[k].current == Some(first))
            && (left.Some? && ops[left.value].Exit? ==> Inv(h[k], {}))
            && (left.Some? && !ops[left.value].Exit? ==> Inv(h[k], {first}) && Forgotten(h[k], first))
  {
    hide Inv, Step, OpOk, Unstarted, SwitchesAway;
    UnstartedCurrent(h[0], {});
    if k > 0 {
      RunFromStart(h, ops, k - 1);
      IdleStays(h[k - 1], ops[k - 1]);
      var first := h[0].current.value;
      var left := FirstLeave(h, ops, k - 1);
      if left.None? {
        ForgetsIff(h[k - 1], {}, ops[k - 1]);
        assert {} + {first} == {first};
      } else {
        var lost := if ops[left.value].Exit? then {} else {first};
        StepKeepsIff(h[k - 1], lost, ops[k - 1]);
        InvForgets(h[k], lost, first);
      }
    }
  }

  /** With no idle task and nothing queued, an exit leaves a zombie on the CPU. */
  lemma ZombieStays()
    ensures var s := Sched(map[1 := Running], map[1 := 1], map[1 := 1], [], Some(1), 1, None);
            Inv(s, {}) && OpOk(s, Exit) && CurrentIs(Step(s, Exit), Zombie)
  {
  }

  // ----- waiting time -----

  /** Steps that hand the CPU to the head of a non-empty queue. */
  predicate Switches(op: Op) {
    op.Block? || op.YieldCpu? || op.TimerTick? || op.Exit?
  }

  function Count(ops: seq<Op>): (n: nat) {
    if ops == [] then 0 else Count(ops[..|ops| - 1]) + if Switches(ops[|ops| - 1]) then 1 else 0
  }

  /** Sound, or like the start. */
  ghost predicate Sound(s: Sched) {
    exists lost :: Inv(s, lost) || Unstarted(s, lost)
  }

  lemma SoundStep(s: Sched, op: Op)
    requires Sound(s) && s.idle.Some? && OpOk(s, op)
    ensures Sound(Step(s, op)) && Step(s, op).idle == s.idle
  {
    hide Inv, Unstarted, Step, OpOk;
    IdleStays(s, op);
    var lost :| Inv(s, lost) || Unstarted(s, lost);
    if Inv(s, lost) {
      StepKeepsIff(s, lost, op);
    } else {
      ForgetsIff(s, lost, op);
    }
  }

  lemma {:induction false} SoundRun(h: seq<Sched>, ops: seq<Op>, k: nat)
    requires Run(h, ops) && Sound(h[0]) && h[0].idle.Some? && k <= |ops|
    ensures Sound(h[k]) && h[k].idle == h[0].idle
  {
    hide Sound, Step, OpOk;
    if k > 0 {
      SoundRun(h, ops, k - 1);
      SoundStep(h[k - 1], ops[k - 1]);
    }
  }

  lemma SoundCurrent(s: Sched)
    requires Sound(s)
    ensures s.current.Some?
  {
  }

  lemma {:induction false} WakeAppends(s: Sched, pids: seq<Pid>)
    ensures s.queue <= Wake(s, pids).queue && Wake(s, pids).current == s.current
  {
    if pids != [] { WakeAppends(s, pids[..|pids| - 1]); }
  }

  lemma SwitchOutHead(s: Sched)
    requires s.current.Some? && s.queue != []
    ensures var r := SwitchOut(s);
            r.queue == s.queue[1..] && r.current == Some(s.queue[0]) && r.currentPid == PidOf(s, s.queue[0])
  {
  }

  lemma RotateHead(s: Sched)
    requires s.queue != []
    ensures var r := Rotate(s);
            s.queue[1..] <= r.queue && r.current == Some(s.queue[0]) && r.currentPid == PidOf(s, s.queue[0])
  {
  }

  lemma MarksKeep(s: Sched)
    ensures var r := MarkBlocked(s); r.queue == s.queue && r.pids == s.pids && r.current == s.current
    ensures var r := MarkZombie(s); r.queue == s.queue && r.pids == s.pids && r.current == s.current
  {
  }

  lemma QueuedSwitch(s: Sched, op: Op)
    requires s.current.Some? && s.queue != [] && Switches(op)
    ensures s.queue[1..] <= Step(s, op).queue
    ensures Step(s, op).current == Some(s.queue[0]) && Step(s, op).currentPid == PidOf(s, s.queue[0])
  {
    hide SwitchOut, Rotate, MarkBlocked, MarkZombie;
    MarksKeep(s);
    match op
    case Block => SwitchOutHead(MarkBlocked(s));
    case Exit => SwitchOutHead(MarkZombie(s));
    case YieldCpu => RotateHead(s);
    case TimerTick => RotateHead(s);
  }

  lemma QueuedStay(s: Sched, op: Op)
    requires !Switches(op)
    ensures s.queue <= Step(s, op).queue && Step(s, op).current == s.current
  {
    hide Wake;
    if op.WakeUp? {
      WakeAppends(s, op.pids);
    }
  }

  lemma QueuedStep(s: Sched, op: Op, t: Task, k: nat)
    requires s.current.Some? && k < |s.queue| && s.queue[k] == t
    ensures !Switches(op) ==> k < |Step(s, op).queue| && Step(s, op).queue[k] == t && Step(s, op).current == s.current
    ensures Switches(op) && k > 0 ==> k - 1 < |Step(s, op).queue| && Step(s, op).queue[k - 1] == t
    ensures Switches(op) && k == 0 ==> Step(s, op).current == Some(t) && Step(s, op).currentPid == PidOf(s, t)
  {
    hide Step, Switches;
    if Switches(op) {
      QueuedSwitch(s, op);
      if k > 0 { assert s.queue[1..][k - 1] == t; }
    } else {
      QueuedStay(s, op);
    }
  }

  lemma CountNext(ops: seq<Op>, n: nat)
    requires n < |ops|
    ensures Count(ops[..n + 1]) == Count(ops[..n]) + if Switches(ops[n]) then 1 else 0
  {
    assert ops[..n + 1][..n] == ops[..n];
  }

  lemma CountNone(ops: seq<Op>)
    ensures Count(ops[..0]) == 0
  {
  }

  /** A queued task moves up one place per switch, whatever is forked or woken meanwhile. */
  lemma {:induction false} MovesUp(h: seq<Sched>, ops: seq<Op>, t: Task, k: nat, n: nat)
    requires Run(h, ops) && Sound(h[0]) && h[0].idle.Some? && k < |h[0].queue| && h[0].queue[k] == t
    requires n <= |ops| && Count(ops[..n]) <= k
    ensures k - Count(ops[..n]) < |h[n].queue| && h[n].queue[k - Count(ops[..n])] == t
  {
    hide Sound, Step, OpOk, Switches, Count;
    if n > 0 {
      CountNext(ops, n - 1);
      MovesUp(h, ops, t, k, n - 1);
      SoundRun(h, ops, n - 1);
      SoundCurrent(h[n - 1]);
      QueuedStep(h[n - 1], ops[n - 1], t, k - Count(ops[..n - 1]));
    } else {
      CountNone(ops);
    }
  }

  /** The task at position `k` becomes current, and its pid the published one, at the `k + 1`-th
      switch. */
  lemma RunsAtSwitch(h: seq<Sched>, ops: seq<Op>, t: Task, k: nat, n: nat)
    requires Run(h, ops) && Sound(h[0]) && h[0].idle.Some? && k < |h[0].queue| && h[0].queue[k] == t
    requires n < |ops| && Count(ops[..n]) == k && Switches(ops[n])
    ensures h[n + 1].current == Some(t) && h[n + 1].currentPid == PidOf(h[n], t)
  {
    hide Sound, Step, OpOk, Switches, Count;
    MovesUp(h, ops, t, k, n);
    SoundRun(h, ops, n);
    SoundCurrent(h[n]);
    QueuedStep(h[n], ops[n], t, 0);
  }

  // ----- what each step must do -----

  predicate Names(s: Sched, p: Pid, t: Task) {
    p in s.table && s.table[p] == t
  }

  /** The first place in the list whose pid names the task, or the length of the list. */
  function First(s: Sched, pids: seq<Pid>, t: Task): (i: nat)
    ensures i <= |pids| && (i < |pids| ==> Names(s, pids[i], t))
    ensures forall j :: 0 <= j < i ==> !Names(s, pids[j], t)
  {
    if pids == [] then 0
    else
      var n := |pids| - 1;
      var i := First(s, pids[..n], t);
      if i < n || Names(s, pids[n], t) then i else |pids|
  }

  /** Blocked, and named by one of the pids. */
  predicate Called(s: Sched, pids: seq<Pid>, t: Task) {
    t in s.states && s.states[t] == Blocked && First(s, pids, t) < |pids|
  }

  /** Wake-ups: exactly the blocked tasks that are named become ready, and they join the back of the queue,
      in the order in which they are first named. */
  ghost predicate WakeMeets(s: Sched, pids: seq<Pid>, r: Sched) {
    && r == s.(states := r.states, queue := r.queue) && r.states.Keys == s.states.Keys
    && (forall t :: t in s.states ==> r.states[t] == if Called(s, pids, t) then Ready else s.states[t])
    && s.queue <= r.queue && WokenMeets(s, pids, r.queue[|s.queue|..])
  }

  ghost predicate WokenMeets(s: Sched, pids: seq<Pid>, woken: seq<Task>) {
    && (forall t :: t in woken <==> Called(s, pids, t))
    && InOrder(s, pids, woken)
  }

  ghost predicate InOrder(s: Sched, pids: seq<Pid>, woken: seq<Task>) {
    forall a, b :: 0 <= a < b < |woken| ==> First(s, pids, woken[a]) < First(s, pids, woken[b])
  }

  /** The CPU goes from `prev`, which is left in `state`, to `next`, and `rest` is queued. */
  ghost predicate HandOver(s: Sched, r: Sched, prev: Task, state: TaskState, next: Task, rest: seq<Task>)
    requires prev in s.states && next in s.states
  {
    && r.states.Keys == s.states.Keys && r.states[next] == Running && (prev != next ==> r.states[prev] == state)
    && (forall t :: t in s.states && t != prev && t != next ==> r.states[t] == s.states[t])
    && r.queue == rest && r.current == Some(next) && r.currentPid == PidOf(s, next)
    && r.pids == s.pids && r.table == s.table && r.idle == s.idle
  }

  ghost predicate ForkMeets(s: Sched, child: Task, pid: Pid, r: Sched) {
    && r.states.Keys == s.states.Keys + {child} && r.states[child] == Ready
    && (forall t :: t in s.states && t != child ==> r.states[t] == s.states[t])
    && r.pids.Keys == s.pids.Keys + {child} && r.pids[child] == pid
    && (forall t :: t in s.pids && t != child ==> r.pids[t] == s.pids[t])
    && r.table.Keys == s.table.Keys + {pid} && r.table[pid] == child
    && (forall p :: p in s.table && p != pid ==> r.table[p] == s.table[p])
    && r.queue == s.queue + [child]
    && r.current == s.current && r.currentPid == s.currentPid && r.idle == s.idle
  }

  ghost predicate ReapMeets(s: Sched, pid: Pid, r: Sched) {
    && r.table.Keys == s.table.Keys - {pid} && (forall p :: p in r.table ==> r.table[p] == s.table[p])
    && r == s.(table := r.table)
  }

  /** Leaving the current task: for the head of the queue, for the idle task, or not at all. */
  ghost predicate LeaveMeets(s: Sched, state: TaskState, stay: TaskState, r: Sched)
    requires Dispatchable(s)
  {
    var prev := s.current.value;
    if s.queue != [] then HandOver(s, r, prev, state, s.queue[0], s.queue[1..])
    else if s.idle.Some? then HandOver(s, r, prev, state, s.idle.value, [])
    else r == s.(states := s.states[prev := stay])
  }

  /** Preemption: a running task goes behind the queue, whose head is dispatched. */
  ghost predicate TurnMeets(s: Sched, r: Sched)
    requires Dispatchable(s)
  {
    var prev := s.current.value;
    if s.queue == [] then r == s
    else if s.states[prev] == Running then HandOver(s, r, prev, Ready, s.queue[0], s.queue[1..] + [prev])
    else HandOver(s, r, prev, s.states[prev], s.queue[0], s.queue[1..])
  }

  /** There is a current task, and it and all tasks that can follow it exist and are not blocked. */
  ghost predicate Dispatchable(s: Sched) {
    && s.current.Some? && s.current.value in s.states && s.states[s.current.value] != Blocked
    && (s.queue != [] ==> s.queue[0] in s.states && s.current.value != s.queue[0])
    && (s.idle.Some? ==> s.idle.value in s.states)
  }

  ghost predicate Meets(s: Sched, op: Op, r: Sched)
    requires Dispatchable(s)
  {
    var was := s.states[s.current.value];
    match op
    case Fork(child, pid) => ForkMeets(s, child, pid, r)
    case WakeUp(pids) => WakeMeets(s, pids, r)
    case Block => LeaveMeets(s, if was == Running then Blocked else was, was, r)
    case CallOff => r == s
    case YieldCpu => TurnMeets(s, r)
    case TimerTick => TurnMeets(s, r)
    case Exit => LeaveMeets(s, Zombie, Zombie, r)
    case Reap(pid) => ReapMeets(s, pid, r)
  }

  lemma FirstFront(s: Sched, pids: seq<Pid>, t: Task)
    requires pids != []
    ensures var n := |pids| - 1; var i := First(s, pids[..n], t);
            First(s, pids, t) == if i < n || Names(s, pids[n], t) then i else |pids|
  {
    hide Names;
  }

  lemma {:induction false} WakeSame(s: Sched, pids: seq<Pid>)
    ensures var r := Wake(s, pids); r == s.(states := r.states, queue := r.queue) && r.states.Keys == s.states.Keys
  {
    if pids != [] { WakeSame(s, pids[..|pids| - 1]); }
  }

  lemma {:induction false} WakeStates(s: Sched, pids: seq<Pid>, t: Task)
    requires t in s.states
    ensures var r := Wake(s, pids);
            t in r.states && r.states[t] == if Called(s, pids, t) then Ready else s.states[t]
  {
    hide First;
    if pids != [] {
      var n := |pids| - 1;
      WakeStates(s, pids[..n], t);
      WakeSame(s, pids[..n]);
      FirstFront(s, pids, t);
    }
  }

  lemma NewlyCalled(s: Sched, pids: seq<Pid>, t: Task)
    requires pids != []
    ensures var n := |pids| - 1;
            Called(s, pids, t) <==>
            Called(s, pids[..n], t) || (t in s.states && s.states[t] == Blocked && Names(s, pids[n], t))
  {
    hide First, Names;
    FirstFront(s, pids, t);
  }

  /** One pid more: the woken tasks stay, and the one it names joins them if it was still blocked. */
  lemma WokenNext(s: Sched, pids: seq<Pid>, woken: seq<Task>, woken': seq<Task>)
    requires pids != [] && WokenMeets(s, pids[..|pids| - 1], woken)
    requires var n := |pids| - 1; var p := pids[n];
             woken' == if p in s.table && s.table[p] in s.states && s.states[s.table[p]] == Blocked &&
                          !Called(s, pids[..n], s.table[p])
                       then woken + [s.table[p]] else woken
    ensures WokenMeets(s, pids, woken')
  {
    hide First, Called;
    var n := |pids| - 1;
    forall t
      ensures t in woken' <==> Called(s, pids, t)
    {
      NewlyCalled(s, pids, t);
      CalledIs(s, pids[..n], t);
    }
    forall a, b | 0 <= a < b < |woken'|
      ensures First(s, pids, woken'[a]) < First(s, pids, woken'[b])
    {
      OrderNext(s, pids, woken'[a]);
      OrderNext(s, pids, woken'[b]);
      if b == |woken| {
        assert woken'[a] in woken;
        CalledIs(s, pids[..n], woken'[b]);
      } else {
        assert woken'[b] in woken && woken'[a] in woken;
      }
    }
  }

  lemma CalledIs(s: Sched, pids: seq<Pid>, t: Task)
    ensures Called(s, pids, t) <==> t in s.states && s.states[t] == Blocked && First(s, pids, t) < |pids|
  {
    hide First;
  }

  lemma OrderNext(s: Sched, pids: seq<Pid>, t: Task)
    requires pids != []
    ensures var n := |pids| - 1;
            && (Called(s, pids[..n], t) ==> First(s, pids, t) == First(s, pids[..n], t) < n)
            && (t in s.states && s.states[t] == Blocked && !Called(s, pids[..n], t) && Names(s, pids[n], t) ==>
                  First(s, pids, t) == n)
  {
    hide First;
    FirstFront(s, pids, t);
  }

  lemma {:induction false} WakeQueue(s: Sched, pids: seq<Pid>)
    ensures s.queue <= Wake(s, pids).queue && WokenMeets(s, pids, Wake(s, pids).queue[|s.queue|..])
  {
    hide WokenMeets, Called;
    WakeAppends(s, pids);
    if pids == [] {
      NoneWoken(s);
      assert Wake(s, pids).queue[|s.queue|..] == [];
    } else {
      var n := |pids| - 1;
      var w, r := Wake(s, pids[..n]), Wake(s, pids);
      WakeQueue(s, pids[..n]);
      WakeSame(s, pids[..n]);
      if pids[n] in s.table && s.table[pids[n]] in s.states {
        var t := s.table[pids[n]];
        WakeStates(s, pids[..n], t);
        CalledIs(s, pids[..n], t);
        assert (w.queue + [t])[|s.queue|..] == w.queue[|s.queue|..] + [t];
      }
      WokenNext(s, pids, w.queue[|s.queue|..], r.queue[|s.queue|..]);
    }
  }

  lemma NoneWoken(s: Sched)
    ensures WokenMeets(s, [], [])
  {
  }

  /** The order leaves no choice. */
  lemma {:induction false} WokenUnique(s: Sched, pids: seq<Pid>, a: seq<Task>, b: seq<Task>)
    requires InOrder(s, pids, a) && InOrder(s, pids, b) && forall t :: t in a <==> t in b
    ensures a == b
  {
    hide First;
    if a == [] {
      AllIn(b, a);
    } else if b == [] {
      AllIn(a, b);
    } else {
      LastBefore(s, pids, a, b);
      LastBefore(s, pids, b, a);
      var a', b' := a[..|a| - 1], b[..|b| - 1];
      assert a == a' + [a[|a| - 1]] && b == b' + [b[|b| - 1]];
      SameKeySame(s, pids, a, b);
      LastOnce(s, pids, a);
      LastOnce(s, pids, b);
      forall t
        ensures t in a' <==> t in b'
      {
        assert t in a <==> t in a' || t == a[|a| - 1];
        assert t in b <==> t in b' || t == b[|b| - 1];
      }
      WokenUnique(s, pids, a', b');
    }
  }

  lemma AllIn(a: seq<Task>, b: seq<Task>)
    requires forall t :: t in a ==> t in b
    ensures b == [] ==> a == []
  {
    assert a != [] ==> a[0] in a;
  }

  lemma LastBefore(s: Sched, pids: seq<Pid>, a: seq<Task>, b: seq<Task>)
    requires InOrder(s, pids, a) && InOrder(s, pids, b) && a != [] && b != [] && forall t :: t in a <==> t in b
    ensures First(s, pids, a[|a| - 1]) <= First(s, pids, b[|b| - 1])
  {
    hide First;
    var t := a[|a| - 1];
    assert t in b;
    var j :| 0 <= j < |b| && b[j] == t;
  }

  lemma SameKeySame(s: Sched, pids: seq<Pid>, a: seq<Task>, b: seq<Task>)
    requires InOrder(s, pids, a) && a != [] && b != [] && forall t :: t in a <==> t in b
    requires First(s, pids, a[|a| - 1]) == First(s, pids, b[|b| - 1])
    ensures a[|a| - 1] == b[|b| - 1]
  {
    hide First;
    var t := b[|b| - 1];
    assert t in a;
    var j :| 0 <= j < |a| && a[j] == t;
  }

  lemma LastOnce(s: Sched, pids: seq<Pid>, a: seq<Task>)
    requires InOrder(s, pids, a) && a != []
    ensures a[|a| - 1] !in a[..|a| - 1]
  {
    hide First;
  }

  /** Wake-ups do what their clauses ask, and the clauses leave no choice. */
  lemma WakeIs(s: Sched, pids: seq<Pid>, r: Sched)
    ensures WakeMeets(s, pids, r) <==> r == Wake(s, pids)
  {
    hide Called, InOrder, Wake;
    var w := Wake(s, pids);
    WakeSame(s, pids);
    WakeQueue(s, pids);
    forall t | t in s.states
      ensures w.states[t] == if Called(s, pids, t) then Ready else s.states[t]
    {
      WakeStates(s, pids, t);
    }
    if WakeMeets(s, pids, r) {
      WokenUnique(s, pids, r.queue[|s.queue|..], w.queue[|s.queue|..]);
      assert r.queue == s.queue + r.queue[|s.queue|..] && w.queue == s.queue + w.queue[|s.queue|..];
      assert r.states == w.states;
    }
  }

  /** The states that make a hand-over are the only ones. */
  lemma HandOverIs(s: Sched, r: Sched, prev: Task, state: TaskState, next: Task, rest: seq<Task>)
    requires prev in s.states && next in s.states
    ensures HandOver(s, r, prev, state, next, rest) <==>
            r == Dispatch(s.(states := s.states[prev := state], queue := rest), next)
  {
    var d := Dispatch(s.(states := s.states[prev := state], queue := rest), next);
    if HandOver(s, r, prev, state, next, rest) {
      assert r.states == d.states;
    }
  }

  lemma SoundDispatchable(s: Sched)
    requires Sound(s)
    ensures Dispatchable(s)
  {
    HeadLive(s);
    HeadNotCurrent(s);
  }

  lemma LeaveIs(s: Sched, op: Op, r: Sched)
    requires Dispatchable(s) && (op.Block? || op.Exit?)
    ensures Meets(s, op, r) <==> r == Step(s, op)
  {
    hide HandOver, Dispatch;
    var prev := s.current.value;
    var was := s.states[prev];
    var state := if op.Exit? then Zombie else if was == Running then Blocked else was;
    assert s.states[prev := was] == s.states;
    if s.queue != [] {
      HandOverIs(s, r, prev, state, s.queue[0], s.queue[1..]);
    } else if s.idle.Some? {
      HandOverIs(s, r, prev, state, s.idle.value, []);
    } else {
      assert s.states[prev := Blocked][prev := Running] == s.states[prev := Running];
    }
  }

  lemma TurnIs(s: Sched, r: Sched)
    requires Dispatchable(s)
    ensures TurnMeets(s, r) <==> r == (if s.queue == [] then s else Rotate(s))
  {
    hide HandOver, Dispatch;
    var prev := s.current.value;
    var was := s.states[prev];
    if s.queue != [] {
      assert s.states[prev := was] == s.states;
      var rest := s.queue[1..];
      if was == Running {
        HandOverIs(s, r, prev, Ready, s.queue[0], rest + [prev]);
      } else {
        HandOverIs(s, r, prev, was, s.queue[0], rest);
      }
    }
  }

  lemma SameTable(a: map<Pid, Task>, b: map<Pid, Task>)
    requires a.Keys == b.Keys && forall p :: p in a ==> a[p] == b[p]
    ensures a == b
  {
    forall p | p in a
      ensures p in b && a[p] == b[p]
    {
    }
  }

  lemma ForkIs(s: Sched, child: Task, pid: Pid, r: Sched)
    ensures ForkMeets(s, child, pid, r) <==> r == Step(s, Fork(child, pid))
  {
    var f := Step(s, Fork(child, pid));
    if ForkMeets(s, child, pid, r) {
      assert r.states == f.states;
      assert r.pids == f.pids;
      SameTable(r.table, f.table);
    }
  }

  lemma ReapIs(s: Sched, pid: Pid, r: Sched)
    ensures ReapMeets(s, pid, r) <==> r == Step(s, Reap(pid))
  {
    if ReapMeets(s, pid, r) {
      SameTable(r.table, s.table - {pid});
    }
  }

  lemma CallOffIs(s: Sched)
    requires Dispatchable(s)
    ensures Step(s, CallOff) == s
  {
    var prev := s.current.value;
    assert s.states[prev] == Running ==> s.states[prev := Blocked][prev := Running] == s.states;
  }

  /** Every step does what its clauses ask, and the clauses leave no choice. */
  lemma StepDoes(s: Sched, op: Op, r: Sched)
    requires Dispatchable(s)
    ensures Meets(s, op, r) <==> r == Step(s, op)
  {
    hide WakeMeets, ForkMeets, ReapMeets, LeaveMeets, TurnMeets, SwitchOut, Rotate, Wake;
    match op
    case Fork(child, pid) => ForkIs(s, child, pid, r);
    case WakeUp(pids) => WakeIs(s, pids, r);
    case Block => LeaveIs(s, op, r);
    case CallOff => CallOffIs(s);
    case YieldCpu => TurnIs(s, r);
    case TimerTick => TurnIs(s, r);
    case Exit => LeaveIs(s, op, r);
    case Reap(pid) => ReapIs(s, pid, r);
  }

  /** Every step of every run does what its clauses ask. */
  lemma RunDoes(h: seq<Sched>, ops: seq<Op>, k: nat)
    requires Run(h, ops) && Sound(h[0]) && h[0].idle.Some? && k < |ops|
    ensures Dispatchable(h[k]) && Meets(h[k], ops[k], h[k + 1])
  {
    hide Sound, Step, OpOk, Meets, Dispatchable;
    SoundRun(h, ops, k);
    SoundDispatchable(h[k]);
    StepDoes(h[k], ops[k], h[k + 1]);
  }

  /** A task that a wake-up names runs: it gets a place `k` in the queue, behind those that were there, and
      the `k + 1`-th switch after the wake-up gives it the CPU, whatever else happens in between. */
  lemma WokenRuns(h: seq<Sched>, ops: seq<Op>, i: nat, t: Task) returns (k: nat)
    requires Run(h, ops) && Sound(h[0]) && h[0].idle.Some? && i < |ops|
    requires ops[i].WakeUp? && Called(h[i], ops[i].pids, t)
    ensures |h[i].queue| <= k < |h[i + 1].queue| && h[i + 1].queue[k] == t
    ensures t in h[i + 1].states && h[i + 1].states[t] == Ready
    ensures forall n :: i < n < |ops| && Count(ops[i + 1..n]) == k && Switches(ops[n]) ==> h[n + 1].current == Some(t)
  {
    hide Sound, Step, OpOk, Called, Count, Switches, InOrder, First;
    RunDoes(h, ops, i);
    CalledIs(h[i], ops[i].pids, t);
    var woken := h[i + 1].queue[|h[i].queue|..];
    assert t in woken;
    var j :| 0 <= j < |woken| && woken[j] == t;
    k := |h[i].queue| + j;
    var h', ops' := h[i + 1..], ops[i + 1..];
    SoundRun(h, ops, i + 1);
    assert Run(h', ops');
    forall n | i < n < |ops| && Count(ops[i + 1..n]) == k && Switches(ops[n])
      ensures h[n + 1].current == Some(t)
    {
      assert ops'[..n - i - 1] == ops[i + 1..n];
      RunsAtSwitch(h', ops', t, k, n - i - 1);
    }
  }

  // ----- pids -----

  const PID_MAX: int := 0x7FFF_FFFF

  /** The pid handed out and the counter afterwards, a 32-bit integer that wraps; a pid that is not
      positive resets it. */
  function AllocPid(next: int): (r: (Pid, int)) {
    if next <= 0 then (2, 2) else (next, if next == PID_MAX then -PID_MAX - 1 else next + 1)
  }

  /** The counter after `i` allocations, and the pid that the next one hands out. */
  function CounterAfter(next: int, i: nat): (c: int) {
    if i == 0 then next else AllocPid(CounterAfter(next, i - 1)).1
  }

  function PidAt(next: int, i: nat): (p: Pid) {
    AllocPid(CounterAfter(next, i)).0
  }

  ghost predicate PidsDistinct(next: int, k: nat) {
    forall i: nat, j: nat :: i < j < k ==> PidAt(next, i) != PidAt(next, j)
  }

  lemma {:induction false} CounterCounts(next: int, i: nat)
    requires 0 < next <= PID_MAX && next + i <= PID_MAX + 1
    ensures CounterAfter(next, i) == if next + i <= PID_MAX then next + i else -PID_MAX - 1
  {
    if i > 0 { CounterCounts(next, i - 1); }
  }

  lemma PidCounts(next: int, i: nat)
    requires 0 < next <= PID_MAX && next + i <= PID_MAX + 1
    ensures PidAt(next, i) == if next + i <= PID_MAX then next + i else 2
  {
    hide CounterAfter;
    CounterCounts(next, i);
  }

  /** Behind its range the counter hands out 2, twice. */
  lemma PidRepeats(next: int, i: nat)
    requires 0 < next <= PID_MAX && next + i == PID_MAX + 1
    ensures PidAt(next, i) == PidAt(next, i + 1) == 2
  {
    PidCounts(next, i);
    CounterCounts(next, i);
    assert CounterAfter(next, i + 1) == AllocPid(CounterAfter(next, i)).1;
  }

  /** Pids are always positive. They are unique up to the end of the counter's range, and one step further
      if 2 was not among them; then they repeat. */
  lemma PidsUniqueIff(next: int, k: nat)
    requires 0 < next <= PID_MAX
    ensures forall i: nat :: PidAt(next, i) > 0
    ensures PidsDistinct(next, k) <==> next + k <= PID_MAX + 1 || (next + k == PID_MAX + 2 && next > 2)
  {
    hide PidAt;
    forall i: nat
      ensures PidAt(next, i) > 0
    {
      PidPositive(next, i);
    }
    forall i: nat | next + i <= PID_MAX + 1
      ensures PidAt(next, i) == if next + i <= PID_MAX then next + i else 2
    {
      PidCounts(next, i);
    }
    var end := PID_MAX + 1 - next;
    if next + k > PID_MAX + 2 {
      PidRepeats(next, end);
      assert PidAt(next, end) == PidAt(next, end + 1);
    } else if next + k == PID_MAX + 2 && next <= 2 {
      assert PidAt(next, 2 - next) == 2 == PidAt(next, end);
    }
  }

  lemma PidPositive(next: int, i: nat)
    ensures PidAt(next, i) > 0
  {
    hide CounterAfter;
  }

  /** Every live task is in the table under its pid, and the table has every task under its pid. */
  ghost predicate Named(s: Sched) {
    && (forall t :: t in s.states && s.states[t] != Zombie ==>
       t in s.pids && s.pids[t] in s.table && s.table[s.pids[t]] == t)
    && (forall p :: p in s.table ==> s.table[p] in s.pids && s.pids[s.table[p]] == p)
  }

  /** The table has a live task under this pid. */
  predicate Taken(s: Sched, pid: Pid) {
    pid in s.table && s.table[pid] in s.states && s.states[s.table[pid]] != Zombie
  }

  /** Pids and table are the same, and no zombie is live again. */
  ghost predicate OnlyLive(s: Sched, r: Sched) {
    && r.pids == s.pids && r.table == s.table
    && forall t :: t in r.states && r.states[t] != Zombie ==> t in s.states && s.states[t] != Zombie
  }

  lemma SameNames(s: Sched, r: Sched)
    requires Named(s) && OnlyLive(s, r)
    ensures Named(r)
  {
  }

  lemma SetLive(s: Sched, r: Sched, t: Task, state: TaskState)
    requires t in s.states && s.states[t] != Zombie
    requires r.pids == s.pids && r.table == s.table && r.states == s.states[t := state]
    ensures OnlyLive(s, r)
  {
  }

  lemma RotateLive(s: Sched)
    requires s.queue != [] && s.queue[0] in s.states && s.states[s.queue[0]] != Zombie
    ensures OnlyLive(s, Rotate(s))
  {
  }

  lemma SwitchOutLive(s: Sched)
    requires s.queue != [] ==> s.queue[0] in s.states && s.states[s.queue[0]] != Zombie
    requires s.idle.Some? ==> s.idle.value in s.states && s.states[s.idle.value] != Zombie
    ensures OnlyLive(s, SwitchOut(s))
  {
  }

  lemma MarkRunningLive(s: Sched)
    ensures OnlyLive(s, MarkRunning(s))
  {
  }

  lemma LiveTransitive(a: Sched, b: Sched, c: Sched)
    requires OnlyLive(a, b) && OnlyLive(b, c)
    ensures OnlyLive(a, c)
  {
  }

  lemma {:induction false} WakeNames(s: Sched, pids: seq<Pid>)
    requires Named(s)
    ensures Named(Wake(s, pids)) && Wake(s, pids).table == s.table
  {
    hide Named;
    if pids != [] {
      WakeNames(s, pids[..|pids| - 1]);
      var w := Wake(s, pids[..|pids| - 1]);
      if Wake(s, pids) != w {
        SetLive(w, Wake(s, pids), w.table[pids[|pids| - 1]], Ready);
        SameNames(w, Wake(s, pids));
      }
    }
  }

  /** The tasks that can be dispatched are live. */
  lemma HeadLive(s: Sched)
    requires Sound(s)
    ensures s.queue != [] ==> s.queue[0] in s.states && s.states[s.queue[0]] != Zombie
    ensures s.idle.Some? ==> s.idle.value in s.states && s.states[s.idle.value] != Zombie
    ensures s.current.Some? && s.current.value in s.states && s.states[s.current.value] != Zombie
  {
  }

  lemma ForkNamesIff(s: Sched, child: Task, pid: Pid)
    requires Named(s) && child !in s.states && child !in s.pids
    ensures Named(Step(s, Fork(child, pid))) <==> !Taken(s, pid)
  {
    var r := Step(s, Fork(child, pid));
    if Taken(s, pid) {
      var t := s.table[pid];
      assert t in r.states && r.states[t] != Zombie && r.table[r.pids[t]] != t;
    }
  }

  lemma SwitchNames(s: Sched, op: Op)
    requires Sound(s) && Named(s) && OpOk(s, op)
    requires op.Block? || op.CallOff? || op.YieldCpu? || op.TimerTick? || op.Exit?
    ensures Named(Step(s, op))
  {
    hide Named, Sound, OnlyLive, SwitchOut, Rotate, MarkRunning;
    HeadLive(s);
    var marked := if op.Exit? then MarkZombie(s) else MarkBlocked(s);
    SetLive(s, marked, s.current.value, marked.states[s.current.value]);
    SetLive(s, s, s.current.value, s.states[s.current.value]);
    match op {
      case CallOff =>
        MarkRunningLive(marked);
        LiveTransitive(s, marked, Step(s, op));
      case YieldCpu => if s.queue != [] { RotateLive(s); }
      case TimerTick => if s.queue != [] { RotateLive(s); }
      case _ =>
        HeadNotCurrent(s);
        SwitchOutLive(marked);
        LiveTransitive(s, marked, Step(s, op));
    }
    SameNames(s, Step(s, op));
  }

  lemma HeadNotCurrent(s: Sched)
    requires Sound(s)
    ensures s.queue != [] ==> s.current != Some(s.queue[0])
  {
  }

  lemma ReapNames(s: Sched, pid: Pid)
    requires Named(s) && OpOk(s, Reap(pid))
    ensures Named(Step(s, Reap(pid)))
  {
  }

  /** One step keeps every live task findable, except a fork under a pid that a live task has. */
  lemma StepNamesIff(s: Sched, op: Op)
    requires Sound(s) && Named(s) && OpOk(s, op)
    ensures Named(Step(s, op)) <==> !(op.Fork? && Taken(s, op.pid))
  {
    hide Named, Sound, Step;
    StepIs(s, op);
    match op
    case Fork(child, pid) => ForkNamesIff(s, child, pid);
    case WakeUp(pids) => WakeNames(s, pids);
    case Reap(pid) => ReapNames(s, pid);
    case _ => SwitchNames(s, op);
  }

  /** A task that is not in the table stays blocked whatever is woken. */
  lemma {:induction false} UnnamedNotWoken(s: Sched, pids: seq<Pid>, t: Task)
    requires t in s.states && s.states[t] == Blocked && forall p :: p in s.table ==> s.table[p] != t
    ensures var r := Wake(s, pids); t in r.states && r.states[t] == Blocked && r.table == s.table
  {
    if pids != [] { UnnamedNotWoken(s, pids[..|pids| - 1], t); }
  }

  /** The counter is above every pid in the table. */
  ghost predicate Ahead(s: Sched, next: int) {
    0 < next && forall p :: p in s.table ==> p < next
  }

  /** A run in which forks take their pids from the counter. */
  ghost predicate PidRun(h: seq<Sched>, ops: seq<Op>, nexts: seq<int>) {
    && Run(h, ops) && |nexts| == |h|
    && forall i :: 0 <= i < |ops| ==>
      if ops[i].Fork? then (ops[i].pid, nexts[i + 1]) == AllocPid(nexts[i]) else nexts[i + 1] == nexts[i]
  }

  lemma AheadStep(s: Sched, op: Op, next: int)
    requires Ahead(s, next) && next < PID_MAX && (op.Fork? ==> op.pid == AllocPid(next).0)
    ensures !(op.Fork? && Taken(s, op.pid))
    ensures Ahead(Step(s, op), if op.Fork? then AllocPid(next).1 else next)
  {
    if op.WakeUp? { TableWake(s, op.pids); }
  }

  lemma {:induction false} TableWake(s: Sched, pids: seq<Pid>)
    ensures Wake(s, pids).table == s.table
  {
    if pids != [] { TableWake(s, pids[..|pids| - 1]); }
  }

  /** Once the counter is ahead of the table, every live task stays findable until it reaches the end of
      its range. */
  lemma {:induction false} RunNames(h: seq<Sched>, ops: seq<Op>, nexts: seq<int>, k: nat)
    requires PidRun(h, ops, nexts) && Sound(h[0]) && h[0].idle.Some? && Named(h[0]) && Ahead(h[0], nexts[0])
    requires k <= |ops| && nexts[0] + k <= PID_MAX
    ensures Named(h[k]) && Ahead(h[k], nexts[k]) && nexts[k] <= nexts[0] + k
  {
    hide Named, Sound, Step, OpOk, Ahead;
    if k > 0 {
      RunNames(h, ops, nexts, k - 1);
      SoundRun(h, ops, k - 1);
      var i := k - 1;
      assert if ops[i].Fork? then (ops[i].pid, nexts[i + 1]) == AllocPid(nexts[i]) else nexts[i + 1] == nexts[i];
      AheadStep(h[k - 1], ops[k - 1], nexts[k - 1]);
      StepNamesIff(h[k - 1], ops[k - 1]);
      AheadPositive(h[k - 1], nexts[k - 1]);
    }
  }

  lemma AheadPositive(s: Sched, next: int)
    requires Ahead(s, next)
    ensures next > 0
  {
  }

  /** At the start the counter is not ahead: it is init's own pid, so the first fork takes init's place
      in the table, and no wake-up finds init any more. */
  lemma FirstForkUnnames(child: Task)
    requires child !in Boot().states
    ensures Named(Boot()) && !Ahead(Boot(), 1) && AllocPid(1) == (1, 2) && Taken(Boot(), 1)
    ensures var r := Step(Boot(), Fork(child, AllocPid(1).0)); !Named(r) && forall p :: p in r.table ==> r.table[p] != 1
  {
    ForkNamesIff(Boot(), child, 1);
  }

  // ----- the scheduler's own form -----

  class CpuScheduler {
    var states: map<Task, TaskState>
    var pids: map<Task, Pid>
    var table: map<Pid, Task>
    var readyQueue: seq<Task>
    var current: Option<Task>
    var currentPid: Pid
    var idleTask: Option<Task>

    ghost predicate Valid()
      reads this
    {
      && (current.Some? ==> current.value in states && current.value in pids)
      && (forall i :: 0 <= i < |readyQueue| ==> readyQueue[i] in states && readyQueue[i] in pids)
      && (forall p :: p in table ==> table[p] in states && table[p] in pids)
      && (idleTask.Some? ==> idleTask.value in states && idleTask.value in pids)
    }

    function Value(): (s: Sched)
      reads this
    {
      Sched(states, pids, table, readyQueue, current, currentPid, idleTask)
    }

    method AddTask(t: Task)
      modifies this`readyQueue
      ensures readyQueue == old(readyQueue) + [t]
    {
      readyQueue := readyQueue + [t];
    }

    method PickNext() returns (r: Option<Task>)
      modifies this`readyQueue
      ensures old(readyQueue) == [] ==> r == None && readyQueue == []
      ensures old(readyQueue) != [] ==> r == Some(old(readyQueue)[0]) && readyQueue == old(readyQueue)[1..]
    {
      if readyQueue == [] {
        return None;
      }
      r := Some(readyQueue[0]);
      readyQueue := readyQueue[1..];
    }

    method MarkCurrentBlocked()
      requires Valid()
      modifies this`states
      ensures Valid() && Value() == MarkBlocked(old(Value()))
    {
      if current.Some? && states[current.value] == Running {
        states := states[current.value := Blocked];
      }
    }

    method MarkCurrentRunning()
      requires Valid()
      modifies this`states
      ensures Valid() && Value() == MarkRunning(old(Value()))
    {
      if current.Some? && states[current.value] == Blocked {
        states := states[current.value := Running];
      }
    }

    method WakeTasks(wanted: seq<Pid>)
      requires Valid()
      modifies this`states, this`readyQueue
      ensures Valid() && Value() == Wake(old(Value()), wanted) && WakeMeets(old(Value()), wanted, Value())
    {
      hide WakeMeets;
      WakeIs(Value(), wanted, Wake(Value(), wanted));
      var i := 0;
      assert wanted[..0] == [];
      while i < |wanted|
        invariant 0 <= i <= |wanted| && Valid() && Value() == Wake(old(Value()), wanted[..i])
      {
        assert wanted[..i + 1][..i] == wanted[..i];
        var p := wanted[i];
        if p in table {
          var t := table[p];
          if states[t] == Blocked {
            states := states[t := Ready];
            AddTask(t);
          }
        }
        i := i + 1;
      }
      assert wanted[..i] == wanted;
    }

    method Run(next: Task)
      requires Valid() && next in states && next in pids
      modifies this`states, this`current, this`currentPid
      ensures Valid() && Value() == Dispatch(old(Value()), next)
    {
      states := states[next := Running];
      currentPid := pids[next];
      current := Some(next);
    }

    method SwitchOutCurrent()
      requires Valid()
      modifies this
      ensures Valid() && Value() == SwitchOut(old(Value()))
    {
      if current.None? {
        return;
      }
      var next := PickNext();
      if next.None? {
        next := idleTask;
      }
      if next.None? {
        MarkCurrentRunning();
        return;
      }
      Run(next.value);
    }

    method BlockCurrent()
      requires Valid()
      modifies this
      ensures Valid() && Value() == Step(old(Value()), Block)
    {
      MarkCurrentBlocked();
      SwitchOutCurrent();
    }

    method ScheduleYield()
      requires Valid()
      modifies this
      ensures Valid() && Value() == Yield(old(Value()))
    {
      if current.None? || readyQueue == [] {
        return;
      }
      var prev := current.value;
      var next := PickNext();
      if states[prev] == Running {
        states := states[prev := Ready];
        AddTask(prev);
      }
      Run(next.value);
    }

    method TimerTickSchedule()
      requires Valid()
      modifies this
      ensures Valid() && Value() == Tick(old(Value()))
    {
      if readyQueue == [] {
        return;
      }
      var next := PickNext();
      if current.Some? {
        var prev := current.value;
        if states[prev] == Running {
          states := states[prev := Ready];
          AddTask(prev);
        }
      }
      Run(next.value);
    }
  }
}
