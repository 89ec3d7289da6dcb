/** Fork, exit and wait on one processor: each region with interrupts off is one step. */
module Processes {
  import opened Errors
  import opened Sequences
  import opened TaskTable

  const IDLE: nat := 0
  const INIT: nat := 1

  /** `wait` is the pid a task is waiting for while it is in `wait`, 0 standing for any child. */
  datatype Task = Task(phase: Phase, parent: Option<nat>, children: seq<nat>, wait: Option<nat>, code: int)

  type Tasks = map<nat, Task>

  datatype Reap = Reap(pid: nat, code: int, reaper: nat)

  /** Tasks by pid.  `forkedBy`, `exits` and `reaped` are the history of the run. */
  datatype State = State(tasks: Tasks, current: nat, nextPid: nat, forkedBy: map<nat, nat>, exits: map<nat, int>, reaped: seq<Reap>)

  // ---- What must hold ----

  /** A task's parent is older and lists it; only idle has no parent. */
  ghost predicate UpOk(tasks: Tasks, t: nat)
    requires t in tasks
  {
    && (tasks[t].parent.None? <==> t == IDLE)
    && (tasks[t].parent.Some? ==> tasks[t].parent.value < t && tasks[t].parent.value in tasks && t in tasks[tasks[t].parent.value].children)
  }

  /** The children a task lists are tasks that call it parent. */
  ghost predicate DownOk(tasks: Tasks, p: nat)
    requires p in tasks
  {
    && NoRepeat(tasks[p].children)
    && forall c :: c in tasks[p].children ==> c in tasks && tasks[c].parent == Some(p)
  }

  /** A zombie has no children and waits for nothing. */
  ghost predicate QuietOk(tasks: Tasks, t: nat)
    requires t in tasks
  {
    tasks[t].phase == Zombie ==> tasks[t].children == [] && tasks[t].wait.None?
  }

  predicate Matches(pid: nat, child: nat) {
    pid == 0 || child == pid
  }

  predicate HasMatch(kids: seq<nat>, pid: nat) {
    exists c :: c in kids && Matches(pid, c)
  }

  ghost predicate NoDeadMatch(tasks: Tasks, kids: seq<nat>, pid: nat) {
    forall c :: c in kids && Matches(pid, c) && c in tasks ==> tasks[c].phase != Zombie
  }

  /** A task asleep in `wait` has a child to wait for, and none of those is a zombie. */
  ghost predicate WaiterOk(tasks: Tasks, t: nat)
    requires t in tasks
  {
    tasks[t].wait.Some? ==>
      && tasks[t].phase in {Sleeping, Runnable}
      && (tasks[t].phase == Sleeping ==>
            HasMatch(tasks[t].children, tasks[t].wait.value) && NoDeadMatch(tasks, tasks[t].children, tasks[t].wait.value))
  }

  /** The task's death is on record, and its parent is the task that forked it or init. */
  ghost predicate RecordOk(s: State, t: nat)
    requires t in s.tasks
  {
    && t < s.nextPid
    && (s.tasks[t].phase == Zombie ==> t in s.exits && s.exits[t] == s.tasks[t].code)
    && (s.tasks[t].parent.Some? && t != INIT ==> t in s.forkedBy && s.tasks[t].parent.value in {s.forkedBy[t], INIT})
  }

  ghost predicate TaskOk(s: State, t: nat)
    requires t in s.tasks
  {
    && UpOk(s.tasks, t) && DownOk(s.tasks, t) && QuietOk(s.tasks, t) && WaiterOk(s.tasks, t) && RecordOk(s, t)
    && (s.tasks[t].phase == Running ==> t == s.current)
  }

  /** A reaped task is gone, was reaped with its own exit code, by the task that forked it or by init. */
  ghost predicate ReapOk(s: State, r: Reap) {
    && r.pid !in s.tasks && r.pid < s.nextPid && r.pid in s.exits && s.exits[r.pid] == r.code
    && (r.pid == INIT || (r.pid in s.forkedBy && r.reaper in {s.forkedBy[r.pid], INIT}))
  }

  ghost predicate WasReaped(reaped: seq<Reap>, p: nat) {
    exists i :: 0 <= i < |reaped| && reaped[i].pid == p
  }

  /** Every pid given out is a task or was reaped, and no pid was reaped twice. */
  ghost predicate LedgerOk(s: State) {
    && (forall p: nat {:trigger WasReaped(s.reaped, p)} :: p < s.nextPid && p !in s.tasks ==> WasReaped(s.reaped, p))
    && (forall i :: 0 <= i < |s.reaped| ==> ReapOk(s, s.reaped[i]))
    && (forall i, j :: 0 <= i < j < |s.reaped| ==> s.reaped[i].pid != s.reaped[j].pid)
  }

  /** Idle and init are alive and idle can always run; the current task is neither asleep nor dead. */
  ghost predicate CoreOk(s: State) {
    && IDLE in s.tasks && INIT in s.tasks && s.current in s.tasks
    && s.tasks[INIT].phase != Zombie && s.tasks[INIT].parent == Some(IDLE)
    && s.tasks[IDLE].phase in {Runnable, Running} && s.tasks[IDLE].wait.None?
    && s.tasks[s.current].phase in {Running, Runnable} && s.tasks[s.current].wait.None?
  }

  ghost predicate AllOk(s: State) {
    forall t {:trigger TaskOk(s, t)} :: t in s.tasks ==> TaskOk(s, t)
  }

  ghost predicate Inv(s: State) {
    CoreOk(s) && AllOk(s) && LedgerOk(s)
  }

  /** No task's parent is a zombie. */
  ghost predicate NoZombieParent(tasks: Tasks) {
    forall t :: t in tasks && tasks[t].parent.Some? ==> tasks[t].parent.value in tasks && tasks[tasks[t].parent.value].phase != Zombie
  }

  lemma NoOrphans(s: State)
    requires Inv(s)
    ensures NoZombieParent(s.tasks)
  {
    forall t | t in s.tasks && s.tasks[t].parent.Some?
      ensures s.tasks[t].parent.value in s.tasks && s.tasks[s.tasks[t].parent.value].phase != Zombie
    {
      assert TaskOk(s, t);
      assert TaskOk(s, s.tasks[t].parent.value);
    }
  }

  // ---- Steps ----

  /** `wakeup` on a task that is in `wait`. */
  function WakeWaiter(t: Task): Task {
    if t.wait.Some? then t.(phase := Runnable) else t
  }

  function ForkStep(s: State): State
    requires s.current in s.tasks
  {
    var child := s.nextPid;
    var parent := s.tasks[s.current];
    s.(tasks := s.tasks[s.current := parent.(children := [child] + parent.children)]
                       [child := Task(Runnable, Some(s.current), [], None, 0)],
       nextPid := child + 1, forkedBy := s.forkedBy[child := s.current])
  }

  function AdoptOne(tasks: Tasks, c: nat): Tasks
    requires INIT in tasks && c in tasks
  {
    var init := tasks[INIT];
    var init' := init.(children := [c] + init.children);
    tasks[c := tasks[c].(parent := Some(INIT))]
         [INIT := if tasks[c].phase == Zombie then WakeWaiter(init') else init']
  }

  /** Init adopts `kids` in order. */
  function Adopt(tasks: Tasks, kids: seq<nat>): (r: Tasks)
    requires INIT in tasks && forall c :: c in kids ==> c in tasks
    ensures r.Keys == tasks.Keys
  {
    if kids == [] then tasks else Adopt(AdoptOne(tasks, kids[0]), kids[1..])
  }

  /** The dying task becomes a zombie and wakes its parent out of `wait`. */
  function Die(tasks: Tasks, t: nat, code: int): (r: Tasks)
    requires t in tasks
    ensures r.Keys == tasks.Keys
  {
    var dead := tasks[t].(phase := Zombie, code := code);
    var p := tasks[t].parent;
    if p.Some? && p.value in tasks && p.value != t then tasks[t := dead][p.value := WakeWaiter(tasks[p.value])]
    else tasks[t := dead]
  }

  /** The processor goes from the current task to `next`; a task that was in `wait` leaves its sleep. */
  function SwitchStep(s: State, next: nat): State
    requires s.current in s.tasks && next in s.tasks
  {
    if next == s.current then s
    else
      var cur := s.tasks[s.current];
      var cur' := if cur.phase == Running then cur.(phase := Runnable) else cur;
      s.(tasks := s.tasks[s.current := cur'][next := s.tasks[next].(phase := Running, wait := None)], current := next)
  }

  /** The state an exiting task leaves behind, before the processor moves on. */
  function Exited(s: State, code: int): (r: State)
    requires s.current in s.tasks && INIT in s.tasks && forall c :: c in s.tasks[s.current].children ==> c in s.tasks
    ensures r.tasks.Keys == s.tasks.Keys && r.current == s.current
  {
    var kids := s.tasks[s.current].children;
    var dead := Die(s.tasks, s.current, code);
    var cleared := dead[s.current := dead[s.current].(children := [])];
    s.(tasks := Adopt(cleared, kids), exits := s.exits[s.current := code])
  }

  function ExitStep(s: State, code: int, next: nat): State
    requires s.current in s.tasks && INIT in s.tasks && next in s.tasks
    requires forall c :: c in s.tasks[s.current].children ==> c in s.tasks
  {
    SwitchStep(Exited(s, code), next)
  }

  /** The first child, in list order, that matches and is a zombie. */
  function FirstZombie(tasks: Tasks, kids: seq<nat>, pid: nat): Option<nat> {
    if kids == [] then None
    else if Matches(pid, kids[0]) && kids[0] in tasks && tasks[kids[0]].phase == Zombie then Some(kids[0])
    else FirstZombie(tasks, kids[1..], pid)
  }

  /** The current task reaps `z`. */
  function Reaped(s: State, z: nat): State
    requires s.current in s.tasks && z in s.tasks
  {
    var me := s.tasks[s.current];
    s.(tasks := (s.tasks - {z})[s.current := me.(children := Without(me.children, z))],
       reaped := s.reaped + [Reap(z, s.tasks[z].code, s.current)])
  }

  /** One round of `wait`: reap a zombie, give up, or go to sleep. */
  function WaitStep(s: State, pid: nat, next: nat): State
    requires s.current in s.tasks && next in s.tasks
  {
    var me := s.tasks[s.current];
    var z := FirstZombie(s.tasks, me.children, pid);
    if z.Some? && z.value in s.tasks then Reaped(s, z.value)
    else if !HasMatch(me.children, pid) then s
    else SwitchStep(s.(tasks := s.tasks[s.current := me.(wait := Some(pid), phase := Sleeping)]), next)
  }

  // ---- Adoption ----

  /** One turn of the loop that gives a dying task's children to init: the first child changes lists. */
  function Turn(tasks: Tasks, me: nat): (r: Tasks)
    requires me in tasks && INIT in tasks && tasks[me].children != [] && tasks[me].children[0] in tasks
    ensures r.Keys == tasks.Keys
  {
    AdoptOne(tasks[me := tasks[me].(children := tasks[me].children[1..])], tasks[me].children[0])
  }

  ghost predicate KidsIn(tasks: Tasks, me: nat) {
    me in tasks && INIT in tasks && forall c :: c in tasks[me].children ==> c in tasks && c != me
  }

  /** The loop is through after `n` turns. */
  ghost predicate EndsIn(tasks: Tasks, me: nat, n: nat)
    requires KidsIn(tasks, me)
    decreases n
  {
    tasks[me].children == [] || (n > 0 && KidsIn(Turn(tasks, me), me) && EndsIn(Turn(tasks, me), me, n - 1))
  }

  /** The loop ends exactly if the dying task is not init, or has no children: init would go on taking
      its first child off its list and putting it back. */
  lemma AdoptionEnds(tasks: Tasks, me: nat)
    requires KidsIn(tasks, me)
    ensures (exists n: nat :: EndsIn(tasks, me, n)) <==> me != INIT || tasks[me].children == []
  {
    hide EndsIn;
    if me != INIT || tasks[me].children == [] {
      LoopEnds(tasks, me);
      var n: nat := |tasks[me].children|;
      assert EndsIn(tasks, me, n);
    } else {
      forall n: nat
        ensures !EndsIn(tasks, me, n)
      {
        LoopGoesOn(tasks, n);
      }
    }
  }

  lemma {:induction false} LoopEnds(tasks: Tasks, me: nat)
    requires KidsIn(tasks, me) && (me != INIT || tasks[me].children == [])
    ensures EndsIn(tasks, me, |tasks[me].children|)
    decreases |tasks[me].children|
  {
    if tasks[me].children != [] {
      assert Turn(tasks, me)[me].children == tasks[me].children[1..];
      LoopEnds(Turn(tasks, me), me);
    }
  }

  lemma {:induction false} LoopGoesOn(tasks: Tasks, n: nat)
    requires KidsIn(tasks, INIT) && tasks[INIT].children != []
    ensures !EndsIn(tasks, INIT, n)
    decreases n
  {
    if n > 0 {
      assert Turn(tasks, INIT)[INIT].children == tasks[INIT].children;
      LoopGoesOn(Turn(tasks, INIT), n - 1);
    }
  }

  /** The current task goes to sleep on something else. */
  function BlockStep(s: State, next: nat): State
    requires s.current in s.tasks && next in s.tasks
  {
    SwitchStep(s.(tasks := s.tasks[s.current := s.tasks[s.current].(phase := Sleeping)]), next)
  }

  /** Something wakes task `t`. */
  function WakeStep(s: State, t: nat): State
    requires t in s.tasks
  {
    s.(tasks := s.tasks[t := s.tasks[t].(phase := Runnable)])
  }

  datatype Action = Fork | Exit(code: int, next: nat) | Wait(pid: nat, next: nat) | Switch(next: nat) | Block(next: nat) | Wake(task: nat)

  /** The scheduler picks a runnable task, or idle. */
  predicate CanRun(s: State, next: nat) {
    next in s.tasks && next != s.current && s.tasks[next].phase == Runnable
  }

  /** Init may exit only without children: else adoption does not end (`AdoptionEnds`). */
  predicate Enabled(s: State, a: Action) {
    match a
    case Fork => true
    case Exit(_, next) => s.current != IDLE && CanRun(s, next) && (s.current == INIT ==> s.current in s.tasks && s.tasks[s.current].children == [])
    case Wait(_, next) => s.current != IDLE && CanRun(s, next)
    case Switch(next) => CanRun(s, next)
    case Block(next) => s.current != IDLE && CanRun(s, next)
    case Wake(t) => t in s.tasks && t != s.current && s.tasks[t].phase != Zombie
  }

  /** What can happen next: the current task forks, and with a task to switch to it can be switched from, and unless it is idle
      exit, wait and block, but for an exit of init with children; any other live task can be woken. */
  lemma EveryStep(s: State, code: int, pid: nat, next: nat, t: nat)
    requires s.current in s.tasks && next in s.tasks && next != s.current && s.tasks[next].phase == Runnable
    ensures Enabled(s, Fork) && Enabled(s, Switch(next))
    ensures s.current != 0 ==> Enabled(s, Wait(pid, next)) && Enabled(s, Block(next))
    ensures s.current != 0 && (s.current != 1 || s.tasks[s.current].children == []) ==> Enabled(s, Exit(code, next))
    ensures t in s.tasks && t != s.current && s.tasks[t].phase != Zombie ==> Enabled(s, Wake(t))
  {
  }

  function Step(s: State, a: Action): State
    requires Enabled(s, a) && s.current in s.tasks && INIT in s.tasks
    requires forall c :: c in s.tasks[s.current].children ==> c in s.tasks
  {
    match a
    case Fork => ForkStep(s)
    case Exit(code, next) => ExitStep(s, code, next)
    case Wait(pid, next) => WaitStep(s, pid, next)
    case Switch(next) => SwitchStep(s, next)
    case Block(next) => BlockStep(s, next)
    case Wake(t) => WakeStep(s, t)
  }

  // ---- Every step keeps the invariant ----

  /** Steps that only move phases and waits about leave the ledger alone. */
  lemma LedgerKeeps(s: State, s': State)
    requires LedgerOk(s) && s'.tasks.Keys == s.tasks.Keys && s'.reaped == s.reaped && s'.nextPid == s.nextPid && s'.forkedBy == s.forkedBy
    requires forall p :: p in s.exits && p !in s.tasks ==> p in s'.exits && s'.exits[p] == s.exits[p]
    ensures LedgerOk(s')
  {
    forall i | 0 <= i < |s'.reaped|
      ensures ReapOk(s', s'.reaped[i])
    {
      assert ReapOk(s, s.reaped[i]);
    }
    forall p: nat | p < s'.nextPid && p !in s'.tasks
      ensures WasReaped(s'.reaped, p)
    {
      assert WasReaped(s.reaped, p);
    }
  }

  lemma PidsBelow(s: State)
    requires AllOk(s)
    ensures forall t :: t in s.tasks ==> t < s.nextPid
  {
    forall t | t in s.tasks
      ensures t < s.nextPid
    {
      assert TaskOk(s, t);
    }
  }

  lemma ForkKeeps(s: State)
    requires Inv(s)
    ensures Inv(ForkStep(s))
  {
    var s', child, me := ForkStep(s), s.nextPid, s.current;
    PidsBelow(s);
    forall t | t in s'.tasks
      ensures TaskOk(s', t)
    {
      ForkTask(s, t);
    }
    ForkLedger(s);
  }

  lemma ForkTask(s: State, t: nat)
    requires CoreOk(s) && AllOk(s) && s.nextPid !in s.tasks && t in ForkStep(s).tasks
    ensures TaskOk(ForkStep(s), t)
  {
    var s', child, me := ForkStep(s), s.nextPid, s.current;
    assert TaskOk(s, me);
    assert forall c :: c in s'.tasks[me].children <==> c == child || c in s.tasks[me].children;
    if t != child {
      assert TaskOk(s, t);
    }
  }

  lemma ForkLedger(s: State)
    requires Inv(s) && s.nextPid !in s.tasks
    ensures LedgerOk(ForkStep(s))
  {
    var s' := ForkStep(s);
    forall i | 0 <= i < |s'.reaped|
      ensures ReapOk(s', s'.reaped[i])
    {
      assert ReapOk(s, s.reaped[i]);
    }
    forall p: nat | p < s'.nextPid && p !in s'.tasks
      ensures WasReaped(s'.reaped, p)
    {
      assert WasReaped(s.reaped, p);
    }
  }

  /** A state in which the current task may be asleep or dead already. */
  ghost predicate Leaving(s: State) {
    && IDLE in s.tasks && INIT in s.tasks && s.current in s.tasks && s.current != IDLE
    && s.tasks[INIT].phase != Zombie && s.tasks[INIT].parent == Some(IDLE)
    && s.tasks[IDLE].phase in {Runnable, Running} && s.tasks[IDLE].wait.None?
    && AllOk(s) && LedgerOk(s)
  }

  lemma SwitchKeeps(s: State, next: nat)
    requires Inv(s) || Leaving(s)
    requires CanRun(s, next)
    ensures Inv(SwitchStep(s, next))
  {
    var s' := SwitchStep(s, next);
    forall t | t in s'.tasks
      ensures TaskOk(s', t)
    {
      SwitchTask(s, next, t);
    }
    LedgerKeeps(s, s');
  }

  lemma SwitchTask(s: State, next: nat, t: nat)
    requires s.current in s.tasks && AllOk(s) && CanRun(s, next) && t in s.tasks
    ensures TaskOk(SwitchStep(s, next), t)
  {
    hide WaiterOk;
    var s' := SwitchStep(s, next);
    assert s'.tasks.Keys == s.tasks.Keys;
    assert forall x :: x in s.tasks ==> s'.tasks[x].children == s.tasks[x].children && s'.tasks[x].parent == s.tasks[x].parent;
    assert TaskOk(s, t);
    SwitchWaiter(s, next, t);
  }

  lemma SwitchWaiter(s: State, next: nat, t: nat)
    requires s.current in s.tasks && CanRun(s, next) && t in s.tasks && WaiterOk(s.tasks, t)
    ensures WaiterOk(SwitchStep(s, next).tasks, t)
  {
  }

  lemma BlockKeeps(s: State, next: nat)
    requires Inv(s) && s.current != IDLE && CanRun(s, next)
    ensures Inv(BlockStep(s, next))
  {
    var s1 := s.(tasks := s.tasks[s.current := s.tasks[s.current].(phase := Sleeping)]);
    forall t | t in s1.tasks
      ensures TaskOk(s1, t)
    {
      assert TaskOk(s, t);
    }
    LedgerKeeps(s, s1);
    SwitchKeeps(s1, next);
  }

  lemma WakeKeeps(s: State, w: nat)
    requires Inv(s) && Enabled(s, Wake(w))
    ensures Inv(WakeStep(s, w))
  {
    var s1 := WakeStep(s, w);
    forall t | t in s1.tasks
      ensures TaskOk(s1, t)
    {
      assert TaskOk(s, t);
    }
    LedgerKeeps(s, s1);
  }

  // ---- Wait ----

  lemma {:induction false} FirstZombieIn(tasks: Tasks, kids: seq<nat>, pid: nat)
    ensures var z := FirstZombie(tasks, kids, pid);
      && (z.Some? ==> z.value in kids && Matches(pid, z.value) && z.value in tasks && tasks[z.value].phase == Zombie)
      && (z.None? ==> NoDeadMatch(tasks, kids, pid))
  {
    if kids != [] {
      FirstZombieIn(tasks, kids[1..], pid);
    }
  }

  lemma ReapKeeps(s: State, z: nat)
    requires Inv(s) && z in s.tasks && z in s.tasks[s.current].children && s.tasks[z].phase == Zombie
    ensures Inv(Reaped(s, z))
  {
    var s' := Reaped(s, z);
    assert TaskOk(s, s.current);
    assert TaskOk(s, z);
    WithoutOne(s.tasks[s.current].children, z);
    forall t | t in s'.tasks
      ensures TaskOk(s', t)
    {
      ReapTask(s, z, t);
    }
    ReapLedger(s, z);
  }

  lemma ReapTask(s: State, z: nat, t: nat)
    requires Inv(s) && z in s.tasks && z in s.tasks[s.current].children && s.tasks[z].phase == Zombie && t in Reaped(s, z).tasks
    ensures TaskOk(Reaped(s, z), t)
  {
    hide LedgerOk;
    var s' := Reaped(s, z);
    assert TaskOk(s, s.current);
    assert TaskOk(s, z);
    assert TaskOk(s, t);
    WithoutOne(s.tasks[s.current].children, z);
    if t != s.current {
      assert z !in s.tasks[t].children;
    }
  }

  /** What `~Task` asserts of a reaped task: it is not current and has no links left. */
  lemma ReapedIsDetached(s: State, z: nat)
    requires Inv(s) && z in s.tasks && z in s.tasks[s.current].children && s.tasks[z].phase == Zombie
    ensures z != s.current && s.tasks[z].children == [] && z !in Reaped(s, z).tasks
    ensures forall t :: t in Reaped(s, z).tasks ==> z !in Reaped(s, z).tasks[t].children && Reaped(s, z).tasks[t].parent != Some(z)
  {
    ReapKeeps(s, z);
    var s' := Reaped(s, z);
    assert TaskOk(s, z);
    forall t | t in s'.tasks
      ensures z !in s'.tasks[t].children && s'.tasks[t].parent != Some(z)
    {
      assert TaskOk(s', t);
    }
  }

  lemma ReapLedger(s: State, z: nat)
    requires Inv(s) && z in s.tasks && z in s.tasks[s.current].children && s.tasks[z].phase == Zombie && z != s.current
    ensures LedgerOk(Reaped(s, z))
  {
    var s', n := Reaped(s, z), |s.reaped|;
    assert TaskOk(s, s.current);
    assert TaskOk(s, z);
    forall i | 0 <= i < |s'.reaped|
      ensures ReapOk(s', s'.reaped[i]) && (i < n ==> s'.reaped[i].pid != z)
    {
      if i < n {
        assert ReapOk(s, s.reaped[i]);
      }
    }
    forall p: nat | p < s'.nextPid && p !in s'.tasks
      ensures WasReaped(s'.reaped, p)
    {
      if p == z {
        assert s'.reaped[n].pid == p;
      } else {
        assert WasReaped(s.reaped, p);
        var i :| 0 <= i < n && s.reaped[i].pid == p;
        assert s'.reaped[i].pid == p;
      }
    }
  }

  lemma WaitKeeps(s: State, pid: nat, next: nat)
    requires Inv(s) && s.current != IDLE && CanRun(s, next)
    ensures Inv(WaitStep(s, pid, next))
  {
    hide AllOk, LedgerOk;
    var me := s.tasks[s.current];
    FirstZombieIn(s.tasks, me.children, pid);
    var z := FirstZombie(s.tasks, me.children, pid);
    if z.Some? {
      ReapKeeps(s, z.value);
    } else if HasMatch(me.children, pid) {
      SleepKeeps(s, pid, next);
    }
  }

  /** Going to sleep with a child to wait for and no zombie among those. */
  lemma SleepKeeps(s: State, pid: nat, next: nat)
    requires Inv(s) && s.current != IDLE && CanRun(s, next)
    requires HasMatch(s.tasks[s.current].children, pid) && NoDeadMatch(s.tasks, s.tasks[s.current].children, pid)
    ensures Inv(SwitchStep(s.(tasks := s.tasks[s.current := s.tasks[s.current].(wait := Some(pid), phase := Sleeping)]), next))
  {
    var s1 := s.(tasks := s.tasks[s.current := s.tasks[s.current].(wait := Some(pid), phase := Sleeping)]);
    forall t | t in s1.tasks
      ensures TaskOk(s1, t)
    {
      assert TaskOk(s, t);
    }
    LedgerKeeps(s, s1);
    SwitchKeeps(s1, next);
  }

  // ---- Exit ----

  /** Init has adopted `kids`: they call it parent, it lists them, and it is awake if it was in
      `wait` and one of them was a zombie; nothing else has changed. */
  ghost predicate Adopted(tasks: Tasks, tasks': Tasks, kids: seq<nat>)
    requires INIT in tasks
  {
    && tasks'.Keys == tasks.Keys
    && (forall t :: t in tasks && t in kids ==> tasks'[t] == tasks[t].(parent := Some(INIT)))
    && (forall t :: t in tasks && t !in kids && t != INIT ==> tasks'[t] == tasks[t])
    && tasks'[INIT] == tasks[INIT].(children := tasks'[INIT].children, phase := tasks'[INIT].phase)
    && (forall c :: c in tasks'[INIT].children <==> c in kids || c in tasks[INIT].children)
    && NoRepeat(tasks'[INIT].children)
    && (tasks'[INIT].phase == tasks[INIT].phase || (tasks[INIT].wait.Some? && tasks'[INIT].phase == Runnable))
    && (tasks[INIT].wait.Some? && (exists c :: c in kids && c in tasks && tasks[c].phase == Zombie) ==> tasks'[INIT].phase == Runnable)
  }

  lemma {:induction false} AdoptIs(tasks: Tasks, kids: seq<nat>)
    requires INIT in tasks && INIT !in kids && NoRepeat(kids) && NoRepeat(tasks[INIT].children)
    requires forall c :: c in kids ==> c in tasks && c !in tasks[INIT].children
    ensures Adopted(tasks, Adopt(tasks, kids), kids)
  {
    if kids != [] {
      var c, rest := kids[0], kids[1..];
      assert kids == [c] + rest;
      assert c !in rest;
      var t1 := AdoptOne(tasks, c);
      assert forall x :: x in t1[INIT].children <==> x == c || x in tasks[INIT].children;
      AdoptIs(t1, rest);
      AdoptMore(tasks, t1, Adopt(t1, rest), c, rest);
    }
  }

  lemma AdoptMore(tasks: Tasks, t1: Tasks, t2: Tasks, c: nat, rest: seq<nat>)
    requires INIT in tasks && c in tasks && c != INIT && INIT !in rest && c !in rest && t1 == AdoptOne(tasks, c) && Adopted(t1, t2, rest)
    ensures Adopted(tasks, t2, [c] + rest)
  {
    var kids := [c] + rest;
    assert forall x :: x in kids <==> x == c || x in rest;
    assert forall x :: x in t1[INIT].children <==> x == c || x in tasks[INIT].children;
  }

  lemma ExitKeeps(s: State, code: int, next: nat)
    requires Inv(s) && s.current != INIT && s.current != IDLE && CanRun(s, next)
    ensures forall c :: c in s.tasks[s.current].children ==> c in s.tasks
    ensures Inv(ExitStep(s, code, next))
  {
    hide LedgerOk, Exited, UpOk, DownOk, WaiterOk, RecordOk, QuietOk;
    ExitShape(s, code);
    var s1 := Exited(s, code);
    forall t | t in s1.tasks
      ensures TaskOk(s1, t)
    {
      ExitTask(s, code, t);
    }
    LedgerKeeps(s, s1);
    ExitCore(s, code, next);
    SwitchKeeps(s1, next);
  }

  lemma ExitCore(s: State, code: int, next: nat)
    requires Inv(s) && s.current != INIT && s.current != IDLE && CanRun(s, next)
    requires forall c :: c in s.tasks[s.current].children ==> c in s.tasks
    ensures var s1 := Exited(s, code);
      && IDLE in s1.tasks && INIT in s1.tasks && s1.current in s1.tasks && s1.tasks[INIT].phase != Zombie && s1.tasks[INIT].parent == Some(IDLE)
      && s1.tasks[IDLE].phase in {Runnable, Running} && s1.tasks[IDLE].wait.None? && CanRun(s1, next)
  {
    hide LedgerOk, Exited, WaiterOk, RecordOk, QuietOk;
    ExitShape(s, code);
    assert TaskOk(s, s.current);
    assert TaskOk(s, IDLE);
    assert TaskOk(s, next);
  }

  lemma KidsApart(s: State)
    requires Inv(s) && s.current != IDLE && s.current != INIT
    ensures INIT !in s.tasks[s.current].children && NoRepeat(s.tasks[s.current].children)
    ensures forall c :: c in s.tasks[s.current].children ==> c in s.tasks && c !in s.tasks[INIT].children && c > s.current
  {
    assert TaskOk(s, s.current);
    assert TaskOk(s, INIT);
    forall c | c in s.tasks[s.current].children
      ensures c > s.current
    {
      assert TaskOk(s, c);
    }
  }

  /** What each task looks like after the exit of the current one. */
  lemma ExitShape(s: State, code: int)
    requires Inv(s) && s.current != INIT && s.current != IDLE
    ensures forall c :: c in s.tasks[s.current].children ==> c in s.tasks
    ensures var s1, me := Exited(s, code), s.current; var kids, up := s.tasks[me].children, s.tasks[me].parent;
      && up.Some? && up.value in s.tasks && up.value != me && up.value !in kids
      && s1.tasks.Keys == s.tasks.Keys && s1.current == s.current && s1.nextPid == s.nextPid && s1.forkedBy == s.forkedBy && s1.reaped == s.reaped
      && s1.exits == s.exits[me := code]
      && s1.tasks[me] == s.tasks[me].(phase := Zombie, code := code, children := [])
      && (forall c :: c in kids ==> c in s.tasks && c != INIT && c != me && s1.tasks[c] == s.tasks[c].(parent := Some(INIT)))
      && (forall t :: t in s.tasks && t != me && t != INIT && t !in kids ==>
            s1.tasks[t] == if t == up.value then WakeWaiter(s.tasks[t]) else s.tasks[t])
      && s1.tasks[INIT] == s.tasks[INIT].(children := s1.tasks[INIT].children, phase := s1.tasks[INIT].phase)
      && (forall c :: c in s1.tasks[INIT].children <==> c in kids || c in s.tasks[INIT].children) && NoRepeat(s1.tasks[INIT].children)
      && (s1.tasks[INIT].phase == s.tasks[INIT].phase || (s.tasks[INIT].wait.Some? && s1.tasks[INIT].phase == Runnable))
      && (s.tasks[INIT].wait.Some? && (up.value == INIT || exists c :: c in kids && s.tasks[c].phase == Zombie) ==> s1.tasks[INIT].phase == Runnable)
  {
    hide LedgerOk, WaiterOk, RecordOk, QuietOk;
    var me := s.current;
    var kids, up := s.tasks[me].children, s.tasks[me].parent;
    assert TaskOk(s, me);
    assert TaskOk(s, INIT);
    KidsApart(s);
    var dead := Die(s.tasks, me, code);
    var cleared := dead[me := dead[me].(children := [])];
    AdoptIs(cleared, kids);
  }

  lemma ExitTask(s: State, code: int, t: nat)
    requires Inv(s) && s.current != INIT && s.current != IDLE && t in s.tasks
    ensures forall c :: c in s.tasks[s.current].children ==> c in s.tasks
    ensures t in Exited(s, code).tasks && TaskOk(Exited(s, code), t)
  {
    hide LedgerOk, Exited, UpOk, DownOk, WaiterOk, RecordOk, QuietOk;
    ExitShape(s, code);
    ExitUp(s, code, t);
    ExitDown(s, code, t);
    ExitRecord(s, code, t);
    ExitWaiter(s, code, t);
  }

  lemma ExitUp(s: State, code: int, t: nat)
    requires Inv(s) && s.current != INIT && s.current != IDLE && t in s.tasks
    requires forall c :: c in s.tasks[s.current].children ==> c in s.tasks
    ensures t in Exited(s, code).tasks && UpOk(Exited(s, code).tasks, t)
  {
    hide LedgerOk, Exited, WaiterOk, RecordOk, QuietOk;
    ExitShape(s, code);
    assert TaskOk(s, s.current);
    assert TaskOk(s, t);
    if s.tasks[t].parent.Some? {
      assert TaskOk(s, s.tasks[t].parent.value);
    }
  }

  lemma ExitDown(s: State, code: int, t: nat)
    requires Inv(s) && s.current != INIT && s.current != IDLE && t in s.tasks
    requires forall c :: c in s.tasks[s.current].children ==> c in s.tasks
    ensures t in Exited(s, code).tasks && DownOk(Exited(s, code).tasks, t)
  {
    hide LedgerOk, Exited, WaiterOk, RecordOk, QuietOk, UpOk;
    ExitShape(s, code);
    assert TaskOk(s, s.current);
    assert TaskOk(s, t);
  }

  lemma ExitRecord(s: State, code: int, t: nat)
    requires Inv(s) && s.current != INIT && s.current != IDLE && t in s.tasks
    requires forall c :: c in s.tasks[s.current].children ==> c in s.tasks
    ensures t in Exited(s, code).tasks && QuietOk(Exited(s, code).tasks, t) && RecordOk(Exited(s, code), t)
    ensures Exited(s, code).tasks[t].phase == Running ==> t == Exited(s, code).current
  {
    hide LedgerOk, Exited, WaiterOk;
    ExitShape(s, code);
    assert TaskOk(s, s.current);
    assert TaskOk(s, t);
  }

  lemma ExitWaiter(s: State, code: int, t: nat)
    requires Inv(s) && s.current != INIT && s.current != IDLE && t in s.tasks
    requires forall c :: c in s.tasks[s.current].children ==> c in s.tasks
    ensures t in Exited(s, code).tasks && WaiterOk(Exited(s, code).tasks, t)
  {
    hide LedgerOk, Exited, RecordOk, QuietOk, UpOk;
    ExitShape(s, code);
    assert TaskOk(s, s.current);
    assert TaskOk(s, t);
    if t == INIT && Exited(s, code).tasks[INIT].phase == Sleeping && s.tasks[INIT].wait.Some? {
      assert NoDeadMatch(s.tasks, s.tasks[INIT].children, s.tasks[INIT].wait.value);
    }
  }

  // ---- Runs ----

  lemma StepKeeps(s: State, a: Action)
    requires Inv(s) && Enabled(s, a) && (a.Exit? ==> s.current != INIT)
    ensures forall c :: c in s.tasks[s.current].children ==> c in s.tasks
    ensures Inv(Step(s, a))
  {
    hide CoreOk, AllOk, LedgerOk;
    Steppable(s);
    match a
    case Fork => ForkKeeps(s);
    case Exit(code, next) => ExitKeeps(s, code, next);
    case Wait(pid, next) => WaitKeeps(s, pid, next);
    case Switch(next) => SwitchKeeps(s, next);
    case Block(next) => BlockKeeps(s, next);
    case Wake(t) => WakeKeeps(s, t);
  }

  lemma Steppable(s: State)
    requires Inv(s)
    ensures IDLE in s.tasks && INIT in s.tasks && s.current in s.tasks && forall c :: c in s.tasks[s.current].children ==> c in s.tasks
  {
    assert TaskOk(s, s.current);
  }

  /** A step is possible and has a defined outcome. */
  predicate Possible(s: State, a: Action) {
    && s.current in s.tasks && INIT in s.tasks && (forall c :: c in s.tasks[s.current].children ==> c in s.tasks) && Enabled(s, a)
  }

  predicate IsRun(s: State, run: seq<Action>)
    decreases |run|
  {
    run == [] || (Possible(s, run[0]) && IsRun(Step(s, run[0]), run[1..]))
  }

  function After(s: State, run: seq<Action>): State
    requires IsRun(s, run)
    decreases |run|
  {
    if run == [] then s else After(Step(s, run[0]), run[1..])
  }

  /** Init does not exit in the run. */
  predicate InitLives(s: State, run: seq<Action>)
    requires IsRun(s, run)
    decreases |run|
  {
    run == [] || (!(run[0].Exit? && s.current == INIT) && InitLives(Step(s, run[0]), run[1..]))
  }

  /** Idle, the boot task, has forked init. */
  const START := State(map[IDLE := Task(Runnable, None, [INIT], None, 0), INIT := Task(Runnable, Some(IDLE), [], None, 0)], IDLE, 2, map[], map[], [])

  lemma StartOk()
    ensures Inv(START)
  {
    forall t | t in START.tasks
      ensures TaskOk(START, t)
    {
    }
  }

  /** As long as init lives, every state of every run keeps the whole invariant: no task has a zombie
      for a parent, no waiter sleeps beside a zombie it waits for, and exits are reaped once. */
  lemma {:induction false} EveryRun(s: State, run: seq<Action>)
    requires Inv(s) && IsRun(s, run) && InitLives(s, run)
    ensures Inv(After(s, run)) && NoZombieParent(After(s, run).tasks)
    decreases |run|
  {
    if run == [] {
      NoOrphans(s);
    } else {
      StepKeeps(s, run[0]);
      EveryRun(Step(s, run[0]), run[1..]);
    }
  }

  /** However the run goes on, as long as init does not exit in it, no task has a zombie for a parent. */
  ghost predicate NeverOrphaned(s: State) {
    forall run :: IsRun(s, run) && InitLives(s, run) ==> NoZombieParent(After(s, run).tasks)
  }

  /** The one step that can lead to a zombie parent is the exit of init. */
  lemma InitMustLive(s: State, a: Action)
    requires Inv(s) && Possible(s, a)
    ensures NeverOrphaned(Step(s, a)) <==> !(a.Exit? && s.current == INIT)
  {
    if a.Exit? && s.current == INIT {
      var s1 := DeadInit(s, a.code, a.next);
      OrphanRun(s1, a.next);
    } else {
      StepKeeps(s, a);
      forall run | IsRun(Step(s, a), run) && InitLives(Step(s, a), run)
        ensures NoZombieParent(After(Step(s, a), run).tasks)
      {
        EveryRun(Step(s, a), run);
      }
    }
  }

  /** Init is dead and task `x` runs. */
  predicate InitDead(s: State, x: nat) {
    && s.current == x && x != INIT && INIT in s.tasks && x in s.tasks && s.tasks[INIT].phase == Zombie
    && s.tasks[x].phase == Running && s.tasks[x].wait.None?
    && s.nextPid > INIT && (forall t :: t in s.tasks ==> t < s.nextPid) && forall c :: c in s.tasks[x].children ==> c in s.tasks
  }

  lemma DeadInit(s: State, code: int, x: nat) returns (s1: State)
    requires Inv(s) && s.current == INIT && Possible(s, Exit(code, x))
    ensures s1 == Step(s, Exit(code, x)) && InitDead(s1, x)
  {
    PidsBelow(s);
    assert TaskOk(s, x);
    assert TaskOk(s, INIT);
    s1 := Step(s, Exit(code, x));
  }

  /** Four steps after which init, dead, is the parent of a task that lives. */
  lemma OrphanRun(s1: State, x: nat)
    requires InitDead(s1, x)
    ensures !NeverOrphaned(s1)
  {
    var n := s1.nextPid;
    var s2, s3, s4 := OrphanMade(s1, x);
    var s5 := OrphanAdopted(s4, n, x);
    var run := [Fork, Switch(n), Fork, Exit(0, x)];
    FourSteps(s1, run, s2, s3, s4, s5);
    assert IsRun(s1, run) && InitLives(s1, run) && !NoZombieParent(After(s1, run).tasks);
  }

  lemma OrphanMade(s1: State, x: nat) returns (s2: State, s3: State, s4: State)
    requires InitDead(s1, x)
    ensures var n := s1.nextPid;
      && Possible(s1, Fork) && s2 == Step(s1, Fork) && Possible(s2, Switch(n)) && s3 == Step(s2, Switch(n))
      && Possible(s3, Fork) && s4 == Step(s3, Fork) && s2.current == x && s3.current == n
      && x != n && x in s4.tasks && INIT in s4.tasks && n in s4.tasks && n + 1 in s4.tasks && x != n + 1
      && s4.current == n && s4.tasks[n] == Task(Running, Some(x), [n + 1], None, 0)
      && s4.tasks[n + 1] == Task(Runnable, Some(n), [], None, 0) && s4.tasks[INIT].phase == Zombie
      && s4.tasks[x].phase == Runnable && s4.tasks[x].wait.None?
  {
    s2 := Step(s1, Fork);
    s3 := Step(s2, Switch(s1.nextPid));
    s4 := Step(s3, Fork);
  }

  lemma OrphanAdopted(s4: State, n: nat, x: nat) returns (s5: State)
    requires n > INIT && s4.current == n && x in s4.tasks && INIT in s4.tasks && n in s4.tasks && n + 1 in s4.tasks
    requires x != n && x != n + 1 && x != INIT
    requires s4.tasks[n] == Task(Running, Some(x), [n + 1], None, 0) && s4.tasks[n + 1] == Task(Runnable, Some(n), [], None, 0)
    requires s4.tasks[INIT].phase == Zombie && s4.tasks[x].phase == Runnable && s4.tasks[x].wait.None? && n != IDLE
    ensures Possible(s4, Exit(0, x)) && s5 == Step(s4, Exit(0, x)) && !NoZombieParent(s5.tasks)
  {
    var dead := Die(s4.tasks, n, 0);
    var cleared := dead[n := dead[n].(children := [])];
    assert [n + 1][1..] == [];
    assert Adopt(cleared, [n + 1]) == AdoptOne(cleared, n + 1);
    s5 := Step(s4, Exit(0, x));
    assert s5.tasks[n + 1].parent == Some(INIT) && s5.tasks[INIT].phase == Zombie;
  }

  lemma FourSteps(s: State, run: seq<Action>, s1: State, s2: State, s3: State, s4: State)
    requires |run| == 4 && s.current != INIT && s1.current != INIT && s2.current != INIT && s3.current != INIT
    requires Possible(s, run[0]) && s1 == Step(s, run[0]) && Possible(s1, run[1]) && s2 == Step(s1, run[1])
    requires Possible(s2, run[2]) && s3 == Step(s2, run[2]) && Possible(s3, run[3]) && s4 == Step(s3, run[3])
    ensures IsRun(s, run) && After(s, run) == s4 && InitLives(s, run)
  {
    assert run[1..][0] == run[1] && run[1..][1..] == run[2..] && run[2..][0] == run[2] && run[2..][1..] == run[3..];
    assert run[3..][0] == run[3] && run[3..][1..] == [];
    assert IsRun(s4, []) && IsRun(s3, run[3..]) && IsRun(s2, run[2..]) && IsRun(s1, run[1..]);
    assert After(s3, run[3..]) == s4 && After(s2, run[2..]) == s4 && After(s1, run[1..]) == s4;
    assert InitLives(s4, []) && InitLives(s3, run[3..]) && InitLives(s2, run[2..]) && InitLives(s1, run[1..]);
  }

  // ---- The code ----

  datatype Outcome = Got(pid: nat, code: int) | NoChild | Slept

  /** Goes through the children in list order, up to the first zombie that matches. */
  method Search(tasks: Tasks, kids: seq<nat>, pid: nat) returns (has: bool, dead: Option<nat>)
    requires forall c :: c in kids ==> c in tasks
    ensures has <==> HasMatch(kids, pid)
    ensures dead == FirstZombie(tasks, kids, pid)
  {
    has, dead := false, None;
    ghost var z := FirstZombie(tasks, kids, pid);
    assert kids[0..] == kids;
    for i := 0 to |kids|
      invariant dead == None && (has <==> HasMatch(kids[..i], pid)) && z == FirstZombie(tasks, kids[i..], pid)
    {
      var child := kids[i];
      assert child in kids && kids[i..][0] == child && kids[i..][1..] == kids[i + 1..] && kids[..i + 1] == kids[..i] + [child];
      if Matches(pid, child) {
        has := true;
        if tasks[child].phase == Zombie {
          dead := Some(child);
          return;
        }
      }
    }
    assert kids[..|kids|] == kids;
  }

  class TaskManager {
    var s: State
    const table: Table

    /** The table lists exactly the tasks. */
    ghost predicate Valid()
      reads this, table
    {
      Inv(s) && table.Valid() && forall t :: t in table.procs <==> t in s.tasks
    }

    constructor ()
      ensures s == START && Valid() && fresh(table)
    {
      StartOk();
      s := START;
      table := new Table();
      new;
      table.Add(IDLE);
      table.Add(INIT);
    }

    method Fork() returns (pid: nat)
      requires Valid()
      modifies this, table
      ensures Valid() && s == ForkStep(old(s)) && pid == old(s.nextPid) && pid !in old(s.tasks) && table.procs == [pid] + old(table.procs)
    {
      hide CoreOk, AllOk, LedgerOk, Table.Valid;
      ForkKeeps(s);
      Steppable(s);
      assert forall t :: t in s.tasks ==> t < s.nextPid by { NewPid(s); }
      pid := s.nextPid;
      s := ForkStep(s);
      table.Add(pid);
    }

    /** The current task dies: its parent is woken out of `wait`, init takes its children one by one
        and is woken for each zombie among them, and the processor goes to `next`. */
    method Exit(code: int, next: nat)
      requires Valid() && s.current != INIT && s.current != IDLE && CanRun(s, next)
      modifies `s
      ensures (forall c :: c in old(s.tasks[s.current].children) ==> c in old(s.tasks)) && old(s.current) in old(s.tasks) && INIT in old(s.tasks)
      ensures s == ExitStep(old(s), code, next) && Valid()
    {
      hide CoreOk, AllOk, LedgerOk, Die, AdoptOne, Adopt, Table.Valid;
      Steppable(s);
      ExitKeeps(s, code, next);
      KidsApart(s);
      var me := s.current;
      ghost var kids := s.tasks[me].children;
      var tasks := Die(s.tasks, me, code);
      DieShape(s.tasks, me, code);
      ghost var cleared := tasks[me := tasks[me].(children := [])];
      ghost var k := 0;
      AdoptNone(cleared);
      assert kids[..0] == [] && kids[0..] == kids;
      while tasks[me].children != []
        invariant s == old(s) && me in tasks && k <= |kids| && tasks[me].children == kids[k..] && tasks.Keys == cleared.Keys
        invariant tasks == Adopt(cleared, kids[..k])[me := cleared[me].(children := kids[k..])]
        decreases |kids| - k
      {
        var child := tasks[me].children[0];
        assert child == kids[k] && child in kids;
        AdoptNext(cleared, kids, k, me);
        tasks := tasks[me := tasks[me].(children := tasks[me].children[1..])];
        assert tasks == Adopt(cleared, kids[..k])[me := cleared[me].(children := kids[k + 1..])];
        tasks := AdoptOne(tasks, child);
        k := k + 1;
      }
      assert kids[..k] == kids;
      AdoptKeepsMe(cleared, kids, me);
      assert cleared[me].(children := kids[k..]) == cleared[me];
      assert tasks == Adopt(cleared, kids);
      assert tasks.Keys == s.tasks.Keys && next in tasks;
      s := s.(tasks := tasks, exits := s.exits[me := code]);
      s := SwitchStep(s, next);
    }

    /** One round of `wait`. */
    method WaitRound(pid: nat, next: nat) returns (r: Outcome)
      requires Valid() && s.current != IDLE && CanRun(s, next)
      modifies this, table
      ensures old(s.current) in old(s.tasks) && s == WaitStep(old(s), pid, next) && Valid()
      ensures r.Got? ==> table.procs == Without(old(table.procs), r.pid) && r.pid !in table.procs && |table.buckets| == BUCKETS
      ensures r.Got? ==> forall b :: 0 <= b < BUCKETS ==> r.pid !in table.buckets[b]
      ensures var old_s := old(s); var kids := old_s.tasks[old_s.current].children;
        && (r == NoChild <==> if pid == 0 then kids == [] else pid !in kids)
        && (r.Got? <==> exists c :: c in kids && (pid == 0 || c == pid) && c in old_s.tasks && old_s.tasks[c].phase == Zombie)
        && (r.Got? ==> r.pid in kids && (pid == 0 || r.pid == pid) && r.pid in old_s.exits && r.code == old_s.exits[r.pid] && r.pid !in s.tasks)
    {
      hide CoreOk, AllOk, LedgerOk, SwitchStep, Table.Valid;
      Steppable(s);
      SwitchTasks(s, pid, next);
      WaitKeeps(s, pid, next);
      var me := s.tasks[s.current];
      var kids := me.children;
      FirstZombieIn(s.tasks, kids, pid);
      var has, dead := Search(s.tasks, kids, pid);
      if dead.Some? {
        DeadRecord(s, dead.value);
        r := Got(dead.value, s.tasks[dead.value].code);
        s := Reaped(s, dead.value);
        ReapedGone(old(s), dead.value);
        table.Remove(dead.value);
        table.Gone(dead.value);
      } else if !has {
        r := NoChild;
      } else {
        s := s.(tasks := s.tasks[s.current := me.(wait := Some(pid), phase := Sleeping)]);
        s := SwitchStep(s, next);
        r := Slept;
      }
    }
  }

  /** Going to sleep neither makes nor removes tasks. */
  lemma SwitchTasks(s: State, pid: nat, next: nat)
    requires s.current in s.tasks && next in s.tasks
    ensures var s1 := s.(tasks := s.tasks[s.current := s.tasks[s.current].(wait := Some(pid), phase := Sleeping)]);
      SwitchStep(s1, next).tasks.Keys == s.tasks.Keys
  {
  }

  lemma NewPid(s: State)
    requires Inv(s)
    ensures forall t :: t in s.tasks ==> t < s.nextPid
  {
    PidsBelow(s);
  }

  lemma DieShape(tasks: Tasks, t: nat, code: int)
    requires t in tasks
    ensures Die(tasks, t, code)[t] == tasks[t].(phase := Zombie, code := code)
  {
  }

  lemma AdoptNone(tasks: Tasks)
    requires INIT in tasks
    ensures Adopt(tasks, []) == tasks
  {
  }

  lemma {:induction false} AdoptSnoc(tasks: Tasks, kids: seq<nat>, c: nat)
    requires INIT in tasks && c in tasks && forall x :: x in kids ==> x in tasks
    ensures Adopt(tasks, kids + [c]) == AdoptOne(Adopt(tasks, kids), c)
    decreases |kids|
  {
    if kids == [] {
      assert [c][1..] == [];
    } else {
      assert (kids + [c])[1..] == kids[1..] + [c];
      AdoptSnoc(AdoptOne(tasks, kids[0]), kids[1..], c);
    }
  }

  lemma {:induction false} AdoptKeepsMe(tasks: Tasks, kids: seq<nat>, me: nat)
    requires INIT in tasks && me in tasks && me != INIT && me !in kids && forall x :: x in kids ==> x in tasks
    ensures Adopt(tasks, kids)[me] == tasks[me]
    decreases |kids|
  {
    if kids != [] {
      AdoptKeepsMe(AdoptOne(tasks, kids[0]), kids[1..], me);
    }
  }

  /** Taking the next child off the dying task and giving it to init. */
  lemma AdoptNext(cleared: Tasks, kids: seq<nat>, k: nat, me: nat)
    requires INIT in cleared && me in cleared && me != INIT && k < |kids| && me !in kids && forall x :: x in kids ==> x in cleared
    ensures var t := Adopt(cleared, kids[..k])[me := cleared[me].(children := kids[k + 1..])];
      AdoptOne(t, kids[k]) == Adopt(cleared, kids[..k + 1])[me := cleared[me].(children := kids[k + 1..])]
    ensures kids[k..][1..] == kids[k + 1..]
  {
    assert kids[..k + 1] == kids[..k] + [kids[k]];
    AdoptSnoc(cleared, kids[..k], kids[k]);
  }

  lemma DeadRecord(s: State, z: nat)
    requires Inv(s) && z in s.tasks && s.tasks[z].phase == Zombie
    ensures z in s.exits && s.exits[z] == s.tasks[z].code
  {
    assert TaskOk(s, z);
  }

  lemma ReapedGone(s: State, z: nat)
    requires Inv(s) && z in s.tasks && z in s.tasks[s.current].children && s.tasks[z].phase == Zombie
    ensures z !in Reaped(s, z).tasks
  {
    ReapedIsDetached(s, z);
  }
}
