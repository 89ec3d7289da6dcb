/** The sleep/wake-up discipline shared by the kernel's blocking primitives, as a machine whose
    steps are the regions that run with interrupts disabled or under a spinlock. */
module WaitQueues {
  import opened Sequences

  type Tid = nat

  /** Where a task stands with respect to one primitive. */
  datatype Phase =
    | Outside      // not using it
    | Arriving     // at the top of the retry loop for the first time
    | Asleep       // queued and sleeping
    | Roused       // made runnable by someone else, its entry still queued
    | Delivered    // woken through the queue, not yet running
    | Rechecking   // running again, about to retest the condition
    | Inside       // holding the mutex
    | Releasing    // has given the resource back, has not yet called wakeup_one

  datatype Waiters = Waiters(queue: seq<Tid>, phase: map<Tid, Phase>)

  /** Exactly the tasks that sleep on the primitive, or were roused while doing so, are queued. */
  ghost predicate WellQueued(w: Waiters) {
    && NoRepeat(w.queue)
    && (forall t :: t in w.queue ==> t in w.phase && w.phase[t] in {Asleep, Roused})
    && (forall t :: t in w.phase && w.phase[t] in {Asleep, Roused} ==> t in w.queue)
  }

  // ---- The steps of a wait queue ----

  function Enter(w: Waiters, t: Tid, p: Phase): Waiters {
    w.(phase := w.phase[t := p])
  }

  /** `WaitQueue::sleep` up to the call of the scheduler. */
  function FallAsleep(w: Waiters, t: Tid): Waiters {
    Waiters(w.queue + [t], w.phase[t := Asleep])
  }

  function WakeupOne(w: Waiters): Waiters {
    if w.queue == [] then w else Waiters(w.queue[1..], w.phase[w.queue[0] := Delivered])
  }

  /** The rest of `WaitQueue::sleep`: a task that runs again takes its own entry off the queue. */
  function Resume(w: Waiters, t: Tid): Waiters {
    Waiters(Without(w.queue, t), w.phase[t := Rechecking])
  }

  // ---- What is on its way to the sleepers ----

  /** A wake-up that has not been delivered yet, or not been acted on yet. */
  predicate OnItsWay(p: Phase) {
    p in {Releasing, Delivered, Rechecking}
  }

  function Pending(phase: map<Tid, Phase>): set<Tid> {
    set t | t in phase && OnItsWay(phase[t])
  }

  function Weight(p: Phase): nat {
    if OnItsWay(p) then 1 else 0
  }

  lemma PendingAfter(phase: map<Tid, Phase>, t: Tid, p: Phase)
    requires t in phase
    ensures |Pending(phase[t := p])| == |Pending(phase)| - Weight(phase[t]) + Weight(p)
  {
    var rest := Pending(phase) - {t};
    assert Pending(phase) == rest + (if OnItsWay(phase[t]) then {t} else {});
    assert Pending(phase[t := p]) == rest + (if OnItsWay(p) then {t} else {});
  }

  /** Moving a task that is not queued between phases of unqueued tasks. */
  lemma EnterKeeps(w: Waiters, t: Tid, p: Phase)
    requires WellQueued(w) && t in w.phase
    requires w.phase[t] !in {Asleep, Roused} && p !in {Asleep, Roused}
    ensures WellQueued(Enter(w, t, p))
    ensures |Pending(Enter(w, t, p).phase)| == |Pending(w.phase)| - Weight(w.phase[t]) + Weight(p)
  {
    PendingAfter(w.phase, t, p);
  }

  lemma FallAsleepKeeps(w: Waiters, t: Tid)
    requires WellQueued(w) && t in w.phase && w.phase[t] !in {Asleep, Roused}
    ensures WellQueued(FallAsleep(w, t))
    ensures |Pending(FallAsleep(w, t).phase)| == |Pending(w.phase)| - Weight(w.phase[t])
  {
    PendingAfter(w.phase, t, Asleep);
  }

  /** A delivered wake-up is one more pending, and one sleeper fewer. */
  lemma WakeupOneKeeps(w: Waiters)
    requires WellQueued(w)
    ensures WellQueued(WakeupOne(w))
    ensures |Pending(WakeupOne(w).phase)| == |Pending(w.phase)| + (if w.queue == [] then 0 else 1)
    ensures forall t :: t in w.phase && w.phase[t] !in {Asleep, Roused} ==> t in WakeupOne(w).phase && WakeupOne(w).phase[t] == w.phase[t]
  {
    if w.queue != [] {
      var t := w.queue[0];
      PendingAfter(w.phase, t, Delivered);
      assert w.queue == [t] + w.queue[1..];
      assert t !in w.queue[1..];
    }
  }

  lemma RouseKeeps(w: Waiters, t: Tid)
    requires WellQueued(w) && t in w.phase && w.phase[t] == Asleep
    ensures WellQueued(Enter(w, t, Roused))
    ensures |Pending(Enter(w, t, Roused).phase)| == |Pending(w.phase)|
  {
    PendingAfter(w.phase, t, Roused);
  }

  lemma ResumeKeeps(w: Waiters, t: Tid)
    requires WellQueued(w) && t in w.phase && w.phase[t] in {Roused, Delivered}
    ensures WellQueued(Resume(w, t))
    ensures |Pending(Resume(w, t).phase)| >= |Pending(w.phase)|
    ensures Resume(w, t).queue != [] ==> w.queue != []
  {
    PendingAfter(w.phase, t, Rechecking);
    WithoutOne(w.queue, t);
  }

  /** `wakeup_all`: everyone queued is woken, and the queue is empty. */
  ghost predicate AllWoken(before: Waiters, after: Waiters) {
    && after.queue == []
    && after.phase.Keys == before.phase.Keys + (set t | t in before.queue)
    && (forall t :: t in before.queue ==> after.phase[t] == Delivered)
    && (forall t :: t in before.phase && t !in before.queue ==> after.phase[t] == before.phase[t])
  }

  /** The wait queue as an object: each method is one region under its spinlock. */
  class WaitQueue {
    var queue: seq<Tid>
    ghost var phase: map<Tid, Phase>

    /** Nobody waits; the tasks there are stand outside. */
    constructor (ghost tasks: set<Tid>)
      ensures View() == Waiters([], map t | t in tasks :: Outside) && WellQueued(View())
    {
      queue, phase := [], map t | t in tasks :: Outside;
    }

    ghost function View(): Waiters
      reads this
    {
      Waiters(queue, phase)
    }

    method Sleep(t: Tid)
      modifies this
      ensures View() == FallAsleep(old(View()), t)
      ensures old(WellQueued(View())) && t in old(phase) && old(phase)[t] !in {Asleep, Roused} ==> WellQueued(View())
    {
      queue := queue + [t];
      phase := phase[t := Asleep];
    }

    /** The unlinking after the scheduler returns; a no-op for an entry already taken off. */
    method FinishSleep(t: Tid)
      modifies this
      ensures View() == Resume(old(View()), t)
      ensures old(WellQueued(View())) && t in old(phase) && old(phase)[t] in {Roused, Delivered} ==> WellQueued(View())
    {
      if WellQueued(View()) && t in phase && phase[t] in {Roused, Delivered} {
        ResumeKeeps(View(), t);
      }
      queue := Without(queue, t);
      phase := phase[t := Rechecking];
    }

    method Wakeup()
      modifies this
      ensures View() == WakeupOne(old(View())) && (old(WellQueued(View())) ==> WellQueued(View()))
    {
      if WellQueued(View()) {
        WakeupOneKeeps(View());
      }
      if queue != [] {
        phase := phase[queue[0] := Delivered];
        queue := queue[1..];
      }
    }

    method WakeupAll()
      modifies this
      ensures AllWoken(old(View()), View()) && (old(WellQueued(View())) ==> WellQueued(View()))
    {
      ghost var n := 0;
      while queue != []
        invariant n <= |old(queue)| && queue == old(queue)[n..]
        invariant phase.Keys == old(phase).Keys + (set t | t in old(queue)[..n])
        invariant forall t :: t in old(queue)[..n] ==> phase[t] == Delivered
        invariant forall t :: t in old(phase) && t !in old(queue)[..n] ==> phase[t] == old(phase)[t]
        decreases |queue|
      {
        assert old(queue)[..n + 1] == old(queue)[..n] + [queue[0]];
        phase := phase[queue[0] := Delivered];
        queue := queue[1..];
        n := n + 1;
      }
      assert old(queue)[..n] == old(queue);
    }
  }
}
