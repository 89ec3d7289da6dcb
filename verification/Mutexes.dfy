/** The sleeping mutex on every interleaving. */
module Mutexes {
  import opened Errors
  import opened WaitQueues

  datatype State = State(held: bool, owner: Option<Tid>, waiters: Waiters)

  datatype Action =
    | Arrive(t: Tid)    // call lock()
    | Attempt(t: Tid)   // one round of the loop in lock(): take the mutex or fall asleep
    | TryLock(t: Tid)
    | Clear(t: Tid)     // the locked region of unlock()
    | Wake(t: Tid)      // the wakeup_one() that ends unlock()
    | Rouse(t: Tid)
    | Resume(t: Tid)

  /** Who may do what; only the task inside calls unlock(). */
  predicate Enabled(s: State, a: Action) {
    && a.t in s.waiters.phase
    && match a
       case Arrive(t) => s.waiters.phase[t] == Outside
       case Attempt(t) => s.waiters.phase[t] in {Arriving, Rechecking}
       case TryLock(t) => s.waiters.phase[t] == Outside
       case Clear(t) => s.waiters.phase[t] == Inside
       case Wake(t) => s.waiters.phase[t] == Releasing
       case Rouse(t) => s.waiters.phase[t] == Asleep
       case Resume(t) => s.waiters.phase[t] in {Roused, Delivered}
  }

  /** Whatever a task is at, it can go on, or be made to. */
  lemma NobodyStuck(s: State, t: Tid)
    requires t in s.waiters.phase
    ensures match s.waiters.phase[t]
      case Outside => Enabled(s, Arrive(t)) && Enabled(s, TryLock(t))
      case Arriving => Enabled(s, Attempt(t))
      case Rechecking => Enabled(s, Attempt(t))
      case Asleep => Enabled(s, Rouse(t))
      case Roused => Enabled(s, Resume(t))
      case Delivered => Enabled(s, Resume(t))
      case Releasing => Enabled(s, Wake(t))
      case Inside => Enabled(s, Clear(t))
  {
  }

  function Step(s: State, a: Action): State
    requires Enabled(s, a)
  {
    match a
    case Arrive(t) => s.(waiters := Enter(s.waiters, t, Arriving))
    case Attempt(t) =>
      if !s.held then State(true, Some(t), Enter(s.waiters, t, Inside))
      else s.(waiters := FallAsleep(s.waiters, t))
    case TryLock(t) =>
      if !s.held then State(true, Some(t), Enter(s.waiters, t, Inside)) else s
    case Clear(t) => State(false, None, Enter(s.waiters, t, Releasing))
    case Wake(t) => s.(waiters := WakeupOne(Enter(s.waiters, t, Outside)))
    case Rouse(t) => s.(waiters := Enter(s.waiters, t, Roused))
    case Resume(t) => s.(waiters := WaitQueues.Resume(s.waiters, t))
  }

  ghost predicate Initial(s: State) {
    && !s.held && s.owner == None
    && s.waiters.queue == [] && forall t :: t in s.waiters.phase ==> s.waiters.phase[t] == Outside
  }

  /** The recorded owner is the task inside and no other is; and while the mutex is free with
      tasks queued, some wake-up is on its way. */
  ghost predicate Inv(s: State) {
    && WellQueued(s.waiters)
    && (s.held <==> s.owner.Some?)
    && (forall t :: t in s.waiters.phase ==> (s.waiters.phase[t] == Inside <==> s.owner == Some(t)))
    && (s.owner.Some? ==> s.owner.value in s.waiters.phase)
    && (!s.held && s.waiters.queue != [] ==> |Pending(s.waiters.phase)| >= 1)
  }

  lemma StepKeeps(s: State, a: Action)
    requires Inv(s) && Enabled(s, a)
    ensures Inv(Step(s, a))
  {
    hide WellQueued, Pending;
    var w, t := s.waiters, a.t;
    match a {
      case Arrive(_) => EnterKeeps(w, t, Arriving);
      case Attempt(_) =>
        if !s.held {
          EnterKeeps(w, t, Inside);
        } else {
          FallAsleepKeeps(w, t);
        }
      case TryLock(_) => EnterKeeps(w, t, Inside);
      case Clear(_) => EnterKeeps(w, t, Releasing);
      case Wake(_) =>
        EnterKeeps(w, t, Outside);
        WakeupOneKeeps(Enter(w, t, Outside));
        WokenIsQueued(Enter(w, t, Outside));
      case Rouse(_) => RouseKeeps(w, t);
      case Resume(_) => ResumeKeeps(w, t);
    }
  }

  /** Waking changes the phase of no task that was not queued. */
  lemma WokenIsQueued(w: Waiters)
    requires WellQueued(w)
    ensures WakeupOne(w).phase.Keys == w.phase.Keys
    ensures forall t :: t in w.phase ==> (WakeupOne(w).phase[t] == Inside <==> w.phase[t] == Inside)
  {
    assert w.queue != [] ==> w.queue[0] in w.queue;
  }

  ghost predicate Run(states: seq<State>, actions: seq<Action>) {
    && |states| == |actions| + 1 && Initial(states[0])
    && forall i :: 0 <= i < |actions| ==> Enabled(states[i], actions[i]) && states[i + 1] == Step(states[i], actions[i])
  }

  lemma {:induction false} EveryRun(states: seq<State>, actions: seq<Action>, i: nat)
    requires Run(states, actions) && i < |states|
    ensures Inv(states[i])
  {
    if i > 0 {
      EveryRun(states, actions, i - 1);
      StepKeeps(states[i - 1], actions[i - 1]);
    }
  }

  /** On every interleaving at most one task is inside; the assertion of `unlock`, that the
      mutex is held by the caller, never fires; and no wake-up is lost: a free mutex with
      queued tasks has a wake-up on its way. */
  lemma MutualExclusion(states: seq<State>, actions: seq<Action>, i: nat)
    requires Run(states, actions) && i < |states|
    ensures var s := states[i];
            && (forall t, u :: t in s.waiters.phase && s.waiters.phase[t] == Inside ==>
                  u in s.waiters.phase && s.waiters.phase[u] == Inside ==> t == u)
            && (forall t: Tid :: Enabled(s, Clear(t)) ==> s.held && s.owner == Some(t))
            && (!s.held && s.waiters.queue != [] ==>
                  exists t :: t in s.waiters.phase && OnItsWay(s.waiters.phase[t]))
  {
    EveryRun(states, actions, i);
    var s := states[i];
    if !s.held && s.waiters.queue != [] {
      var t :| t in Pending(s.waiters.phase);
      assert t in s.waiters.phase && OnItsWay(s.waiters.phase[t]);
    }
  }

  /** The mutex as an object; every method is one atomic region of the source. */
  class Mutex {
    var held: bool
    var owner: Option<Tid>
    const waitq: WaitQueue

    constructor (ghost tasks: set<Tid>)
      ensures fresh(waitq) && Initial(View()) && Inv(View()) && View().waiters.phase.Keys == tasks
    {
      held, owner := false, None;
      waitq := new WaitQueue(tasks);
    }

    ghost function View(): State
      reads this, waitq
    {
      State(held, owner, waitq.View())
    }

    /** A task calls `lock`. */
    method Begin(t: Tid)
      requires Inv(View()) && Enabled(View(), Arrive(t))
      modifies waitq
      ensures View() == Step(old(View()), Arrive(t)) && Inv(View())
    {
      StepKeeps(View(), Arrive(t));
      waitq.phase := waitq.phase[t := Arriving];
    }

    /** A task that slept runs again: its entry leaves the queue, and the next round follows. */
    method WakeUp(t: Tid)
      requires Inv(View()) && Enabled(View(), Resume(t))
      modifies waitq
      ensures View() == Step(old(View()), Resume(t)) && Inv(View()) && Enabled(View(), Attempt(t))
    {
      StepKeeps(View(), Resume(t));
      waitq.FinishSleep(t);
    }

    /** One round of `lock`: true if the mutex was taken, false if the task fell asleep. */
    method Round(t: Tid) returns (taken: bool)
      requires Inv(View()) && Enabled(View(), Attempt(t))
      modifies this, waitq
      ensures View() == Step(old(View()), Attempt(t)) && taken == !old(held) && Inv(View())
    {
      StepKeeps(View(), Attempt(t));
      taken := !held;
      if taken {
        held, owner := true, Some(t);
        waitq.phase := waitq.phase[t := Inside];
      } else {
        waitq.Sleep(t);
      }
    }

    method TryOnce(t: Tid) returns (taken: bool)
      requires Inv(View()) && Enabled(View(), TryLock(t))
      modifies this, waitq
      ensures View() == Step(old(View()), TryLock(t)) && taken == !old(held) && Inv(View())
    {
      StepKeeps(View(), TryLock(t));
      taken := !held;
      if taken {
        held, owner := true, Some(t);
        waitq.phase := waitq.phase[t := Inside];
      }
    }

    /** The first region of `unlock`, with its assertion. */
    method Release(t: Tid)
      requires Inv(View()) && Enabled(View(), Clear(t))
      modifies this, waitq
      ensures View() == Step(old(View()), Clear(t)) && Inv(View())
    {
      StepKeeps(View(), Clear(t));
      assert held && owner == Some(t);
      held, owner := false, None;
      waitq.phase := waitq.phase[t := Releasing];
    }

    method FinishRelease(t: Tid)
      requires Inv(View()) && Enabled(View(), Wake(t))
      modifies waitq
      ensures View() == Step(old(View()), Wake(t)) && Inv(View())
    {
      StepKeeps(View(), Wake(t));
      waitq.phase := waitq.phase[t := Outside];
      waitq.Wakeup();
    }
  }
}
