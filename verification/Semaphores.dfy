/** The counting semaphore on every interleaving. */
module Semaphores {
  import opened WaitQueues

  /** `initial`, `ups` and `downs` record the history; the kernel keeps only `count` and the queue. */
  datatype State = State(count: int, waiters: Waiters, initial: int, ups: nat, downs: nat)

  datatype Action =
    | Arrive(t: Tid)     // call down()
    | Attempt(t: Tid)    // one round of the loop in down(): take a unit or fall asleep
    | TryDown(t: Tid)
    | Up(t: Tid)         // the locked region of up()
    | Wake(t: Tid)       // the wakeup_one() that ends up()
    | Rouse(t: Tid)      // another part of the kernel makes a sleeper runnable
    | Resume(t: Tid)     // the scheduler runs a woken task

  predicate Enabled(s: State, a: Action) {
    && a.t in s.waiters.phase
    && match a
       case Arrive(t) => s.waiters.phase[t] == Outside
       case Attempt(t) => s.waiters.phase[t] in {Arriving, Rechecking}
       case TryDown(t) => s.waiters.phase[t] == Outside
       case Up(t) => s.waiters.phase[t] == Outside
       case Wake(t) => s.waiters.phase[t] == Releasing
       case Rouse(t) => s.waiters.phase[t] == Asleep
       case Resume(t) => s.waiters.phase[t] in {Roused, Delivered}
  }

  /** Whatever a task is at, it can go on, or be made to. */
  lemma NobodyStuck(s: State, t: Tid)
    requires t in s.waiters.phase
    ensures match s.waiters.phase[t]
      case Outside => Enabled(s, Arrive(t)) && Enabled(s, TryDown(t)) && Enabled(s, Up(t))
      case Arriving => Enabled(s, Attempt(t))
      case Rechecking => Enabled(s, Attempt(t))
      case Asleep => Enabled(s, Rouse(t))
      case Roused => Enabled(s, Resume(t))
      case Delivered => Enabled(s, Resume(t))
      case Releasing => Enabled(s, Wake(t))
      case Inside => true
  {
  }

  function Step(s: State, a: Action): State
    requires Enabled(s, a)
  {
    match a
    case Arrive(t) => s.(waiters := Enter(s.waiters, t, Arriving))
    case Attempt(t) =>
      if s.count > 0 then s.(count := s.count - 1, downs := s.downs + 1, waiters := Enter(s.waiters, t, Outside))
      else s.(waiters := FallAsleep(s.waiters, t))
    case TryDown(t) =>
      if s.count > 0 then s.(count := s.count - 1, downs := s.downs + 1) else s
    case Up(t) => s.(count := s.count + 1, ups := s.ups + 1, waiters := Enter(s.waiters, t, Releasing))
    case Wake(t) => s.(waiters := WakeupOne(Enter(s.waiters, t, Outside)))
    case Rouse(t) => s.(waiters := Enter(s.waiters, t, Roused))
    case Resume(t) => s.(waiters := WaitQueues.Resume(s.waiters, t))
  }

  ghost predicate Initial(s: State) {
    && s.count == s.initial >= 0 && s.ups == s.downs == 0
    && s.waiters.queue == [] && forall t :: t in s.waiters.phase ==> s.waiters.phase[t] == Outside
  }

  /** The count is what the history says and never negative; and while anyone is queued, every
      available unit is matched by a wake-up on its way. */
  ghost predicate Inv(s: State) {
    && WellQueued(s.waiters)
    && s.count == s.initial + s.ups - s.downs
    && s.count >= 0
    && (s.waiters.queue != [] ==> |Pending(s.waiters.phase)| >= s.count)
  }

  lemma StepKeeps(s: State, a: Action)
    requires Inv(s) && Enabled(s, a)
    ensures Inv(Step(s, a))
  {
    hide WellQueued, Pending;
    var w, t := s.waiters, a.t;
    match a {
      case Arrive(_) => EnterKeeps(w, t, Arriving);
      case Attempt(_) =>
        if s.count > 0 {
          EnterKeeps(w, t, Outside);
        } else {
          FallAsleepKeeps(w, t);
        }
      case TryDown(_) =>
      case Up(_) => EnterKeeps(w, t, Releasing);
      case Wake(_) =>
        EnterKeeps(w, t, Outside);
        WakeupOneKeeps(Enter(w, t, Outside));
      case Rouse(_) => RouseKeeps(w, t);
      case Resume(_) => ResumeKeeps(w, t);
    }
  }

  /** A run: each state follows from the one before by some enabled action. */
  ghost predicate Run(states: seq<State>, actions: seq<Action>) {
    && |states| == |actions| + 1 && Initial(states[0])
    && forall i :: 0 <= i < |actions| ==> Enabled(states[i], actions[i]) && states[i + 1] == Step(states[i], actions[i])
  }

  /** On every interleaving the count is initial + ups - downs and never negative, and no
      wake-up is lost: while tasks are queued, at least `count` tasks are about to be woken, have
      been woken, or are rechecking. */
  lemma {:induction false} EveryRun(states: seq<State>, actions: seq<Action>, i: nat)
    requires Run(states, actions) && i < |states|
    ensures Inv(states[i])
    ensures states[i].initial == states[0].initial
  {
    if i == 0 {
      assert Pending(states[0].waiters.phase) == {};
    } else {
      EveryRun(states, actions, i - 1);
      StepKeeps(states[i - 1], actions[i - 1]);
    }
  }

  /** Once every wake-up has been acted on, nobody sleeps while a unit is available. */
  lemma QuietMeansSettled(states: seq<State>, actions: seq<Action>, i: nat)
    requires Run(states, actions) && i < |states|
    requires forall t :: t in states[i].waiters.phase ==> !OnItsWay(states[i].waiters.phase[t])
    ensures states[i].waiters.queue == [] || states[i].count == 0
  {
    EveryRun(states, actions, i);
    assert Pending(states[i].waiters.phase) == {};
  }

  /** The semaphore as an object; every method is one atomic region of the source. */
  class Semaphore {
    var count: int
    const waitq: WaitQueue
    ghost var history: (int, nat, nat)

    constructor (initial: int, ghost tasks: set<Tid>)
      ensures count == initial && fresh(waitq) && View().waiters.phase.Keys == tasks
      ensures initial >= 0 ==> Initial(View()) && Inv(View())
    {
      count := initial;
      waitq := new WaitQueue(tasks);
      history := (initial, 0, 0);
    }

    ghost function View(): State
      reads this, waitq
    {
      State(count, waitq.View(), history.0, history.1, history.2)
    }

    /** A task calls `down`. */
    method Begin(t: Tid)
      requires Inv(View()) && Enabled(View(), Arrive(t))
      modifies waitq
      ensures View() == Step(old(View()), Arrive(t)) && Inv(View())
    {
      StepKeeps(View(), Arrive(t));
      waitq.phase := waitq.phase[t := Arriving];
    }

    /** A task that slept runs again: its entry leaves the queue, and the next round follows. */
    method WakeUp(t: Tid)
      requires Inv(View()) && Enabled(View(), Resume(t))
      modifies waitq
      ensures View() == Step(old(View()), Resume(t)) && Inv(View()) && Enabled(View(), Attempt(t))
    {
      StepKeeps(View(), Resume(t));
      waitq.FinishSleep(t);
    }

    /** One round of `down`: true if a unit was taken, false if the task fell asleep. */
    method Round(t: Tid) returns (taken: bool)
      requires Inv(View()) && Enabled(View(), Attempt(t))
      modifies this, waitq
      ensures View() == Step(old(View()), Attempt(t)) && Inv(View())
      ensures taken <==> old(count) > 0
    {
      StepKeeps(View(), Attempt(t));
      taken := count > 0;
      if taken {
        count := count - 1;
        history := (history.0, history.1, history.2 + 1);
        waitq.phase := waitq.phase[t := Outside];
      } else {
        waitq.Sleep(t);
      }
    }

    method TryOnce(t: Tid) returns (taken: bool)
      requires Inv(View()) && Enabled(View(), TryDown(t))
      modifies this
      ensures View() == Step(old(View()), TryDown(t)) && Inv(View())
      ensures taken <==> old(count) > 0
    {
      StepKeeps(View(), TryDown(t));
      taken := count > 0;
      if taken {
        count := count - 1;
        history := (history.0, history.1, history.2 + 1);
      }
    }

    method Release(t: Tid)
      requires Inv(View()) && Enabled(View(), Up(t))
      modifies this, waitq
      ensures View() == Step(old(View()), Up(t)) && Inv(View())
    {
      StepKeeps(View(), Up(t));
      count := count + 1;
      history := (history.0, history.1 + 1, history.2);
      waitq.phase := waitq.phase[t := Releasing];
    }

    method FinishRelease(t: Tid)
      requires Inv(View()) && Enabled(View(), Wake(t))
      modifies waitq
      ensures View() == Step(old(View()), Wake(t)) && Inv(View())
    {
      StepKeeps(View(), Wake(t));
      waitq.phase := waitq.phase[t := Outside];
      waitq.Wakeup();
    }
  }
}
