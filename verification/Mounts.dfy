/** Mounted file systems: references, transitions and destruction across guarded regions. */
module Mounts {
  import opened Errors
  import opened Sequences

  /** Who keeps a mount in use: a thread inside a path operation, or an open file. */
  datatype Holder = Thread(t: nat) | File(f: nat)

  /** A mount slot.  `holders` and `mover` are the history behind `users` and `transitioning`. */
  datatype Slot = Slot(fs: Option<nat>, users: nat, transitioning: bool, holders: set<Holder>, mover: Option<nat>)

  /** Where a file system object is. */
  datatype Home = InSlot(slot: nat) | Owned(thread: nat) | Destroyed

  /** Where a thread is between guarded regions. */
  datatype Pc =
    | Idle
    | Reserved(slot: nat)              // mount: slot reserved, no object yet
    | Created(slot: nat, fs: nat)      // mount: object made, not published
    | Dismissed(slot: nat)             // transition about to finish
    | Removed(slot: nat, fs: nat)      // umount: object taken out of its slot
    | Using(slot: nat, fs: nat)        // holds a mount reference

  datatype State = State(slots: seq<Slot>, pcs: map<nat, Pc>, files: map<nat, (nat, nat)>, fsys: map<nat, Home>, destroyed: seq<nat>)

  function PcOf(s: State, t: nat): Pc {
    if t in s.pcs then s.pcs[t] else Idle
  }

  // ---- What must hold ----

  /** The slot a thread has in transition, if any. */
  function Moving(p: Pc): Option<nat> {
    match p
    case Reserved(i) => Some(i)
    case Created(i, _) => Some(i)
    case Dismissed(i) => Some(i)
    case Removed(i, _) => Some(i)
    case _ => None
  }

  /** The object a thread owns, if any. */
  function Owning(p: Pc): Option<nat> {
    match p
    case Created(_, f) => Some(f)
    case Removed(_, f) => Some(f)
    case _ => None
  }

  /** `users` counts the live references, which there are only while a file system is mounted; the
      transition flag is up exactly while one thread is moving the slot. */
  ghost predicate SlotOk(s: State, i: nat)
    requires i < |s.slots|
  {
    var slot := s.slots[i];
    && slot.users == |slot.holders| && (slot.holders != {} ==> slot.fs.Some?)
    && slot.transitioning == slot.mover.Some?
    && (slot.mover.Some? ==> Moving(PcOf(s, slot.mover.value)) == Some(i))
    && (slot.fs.Some? ==> slot.fs.value in s.fsys && s.fsys[slot.fs.value] == InSlot(i))
    && (slot.mover.Some? && slot.fs.Some? ==> PcOf(s, slot.mover.value).Dismissed?)
    && (forall t :: Thread(t) in slot.holders ==> PcOf(s, t).Using? && PcOf(s, t).slot == i)
    && (forall f :: File(f) in slot.holders ==> f in s.files && s.files[f].0 == i)
  }

  /** A thread's claims are on record with the slot and the object. */
  ghost predicate ThreadOk(s: State, t: nat) {
    var p := PcOf(s, t);
    && (Moving(p).Some? ==> Moving(p).value < |s.slots| && s.slots[Moving(p).value].mover == Some(t))
    && (Owning(p).Some? ==> Owning(p).value in s.fsys && s.fsys[Owning(p).value] == Owned(t))
    && ((p.Reserved? || p.Created? || p.Removed?) ==> s.slots[p.slot].fs.None?)
    && (p.Using? ==> p.slot < |s.slots| && Thread(t) in s.slots[p.slot].holders && s.slots[p.slot].fs == Some(p.fs))
  }

  /** An open file keeps its mount. */
  ghost predicate FileOk(s: State, f: nat)
    requires f in s.files
  {
    var (i, fs) := s.files[f];
    i < |s.slots| && File(f) in s.slots[i].holders && s.slots[i].fs == Some(fs)
  }

  /** An object is where its home says, and is destroyed at most once. */
  ghost predicate ObjectOk(s: State, o: nat)
    requires o in s.fsys
  {
    match s.fsys[o]
    case InSlot(i) => i < |s.slots| && s.slots[i].fs == Some(o) && o !in s.destroyed
    case Owned(t) => Owning(PcOf(s, t)) == Some(o) && o !in s.destroyed
    case Destroyed => o in s.destroyed
  }

  ghost predicate Inv(s: State) {
    && (forall i {:trigger SlotOk(s, i)} :: 0 <= i < |s.slots| ==> SlotOk(s, i))
    && (forall t {:trigger ThreadOk(s, t)} :: ThreadOk(s, t))
    && (forall f {:trigger FileOk(s, f)} :: f in s.files ==> FileOk(s, f))
    && (forall o {:trigger ObjectOk(s, o)} :: o in s.fsys ==> ObjectOk(s, o))
    && NoRepeat(s.destroyed) && forall o :: o in s.destroyed ==> o in s.fsys && s.fsys[o] == Destroyed
  }

  // ---- Steps, one guarded region or one call into a file system each ----

  function Moved(s: State, t: nat, p: Pc): State {
    s.(pcs := s.pcs[t := p])
  }

  function WithSlot(s: State, i: nat, slot: Slot): State
    requires i < |s.slots|
  {
    s.(slots := s.slots[i := slot])
  }

  datatype Action =
    | Reserve(t: nat, slot: nat)                 // mount: reserve the slot
    | Create(t: nat, fs: nat)                    // mount: the factory makes an object
    | GiveUp(t: nat)                             // mount: no object, or it fails to mount and is destroyed
    | Publish(t: nat)                            // mount: the object goes into the slot
    | Remove(t: nat, slot: nat)                  // umount: the object comes out of the slot
    | Destroy(t: nat)                            // umount: the object is destroyed
    | Finish(t: nat)                             // the transition ends
    | Acquire(t: nat, slot: nat)                 // a path operation takes a reference
    | Release(t: nat)                            // and drops it
    | Keep(t: nat, file: nat)                    // open hands its reference to a file
    | Close(file: nat)                           // a file is destroyed

  predicate Enabled(s: State, a: Action) {
    match a
    case Reserve(t, i) => PcOf(s, t) == Idle && i < |s.slots| && !s.slots[i].transitioning && s.slots[i].fs.None?
    case Create(t, fs) => PcOf(s, t).Reserved? && fs !in s.fsys
    case GiveUp(t) => PcOf(s, t).Reserved? || PcOf(s, t).Created?
    case Publish(t) => PcOf(s, t).Created? && PcOf(s, t).slot < |s.slots|
    case Remove(t, i) => PcOf(s, t) == Idle && i < |s.slots| && !s.slots[i].transitioning && s.slots[i].fs.Some? && s.slots[i].users == 0
    case Destroy(t) => PcOf(s, t).Removed?
    case Finish(t) => PcOf(s, t).Dismissed? && PcOf(s, t).slot < |s.slots|
    case Acquire(t, i) => PcOf(s, t) == Idle && i < |s.slots| && s.slots[i].fs.Some?
    case Release(t) => PcOf(s, t).Using? && PcOf(s, t).slot < |s.slots| && s.slots[PcOf(s, t).slot].users > 0
    case Keep(t, f) => PcOf(s, t).Using? && PcOf(s, t).slot < |s.slots| && f !in s.files
    case Close(f) => f in s.files && s.files[f].0 < |s.slots| && s.slots[s.files[f].0].users > 0
  }

  function Step(s: State, a: Action): State
    requires Enabled(s, a)
  {
    match a
    case Reserve(t, i) => Moved(WithSlot(s, i, s.slots[i].(transitioning := true, mover := Some(t))), t, Reserved(i))
    case Create(t, fs) => Moved(s, t, Created(PcOf(s, t).slot, fs)).(fsys := s.fsys[fs := Owned(t)])
    case GiveUp(t) =>
      var s1 := Moved(s, t, Dismissed(PcOf(s, t).slot));
      if PcOf(s, t).Created? then Destroyed1(s1, PcOf(s, t).fs) else s1
    case Publish(t) =>
      var i, fs := PcOf(s, t).slot, PcOf(s, t).fs;
      Moved(WithSlot(s, i, s.slots[i].(fs := Some(fs))), t, Dismissed(i)).(fsys := s.fsys[fs := InSlot(i)])
    case Remove(t, i) =>
      var fs := s.slots[i].fs.value;
      Moved(WithSlot(s, i, s.slots[i].(transitioning := true, mover := Some(t), fs := None)), t, Removed(i, fs)).(fsys := s.fsys[fs := Owned(t)])
    case Destroy(t) => Destroyed1(Moved(s, t, Dismissed(PcOf(s, t).slot)), PcOf(s, t).fs)
    case Finish(t) =>
      var i := PcOf(s, t).slot;
      Moved(WithSlot(s, i, s.slots[i].(transitioning := false, mover := None)), t, Idle)
    case Acquire(t, i) =>
      Moved(WithSlot(s, i, s.slots[i].(users := s.slots[i].users + 1, holders := s.slots[i].holders + {Thread(t)})), t, Using(i, s.slots[i].fs.value))
    case Release(t) =>
      var i := PcOf(s, t).slot;
      Moved(WithSlot(s, i, s.slots[i].(users := s.slots[i].users - 1, holders := s.slots[i].holders - {Thread(t)})), t, Idle)
    case Keep(t, f) =>
      var i, fs := PcOf(s, t).slot, PcOf(s, t).fs;
      Moved(WithSlot(s, i, s.slots[i].(holders := s.slots[i].holders - {Thread(t)} + {File(f)})), t, Idle).(files := s.files[f := (i, fs)])
    case Close(f) =>
      var i := s.files[f].0;
      WithSlot(s, i, s.slots[i].(users := s.slots[i].users - 1, holders := s.slots[i].holders - {File(f)})).(files := s.files - {f})
  }

  function Destroyed1(s: State, o: nat): State {
    s.(fsys := s.fsys[o := Destroyed], destroyed := s.destroyed + [o])
  }

  /** A thread that is in the middle of an operation can go on with it, and an open file can be closed. */
  lemma NobodyStuck(s: State, t: nat, fs: nat, f: nat)
    requires Inv(s) && fs !in s.fsys
    ensures match PcOf(s, t)
      case Idle => true
      case Reserved(_) => Enabled(s, Create(t, fs)) && Enabled(s, GiveUp(t))
      case Created(_, _) => Enabled(s, Publish(t)) && Enabled(s, GiveUp(t))
      case Dismissed(_) => Enabled(s, Finish(t))
      case Removed(_, _) => Enabled(s, Destroy(t))
      case Using(_, _) => Enabled(s, Release(t)) && (f !in s.files ==> Enabled(s, Keep(t, f)))
    ensures f in s.files ==> Enabled(s, Close(f))
  {
    assert ThreadOk(s, t);
    if PcOf(s, t).Using? {
      assert SlotOk(s, PcOf(s, t).slot);
    }
    if f in s.files {
      assert FileOk(s, f);
      assert SlotOk(s, s.files[f].0);
    }
  }

  /** What an idle thread can begin, slot by slot. */
  lemma CanBegin(s: State, t: nat, i: nat)
    requires PcOf(s, t) == Idle && i < |s.slots|
    ensures s.slots[i].fs.None? && !s.slots[i].transitioning ==> Enabled(s, Reserve(t, i))
    ensures s.slots[i].fs.Some? ==> Enabled(s, Acquire(t, i))
    ensures s.slots[i].fs.Some? && !s.slots[i].transitioning && s.slots[i].users == 0 ==> Enabled(s, Remove(t, i))
  {
  }

  // ---- Every step keeps the invariant ----

  /** The thread that acts, if the action has one. */
  function Actor(a: Action): Option<nat> {
    if a.Close? then None else Some(a.t)
  }

  /** The slot an action works on. */
  function Target(s: State, a: Action): nat {
    match a
    case Reserve(_, i) => i
    case Remove(_, i) => i
    case Acquire(_, i) => i
    case Close(f) => if f in s.files then s.files[f].0 else 0
    case _ =>
      var p := PcOf(s, a.t);
      match p { case Idle => 0 case Reserved(i) => i case Created(i, _) => i case Dismissed(i) => i case Removed(i, _) => i case Using(i, _) => i }
  }

  /** What the invariant says about the places an action touches. */
  lemma Facts(s: State, a: Action)
    requires Inv(s) && Enabled(s, a)
    ensures Target(s, a) < |s.slots| && SlotOk(s, Target(s, a))
    ensures Actor(a).Some? ==> ThreadOk(s, Actor(a).value)
    ensures a.Close? ==> FileOk(s, a.file)
    ensures Actor(a).Some? && Owning(PcOf(s, Actor(a).value)).Some? ==>
              Owning(PcOf(s, Actor(a).value)).value in s.fsys && ObjectOk(s, Owning(PcOf(s, Actor(a).value)).value)
    ensures s.slots[Target(s, a)].fs.Some? ==> s.slots[Target(s, a)].fs.value in s.fsys && ObjectOk(s, s.slots[Target(s, a)].fs.value)
  {
    if Actor(a).Some? {
      assert ThreadOk(s, Actor(a).value);
    } else {
      assert FileOk(s, a.file);
    }
    assert SlotOk(s, Target(s, a));
  }

  lemma SlotKeeps(s: State, a: Action, i: nat)
    requires Inv(s) && Enabled(s, a) && i < |s.slots|
    ensures |Step(s, a).slots| == |s.slots| && SlotOk(Step(s, a), i)
  {
    if i == Target(s, a) {
      OwnSlotKeeps(s, a);
    } else {
      OtherSlotKeeps(s, a, i);
    }
  }

  /** The action takes, drops or passes on a reference. */
  predicate IsReference(a: Action) {
    a.Acquire? || a.Release? || a.Keep? || a.Close?
  }

  lemma OwnSlotKeeps(s: State, a: Action)
    requires Inv(s) && Enabled(s, a) && Target(s, a) < |s.slots|
    ensures |Step(s, a).slots| == |s.slots| && SlotOk(Step(s, a), Target(s, a))
  {
    if IsReference(a) {
      ReferenceSlot(s, a);
    } else if a.Reserve? || a.Remove? || a.Finish? {
      FlagSlot(s, a);
    } else {
      ObjectSlot(s, a);
    }
  }

  lemma ReferenceSlot(s: State, a: Action)
    requires Inv(s) && Enabled(s, a) && Target(s, a) < |s.slots| && IsReference(a)
    ensures |Step(s, a).slots| == |s.slots| && SlotOk(Step(s, a), Target(s, a))
  {
    hide Inv, Step, SlotOk;
    match a
    case Acquire(t, i) => AcquireSlot(s, t, i);
    case Release(t) => ReleaseSlot(s, t);
    case Keep(t, f) => KeepSlot(s, t, f);
    case Close(f) => CloseSlot(s, f);
  }

  lemma AcquireSlot(s: State, t: nat, i: nat)
    requires Inv(s) && Enabled(s, Acquire(t, i))
    ensures |Step(s, Acquire(t, i)).slots| == |s.slots| && SlotOk(Step(s, Acquire(t, i)), i)
  {
    hide ObjectOk;
    Facts(s, Acquire(t, i));
  }

  lemma ReleaseSlot(s: State, t: nat)
    requires Inv(s) && Enabled(s, Release(t))
    ensures |Step(s, Release(t)).slots| == |s.slots| && SlotOk(Step(s, Release(t)), PcOf(s, t).slot)
  {
    hide ObjectOk;
    Facts(s, Release(t));
  }

  lemma KeepSlot(s: State, t: nat, f: nat)
    requires Inv(s) && Enabled(s, Keep(t, f))
    ensures |Step(s, Keep(t, f)).slots| == |s.slots| && SlotOk(Step(s, Keep(t, f)), PcOf(s, t).slot)
  {
    hide ObjectOk;
    Facts(s, Keep(t, f));
  }

  lemma CloseSlot(s: State, f: nat)
    requires Inv(s) && Enabled(s, Close(f))
    ensures |Step(s, Close(f)).slots| == |s.slots| && SlotOk(Step(s, Close(f)), s.files[f].0)
  {
    hide ObjectOk;
    Facts(s, Close(f));
  }

  lemma FlagSlot(s: State, a: Action)
    requires Inv(s) && Enabled(s, a) && Target(s, a) < |s.slots| && (a.Reserve? || a.Remove? || a.Finish?)
    ensures |Step(s, a).slots| == |s.slots| && SlotOk(Step(s, a), Target(s, a))
  {
    hide FileOk;
    Facts(s, a);
  }

  lemma ObjectSlot(s: State, a: Action)
    requires Inv(s) && Enabled(s, a) && Target(s, a) < |s.slots| && (a.Create? || a.GiveUp? || a.Publish? || a.Destroy?)
    ensures |Step(s, a).slots| == |s.slots| && SlotOk(Step(s, a), Target(s, a))
  {
    hide FileOk;
    Facts(s, a);
  }

  lemma OtherSlotKeeps(s: State, a: Action, i: nat)
    requires Inv(s) && Enabled(s, a) && i < |s.slots| && i != Target(s, a)
    ensures |Step(s, a).slots| == |s.slots| && SlotOk(Step(s, a), i)
  {
    hide Inv, Step, SlotOk;
    if IsReference(a) {
      OtherToReference(s, a, i);
    } else {
      OtherToMove(s, a, i);
    }
  }

  lemma OtherToReference(s: State, a: Action, i: nat)
    requires Inv(s) && Enabled(s, a) && i < |s.slots| && i != Target(s, a) && IsReference(a)
    ensures |Step(s, a).slots| == |s.slots| && SlotOk(Step(s, a), i)
  {
    hide ObjectOk;
    Facts(s, a);
    assert SlotOk(s, i);
  }

  lemma OtherToMove(s: State, a: Action, i: nat)
    requires Inv(s) && Enabled(s, a) && i < |s.slots| && i != Target(s, a) && !IsReference(a)
    ensures |Step(s, a).slots| == |s.slots| && SlotOk(Step(s, a), i)
  {
    hide FileOk;
    Facts(s, a);
    assert SlotOk(s, i);
    if s.slots[i].fs.Some? {
      assert ObjectOk(s, s.slots[i].fs.value);
    }
  }

  lemma ThreadKeeps(s: State, a: Action, t: nat)
    requires Inv(s) && Enabled(s, a)
    ensures ThreadOk(Step(s, a), t)
  {
    if Actor(a) == Some(t) {
      ActorKeeps(s, a);
    } else {
      BystanderKeeps(s, a, t);
    }
  }

  lemma ActorKeeps(s: State, a: Action)
    requires Inv(s) && Enabled(s, a) && Actor(a).Some?
    ensures ThreadOk(Step(s, a), Actor(a).value)
  {
    hide FileOk, ObjectOk;
    Facts(s, a);
  }

  lemma BystanderKeeps(s: State, a: Action, t: nat)
    requires Inv(s) && Enabled(s, a) && Actor(a) != Some(t)
    ensures ThreadOk(Step(s, a), t)
  {
    hide Inv, Step, ThreadOk;
    if IsReference(a) {
      BystanderToReference(s, a, t);
    } else {
      BystanderToMove(s, a, t);
    }
  }

  lemma BystanderToReference(s: State, a: Action, t: nat)
    requires Inv(s) && Enabled(s, a) && Actor(a) != Some(t) && IsReference(a)
    ensures ThreadOk(Step(s, a), t)
  {
    hide FileOk, ObjectOk, SlotOk;
    Facts(s, a);
    assert ThreadOk(s, t);
  }

  lemma BystanderToMove(s: State, a: Action, t: nat)
    requires Inv(s) && Enabled(s, a) && Actor(a) != Some(t) && !IsReference(a)
    ensures ThreadOk(Step(s, a), t)
  {
    hide FileOk;
    Facts(s, a);
    assert ThreadOk(s, t);
    var p := PcOf(s, t);
    if p.Using? {
      Occupied(s.slots[p.slot].holders, Thread(t));
    }
  }

  lemma FileKeeps(s: State, a: Action, f: nat)
    requires Inv(s) && Enabled(s, a) && f in Step(s, a).files
    ensures FileOk(Step(s, a), f)
  {
    Facts(s, a);
    if f in s.files {
      assert FileOk(s, f);
      assert SlotOk(s, s.files[f].0);
      assert s.slots[s.files[f].0].users > 0 by { Occupied(s.slots[s.files[f].0].holders, File(f)); }
    }
  }

  lemma Occupied(holders: set<Holder>, h: Holder)
    requires h in holders
    ensures |holders| > 0
  {
  }

  lemma ObjectKeeps(s: State, a: Action, o: nat)
    requires Inv(s) && Enabled(s, a) && o in Step(s, a).fsys
    ensures ObjectOk(Step(s, a), o)
  {
    hide Inv, Step, ObjectOk;
    if IsReference(a) {
      ObjectToReference(s, a, o);
    } else {
      ObjectToMove(s, a, o);
    }
  }

  lemma ObjectToReference(s: State, a: Action, o: nat)
    requires Inv(s) && Enabled(s, a) && o in Step(s, a).fsys && IsReference(a)
    ensures ObjectOk(Step(s, a), o)
  {
    Facts(s, a);
    assert ObjectOk(s, o);
  }

  lemma ObjectToMove(s: State, a: Action, o: nat)
    requires Inv(s) && Enabled(s, a) && o in Step(s, a).fsys && !IsReference(a)
    ensures ObjectOk(Step(s, a), o)
  {
    hide FileOk;
    Facts(s, a);
    if o in s.fsys {
      assert ObjectOk(s, o);
    }
  }

  lemma StepKeeps(s: State, a: Action)
    requires Inv(s) && Enabled(s, a)
    ensures Inv(Step(s, a))
  {
    hide SlotOk, ThreadOk, FileOk, ObjectOk;
    var s' := Step(s, a);
    forall i | 0 <= i < |s'.slots|
      ensures SlotOk(s', i)
    {
      SlotKeeps(s, a, i);
    }
    forall t
      ensures ThreadOk(s', t)
    {
      ThreadKeeps(s, a, t);
    }
    forall f | f in s'.files
      ensures FileOk(s', f)
    {
      FileKeeps(s, a, f);
    }
    forall o | o in s'.fsys
      ensures ObjectOk(s', o)
    {
      ObjectKeeps(s, a, o);
    }
    GraveKeeps(s, a);
  }

  lemma GraveKeeps(s: State, a: Action)
    requires Inv(s) && Enabled(s, a)
    ensures NoRepeat(Step(s, a).destroyed) && forall o :: o in Step(s, a).destroyed ==> o in Step(s, a).fsys && Step(s, a).fsys[o] == Destroyed
  {
    hide SlotOk, FileOk;
    Facts(s, a);
    assert forall i :: 0 <= i < |s.destroyed| ==> s.destroyed[i] in s.destroyed;
  }

  // ---- Runs ----

  predicate IsRun(s: State, run: seq<Action>)
    decreases |run|
  {
    run == [] || (Enabled(s, run[0]) && IsRun(Step(s, run[0]), run[1..]))
  }

  function After(s: State, run: seq<Action>): State
    requires IsRun(s, run)
    decreases |run|
  {
    if run == [] then s else After(Step(s, run[0]), run[1..])
  }

  /** Every interleaving keeps the invariant. */
  lemma {:induction false} EveryRun(s: State, run: seq<Action>)
    requires Inv(s) && IsRun(s, run)
    ensures Inv(After(s, run))
    decreases |run|
  {
    if run != [] {
      StepKeeps(s, run[0]);
      EveryRun(Step(s, run[0]), run[1..]);
    }
  }

  /** A slot with nothing in it. */
  const FREE := Slot(None, 0, false, {}, None)

  /** The three mount points before anything is mounted. */
  const START := State([FREE, FREE, FREE], map[], map[], map[], [])

  lemma StartOk()
    ensures Inv(START)
  {
    forall i | 0 <= i < |START.slots|
      ensures SlotOk(START, i)
    {
    }
    forall t
      ensures ThreadOk(START, t)
    {
    }
  }

  /** An object about to be destroyed has no reference left, and has not been destroyed before. */
  lemma DestroyedUnused(s: State, t: nat)
    requires Inv(s) && Owning(PcOf(s, t)).Some?
    ensures var o := Owning(PcOf(s, t)).value;
      && o !in s.destroyed
      && (forall u :: PcOf(s, u).Using? ==> PcOf(s, u).fs != o)
      && (forall f :: f in s.files ==> s.files[f].1 != o)
  {
    var o := Owning(PcOf(s, t)).value;
    assert ThreadOk(s, t);
    assert ObjectOk(s, o);
    forall u | PcOf(s, u).Using?
      ensures PcOf(s, u).fs != o
    {
      assert ThreadOk(s, u);
      assert SlotOk(s, PcOf(s, u).slot);
    }
    forall f | f in s.files
      ensures s.files[f].1 != o
    {
      assert FileOk(s, f);
      assert SlotOk(s, s.files[f].0);
    }
  }

  /** A mount that fails leaves a free slot that can be mounted on again. */
  lemma FailedMountReusable(s: State, t: nat, u: nat)
    requires Inv(s) && (PcOf(s, t).Reserved? || PcOf(s, t).Created?)
    ensures Enabled(s, GiveUp(t)) && Enabled(Step(s, GiveUp(t)), Finish(t))
    ensures var i, s2 := PcOf(s, t).slot, Step(Step(s, GiveUp(t)), Finish(t));
      i < |s2.slots| && s2.slots[i] == FREE && (PcOf(s2, u) == Idle ==> Enabled(s2, Reserve(u, i)))
  {
    assert ThreadOk(s, t);
    var i := PcOf(s, t).slot;
    assert SlotOk(s, i);
    var s1 := Step(s, GiveUp(t));
    StepKeeps(s, GiveUp(t));
    assert s1.slots == s.slots;
    assert s.slots[i].holders == {};
  }

  // ---- The code: one method per guarded region ----

  class Vfs {
    var s: State

    constructor ()
      ensures s == START && Inv(s)
    {
      StartOk();
      s := START;
    }

    /** The first region of `mount`. */
    method MountBegin(t: nat, slot: Option<nat>, known: bool) returns (e: Error)
      requires Inv(s) && PcOf(s, t) == Idle && (slot.Some? ==> slot.value < |s.slots|)
      modifies this
      ensures Inv(s) && (e != NoError ==> s == old(s))
      ensures e == NoError ==> slot.Some? && Enabled(old(s), Reserve(t, slot.value)) && s == Step(old(s), Reserve(t, slot.value))
      ensures e == NoError <==> slot.Some? && !old(s.slots[slot.value].transitioning) && old(s.slots[slot.value].fs).None? && known
    {
      hide Inv;
      if slot.None? {
        return NotFound;
      }
      var i := slot.value;
      if s.slots[i].transitioning {
        return Busy;
      }
      if s.slots[i].fs.Some? {
        return Exists;
      }
      if !known {
        return NotFound;
      }
      StepKeeps(s, Reserve(t, i));
      s := Moved(s.(slots := s.slots[i := s.slots[i].(transitioning := true, mover := Some(t))]), t, Reserved(i));
      return NoError;
    }

    /** The first region of `umount`. */
    method UmountBegin(t: nat, slot: Option<nat>) returns (e: Error)
      requires Inv(s) && PcOf(s, t) == Idle && (slot.Some? ==> slot.value < |s.slots|)
      modifies this
      ensures Inv(s) && (e != NoError ==> s == old(s))
      ensures e == NoError ==> slot.Some? && Enabled(old(s), Remove(t, slot.value)) && s == Step(old(s), Remove(t, slot.value))
      ensures e == NoError <==>
                && slot.Some? && !old(s.slots[slot.value].transitioning) && old(s.slots[slot.value].fs).Some?
                && old(s.slots[slot.value].holders) == {}
      ensures slot.Some? && old(s.slots[slot.value].holders) != {} ==> e == Busy
    {
      hide Inv, SlotOk;
      if slot.None? {
        return NotFound;
      }
      var i := slot.value;
      UsersCount(s, i);
      if s.slots[i].transitioning {
        return Busy;
      }
      if s.slots[i].fs.None? {
        return NotFound;
      }
      if s.slots[i].users != 0 {
        return Busy;
      }
      StepKeeps(s, Remove(t, i));
      s := Step(s, Remove(t, i));
      return NoError;
    }

    /** A path operation takes a reference to a mounted file system. */
    method AcquireMount(t: nat, slot: Option<nat>) returns (e: Error)
      requires Inv(s) && PcOf(s, t) == Idle && (slot.Some? ==> slot.value < |s.slots|)
      modifies this
      ensures Inv(s) && (e != NoError ==> e == NotFound && s == old(s))
      ensures e == NoError ==> slot.Some? && Enabled(old(s), Acquire(t, slot.value)) && s == Step(old(s), Acquire(t, slot.value))
      ensures e == NoError <==> slot.Some? && old(s.slots[slot.value].fs).Some?
      ensures e == NoError ==> s.slots[slot.value].users == |old(s.slots[slot.value].holders)| + 1
    {
      hide Inv, SlotOk;
      if slot.None? || s.slots[slot.value].fs.None? {
        return NotFound;
      }
      UsersCount(s, slot.value);
      StepKeeps(s, Acquire(t, slot.value));
      s := Step(s, Acquire(t, slot.value));
      return NoError;
    }

    /** `File::~File`: the count it decrements is not zero. */
    method CloseFile(f: nat)
      requires Inv(s) && f in s.files
      modifies this
      ensures Enabled(old(s), Close(f)) && s == Step(old(s), Close(f)) && Inv(s)
    {
      FileCounted(s, f);
      hide Inv;
      StepKeeps(s, Close(f));
      s := Step(s, Close(f));
    }
  }

  lemma UsersCount(s: State, i: nat)
    requires Inv(s) && i < |s.slots|
    ensures s.slots[i].users == |s.slots[i].holders| && (s.slots[i].fs.None? ==> s.slots[i].holders == {})
  {
    assert SlotOk(s, i);
  }

  lemma FileCounted(s: State, f: nat)
    requires Inv(s) && f in s.files
    ensures Enabled(s, Close(f))
  {
    assert FileOk(s, f);
    assert SlotOk(s, s.files[f].0);
    Occupied(s.slots[s.files[f].0].holders, File(f));
  }
}
