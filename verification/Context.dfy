/** Coroutine switching between threads (pthread branch): flags written outside the
    mutexes, condition variables with spurious wakeups, one atomic step at a time. */
module Context {
  import opened Wrappers

  /** Where thread i, running context i, stands in init, wrapper or switch_to. */
  datatype PC =
    | Absent                    // no thread yet
    | Client                    // running the context's own code
    | SwitchClear(to: nat)      // about to do cur->flag = 0
    | SwitchSet(to: nat)        // about to do this->flag = 1
    | SignalLock(to: nat)       // about to lock this->mutex
    | Signal(to: nat)           // about to signal this->cond
    | SignalUnlock(to: nat)     // about to unlock this->mutex
    | WaitLock                  // about to lock cur->mutex
    | Test                      // about to evaluate !cur->flag
    | BeginWait                 // about to enter pthread_cond_wait
    | Sleeping                  // inside pthread_cond_wait
    | Relock                    // woken, about to take cur->mutex again
    | WaitUnlock                // about to unlock cur->mutex
    | InitLock(child: nat)      // about to lock creator->mutex
    | InitClear(child: nat)     // about to do creator->flag = 0
    | InitCreate(child: nat)    // about to call pthread_create
    | Wrapper(creator: nat)     // new thread, about to do cur = ctx

  /** Context i's flag and the holder of its mutex, beside thread i's place. */
  datatype State = State(pc: seq<PC>, flag: seq<bool>, mutex: seq<Option<nat>>)

  function N(s: State): nat { |s.pc| }

  predicate Shape(s: State) {
    |s.flag| == |s.pc| == |s.mutex|
  }

  function At(s: State, i: nat, pc: PC): State
    requires i < |s.pc|
  {
    s.(pc := s.pc[i := pc])
  }

  function Lock(s: State, i: nat, m: nat): State
    requires m < |s.mutex|
  {
    s.(mutex := s.mutex[m := Some(i)])
  }

  function Unlock(s: State, m: nat): State
    requires m < |s.mutex|
  {
    s.(mutex := s.mutex[m := None])
  }

  function SetFlag(s: State, i: nat, b: bool): State
    requires i < |s.flag|
  {
    s.(flag := s.flag[i := b])
  }

  /** pthread_cond_signal(&to->cond): only context to itself ever waits there. */
  function Wake(s: State, to: nat): State
    requires to < |s.pc|
  {
    if s.pc[to].Sleeping? then At(s, to, Relock) else s
  }

  /** The mutex thread i is about to take, if its next step takes one. */
  function Wants(i: nat, pc: PC): Option<nat> {
    match pc
    case SignalLock(to) => Some(to)
    case WaitLock => Some(i)
    case Relock => Some(i)
    case InitLock(_) => Some(i)
    case _ => None
  }

  /** Every call in progress is on another, existing context; init's is still threadless. */
  predicate WellTargeted(s: State, i: nat)
    requires i < N(s)
  {
    match s.pc[i]
    case SwitchClear(to) => to < N(s) && to != i && !s.pc[to].Absent?
    case SwitchSet(to) => to < N(s) && to != i && !s.pc[to].Absent?
    case SignalLock(to) => to < N(s) && to != i
    case Signal(to) => to < N(s) && to != i
    case SignalUnlock(to) => to < N(s) && to != i
    case InitLock(c) => c < N(s) && s.pc[c].Absent?
    case InitClear(c) => c < N(s) && s.pc[c].Absent?
    case InitCreate(c) => c < N(s) && s.pc[c].Absent?
    case Wrapper(p) => p < N(s) && p != i && !s.pc[p].Absent?
    case _ => true
  }

  /** Thread i can take its next library step: it neither runs client code nor
      sleeps nor waits for a mutex. */
  predicate Enabled(s: State, i: nat)
    requires Shape(s) && i < N(s)
  {
    && WellTargeted(s, i)
    && !s.pc[i].Absent? && !s.pc[i].Client? && !s.pc[i].Sleeping?
    && (Wants(i, s.pc[i]).Some? ==> s.mutex[Wants(i, s.pc[i]).value].None?)
  }

  /** The library step thread i takes next. */
  function Step(s: State, i: nat): (r: State)
    requires Shape(s) && i < N(s) && Enabled(s, i)
    ensures Shape(r) && N(r) == N(s)
  {
    match s.pc[i]
    // switch_to
    case SwitchClear(to) => SetFlag(At(s, i, SwitchSet(to)), i, false)
    case SwitchSet(to) => SetFlag(At(s, i, SignalLock(to)), to, true)
    case SignalLock(to) => Lock(At(s, i, Signal(to)), i, to)
    case Signal(to) => At(Wake(s, to), i, SignalUnlock(to))
    case SignalUnlock(to) => Unlock(At(s, i, WaitLock), to)
    case WaitLock => Lock(At(s, i, Test), i, i)
    // the waiting loop of switch_to and init
    case Test => At(s, i, if s.flag[i] then WaitUnlock else BeginWait)
    case BeginWait => Unlock(At(s, i, Sleeping), i)
    case Relock => Lock(At(s, i, Test), i, i)
    case WaitUnlock => Unlock(At(s, i, Client), i)
    // init
    case InitLock(c) => Lock(At(s, i, InitClear(c)), i, i)
    case InitClear(c) => SetFlag(At(s, i, InitCreate(c)), i, false)
    case InitCreate(c) => At(At(s, c, Wrapper(i)), i, Test)
    // wrapper: cur = ctx; ctx->creator->switch_to()
    case Wrapper(p) => At(s, i, SwitchClear(p))
    case Absent => s
    case Client => s
    case Sleeping => s
  }

  /** What happens next: a library step, a call from client code, or a spurious wakeup. */
  datatype Action = Library | CallSwitch(to: nat) | CallInit(child: nat) | Spurious

  /** Client code switches only to contexts that exist, and initialises fresh ones. */
  predicate Allowed(s: State, i: nat, a: Action)
    requires Shape(s) && i < N(s)
  {
    match a
    case Library => Enabled(s, i)
    case CallSwitch(to) => s.pc[i].Client? && to < N(s) && to != i && !s.pc[to].Absent?
    case CallInit(c) => s.pc[i].Client? && c < N(s) && s.pc[c].Absent?
    case Spurious => s.pc[i].Sleeping?
  }

  function Act(s: State, i: nat, a: Action): (r: State)
    requires Shape(s) && i < N(s) && Allowed(s, i, a)
    ensures Shape(r) && N(r) == N(s)
  {
    match a
    case Library => Step(s, i)
    case CallSwitch(to) => At(s, i, SwitchClear(to))
    case CallInit(c) => At(s, i, InitLock(c))
    case Spurious => At(s, i, Relock)
  }

  /** One context, created by current(), runs; the others do not exist yet. */
  predicate Initial(s: State) {
    && Shape(s) && N(s) > 0
    && forall i :: 0 <= i < N(s) ==>
      && s.mutex[i].None?
      && s.pc[i] == (if i == 0 then Client else Absent)
      && s.flag[i] == (i == 0)
  }

  // ----- the invariant -----

  /** Thread i holds mutex m. */
  predicate Holds(i: nat, pc: PC, m: nat) {
    match pc
    case Signal(to) => m == to
    case SignalUnlock(to) => m == to
    case Test => m == i
    case BeginWait => m == i
    case WaitUnlock => m == i
    case InitClear(_) => m == i
    case InitCreate(_) => m == i
    case _ => false
  }

  /** Has given up its flag, or never had one, and not yet raised the next. */
  predicate MidTransfer(s: State, i: nat)
    requires Shape(s) && i < N(s)
  {
    || s.pc[i].SwitchSet? || s.pc[i].InitCreate? || s.pc[i].Wrapper?
    || (s.pc[i].SwitchClear? && !s.flag[i])
  }

  /** Control lies with thread i. */
  predicate Owns(s: State, i: nat)
    requires Shape(s) && i < N(s)
  {
    s.flag[i] || MidTransfer(s, i)
  }

  predicate Targets(s: State)
    requires Shape(s)
  {
    forall i :: 0 <= i < N(s) ==> WellTargeted(s, i)
  }

  /** Thread i owns control exactly if it is h, by its flag or in mid-transfer, not both. */
  predicate Sole(s: State, h: nat, i: nat)
    requires Shape(s) && i < N(s)
  {
    && (Owns(s, i) <==> i == h)
    && !(s.flag[i] && MidTransfer(s, i))
    && (s.pc[i].Client? || s.pc[i].InitLock? || s.pc[i].InitClear? || s.pc[i].WaitUnlock? ==> i == h)
    && (s.pc[i].Absent? ==> i != h)
  }

  predicate OneOwner(s: State, h: nat)
    requires Shape(s)
  {
    && h < N(s)
    && forall i :: 0 <= i < N(s) ==> Sole(s, h, i)
  }

  predicate Mutexes(s: State)
    requires Shape(s)
  {
    forall i, m :: 0 <= i < N(s) && 0 <= m < N(s) ==> (Holds(i, s.pc[i], m) <==> s.mutex[m] == Some(i))
  }

  predicate MutexRange(s: State)
    requires Shape(s)
  {
    forall m :: 0 <= m < N(s) && s.mutex[m].Some? ==> s.mutex[m].value < N(s)
  }

  /** Thread j has raised to's flag and will still signal it. */
  predicate WillSignal(s: State, j: nat, to: nat)
    requires j < N(s)
  {
    s.pc[j] == SignalLock(to) || s.pc[j] == Signal(to)
  }

  predicate Waiting(s: State, i: nat)
    requires Shape(s) && i < N(s)
  {
    s.flag[i] && (s.pc[i].Sleeping? || s.pc[i].BeginWait?)
  }

  /** A context whose flag is up and that sleeps, or is about to, will be signalled. */
  predicate NoLostWakeup(s: State)
    requires Shape(s)
  {
    forall i :: 0 <= i < N(s) && Waiting(s, i) ==> exists j :: 0 <= j < N(s) && WillSignal(s, j, i)
  }

  ghost predicate Inv(s: State) {
    && Shape(s) && Targets(s) && Mutexes(s) && MutexRange(s) && NoLostWakeup(s)
    && exists h: nat :: OneOwner(s, h)
  }

  lemma InitialInv(s: State)
    requires Initial(s)
    ensures Inv(s)
  {
    assert OneOwner(s, 0);
  }

  lemma ActTargets(s: State, i: nat, a: Action)
    requires Inv(s) && i < N(s) && Allowed(s, i, a)
    ensures Targets(Act(s, i, a))
  {
    var r := Act(s, i, a);
    forall k: nat | k < N(s) ensures WellTargeted(r, k) {
      ActKeepsTarget(s, i, a, k);
    }
  }

  lemma ActKeepsTarget(s: State, i: nat, a: Action, k: nat)
    requires Inv(s) && i < N(s) && Allowed(s, i, a) && k < N(s)
    ensures WellTargeted(Act(s, i, a), k)
  {
    OneCreates(s, i, k);
    if a.Library? {
      hide Inv, Creating, WellTargeted;
      StepKeepsTarget(s, i, k);
    } else {
      hide Inv, Creating, Enabled, Step;
    }
  }

  /** Thread i is in init of child. */
  predicate Creating(pc: PC, child: nat) {
    pc == InitLock(child) || pc == InitClear(child) || pc == InitCreate(child)
  }

  lemma OneCreates(s: State, i: nat, k: nat)
    requires Inv(s) && i < N(s) && k < N(s)
    ensures Shape(s) && WellTargeted(s, i) && WellTargeted(s, k)
    ensures s.pc[i].InitCreate? && Creating(s.pc[k], s.pc[i].child) ==> i == k
  {
    InvAt(s, i, k);
    InvAt(s, k, i);
    hide Inv, WellTargeted;
  }

  lemma StepKeepsTarget(s: State, i: nat, k: nat)
    requires Shape(s) && i < N(s) && k < N(s) && Enabled(s, i) && WellTargeted(s, k)
    requires s.pc[i].InitCreate? && Creating(s.pc[k], s.pc[i].child) ==> i == k
    ensures WellTargeted(Step(s, i), k)
  {
    hide *;
    if i == k { StepKeepsOwn(s, i); } else { StepKeepsOther(s, i, k); }
  }

  lemma StepKeepsOwn(s: State, i: nat)
    requires Shape(s) && i < N(s) && Enabled(s, i) && WellTargeted(s, i)
    ensures WellTargeted(Step(s, i), i)
  {
    hide Wants;
  }

  lemma StepKeepsOther(s: State, i: nat, k: nat)
    requires Shape(s) && i < N(s) && k < N(s) && i != k && Enabled(s, i) && WellTargeted(s, k)
    requires s.pc[i].InitCreate? ==> !Creating(s.pc[k], s.pc[i].child)
    ensures WellTargeted(Step(s, i), k)
  {
    hide Wants;
  }

  /** What the invariant says of one or two threads. */
  lemma InvAt(s: State, i: nat, k: nat)
    requires Inv(s) && i < N(s) && k < N(s)
    ensures WellTargeted(s, i) && WellTargeted(s, k)
    ensures Owns(s, i) && Owns(s, k) ==> i == k
    ensures s.pc[i].Client? || s.pc[i].InitLock? || s.pc[i].InitClear? || s.pc[i].WaitUnlock? ==> s.flag[i]
    ensures s.pc[i].Absent? ==> !Owns(s, i)
    ensures s.flag[i] ==> !MidTransfer(s, i)
  {
    var h: nat :| OneOwner(s, h);
    assert Sole(s, h, i) && Sole(s, h, k);
  }

  /** Control moves when a flag is raised and when a thread is created, at no other time. */
  function NextOwner(s: State, g: nat, i: nat, a: Action): nat
    requires i < N(s)
  {
    if a.Library? && s.pc[i].SwitchSet? then s.pc[i].to
    else if a.Library? && s.pc[i].InitCreate? then s.pc[i].child
    else g
  }

  lemma ActOwner(s: State, i: nat, a: Action, g: nat)
    requires Inv(s) && i < N(s) && Allowed(s, i, a) && OneOwner(s, g)
    ensures OneOwner(Act(s, i, a), NextOwner(s, g, i, a))
  {
    var h := NextOwner(s, g, i, a);
    InvAt(s, i, i);
    forall k: nat | k < N(s) ensures Sole(Act(s, i, a), h, k) {
      SoleAfter(s, i, a, g, k);
    }
    assert Sole(s, g, i);
  }

  lemma SoleAfter(s: State, i: nat, a: Action, g: nat, k: nat)
    requires Inv(s) && i < N(s) && Allowed(s, i, a) && OneOwner(s, g) && k < N(s)
    ensures Sole(Act(s, i, a), NextOwner(s, g, i, a), k)
  {
    assert Sole(s, g, i) && Sole(s, g, k) && Sole(s, g, NextOwner(s, g, i, a)) by { InvAt(s, i, k); }
    InvAt(s, i, k);
    hide Inv, OneOwner, Targets, Wants;
  }

  lemma ActMutexes(s: State, i: nat, a: Action)
    requires Inv(s) && i < N(s) && Allowed(s, i, a)
    ensures Mutexes(Act(s, i, a)) && MutexRange(Act(s, i, a))
  {
    var r := Act(s, i, a);
    assert WellTargeted(s, i);
    forall k, m | 0 <= k < N(s) && 0 <= m < N(s)
      ensures Holds(k, r.pc[k], m) <==> r.mutex[m] == Some(k)
    {
      assert Holds(k, s.pc[k], m) <==> s.mutex[m] == Some(k);
      assert Holds(i, s.pc[i], m) <==> s.mutex[m] == Some(i);
    }
  }

  lemma ActWakeup(s: State, i: nat, a: Action)
    requires Inv(s) && i < N(s) && Allowed(s, i, a)
    ensures NoLostWakeup(Act(s, i, a))
  {
    var h: nat :| OneOwner(s, h);
    var r := Act(s, i, a);
    assert WellTargeted(s, i);
    assert Sole(s, h, i);
    forall k | 0 <= k < N(s) && Waiting(r, k)
      ensures exists j :: 0 <= j < N(s) && WillSignal(r, j, k)
    {
      assert Sole(s, h, k);
      if a.Library? && s.pc[i] == SwitchSet(k) {
        assert WillSignal(r, i, k);
      } else {
        StillSignalled(s, i, a, k);
      }
    }
  }

  /** Whoever was to signal a waiting context still is. */
  lemma StillSignalled(s: State, i: nat, a: Action, k: nat)
    requires Inv(s) && i < N(s) && Allowed(s, i, a) && k < N(s)
    requires Waiting(Act(s, i, a), k) && !(a.Library? && s.pc[i] == SwitchSet(k))
    ensures exists j :: 0 <= j < N(s) && WillSignal(Act(s, i, a), j, k)
  {
    var r := Act(s, i, a);
    assert WellTargeted(s, i);
    assert s.flag[k];
    assert Waiting(s, k);
    var j :| 0 <= j < N(s) && WillSignal(s, j, k);
    assert Holds(k, s.pc[k], k) <==> s.mutex[k] == Some(k);
    assert Holds(j, s.pc[j], k) <==> s.mutex[k] == Some(j);
    assert WillSignal(r, j, k);
  }

  /** Every step of every thread, call of client code and spurious wakeup keeps the invariant. */
  lemma ActInv(s: State, i: nat, a: Action)
    requires Inv(s) && i < N(s) && Allowed(s, i, a)
    ensures Inv(Act(s, i, a))
  {
    hide Targets, Mutexes, MutexRange, NoLostWakeup, OneOwner, Allowed, Act;
    ActTargets(s, i, a);
    ActMutexes(s, i, a);
    ActWakeup(s, i, a);
    var g: nat :| OneOwner(s, g);
    ActOwner(s, i, a, g);
  }

  // ----- whole runs -----

  datatype Turn = Turn(thread: nat, action: Action)

  /** ss lists the states of a run in which the threads take the given turns. */
  ghost predicate Run(ss: seq<State>, turns: seq<Turn>) {
    && |ss| == |turns| + 1
    && (forall k :: 0 <= k < |ss| ==> Shape(ss[k]) && N(ss[k]) == N(ss[0]))
    && forall k :: 0 <= k < |turns| ==> Moves(ss[k], turns[k], ss[k + 1])
  }

  predicate Moves(s: State, t: Turn, r: State) {
    Shape(s) && t.thread < N(s) && Allowed(s, t.thread, t.action) && r == Act(s, t.thread, t.action)
  }

  lemma {:induction false} RunInv(ss: seq<State>, turns: seq<Turn>)
    requires Run(ss, turns) && Inv(ss[0])
    ensures forall k :: 0 <= k < |ss| ==> Inv(ss[k])
  {
    hide Inv, Act, Allowed;
    if |turns| > 0 {
      var n := |turns| - 1;
      forall k | 0 <= k < n ensures Moves(ss[..n + 1][k], turns[..n][k], ss[..n + 1][k + 1]) {
        assert Moves(ss[k], turns[k], ss[k + 1]);
      }
      RunInv(ss[..n + 1], turns[..n]);
      assert ss[..n + 1][n] == ss[n];
      assert Moves(ss[n], turns[n], ss[n + 1]);
      ActInv(ss[n], turns[n].thread, turns[n].action);
      forall k | 0 <= k < |ss| ensures Inv(ss[k]) {
        assert k <= n ==> ss[k] == ss[..n + 1][k];
      }
    }
  }

  /** Exactly one flag is up and nobody is in mid-transfer, or no flag is up and
      exactly one thread is in mid-transfer; and only that thread may be in client code. */
  ghost predicate ControlIsSingle(s: State)
    requires Shape(s)
  {
    exists h: nat ::
      && h < N(s)
      && s.flag[h] == !MidTransfer(s, h)
      && (forall i :: 0 <= i < N(s) && i != h ==> !s.flag[i] && !MidTransfer(s, i) && !s.pc[i].Client?)
      && (s.pc[h].Client? ==> s.flag[h])
  }

  /** However the threads interleave, at most one runs client code at any time. */
  lemma MutualExclusion(ss: seq<State>, turns: seq<Turn>, k: nat)
    requires Run(ss, turns) && Initial(ss[0]) && k < |ss|
    ensures ControlIsSingle(ss[k])
    ensures forall i, j :: 0 <= i < N(ss[k]) && 0 <= j < N(ss[k]) && ss[k].pc[i].Client? && ss[k].pc[j].Client? ==>
      i == j
  {
    InitialInv(ss[0]);
    RunInv(ss, turns);
    SingleControl(ss[k]);
  }

  lemma SingleControl(s: State)
    requires Inv(s)
    ensures ControlIsSingle(s)
  {
    var h: nat :| OneOwner(s, h);
    assert Sole(s, h, h);
    forall i | 0 <= i < N(s) && i != h ensures !s.flag[i] && !MidTransfer(s, i) && !s.pc[i].Client? {
      assert Sole(s, h, i);
    }
  }

  /** The assertions in the code: a context being initialised has its flag down, and a new
      thread's switch to its creator is not one to itself. (That client code does not switch
      to itself is its own duty.) */
  lemma AssertionsHold(ss: seq<State>, turns: seq<Turn>, k: nat)
    requires Run(ss, turns) && Initial(ss[0]) && k < |turns| && Moves(ss[k], turns[k], ss[k + 1])
    ensures turns[k].action.CallInit? ==> !ss[k].flag[turns[k].action.child]
    ensures turns[k].action.Library? && ss[k].pc[turns[k].thread].Wrapper? ==>
      ss[k + 1].pc[turns[k].thread].SwitchClear? && ss[k + 1].pc[turns[k].thread].to != turns[k].thread
  {
    InitialInv(ss[0]);
    RunInv(ss, turns);
    if turns[k].action.CallInit? {
      InvAt(ss[k], turns[k].action.child, turns[k].thread);
    }
    assert WellTargeted(ss[k], turns[k].thread);
  }

  /** Somebody asleep with its flag up always has a signal coming. */
  lemma NoWakeupIsLost(ss: seq<State>, turns: seq<Turn>, k: nat, i: nat)
    requires Run(ss, turns) && Initial(ss[0]) && k < |ss| && i < N(ss[k])
    requires ss[k].flag[i] && ss[k].pc[i].Sleeping?
    ensures exists j :: 0 <= j < N(ss[k]) && WillSignal(ss[k], j, i)
  {
    InitialInv(ss[0]);
    RunInv(ss, turns);
    assert Waiting(ss[k], i);
  }

  /** Nobody who holds a mutex waits for another one. */
  lemma HolderRuns(s: State, m: nat)
    requires Inv(s) && m < N(s) && s.mutex[m].Some?
    ensures s.mutex[m].value < N(s) && Enabled(s, s.mutex[m].value)
  {
    var j := s.mutex[m].value;
    assert Holds(j, s.pc[j], m) <==> s.mutex[m] == Some(j);
    assert WellTargeted(s, j);
  }

  /** Some thread can always go on: the library never deadlocks. */
  lemma NoDeadlock(s: State) returns (i: nat)
    requires Inv(s)
    ensures i < N(s) && (Enabled(s, i) || s.pc[i].Client?)
  {
    var h: nat :| OneOwner(s, h);
    i := h;
    assert Sole(s, h, h) && WellTargeted(s, h);
    if s.pc[h].Sleeping? {
      assert Waiting(s, h);
      i :| 0 <= i < N(s) && WillSignal(s, i, h);
      assert WellTargeted(s, i);
    }
    var w := Wants(i, s.pc[i]);
    if w.Some? && s.mutex[w.value].Some? {
      HolderRuns(s, w.value);
      i := s.mutex[w.value].value;
    }
  }

  // ----- every switch completes, and delivers control where it was asked to -----

  /** The thread that will run client code next if nobody calls anything. */
  function Heir(s: State, h: nat): nat
    requires h < N(s)
  {
    match s.pc[h]
    case SwitchClear(to) => to
    case SwitchSet(to) => to
    case Wrapper(p) => p
    case _ => h
  }

  /** Library steps and spurious wakeups never change who control is on its way to. */
  lemma HeirKept(s: State, h: nat, i: nat, a: Action)
    requires Inv(s) && OneOwner(s, h) && i < N(s) && Allowed(s, i, a) && (a.Library? || a.Spurious?)
    ensures NextOwner(s, h, i, a) < N(s)
    ensures Heir(Act(s, i, a), NextOwner(s, h, i, a)) == Heir(s, h)
  {
    hide Targets, Mutexes, NoLostWakeup, MutexRange;
    InvAt(s, i, h);
    InvAt(s, h, i);
    assert Sole(s, h, h) && Sole(s, h, i);
    ghost var to := NextOwner(s, h, i, a);
    InvAt(s, i, to);
    assert Sole(s, h, to);
  }

  /** An upper bound on the library steps a thread has still to take, and cause, before
      it is asleep or back in client code. */
  function Rank(pc: PC): nat {
    match pc
    case Absent => 0
    case Client => 0
    case Sleeping => 0
    case WaitUnlock => 1
    case BeginWait => 1
    case Test => 2
    case WaitLock => 3
    case Relock => 3
    case SignalUnlock(_) => 4
    case Signal(_) => 8
    case SignalLock(_) => 9
    case SwitchSet(_) => 10
    case SwitchClear(_) => 11
    case Wrapper(_) => 12
    case InitCreate(_) => 15
    case InitClear(_) => 16
    case InitLock(_) => 17
  }

  function Ranks(pcs: seq<PC>): nat {
    if pcs == [] then 0 else Rank(pcs[0]) + Ranks(pcs[1..])
  }

  lemma {:induction false} RanksUpdate(pcs: seq<PC>, i: nat, pc: PC)
    requires i < |pcs|
    ensures Ranks(pcs[i := pc]) == Ranks(pcs) - Rank(pcs[i]) + Rank(pc)
  {
    if i == 0 {
      assert pcs[i := pc][1..] == pcs[1..];
    } else {
      assert pcs[i := pc][1..] == pcs[1..][i - 1 := pc];
      RanksUpdate(pcs[1..], i - 1, pc);
    }
  }

  /** Besides the thread that moves, only a woken or created one changes its place. */
  lemma StepPlaces(s: State, i: nat) returns (j: nat, pc: PC)
    requires Inv(s) && i < N(s) && Enabled(s, i)
    ensures j < N(s) && (j == i ==> pc == s.pc[i])
    ensures Step(s, i).pc == s.pc[j := pc][i := Step(s, i).pc[i]]
    ensures Rank(Step(s, i).pc[i]) + Rank(pc) < Rank(s.pc[i]) + Rank(s.pc[j])
  {
    assert Shape(s) && WellTargeted(s, i);
    hide Inv, Wants;
    if s.pc[i].Signal? {
      j := s.pc[i].to;
      pc := if s.pc[j].Sleeping? then Relock else s.pc[j];
    } else if s.pc[i].InitCreate? {
      j, pc := s.pc[i].child, Wrapper(i);
    } else {
      j, pc := i, s.pc[i];
    }
  }

  /** Every library step brings the threads closer to rest; a spurious wakeup costs three steps. */
  lemma StepsRunOut(s: State, i: nat, a: Action)
    requires Inv(s) && i < N(s) && Allowed(s, i, a)
    ensures a.Library? ==> Ranks(Act(s, i, a).pc) < Ranks(s.pc)
    ensures a.Spurious? ==> Ranks(Act(s, i, a).pc) == Ranks(s.pc) + 3
  {
    if a.Library? {
      var j, pc := StepPlaces(s, i);
      hide Ranks, Rank, Step, Enabled;
      RanksUpdate(s.pc, j, pc);
      RanksUpdate(s.pc[j := pc], i, Step(s, i).pc[i]);
    } else if a.Spurious? {
      assert Shape(s);
      hide Ranks, Inv;
      RanksUpdate(s.pc, i, Relock);
    }
  }

  /** The library is left alone: no client code calls it during these turns. */
  predicate Undisturbed(turns: seq<Turn>) {
    forall k :: 0 <= k < |turns| ==> turns[k].action.Library? || turns[k].action.Spurious?
  }

  function Spuriously(turns: seq<Turn>): nat {
    if turns == [] then 0 else Spuriously(turns[..|turns| - 1]) + (if turns[|turns| - 1].action.Spurious? then 1 else 0)
  }

  lemma {:induction false} Transfer(ss: seq<State>, turns: seq<Turn>, h: nat) returns (g: nat)
    requires Run(ss, turns) && Undisturbed(turns) && Inv(ss[0]) && OneOwner(ss[0], h)
    ensures Inv(ss[|turns|]) && OneOwner(ss[|turns|], g) && Heir(ss[|turns|], g) == Heir(ss[0], h)
    ensures Ranks(ss[|turns|].pc) + |turns| <= Ranks(ss[0].pc) + 4 * Spuriously(turns)
  {
    hide Inv, Act, Allowed, Ranks, OneOwner, Heir;
    if |turns| == 0 {
      g := h;
    } else {
      var n := |turns| - 1;
      var t := turns[n];
      forall k | 0 <= k < n ensures Moves(ss[..n + 1][k], turns[..n][k], ss[..n + 1][k + 1]) {
        assert Moves(ss[k], turns[k], ss[k + 1]);
      }
      g := Transfer(ss[..n + 1], turns[..n], h);
      assert ss[..n + 1][n] == ss[n] && ss[..n + 1][0] == ss[0];
      assert Moves(ss[n], t, ss[n + 1]);
      ActInv(ss[n], t.thread, t.action);
      StepsRunOut(ss[n], t.thread, t.action);
      HeirKept(ss[n], g, t.thread, t.action);
      ActOwner(ss[n], t.thread, t.action, g);
      g := NextOwner(ss[n], g, t.thread, t.action);
    }
  }

  predicate AtRest(s: State)
    requires Shape(s)
  {
    forall i :: 0 <= i < N(s) ==> !Enabled(s, i)
  }

  /** Only `to` may be in client code; and it is, with every other thread asleep, when
      nothing else can happen. */
  predicate Delivered(s: State, to: nat)
    requires Shape(s)
  {
    && to < N(s)
    && (forall j :: 0 <= j < N(s) && s.pc[j].Client? ==> j == to)
    && (AtRest(s) ==> s.pc[to].Client? && forall j :: 0 <= j < N(s) && j != to ==> s.pc[j].Sleeping? || s.pc[j].Absent?)
  }

  lemma ControlArrives(s: State, g: nat)
    requires Inv(s) && OneOwner(s, g)
    ensures Delivered(s, Heir(s, g))
  {
    assert WellTargeted(s, g) && Sole(s, g, g);
    forall j | 0 <= j < N(s) && s.pc[j].Client? ensures j == Heir(s, g) {
      assert Sole(s, g, j);
    }
    if AtRest(s) {
      var j := NoDeadlock(s);
      assert Sole(s, g, j);
      forall k | 0 <= k < N(s) && !s.pc[k].Client? ensures s.pc[k].Sleeping? || s.pc[k].Absent? {
        assert WellTargeted(s, k) && !Enabled(s, k);
        var w := Wants(k, s.pc[k]);
        if w.Some? && s.mutex[w.value].Some? {
          HolderRuns(s, w.value);
        }
      }
    }
  }

  lemma CallOwner(s: State, i: nat, a: Action)
    requires Inv(s) && i < N(s) && Allowed(s, i, a) && (a.CallSwitch? || a.CallInit?)
    ensures Inv(Act(s, i, a)) && OneOwner(Act(s, i, a), i)
    ensures Heir(Act(s, i, a), i) == if a.CallSwitch? then a.to else i
    ensures Ranks(Act(s, i, a).pc) <= Ranks(s.pc) + 17
  {
    hide Targets, Mutexes, NoLostWakeup, Ranks, WellTargeted, Owns, MidTransfer;
    var h: nat :| OneOwner(s, h);
    assert Sole(s, h, i);
    ActInv(s, i, a);
    ActOwner(s, i, a, h);
    RanksUpdate(s.pc, i, Act(s, i, a).pc[i]);
  }

  /** After a call from client code, the library takes a bounded number of steps under any
      schedule (each spurious wakeup adding at most three beside itself), and delivers
      control to the heir. */
  lemma CallDelivers(s: State, i: nat, a: Action, ss: seq<State>, turns: seq<Turn>)
    requires Inv(s) && i < N(s) && Allowed(s, i, a) && (a.CallSwitch? || a.CallInit?)
    requires Run(ss, turns) && Undisturbed(turns) && ss[0] == Act(s, i, a)
    ensures Delivered(ss[|turns|], if a.CallSwitch? then a.to else i)
    ensures |turns| <= Ranks(s.pc) + 17 + 4 * Spuriously(turns)
  {
    hide Inv, OneOwner, Heir, Ranks, Act, Delivered;
    CallOwner(s, i, a);
    var g := Transfer(ss, turns, i);
    ControlArrives(ss[|turns|], g);
  }

  /** switch_to: from any reachable state and under every schedule, control goes to `to`
      and to nobody else. */
  lemma SwitchDelivers(s: State, i: nat, to: nat, ss: seq<State>, turns: seq<Turn>)
    requires Inv(s) && i < N(s) && Allowed(s, i, CallSwitch(to))
    requires Run(ss, turns) && Undisturbed(turns) && ss[0] == Act(s, i, CallSwitch(to))
    ensures Delivered(ss[|turns|], to)
    ensures |turns| <= Ranks(s.pc) + 17 + 4 * Spuriously(turns)
  {
    CallDelivers(s, i, CallSwitch(to), ss, turns);
  }

  /** init: control comes back to the caller, by when the child's thread exists, asleep in
      its first switch_to. */
  lemma InitReturns(s: State, i: nat, child: nat, ss: seq<State>, turns: seq<Turn>)
    requires Inv(s) && i < N(s) && Allowed(s, i, CallInit(child))
    requires Run(ss, turns) && Undisturbed(turns) && ss[0] == Act(s, i, CallInit(child))
    ensures Delivered(ss[|turns|], i)
    ensures AtRest(ss[|turns|]) ==> ss[|turns|].pc[child].Sleeping?
    ensures |turns| <= Ranks(s.pc) + 17 + 4 * Spuriously(turns)
  {
    CallDelivers(s, i, CallInit(child), ss, turns);
    StaysStarted(ss, turns, i, child);
  }

  /** The thread of context c exists, or i is in init creating it. */
  predicate Started(s: State, i: nat, c: nat)
    requires i < N(s) && c < N(s)
  {
    i != c && (s.pc[c].Absent? ==> s.pc[i] in {InitLock(c), InitClear(c), InitCreate(c)})
  }

  lemma {:induction false} StaysStarted(ss: seq<State>, turns: seq<Turn>, i: nat, c: nat)
    requires Run(ss, turns) && Undisturbed(turns)
    requires i < N(ss[0]) && c < N(ss[0]) && Started(ss[0], i, c)
    ensures Started(ss[|turns|], i, c)
  {
    if |turns| > 0 {
      var n := |turns| - 1;
      forall k | 0 <= k < n ensures Moves(ss[..n + 1][k], turns[..n][k], ss[..n + 1][k + 1]) {
        assert Moves(ss[k], turns[k], ss[k + 1]);
      }
      StaysStarted(ss[..n + 1], turns[..n], i, c);
      assert Moves(ss[n], turns[n], ss[n + 1]);
    }
  }
}
