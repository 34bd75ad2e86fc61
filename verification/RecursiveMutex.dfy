/** The recursive mutex made of two plain ones, as every interleaving of its threads' steps. */
module RecursiveMutex {

  import opened Options

  /** Thread identities are not zero, which stands for no owner. */
  type Tid = int

  /** Where a thread is: outside, or before the named step of `lock` or `unlock`. */
  datatype Pc =
    | Outside
    | LockEnter | LockTest | LockWaitMain | LockSet | LockLeave
    | UnlockEnter | UnlockDecrement | UnlockMain | UnlockClear | UnlockLeave

  /** `nesting` is what each thread is owed: calls of `lock` returned, less calls of `unlock` returned. */
  datatype State = State(ownerMutex: Option<Tid>, mainMutex: Option<Tid>, ownerId: Tid, depth: nat,
                         pc: map<Tid, Pc>, nesting: map<Tid, nat>)

  // ---------------------------------------------------------------- steps

  ghost predicate Init(s: State) {
    && s.ownerMutex == None && s.mainMutex == None && s.ownerId == 0 && s.depth == 0
    && 0 !in s.pc && s.nesting.Keys == s.pc.Keys
    && forall t :: t in s.pc ==> s.pc[t] == Outside && s.nesting[t] == 0
  }

  function At(s: State, t: Tid, pc: Pc): State {
    s.(pc := s.pc[t := pc])
  }

  /** One step of thread `t`; only a thread inside may call `unlock`. */
  ghost predicate Step(s: State, s': State, t: Tid) {
    && t in s.pc && t in s.nesting
    && match s.pc[t]
       case Outside =>
         || s' == At(s, t, LockEnter)
         || (s.nesting[t] > 0 && s' == At(s, t, UnlockEnter))
       case LockEnter =>
         s.ownerMutex == None && s' == At(s, t, LockTest).(ownerMutex := Some(t))
       case LockTest =>
         if s.ownerId == t then s' == At(s, t, LockLeave).(depth := s.depth + 1)
         else s' == At(s, t, LockWaitMain)
       case LockWaitMain =>
         s.mainMutex == None && s' == At(s, t, LockSet).(mainMutex := Some(t))
       case LockSet =>
         s' == At(s, t, LockLeave).(ownerId := t, depth := 1)
       case LockLeave =>
         s' == At(s, t, Outside).(ownerMutex := None, nesting := s.nesting[t := s.nesting[t] + 1])
       case UnlockEnter =>
         s.ownerMutex == None && s' == At(s, t, UnlockDecrement).(ownerMutex := Some(t))
       case UnlockDecrement =>
         && s.depth > 0
         && s' == At(s, t, if s.depth == 1 then UnlockMain else UnlockLeave).(depth := s.depth - 1)
       case UnlockMain =>
         s' == At(s, t, UnlockClear).(mainMutex := None)
       case UnlockClear =>
         s' == At(s, t, UnlockLeave).(ownerId := 0)
       case UnlockLeave =>
         && s.nesting[t] > 0
         && s' == At(s, t, Outside).(ownerMutex := None, nesting := s.nesting[t := s.nesting[t] - 1])
  }

  ghost predicate Next(s: State, s': State) {
    exists t :: Step(s, s', t)
  }

  /** A run: any number of steps of any threads, in any order. */
  ghost predicate Run(run: seq<State>) {
    run != [] && forall i :: 0 < i < |run| ==> Next(run[i - 1], run[i])
  }

  // ---------------------------------------------------------------- the invariant

  predicate Inner(pc: Pc) {
    pc != Outside && pc != LockEnter && pc != UnlockEnter
  }

  ghost predicate OthersOut(s: State, t: Tid) {
    forall o :: o in s.nesting && o != t ==> s.nesting[o] == 0
  }

  ghost predicate AllOut(s: State) {
    forall o :: o in s.nesting ==> s.nesting[o] == 0
  }

  /** Outside the inner section: the main mutex is held exactly by the owner, `depth` deep. */
  ghost predicate Settled(s: State) {
    match s.mainMutex
    case None => s.ownerId == 0 && s.depth == 0 && AllOut(s)
    case Some(h) => h in s.nesting && s.ownerId == h && s.depth == s.nesting[h] > 0 && OthersOut(s, h)
  }

  /** Inside it: how far the thread holding the owner mutex has come. */
  ghost predicate Midway(s: State, t: Tid)
    requires t in s.pc && t in s.nesting
  {
    match s.pc[t]
    case LockTest => Settled(s)
    case LockWaitMain => Settled(s) && s.ownerId != t
    case LockSet => s.mainMutex == Some(t) && s.ownerId == 0 && AllOut(s)
    case LockLeave =>
      s.mainMutex == Some(t) && s.ownerId == t && s.depth == s.nesting[t] + 1 && OthersOut(s, t)
    case UnlockDecrement => Settled(s) && s.mainMutex == Some(t)
    case UnlockMain =>
      s.mainMutex == Some(t) && s.ownerId == t && s.depth == 0 && s.nesting[t] == 1 && OthersOut(s, t)
    case UnlockClear =>
      s.mainMutex == None && s.ownerId == t && s.depth == 0 && s.nesting[t] == 1 && OthersOut(s, t)
    case UnlockLeave =>
      && s.nesting[t] == s.depth + 1 && OthersOut(s, t)
      && (if s.depth > 0 then s.mainMutex == Some(t) && s.ownerId == t else s.mainMutex == None && s.ownerId == 0)
    case _ => false
  }

  ghost predicate Inv(s: State) {
    && 0 !in s.pc && s.nesting.Keys == s.pc.Keys
    && (forall t :: t in s.pc ==> (Inner(s.pc[t]) <==> s.ownerMutex == Some(t)))
    && (forall t :: t in s.pc && s.pc[t] == UnlockEnter ==> s.nesting[t] > 0)
    && (match s.ownerMutex
        case None => Settled(s)
        case Some(t) => t in s.pc && Midway(s, t))
  }

  lemma InitInv(s: State)
    requires Init(s)
    ensures Inv(s)
  {}

  lemma StepInv(s: State, s': State, t: Tid)
    requires Inv(s) && Step(s, s', t)
    ensures Inv(s')
  {
    StepFrame(s, s', t);
    if s.pc[t] == Outside {
      CallInv(s, s', t);
    } else if !Inner(s.pc[t]) {
      EnterInv(s, s', t);
    } else if !Inner(s'.pc[t]) {
      LeaveInv(s, s', t);
    } else {
      InnerInv(s, s', t);
    }
  }

  /** A step moves only its own thread. */
  ghost predicate Frame(s: State, s': State, t: Tid)
    requires s'.nesting.Keys == s.nesting.Keys
  {
    && s'.pc.Keys == s.pc.Keys
    && (forall o :: o in s.pc && o != t ==> s'.pc[o] == s.pc[o])
    && (forall o :: o in s.nesting && o != t ==> s'.nesting[o] == s.nesting[o])
  }

  lemma StepFrame(s: State, s': State, t: Tid)
    requires Step(s, s', t)
    ensures s'.nesting.Keys == s.nesting.Keys && Frame(s, s', t)
  {}

  /** A thread begins a call. */
  lemma CallInv(s: State, s': State, t: Tid)
    requires Inv(s) && Step(s, s', t) && s.pc[t] == Outside
    ensures Inv(s')
  {
    StepFrame(s, s', t);
    SameShares(s, s', if s.ownerMutex.Some? then s.ownerMutex.value else t);
  }

  /** A thread takes the owner mutex. */
  lemma EnterInv(s: State, s': State, t: Tid)
    requires Inv(s) && Step(s, s', t) && (s.pc[t] == LockEnter || s.pc[t] == UnlockEnter)
    ensures Inv(s')
  {
    StepFrame(s, s', t);
    SameShares(s, s', t);
  }

  /** A thread on its way in changes no shared variable but the owner mutex. */
  lemma SameShares(s: State, s': State, o: Tid)
    requires s'.nesting == s.nesting && s'.mainMutex == s.mainMutex && s'.ownerId == s.ownerId && s'.depth == s.depth
    requires o in s.pc && o in s'.pc && o in s.nesting
    ensures Settled(s') <==> Settled(s)
    ensures s'.pc[o] == s.pc[o] ==> (Midway(s', o) <==> Midway(s, o))
  {
    assert AllOut(s') <==> AllOut(s);
  }

  lemma InnerInv(s: State, s': State, t: Tid)
    requires Inv(s) && Step(s, s', t) && Inner(s.pc[t]) && t in s'.pc && Inner(s'.pc[t])
    ensures Inv(s')
  {
    StepFrame(s, s', t);
    InnerMidway(s, s', t);
  }

  lemma InnerMidway(s: State, s': State, t: Tid)
    requires t != 0 && t in s.pc && t in s.nesting && Midway(s, t)
    requires Step(s, s', t) && Inner(s.pc[t]) && t in s'.pc && Inner(s'.pc[t])
    ensures s'.nesting == s.nesting && s'.ownerMutex == s.ownerMutex && Midway(s', t)
  {
    assert AllOut(s') <==> AllOut(s);
    assert OthersOut(s', t) <==> OthersOut(s, t);
  }

  lemma LeaveInv(s: State, s': State, t: Tid)
    requires Inv(s) && Step(s, s', t) && Inner(s.pc[t]) && t in s'.pc && !Inner(s'.pc[t])
    ensures Inv(s')
  {
    StepFrame(s, s', t);
    LeaveSettled(s, s', t);
  }

  lemma LeaveSettled(s: State, s': State, t: Tid)
    requires t in s.pc && t in s.nesting && Midway(s, t)
    requires Step(s, s', t) && t in s'.pc && !Inner(s'.pc[t])
    ensures s'.ownerMutex == None && Settled(s')
  {
    assert OthersOut(s', t);
    if s'.mainMutex == None {
      assert s'.nesting[t] == 0;
    }
  }

  /** Every state of every run is safe. */
  lemma {:induction false} RunInv(run: seq<State>, i: nat)
    requires Run(run) && Init(run[0]) && i < |run|
    ensures Inv(run[i])
    decreases i
  {
    if i == 0 {
      InitInv(run[0]);
    } else {
      RunInv(run, i - 1);
      var t :| Step(run[i - 1], run[i], t);
      StepInv(run[i - 1], run[i], t);
    }
  }

  /** A thread is inside from the return of its outermost `lock` to the return of its last `unlock`. */
  ghost predicate Inside(s: State, t: Tid) {
    t in s.nesting && s.nesting[t] > 0
  }

  /** At most one thread is inside; out of the inner section it is the owner, and `depth` is its nesting. */
  lemma MutualExclusion(run: seq<State>, i: nat, t: Tid, o: Tid)
    requires Run(run) && Init(run[0]) && i < |run|
    ensures Inside(run[i], t) && Inside(run[i], o) ==> t == o
    ensures run[i].ownerMutex == None ==> (Inside(run[i], t) <==> run[i].mainMutex == Some(t))
    ensures run[i].ownerMutex == None && Inside(run[i], t) ==>
              run[i].ownerId == t && run[i].depth == run[i].nesting[t]
  {
    RunInv(run, i);
  }

  // ---------------------------------------------------------------- progress

  ghost predicate CanStep(s: State, t: Tid) {
    exists s' :: Step(s, s', t)
  }

  /** The thread in the inner section is blocked exactly when it waits for a mutex another thread is inside of. */
  lemma BlockedIff(s: State, t: Tid)
    requires Inv(s) && s.ownerMutex == Some(t)
    ensures CanStep(s, t) <==> !(s.pc[t] == LockWaitMain && exists o :: o != t && Inside(s, o))
  {
    match s.pc[t] {
      case LockTest =>
        var s' := if s.ownerId == t then At(s, t, LockLeave).(depth := s.depth + 1) else At(s, t, LockWaitMain);
        assert Step(s, s', t);
      case LockWaitMain =>
        if s.mainMutex == None {
          assert Step(s, At(s, t, LockSet).(mainMutex := Some(t)), t);
        } else {
          assert Inside(s, s.mainMutex.value);
        }
      case LockSet =>
        assert Step(s, At(s, t, LockLeave).(ownerId := t, depth := 1), t);
      case LockLeave =>
        assert Step(s, At(s, t, Outside).(ownerMutex := None, nesting := s.nesting[t := s.nesting[t] + 1]), t);
      case UnlockDecrement =>
        assert Step(s, At(s, t, if s.depth == 1 then UnlockMain else UnlockLeave).(depth := s.depth - 1), t);
      case UnlockMain =>
        assert Step(s, At(s, t, UnlockClear).(mainMutex := None), t);
      case UnlockClear =>
        assert Step(s, At(s, t, UnlockLeave).(ownerId := 0), t);
      case UnlockLeave =>
        assert Step(s, At(s, t, Outside).(ownerMutex := None, nesting := s.nesting[t := s.nesting[t] - 1]), t);
    }
  }

  /** A run of one thread's steps. */
  ghost predicate OwnRun(run: seq<State>, t: Tid) {
    run != [] && forall i :: 0 < i < |run| ==> Step(run[i - 1], run[i], t)
  }

  lemma OneMore(run: seq<State>, s: State, t: Tid) returns (more: seq<State>)
    requires OwnRun(run, t) && Step(run[|run| - 1], s, t)
    ensures more == run + [s] && OwnRun(more, t)
  {
    more := run + [s];
    forall i | 0 < i < |more|
      ensures Step(more[i - 1], more[i], t)
    {
      if i < |run| {
        assert Step(run[i - 1], run[i], t);
      }
    }
  }

  /** With the owner mutex free, the thread inside gets through `unlock`, and lets go of the main mutex at the last. */
  lemma UnlockReturns(s: State, t: Tid) returns (run: seq<State>)
    requires Inv(s) && s.ownerMutex == None && Inside(s, t) && s.pc[t] == Outside
    ensures OwnRun(run, t) && Run(run) && run[0] == s
    ensures run[|run| - 1] ==
            if s.nesting[t] == 1 then s.(mainMutex := None, ownerId := 0, depth := 0, nesting := s.nesting[t := 0])
            else s.(depth := s.depth - 1, nesting := s.nesting[t := s.nesting[t] - 1])
  {
    run := OneMore([s], At(s, t, UnlockEnter), t);
    var s2 := At(s, t, UnlockDecrement).(ownerMutex := Some(t));
    run := OneMore(run, s2, t);
    var s3 := At(s2, t, if s.depth == 1 then UnlockMain else UnlockLeave).(depth := s.depth - 1);
    run := OneMore(run, s3, t);
    if s.depth == 1 {
      var s4 := At(s3, t, UnlockClear).(mainMutex := None);
      run := OneMore(run, s4, t);
      run := OneMore(run, At(s4, t, UnlockLeave).(ownerId := 0), t);
    }
    var end := At(run[|run| - 1], t, Outside).(ownerMutex := None, nesting := s.nesting[t := s.nesting[t] - 1]);
    run := OneMore(run, end, t);
    assert end.pc == s.pc;
    OwnRunRuns(run, t);
  }

  /** With the owner mutex free, a thread gets through `lock` if no other is inside. */
  lemma LockReturns(s: State, t: Tid) returns (run: seq<State>)
    requires Inv(s) && s.ownerMutex == None && t in s.pc && s.pc[t] == Outside
    requires forall o :: Inside(s, o) ==> o == t
    ensures OwnRun(run, t) && Run(run) && run[0] == s
    ensures run[|run| - 1] == s.(mainMutex := Some(t), ownerId := t, depth := s.depth + 1,
                                 nesting := s.nesting[t := s.nesting[t] + 1])
  {
    run := OneMore([s], At(s, t, LockEnter), t);
    var s2 := At(s, t, LockTest).(ownerMutex := Some(t));
    run := OneMore(run, s2, t);
    run := LockInner(run, s, s2, t);
    var end := At(run[|run| - 1], t, Outside).(ownerMutex := None, nesting := s.nesting[t := s.nesting[t] + 1]);
    run := OneMore(run, end, t);
    assert end.pc == s.pc;
    OwnRunRuns(run, t);
  }

  lemma LockInner(run: seq<State>, s: State, s2: State, t: Tid) returns (more: seq<State>)
    requires Inv(s) && s.ownerMutex == None && t in s.pc && forall o :: Inside(s, o) ==> o == t
    requires OwnRun(run, t) && run[|run| - 1] == s2 == At(s, t, LockTest).(ownerMutex := Some(t))
    ensures OwnRun(more, t) && more[0] == run[0]
    ensures more[|more| - 1] ==
            At(s, t, LockLeave).(ownerMutex := Some(t), mainMutex := Some(t), ownerId := t, depth := s.depth + 1)
  {
    if s.mainMutex.Some? {
      assert Inside(s, s.mainMutex.value);
      more := OneMore(run, At(s2, t, LockLeave).(depth := s.depth + 1), t);
    } else {
      var s3 := At(s2, t, LockWaitMain);
      more := OneMore(run, s3, t);
      var s4 := At(s3, t, LockSet).(mainMutex := Some(t));
      more := OneMore(more, s4, t);
      more := OneMore(more, At(s4, t, LockLeave).(ownerId := t, depth := 1), t);
    }
  }

  lemma OwnRunRuns(run: seq<State>, t: Tid)
    requires OwnRun(run, t)
    ensures Run(run)
  {
    forall i | 0 < i < |run|
      ensures Next(run[i - 1], run[i])
    {
      assert Step(run[i - 1], run[i], t);
    }
  }

  /** `t` waits for the main mutex while `h` holds it: `t` keeps the owner mutex that `h` needs to let go. */
  ghost predicate Stuck(s: State, t: Tid, h: Tid) {
    && t in s.pc && s.pc[t] == LockWaitMain && s.ownerMutex == Some(t)
    && s.mainMutex == Some(h) && h != t
  }

  /** From then on nothing changes hands: no call of `lock` or `unlock` ever returns again. */
  lemma {:induction false} StuckForever(run: seq<State>, i: nat, t: Tid, h: Tid)
    requires Run(run) && Inv(run[0]) && Stuck(run[0], t, h) && i < |run|
    ensures Inv(run[i]) && Stuck(run[i], t, h) && run[i].nesting == run[0].nesting
    decreases i
  {
    if i > 0 {
      StuckForever(run, i - 1, t, h);
      var o :| Step(run[i - 1], run[i], o);
      StepInv(run[i - 1], run[i], o);
      StuckStep(run[i - 1], run[i], o, t, h);
    }
  }

  lemma StuckStep(s: State, s': State, o: Tid, t: Tid, h: Tid)
    requires Inv(s) && Stuck(s, t, h) && Step(s, s', o)
    ensures Stuck(s', t, h) && s'.nesting == s.nesting
  {
    assert o != t && !Inner(s.pc[o]);
  }

  /** It takes no more than one thread calling `lock` while another is inside. */
  lemma ContentionSticks(s: State, t: Tid, h: Tid) returns (run: seq<State>)
    requires Inv(s) && s.ownerMutex == None && Inside(s, h)
    requires t in s.pc && t != h && s.pc[t] == Outside
    ensures Run(run) && run[0] == s && |run| == 4 && Stuck(run[3], t, h)
  {
    var s1 := At(s, t, LockEnter);
    var s2 := At(s1, t, LockTest).(ownerMutex := Some(t));
    var s3 := At(s2, t, LockWaitMain);
    assert Step(s, s1, t);
    assert Step(s1, s2, t);
    assert Step(s2, s3, t);
    run := [s, s1, s2, s3];
  }
}
