/**
 Keeping the explorer's picture of the transaction pool up to date, as a system of call frames.

 `poolChanged` may be called at any moment by any thread.  A three-valued atomic guard lets one
 update run at a time and remembers that another is wanted.  An update asks the node for the
 difference to its pool, then for the new transactions, then applies both.  Each of the three
 parts is a frame of its own: the call, the callback with the difference, and the callback with
 the transactions.  Each frame makes a scope handler, takes the mutex, and either hands the update
 over to the next callback and cancels its handler, or leaves in some other way; then its scope
 ends, the mutex is released, and a handler that was not cancelled ends the update, which may call
 `poolChanged` again from inside the handler.

 The node may call back on a thread of its own, before or after the caller has cancelled its
 handler, or on the caller's thread, from inside the request.  A step is one atomic access to the
 guard, one operation on the mutex or on a handler, one locked section or one answer of the node,
 so runs interleave frames freely.
 */
module PoolUpdate {
  import opened Bytes
  import opened PoolView

  datatype Guard = Free | Updating | UpdateRequired

  /** What a frame does under the mutex.  `snapshot` is the pool the node answered from at time `at`. */
  datatype Job =
    | Ask
    | Compare(added: seq<Hash>, removed: seq<Hash>, snapshot: set<Hash>, at: nat)
    | Store(txs: seq<TransactionDetails>, gone: seq<Hash>, snapshot: set<Hash>, at: nat)

  /** Where a frame is.  `since` is when the call passed the two flags. */
  datatype Pc =
    // poolChanged, up to the answer of beginUpdate
    | Entering(rerun: bool)
    | BeginLoad(since: nat)
    | BeginLoop(since: nat, observed: Guard)
    // a callback the node has yet to make
    | AwaitingDifference(sent: set<Hash>)
    | AwaitingTransactions(wanted: seq<Hash>, gone: seq<Hash>, snapshot: set<Hash>, at: nat)
    // the scope of a handler: before it is made, waiting for the mutex, holding it
    | Opening(job: Job)
    | Failing
    | Locking(job: Job)
    | Holding(job: Job)
    // inside a request that calls back on this thread; back from the request; at the end of the scope
    | InNode(callee: nat)
    | HandedOver
    | Leaving
    | Closing
    // the handler: endUpdate, and the call of poolChanged it may make
    | EndLoad
    | EndLoop(observed: Guard)
    | InHandler(callee: nat)
    | Done

  /**
   A frame, the frame beneath it on its thread, whether its handler is made and not cancelled, and the
   number of the update it works for.
   */
  datatype Frame = Frame(pc: Pc, caller: Option<nat>, armed: bool, update: nat)

  /**
   The program's state (`guard`, the frame holding the mutex, `known`, `frames`), the node's pool, and a
   record of the run: the time, when a call last passed the flags, an update last began, a re-run was
   last dropped by the flags, an update was last applied and the pool last changed; how many updates
   have begun, and the numbers of those whose handler has fired and of those that have ended.
   */
  datatype State = State(
    guard: Guard, mutex: Option<nat>, known: map<Hash, TransactionDetails>, frames: seq<Frame>, pool: set<Hash>,
    now: nat, passed: nat, begun: nat, dropped: nat, applied: nat, changed: nat,
    begins: nat, fired: seq<nat>, ended: seq<nat>)

  datatype Step =
    | PoolChange(pool: set<Hash>)
    | Notify
    | Flags(t: nat, on: bool)
    | Load(t: nat)
    | Iterate(t: nat, swapped: bool)
    | Arm(t: nat)
    | Acquire(t: nat)
    | HandOver(t: nat, sameThread: bool)
    | Throw(t: nat)
    | StoreAll(t: nat)
    | AnswerDifference(t: nat, added: seq<Hash>, removed: seq<Hash>)
    | AnswerTransactions(t: nat, txs: seq<TransactionDetails>)
    | AnswerError(t: nat)
    | NodeReturns(t: nat)
    | Reset(t: nat)
    | Release(t: nat)
    | ScopeExit(t: nat)
    | HandlerReturns(t: nat)

  predicate HasFrame(step: Step) {
    !step.PoolChange? && !step.Notify?
  }

  predicate IsDone(s: State, t: nat) {
    t < |s.frames| && s.frames[t].pc.Done?
  }

  /**
   The node answers truthfully.  A compare-and-exchange swaps only if it finds what it expects, and may
   fail to swap all the same.  The mutex is not recursive.  A re-run is called from a destructor, which
   lets no exception out: one thrown there ends the process, so no run goes on from it.
   */
  predicate Enabled(s: State, step: Step) {
    && (HasFrame(step) ==> step.t < |s.frames|)
    && match step
       case PoolChange(_) => true
       case Notify => true
       case Flags(t, _) => s.frames[t].pc.Entering?
       case Load(t) => s.frames[t].pc.BeginLoad? || s.frames[t].pc.EndLoad?
       case Iterate(t, swapped) =>
         var pc := s.frames[t].pc;
         && (pc.BeginLoop? || pc.EndLoop?)
         && (swapped ==> pc.observed == s.guard && !(pc.BeginLoop? && pc.observed == UpdateRequired))
       case Arm(t) => s.frames[t].pc.Opening? || s.frames[t].pc.Failing?
       case Acquire(t) => s.frames[t].pc.Locking? && s.mutex == None
       case HandOver(t, _) => s.frames[t].pc.Holding? && !s.frames[t].pc.job.Store?
       case Throw(t) => s.frames[t].pc.Holding? && !(s.frames[t].pc.job.Ask? && s.frames[t].caller.Some?)
       case StoreAll(t) => s.frames[t].pc.Holding? && s.frames[t].pc.job.Store?
       case AnswerDifference(t, added, removed) =>
         && s.frames[t].pc.AwaitingDifference?
         && ToSet(added) == s.pool - s.frames[t].pc.sent && ToSet(removed) == s.frames[t].pc.sent - s.pool
       case AnswerTransactions(t, txs) =>
         s.frames[t].pc.AwaitingTransactions? && HashesOf(txs) == ToSet(s.frames[t].pc.wanted)
       case AnswerError(t) => s.frames[t].pc.AwaitingDifference? || s.frames[t].pc.AwaitingTransactions?
       case NodeReturns(t) => s.frames[t].pc.InNode? && IsDone(s, s.frames[t].pc.callee)
       case Reset(t) => s.frames[t].pc.HandedOver?
       case Release(t) => s.frames[t].pc.Leaving?
       case ScopeExit(t) => s.frames[t].pc.Closing?
       case HandlerReturns(t) => s.frames[t].pc.InHandler? && IsDone(s, s.frames[t].pc.callee)
  }

  function Moved(s: State, t: nat, pc: Pc): State
    requires t < |s.frames|
  {
    s.(frames := s.frames[t := s.frames[t].(pc := pc)])
  }

  /** One turn of the loop of `beginUpdate`. */
  function BeginTurn(s: State, t: nat, swapped: bool): State
    requires Enabled(s, Iterate(t, swapped)) && s.frames[t].pc.BeginLoop?
  {
    var pc := s.frames[t].pc;
    if pc.observed == UpdateRequired then
      Moved(s, t, Done)
    else if !swapped then
      Moved(s, t, BeginLoop(pc.since, s.guard))
    else if pc.observed == Free then
      s.(guard := Updating, begun := s.now, begins := s.begins + 1,
         frames := s.frames[t := s.frames[t].(pc := Opening(Ask), update := s.begins)])
    else
      Moved(s, t, Done).(guard := UpdateRequired)
  }

  /** One turn of the loop of `endUpdate`, and the re-run it may cause. */
  function EndTurn(s: State, t: nat, swapped: bool): State
    requires Enabled(s, Iterate(t, swapped)) && s.frames[t].pc.EndLoop?
  {
    if !swapped then
      Moved(s, t, EndLoop(s.guard))
    else
      var s' := s.(guard := Free, ended := s.ended + [s.frames[t].update]);
      if s.frames[t].pc.observed == UpdateRequired then
        Called(s', t, InHandler(|s.frames|), Frame(Entering(true), Some(t), false, 0))
      else
        Moved(s', t, Done)
  }

  /** Frame `t` goes on to `pc`, and a new frame appears. */
  function Called(s: State, t: nat, pc: Pc, callee: Frame): State
    requires t < |s.frames|
  {
    s.(frames := Moved(s, t, pc).frames + [callee])
  }

  /** The callback that a request under the mutex leads to. */
  function Callback(s: State, job: Job): Pc
    requires !job.Store?
  {
    if job.Ask? then AwaitingDifference(s.known.Keys)
    else
      AwaitingTransactions(Select(s.known, job.added, false), Select(s.known, job.removed, true), job.snapshot, job.at)
  }

  function Effect(s: State, step: Step): State
    requires Enabled(s, step)
  {
    match step
    case PoolChange(pool) => s.(pool := pool, changed := s.now)
    case Notify => s.(frames := s.frames + [Frame(Entering(false), None, false, 0)])
    case Flags(t, on) =>
      if on then Moved(s, t, BeginLoad(s.now)).(passed := s.now)
      else if s.frames[t].pc.rerun then Moved(s, t, Done).(dropped := s.now)
      else Moved(s, t, Done)
    case Load(t) =>
      Moved(s, t, if s.frames[t].pc.BeginLoad? then BeginLoop(s.frames[t].pc.since, s.guard) else EndLoop(s.guard))
    case Iterate(t, swapped) =>
      if s.frames[t].pc.BeginLoop? then BeginTurn(s, t, swapped) else EndTurn(s, t, swapped)
    case Arm(t) =>
      var pc := if s.frames[t].pc.Opening? then Locking(s.frames[t].pc.job) else Leaving;
      s.(frames := s.frames[t := s.frames[t].(pc := pc, armed := true)])
    case Acquire(t) => Moved(s, t, Holding(s.frames[t].pc.job)).(mutex := Some(t))
    case HandOver(t, sameThread) =>
      var pc := Callback(s, s.frames[t].pc.job);
      var update := s.frames[t].update;
      if sameThread then Called(s, t, InNode(|s.frames|), Frame(pc, Some(t), false, update))
      else Called(s, t, HandedOver, Frame(pc, None, false, update))
    case Throw(t) => Moved(s, t, Leaving)
    case StoreAll(t) =>
      var job := s.frames[t].pc.job;
      Moved(s, t, Leaving).(known := Insert(s.known, job.txs) - ToSet(job.gone), applied := s.now)
    case AnswerDifference(t, added, removed) => Moved(s, t, Opening(Compare(added, removed, s.pool, s.now)))
    case AnswerTransactions(t, txs) =>
      var pc := s.frames[t].pc;
      Moved(s, t, Opening(Store(txs, pc.gone, pc.snapshot, pc.at)))
    case AnswerError(t) => Moved(s, t, Failing)
    case NodeReturns(t) => Moved(s, t, HandedOver)
    case Reset(t) => s.(frames := s.frames[t := s.frames[t].(pc := Leaving, armed := false)])
    case Release(t) => Moved(s, t, Closing).(mutex := if s.mutex == Some(t) then None else s.mutex)
    case ScopeExit(t) =>
      if s.frames[t].armed then Moved(s, t, EndLoad).(fired := s.fired + [s.frames[t].update])
      else Moved(s, t, Done)
    case HandlerReturns(t) => Moved(s, t, Done)
  }

  function Apply(s: State, step: Step): State
    requires Enabled(s, step)
  {
    Effect(s, step).(now := s.now + 1)
  }

  predicate IsInitial(s: State) {
    && s.guard == Free && s.mutex == None && s.known == map[] && s.frames == []
    && s.now == 1 && s.passed == s.begun == s.dropped == s.applied == s.changed == 0
    && s.begins == 0 && s.fired == s.ended == []
  }

  ghost predicate IsRun(states: seq<State>, steps: seq<Step>) {
    && |states| == |steps| + 1 && IsInitial(states[0])
    && forall i :: 0 <= i < |steps| ==> Enabled(states[i], steps[i]) && states[i + 1] == Apply(states[i], steps[i])
  }

  /** The guard object; each turn of its loops is one step of a frame. */
  class PoolUpdateGuard {
    var state: Guard

    constructor ()
      ensures state == Free
    {
      state := Free;
    }

    method CompareExchangeWeak(expected: Guard, desired: Guard) returns (swapped: bool, found: Guard)
      modifies this
      ensures found == old(state)
      ensures swapped ==> old(state) == expected && state == desired
      ensures !swapped ==> state == old(state)
    {
      found := state;
      swapped := *;
      if state != expected {
        swapped := false;
      }
      if swapped {
        state := desired;
      }
    }

    /** One turn of `beginUpdate`; no answer means another turn with what was found. */
    method BeginIteration(observed: Guard, ghost s: State, ghost t: nat)
      returns (answer: Option<bool>, found: Guard, ghost swapped: bool)
      requires t < |s.frames| && s.frames[t].pc.BeginLoop? && s.frames[t].pc.observed == observed && s.guard == state
      modifies this
      ensures Enabled(s, Iterate(t, swapped)) && state == BeginTurn(s, t, swapped).guard
      ensures BeginTurn(s, t, swapped).frames[t].pc == match answer
        case None => BeginLoop(s.frames[t].pc.since, found)
        case Some(b) => if b then Opening(Ask) else Done
    {
      answer, found, swapped := None, observed, false;
      var ok: bool;
      match observed {
        case Free =>
          ok, found := CompareExchangeWeak(observed, Updating);
          swapped := ok;
          if ok {
            answer := Some(true);
          }
        case Updating =>
          ok, found := CompareExchangeWeak(observed, UpdateRequired);
          swapped := ok;
          if ok {
            answer := Some(false);
          }
        case UpdateRequired =>
          answer := Some(false);
      }
    }

    /** One turn of `endUpdate`; the answer says whether `poolChanged` is called again. */
    method EndIteration(observed: Guard, ghost s: State, ghost t: nat)
      returns (answer: Option<bool>, found: Guard, ghost swapped: bool)
      requires t < |s.frames| && s.frames[t].pc == EndLoop(observed) && s.guard == state
      modifies this
      ensures Enabled(s, Iterate(t, swapped)) && state == EndTurn(s, t, swapped).guard
      ensures EndTurn(s, t, swapped).frames[t].pc == match answer
        case None => EndLoop(found)
        case Some(b) => if b then InHandler(|s.frames|) else Done
    {
      var ok: bool;
      ok, found := CompareExchangeWeak(observed, Free);
      swapped := ok;
      answer := if ok then Some(found == UpdateRequired) else None;
    }
  }

  /** A handler: whoever leaves its scope without having cancelled it makes it fire. */
  class ScopeExitHandler {
    var cancelled: bool

    constructor ()
      ensures !cancelled
    {
      cancelled := false;
    }

    method Reset()
      modifies this
      ensures cancelled
    {
      cancelled := true;
    }

    /** The end of the scope of frame `t`, whose handler this is. */
    method Destroy(ghost s: State, ghost t: nat) returns (fires: bool)
      requires Enabled(s, ScopeExit(t)) && cancelled == !s.frames[t].armed
      ensures Effect(s, ScopeExit(t)).frames[t].pc == if fires then EndLoad else Done
      ensures Effect(s, ScopeExit(t)).fired == s.fired + if fires then [s.frames[t].update] else []
    {
      fires := !cancelled;
    }
  }

  //////////////////////////////////////////////////////////////////////////////
  // Stacks and the mutex
  //////////////////////////////////////////////////////////////////////////////

  /** A frame with a callee waits for it, and the callee knows its caller. */
  ghost predicate Suspended(s: State, t: nat, c: nat)
    requires t < |s.frames|
  {
    s.frames[t].pc == InNode(c) || s.frames[t].pc == InHandler(c)
  }

  ghost predicate IsNested(s: State, c: nat)
    requires c < |s.frames|
  {
    s.frames[c].caller.Some? ==>
      && s.frames[c].caller.value < c
      && (s.frames[c].pc.Done? || Suspended(s, s.frames[c].caller.value, c))
  }

  predicate HoldsMutex(pc: Pc) {
    pc.Holding? || pc.InNode? || pc.HandedOver?
  }

  predicate IsArmed(pc: Pc) {
    pc.Locking? || pc.Holding? || pc.InNode? || pc.HandedOver? || pc.EndLoad? || pc.EndLoop? || pc.InHandler?
  }

  predicate NotArmedYet(pc: Pc) {
    || pc.Entering? || pc.BeginLoad? || pc.BeginLoop?
    || pc.AwaitingDifference? || pc.AwaitingTransactions? || pc.Opening? || pc.Failing?
  }

  ghost predicate FrameOk(s: State, t: nat)
    requires t < |s.frames|
  {
    var f := s.frames[t];
    && IsNested(s, t)
    && (HoldsMutex(f.pc) ==> s.mutex == Some(t))
    && (s.mutex == Some(t) ==> HoldsMutex(f.pc) || f.pc.Leaving?)
    && (IsArmed(f.pc) ==> f.armed) && (NotArmedYet(f.pc) ==> !f.armed)
    && (f.pc.InNode? || f.pc.InHandler? ==> f.pc.callee < |s.frames| && s.frames[f.pc.callee].caller == Some(t))
  }

  /** Every frame is where its caller and the mutex say it is. */
  ghost predicate Stacked(s: State) {
    && (forall t :: 0 <= t < |s.frames| ==> FrameOk(s, t))
    && (s.mutex.Some? ==> s.mutex.value < |s.frames|)
  }

  /** A step touches its own frame and may add one; callers never change. */
  lemma OthersKept(s: State, step: Step)
    requires Enabled(s, step)
    ensures HasFrame(step) ==> step.t < |s.frames|
    ensures var s' := Apply(s, step);
      && |s.frames| <= |s'.frames| <= |s.frames| + 1
      && (forall u :: 0 <= u < |s.frames| && !(HasFrame(step) && u == step.t) ==> s'.frames[u] == s.frames[u])
      && (forall u :: 0 <= u < |s.frames| ==> s'.frames[u].caller == s.frames[u].caller)
  {
  }

  /** What a step of frame `t` does to its place on the stack, its hold on the mutex and its handler. */
  ghost predicate StackStep(s: State, s': State, t: nat)
    requires t < |s.frames| <= |s'.frames|
  {
    var f, f' := s.frames[t], s'.frames[t];
    && (f.pc.InNode? || f.pc.InHandler? ==> IsDone(s, f.pc.callee))
    && !f.pc.Done?
    && (s'.mutex == s.mutex || (s.mutex == Some(t) && s'.mutex == None) || (s.mutex == None && s'.mutex == Some(t)))
    && (HoldsMutex(f'.pc) ==> s'.mutex == Some(t))
    && (s'.mutex == Some(t) ==> HoldsMutex(f'.pc) || f'.pc.Leaving?)
    && (IsArmed(f'.pc) ==> f'.armed) && (NotArmedYet(f'.pc) ==> !f'.armed)
    && (f'.pc.InNode? || f'.pc.InHandler? ==>
          f'.pc.callee == |s.frames| < |s'.frames| && s'.frames[|s.frames|].caller == Some(t))
    && (|s.frames| < |s'.frames| ==>
          && NotArmedYet(s'.frames[|s.frames|].pc) && !s'.frames[|s.frames|].armed
          && (|| s'.frames[|s.frames|].caller == None
              || (s'.frames[|s.frames|].caller == Some(t) && Suspended(s', t, |s.frames|))))
  }

  lemma StackTurned(s: State, t: nat, swapped: bool)
    requires Enabled(s, Iterate(t, swapped)) && FrameOk(s, t)
    ensures |s.frames| <= |Apply(s, Iterate(t, swapped)).frames| && StackStep(s, Apply(s, Iterate(t, swapped)), t)
  {
  }

  lemma StackHandedOver(s: State, t: nat, sameThread: bool)
    requires Enabled(s, HandOver(t, sameThread)) && FrameOk(s, t)
    ensures |s.frames| <= |Apply(s, HandOver(t, sameThread)).frames| && StackStep(s, Apply(s, HandOver(t, sameThread)), t)
  {
  }

  /** The steps that make or cancel a handler, or take or release the mutex. */
  predicate TakesOrLeaves(step: Step) {
    step.Arm? || step.Acquire? || step.NodeReturns? || step.Reset? || step.Release? || step.ScopeExit?
  }

  lemma StackTaken(s: State, step: Step)
    requires Enabled(s, step) && TakesOrLeaves(step) && FrameOk(s, step.t)
    ensures |s.frames| <= |Apply(s, step).frames| && StackStep(s, Apply(s, step), step.t)
  {
  }

  lemma StackMoved(s: State, step: Step)
    requires Enabled(s, step) && HasFrame(step) && FrameOk(s, step.t)
    requires !step.Iterate? && !step.HandOver? && !TakesOrLeaves(step)
    ensures |s.frames| <= |Apply(s, step).frames| && StackStep(s, Apply(s, step), step.t)
  {
  }

  lemma StackStepped(s: State, step: Step)
    requires Enabled(s, step) && HasFrame(step) && FrameOk(s, step.t)
    ensures |s.frames| <= |Apply(s, step).frames| && StackStep(s, Apply(s, step), step.t)
  {
    if step.Iterate? {
      hide Enabled, Effect, FrameOk, StackStep;
      StackTurned(s, step.t, step.swapped);
    } else if step.HandOver? {
      hide Enabled, Effect, FrameOk, StackStep;
      StackHandedOver(s, step.t, step.sameThread);
    } else if TakesOrLeaves(step) {
      hide Enabled, Effect, FrameOk, StackStep;
      StackTaken(s, step);
    } else {
      hide Enabled, Effect, FrameOk, StackStep;
      StackMoved(s, step);
    }
  }

  lemma FrameKept(s: State, s': State, t: nat, u: nat)
    requires t < |s.frames| <= |s'.frames| <= |s.frames| + 1 && u < |s.frames|
    requires FrameOk(s, t) && FrameOk(s, u) && StackStep(s, s', t)
    requires forall v :: 0 <= v < |s.frames| && v != t ==> s'.frames[v] == s.frames[v]
    requires forall v :: 0 <= v < |s.frames| ==> s'.frames[v].caller == s.frames[v].caller
    ensures FrameOk(s', u)
  {
    assert s.frames[u].caller == Some(t) ==> s.frames[u].pc.Done?;
  }

  lemma StackedStep(s: State, step: Step)
    requires Stacked(s) && Enabled(s, step)
    ensures Stacked(Apply(s, step))
  {
    hide FrameOk, Enabled, Effect;
    var s' := Apply(s, step);
    OthersKept(s, step);
    if HasFrame(step) {
      StackStepped(s, step);
      forall u | 0 <= u < |s'.frames| ensures FrameOk(s', u) {
        if u < |s.frames| {
          FrameKept(s, s', step.t, u);
        } else {
          NewFrameOk(s, s', step.t);
        }
      }
    } else {
      ArrivalKept(s, step);
    }
  }

  lemma NewFrameOk(s: State, s': State, t: nat)
    requires t < |s.frames| < |s'.frames| && StackStep(s, s', t)
    requires s.mutex.Some? ==> s.mutex.value < |s.frames|
    ensures FrameOk(s', |s.frames|)
  {
  }

  lemma ArrivalKept(s: State, step: Step)
    requires Stacked(s) && Enabled(s, step) && !HasFrame(step)
    ensures Stacked(Apply(s, step))
  {
    var s' := Apply(s, step);
    forall u | 0 <= u < |s'.frames| ensures FrameOk(s', u) {
      if u < |s.frames| {
        assert FrameOk(s, u);
      }
    }
  }

  //////////////////////////////////////////////////////////////////////////////
  // One update at a time, ended by exactly one handler
  //////////////////////////////////////////////////////////////////////////////

  /** The frame has the update on its hands: it has yet to hand it over or to end it. */
  predicate Responsible(f: Frame) {
    match f.pc
    case AwaitingDifference(_) => true
    case AwaitingTransactions(_, _, _, _) => true
    case Opening(_) => true
    case Failing => true
    case Locking(_) => true
    case Holding(_) => true
    case Leaving => f.armed
    case Closing => f.armed
    case EndLoad => true
    case EndLoop(_) => true
    case _ => false
  }

  predicate IsEnding(pc: Pc) {
    pc.EndLoad? || pc.EndLoop?
  }

  /** Each number once, in order. */
  ghost predicate InOrder(q: seq<nat>) {
    forall k :: 0 <= k < |q| ==> q[k] == k
  }

  ghost predicate OneAtMost(s: State) {
    && (s.guard == Free ==> forall t :: 0 <= t < |s.frames| ==> !Responsible(s.frames[t]))
    && (s.guard != Free ==> exists t :: 0 <= t < |s.frames| && Responsible(s.frames[t]))
    && (forall t, u :: 0 <= t < |s.frames| && 0 <= u < |s.frames| && Responsible(s.frames[t]) && Responsible(s.frames[u]) ==>
          t == u)
    && (forall t :: 0 <= t < |s.frames| && s.frames[t].pc.EndLoop? ==> s.frames[t].pc.observed != Free)
  }

  ghost predicate Logged(s: State) {
    && InOrder(s.fired) && InOrder(s.ended)
    && s.begins == |s.ended| + (if s.guard == Free then 0 else 1)
    && (s.guard == Free ==> |s.fired| == s.begins)
    && (forall t :: 0 <= t < |s.frames| && Responsible(s.frames[t]) ==>
          s.frames[t].update + 1 == s.begins == |s.fired| + (if IsEnding(s.frames[t].pc) then 0 else 1))
  }

  /** The guard is taken exactly while one frame is responsible for an update, and all others have been ended once. */
  ghost predicate Exclusive(s: State) {
    OneAtMost(s) && Logged(s)
  }

  datatype Passing = Kept | Passed | Begun | Ended

  /** What a step of frame `t` does with the responsibility for the update. */
  ghost predicate TokenStep(s: State, s': State, t: nat, p: Passing)
    requires t < |s.frames| <= |s'.frames|
  {
    var f, f' := s.frames[t], s'.frames[t];
    var added := |s.frames| < |s'.frames|;
    && (f'.pc.EndLoop? ==> f'.pc == f.pc || (Responsible(f) && f'.pc.observed == s.guard))
    && (added ==> !s'.frames[|s.frames|].pc.EndLoop? && (p == Passed || !Responsible(s'.frames[|s.frames|])))
    && match p
       case Kept =>
         && (s'.guard == s.guard || (s.guard == Updating && s'.guard == UpdateRequired))
         && Responsible(f) == Responsible(f') && f'.update == f.update
         && s'.begins == s.begins && s'.ended == s.ended
         && (if Responsible(f) && !IsEnding(f.pc) && IsEnding(f'.pc) then s'.fired == s.fired + [f.update]
             else s'.fired == s.fired && (Responsible(f) ==> IsEnding(f'.pc) == IsEnding(f.pc)))
       case Passed =>
         && s'.guard == s.guard && Responsible(f) && !Responsible(f') && !IsEnding(f.pc)
         && s'.begins == s.begins && s'.ended == s.ended && s'.fired == s.fired
         && added && Responsible(s'.frames[|s.frames|])
         && s'.frames[|s.frames|].update == f.update && !IsEnding(s'.frames[|s.frames|].pc)
       case Begun =>
         && s.guard == Free && s'.guard == Updating && !Responsible(f) && Responsible(f') && !IsEnding(f'.pc)
         && f'.update == s.begins && s'.begins == s.begins + 1 && s'.ended == s.ended && s'.fired == s.fired
       case Ended =>
         && s'.guard == Free && Responsible(f) && !Responsible(f') && IsEnding(f.pc)
         && s'.begins == s.begins && s'.fired == s.fired && s'.ended == s.ended + [f.update]
  }

  function PassingOf(s: State, step: Step): Passing
    requires Enabled(s, step)
  {
    if step.HandOver? then Passed
    else if step.Iterate? && step.swapped && s.frames[step.t].pc.EndLoop? then Ended
    else if step.Iterate? && step.swapped && s.guard == Free then Begun
    else Kept
  }

  lemma TokenTurned(s: State, t: nat, swapped: bool)
    requires Enabled(s, Iterate(t, swapped))
    ensures var step := Iterate(t, swapped);
      |s.frames| <= |Apply(s, step).frames| && TokenStep(s, Apply(s, step), t, PassingOf(s, step))
  {
  }

  lemma TokenHandedOver(s: State, t: nat, sameThread: bool)
    requires Enabled(s, HandOver(t, sameThread))
    ensures |s.frames| <= |Apply(s, HandOver(t, sameThread)).frames|
    ensures TokenStep(s, Apply(s, HandOver(t, sameThread)), t, Passed)
  {
  }

  lemma TokenTaken(s: State, step: Step)
    requires Enabled(s, step) && TakesOrLeaves(step) && FrameOk(s, step.t)
    ensures |s.frames| <= |Apply(s, step).frames| && TokenStep(s, Apply(s, step), step.t, Kept)
  {
    hide IsNested;
  }

  lemma TokenMoved(s: State, step: Step)
    requires Enabled(s, step) && HasFrame(step) && FrameOk(s, step.t)
    requires !step.Iterate? && !step.HandOver? && !TakesOrLeaves(step)
    ensures |s.frames| <= |Apply(s, step).frames| && TokenStep(s, Apply(s, step), step.t, Kept)
  {
    hide IsNested;
  }

  lemma TokenStepped(s: State, step: Step)
    requires Enabled(s, step) && HasFrame(step) && FrameOk(s, step.t)
    ensures |s.frames| <= |Apply(s, step).frames| && TokenStep(s, Apply(s, step), step.t, PassingOf(s, step))
  {
    hide Enabled, Effect, FrameOk, TokenStep;
    if step.Iterate? {
      TokenTurned(s, step.t, step.swapped);
    } else if step.HandOver? {
      TokenHandedOver(s, step.t, step.sameThread);
    } else if TakesOrLeaves(step) {
      TokenTaken(s, step);
    } else {
      TokenMoved(s, step);
    }
  }

  lemma OneAtMostKept(s: State, s': State, t: nat, p: Passing)
    requires OneAtMost(s) && t < |s.frames| <= |s'.frames| <= |s.frames| + 1 && TokenStep(s, s', t, p)
    requires forall v :: 0 <= v < |s.frames| && v != t ==> s'.frames[v] == s.frames[v]
    ensures OneAtMost(s')
  {
    hide Responsible, IsEnding;
    match p {
      case Kept =>
        if s.guard != Free {
          var u :| 0 <= u < |s.frames| && Responsible(s.frames[u]);
          assert Responsible(s'.frames[u]);
        }
      case Passed => assert Responsible(s'.frames[|s.frames|]);
      case Begun => assert Responsible(s'.frames[t]);
      case Ended =>
    }
  }

  lemma LoggedKept(s: State, s': State, t: nat, p: Passing)
    requires OneAtMost(s) && Logged(s) && t < |s.frames| <= |s'.frames| <= |s.frames| + 1 && TokenStep(s, s', t, p)
    requires forall v :: 0 <= v < |s.frames| && v != t ==> s'.frames[v] == s.frames[v]
    ensures Logged(s')
  {
    hide Responsible, IsEnding;
  }

  lemma ExclusiveStep(s: State, step: Step)
    requires Stacked(s) && Exclusive(s) && Enabled(s, step)
    ensures Exclusive(Apply(s, step))
  {
    hide Effect, FrameOk, TokenStep, OneAtMost, Logged;
    if HasFrame(step) {
      var s' := Apply(s, step);
      OthersKept(s, step);
      TokenStepped(s, step);
      OneAtMostKept(s, s', step.t, PassingOf(s, step));
      LoggedKept(s, s', step.t, PassingOf(s, step));
    } else {
      ExclusiveArrival(s, step);
    }
  }

  lemma ExclusiveArrival(s: State, step: Step)
    requires OneAtMost(s) && Logged(s) && Enabled(s, step) && !HasFrame(step)
    ensures OneAtMost(Apply(s, step)) && Logged(Apply(s, step))
  {
    if s.guard != Free {
      var u :| 0 <= u < |s.frames| && Responsible(s.frames[u]);
      assert Responsible(Apply(s, step).frames[u]);
    }
  }

  //////////////////////////////////////////////////////////////////////////////
  // No notification is lost
  //////////////////////////////////////////////////////////////////////////////

  /**
   Since `time` an update has begun or a re-run was dropped by the flags; or else one of these is
   still to come, because the guard demands it or because a frame is on its way to a free guard.
   */
  ghost predicate Owed(s: State, time: nat) {
    || s.begun > time || s.dropped > time
    || s.guard == UpdateRequired
    || (s.guard == Free && exists t :: 0 <= t < |s.frames| && OnItsWay(s.frames[t].pc))
  }

  predicate OnItsWay(pc: Pc) {
    (pc.Entering? && pc.rerun) || pc.BeginLoad? || (pc.BeginLoop? && pc.observed == Free)
  }

  lemma OwedTurned(s: State, t: nat, swapped: bool, time: nat)
    requires Owed(s, time) && Enabled(s, Iterate(t, swapped)) && time < s.now
    ensures Owed(Apply(s, Iterate(t, swapped)), time)
  {
    var s' := Apply(s, Iterate(t, swapped));
    if s.begun > time || s.dropped > time {
    } else if s.guard == UpdateRequired {
      assert s'.guard != UpdateRequired ==> OnItsWay(s'.frames[|s.frames|].pc);
    } else {
      var u :| 0 <= u < |s.frames| && OnItsWay(s.frames[u].pc);
      assert s'.begun > time || OnItsWay(s'.frames[u].pc);
    }
  }

  /** Apart from turns of the loops, a step leaves the guard alone. */
  lemma GuardKept(s: State, step: Step)
    requires Enabled(s, step) && !step.Iterate?
    ensures Apply(s, step).guard == s.guard && Apply(s, step).begun == s.begun
    ensures Apply(s, step).dropped == s.dropped || Apply(s, step).dropped == s.now
    ensures HasFrame(step) && OnItsWay(s.frames[step.t].pc) ==>
      Apply(s, step).dropped == s.now || s.guard != Free || OnItsWay(Apply(s, step).frames[step.t].pc)
  {
  }

  lemma OwedStep(s: State, step: Step, time: nat)
    requires Owed(s, time) && Enabled(s, step) && time < s.now
    ensures Owed(Apply(s, step), time)
  {
    hide Enabled, Effect;
    if step.Iterate? {
      OwedTurned(s, step.t, step.swapped, time);
    } else {
      var s' := Apply(s, step);
      OthersKept(s, step);
      GuardKept(s, step);
      if s.begun <= time && s.dropped <= time && s.guard == Free {
        var u :| 0 <= u < |s.frames| && OnItsWay(s.frames[u].pc);
        assert s'.dropped > time || OnItsWay(s'.frames[u].pc);
      }
    }
  }

  predicate IsBeginning(pc: Pc, since: nat) {
    (pc.BeginLoad? || pc.BeginLoop?) && pc.since == since
  }

  ghost predicate DemandSeen(s: State) {
    && (forall t :: 0 <= t < |s.frames| && (s.frames[t].pc.BeginLoad? || s.frames[t].pc.BeginLoop?) ==>
          s.frames[t].pc.since < s.now)
    && (forall t :: 0 <= t < |s.frames| && s.frames[t].pc.BeginLoop? && s.frames[t].pc.observed == UpdateRequired ==>
          Owed(s, s.frames[t].pc.since))
  }

  ghost predicate CallRemembered(s: State) {
    && s.passed < s.now
    && (s.passed == 0 || Owed(s, s.passed) || exists t :: 0 <= t < |s.frames| && IsBeginning(s.frames[t].pc, s.passed))
  }

  ghost predicate Remembered(s: State) {
    DemandSeen(s) && CallRemembered(s)
  }

  /** Where a frame of `beginUpdate` comes from; one that sees the demand saw it before, or the demand stands now. */
  lemma BeginStep(s: State, step: Step)
    requires Enabled(s, step)
    ensures Apply(s, step).now == s.now + 1
    ensures |s.frames| < |Apply(s, step).frames| ==>
      !Apply(s, step).frames[|s.frames|].pc.BeginLoad? && !Apply(s, step).frames[|s.frames|].pc.BeginLoop?
    ensures HasFrame(step) ==>
      var pc, pc' := s.frames[step.t].pc, Apply(s, step).frames[step.t].pc;
      && (pc'.BeginLoad? ==> pc'.since == s.now)
      && (pc'.BeginLoop? ==> (pc.BeginLoad? || pc.BeginLoop?) && pc'.since == pc.since)
      && (pc'.BeginLoop? && pc'.observed == UpdateRequired ==> Apply(s, step).guard == UpdateRequired)
  {
  }

  lemma DemandSeenStep(s: State, step: Step)
    requires DemandSeen(s) && Enabled(s, step)
    ensures DemandSeen(Apply(s, step))
  {
    hide Effect, Enabled;
    var s' := Apply(s, step);
    OthersKept(s, step);
    BeginStep(s, step);
    forall t | 0 <= t < |s'.frames| && s'.frames[t].pc.BeginLoop? && s'.frames[t].pc.observed == UpdateRequired
      ensures Owed(s', s'.frames[t].pc.since)
    {
      if !HasFrame(step) || t != step.t {
        OwedStep(s, step, s.frames[t].pc.since);
      }
    }
  }

  /** How a call that is beginning goes on: it stays there, or an update begins, or the demand stands. */
  lemma BeginningStep(s: State, step: Step)
    requires DemandSeen(s) && Enabled(s, step) && HasFrame(step)
    requires IsBeginning(s.frames[step.t].pc, s.passed) && Apply(s, step).passed == s.passed < s.now
    ensures IsBeginning(Apply(s, step).frames[step.t].pc, s.passed) || Owed(Apply(s, step), s.passed)
  {
    if step.Iterate? && s.frames[step.t].pc.observed == UpdateRequired {
      OwedStep(s, step, s.passed);
    }
  }

  lemma PassedStep(s: State, step: Step)
    requires Enabled(s, step)
    ensures Apply(s, step).passed == s.passed ||
      (Apply(s, step).passed == s.now && HasFrame(step) && IsBeginning(Apply(s, step).frames[step.t].pc, s.now))
  {
  }

  lemma CallRememberedStep(s: State, step: Step)
    requires DemandSeen(s) && CallRemembered(s) && Enabled(s, step)
    ensures CallRemembered(Apply(s, step))
  {
    hide Effect, Enabled, IsBeginning, Owed;
    var s' := Apply(s, step);
    OthersKept(s, step);
    PassedStep(s, step);
    if s'.passed == s.passed && s.passed != 0 {
      if Owed(s, s.passed) {
        OwedStep(s, step, s.passed);
      } else {
        var t :| 0 <= t < |s.frames| && IsBeginning(s.frames[t].pc, s.passed);
        if HasFrame(step) && t == step.t {
          BeginningStep(s, step);
        } else {
          assert IsBeginning(s'.frames[t].pc, s.passed);
        }
      }
    }
  }

  lemma RememberedStep(s: State, step: Step)
    requires Remembered(s) && Enabled(s, step)
    ensures Remembered(Apply(s, step))
  {
    hide DemandSeen, CallRemembered, Effect;
    DemandSeenStep(s, step);
    CallRememberedStep(s, step);
  }

  //////////////////////////////////////////////////////////////////////////////
  // What an update leaves behind
  //////////////////////////////////////////////////////////////////////////////

  ghost predicate IsSnapshot(s: State, snapshot: set<Hash>, at: nat) {
    s.applied < s.begun < at < s.now && (s.changed < at ==> snapshot == s.pool)
  }

  /** What a frame is going to do under the mutex, measured against a map that nobody else changes meanwhile. */
  ghost predicate JobHolds(s: State, job: Job) {
    match job
    case Ask => s.applied < s.begun
    case Compare(added, removed, snapshot, at) =>
      IsSnapshot(s, snapshot, at) && ToSet(added) == snapshot - s.known.Keys && ToSet(removed) == s.known.Keys - snapshot
    case Store(txs, gone, snapshot, at) =>
      IsSnapshot(s, snapshot, at) && HashesOf(txs) == snapshot - s.known.Keys && ToSet(gone) == s.known.Keys - snapshot
  }

  ghost predicate Holds(s: State, pc: Pc) {
    match pc
    case AwaitingDifference(sent) => s.applied < s.begun && sent == s.known.Keys
    case AwaitingTransactions(wanted, gone, snapshot, at) =>
      IsSnapshot(s, snapshot, at) && ToSet(wanted) == snapshot - s.known.Keys && ToSet(gone) == s.known.Keys - snapshot
    case Opening(job) => JobHolds(s, job)
    case Locking(job) => JobHolds(s, job)
    case Holding(job) => JobHolds(s, job)
    case _ => true
  }

  ghost predicate Faithful(s: State) {
    && s.applied < s.now && s.begun < s.now && s.changed < s.now
    && (forall t :: 0 <= t < |s.frames| ==> Holds(s, s.frames[t].pc))
    && (s.changed < s.begun < s.applied ==> s.known.Keys == s.pool)
  }

  /** Only a frame with the update on its hands holds anything. */
  lemma HoldsIdle(s: State, f: Frame)
    requires Responsible(f) ==> f.pc.Failing? || f.pc.Leaving? || f.pc.Closing? || IsEnding(f.pc)
    ensures Holds(s, f.pc)
  {
  }

  /** What a frame holds stays right while nobody touches the map. */
  lemma HoldsKept(s: State, s': State, pc: Pc)
    requires Holds(s, pc) && s'.known == s.known && s'.begun == s.begun && s'.applied == s.applied
    requires s'.now == s.now + 1 && ((s'.pool == s.pool && s'.changed == s.changed) || s'.changed == s.now)
    ensures Holds(s', pc)
  {
    hide HashesOf, ToSet;
  }

  /** Apart from the begin of an update and the second callback, a step leaves the map and its times alone. */
  lemma MapKept(s: State, step: Step)
    requires Enabled(s, step) && !step.Iterate? && !step.StoreAll?
    ensures var s' := Apply(s, step);
      && s'.known == s.known && s'.begun == s.begun && s'.applied == s.applied && s'.now == s.now + 1
      && ((s'.pool == s.pool && s'.changed == s.changed) || s'.changed == s.now)
      && (HasFrame(step) ==> s'.pool == s.pool && s'.changed == s.changed)
  {
  }

  /** What a frame, and the frame it hands over to, hold after its step. */
  lemma HoldsNext(s: State, step: Step)
    requires Faithful(s) && Enabled(s, step) && HasFrame(step) && !step.Iterate? && !step.StoreAll?
    ensures Holds(Apply(s, step), Apply(s, step).frames[step.t].pc)
    ensures |s.frames| < |Apply(s, step).frames| ==> Holds(Apply(s, step), Apply(s, step).frames[|s.frames|].pc)
  {
    hide HashesOf, ToSet, Select;
    assert Holds(s, s.frames[step.t].pc);
    if step.HandOver? && s.frames[step.t].pc.job.Compare? {
      SelectSet(s.known, s.frames[step.t].pc.job.added, false);
      SelectSet(s.known, s.frames[step.t].pc.job.removed, true);
    }
  }

  lemma FaithfulStore(s: State, t: nat)
    requires OneAtMost(s) && Faithful(s) && Enabled(s, StoreAll(t))
    ensures Faithful(Apply(s, StoreAll(t)))
  {
    hide HashesOf, ToSet, Insert, Holds;
    var job := s.frames[t].pc.job;
    assert JobHolds(s, job) by { HoldsJob(s, s.frames[t].pc); }
    Applied(s.known, job.txs, job.gone, job.snapshot);
    var s' := Apply(s, StoreAll(t));
    forall u | 0 <= u < |s'.frames| ensures Holds(s', s'.frames[u].pc) {
      assert u == t || !Responsible(s.frames[u]);
      HoldsIdle(s', s'.frames[u]);
    }
  }

  lemma HoldsJob(s: State, pc: Pc)
    requires Holds(s, pc) && pc.Holding?
    ensures JobHolds(s, pc.job)
  {
  }

  lemma FaithfulTurn(s: State, t: nat, swapped: bool)
    requires OneAtMost(s) && Faithful(s) && Enabled(s, Iterate(t, swapped))
    ensures Faithful(Apply(s, Iterate(t, swapped)))
  {
    hide Holds, JobHolds;
    var s' := Apply(s, Iterate(t, swapped));
    forall u | 0 <= u < |s'.frames| ensures Holds(s', s'.frames[u].pc) {
      if u == t && s'.frames[t].pc.Opening? {
        assert Holds(s', Opening(Ask)) by { HoldsAsk(s'); }
      } else if u >= |s.frames| || u == t || !Responsible(s.frames[u]) {
        HoldsIdle(s', s'.frames[u]);
      } else {
        HoldsKept(s, s', s.frames[u].pc);
      }
    }
  }

  lemma HoldsAsk(s: State)
    requires s.applied < s.begun
    ensures Holds(s, Opening(Ask))
  {
  }

  lemma FaithfulStep(s: State, step: Step)
    requires OneAtMost(s) && Faithful(s) && Enabled(s, step)
    ensures Faithful(Apply(s, step))
  {
    hide Holds, Enabled, OneAtMost, Effect;
    if step.StoreAll? {
      FaithfulStore(s, step.t);
    } else if step.Iterate? {
      FaithfulTurn(s, step.t, step.swapped);
    } else {
      var s' := Apply(s, step);
      OthersKept(s, step);
      MapKept(s, step);
      forall u | 0 <= u < |s'.frames| ensures Holds(s', s'.frames[u].pc) {
        if u < |s.frames| && s'.frames[u] == s.frames[u] {
          HoldsKept(s, s', s.frames[u].pc);
        } else if HasFrame(step) {
          HoldsNext(s, step);
        } else {
          Arrives(s, step);
          HoldsIdle(s', s'.frames[u]);
        }
      }
    }
  }

  lemma Arrives(s: State, step: Step)
    requires Enabled(s, step) && !HasFrame(step)
    ensures |s.frames| < |Apply(s, step).frames| ==> Apply(s, step).frames[|s.frames|].pc == Entering(false)
  {
  }

  //////////////////////////////////////////////////////////////////////////////
  // Every state of every run
  //////////////////////////////////////////////////////////////////////////////

  ghost predicate Inv(s: State) {
    Stacked(s) && Exclusive(s) && Remembered(s) && Faithful(s)
  }

  lemma InvStep(s: State, step: Step)
    requires Inv(s) && Enabled(s, step)
    ensures Inv(Apply(s, step))
  {
    hide Stacked, OneAtMost, Logged, Remembered, Faithful, Enabled, Effect;
    StackedStep(s, step);
    ExclusiveStep(s, step);
    RememberedStep(s, step);
    FaithfulStep(s, step);
  }

  lemma {:induction false} Reachable(states: seq<State>, steps: seq<Step>, i: nat)
    requires IsRun(states, steps) && i <= |steps|
    ensures Inv(states[i]) && states[i].now == i + 1
  {
    if i > 0 {
      hide Inv, Enabled, Effect;
      Reachable(states, steps, i - 1);
      InvStep(states[i - 1], steps[i - 1]);
    }
  }

  /** A run goes on with any step its last state allows. */
  lemma Extend(states: seq<State>, steps: seq<Step>, step: Step) returns (states': seq<State>, steps': seq<Step>, s: State)
    requires |states| == |steps| + 1 && IsRun(states, steps) && Enabled(states[|steps|], step)
    ensures |states'| == |steps'| + 1 && IsRun(states', steps') && steps' == steps + [step]
    ensures states' == states + [s] && s == Apply(states[|steps|], step)
  {
    hide Enabled, Effect;
    s := Apply(states[|steps|], step);
    states', steps' := states + [s], steps + [step];
  }
}
