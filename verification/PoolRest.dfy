/**
 Which runs of pool updates can come to rest, and which only after another re-run.

 A frame that needs the mutex on a thread that holds it never gets it, and then nothing comes to rest.
 Everything else does, if calls are turned away and updates given up: first whoever holds the mutex
 goes on, then whoever has the update on its hands, then everybody.
 */
module PoolRest {
  import opened Bytes
  import opened PoolUpdate
  import opened PoolRuns
  import opened PoolStuck

  //////////////////////////////////////////////////////////////////////////////
  // Doomed threads
  //////////////////////////////////////////////////////////////////////////////

  /** On the way to the mutex: an update begun, or a callback with an answer. */
  predicate Entitled(pc: Pc) {
    pc.Opening? || pc.Locking?
  }

  /** On the way to a `beginUpdate` that has not seen a demand. */
  predicate Approaching(pc: Pc) {
    pc.BeginLoad? || (pc.BeginLoop? && pc.observed != UpdateRequired)
  }

  /** Some thread is on the way to a mutex it holds. */
  ghost predicate Doomed(s: State) {
    exists t :: 0 <= t < |s.frames| && Entitled(s.frames[t].pc) && OwnsMutex(s, t)
  }

  /** Some thread that is inside a request is calling `beginUpdate` and has not seen a demand. */
  ghost predicate Pressed(s: State) {
    exists t :: 0 <= t < |s.frames| && Approaching(s.frames[t].pc) && OwnsMutex(s, t)
  }

  /** `states'` and `steps'` go on from `states` and `steps`. */
  ghost predicate GoesOn(states: seq<State>, steps: seq<Step>, states': seq<State>, steps': seq<Step>) {
    |states'| == |steps'| + 1 && IsRun(states', steps') && states <= states' && steps <= steps'
  }

  ghost predicate IsWayToRest(states: seq<State>, steps: seq<Step>, states': seq<State>, steps': seq<Step>) {
    GoesOn(states, steps, states', steps') && Settled(states'[|steps'|])
  }

  /** A re-run after the first `n` steps. */
  ghost predicate RerunsAfter(states: seq<State>, steps: seq<Step>, n: nat)
    requires |states| == |steps| + 1
  {
    exists k :: n <= k < |steps| && Reruns(states[k], steps[k])
  }

  /** Whoever is on the way to the mutex has the update on its hands, so nobody else ends one. */
  lemma NoRerunNow(s: State, step: Step, t: nat)
    requires OneAtMost(s) && t < |s.frames| && Entitled(s.frames[t].pc)
    ensures !Reruns(s, step)
  {
    assert Responsible(s.frames[t]);
    assert Reruns(s, step) ==> Responsible(s.frames[step.t]);
  }

  /** A doomed run stays doomed: it never comes to rest, and no re-run ever follows. */
  lemma DoomedForGood(states: seq<State>, steps: seq<Step>, i: nat, j: nat)
    requires IsRun(states, steps) && i <= j <= |steps| && Doomed(states[i])
    ensures Doomed(states[j]) && !Settled(states[j])
    ensures j < |steps| ==> !Reruns(states[j], steps[j])
  {
    hide OwnsMutex, Reruns;
    var t: nat :| t < |states[i].frames| && Entitled(states[i].frames[t].pc) && OwnsMutex(states[i], t);
    NeverGetsMutex(states, steps, i, j, t);
    assert Entitled(states[j].frames[t].pc);
    if j < |steps| {
      assert OneAtMost(states[j]) by { Reachable(states, steps, j); }
      NoRerunNow(states[j], steps[j], t);
    }
  }

  lemma DoomedNoRerun(states: seq<State>, steps: seq<Step>, states': seq<State>, steps': seq<Step>)
    requires |states| == |steps| + 1 && GoesOn(states, steps, states', steps') && Doomed(states[|steps|])
    ensures !Settled(states'[|steps'|]) && !RerunsAfter(states', steps', |steps|)
  {
    hide Reruns, Doomed;
    assert states'[|steps|] == states[|steps|];
    DoomedForGood(states', steps', |steps|, |steps'|);
    forall k | |steps| <= k < |steps'| ensures !Reruns(states'[k], steps'[k]) {
      DoomedForGood(states', steps', |steps|, k);
    }
  }

  //////////////////////////////////////////////////////////////////////////////
  // A run in which a refused call is followed by no re-run at all
  //////////////////////////////////////////////////////////////////////////////

  /** A third call reads the demand; then the first one's request is answered with an error, on its own thread. */
  lemma ReadAndCalledBack() returns (states: seq<State>, steps: seq<Step>)
    ensures |states| == |steps| + 1 && IsRun(states, steps)
    ensures var s := states[|steps|];
      && s.guard == UpdateRequired && s.mutex == Some(0) && |s.frames| == 4 && s.frames[0].pc == InNode(3)
      && s.frames[2].pc.BeginLoop? && s.frames[2].pc.observed == UpdateRequired
      && s.frames[3] == Frame(Failing, Some(0), false, 0)
  {
    hide IsRun;
    states, steps := Demanded();
    var s: State;
    states, steps, s := Extend(states, steps, Notify);
    states, steps, s := Extend(states, steps, Flags(2, true));
    states, steps, s := Extend(states, steps, Load(2));
    states, steps, s := Extend(states, steps, Arm(0));
    states, steps, s := Extend(states, steps, Acquire(0));
    states, steps, s := Extend(states, steps, HandOver(0, true));
    states, steps, s := Extend(states, steps, AnswerError(3));
  }

  lemma ReadAndRunAgain() returns (states: seq<State>, steps: seq<Step>)
    ensures |states| == |steps| + 1 && IsRun(states, steps)
    ensures var s := states[|steps|];
      && s.guard == Free && s.mutex == Some(0) && |s.frames| == 5
      && s.frames[2].pc.BeginLoop? && s.frames[2].pc.observed == UpdateRequired
      && s.frames[3].caller == Some(0) && s.frames[4].caller == Some(3) && s.frames[4].pc.Entering?
  {
    hide IsRun;
    states, steps := ReadAndCalledBack();
    var s: State;
    states, steps, s := Extend(states, steps, Arm(3));
    states, steps, s := Extend(states, steps, Release(3));
    states, steps, s := Extend(states, steps, ScopeExit(3));
    states, steps, s := Extend(states, steps, Load(3));
    states, steps, s := Extend(states, steps, Iterate(3, true));
  }

  /** The re-run begins an update and waits for a mutex its own thread holds; only then is the third call refused. */
  lemma RefusedAndStuck() returns (states: seq<State>, steps: seq<Step>)
    ensures |states| == |steps| + 1 && IsRun(states, steps) && |steps| > 0
    ensures Refuses(states[|steps| - 1], steps[|steps| - 1])
    ensures forall states', steps' :: GoesOn(states, steps, states', steps') ==> !RerunsAfter(states', steps', |steps|)
  {
    hide IsRun, Reruns;
    states, steps := ReadAndRunAgain();
    states, steps := RerunSticks(states, steps, 0, 3, 4);
    var s := states[|steps|];
    assert Inv(s) by { Reachable(states, steps, |steps|); }
    var s': State;
    StuckStep(s, Iterate(2, false), 4);
    states, steps, s' := Extend(states, steps, Iterate(2, false));
    assert Doomed(s');
    forall states', steps' | GoesOn(states, steps, states', steps') ensures !RerunsAfter(states', steps', |steps|) {
      DoomedNoRerun(states, steps, states', steps');
    }
  }

  //////////////////////////////////////////////////////////////////////////////
  // Cornered threads
  //////////////////////////////////////////////////////////////////////////////

  predicate Committed(pc: Pc) {
    Approaching(pc) || Entitled(pc)
  }

  ghost predicate Cornered(s: State) {
    exists t :: 0 <= t < |s.frames| && Committed(s.frames[t].pc) && OwnsMutex(s, t)
  }

  lemma CorneredMeans(s: State)
    ensures Cornered(s) <==> Doomed(s) || Pressed(s)
  {
    hide OwnsMutex;
    if Cornered(s) {
      var t: nat :| t < |s.frames| && Committed(s.frames[t].pc) && OwnsMutex(s, t);
      assert Entitled(s.frames[t].pc) || Approaching(s.frames[t].pc);
    }
    if Doomed(s) {
      var t: nat :| t < |s.frames| && Entitled(s.frames[t].pc) && OwnsMutex(s, t);
      assert Committed(s.frames[t].pc);
    }
    if Pressed(s) {
      var t: nat :| t < |s.frames| && Approaching(s.frames[t].pc) && OwnsMutex(s, t);
      assert Committed(s.frames[t].pc);
    }
  }

  /** A committed frame goes on being one, unless an update is demanded. */
  lemma CommittedStep(s: State, step: Step)
    requires Enabled(s, step) && HasFrame(step) && Committed(s.frames[step.t].pc) && s.mutex.Some?
    ensures Committed(Apply(s, step).frames[step.t].pc) || Apply(s, step).guard == UpdateRequired
  {
  }

  lemma CaughtStep(s: State, step: Step, t: nat)
    requires Inv(s) && Enabled(s, step) && t < |s.frames| && Committed(s.frames[t].pc) && OwnsMutex(s, t)
    ensures var s' := Apply(s, step);
      || s'.guard == UpdateRequired
      || (t < |s'.frames| && Committed(s'.frames[t].pc) && OwnsMutex(s', t))
  {
    hide Exclusive, Remembered, Faithful, FrameOk, Enabled, Effect, OwnsMutex;
    OwnedIsHeld(s, t);
    assert !s.frames[t].pc.Done?;
    MutexStays(s, step, t);
    OthersKept(s, step);
    if HasFrame(step) && step.t == t {
      hide Committed;
      CommittedStep(s, step);
    }
  }

  /** If a run comes to rest, a cornered thread in it was not doomed, and another re-run has come before. */
  lemma {:induction false} CorneredReruns(states: seq<State>, steps: seq<Step>, i: nat, j: nat, t: nat) returns (k: nat)
    requires IsRun(states, steps) && i <= j <= |steps| && Settled(states[j])
    requires t < |states[i].frames| && Committed(states[i].frames[t].pc) && OwnsMutex(states[i], t)
    ensures Approaching(states[i].frames[t].pc)
    ensures i <= k < j && Reruns(states[k], steps[k])
    decreases j - i
  {
    hide Inv, OwnsMutex, Reruns, Enabled, Effect;
    if Entitled(states[i].frames[t].pc) {
      DoomedForGood(states, steps, i, j);
    }
    assert !states[i].frames[t].pc.Done?;
    assert i < j;
    Reachable(states, steps, i);
    CaughtStep(states[i], steps[i], t);
    if states[i + 1].guard == UpdateRequired {
      NothingLost(states, steps, j);
      k := DemandEnds(states, steps, i + 1, j);
    } else {
      k := CorneredReruns(states, steps, i + 1, j, t);
    }
  }

  //////////////////////////////////////////////////////////////////////////////
  // Steps towards rest
  //////////////////////////////////////////////////////////////////////////////

  /**
   How many steps a frame, and those it hands over to, need to come to rest if nobody begins or demands
   anything; `g` is what the guard is while an update is in flight.
   */
  function Cost(f: Frame, g: Guard): nat {
    match f.pc
    case Done => 0
    case Entering(_) => 1
    case BeginLoad(_) => 14
    case BeginLoop(_, observed) => if observed == UpdateRequired then 1 else if observed == Updating then 14 else 13
    case Opening(_) => 12
    case Locking(_) => 11
    case Holding(_) => 10
    case AwaitingDifference(_) => 6
    case AwaitingTransactions(_, _, _, _) => 6
    case Failing => 5
    case InNode(_) => 4
    case HandedOver => 3
    case Leaving => if f.armed then 4 else 2
    case Closing => if f.armed then 3 else 1
    case EndLoad => 2
    case EndLoop(observed) => if observed == g then 1 else 2
    case InHandler(_) => 1
  }

  ghost function TotalCost(frames: seq<Frame>, g: Guard): nat {
    if frames == [] then 0 else Cost(frames[0], g) + TotalCost(frames[1..], g)
  }

  lemma {:induction false} TotalCostUpdate(frames: seq<Frame>, t: nat, f: Frame, g: Guard)
    requires t < |frames|
    ensures TotalCost(frames[t := f], g) + Cost(frames[t], g) == TotalCost(frames, g) + Cost(f, g)
    decreases |frames|
  {
    hide Cost;
    if t == 0 {
      assert frames[t := f][1..] == frames[1..];
    } else {
      assert frames[t := f][1..] == frames[1..][t - 1 := f];
      TotalCostUpdate(frames[1..], t - 1, f, g);
    }
  }

  lemma {:induction false} TotalCostAppend(frames: seq<Frame>, f: Frame, g: Guard)
    ensures TotalCost(frames + [f], g) == TotalCost(frames, g) + Cost(f, g)
    decreases |frames|
  {
    hide Cost;
    if frames == [] {
      assert frames + [f] == [f];
      assert [f][1..] == [];
    } else {
      assert (frames + [f])[1..] == frames[1..] + [f];
      TotalCostAppend(frames[1..], f, g);
    }
  }

  /** The step that takes a frame towards rest: turn off the flags, give up the update. */
  function GiveUp(s: State, t: nat): Step
    requires t < |s.frames|
  {
    match s.frames[t].pc
    case Entering(_) => Flags(t, false)
    case BeginLoad(_) => Load(t)
    case BeginLoop(_, observed) => Iterate(t, observed == Free)
    case AwaitingDifference(_) => AnswerError(t)
    case AwaitingTransactions(_, _, _, _) => AnswerError(t)
    case Opening(_) => Arm(t)
    case Failing => Arm(t)
    case Locking(_) => Acquire(t)
    case Holding(job) => if job.Ask? then HandOver(t, false) else Throw(t)
    case InNode(_) => NodeReturns(t)
    case HandedOver => Reset(t)
    case Leaving => Release(t)
    case Closing => ScopeExit(t)
    case EndLoad => Load(t)
    case EndLoop(observed) => Iterate(t, observed == s.guard)
    case InHandler(_) => HandlerReturns(t)
    case Done => Notify
  }

  /** A frame that nothing keeps from taking that step. */
  ghost predicate CanGiveUp(s: State, t: nat)
    requires t < |s.frames|
  {
    var f := s.frames[t];
    && !f.pc.Done? && (IsArmed(f.pc) ==> f.armed)
    && (f.pc.InNode? || f.pc.InHandler? ==> IsDone(s, f.pc.callee))
    && (f.pc.Locking? ==> s.mutex == None)
    && (Approaching(f.pc) ==> s.guard == Free)
    && (IsEnding(f.pc) ==> s.guard != Free)
  }

  /** The guard while an update is in flight: it stays demanded, or nobody demands it. */
  predicate InPhase(guard: Guard, g: Guard) {
    if g == UpdateRequired then guard == UpdateRequired else g == Updating && guard != UpdateRequired
  }

  /** It makes the frame, with what it hands over to, cheaper, and demands nothing. */
  ghost predicate GivenUp(s: State, s': State, step: Step, t: nat, g: Guard)
    requires t < |s.frames| <= |s'.frames|
  {
    var f, f' := s.frames[t], s'.frames[t];
    && InPhase(s'.guard, g) && (Committed(f'.pc) ==> Committed(f.pc))
    && (if step.HandOver? then
          && |s'.frames| == |s.frames| + 1 && s'.frames == s.frames[t := f'] + [s'.frames[|s.frames|]]
          && s'.frames[|s.frames|].pc.AwaitingDifference? && Cost(f', g) + Cost(s'.frames[|s.frames|], g) < Cost(f, g)
        else s'.frames == s.frames[t := f'] && Cost(f', g) < Cost(f, g))
  }

  lemma GiveUpTurn(s: State, t: nat, g: Guard)
    requires t < |s.frames| && CanGiveUp(s, t) && InPhase(s.guard, g) && GiveUp(s, t).Iterate?
    ensures Enabled(s, GiveUp(s, t)) && (g == Updating ==> !Reruns(s, GiveUp(s, t)))
    ensures var step := GiveUp(s, t);
      !Reruns(s, step) ==> |s.frames| <= |Apply(s, step).frames| && GivenUp(s, Apply(s, step), step, t, g)
  {
  }

  lemma GiveUpHandOver(s: State, t: nat, g: Guard)
    requires t < |s.frames| && CanGiveUp(s, t) && InPhase(s.guard, g) && GiveUp(s, t).HandOver?
    ensures var step := GiveUp(s, t);
      Enabled(s, step) && |s.frames| <= |Apply(s, step).frames| && GivenUp(s, Apply(s, step), step, t, g)
  {
  }

  lemma GiveUpTaking(s: State, t: nat, g: Guard)
    requires t < |s.frames| && CanGiveUp(s, t) && InPhase(s.guard, g) && (GiveUp(s, t).Arm? || GiveUp(s, t).Acquire?)
    ensures var step := GiveUp(s, t);
      Enabled(s, step) && |s.frames| <= |Apply(s, step).frames| && GivenUp(s, Apply(s, step), step, t, g)
  {
  }

  lemma GiveUpLeaving(s: State, t: nat, g: Guard)
    requires t < |s.frames| && CanGiveUp(s, t) && InPhase(s.guard, g) && (GiveUp(s, t).Release? || GiveUp(s, t).ScopeExit?)
    ensures var step := GiveUp(s, t);
      Enabled(s, step) && |s.frames| <= |Apply(s, step).frames| && GivenUp(s, Apply(s, step), step, t, g)
  {
  }

  lemma GiveUpReturning(s: State, t: nat, g: Guard)
    requires t < |s.frames| && CanGiveUp(s, t) && InPhase(s.guard, g) && (GiveUp(s, t).NodeReturns? || GiveUp(s, t).Reset?)
    ensures var step := GiveUp(s, t);
      Enabled(s, step) && |s.frames| <= |Apply(s, step).frames| && GivenUp(s, Apply(s, step), step, t, g)
  {
  }

  lemma GiveUpMoving(s: State, t: nat, g: Guard)
    requires t < |s.frames| && CanGiveUp(s, t) && InPhase(s.guard, g) && (GiveUp(s, t).Flags? || GiveUp(s, t).Load?)
    ensures var step := GiveUp(s, t);
      Enabled(s, step) && |s.frames| <= |Apply(s, step).frames| && GivenUp(s, Apply(s, step), step, t, g)
  {
  }

  lemma GiveUpFailing(s: State, t: nat, g: Guard)
    requires t < |s.frames| && CanGiveUp(s, t) && InPhase(s.guard, g)
    requires GiveUp(s, t).AnswerError? || GiveUp(s, t).Throw? || GiveUp(s, t).HandlerReturns?
    ensures var step := GiveUp(s, t);
      Enabled(s, step) && |s.frames| <= |Apply(s, step).frames| && GivenUp(s, Apply(s, step), step, t, g)
  {
  }

  lemma GiveUpFrame(s: State, t: nat)
    requires t < |s.frames| && CanGiveUp(s, t)
    ensures HasFrame(GiveUp(s, t)) && GiveUp(s, t).t == t
    ensures Reruns(s, GiveUp(s, t)) ==> GiveUp(s, t).Iterate?
    ensures var step := GiveUp(s, t);
      || step.Iterate? || step.HandOver? || step.Arm? || step.Acquire? || step.Release? || step.ScopeExit?
      || step.NodeReturns? || step.Reset? || step.Flags? || step.Load?
      || step.AnswerError? || step.Throw? || step.HandlerReturns?
  {
  }

  lemma GiveUpStep(s: State, t: nat, g: Guard)
    requires t < |s.frames| && CanGiveUp(s, t) && InPhase(s.guard, g)
    ensures var step := GiveUp(s, t);
      && Enabled(s, step) && HasFrame(step) && step.t == t && (g == Updating ==> !Reruns(s, step))
      && (!Reruns(s, step) ==> |s.frames| <= |Apply(s, step).frames| && GivenUp(s, Apply(s, step), step, t, g))
  {
    hide CanGiveUp, GiveUp, GivenUp, Enabled, Effect, Reruns;
    var step := GiveUp(s, t);
    GiveUpFrame(s, t);
    if step.Iterate? {
      GiveUpTurn(s, t, g);
    } else if step.HandOver? {
      GiveUpHandOver(s, t, g);
    } else if step.Arm? || step.Acquire? {
      GiveUpTaking(s, t, g);
    } else if step.Release? || step.ScopeExit? {
      GiveUpLeaving(s, t, g);
    } else if step.NodeReturns? || step.Reset? {
      GiveUpReturning(s, t, g);
    } else if step.Flags? || step.Load? {
      GiveUpMoving(s, t, g);
    } else {
      GiveUpFailing(s, t, g);
    }
  }

  lemma Cheaper(s: State, t: nat, g: Guard)
    requires t < |s.frames| && CanGiveUp(s, t) && InPhase(s.guard, g) && !Reruns(s, GiveUp(s, t))
    ensures Enabled(s, GiveUp(s, t)) && TotalCost(Apply(s, GiveUp(s, t)).frames, g) < TotalCost(s.frames, g)
  {
    hide Cost, TotalCost, Effect, Enabled, CanGiveUp, GiveUp, Committed, InPhase;
    GiveUpStep(s, t, g);
    var frames := Apply(s, GiveUp(s, t)).frames;
    TotalCostUpdate(s.frames, t, frames[t], g);
    if GiveUp(s, t).HandOver? {
      TotalCostAppend(s.frames[t := frames[t]], frames[|frames| - 1], g);
    }
  }

  /** A step that makes no frame committed corners nobody. */
  lemma StaysUncornered(s: State, step: Step, s': State)
    requires Inv(s) && !Cornered(s) && Enabled(s, step) && HasFrame(step) && s' == Apply(s, step)
    requires step.t < |s.frames| <= |s'.frames|
    requires Committed(s'.frames[step.t].pc) ==> Committed(s.frames[step.t].pc)
    requires |s.frames| < |s'.frames| ==> !Committed(s'.frames[|s.frames|].pc)
    ensures !Cornered(s')
  {
    hide Exclusive, Remembered, Faithful, FrameOk, Enabled, Effect, Committed;
    OthersKept(s, step);
    MutexStep(s, step);
    forall u | 0 <= u < |s'.frames| && Committed(s'.frames[u].pc) ensures !OwnsMutex(s', u) {
      if s'.mutex.Some? {
        var a := s'.mutex.value;
        assert Committed(s.frames[u].pc);
        assert !s.frames[u].pc.Done? by { NotDone(s.frames[u].pc); }
        SameStack(s.frames, s'.frames, a, u);
        if OnStack(s.frames, a, u) && s'.mutex != s.mutex {
          var c := Waiting(s, a, u);
        }
      }
    }
  }

  lemma NotDone(pc: Pc)
    requires Committed(pc)
    ensures !pc.Done? && !pc.InNode? && !pc.InHandler?
  {
  }

  lemma NotCornered(s: State, t: nat, g: Guard)
    requires Inv(s) && !Cornered(s) && t < |s.frames| && CanGiveUp(s, t) && InPhase(s.guard, g) && !Reruns(s, GiveUp(s, t))
    ensures Enabled(s, GiveUp(s, t)) && !Cornered(Apply(s, GiveUp(s, t)))
  {
    hide Inv, Cornered, Enabled, Effect, Cost, GiveUp, CanGiveUp;
    GiveUpStep(s, t, g);
    StaysUncornered(s, GiveUp(s, t), Apply(s, GiveUp(s, t)));
  }

  /** The frame on top of the stack of frame `a`. */
  lemma {:induction false} TopOf(s: State, a: nat) returns (t: nat)
    requires Stacked(s) && a < |s.frames| && !s.frames[a].pc.Done?
    ensures t < |s.frames| && !s.frames[t].pc.Done? && (t == a || OnStack(s.frames, a, t))
    ensures s.frames[t].pc.InNode? || s.frames[t].pc.InHandler? ==> IsDone(s, s.frames[t].pc.callee)
    decreases |s.frames| - a
  {
    assert FrameOk(s, a);
    t := a;
    if s.frames[a].pc.InNode? || s.frames[a].pc.InHandler? {
      var c := s.frames[a].pc.callee;
      if !s.frames[c].pc.Done? {
        assert FrameOk(s, c);
        t := TopOf(s, c);
        if t != c {
          StackOfStack(s.frames, a, c, t);
        }
      }
    }
  }

  /** Unless a thread is cornered, some frame can take a step towards rest: first whoever keeps the others waiting. */
  lemma SomebodyCan(s: State) returns (t: nat)
    requires Inv(s) && !Cornered(s) && (s.guard != Free || !Settled(s))
    ensures t < |s.frames| && CanGiveUp(s, t)
  {
    hide Remembered, Faithful, Logged;
    if s.mutex.Some? {
      assert FrameOk(s, s.mutex.value);
      t := TopOf(s, s.mutex.value);
      assert t == s.mutex.value || OwnsMutex(s, t);
    } else if s.guard != Free {
      t :| t < |s.frames| && Responsible(s.frames[t]);
    } else {
      var a: nat :| a < |s.frames| && !s.frames[a].pc.Done?;
      t := TopOf(s, a);
    }
    assert FrameOk(s, t);
    assert IsEnding(s.frames[t].pc) ==> Responsible(s.frames[t]);
  }

  /** Unless an update is demanded or a thread is cornered, any run can come to rest without another re-run. */
  lemma {:induction false} GivesUp(states: seq<State>, steps: seq<Step>)
    returns (states': seq<State>, steps': seq<Step>)
    requires |states| == |steps| + 1 && IsRun(states, steps)
    requires states[|steps|].guard != UpdateRequired && !Cornered(states[|steps|])
    ensures IsWayToRest(states, steps, states', steps') && !RerunsAfter(states', steps', |steps|)
    decreases TotalCost(states[|steps|].frames, Updating)
  {
    states', steps' := states, steps;
    var s := states[|steps|];
    if !Settled(s) {
      hide TotalCost, Inv, CanGiveUp, GiveUp, Cornered, Enabled, Effect, Reruns, Committed;
      Reachable(states, steps, |steps|);
      var t := SomebodyCan(s);
      var step := GiveUp(s, t);
      GiveUpStep(s, t, Updating);
      Cheaper(s, t, Updating);
      NotCornered(s, t, Updating);
      var next: State;
      states', steps', next := Extend(states, steps, step);
      states', steps' := GivesUp(states', steps');
      assert states'[|steps|] == s && steps'[|steps|] == step;
    }
  }

  //////////////////////////////////////////////////////////////////////////////
  // Out of a demand, and out of a corner
  //////////////////////////////////////////////////////////////////////////////

  lemma DemandMet(s: State, step: Step)
    requires Reruns(s, step)
    ensures var s' := Apply(s, step);
      && s'.guard == Free && |s'.frames| == |s.frames| + 1 && step.t < |s.frames|
      && !Committed(s'.frames[step.t].pc) && !Committed(s'.frames[|s.frames|].pc)
  {
  }

  /** A demanded update can be ended, and the guard left free, without cornering anybody. */
  lemma {:induction false} MeetsDemand(states: seq<State>, steps: seq<Step>)
    returns (states': seq<State>, steps': seq<Step>)
    requires |states| == |steps| + 1 && IsRun(states, steps)
    requires states[|steps|].guard == UpdateRequired && !Cornered(states[|steps|])
    ensures |states'| == |steps'| + 1 && GoesOn(states, steps, states', steps')
    ensures states'[|steps'|].guard == Free && !Cornered(states'[|steps'|])
    decreases TotalCost(states[|steps|].frames, UpdateRequired)
  {
    hide TotalCost, Inv, CanGiveUp, GiveUp, Cornered, Enabled, Effect, Committed, Cost;
    var s := states[|steps|];
    Reachable(states, steps, |steps|);
    var t := SomebodyCan(s);
    var step := GiveUp(s, t);
    GiveUpStep(s, t, UpdateRequired);
    var next: State;
    states', steps', next := Extend(states, steps, step);
    if Reruns(s, step) {
      DemandMet(s, step);
      StaysUncornered(s, step, next);
    } else {
      Cheaper(s, t, UpdateRequired);
      NotCornered(s, t, UpdateRequired);
      states', steps' := MeetsDemand(states', steps');
    }
  }

  /** A thread has one frame on top. */
  lemma {:induction false} OneOnTop(s: State, a: nat, t: nat, u: nat)
    requires Stacked(s) && t < |s.frames| && u < |s.frames| && OnStack(s.frames, a, t) && OnStack(s.frames, a, u)
    requires !s.frames[t].pc.Done? && !s.frames[t].pc.InNode? && !s.frames[t].pc.InHandler?
    requires !s.frames[u].pc.Done? && !s.frames[u].pc.InNode? && !s.frames[u].pc.InHandler?
    ensures t == u
    decreases |s.frames| - a
  {
    var c := Waiting(s, a, t);
    assert FrameOk(s, a) && FrameOk(s, c);
    if t != c {
      Above(s, a, c, t);
      var d := Waiting(s, c, t);
    }
    if u != c {
      Above(s, a, c, u);
      var d := Waiting(s, c, u);
    }
    if t != c && u != c {
      OneOnTop(s, c, t, u);
    }
  }

  /** Only frame `t` and new frames without callers differ, and `t` is no longer committed. */
  ghost predicate Withdrawn(s: State, s': State, t: nat) {
    && t < |s.frames| <= |s'.frames| && s'.mutex == s.mutex
    && (forall u :: 0 <= u < |s.frames| && u != t ==> s'.frames[u] == s.frames[u])
    && s'.frames[t].caller == s.frames[t].caller && !Committed(s'.frames[t].pc)
    && (forall u :: |s.frames| <= u < |s'.frames| ==> s'.frames[u].caller == None)
  }

  lemma WithdrawnNotCornered(s: State, s': State, t: nat)
    requires Stacked(s) && Withdrawn(s, s', t) && Committed(s.frames[t].pc) && OwnsMutex(s, t)
    ensures !Cornered(s')
  {
    forall u | 0 <= u < |s'.frames| && Committed(s'.frames[u].pc) ensures !OwnsMutex(s', u) {
      if u < |s.frames| {
        SameStack(s.frames, s'.frames, s.mutex.value, u);
        if OwnsMutex(s', u) {
          OneOnTop(s, s.mutex.value, t, u);
        }
      }
    }
  }

  /** A call that reads a demand is on its way back. */
  lemma ReadsDemand(states: seq<State>, steps: seq<Step>, t: nat) returns (states': seq<State>, steps': seq<Step>)
    requires |states| == |steps| + 1 && IsRun(states, steps) && states[|steps|].guard == UpdateRequired
    requires t < |states[|steps|].frames| && Approaching(states[|steps|].frames[t].pc)
    ensures |states'| == |steps'| + 1 && GoesOn(states, steps, states', steps')
    ensures states'[|steps'|].guard == UpdateRequired && Withdrawn(states[|steps|], states'[|steps'|], t)
  {
    hide IsRun;
    var s := states[|steps|];
    states', steps', s := Extend(states, steps, if s.frames[t].pc.BeginLoad? then Load(t) else Iterate(t, false));
  }

  /** A call that finds an update in flight demands another and is done. */
  lemma LeavesDemand(states: seq<State>, steps: seq<Step>, t: nat) returns (states': seq<State>, steps': seq<Step>)
    requires |states| == |steps| + 1 && IsRun(states, steps) && states[|steps|].guard == Updating
    requires t < |states[|steps|].frames| && Approaching(states[|steps|].frames[t].pc)
    ensures |states'| == |steps'| + 1 && GoesOn(states, steps, states', steps')
    ensures states'[|steps'|].guard == UpdateRequired && Withdrawn(states[|steps|], states'[|steps'|], t)
  {
    hide IsRun;
    var s := states[|steps|];
    states', steps', s := Extend(states, steps, if s.frames[t].pc.BeginLoad? then Load(t) else Iterate(t, false));
    states', steps', s := Extend(states', steps', Iterate(t, true));
  }

  /** A new call on a thread of its own takes a free guard. */
  lemma TakesGuard(states: seq<State>, steps: seq<Step>) returns (states': seq<State>, steps': seq<Step>)
    requires |states| == |steps| + 1 && IsRun(states, steps) && states[|steps|].guard == Free
    ensures |states'| == |steps'| + 1 && GoesOn(states, steps, states', steps')
    ensures var s, s' := states[|steps|], states'[|steps'|];
      && s'.guard == Updating && s'.mutex == s.mutex && |s'.frames| == |s.frames| + 1
      && s'.frames[..|s.frames|] == s.frames && s'.frames[|s.frames|].caller == None
  {
    hide IsRun;
    var n := |states[|steps|].frames|;
    var s: State;
    states', steps', s := Extend(states, steps, Notify);
    states', steps', s := Extend(states', steps', Flags(n, true));
    states', steps', s := Extend(states', steps', Load(n));
    states', steps', s := Extend(states', steps', Iterate(n, true));
  }

  /** A thread that is pressed can be turned away: if nobody else has, a fresh call takes the guard first. */
  lemma TurnedAway(states: seq<State>, steps: seq<Step>, t: nat) returns (states': seq<State>, steps': seq<Step>)
    requires |states| == |steps| + 1 && IsRun(states, steps)
    requires t < |states[|steps|].frames| && Approaching(states[|steps|].frames[t].pc)
    ensures |states'| == |steps'| + 1 && GoesOn(states, steps, states', steps')
    ensures states'[|steps'|].guard == UpdateRequired && Withdrawn(states[|steps|], states'[|steps'|], t)
  {
    hide IsRun, Approaching, Committed;
    var s := states[|steps|];
    states', steps' := states, steps;
    if s.guard == Free {
      states', steps' := TakesGuard(states, steps);
      assert s.frames[t] == states'[|steps'|].frames[..|s.frames|][t];
      assert forall u :: 0 <= u < |s.frames| ==> states'[|steps'|].frames[u] == states'[|steps'|].frames[..|s.frames|][u];
    }
    if states'[|steps'|].guard == Updating {
      states', steps' := LeavesDemand(states', steps', t);
    } else {
      states', steps' := ReadsDemand(states', steps', t);
    }
  }

  //////////////////////////////////////////////////////////////////////////////
  // Which runs come to rest
  //////////////////////////////////////////////////////////////////////////////

  /** Whatever is not doomed can come to rest. */
  lemma FindsRest(states: seq<State>, steps: seq<Step>) returns (states': seq<State>, steps': seq<Step>)
    requires |states| == |steps| + 1 && IsRun(states, steps) && !Doomed(states[|steps|])
    ensures IsWayToRest(states, steps, states', steps')
  {
    hide Inv, OwnsMutex, Approaching, Entitled, Committed, IsRun;
    var s := states[|steps|];
    states', steps' := states, steps;
    assert GoesOn(states, steps, states', steps');
    CorneredMeans(s);
    if Cornered(s) {
      var t: nat :| t < |s.frames| && Approaching(s.frames[t].pc) && OwnsMutex(s, t);
      states', steps' := TurnedAway(states, steps, t);
      assert Stacked(s) by { Reachable(states, steps, |steps|); InvStacked(s); }
      assert Committed(s.frames[t].pc) by { ApproachingIsCommitted(s.frames[t].pc); }
      WithdrawnNotCornered(s, states'[|steps'|], t);
    }
    if states'[|steps'|].guard == UpdateRequired {
      states', steps' := MeetsDemand(states', steps');
    }
    states', steps' := GivesUp(states', steps');
  }

  lemma ApproachingIsCommitted(pc: Pc)
    requires Approaching(pc)
    ensures Committed(pc)
  {
  }

  /** A run can come to rest if and only if no thread is on the way to a mutex it holds. */
  lemma ComesToRest(states: seq<State>, steps: seq<Step>)
    requires |states| == |steps| + 1 && IsRun(states, steps)
    ensures !Doomed(states[|steps|]) <==> exists states', steps' :: IsWayToRest(states, steps, states', steps')
  {
    hide Doomed;
    if !Doomed(states[|steps|]) {
      var states', steps' := FindsRest(states, steps);
    } else {
      forall states', steps' ensures !IsWayToRest(states, steps, states', steps') {
        if GoesOn(states, steps, states', steps') {
          DoomedNoRerun(states, steps, states', steps');
        }
      }
    }
  }

  /** If an update is demanded or a thread is cornered, every way to rest contains another re-run. */
  lemma RerunBeforeRest(states: seq<State>, steps: seq<Step>, states': seq<State>, steps': seq<Step>)
    requires |states| == |steps| + 1 && IsWayToRest(states, steps, states', steps')
    requires states[|steps|].guard == UpdateRequired || Cornered(states[|steps|])
    ensures RerunsAfter(states', steps', |steps|)
  {
    hide Reruns, Committed, OwnsMutex;
    var s := states[|steps|];
    assert states'[|steps|] == s;
    if s.guard == UpdateRequired {
      NothingLost(states', steps', |steps'|);
      var k := DemandEnds(states', steps', |steps|, |steps'|);
    } else {
      var t: nat :| t < |s.frames| && Committed(s.frames[t].pc) && OwnsMutex(s, t);
      var k := CorneredReruns(states', steps', |steps|, |steps'|, t);
    }
  }

  /** A run can come to rest without another re-run if and only if none is demanded and no thread is doomed or pressed. */
  lemma RestsWithoutRerun(states: seq<State>, steps: seq<Step>)
    requires |states| == |steps| + 1 && IsRun(states, steps)
    ensures var s := states[|steps|];
      s.guard != UpdateRequired && !Doomed(s) && !Pressed(s) <==>
      exists states', steps' :: IsWayToRest(states, steps, states', steps') && !RerunsAfter(states', steps', |steps|)
  {
    hide Doomed, Pressed, Cornered;
    var s := states[|steps|];
    CorneredMeans(s);
    if s.guard != UpdateRequired && !Cornered(s) {
      var states', steps' := GivesUp(states, steps);
    } else {
      forall states', steps' | IsWayToRest(states, steps, states', steps') ensures RerunsAfter(states', steps', |steps|) {
        RerunBeforeRest(states, steps, states', steps');
      }
    }
  }

  /**
   When another re-run is certain, at any point of any run and so also when a refused call returns.  There is a
   way to rest and every way to rest contains a re-run, if and only if no thread is doomed and an update is
   demanded or a thread is pressed.
   */
  lemma RerunCertain(states: seq<State>, steps: seq<Step>)
    requires |states| == |steps| + 1 && IsRun(states, steps)
    ensures var s := states[|steps|];
      !Doomed(s) && (s.guard == UpdateRequired || Pressed(s)) <==>
      && (exists states', steps' :: IsWayToRest(states, steps, states', steps'))
      && (forall states', steps' :: IsWayToRest(states, steps, states', steps') ==> RerunsAfter(states', steps', |steps|))
  {
    hide Doomed, Pressed, RerunsAfter, IsWayToRest;
    ComesToRest(states, steps);
    RestsWithoutRerun(states, steps);
  }
}
