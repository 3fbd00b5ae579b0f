/** What holds of whole runs of pool updates. */
module PoolRuns {
  import opened Bytes
  import opened PoolView
  import opened PoolUpdate

  //////////////////////////////////////////////////////////////////////////////
  // One update at a time, each ended once
  //////////////////////////////////////////////////////////////////////////////

  /**
   At most one frame is responsible for an update, and one is exactly when the guard is taken;
   `endUpdate` never meets a free guard; and the mutex is held by at most one frame.
   */
  lemma OneUpdateAtATime(states: seq<State>, steps: seq<Step>, i: nat, t: nat, u: nat)
    requires IsRun(states, steps) && i <= |steps| && t < |states[i].frames| && u < |states[i].frames|
    ensures var s := states[i];
      && (Responsible(s.frames[t]) && Responsible(s.frames[u]) ==> t == u)
      && (s.guard != Free <==> exists v :: 0 <= v < |s.frames| && Responsible(s.frames[v]))
      && (s.frames[t].pc.EndLoop? ==> s.frames[t].pc.observed != Free)
      && (HoldsMutex(s.frames[t].pc) && HoldsMutex(s.frames[u].pc) ==> t == u)
  {
    hide Remembered, Faithful, Logged;
    Reachable(states, steps, i);
    assert FrameOk(states[i], t) && FrameOk(states[i], u);
  }

  /**
   Every `beginUpdate` that said true is ended by exactly one handler, whichever of the three frames it
   belongs to and however that frame leaves its scope: handlers fire in the order in which the updates
   began, each number once, and only the update in flight may have none yet.  The same holds of the
   calls of `endUpdate` they make.
   */
  lemma HandlersFireOnce(states: seq<State>, steps: seq<Step>, i: nat)
    requires IsRun(states, steps) && i <= |steps|
    ensures var s := states[i];
      && InOrder(s.fired) && InOrder(s.ended)
      && |s.ended| <= |s.fired| <= s.begins <= |s.ended| + 1
      && (s.begins == |s.ended| <==> s.guard == Free)
      && (forall n :: 0 <= n < s.begins ==>
            n in s.fired || exists t :: 0 <= t < |s.frames| && Responsible(s.frames[t]) && s.frames[t].update == n)
  {
    hide Remembered, Faithful, Stacked, Responsible, IsEnding;
    Reachable(states, steps, i);
    var s := states[i];
    forall n | 0 <= n < s.begins
      ensures n in s.fired || exists t :: 0 <= t < |s.frames| && Responsible(s.frames[t]) && s.frames[t].update == n
    {
      if n < |s.fired| {
        assert s.fired[n] == n;
      } else {
        var t :| 0 <= t < |s.frames| && Responsible(s.frames[t]);
        assert s.frames[t].update == n;
      }
    }
  }

  /** A handler that has been cancelled, or has fired, does not fire any more. */
  lemma {:induction false} NoSecondFiring(states: seq<State>, steps: seq<Step>, i: nat, j: nat)
    requires IsRun(states, steps) && i < j < |steps| && steps[i].ScopeExit? && steps[j].ScopeExit?
    requires states[i].frames[steps[i].t].armed && states[j].frames[steps[j].t].armed
    ensures states[i].frames[steps[i].t].update != states[j].frames[steps[j].t].update
  {
    hide Enabled, Effect;
    Fires(states[i], steps[i]);
    Fires(states[j], steps[j]);
    LogGrows(states, steps, i + 1, j);
    HandlersFireOnce(states, steps, i + 1);
    HandlersFireOnce(states, steps, j + 1);
    var a, b := |states[i].fired|, |states[j].fired|;
    assert states[i + 1].fired[a] == a && states[j + 1].fired[b] == b;
  }

  lemma Fires(s: State, step: Step)
    requires Enabled(s, step) && step.ScopeExit? && s.frames[step.t].armed
    ensures Apply(s, step).fired == s.fired + [s.frames[step.t].update]
  {
  }

  lemma FiredGrows(s: State, step: Step)
    requires Enabled(s, step)
    ensures |s.fired| <= |Apply(s, step).fired|
  {
  }

  lemma {:induction false} LogGrows(states: seq<State>, steps: seq<Step>, i: nat, j: nat)
    requires IsRun(states, steps) && i <= j <= |steps|
    ensures |states[i].fired| <= |states[j].fired|
    decreases j - i
  {
    if i < j {
      hide Enabled, Effect;
      LogGrows(states, steps, i, j - 1);
      FiredGrows(states[j - 1], steps[j - 1]);
    }
  }

  //////////////////////////////////////////////////////////////////////////////
  // Refused calls
  //////////////////////////////////////////////////////////////////////////////

  /** A step in which `endUpdate` says true, so that `poolChanged` is called again. */
  predicate Reruns(s: State, step: Step) {
    && Enabled(s, step) && step.Iterate? && step.swapped
    && s.frames[step.t].pc == EndLoop(UpdateRequired)
  }

  lemma DemandStep(s: State, step: Step)
    requires Enabled(s, step) && s.guard == UpdateRequired && Apply(s, step).guard != UpdateRequired
    ensures Reruns(s, step) && |Apply(s, step).frames| == |s.frames| + 1
    ensures Apply(s, step).frames[|s.frames|].pc == Entering(true)
  {
  }

  /** Once demanded, an update stays demanded until `poolChanged` is called again. */
  lemma {:induction false} DemandEnds(states: seq<State>, steps: seq<Step>, i: nat, j: nat) returns (k: nat)
    requires IsRun(states, steps) && i <= j <= |steps|
    requires states[i].guard == UpdateRequired && states[j].guard != UpdateRequired
    ensures i <= k < j && Reruns(states[k], steps[k])
    ensures |states[k + 1].frames| == |states[k].frames| + 1 && states[k + 1].frames[|states[k].frames|].pc == Entering(true)
    decreases j - i
  {
    hide Enabled, Effect, Reruns;
    if states[j - 1].guard != UpdateRequired {
      k := DemandEnds(states, steps, i, j - 1);
    } else {
      k := j - 1;
      DemandStep(states[k], steps[k]);
    }
  }

  /** A loop of `beginUpdate` that has seen the demand did so at a state after it passed the flags. */
  lemma {:induction false} SawDemand(states: seq<State>, steps: seq<Step>, i: nat, t: nat) returns (l: nat)
    requires IsRun(states, steps) && i <= |steps| && t < |states[i].frames|
    requires states[i].frames[t].pc.BeginLoop? && states[i].frames[t].pc.observed == UpdateRequired
    ensures states[i].frames[t].pc.since <= l <= i && states[l].guard == UpdateRequired
  {
    hide Stacked, OneAtMost, Logged, CallRemembered, Faithful, Owed, Enabled, Effect;
    Reachable(states, steps, i);
    OthersKept(states[i - 1], steps[i - 1]);
    BeginStep(states[i - 1], steps[i - 1]);
    if HasFrame(steps[i - 1]) && t == steps[i - 1].t {
      l := i;
    } else {
      l := SawDemand(states, steps, i - 1, t);
    }
  }

  /** A step in which a `beginUpdate` says false. */
  predicate Refuses(s: State, step: Step) {
    && Enabled(s, step) && step.Iterate? && s.frames[step.t].pc.BeginLoop?
    && Apply(s, step).frames[step.t].pc == Done
  }

  lemma RefusedBy(s: State, step: Step)
    requires Refuses(s, step)
    ensures s.frames[step.t].pc.observed == UpdateRequired || Apply(s, step).guard == UpdateRequired
  {
  }

  /**
   A call whose `beginUpdate` says false is followed by another call of `poolChanged`: as soon as the
   demand it left, or found, is gone, some `endUpdate` has said true after it passed the flags.
   */
  lemma Coalesced(states: seq<State>, steps: seq<Step>, i: nat, j: nat)
    requires IsRun(states, steps) && i < j <= |steps| && Refuses(states[i], steps[i])
    requires states[j].guard != UpdateRequired
    ensures exists k :: states[i].frames[steps[i].t].pc.since <= k < j && Reruns(states[k], steps[k])
  {
    var t := steps[i].t;
    var l := i + 1;
    assert states[i].frames[t].pc.since < i + 1 by { Reachable(states, steps, i); }
    hide Reruns, Enabled, Effect;
    RefusedBy(states[i], steps[i]);
    if states[i].frames[t].pc.observed == UpdateRequired {
      l := SawDemand(states, steps, i, t);
    }
    var k := DemandEnds(states, steps, l, j);
  }

  //////////////////////////////////////////////////////////////////////////////
  // At rest
  //////////////////////////////////////////////////////////////////////////////

  ghost predicate Settled(s: State) {
    forall t :: 0 <= t < |s.frames| ==> s.frames[t].pc.Done?
  }

  /**
   No notification is lost.  Whenever everything has come to rest, an update has begun after the
   last call that passed the flags, unless a re-run after it was dropped by the flags; every update
   has been ended, and guard and mutex are free.
   */
  lemma NothingLost(states: seq<State>, steps: seq<Step>, i: nat)
    requires IsRun(states, steps) && i <= |steps| && Settled(states[i])
    ensures states[i].passed > 0 ==> states[i].begun > states[i].passed || states[i].dropped > states[i].passed
    ensures states[i].guard == Free && states[i].mutex == None
    ensures |states[i].fired| == |states[i].ended| == states[i].begins
  {
    hide Faithful;
    Reachable(states, steps, i);
    var s := states[i];
    assert s.mutex.Some? ==> FrameOk(s, s.mutex.value);
  }

  /** The snapshot a frame works with, and when it was taken. */
  function SnapshotOf(pc: Pc): Option<(set<Hash>, nat)> {
    match pc
    case AwaitingTransactions(_, _, snapshot, at) => Some((snapshot, at))
    case Opening(job) => JobSnapshot(job)
    case Locking(job) => JobSnapshot(job)
    case Holding(job) => JobSnapshot(job)
    case _ => None
  }

  function JobSnapshot(job: Job): Option<(set<Hash>, nat)> {
    if job.Ask? then None else Some((job.snapshot, job.at))
  }

  lemma SnapshotTurned(s: State, t: nat, swapped: bool)
    requires Enabled(s, Iterate(t, swapped))
    ensures SnapshotOf(Apply(s, Iterate(t, swapped)).frames[t].pc) == None
    ensures |s.frames| < |Apply(s, Iterate(t, swapped)).frames| ==>
      SnapshotOf(Apply(s, Iterate(t, swapped)).frames[|s.frames|].pc) == None
  {
  }

  /** A snapshot is taken from the pool just now, or stays with the frame, or goes to the frame handed over to. */
  lemma SnapshotMoved(s: State, step: Step)
    requires Enabled(s, step) && HasFrame(step)
    ensures var pc, pc' := s.frames[step.t].pc, Apply(s, step).frames[step.t].pc;
      SnapshotOf(pc').Some? ==> SnapshotOf(pc') == SnapshotOf(pc) || SnapshotOf(pc') == Some((s.pool, s.now))
    ensures |s.frames| < |Apply(s, step).frames| ==>
      var pc' := Apply(s, step).frames[|s.frames|].pc;
      SnapshotOf(pc').Some? ==> SnapshotOf(pc') == SnapshotOf(s.frames[step.t].pc)
  {
    hide BeginTurn, EndTurn;
    if step.Iterate? {
      SnapshotTurned(s, step.t, step.swapped);
    }
  }

  lemma SnapshotStep(s: State, step: Step, t: nat) returns (u: nat)
    requires Enabled(s, step) && t < |Apply(s, step).frames| && SnapshotOf(Apply(s, step).frames[t].pc).Some?
    ensures
      || (u < |s.frames| && SnapshotOf(s.frames[u].pc) == SnapshotOf(Apply(s, step).frames[t].pc))
      || SnapshotOf(Apply(s, step).frames[t].pc) == Some((s.pool, s.now))
  {
    hide Effect, Enabled, SnapshotOf;
    OthersKept(s, step);
    if HasFrame(step) {
      SnapshotMoved(s, step);
      u := if t >= |s.frames| then step.t else t;
    } else {
      Arrives(s, step);
      assert SnapshotOf(Entering(false)) == None by { NoSnapshotYet(); }
      u := t;
    }
  }

  lemma NoSnapshotYet()
    ensures SnapshotOf(Entering(false)) == None
  {
  }

  lemma {:induction false} SnapshotTaken(states: seq<State>, steps: seq<Step>, i: nat, t: nat)
    requires IsRun(states, steps) && i <= |steps| && t < |states[i].frames| && SnapshotOf(states[i].frames[t].pc).Some?
    ensures var (snapshot, at) := SnapshotOf(states[i].frames[t].pc).value;
      0 < at <= i && states[at - 1].pool == snapshot
  {
    hide Inv, Enabled, Effect, SnapshotOf;
    Reachable(states, steps, i - 1);
    var u := SnapshotStep(states[i - 1], steps[i - 1], t);
    if u < |states[i - 1].frames| && SnapshotOf(states[i - 1].frames[u].pc) == SnapshotOf(states[i].frames[t].pc) {
      SnapshotTaken(states, steps, i - 1, u);
    }
  }

  /** An update that gets to the end leaves exactly the pool of one moment since it began. */
  lemma UpdateExact(states: seq<State>, steps: seq<Step>, i: nat) returns (k: nat)
    requires IsRun(states, steps) && i < |steps| && steps[i].StoreAll?
    ensures states[i].begun <= k < i && states[k].pool == states[i + 1].known.Keys
  {
    hide Stacked, Exclusive, Remembered;
    Reachable(states, steps, i);
    var s, t := states[i], steps[i].t;
    assert Holds(s, s.frames[t].pc);
    var job := s.frames[t].pc.job;
    Applied(s.known, job.txs, job.gone, job.snapshot);
    SnapshotTaken(states, steps, i, t);
    k := job.at - 1;
  }

  /**
   The explorer catches up.  When everything has come to rest, if some call passed the flags after
   the pool last changed, no re-run has been dropped since, and the last update begun was applied,
   then the explorer knows exactly the transactions of the pool.
   */
  lemma CatchesUp(states: seq<State>, steps: seq<Step>, i: nat)
    requires IsRun(states, steps) && i <= |steps| && Settled(states[i])
    requires states[i].passed > states[i].changed
    requires states[i].dropped <= states[i].passed
    requires states[i].applied > states[i].begun
    ensures states[i].known.Keys == states[i].pool
  {
    hide Stacked, Exclusive, Remembered, Holds;
    Reachable(states, steps, i);
    NothingLost(states, steps, i);
  }

  //////////////////////////////////////////////////////////////////////////////
  // A run in which the re-run comes before the refused call returns
  //////////////////////////////////////////////////////////////////////////////

  /** A first call begins an update. */
  lemma Started() returns (states: seq<State>, steps: seq<Step>)
    ensures |states| == |steps| + 1 && IsRun(states, steps)
    ensures var s := states[|steps|];
      s.guard == Updating && s.mutex == None && s.frames == [Frame(Opening(Ask), None, false, 0)]
  {
    var s := State(Free, None, map[], [], {}, 1, 0, 0, 0, 0, 0, 0, [], []);
    states, steps := [s], [];
    assert IsRun(states, steps);
    hide IsRun;
    states, steps, s := Extend(states, steps, Notify);
    states, steps, s := Extend(states, steps, Flags(0, true));
    states, steps, s := Extend(states, steps, Load(0));
    states, steps, s := Extend(states, steps, Iterate(0, true));
  }

  /** A second call demands an update while the first one's is in flight. */
  lemma Demanded() returns (states: seq<State>, steps: seq<Step>)
    ensures |states| == |steps| + 1 && IsRun(states, steps)
    ensures var s := states[|steps|];
      && s.guard == UpdateRequired && s.mutex == None && |s.frames| == 2
      && s.frames[0] == Frame(Opening(Ask), None, false, 0) && s.frames[1].pc.Done?
  {
    hide IsRun;
    states, steps := Started();
    var s: State;
    states, steps, s := Extend(states, steps, Notify);
    states, steps, s := Extend(states, steps, Flags(1, true));
    states, steps, s := Extend(states, steps, Load(1));
    states, steps, s := Extend(states, steps, Iterate(1, true));
  }

  /** A third call reads the demand; then the update in flight takes the mutex and fails. */
  lemma Overtaken() returns (states: seq<State>, steps: seq<Step>)
    ensures |states| == |steps| + 1 && IsRun(states, steps)
    ensures var s := states[|steps|];
      && s.guard == UpdateRequired && |s.frames| == 3
      && s.frames[0] == Frame(Leaving, None, true, 0) && s.frames[1].pc.Done?
      && s.frames[2].pc.BeginLoop? && s.frames[2].pc.observed == UpdateRequired
  {
    hide IsRun;
    states, steps := Demanded();
    var s: State;
    states, steps, s := Extend(states, steps, Notify);
    states, steps, s := Extend(states, steps, Flags(2, true));
    states, steps, s := Extend(states, steps, Load(2));
    states, steps, s := Extend(states, steps, Arm(0));
    states, steps, s := Extend(states, steps, Acquire(0));
    states, steps, s := Extend(states, steps, Throw(0));
  }

  /** Its handler ends it and runs `poolChanged` again. */
  lemma RunAgain() returns (states: seq<State>, steps: seq<Step>)
    ensures |states| == |steps| + 1 && IsRun(states, steps)
    ensures var s := states[|steps|];
      && |s.frames| == 4 && s.frames[0].pc == InHandler(3) && s.frames[1].pc.Done?
      && s.frames[2].pc.BeginLoop? && s.frames[2].pc.observed == UpdateRequired && s.frames[3].pc == Entering(true)
  {
    hide IsRun;
    states, steps := Overtaken();
    var s: State;
    states, steps, s := Extend(states, steps, Release(0));
    states, steps, s := Extend(states, steps, ScopeExit(0));
    states, steps, s := Extend(states, steps, Load(0));
    states, steps, s := Extend(states, steps, Iterate(0, true));
  }

  /**
   The re-run need not come after the refused call returns: a call may read the demand, be overtaken
   by the end of the update and the re-run, and only then say false.
   */
  lemma RefusedTooLate() returns (states: seq<State>, steps: seq<Step>)
    ensures |states| == |steps| + 1 && IsRun(states, steps) && |steps| > 0
    ensures Refuses(states[|steps| - 1], steps[|steps| - 1]) && Settled(states[|steps|])
  {
    hide IsRun;
    states, steps := RunAgain();
    var s: State;
    states, steps, s := Extend(states, steps, Flags(3, false));
    states, steps, s := Extend(states, steps, HandlerReturns(0));
    states, steps, s := Extend(states, steps, Iterate(2, false));
  }
}
