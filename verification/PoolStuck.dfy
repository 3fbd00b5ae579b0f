/**
 Callbacks on the caller's thread.

 A request is made with the mutex held.  A node that calls back from inside the request does so on a
 thread that already holds the mutex, and the mutex is not recursive.  A callback with an error needs no
 mutex, but the handler it leaves behind may call `poolChanged` again, which does.  This module says
 exactly when such a thread waits for itself, and that it then does so for ever.
 */
module PoolStuck {
  import opened Bytes
  import opened PoolUpdate
  import opened PoolRuns

  /** Frame `a` lies beneath frame `t` on the same thread. */
  ghost predicate OnStack(frames: seq<Frame>, a: nat, t: nat)
    requires t < |frames|
    decreases t
  {
    frames[t].caller.Some? && var p := frames[t].caller.value; p < t && (p == a || OnStack(frames, a, p))
  }

  /** The thread of frame `t` holds the mutex, in a frame beneath `t`. */
  ghost predicate OwnsMutex(s: State, t: nat)
    requires t < |s.frames|
  {
    s.mutex.Some? && OnStack(s.frames, s.mutex.value, t)
  }

  /** The thread waits for a mutex it holds itself. */
  ghost predicate Stuck(s: State, t: nat)
    requires t < |s.frames|
  {
    s.frames[t].pc.Locking? && OwnsMutex(s, t)
  }

  lemma {:induction false} SameStack(frames: seq<Frame>, frames': seq<Frame>, a: nat, t: nat)
    requires t < |frames| <= |frames'|
    requires forall u :: 0 <= u < |frames| ==> frames'[u].caller == frames[u].caller
    ensures OnStack(frames', a, t) == OnStack(frames, a, t)
    decreases t
  {
    if frames[t].caller.Some? && frames[t].caller.value < t {
      SameStack(frames, frames', a, frames[t].caller.value);
    }
  }

  lemma {:induction false} StackOfStack(frames: seq<Frame>, a: nat, c: nat, t: nat)
    requires c < |frames| && t < |frames| && OnStack(frames, a, c) && OnStack(frames, c, t)
    ensures OnStack(frames, a, t)
    decreases t
  {
    if frames[t].caller.value != c {
      StackOfStack(frames, a, c, frames[t].caller.value);
    }
  }

  /** A frame beneath one that is not done waits for a frame that is not done. */
  lemma {:induction false} Waiting(s: State, a: nat, t: nat) returns (c: nat)
    requires Stacked(s) && t < |s.frames| && OnStack(s.frames, a, t) && !s.frames[t].pc.Done?
    ensures a < |s.frames| && c < |s.frames| && Suspended(s, a, c) && !s.frames[c].pc.Done?
    decreases t
  {
    assert FrameOk(s, t);
    var p := s.frames[t].caller.value;
    if p == a {
      c := t;
    } else {
      c := Waiting(s, a, p);
    }
  }

  /** Such a frame takes no step. */
  lemma NoStep(s: State, step: Step, a: nat, c: nat)
    requires Enabled(s, step) && a < |s.frames| && c < |s.frames| && Suspended(s, a, c) && !s.frames[c].pc.Done?
    ensures !HasFrame(step) || step.t != a
  {
  }

  /** Only the frame that holds the mutex releases it. */
  lemma MutexStep(s: State, step: Step)
    requires Enabled(s, step)
    ensures var s' := Apply(s, step);
      || s'.mutex == s.mutex
      || (HasFrame(step) && s.mutex == Some(step.t) && s'.mutex == None)
      || (HasFrame(step) && s.mutex == None && s'.mutex == Some(step.t) && s.frames[step.t].pc.Locking?)
  {
  }

  /** While a frame above the holder is not done, the mutex stays where it is. */
  lemma MutexStays(s: State, step: Step, t: nat)
    requires Stacked(s) && Enabled(s, step) && t < |s.frames| && OwnsMutex(s, t) && !s.frames[t].pc.Done?
    ensures Apply(s, step).mutex == s.mutex && t < |Apply(s, step).frames| && OwnsMutex(Apply(s, step), t)
  {
    hide Enabled, Effect, FrameOk;
    var a := s.mutex.value;
    var c := Waiting(s, a, t);
    NoStep(s, step, a, c);
    MutexStep(s, step);
    OthersKept(s, step);
    SameStack(s.frames, Apply(s, step).frames, a, t);
  }

  /** The thread of frame `t` is inside a request. */
  ghost predicate InsideRequest(s: State, t: nat)
    requires t < |s.frames|
  {
    exists a :: 0 <= a < |s.frames| && s.frames[a].pc.InNode? && OnStack(s.frames, a, t)
  }

  /** A thread waits for itself exactly when it waits for the mutex while it is inside a request. */
  lemma StuckInNode(states: seq<State>, steps: seq<Step>, i: nat, t: nat)
    requires IsRun(states, steps) && i <= |steps| && t < |states[i].frames|
    ensures var s := states[i];
      Stuck(s, t) <==> s.frames[t].pc.Locking? && InsideRequest(s, t)
  {
    hide Exclusive, Remembered, Faithful;
    Reachable(states, steps, i);
    var s := states[i];
    if Stuck(s, t) {
      var a := s.mutex.value;
      var c := Waiting(s, a, t);
      assert FrameOk(s, a);
    } else if s.frames[t].pc.Locking? {
      forall a | 0 <= a < |s.frames| && OnStack(s.frames, a, t) ensures !s.frames[a].pc.InNode? {
        assert FrameOk(s, a);
      }
    }
  }

  //////////////////////////////////////////////////////////////////////////////
  // Stuck for ever
  //////////////////////////////////////////////////////////////////////////////

  /** While a frame waits for the mutex, no other frame can begin, apply or end an update. */
  lemma NobodyElse(s: State, step: Step, t: nat)
    requires OneAtMost(s) && Enabled(s, step) && t < |s.frames| && s.frames[t].pc.Locking?
    requires !HasFrame(step) || step.t != t
    ensures var s' := Apply(s, step);
      && s'.known == s.known && s'.begins == s.begins && s'.fired == s.fired && s'.ended == s.ended
  {
    assert Responsible(s.frames[t]);
    if HasFrame(step) {
      assert !Responsible(s.frames[step.t]);
    }
  }

  lemma StuckStep(s: State, step: Step, t: nat)
    requires Inv(s) && Enabled(s, step) && t < |s.frames| && Stuck(s, t)
    ensures var s' := Apply(s, step);
      && t < |s'.frames| && Stuck(s', t)
      && s'.known == s.known && s'.begins == s.begins && s'.fired == s.fired && s'.ended == s.ended
  {
    hide Remembered, Faithful, Logged, Effect, OwnsMutex, FrameOk, OneAtMost;
    assert s.mutex.Some? by { OwnedIsHeld(s, t); }
    MutexStays(s, step, t);
    OthersKept(s, step);
    NobodyElse(s, step, t);
  }

  lemma OwnedIsHeld(s: State, t: nat)
    requires t < |s.frames| && OwnsMutex(s, t)
    ensures s.mutex.Some?
  {
  }

  /**
   A thread that waits for itself does so to the end of the run.  The guard stays taken: from then on no
   update begins or ends, no handler fires, and the explorer's picture never changes again.
   */
  lemma {:induction false} StuckForGood(states: seq<State>, steps: seq<Step>, i: nat, j: nat, t: nat)
    requires IsRun(states, steps) && i <= j <= |steps| && t < |states[i].frames| && Stuck(states[i], t)
    ensures t < |states[j].frames| && Stuck(states[j], t) && states[j].guard != Free
    ensures states[j].known == states[i].known && states[j].begins == states[i].begins
    ensures states[j].fired == states[i].fired && states[j].ended == states[i].ended
    decreases j - i
  {
    hide Inv, Enabled, Effect, OwnsMutex;
    if i < j {
      StuckForGood(states, steps, i, j - 1, t);
      Reachable(states, steps, j - 1);
      StuckStep(states[j - 1], steps[j - 1], t);
    }
    assert states[j].guard != Free by {
      OneUpdateAtATime(states, steps, j, t, t);
      assert Responsible(states[j].frames[t]);
    }
  }

  /** No thread waits for itself as long as the node only calls back on other threads. */
  lemma {:induction false} NeverStuck(states: seq<State>, steps: seq<Step>, i: nat, t: nat)
    requires IsRun(states, steps) && i <= |steps| && t < |states[i].frames|
    requires forall k :: 0 <= k < i && steps[k].HandOver? ==> !steps[k].sameThread
    ensures !Stuck(states[i], t)
  {
    hide Stuck;
    StuckInNode(states, steps, i, t);
    forall a | 0 <= a < |states[i].frames| ensures !states[i].frames[a].pc.InNode? {
      NobodyInNode(states, steps, i, a);
    }
  }

  lemma InNodeStep(s: State, step: Step, a: nat)
    requires Enabled(s, step) && a < |Apply(s, step).frames| && Apply(s, step).frames[a].pc.InNode?
    ensures (a < |s.frames| && s.frames[a].pc.InNode?) || (step.HandOver? && step.sameThread)
  {
  }

  lemma {:induction false} NobodyInNode(states: seq<State>, steps: seq<Step>, i: nat, a: nat)
    requires IsRun(states, steps) && i <= |steps| && a < |states[i].frames|
    requires forall k :: 0 <= k < i && steps[k].HandOver? ==> !steps[k].sameThread
    ensures !states[i].frames[a].pc.InNode?
    decreases i
  {
    hide Enabled, Effect;
    if i > 0 && states[i].frames[a].pc.InNode? {
      InNodeStep(states[i - 1], steps[i - 1], a);
      NobodyInNode(states, steps, i - 1, a);
    }
  }

  //////////////////////////////////////////////////////////////////////////////
  // When a callback on the caller's thread gets stuck
  //////////////////////////////////////////////////////////////////////////////

  /** The request of frame `f` is over but for its return, or will be once the frames above it return. */
  ghost predicate Quiet(s: State, f: nat)
    requires f < |s.frames|
  {
    match s.frames[f].pc
    case InNode(c) => IsDone(s, c) || (c < |s.frames| && s.frames[c].pc.InHandler? && IsDone(s, s.frames[c].pc.callee))
    case HandedOver => true
    case Leaving => !s.frames[f].armed
    case Closing => !s.frames[f].armed
    case Done => true
    case _ => false
  }

  lemma QuietStep(s: State, step: Step, f: nat)
    requires Enabled(s, step) && f < |s.frames| && Quiet(s, f)
    ensures f < |Apply(s, step).frames| && Quiet(Apply(s, step), f)
  {
    hide BeginTurn, EndTurn, Callback;
    OthersKept(s, step);
    DoneStays(s, step);
  }

  lemma DoneStays(s: State, step: Step)
    requires Enabled(s, step)
    ensures forall u :: 0 <= u < |s.frames| && s.frames[u].pc.Done? ==> Apply(s, step).frames[u].pc.Done?
  {
    hide Effect;
    OthersKept(s, step);
  }

  lemma QuietNotStuck(s: State, f: nat, u: nat)
    requires Stacked(s) && f < |s.frames| && Quiet(s, f) && u < |s.frames| && OnStack(s.frames, f, u)
    ensures !Stuck(s, u)
  {
    if !s.frames[u].pc.Done? {
      var c := Waiting(s, f, u);
      assert FrameOk(s, c) && FrameOk(s, u);
      if u != c {
        Above(s, f, c, u);
        var d := Waiting(s, c, u);
      }
    }
  }

  /** Stacks do not branch: a frame that is not done lies above the frame its caller waits for. */
  lemma {:induction false} Above(s: State, f: nat, c: nat, u: nat)
    requires Stacked(s) && f < |s.frames| && c < |s.frames| && Suspended(s, f, c) && !s.frames[c].pc.Done?
    requires u < |s.frames| && u != c && OnStack(s.frames, f, u) && !s.frames[u].pc.Done?
    ensures OnStack(s.frames, c, u)
    decreases u
  {
    assert FrameOk(s, u);
    var p := s.frames[u].caller.value;
    if p != f && p != c {
      Above(s, f, c, p);
    }
  }

  lemma {:induction false} QuietForGood(states: seq<State>, steps: seq<Step>, i: nat, j: nat, f: nat)
    requires IsRun(states, steps) && i <= j <= |steps| && f < |states[i].frames| && Quiet(states[i], f)
    ensures f < |states[j].frames| && Quiet(states[j], f)
    decreases j - i
  {
    hide Quiet, Enabled, Effect;
    if i < j {
      QuietForGood(states, steps, i, j - 1, f);
      QuietStep(states[j - 1], steps[j - 1], f);
    }
  }

  /** The run goes on from `states`, and then a frame above `f` waits for a mutex its own thread holds. */
  ghost predicate GetsStuck(states: seq<State>, steps: seq<Step>, states': seq<State>, steps': seq<Step>, f: nat, u: nat) {
    && IsRun(states', steps') && states <= states' && steps <= steps'
    && u < |states'[|steps'|].frames| && OnStack(states'[|steps'|].frames, f, u) && Stuck(states'[|steps'|], u)
  }

  lemma QuietNeverStuck(states: seq<State>, steps: seq<Step>, f: nat)
    requires IsRun(states, steps) && f < |states[|steps|].frames| && Quiet(states[|steps|], f)
    ensures !exists states', steps', u :: GetsStuck(states, steps, states', steps', f, u)
  {
    forall states', steps', u | GetsStuck(states, steps, states', steps', f, u) ensures false {
      hide Inv, Quiet, Stuck, Enabled, Effect;
      QuietForGood(states', steps', |steps|, |steps'|, f);
      Reachable(states', steps', |steps'|);
      assert Stacked(states'[|steps'|]) by { InvStacked(states'[|steps'|]); }
      QuietNotStuck(states'[|steps'|], f, u);
    }
  }

  lemma InvStacked(s: State)
    requires Inv(s)
    ensures Stacked(s)
  {
  }

  /** The re-run finds the guard free, begins an update, makes its handler, and waits for the mutex. */
  lemma RerunSticks(states: seq<State>, steps: seq<Step>, f: nat, c: nat, n: nat)
    returns (states': seq<State>, steps': seq<Step>)
    requires |states| == |steps| + 1 && IsRun(states, steps)
    requires var s := states[|steps|];
      && s.guard == Free && s.mutex == Some(f) && f < c < n < |s.frames|
      && s.frames[n].pc.Entering? && s.frames[n].caller == Some(c) && s.frames[c].caller == Some(f)
    ensures |states'| == |steps'| + 1 && GetsStuck(states, steps, states', steps', f, n)
    ensures var frames, frames' := states[|steps|].frames, states'[|steps'|].frames;
      |frames'| == |frames| && forall u :: 0 <= u < |frames| && u != n ==> frames'[u] == frames[u]
  {
    hide IsRun;
    states', steps' := states, steps;
    var s: State;
    states', steps', s := Extend(states', steps', Flags(n, true));
    states', steps', s := Extend(states', steps', Load(n));
    states', steps', s := Extend(states', steps', Iterate(n, true));
    states', steps', s := Extend(states', steps', Arm(n));
    assert OnStack(s.frames, f, c);
    assert OnStack(s.frames, f, n);
  }

  /**
   A callback with an error that the node makes from inside the request of frame `f`: let it be about to
   end the update.  Its thread can come to wait for itself if and only if an update is demanded at that
   moment.
   */
  lemma StuckExactlyIfDemanded(states: seq<State>, steps: seq<Step>, f: nat, c: nat)
    requires |states| == |steps| + 1 && IsRun(states, steps)
    requires var s := states[|steps|];
      && f < |s.frames| && c < |s.frames| && s.frames[f].pc == InNode(c)
      && s.frames[c].pc == EndLoop(s.guard)
    ensures Enabled(states[|steps|], Iterate(c, true))
    ensures var states1, steps1 := states + [Apply(states[|steps|], Iterate(c, true))], steps + [Iterate(c, true)];
      (states[|steps|].guard == UpdateRequired <==>
        exists states', steps', u :: GetsStuck(states1, steps1, states', steps', f, u))
  {
    var s := states[|steps|];
    assert s.mutex == Some(f) && s.frames[c].caller == Some(f) && f < c by {
      Reachable(states, steps, |steps|);
      assert FrameOk(s, f) && FrameOk(s, c);
    }
    var states1, steps1, s1 := Extend(states, steps, Iterate(c, true));
    if s.guard == UpdateRequired {
      var states', steps' := RerunSticks(states1, steps1, f, c, |s.frames|);
    } else {
      assert Quiet(s1, f);
      QuietNeverStuck(states1, steps1, f);
    }
  }

  /** If the flags turn the re-run away, the callback does not get stuck after all. */
  lemma FlagsOffNotStuck(states: seq<State>, steps: seq<Step>, f: nat, c: nat, n: nat)
    requires |states| == |steps| + 1 && IsRun(states, steps)
    requires var s := states[|steps|];
      && f < |s.frames| && c < |s.frames| && n < |s.frames|
      && s.frames[f].pc == InNode(c) && s.frames[c].pc == InHandler(n) && s.frames[n].pc.Entering?
    ensures Enabled(states[|steps|], Flags(n, false))
    ensures var states1, steps1 := states + [Apply(states[|steps|], Flags(n, false))], steps + [Flags(n, false)];
      !exists states', steps', u :: GetsStuck(states1, steps1, states', steps', f, u)
  {
    var states1, steps1, s1 := Extend(states, steps, Flags(n, false));
    assert Quiet(s1, f);
    QuietNeverStuck(states1, steps1, f);
  }

  /** A second call demands an update; then the node answers the first one's request with an error, on its thread. */
  lemma CalledBackInside() returns (states: seq<State>, steps: seq<Step>)
    ensures |states| == |steps| + 1 && IsRun(states, steps)
    ensures var s := states[|steps|];
      && s.guard == UpdateRequired && s.mutex == Some(0) && |s.frames| == 3 && s.frames[0].pc == InNode(2)
      && s.frames[2] == Frame(Leaving, Some(0), true, 0)
  {
    hide IsRun;
    states, steps := Demanded();
    var s: State;
    states, steps, s := Extend(states, steps, Arm(0));
    states, steps, s := Extend(states, steps, Acquire(0));
    states, steps, s := Extend(states, steps, HandOver(0, true));
    states, steps, s := Extend(states, steps, AnswerError(2));
    states, steps, s := Extend(states, steps, Arm(2));
  }

  /** A run that gets stuck. */
  lemma StuckRun() returns (states: seq<State>, steps: seq<Step>, t: nat)
    ensures |states| == |steps| + 1 && IsRun(states, steps) && t < |states[|steps|].frames| && Stuck(states[|steps|], t)
  {
    hide IsRun;
    states, steps := CalledBackInside();
    var s: State;
    states, steps, s := Extend(states, steps, Release(2));
    states, steps, s := Extend(states, steps, ScopeExit(2));
    states, steps, s := Extend(states, steps, Load(2));
    states, steps, s := Extend(states, steps, Iterate(2, true));
    t := 3;
    states, steps := RerunSticks(states, steps, 0, 2, 3);
  }

  /**
   A frame that needs the mutex on a thread that holds it never gets it: neither a callback with an answer
   that the node makes from inside the request, nor an update begun there.
   */
  lemma {:induction false} NeverGetsMutex(states: seq<State>, steps: seq<Step>, i: nat, j: nat, t: nat)
    requires IsRun(states, steps) && i <= j <= |steps| && t < |states[i].frames| && OwnsMutex(states[i], t)
    requires states[i].frames[t].pc.Opening? || states[i].frames[t].pc.Locking?
    ensures t < |states[j].frames| && OwnsMutex(states[j], t)
    ensures states[j].frames[t].pc.Opening? || Stuck(states[j], t)
    decreases j - i
  {
    hide Inv, OwnsMutex, Enabled, Effect;
    if i < j {
      NeverGetsMutex(states, steps, i, j - 1, t);
      var s, step := states[j - 1], steps[j - 1];
      Reachable(states, steps, j - 1);
      assert Stacked(s) by { InvStacked(s); }
      OwnedIsHeld(s, t);
      MutexStays(s, step, t);
      OthersKept(s, step);
      if HasFrame(step) && step.t == t {
        OpeningStep(s, step);
      }
    }
  }

  lemma OpeningStep(s: State, step: Step)
    requires Enabled(s, step) && HasFrame(step) && s.mutex.Some?
    requires s.frames[step.t].pc.Opening? || s.frames[step.t].pc.Locking?
    ensures Apply(s, step).frames[step.t].pc.Locking?
  {
  }
}
