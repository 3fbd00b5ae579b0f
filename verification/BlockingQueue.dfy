/**
 The bounded blocking queue as a system of threads.

 A thread that has called `push`, `pop` or `close` contends for the mutex; once it has it,
 it runs to its return or to a wait.  Because everything is done under the mutex, that run
 is one step.  A waiting thread sleeps until it is notified, or wakes for no reason at all,
 and then contends for the mutex again.  Any number of threads may call in any order.
 */
module BlockingQueue {
  import opened Bytes

  datatype Op<T> = Push(v: T) | Pop | Close(wait: bool)

  /** `Calling` threads enter the operation; `Awake` threads return from a wait inside it. */
  datatype Phase<T> = Idle | Calling(op: Op<T>) | Asleep(op: Op<T>) | Awake(op: Op<T>)

  /** `pushed` and `popped` record the items that went in and out, in the order of the lock. */
  datatype State<T> = State(queue: seq<T>, closed: bool, threads: seq<Phase<T>>, pushed: seq<T>, popped: seq<T>)

  /** Which condition variable a sleeping operation waits on. */
  datatype Condition = HaveData | HaveSpace

  predicate WaitsOn<T>(p: Phase<T>, c: Condition) {
    p.Asleep? && (p.op.Pop? <==> c == HaveData)
  }

  predicate SomeWaiter<T>(threads: seq<Phase<T>>, c: Condition) {
    exists t :: 0 <= t < |threads| && WaitsOn(threads[t], c)
  }

  /** Waking one waiter, named by `w`; nobody is woken when nobody waits. */
  predicate CanNotify<T>(threads: seq<Phase<T>>, c: Condition, w: Option<nat>) {
    match w
    case None => !SomeWaiter(threads, c)
    case Some(t) => t < |threads| && WaitsOn(threads[t], c)
  }

  function NotifyOne<T>(threads: seq<Phase<T>>, c: Condition, w: Option<nat>): seq<Phase<T>>
    requires CanNotify(threads, c, w)
  {
    match w
    case None => threads
    case Some(t) => threads[t := Awake(threads[t].op)]
  }

  function NotifyAll<T>(threads: seq<Phase<T>>, c: Condition): (r: seq<Phase<T>>)
    ensures |r| == |threads|
  {
    seq(|threads|, t requires 0 <= t < |threads| =>
      if WaitsOn(threads[t], c) then Awake(threads[t].op) else threads[t])
  }

  //////////////////////////////////////////////////////////////////////////////
  // The critical sections
  //////////////////////////////////////////////////////////////////////////////

  /** What a critical section ends with. */
  datatype Outcome<T> = Waits | Returns(ok: bool)

  /** The test at the head of each wait loop, and where a return goes. */
  function OutcomeOf<T>(s: State<T>, capacity: nat, p: Phase<T>): Outcome<T>
    requires p.Calling? || p.Awake?
  {
    match p.op
    case Push(_) =>
      if !s.closed && |s.queue| >= capacity then Waits else Returns(!s.closed)
    case Pop =>
      if s.queue != [] then Returns(true) else if s.closed then Returns(false) else Waits
    case Close(wait) =>
      if (p.Awake? || wait) && s.queue != [] then Waits else Returns(true)
  }

  /** Thread `t` has the mutex and runs; `w` is the waiter its notification reaches. */
  predicate CanRun<T>(s: State<T>, capacity: nat, t: nat, w: Option<nat>) {
    && t < |s.threads| && (s.threads[t].Calling? || s.threads[t].Awake?)
    && var p := s.threads[t];
       var rest := s.threads[t := Idle];
       if OutcomeOf(s, capacity, p) == Returns(true) then
         match p.op
         case Push(_) => CanNotify(rest, HaveData, w)
         case Pop => if s.closed && |s.queue| == 1 then w == None else CanNotify(rest, HaveSpace, w)
         case Close(_) => w == None
       else w == None
  }

  function Run<T>(s: State<T>, capacity: nat, t: nat, w: Option<nat>): State<T>
    requires CanRun(s, capacity, t, w)
  {
    var p := s.threads[t];
    var outcome := OutcomeOf(s, capacity, p);
    var rest := s.threads[t := if outcome == Waits then Asleep(p.op) else Idle];
    match p.op
    case Push(v) =>
      if outcome == Returns(true) then
        s.(queue := s.queue + [v], pushed := s.pushed + [v], threads := NotifyOne(rest, HaveData, w))
      else s.(threads := rest)
    case Pop =>
      if outcome == Returns(true) then
        var q := s.queue[1..];
        s.(queue := q, popped := s.popped + [s.queue[0]],
           threads := if s.closed && q == [] then NotifyAll(rest, HaveSpace) else NotifyOne(rest, HaveSpace, w))
      else s.(threads := rest)
    case Close(_) =>
      if p.Calling? then
        // closing wakes every thread that sleeps so far, and only then may this one fall asleep
        var woken := NotifyAll(NotifyAll(s.threads[t := Idle], HaveData), HaveSpace);
        s.(closed := true, threads := woken[t := if outcome == Waits then Asleep(p.op) else Idle])
      else s.(threads := rest)
  }

  datatype Step<T> =
    | Call(t: nat, op: Op<T>)
    | Section(t: nat, w: Option<nat>)
    | SpuriousWakeup(t: nat)

  predicate Enabled<T>(s: State<T>, capacity: nat, step: Step<T>) {
    match step
    case Call(t, _) => t < |s.threads| && s.threads[t].Idle?
    case Section(t, w) => CanRun(s, capacity, t, w)
    case SpuriousWakeup(t) => t < |s.threads| && s.threads[t].Asleep?
  }

  function Apply<T>(s: State<T>, capacity: nat, step: Step<T>): State<T>
    requires Enabled(s, capacity, step)
  {
    match step
    case Call(t, op) => s.(threads := s.threads[t := Calling(op)])
    case Section(t, w) => Run(s, capacity, t, w)
    case SpuriousWakeup(t) => s.(threads := s.threads[t := Awake(s.threads[t].op)])
  }

  ghost predicate IsInitial<T>(s: State<T>) {
    && s.queue == [] && !s.closed && s.pushed == [] && s.popped == []
    && forall t :: 0 <= t < |s.threads| ==> s.threads[t].Idle?
  }

  /** A run: states and the steps between them. */
  ghost predicate IsRun<T>(states: seq<State<T>>, steps: seq<Step<T>>, capacity: nat) {
    && |states| == |steps| + 1 && IsInitial(states[0])
    && forall i :: 0 <= i < |steps| ==>
         Enabled(states[i], capacity, steps[i]) && states[i + 1] == Apply(states[i], capacity, steps[i])
  }

  //////////////////////////////////////////////////////////////////////////////
  // Counting threads
  //////////////////////////////////////////////////////////////////////////////

  ghost function Count<T>(threads: seq<Phase<T>>, p: Phase<T> -> bool): nat {
    if threads == [] then 0 else (if p(threads[0]) then 1 else 0) + Count(threads[1..], p)
  }

  lemma {:induction false} CountUpdate<T>(threads: seq<Phase<T>>, p: Phase<T> -> bool, t: nat, x: Phase<T>)
    requires t < |threads|
    ensures Count(threads[t := x], p) + (if p(threads[t]) then 1 else 0)
         == Count(threads, p) + (if p(x) then 1 else 0)
    decreases |threads|
  {
    var u := threads[t := x];
    if t == 0 {
      assert u[1..] == threads[1..];
    } else {
      assert u[1..] == threads[1..][t - 1 := x];
      CountUpdate(threads[1..], p, t - 1, x);
    }
  }

  /** Sequences of threads that look alike to `p` count alike. */
  lemma {:induction false} CountAlike<T>(a: seq<Phase<T>>, b: seq<Phase<T>>, p: Phase<T> -> bool)
    requires |a| == |b| && forall t :: 0 <= t < |a| ==> p(a[t]) == p(b[t])
    ensures Count(a, p) == Count(b, p)
    decreases |a|
  {
    if a != [] {
      CountAlike(a[1..], b[1..], p);
    }
  }

  lemma {:induction false} CountZero<T>(threads: seq<Phase<T>>, p: Phase<T> -> bool)
    ensures Count(threads, p) == 0 <==> forall t :: 0 <= t < |threads| ==> !p(threads[t])
    decreases |threads|
  {
    if threads != [] {
      CountZero(threads[1..], p);
      if forall t :: 0 <= t < |threads| - 1 ==> !p(threads[1..][t]) {
        forall t | 0 < t < |threads| ensures !p(threads[t]) {
          assert threads[t] == threads[1..][t - 1];
        }
      }
      if forall t :: 0 <= t < |threads| ==> !p(threads[t]) {
        forall t | 0 <= t < |threads| - 1 ensures !p(threads[1..][t]) {
          assert threads[1..][t] == threads[t + 1];
        }
      }
    }
  }

  predicate IsAwakePop<T>(p: Phase<T>) { p.Awake? && p.op.Pop? }

  predicate IsAwakePush<T>(p: Phase<T>) { p.Awake? && p.op.Push? }

  predicate IsReady<T>(p: Phase<T>) { p.Calling? || p.Awake? }

  predicate IsBusy<T>(p: Phase<T>) { !p.Idle? }

  predicate IsEnteringClose<T>(p: Phase<T>) { p.Calling? && p.op.Close? }

  ghost function AwakePops<T>(threads: seq<Phase<T>>): nat { Count(threads, IsAwakePop) }

  ghost function AwakePushes<T>(threads: seq<Phase<T>>): nat { Count(threads, IsAwakePush) }

  lemma AwakeUpdate<T>(threads: seq<Phase<T>>, t: nat, x: Phase<T>)
    requires t < |threads|
    ensures AwakePops(threads[t := x]) + (if IsAwakePop(threads[t]) then 1 else 0)
         == AwakePops(threads) + (if IsAwakePop(x) then 1 else 0)
    ensures AwakePushes(threads[t := x]) + (if IsAwakePush(threads[t]) then 1 else 0)
         == AwakePushes(threads) + (if IsAwakePush(x) then 1 else 0)
  {
    CountUpdate(threads, IsAwakePop, t, x);
    CountUpdate(threads, IsAwakePush, t, x);
  }

  //////////////////////////////////////////////////////////////////////////////
  // What every state of every run keeps
  //////////////////////////////////////////////////////////////////////////////

  /**
   Why a sleeping thread may sleep.  A sleeping `pop` has as many woken ones to take the items
   there are, a sleeping `push` as many woken ones to fill the space there is, and a sleeping
   `close` has items left to wait for.
   */
  ghost predicate MaySleep<T>(s: State<T>, capacity: nat, op: Op<T>) {
    match op
    case Pop => !s.closed && |s.queue| <= AwakePops(s.threads)
    case Push(_) => !s.closed && capacity - |s.queue| <= AwakePushes(s.threads)
    case Close(wait) => wait && s.closed && s.queue != []
  }

  ghost predicate Inv<T>(s: State<T>, capacity: nat) {
    && |s.queue| <= capacity
    && s.popped + s.queue == s.pushed
    && (forall t :: 0 <= t < |s.threads| && s.threads[t].Asleep? ==> MaySleep(s, capacity, s.threads[t].op))
    && (forall t :: 0 <= t < |s.threads| && s.threads[t].Awake? && s.threads[t].op.Close? ==>
          s.closed && s.threads[t].op.wait)
  }

  lemma CallKeeps<T>(s: State<T>, capacity: nat, t: nat, op: Op<T>)
    requires Inv(s, capacity) && Enabled(s, capacity, Call(t, op))
    ensures Inv(Apply(s, capacity, Call(t, op)), capacity)
  {
    AwakeUpdate(s.threads, t, Calling(op));
  }

  lemma WakeupKeeps<T>(s: State<T>, capacity: nat, t: nat)
    requires Inv(s, capacity) && Enabled(s, capacity, SpuriousWakeup(t))
    ensures Inv(Apply(s, capacity, SpuriousWakeup(t)), capacity)
  {
    AwakeUpdate(s.threads, t, Awake(s.threads[t].op));
  }

  lemma PushKeeps<T>(s: State<T>, capacity: nat, t: nat, w: Option<nat>)
    requires Inv(s, capacity) && CanRun(s, capacity, t, w) && s.threads[t].op.Push?
    ensures Inv(Run(s, capacity, t, w), capacity)
  {
    var p := s.threads[t];
    var outcome := OutcomeOf(s, capacity, p);
    var rest := s.threads[t := if outcome == Waits then Asleep(p.op) else Idle];
    AwakeUpdate(s.threads, t, rest[t]);
    if outcome == Returns(true) && w.Some? {
      AwakeUpdate(rest, w.value, Awake(rest[w.value].op));
    }
  }

  /** The last item of a closed queue: everyone waiting for space is woken. */
  lemma LastPopKeeps<T>(s: State<T>, capacity: nat, t: nat)
    requires Inv(s, capacity) && CanRun(s, capacity, t, None) && s.threads[t].op.Pop?
    requires s.closed && |s.queue| == 1
    ensures Inv(Run(s, capacity, t, None), capacity)
  {
    hide Count;
    var s' := Run(s, capacity, t, None);
    assert s'.popped + s'.queue == s.popped + ([s.queue[0]] + s.queue[1..]);
  }

  /** Any other item: one thread waiting for space is woken, if there is one. */
  lemma NextPop<T>(s: State<T>, capacity: nat, t: nat, w: Option<nat>)
    requires CanRun(s, capacity, t, w) && s.threads[t].op.Pop?
    requires s.queue != [] && !(s.closed && |s.queue| == 1)
    ensures CanNotify(s.threads[t := Idle], HaveSpace, w)
    ensures Run(s, capacity, t, w) == s.(queue := s.queue[1..], popped := s.popped + [s.queue[0]],
                                         threads := NotifyOne(s.threads[t := Idle], HaveSpace, w))
  {
  }

  lemma NextPopKeeps<T>(s: State<T>, capacity: nat, t: nat, w: Option<nat>)
    requires Inv(s, capacity) && CanRun(s, capacity, t, w) && s.threads[t].op.Pop?
    requires s.queue != [] && !(s.closed && |s.queue| == 1)
    ensures Inv(Run(s, capacity, t, w), capacity)
  {
    hide Count, Run;
    NextPop(s, capacity, t, w);
    var rest := s.threads[t := Idle];
    AwakeUpdate(s.threads, t, Idle);
    if w.Some? {
      AwakeUpdate(rest, w.value, Awake(rest[w.value].op));
    }
    assert s.queue == [s.queue[0]] + s.queue[1..];
  }

  lemma PopKeeps<T>(s: State<T>, capacity: nat, t: nat, w: Option<nat>)
    requires Inv(s, capacity) && CanRun(s, capacity, t, w) && s.threads[t].op.Pop?
    ensures Inv(Run(s, capacity, t, w), capacity)
  {
    if s.queue == [] {
      hide Count;
      AwakeUpdate(s.threads, t, if s.closed then Idle else Asleep(s.threads[t].op));
    } else if s.closed && |s.queue| == 1 {
      LastPopKeeps(s, capacity, t);
    } else {
      NextPopKeeps(s, capacity, t, w);
    }
  }

  lemma CloseKeeps<T>(s: State<T>, capacity: nat, t: nat, w: Option<nat>)
    requires Inv(s, capacity) && CanRun(s, capacity, t, w) && s.threads[t].op.Close?
    ensures Inv(Run(s, capacity, t, w), capacity)
  {
    var p := s.threads[t];
    AwakeUpdate(s.threads, t, if OutcomeOf(s, capacity, p) == Waits then Asleep(p.op) else Idle);
  }

  lemma StepKeeps<T>(s: State<T>, capacity: nat, step: Step<T>)
    requires Inv(s, capacity) && Enabled(s, capacity, step)
    ensures Inv(Apply(s, capacity, step), capacity)
  {
    match step {
      case Call(t, op) => CallKeeps(s, capacity, t, op);
      case SpuriousWakeup(t) => WakeupKeeps(s, capacity, t);
      case Section(t, w) =>
        if s.threads[t].op.Push? {
          PushKeeps(s, capacity, t, w);
        } else if s.threads[t].op.Pop? {
          PopKeeps(s, capacity, t, w);
        } else {
          CloseKeeps(s, capacity, t, w);
        }
    }
  }

  lemma {:induction false} Reachable<T>(states: seq<State<T>>, steps: seq<Step<T>>, capacity: nat, i: nat)
    requires IsRun(states, steps, capacity) && i <= |steps|
    ensures Inv(states[i], capacity)
  {
    hide Inv, Enabled, Apply;
    if i == 0 {
      assert Inv(states[0], capacity) by { InitialKeeps(states[0], capacity); }
    } else {
      Reachable(states, steps, capacity, i - 1);
      StepKeeps(states[i - 1], capacity, steps[i - 1]);
    }
  }

  lemma InitialKeeps<T>(s: State<T>, capacity: nat)
    requires IsInitial(s)
    ensures Inv(s, capacity)
  {
  }

  //////////////////////////////////////////////////////////////////////////////
  // Safety: order, closing, and what the answers mean
  //////////////////////////////////////////////////////////////////////////////

  /** One step: what went in and out only grows, and a closed queue stays closed and takes nothing. */
  lemma StepGrows<T>(s: State<T>, capacity: nat, step: Step<T>)
    requires Enabled(s, capacity, step)
    ensures var s' := Apply(s, capacity, step);
      && s.pushed <= s'.pushed && s.popped <= s'.popped
      && (s.closed ==> s'.closed && s'.pushed == s.pushed)
  {
  }

  /** No push succeeds after close, in any run. */
  lemma {:induction false} ClosedForGood<T>(
      states: seq<State<T>>, steps: seq<Step<T>>, capacity: nat, i: nat, j: nat)
    requires IsRun(states, steps, capacity) && i <= j <= |steps|
    ensures states[i].pushed <= states[j].pushed && states[i].popped <= states[j].popped
    ensures states[i].closed ==> states[j].closed && states[j].pushed == states[i].pushed
    decreases j - i
  {
    hide Enabled, Apply;
    if i < j {
      ClosedForGood(states, steps, capacity, i, j - 1);
      StepGrows(states[j - 1], capacity, steps[j - 1]);
    }
  }

  /** The operation thread `t` finishes in this step, if it does. */
  function Finishes<T>(s: State<T>, capacity: nat, step: Step<T>): Option<(Op<T>, bool)>
    requires Enabled(s, capacity, step)
  {
    if step.Section? && OutcomeOf(s, capacity, s.threads[step.t]).Returns? then
      Some((s.threads[step.t].op, OutcomeOf(s, capacity, s.threads[step.t]).ok))
    else None
  }

  /**
   What the answers mean in every run.  A `push` says true exactly when its item is appended, which
   a closed queue never allows.  A `pop` says true exactly when it takes the oldest item not yet
   taken.  A `pop` that says false, and a waiting `close` that returns, find the queue closed and
   everything ever pushed taken, and it stays that way to the end of the run.
   */
  lemma Answers<T>(states: seq<State<T>>, steps: seq<Step<T>>, capacity: nat, i: nat, j: nat)
    requires IsRun(states, steps, capacity) && i < j <= |steps|
    ensures var s, s' := states[i], states[i + 1];
      match Finishes(s, capacity, steps[i])
      case None => s'.pushed == s.pushed && s'.popped == s.popped
      case Some((Push(v), ok)) =>
        && s'.pushed == (if ok then s.pushed + [v] else s.pushed) && s'.popped == s.popped
        && ok == !s.closed
      case Some((Pop, ok)) =>
        && s'.pushed == s.pushed
        && (ok ==> |s.popped| < |s.pushed| && s'.popped == s.pushed[..|s.popped| + 1])
        && (!ok ==> s.closed && states[j].closed && states[j].popped == states[j].pushed == s.popped)
      case Some((Close(wait), _)) =>
        && s'.closed
        && (wait ==> states[j].closed && states[j].popped == states[j].pushed == s.popped)
  {
    Reachable(states, steps, capacity, i);
    Reachable(states, steps, capacity, j);
    ClosedForGood(states, steps, capacity, i + 1, j);
    var s := states[i];
    assert steps[i].Section? && s.queue != [] ==> s.pushed[..|s.popped| + 1] == s.popped + [s.queue[0]];
  }

  //////////////////////////////////////////////////////////////////////////////
  // No lost wakeup, no deadlock
  //////////////////////////////////////////////////////////////////////////////

  ghost predicate Quiescent<T>(s: State<T>) {
    forall t :: 0 <= t < |s.threads| ==> !IsReady(s.threads[t])
  }

  ghost predicate SomeAsleep<T>(s: State<T>, op: Op<T> -> bool) {
    exists t :: 0 <= t < |s.threads| && s.threads[t].Asleep? && op(s.threads[t].op)
  }

  /**
   When nobody can take the mutex, whoever sleeps has reason to: a `pop` sleeps only on an
   open empty queue, a `push` only on an open full one, a `close` only on one with items left.
   So unless the capacity is zero, `push` and `pop` never sleep at the same time.
   */
  lemma Blocked<T>(states: seq<State<T>>, steps: seq<Step<T>>, capacity: nat, i: nat)
    requires IsRun(states, steps, capacity) && i <= |steps| && Quiescent(states[i])
    ensures var s := states[i];
      && (SomeAsleep(s, (op: Op<T>) => op.Pop?) ==> !s.closed && s.queue == [])
      && (SomeAsleep(s, (op: Op<T>) => op.Push?) ==> !s.closed && |s.queue| == capacity)
      && (SomeAsleep(s, (op: Op<T>) => op.Close?) ==> s.closed && s.queue != [])
      && (capacity > 0 ==> !(SomeAsleep(s, (op: Op<T>) => op.Pop?) && SomeAsleep(s, (op: Op<T>) => op.Push?)))
  {
    Reachable(states, steps, capacity, i);
    CountZero(states[i].threads, IsAwakePop);
    CountZero(states[i].threads, IsAwakePush);
  }

  /** Whoever contends for the mutex can run once it is free. */
  lemma CanAlwaysRun<T>(s: State<T>, capacity: nat, t: nat) returns (w: Option<nat>)
    requires t < |s.threads| && IsReady(s.threads[t])
    ensures CanRun(s, capacity, t, w)
  {
    var c := if s.threads[t].op.Push? then HaveData else HaveSpace;
    var rest := s.threads[t := Idle];
    w := None;
    if CanRun(s, capacity, t, None) {
    } else {
      var u :| 0 <= u < |rest| && WaitsOn(rest[u], c);
      w := Some(u);
    }
  }

  lemma {:induction false} CountBound<T>(threads: seq<Phase<T>>, p: Phase<T> -> bool)
    ensures Count(threads, p) <= |threads|
    decreases |threads|
  {
    if threads != [] {
      CountBound(threads[1..], p);
    }
  }

  /** How many critical sections can still run if nobody calls and nobody wakes for no reason. */
  ghost function Work<T>(s: State<T>): nat {
    (Count(s.threads, IsEnteringClose) + Count(s.threads, IsBusy)) * (|s.threads| + 1) + Count(s.threads, IsReady)
  }

  lemma WorkBound(x: nat, x': nat, c: nat, c': nat, n: nat)
    requires c' <= n
    requires (x' < x && c > 0) || (x' == x && c' < c)
    ensures x' * (n + 1) + c' < x * (n + 1) + c
  {
    if x' < x {
      Monotone(x', x - 1, n + 1);
      assert (x - 1) * (n + 1) == x * (n + 1) - (n + 1);
    }
  }

  lemma Monotone(x: nat, y: nat, n: nat)
    requires x <= y
    ensures x * n <= y * n
  {
  }

  /** Notifications leave alone who is busy and who has yet to enter `close`. */
  lemma OnlyWakes<T>(s: State<T>, capacity: nat, t: nat, w: Option<nat>, rest: seq<Phase<T>>)
    requires CanRun(s, capacity, t, w)
    requires rest == s.threads[t := if OutcomeOf(s, capacity, s.threads[t]) == Waits then Asleep(s.threads[t].op) else Idle]
    ensures var threads := Run(s, capacity, t, w).threads;
      && |threads| == |rest|
      && (forall u :: 0 <= u < |rest| ==> IsBusy(threads[u]) == IsBusy(rest[u]))
      && (forall u :: 0 <= u < |rest| ==> IsEnteringClose(threads[u]) == IsEnteringClose(rest[u]))
      && (rest[t].Asleep? && !IsEnteringClose(s.threads[t]) ==> threads == rest)
  {
  }

  lemma Progress<T>(s: State<T>, capacity: nat, t: nat, w: Option<nat>)
    requires CanRun(s, capacity, t, w)
    ensures Work(Run(s, capacity, t, w)) < Work(s)
    ensures |Run(s, capacity, t, w).threads| == |s.threads|
  {
    hide Count, Run;
    var threads := Run(s, capacity, t, w).threads;
    var p := s.threads[t];
    var x: Phase<T> := if OutcomeOf(s, capacity, p) == Waits then Asleep(p.op) else Idle;
    var rest := s.threads[t := x];
    OnlyWakes(s, capacity, t, w, rest);
    CountUpdate(s.threads, IsEnteringClose, t, x);
    CountUpdate(s.threads, IsBusy, t, x);
    CountUpdate(s.threads, IsReady, t, x);
    CountAlike(rest, threads, IsEnteringClose);
    CountAlike(rest, threads, IsBusy);
    CountBound(threads, IsReady);
    WorkBound(
      Count(s.threads, IsEnteringClose) + Count(s.threads, IsBusy),
      Count(threads, IsEnteringClose) + Count(threads, IsBusy),
      Count(s.threads, IsReady), Count(threads, IsReady), |s.threads|);
  }

  /** In any run, at most `Work` critical sections follow each other without a new call or a spurious wakeup. */
  lemma {:induction false} SectionsEnd<T>(
      states: seq<State<T>>, steps: seq<Step<T>>, capacity: nat, i: nat, j: nat)
    requires IsRun(states, steps, capacity) && i <= j <= |steps|
    requires forall k :: i <= k < j ==> steps[k].Section?
    ensures j - i + Work(states[j]) <= Work(states[i])
    decreases j - i
  {
    hide Work;
    if i < j {
      SectionsEnd(states, steps, capacity, i, j - 1);
      var step := steps[j - 1];
      Progress(states[j - 1], capacity, step.t, step.w);
    }
  }

  /**
   From any state of any run, the threads contending for the mutex alone bring the queue to rest:
   with `Blocked`, to a state in which nobody sleeps without reason.
   */
  lemma {:induction false} Settles<T>(states: seq<State<T>>, steps: seq<Step<T>>, capacity: nat)
    returns (states': seq<State<T>>, steps': seq<Step<T>>)
    requires IsRun(states, steps, capacity)
    ensures IsRun(states', steps', capacity) && states <= states' && steps <= steps'
    ensures forall k :: |steps| <= k < |steps'| ==> steps'[k].Section?
    ensures Quiescent(states'[|steps'|])
    decreases Work(states[|steps|])
  {
    states', steps' := states, steps;
    var s := states[|steps|];
    if !Quiescent(s) {
      hide CanRun, Run, Work;
      var t :| 0 <= t < |s.threads| && IsReady(s.threads[t]);
      var w := CanAlwaysRun(s, capacity, t);
      Progress(s, capacity, t, w);
      states', steps' := Settles(states + [Run(s, capacity, t, w)], steps + [Section(t, w)], capacity);
    }
  }

  //////////////////////////////////////////////////////////////////////////////
  // Who is woken
  //////////////////////////////////////////////////////////////////////////////

  predicate WaitsForData<T>(p: Phase<T>) { WaitsOn(p, HaveData) }

  predicate WaitsForSpace<T>(p: Phase<T>) { WaitsOn(p, HaveSpace) }

  /** One fewer, if there is one. */
  function Fewer(n: nat): nat { if n == 0 then 0 else n - 1 }

  /** One notification of a condition wakes exactly one of its waiters, if there is one, and none of the other's. */
  lemma NotifyOneWakesOne<T>(threads: seq<Phase<T>>, c: Condition, w: Option<nat>)
    requires CanNotify(threads, c, w)
    ensures var woken, data, space := NotifyOne(threads, c, w), Count(threads, WaitsForData), Count(threads, WaitsForSpace);
      && Count(woken, WaitsForData) == (if c == HaveData then Fewer(data) else data)
      && Count(woken, WaitsForSpace) == (if c == HaveSpace then Fewer(space) else space)
  {
    CountZero(threads, WaitsForData);
    CountZero(threads, WaitsForSpace);
    if w.Some? {
      CountUpdate(threads, WaitsForData, w.value, Awake(threads[w.value].op));
      CountUpdate(threads, WaitsForSpace, w.value, Awake(threads[w.value].op));
    }
  }

  /** A successful `push` wakes exactly one `pop`, if one waits, and nobody else. */
  lemma PushWakesOne<T>(s: State<T>, capacity: nat, t: nat, w: Option<nat>)
    requires CanRun(s, capacity, t, w) && s.threads[t].op.Push? && OutcomeOf(s, capacity, s.threads[t]) == Returns(true)
    ensures var s' := Run(s, capacity, t, w);
      && Count(s'.threads, WaitsForData) == Fewer(Count(s.threads, WaitsForData))
      && Count(s'.threads, WaitsForSpace) == Count(s.threads, WaitsForSpace)
  {
    CountUpdate(s.threads, WaitsForData, t, Idle);
    CountUpdate(s.threads, WaitsForSpace, t, Idle);
    NotifyOneWakesOne(s.threads[t := Idle], HaveData, w);
  }

  /**
   A successful `pop` wakes exactly one thread that waits for space, if one does, and nobody else; but when it
   empties a closed queue it wakes all of them.
   */
  lemma PopWakes<T>(s: State<T>, capacity: nat, t: nat, w: Option<nat>)
    requires CanRun(s, capacity, t, w) && s.threads[t].op.Pop? && OutcomeOf(s, capacity, s.threads[t]) == Returns(true)
    ensures var s' := Run(s, capacity, t, w);
      && Count(s'.threads, WaitsForData) == Count(s.threads, WaitsForData)
      && Count(s'.threads, WaitsForSpace)
         == if s.closed && |s.queue| == 1 then 0 else Fewer(Count(s.threads, WaitsForSpace))
  {
    CountUpdate(s.threads, WaitsForData, t, Idle);
    CountUpdate(s.threads, WaitsForSpace, t, Idle);
    var rest := s.threads[t := Idle];
    if s.closed && |s.queue| == 1 {
      CountZero(NotifyAll(rest, HaveSpace), WaitsForSpace);
      CountAlike(rest, NotifyAll(rest, HaveSpace), WaitsForData);
    } else {
      NotifyOneWakesOne(rest, HaveSpace, w);
    }
  }

  /** Entering `close` wakes everybody; nobody waits afterwards but the closing thread itself, if it has to. */
  lemma CloseWakesAll<T>(s: State<T>, capacity: nat, t: nat)
    requires CanRun(s, capacity, t, None) && s.threads[t].op.Close? && s.threads[t].Calling?
    ensures var s' := Run(s, capacity, t, None);
      && s'.closed && s'.queue == s.queue && Count(s'.threads, WaitsForData) == 0
      && Count(s'.threads, WaitsForSpace) == if s.threads[t].op.wait && s.queue != [] then 1 else 0
  {
    var s' := Run(s, capacity, t, None);
    var woken := NotifyAll(NotifyAll(s.threads[t := Idle], HaveData), HaveSpace);
    CountZero(s'.threads, WaitsForData);
    CountZero(woken, WaitsForSpace);
    CountUpdate(woken, WaitsForSpace, t, s'.threads[t]);
  }

  //////////////////////////////////////////////////////////////////////////////
  // The operations in the form they are written
  //////////////////////////////////////////////////////////////////////////////

  /**
   The queue object together with the threads its mutex and conditions schedule.  Each method is
   what thread `t` does from taking the mutex to returning or waiting.
   */
  class Queue<T> {
    const maxSize: nat
    var queue: seq<T>
    var closed: bool
    var threads: seq<Phase<T>>
    ghost var pushed: seq<T>
    ghost var popped: seq<T>

    constructor (maxSize: nat, threadCount: nat)
      ensures this.maxSize == maxSize && IsInitial(Now()) && |threads| == threadCount
    {
      this.maxSize := maxSize;
      queue, closed, pushed, popped := [], false, [], [];
      threads := seq(threadCount, _ => Idle);
    }

    ghost function Now(): State<T>
      reads this
    {
      State(queue, closed, threads, pushed, popped)
    }

    method NotifyOneOf(c: Condition) returns (ghost w: Option<nat>)
      modifies `threads
      ensures CanNotify(old(threads), c, w) && threads == NotifyOne(old(threads), c, w)
    {
      if SomeWaiter(threads, c) {
        var u :| 0 <= u < |threads| && WaitsOn(threads[u], c);
        threads := threads[u := Awake(threads[u].op)];
        w := Some(u);
      } else {
        w := None;
      }
    }

    method Pushing(t: nat, v: T) returns (outcome: Outcome<T>, ghost w: Option<nat>)
      requires t < |threads| && IsReady(threads[t]) && threads[t].op == Push(v)
      modifies this
      ensures CanRun(old(Now()), maxSize, t, w)
      ensures Now() == Run(old(Now()), maxSize, t, w)
      ensures outcome == OutcomeOf(old(Now()), maxSize, old(threads[t]))
    {
      w := None;
      if !closed && |queue| >= maxSize {
        threads := threads[t := Asleep(Push(v))];
        return Waits, w;
      }
      threads := threads[t := Idle];
      if closed {
        return Returns(false), w;
      }
      queue := queue + [v];
      pushed := pushed + [v];
      w := NotifyOneOf(HaveData);
      outcome := Returns(true);
    }

    method Popping(t: nat) returns (outcome: Outcome<T>, v: Option<T>, ghost w: Option<nat>)
      requires t < |threads| && IsReady(threads[t]) && threads[t].op == Pop
      modifies this
      ensures CanRun(old(Now()), maxSize, t, w)
      ensures Now() == Run(old(Now()), maxSize, t, w)
      ensures outcome == OutcomeOf(old(Now()), maxSize, old(threads[t]))
      ensures outcome == Returns(true) ==> v.Some? && popped == old(popped) + [v.value]
      ensures outcome != Returns(true) ==> v == None
    {
      w, v := None, None;
      if queue == [] {
        if closed {
          threads := threads[t := Idle];
          return Returns(false), v, w;
        }
        threads := threads[t := Asleep(Pop)];
        return Waits, v, w;
      }
      threads := threads[t := Idle];
      v := Some(queue[0]);
      popped := popped + [queue[0]];
      queue := queue[1..];
      if closed && queue == [] {
        threads := NotifyAll(threads, HaveSpace);
      } else {
        w := NotifyOneOf(HaveSpace);
      }
      outcome := Returns(true);
    }

    /** `resumed` is false on entry and true on the way back from a wait. */
    method Closing(t: nat, wait: bool, resumed: bool) returns (outcome: Outcome<T>)
      requires t < |threads| && threads[t] == (if resumed then Awake(Close(wait)) else Calling(Close(wait)))
      requires resumed ==> wait
      modifies this
      ensures CanRun(old(Now()), maxSize, t, None)
      ensures Now() == Run(old(Now()), maxSize, t, None)
      ensures outcome == OutcomeOf(old(Now()), maxSize, old(threads[t]))
    {
      threads := threads[t := Idle];
      if !resumed {
        closed := true;
        threads := NotifyAll(threads, HaveData);
        threads := NotifyAll(threads, HaveSpace);
      }
      outcome := Returns(true);
      if wait {
        if queue != [] {
          threads := threads[t := Asleep(Close(wait))];
          outcome := Waits;
        }
      }
    }
  }
}
