/** The score task queue: any number of workers and one drainer, each step atomic under the queue
    lock except the first look at the ready flag. */
module TaskQueue {

  /** What a thread is doing in `tryProcessOneTask`. */
  datatype Phase<T> =
    | Idle                              // outside, or about to look at the ready flag
    | Looked                            // has seen the flag set, waits for the lock
    | Running(index: nat, payload: T)   // runs a task without the lock

  /** Where the drainer is: preparing a batch, in the loop of `runUntilDone`, or told that all is done. */
  datatype Mode = Outside | Draining | Closing

  /** One completed task: its place in the queue and the payload it ran with. */
  datatype Run<T> = Run(index: nat, payload: T)

  /** Counters, flag and slots of the queue; the threads, the drainer first; the batch and what has been run of it;
      and how many tasks were queued when the drainer was last told that all is done. */
  datatype State<T> = State(
    slots: seq<T>, nTask: nat, nProcessing: nat, nFinished: nat, ready: bool,
    threads: seq<Phase<T>>, mode: Mode, batch: seq<T>, log: seq<Run<T>>, told: nat)

  const DRAINER: nat := 0

  // ----- Steps -----

  datatype Step<T> =
    | Reset
    | Add(payload: T, fits: bool)
    | Open
    | Look(thread: nat)
    | Dispatch(thread: nat)
    | Finish(thread: nat)
    | Close

  /** A thread may take a task step: workers always, the drainer in its loop. */
  ghost predicate MayWork<T>(s: State<T>, t: nat) {
    t < |s.threads| && (t == DRAINER ==> s.mode == Draining)
  }

  /** No thread runs a task. */
  ghost predicate Quiet<T>(s: State<T>) {
    forall t: nat :: t < |s.threads| ==> !s.threads[t].Running?
  }

  /** Tasks may be added at any time; the queue is opened and reset between drains. */
  ghost predicate Enabled<T>(s: State<T>, step: Step<T>) {
    match step
    case Reset => s.mode == Outside
    case Add(_, _) => true
    case Open => s.mode == Outside
    case Look(t) => MayWork(s, t) && s.threads[t].Idle?
    case Dispatch(t) => MayWork(s, t) && s.threads[t].Looked?
    case Finish(t) => MayWork(s, t) && s.threads[t].Running?
    case Close => s.mode == Closing
  }

  ghost function After<T>(s: State<T>, step: Step<T>): State<T>
    requires Enabled(s, step)
  {
    match step
    case Reset => s.(nTask := 0, nProcessing := 0, nFinished := 0, ready := false, batch := [], log := [])
    case Add(p, fits) =>
      if !fits || s.nTask >= |s.slots| then s
      else s.(slots := s.slots[s.nTask := p], nTask := s.nTask + 1, batch := s.batch + [p])
    case Open => s.(ready := true, mode := Draining)
    case Look(t) => if s.ready then s.(threads := s.threads[t := Looked]) else s
    case Dispatch(t) =>
      if s.nFinished >= s.nTask then
        if t == DRAINER then s.(threads := s.threads[t := Idle], mode := Closing, told := s.nTask)
        else s.(threads := s.threads[t := Idle])
      else if s.ready && s.nProcessing < |s.slots| && s.nProcessing < s.nTask then
        s.(threads := s.threads[t := Running(s.nProcessing, s.slots[s.nProcessing])], nProcessing := s.nProcessing + 1)
      else
        s.(threads := s.threads[t := Idle])
    case Finish(t) =>
      s.(threads := s.threads[t := Idle], nFinished := s.nFinished + 1,
         log := s.log + [Run(s.threads[t].index, s.threads[t].payload)])
    case Close => s.(ready := false, mode := Outside)
  }

  ghost predicate Init<T>(s: State<T>) {
    && s.nTask == s.nProcessing == s.nFinished == 0 && !s.ready && s.mode == Outside
    && s.batch == [] && s.log == [] && |s.threads| >= 1 && forall t: nat :: t < |s.threads| ==> s.threads[t].Idle?
  }

  /** The queue is not reset while a task runs. */
  ghost predicate Calm<T>(s: State<T>, step: Step<T>) {
    step.Reset? ==> Quiet(s)
  }

  /** A run: states and the calm steps between them. */
  ghost predicate IsRun<T>(states: seq<State<T>>, steps: seq<Step<T>>) {
    && |states| == |steps| + 1 && Init(states[0])
    && forall i: nat :: i < |steps| ==> RunAt(states, steps, i)
  }

  ghost predicate RunAt<T>(states: seq<State<T>>, steps: seq<Step<T>>, i: nat)
    requires |states| == |steps| + 1 && i < |steps|
  {
    Enabled(states[i], steps[i]) && Calm(states[i], steps[i]) && states[i + 1] == After(states[i], steps[i])
  }

  // ----- The invariant -----

  ghost function Indices<T>(log: seq<Run<T>>): set<nat> {
    if log == [] then {} else Indices(log[..|log| - 1]) + {log[|log| - 1].index}
  }

  ghost predicate Runs<T>(s: State<T>, t: nat, i: nat)
    requires t < |s.threads|
  {
    s.threads[t].Running? && s.threads[t].index == i
  }

  /** A running task is a queued one that has not finished, with its own payload. */
  ghost predicate ThreadOk<T>(s: State<T>, t: nat)
    requires t < |s.threads| && s.nProcessing <= |s.slots|
  {
    match s.threads[t]
    case Running(i, p) => i < s.nProcessing && p == s.slots[i] && i !in Indices(s.log)
    case _ => true
  }

  ghost predicate Apart<T>(s: State<T>, t: nat, u: nat)
    requires t < |s.threads| && u < |s.threads|
  {
    s.threads[t].Running? && s.threads[u].Running? ==> s.threads[t].index != s.threads[u].index
  }

  /** A dispatched task has finished or is running. */
  ghost predicate Covered<T>(s: State<T>, i: nat) {
    i in Indices(s.log) || exists t: nat :: t < |s.threads| && Runs(s, t, i)
  }

  ghost predicate LoggedOk<T>(s: State<T>, j: nat)
    requires j < |s.log| && s.nProcessing <= |s.slots|
  {
    s.log[j].index < s.nProcessing && s.log[j].payload == s.slots[s.log[j].index]
  }

  ghost predicate CountsOk<T>(s: State<T>) {
    && s.nFinished <= s.nProcessing <= s.nTask <= |s.slots|
    && s.nFinished == |s.log| == |Indices(s.log)| && s.batch == s.slots[..s.nTask] && |s.threads| >= 1
  }

  ghost predicate TasksOk<T>(s: State<T>)
    requires CountsOk(s)
  {
    && (forall t: nat :: t < |s.threads| ==> ThreadOk(s, t))
    && (forall t: nat, u: nat :: t < u < |s.threads| ==> Apart(s, t, u))
    && (forall i: nat :: i < s.nProcessing ==> Covered(s, i))
    && (forall j: nat :: j < |s.log| ==> LoggedOk(s, j))
  }

  /** The flag is up from opening to closing. When the drainer is told that all is done, all is done. */
  ghost predicate ModeOk<T>(s: State<T>) {
    && s.ready == (s.mode != Outside)
    && (s.mode == Closing ==> s.told <= s.nTask && forall i: nat :: i < s.told ==> i in Indices(s.log))
    && (|s.threads| >= 1 && s.mode != Draining ==> s.threads[DRAINER].Idle?)
  }

  ghost predicate Inv<T>(s: State<T>) {
    CountsOk(s) && TasksOk(s) && ModeOk(s)
  }

  // ----- Counting -----

  ghost function UpTo(n: nat): (r: set<nat>)
    ensures |r| == n && forall i: nat :: i in r <==> i < n
  {
    if n == 0 then {} else UpTo(n - 1) + {n - 1}
  }

  lemma FullSubset(a: set<nat>, b: set<nat>)
    requires a <= b && |a| == |b|
    ensures a == b
  {
    assert b == a + (b - a);
  }

  lemma {:induction false} IndicesIn<T>(log: seq<Run<T>>, j: nat)
    requires j < |log|
    ensures log[j].index in Indices(log)
  {
    if j < |log| - 1 { IndicesIn(log[..|log| - 1], j); }
  }

  lemma {:induction false} IndicesFrom<T>(log: seq<Run<T>>, i: nat) returns (j: nat)
    requires i in Indices(log)
    ensures j < |log| && log[j].index == i
  {
    if log[|log| - 1].index == i {
      j := |log| - 1;
    } else {
      j := IndicesFrom(log[..|log| - 1], i);
    }
  }

  lemma IndicesNext<T>(log: seq<Run<T>>, r: Run<T>)
    ensures Indices(log + [r]) == Indices(log) + {r.index}
  {
    assert (log + [r])[..|log|] == log;
  }

  /** The finished tasks are among the dispatched ones. */
  lemma LoggedBelow<T>(s: State<T>)
    requires CountsOk(s) && TasksOk(s)
    ensures Indices(s.log) <= UpTo(s.nProcessing)
  {
    forall i: nat | i in Indices(s.log) ensures i in UpTo(s.nProcessing) {
      var j := IndicesFrom(s.log, i);
      assert LoggedOk(s, j);
    }
  }

  /** As many finished as dispatched: nothing is running. */
  lemma AllFinished<T>(s: State<T>)
    requires CountsOk(s) && TasksOk(s) && s.nFinished == s.nProcessing
    ensures Quiet(s) && forall i: nat :: i < s.nProcessing ==> i in Indices(s.log)
  {
    LoggedBelow(s);
    FullSubset(Indices(s.log), UpTo(s.nProcessing));
    forall t: nat | t < |s.threads| ensures !s.threads[t].Running? {
      assert ThreadOk(s, t);
    }
  }

  /** Fewer finished than dispatched: something is running. */
  lemma SomeRunning<T>(s: State<T>) returns (t: nat)
    requires CountsOk(s) && TasksOk(s) && s.nFinished < s.nProcessing
    ensures t < |s.threads| && s.threads[t].Running?
  {
    LoggedBelow(s);
    assert Indices(s.log) != UpTo(s.nProcessing);
    var i: nat :| i in UpTo(s.nProcessing) && i !in Indices(s.log);
    assert Covered(s, i);
    t :| t < |s.threads| && Runs(s, t, i);
  }

  // ----- Every step keeps the invariant -----

  /** With the same queue and log, threads that run nothing new leave the tasks in order. */
  lemma SameTasks<T>(s: State<T>, s': State<T>)
    requires CountsOk(s) && TasksOk(s) && CountsOk(s')
    requires s'.slots == s.slots && s'.nProcessing == s.nProcessing && s'.log == s.log && |s'.threads| == |s.threads|
    requires forall t: nat :: t < |s.threads| ==>
               s'.threads[t] == s.threads[t] || (!s.threads[t].Running? && !s'.threads[t].Running?)
    ensures TasksOk(s')
  {
    forall t: nat | t < |s'.threads| ensures ThreadOk(s', t) { assert ThreadOk(s, t); }
    forall t: nat, u: nat | t < u < |s'.threads| ensures Apart(s', t, u) { assert Apart(s, t, u); }
    forall i: nat | i < s'.nProcessing ensures Covered(s', i) {
      assert Covered(s, i);
      if i !in Indices(s.log) {
        var t: nat :| t < |s.threads| && Runs(s, t, i);
        assert Runs(s', t, i);
      }
    }
    forall j: nat | j < |s'.log| ensures LoggedOk(s', j) { assert LoggedOk(s, j); }
  }

  lemma AddKeeps<T>(s: State<T>, p: T)
    requires Inv(s) && s.nTask < |s.slots|
    ensures Inv(After(s, Add(p, true)))
  {
    var s' := After(s, Add(p, true));
    assert s'.batch == s'.slots[..s'.nTask];
    forall t: nat | t < |s'.threads| ensures ThreadOk(s', t) { assert ThreadOk(s, t); }
    forall t: nat, u: nat | t < u < |s'.threads| ensures Apart(s', t, u) { assert Apart(s, t, u); }
    forall i: nat | i < s'.nProcessing ensures Covered(s', i) {
      assert Covered(s, i);
      if i !in Indices(s.log) {
        var t: nat :| t < |s.threads| && Runs(s, t, i);
        assert Runs(s', t, i);
      }
    }
    forall j: nat | j < |s'.log| ensures LoggedOk(s', j) { assert LoggedOk(s, j); }
  }

  /** Resetting the queue keeps the invariant exactly while no task runs. */
  lemma ResetKeeps<T>(s: State<T>)
    requires Inv(s) && s.mode == Outside
    ensures Inv(After(s, Reset)) <==> Quiet(s)
  {
    var s' := After(s, Reset);
    assert s'.slots[..0] == [];
    forall t: nat | t < |s'.threads| && !s.threads[t].Running? ensures ThreadOk(s', t) { assert ThreadOk(s, t); }
    if t: nat :| t < |s.threads| && s.threads[t].Running? {
      assert CountsOk(s') && !ThreadOk(s', t);
    }
  }

  /** A thread takes the next task. */
  lemma TakeKeeps<T>(s: State<T>, t: nat)
    requires Inv(s) && MayWork(s, t) && s.threads[t].Looked? && s.nFinished < s.nTask && s.ready
    requires s.nProcessing < s.nTask
    ensures Inv(After(s, Dispatch(t)))
  {
    var s', n := After(s, Dispatch(t)), s.nProcessing;
    LoggedBelow(s);
    forall u: nat | u < |s'.threads| ensures ThreadOk(s', u) { assert ThreadOk(s, u); }
    forall u: nat, v: nat | u < v < |s'.threads| ensures Apart(s', u, v) {
      assert Apart(s, u, v) && ThreadOk(s, u) && ThreadOk(s, v);
    }
    forall i: nat | i < n + 1 ensures Covered(s', i) {
      if i == n {
        assert Runs(s', t, i);
      } else {
        CoveredStill(s, s', t, i);
      }
    }
    forall j: nat | j < |s'.log| ensures LoggedOk(s', j) { assert LoggedOk(s, j); }
  }

  /** A dispatched task stays covered when a thread that did not run it moves on. */
  lemma CoveredStill<T>(s: State<T>, s': State<T>, t: nat, i: nat)
    requires Covered(s, i) && t < |s.threads| == |s'.threads| && !Runs(s, t, i) && Indices(s.log) <= Indices(s'.log)
    requires forall u: nat :: u < |s.threads| && u != t ==> s'.threads[u] == s.threads[u]
    ensures Covered(s', i)
  {
    if i !in Indices(s.log) {
      var u: nat :| u < |s.threads| && Runs(s, u, i);
      assert Runs(s', u, i);
    }
  }

  /** A thread completes its task. */
  lemma FinishKeeps<T>(s: State<T>, t: nat)
    requires Inv(s) && MayWork(s, t) && s.threads[t].Running?
    ensures Inv(After(s, Finish(t)))
  {
    var s', i := After(s, Finish(t)), s.threads[t].index;
    assert ThreadOk(s, t);
    IndicesNext(s.log, s'.log[|s.log|]);
    LoggedBelow(s);
    NotFull(Indices(s.log), UpTo(s.nProcessing), i);
    FinishTasks(s, s', t, i);
  }

  lemma NotFull(a: set<nat>, b: set<nat>, i: nat)
    requires a <= b && i in b && i !in a
    ensures |a| < |b|
  {
    assert b == a + {i} + (b - a - {i});
  }

  lemma FinishTasks<T>(s: State<T>, s': State<T>, t: nat, i: nat)
    requires Inv(s) && MayWork(s, t) && s.threads[t].Running? && s' == After(s, Finish(t)) && i == s.threads[t].index
    requires CountsOk(s') && Indices(s'.log) == Indices(s.log) + {i}
    ensures TasksOk(s')
  {
    assert ThreadOk(s, t);
    forall u: nat | u < |s'.threads| ensures ThreadOk(s', u) {
      assert ThreadOk(s, u);
      if u < t { assert Apart(s, u, t); }
      if t < u { assert Apart(s, t, u); }
    }
    forall u: nat, v: nat | u < v < |s'.threads| ensures Apart(s', u, v) { assert Apart(s, u, v); }
    forall k: nat | k < s'.nProcessing ensures Covered(s', k) {
      assert Covered(s, k);
      if k != i { CoveredStill(s, s', t, k); }
    }
    forall j: nat | j < |s'.log| ensures LoggedOk(s', j) {
      if j < |s.log| { assert LoggedOk(s, j); }
    }
  }

  /** Every step keeps the invariant, except exactly a reset while a task runs. */
  lemma StepKeeps<T>(s: State<T>, step: Step<T>)
    requires Inv(s) && Enabled(s, step)
    ensures Inv(After(s, step)) <==> Calm(s, step)
  {
    var s' := After(s, step);
    match step
    case Reset => ResetKeeps(s);
    case Add(p, fits) => if fits && s.nTask < |s.slots| { AddKeeps(s, p); }
    case Open => SameTasks(s, s');
    case Look(t) => SameTasks(s, s');
    case Dispatch(t) =>
      if s.nFinished < s.nTask && s.ready && s.nProcessing < s.nTask {
        TakeKeeps(s, t);
      } else {
        SameTasks(s, s');
        if s.nFinished >= s.nTask { AllFinished(s); }
      }
    case Finish(t) => FinishKeeps(s, t);
    case Close => SameTasks(s, s');
  }

  // ----- What holds on every run -----

  lemma {:induction false} RunKeeps<T>(states: seq<State<T>>, steps: seq<Step<T>>, i: nat)
    requires IsRun(states, steps) && i < |states|
    ensures Inv(states[i])
  {
    if i == 0 {
      assert states[0].slots[..0] == [];
    } else {
      RunKeeps(states, steps, i - 1);
      assert RunAt(states, steps, i - 1);
      StepKeeps(states[i - 1], steps[i - 1]);
    }
  }

  /** The counters are ordered at every moment of every run. */
  lemma CountersOrdered<T>(states: seq<State<T>>, steps: seq<Step<T>>, i: nat)
    requires IsRun(states, steps) && i < |states|
    ensures states[i].nFinished <= states[i].nProcessing <= states[i].nTask <= |states[i].slots|
  {
    RunKeeps(states, steps, i);
  }

  /** Every one of the first `n` tasks of the batch has been run once, with its own payload, and runs no more. */
  ghost predicate RunOnce<T>(s: State<T>, batch: seq<T>, n: nat) {
    && n <= |batch|
    && (forall k: nat :: k < n ==> Logged(s.log, k, batch[k]))
    && (forall i: nat, j: nat :: i < j < |s.log| ==> s.log[i].index != s.log[j].index)
    && (forall t: nat :: t < |s.threads| && s.threads[t].Running? ==> s.threads[t].index >= n)
  }

  ghost predicate Logged<T>(log: seq<Run<T>>, k: nat, payload: T) {
    exists j: nat :: j < |log| && log[j] == Run(k, payload)
  }

  /** As many indices as entries: no index twice. */
  lemma {:induction false} IndicesDistinct<T>(log: seq<Run<T>>)
    ensures |Indices(log)| <= |log|
    ensures |Indices(log)| == |log| ==> forall i: nat, j: nat :: i < j < |log| ==> log[i].index != log[j].index
  {
    if log != [] {
      var rest := log[..|log| - 1];
      IndicesDistinct(rest);
      if |Indices(log)| == |log| {
        forall i: nat | i < |rest| ensures log[i].index != log[|log| - 1].index {
          IndicesIn(rest, i);
        }
      }
    }
  }

  /** Tasks that are in the log have been run with their own payload. */
  lemma LoggedRunOnce<T>(s: State<T>, n: nat)
    requires Inv(s) && n <= s.nTask && forall i: nat :: i < n ==> i in Indices(s.log)
    ensures RunOnce(s, s.batch, n)
  {
    forall k: nat | k < n ensures Logged(s.log, k, s.batch[k]) {
      var j := IndicesFrom(s.log, k);
      assert LoggedOk(s, j);
    }
    IndicesDistinct(s.log);
    forall t: nat | t < |s.threads| && s.threads[t].Running? ensures s.threads[t].index >= n {
      assert ThreadOk(s, t);
    }
  }

  /** An unfinished batch always has a task to take or a task being run. */
  lemma NeverStuck<T>(states: seq<State<T>>, steps: seq<Step<T>>, i: nat)
    requires IsRun(states, steps) && i < |states| && states[i].nFinished < states[i].nTask
    ensures var s := states[i]; s.nProcessing < s.nTask || exists t: nat :: t < |s.threads| && s.threads[t].Running?
  {
    RunKeeps(states, steps, i);
    if states[i].nProcessing == states[i].nTask {
      var t := SomeRunning(states[i]);
    }
  }

  /** Until the queue is closed batch and log only grow, and the drainer is told about all that was queued before. */
  lemma {:induction false} BatchGrows<T>(states: seq<State<T>>, steps: seq<Step<T>>, k: nat, c: nat)
    requires IsRun(states, steps) && k <= c < |states| && states[k].mode != Outside
    requires forall i: nat :: k <= i < c ==> !steps[i].Close?
    ensures states[k].batch <= states[c].batch && states[k].log <= states[c].log && states[c].mode != Outside
    ensures states[k].mode == Draining && states[c].mode == Closing ==> states[c].told >= |states[k].batch|
  {
    if k < c {
      assert RunAt(states, steps, c - 1);
      RunKeeps(states, steps, c - 1);
      BatchGrows(states, steps, k, c - 1);
    }
  }

  /** The first `n` tasks are in the log when the queue is closed. */
  lemma ClosedRunOnce<T>(states: seq<State<T>>, steps: seq<Step<T>>, k: nat, c: nat)
    requires IsRun(states, steps) && k <= c < |steps| && states[k].batch <= states[c].batch
    requires forall i: nat :: i < |states[k].batch| ==> i in Indices(states[c].log)
    ensures RunOnce(states[c], states[k].batch, |states[k].batch|)
  {
    var s, n := states[c], |states[k].batch|;
    RunKeeps(states, steps, c);
    LoggedRunOnce(s, n);
    forall i: nat | i < n ensures Logged(s.log, i, states[k].batch[i]) {
      assert Logged(s.log, i, s.batch[i]);
    }
  }

  /** One call of `runUntilDone`: every task that is queued while the drainer is in its loop, or was queued before,
      has been run exactly once with its own payload when the drainer closes the queue. */
  lemma DrainComplete<T>(states: seq<State<T>>, steps: seq<Step<T>>, k: nat, c: nat)
    requires IsRun(states, steps) && k <= c < |steps| && states[k].mode == Draining && steps[c].Close?
    requires forall i: nat :: k <= i < c ==> !steps[i].Close?
    ensures RunOnce(states[c], states[k].batch, |states[k].batch|)
  {
    BatchGrows(states, steps, k, c);
    RunKeeps(states, steps, c);
    assert RunAt(states, steps, c);
    ClosedRunOnce(states, steps, k, c);
  }

  /** In particular every task that was queued when the drain began. */
  lemma DrainFromOpen<T>(states: seq<State<T>>, steps: seq<Step<T>>, o: nat, c: nat)
    requires IsRun(states, steps) && o < c < |steps| && steps[o].Open? && steps[c].Close?
    requires forall i: nat :: o < i < c ==> !steps[i].Close?
    ensures RunOnce(states[c], states[o].batch, |states[o].batch|)
  {
    assert RunAt(states, steps, o);
    DrainComplete(states, steps, o + 1, c);
  }

  // ----- The batch as the calls made it -----

  /** The payloads of the calls of `addTask` since the last reset that fit a slot, in order. */
  ghost function Asked<T>(steps: seq<Step<T>>): seq<T> {
    if steps == [] then []
    else
      var before := Asked(steps[..|steps| - 1]);
      match steps[|steps| - 1]
      case Reset => []
      case Add(p, fits) => if fits then before + [p] else before
      case _ => before
  }

  /** The batch holds what was asked for since the last reset, in order, cut at the number of slots. */
  lemma {:induction false} BatchIsAsked<T>(states: seq<State<T>>, steps: seq<Step<T>>, i: nat)
    requires IsRun(states, steps) && i < |states|
    ensures var asked, room := Asked(steps[..i]), |states[0].slots|;
            |states[i].slots| == room && states[i].batch == if |asked| <= room then asked else asked[..room]
  {
    if i > 0 {
      BatchIsAsked(states, steps, i - 1);
      RunKeeps(states, steps, i - 1);
      assert RunAt(states, steps, i - 1);
      assert steps[..i][..i - 1] == steps[..i - 1];
    }
  }

  lemma {:induction false} AskedGrows<T>(steps: seq<Step<T>>, a: nat, k: nat)
    requires a <= k <= |steps| && forall i: nat :: a <= i < k ==> !steps[i].Reset?
    ensures Asked(steps[..a]) <= Asked(steps[..k])
  {
    if a < k {
      AskedGrows(steps, a, k - 1);
      assert steps[..k][..k - 1] == steps[..k - 1];
    }
  }

  /** What `addTask` promises: a task that fits a slot, with no reset between it and a moment of the drain, is run
      under its own number exactly if fewer tasks than there are slots were asked for before it. */
  lemma AddedTaskRuns<T>(states: seq<State<T>>, steps: seq<Step<T>>, a: nat, k: nat, c: nat)
    requires IsRun(states, steps) && a < k <= c < |steps| && steps[a].Add? && steps[a].fits
    requires states[k].mode == Draining && steps[c].Close? && forall i: nat :: k <= i < c ==> !steps[i].Close?
    requires forall i: nat :: a < i < k ==> !steps[i].Reset?
    ensures var n := |Asked(steps[..a])|;
            Logged(states[c].log, n, steps[a].payload) <==> n < |states[0].slots|
  {
    var n, p := |Asked(steps[..a])|, steps[a].payload;
    assert steps[..a + 1][..a] == steps[..a];
    AskedGrows(steps, a + 1, k);
    BatchIsAsked(states, steps, k);
    if n < |states[0].slots| {
      DrainComplete(states, steps, k, c);
      assert Logged(states[c].log, n, states[k].batch[n]);
    } else {
      NotLogged(states, steps, c, n, p);
    }
  }

  lemma NotLogged<T>(states: seq<State<T>>, steps: seq<Step<T>>, c: nat, n: nat, p: T)
    requires IsRun(states, steps) && c < |states| && n >= |states[0].slots|
    ensures !Logged(states[c].log, n, p)
  {
    RunKeeps(states, steps, c);
    BatchIsAsked(states, steps, c);
    forall j: nat | j < |states[c].log| ensures states[c].log[j] != Run(n, p) {
      assert LoggedOk(states[c], j);
    }
  }

  /** In particular a task that was added before the drain began. */
  lemma AddedBeforeOpen<T>(states: seq<State<T>>, steps: seq<Step<T>>, a: nat, o: nat, c: nat)
    requires IsRun(states, steps) && a < o < c < |steps| && steps[a].Add? && steps[a].fits
    requires steps[o].Open? && steps[c].Close? && forall i: nat :: o < i < c ==> !steps[i].Close?
    requires forall i: nat :: a < i < o ==> !steps[i].Reset?
    ensures var n := |Asked(steps[..a])|;
            Logged(states[c].log, n, steps[a].payload) <==> n < |states[0].slots|
  {
    assert RunAt(states, steps, o);
    AddedTaskRuns(states, steps, a, o + 1, c);
  }

  // ----- Which tasks a drain is sure to run -----

  /** The run goes on to the next closing of the queue, at step `c`. */
  ghost predicate Closes<T>(states: seq<State<T>>, steps: seq<Step<T>>, states': seq<State<T>>, steps': seq<Step<T>>,
                            c: nat)
  {
    && IsRun(states', steps') && states <= states' && steps <= steps' && |steps| <= c < |steps'| && steps'[c].Close?
    && forall i: nat :: |steps| <= i < c ==> !steps'[i].Close?
  }

  /** However the run goes on, all tasks queued so far have been run when the queue is closed. */
  ghost predicate Sure<T(!new)>(states: seq<State<T>>, steps: seq<Step<T>>)
    requires |states| == |steps| + 1
  {
    var batch := states[|steps|].batch;
    forall states': seq<State<T>>, steps': seq<Step<T>>, c: nat ::
      Closes(states, steps, states', steps', c) ==> RunOnce(states'[c], batch, |batch|)
  }

  lemma IndicesGrow<T>(log: seq<Run<T>>, log': seq<Run<T>>, i: nat)
    requires log <= log' && i in Indices(log)
    ensures i in Indices(log')
  {
    var j := IndicesFrom(log, i);
    IndicesIn(log', j);
  }

  lemma FinishedStays<T>(states: seq<State<T>>, steps: seq<Step<T>>, k: nat, c: nat)
    requires IsRun(states, steps) && k <= c < |steps| && states[k].mode != Outside
    requires forall i: nat :: k <= i < c ==> !steps[i].Close?
    requires states[k].nFinished == states[k].nTask
    ensures RunOnce(states[c], states[k].batch, |states[k].batch|)
  {
    RunKeeps(states, steps, k);
    AllFinished(states[k]);
    BatchGrows(states, steps, k, c);
    forall i: nat | i < |states[k].batch| ensures i in Indices(states[c].log) {
      IndicesGrow(states[k].log, states[c].log, i);
    }
    ClosedRunOnce(states, steps, k, c);
  }

  /** One step more. */
  lemma OneMore<T>(states: seq<State<T>>, steps: seq<Step<T>>, step: Step<T>)
    returns (states': seq<State<T>>, steps': seq<Step<T>>)
    requires IsRun(states, steps) && Enabled(states[|steps|], step) && Calm(states[|steps|], step)
    ensures states' == states + [After(states[|steps|], step)] && steps' == steps + [step] && IsRun(states', steps')
  {
    states', steps' := states + [After(states[|steps|], step)], steps + [step];
    forall i: nat | i < |steps'| ensures RunAt(states', steps', i) {
      if i < |steps| { assert RunAt(states, steps, i); }
    }
  }

  /** Closing right away. */
  lemma CloseNow<T>(states: seq<State<T>>, steps: seq<Step<T>>) returns (states': seq<State<T>>, steps': seq<Step<T>>)
    requires IsRun(states, steps) && states[|steps|].mode == Closing
    ensures Closes(states, steps, states', steps', |steps|) && states'[|steps|] == states[|steps|]
  {
    states', steps' := OneMore(states, steps, Close);
  }

  /** What can be done next in a drain: finish a running task, or let the drainer look or take a task. */
  lemma NextOfDrain<T>(s: State<T>) returns (step: Step<T>)
    requires Inv(s) && s.mode == Draining
    ensures Enabled(s, step) && !step.Close? && !step.Reset? && !step.Add?
    ensures var s' := After(s, step);
            || s'.mode == Closing
            || (s'.mode == Draining && s'.nTask == s.nTask
                && (s'.nProcessing + s'.nFinished > s.nProcessing + s.nFinished
                    || (s'.nProcessing == s.nProcessing && s'.nFinished == s.nFinished
                        && s.threads[DRAINER].Idle? && !s'.threads[DRAINER].Idle?)))
  {
    if s.nFinished < s.nProcessing {
      var t := SomeRunning(s);
      step := Finish(t);
    } else {
      AllFinished(s);
      step := if s.threads[DRAINER].Idle? then Look(DRAINER) else Dispatch(DRAINER);
    }
  }

  /** While the queue is open every thread that may work can take the next task. */
  lemma AnyThreadTakes<T>(s: State<T>, t: nat)
    requires Inv(s) && MayWork(s, t) && s.threads[t].Idle? && s.mode != Outside && s.nProcessing < s.nTask
    ensures Enabled(s, Look(t)) && Enabled(After(s, Look(t)), Dispatch(t))
    ensures After(After(s, Look(t)), Dispatch(t)).threads[t] == Running(s.nProcessing, s.batch[s.nProcessing])
  {
    assert s.batch[s.nProcessing] == s.slots[s.nProcessing];
  }

  /** A drain can always be finished, whatever the threads have done so far. */
  lemma {:induction false} CanClose<T>(states: seq<State<T>>, steps: seq<Step<T>>)
    returns (states': seq<State<T>>, steps': seq<Step<T>>, c: nat)
    requires IsRun(states, steps) && states[|steps|].mode == Draining
    ensures Closes(states, steps, states', steps', c)
    decreases var s := states[|steps|]; 2 * s.nTask - s.nProcessing - s.nFinished,
              states[|steps|].threads != [] && states[|steps|].threads[DRAINER].Idle?
  {
    var s := states[|steps|];
    RunKeeps(states, steps, |steps|);
    var step := NextOfDrain(s);
    var states1, steps1 := OneMore(states, steps, step);
    RunKeeps(states1, steps1, |steps1|);
    if After(s, step).mode == Closing {
      c := |steps1|;
      states', steps' := CloseNow(states1, steps1);
    } else {
      states', steps', c := CanClose(states1, steps1);
    }
  }

  lemma UnfinishedNotRun<T>(s: State<T>)
    requires Inv(s) && s.nFinished < s.nTask
    ensures !RunOnce(s, s.batch, |s.batch|)
  {
    if RunOnce(s, s.batch, |s.batch|) {
      forall i: nat | i in UpTo(s.nTask) ensures i in Indices(s.log) {
        assert Logged(s.log, i, s.batch[i]);
        var j: nat :| j < |s.log| && s.log[j] == Run(i, s.batch[i]);
        IndicesIn(s.log, j);
      }
      Contained(UpTo(s.nTask), Indices(s.log));
    }
  }

  lemma Contained(a: set<nat>, b: set<nat>)
    requires a <= b
    ensures |a| <= |b|
  {
    assert b == a + (b - a);
  }

  /** During a drain all tasks queued so far are sure to be run exactly if the drainer is still in its loop, or all
      of them have finished already. */
  lemma SureToRun<T(!new)>(states: seq<State<T>>, steps: seq<Step<T>>)
    requires IsRun(states, steps) && states[|steps|].mode != Outside
    ensures var s := states[|steps|];
            Sure(states, steps) <==> s.mode == Draining || s.nFinished == s.nTask
  {
    var s, k := states[|steps|], |steps|;
    RunKeeps(states, steps, k);
    if s.mode == Draining || s.nFinished == s.nTask {
      forall states': seq<State<T>>, steps': seq<Step<T>>, c: nat | Closes(states, steps, states', steps', c)
        ensures RunOnce(states'[c], s.batch, |s.batch|)
      {
        if s.mode == Draining {
          DrainComplete(states', steps', k, c);
        } else {
          FinishedStays(states', steps', k, c);
        }
      }
    } else {
      var states', steps' := CloseNow(states, steps);
      UnfinishedNotRun(s);
    }
  }

  /** So a task added during a drain is sure to be run exactly if the drainer has not been told that all is done. */
  lemma AddedTaskSure<T(!new)>(states: seq<State<T>>, steps: seq<Step<T>>, p: T)
    requires IsRun(states, steps) && steps != [] && steps[|steps| - 1] == Add(p, true)
    requires var s := states[|steps| - 1]; s.mode != Outside && s.nTask < |s.slots|
    ensures Sure(states, steps) <==> states[|steps|].mode == Draining
  {
    RunKeeps(states, steps, |steps| - 1);
    assert RunAt(states, steps, |steps| - 1);
    SureToRun(states, steps);
  }

  /** A run that leaves a task behind: it is added after the drainer has been told that all is done. */
  lemma LateTaskStays<T>(p: T, s0: State<T>) returns (states: seq<State<T>>, steps: seq<Step<T>>)
    requires Init(s0) && |s0.slots| >= 1
    ensures IsRun(states, steps) && states[0] == s0 && steps == [Open, Look(0), Dispatch(0), Add(p, true), Close]
    ensures var s := states[5]; s.mode == Outside && s.batch == [p] && s.log == [] && Quiet(s)
  {
    var s1 := After(s0, Open);
    var s2 := After(s1, Look(0));
    var s3 := After(s2, Dispatch(0));
    var s4 := After(s3, Add(p, true));
    states, steps := [s0, s1, s2, s3, s4, After(s4, Close)], [Open, Look(0), Dispatch(0), Add(p, true), Close];
  }

  /** A late task can even run on after the drain. A reset then breaks the counters: one task finished of none. */
  lemma ResetWhileRunning<T>(p: T, s0: State<T>) returns (states: seq<State<T>>, steps: seq<Step<T>>)
    requires Init(s0) && |s0.slots| >= 1 && |s0.threads| >= 2
    ensures IsRun(states, steps) && states[0] == s0
    ensures var s := states[|steps|];
            && s.mode == Outside && |s.threads| >= 2 && s.threads[1] == Running(0, p)
            && var s' := After(After(s, Reset), Finish(1));
            s'.nFinished == 1 && s'.nTask == 0
  {
    var s1 := After(s0, Open);
    var s2 := After(s1, Look(0));
    var s3 := After(s2, Look(1));
    var s4 := After(s3, Dispatch(0));
    var s5 := After(s4, Add(p, true));
    var s6 := After(s5, Dispatch(1));
    states := [s0, s1, s2, s3, s4, s5, s6, After(s6, Close)];
    steps := [Open, Look(0), Look(1), Dispatch(0), Add(p, true), Dispatch(1), Close];
  }

  /** If no task was added meanwhile, the log is the batch in some order and no task is running. */
  lemma DrainQuiet<T>(states: seq<State<T>>, steps: seq<Step<T>>, o: nat, c: nat)
    requires IsRun(states, steps) && o < c < |steps| && steps[o].Open? && steps[c].Close?
    requires forall k: nat :: o < k < c ==> !steps[k].Close? && !steps[k].Add?
    ensures |states[c].log| == |states[o].batch| && Quiet(states[c])
  {
    var s := states[c];
    assert RunAt(states, steps, o);
    BatchSame(states, steps, o + 1, c);
    BatchGrows(states, steps, o + 1, c);
    RunKeeps(states, steps, c);
    assert RunAt(states, steps, c);
    LoggedBelow(s);
    assert s.told == s.nTask && UpTo(s.nTask) <= Indices(s.log) <= UpTo(s.nProcessing);
    NoMore(Indices(s.log), s.nTask, s.nProcessing);
    AllFinished(s);
  }

  lemma NoMore(a: set<nat>, m: nat, n: nat)
    requires UpTo(m) <= a <= UpTo(n) && n <= m
    ensures |a| == n == m
  {
    assert n !in UpTo(n) && (n < m <==> n in UpTo(m));
    assert a == UpTo(n);
  }

  lemma {:induction false} BatchSame<T>(states: seq<State<T>>, steps: seq<Step<T>>, k: nat, c: nat)
    requires IsRun(states, steps) && k <= c < |states| && states[k].mode != Outside
    requires forall i: nat :: k <= i < c ==> !steps[i].Close? && !steps[i].Add?
    ensures states[c].batch == states[k].batch
  {
    if k < c {
      assert RunAt(states, steps, c - 1);
      BatchSame(states, steps, k, c - 1);
      BatchGrows(states, steps, k, c - 1);
    }
  }
}
