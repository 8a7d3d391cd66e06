/**
 * Every run of the replay ends: a measure that each step of the coordinator and of each worker lowers.
 * With NoDeadlock, a run that cannot go on has come to its end.
 */
module ReplayEnds {
  import opened Common
  import opened Trace
  import opened Replay

  // ------------------------------------------------------------- what a worker has left

  function Remaining(size: nat, probes: nat): nat
  {
    if probes < size then size - probes else 0
  }

  /** A bound on the steps a worker still takes for its entry, in a table of `size` slots. */
  function Left(size: nat, w: Worker): nat
  {
    if !w.pending then 0
    else
      match w.phase
      case Asleep => 2 * size + 11
      case Begun => 2 * size + 10
      case Finding => size + Remaining(size, w.probes) + 9
      case Fetching => size + 8
      case Clearing => size + 7
      case Releasing => size + 6
      case Obtaining => size + 5
      case Probing => Remaining(size, w.probes) + 4
      case PuttingKey => 3
      case PuttingBlock => 2
      case Finished => 1
      case Gone => 0
  }

  /** As many steps as one entry can take. */
  function PerEntry(size: nat): nat
  {
    2 * size + 11
  }

  /** A worker's step changes no other worker. */
  lemma WorkMoves(trace: seq<Entry>, s: State, t: int)
    requires CanWork(s, t) && s.workers[t].pending && !s.failed && !WorkStep(trace, s, t).failed
    ensures var s' := WorkStep(trace, s, t);
            && t in s'.workers && s'.workers == s.workers[t := s'.workers[t]]
            && s'.workers[t].entry == s.workers[t].entry && |s'.slots| == |s.slots|
            && s'.stage == s.stage && s'.i == s.i && s'.target == s.target && s'.waiting == s.waiting && s'.scan == s.scan
  {
    hide Hash, Allocates, DoesFree, Released;
  }

  /** It lowers what the worker has left. */
  lemma WorkLowers(trace: seq<Entry>, s: State, t: int)
    requires CanWork(s, t) && s.workers[t].pending && !s.failed && !WorkStep(trace, s, t).failed
    ensures t in WorkStep(trace, s, t).workers
    ensures Left(|s.slots|, WorkStep(trace, s, t).workers[t]) < Left(|s.slots|, s.workers[t])
  {
    hide Hash, Released;
  }

  /** What the thread that runs entry e has left, if there is one. */
  ghost function EntryLeft(trace: seq<Entry>, s: State, e: nat): nat
  {
    if BusyWith(trace, s, e) then Left(|s.slots|, s.workers[trace[e].tid]) else 0
  }

  ghost function Sum(trace: seq<Entry>, s: State, n: nat): nat
  {
    if n == 0 then 0 else Sum(trace, s, n - 1) + EntryLeft(trace, s, n - 1)
  }

  lemma {:induction false} SumSame(trace: seq<Entry>, s: State, s': State, n: nat)
    requires forall e: nat :: e < n ==> EntryLeft(trace, s', e) == EntryLeft(trace, s, e)
    ensures Sum(trace, s', n) == Sum(trace, s, n)
  {
    hide EntryLeft;
    if n > 0 {
      SumSame(trace, s, s', n - 1);
    }
  }

  lemma {:induction false} SumOne(trace: seq<Entry>, s: State, s': State, n: nat, o: nat)
    requires forall e: nat :: e < n && e != o ==> EntryLeft(trace, s', e) == EntryLeft(trace, s, e)
    requires o < n
    ensures Sum(trace, s', n) - Sum(trace, s, n) == EntryLeft(trace, s', o) - EntryLeft(trace, s, o)
  {
    hide EntryLeft;
    if o == n - 1 {
      SumSame(trace, s, s', n - 1);
    } else {
      SumOne(trace, s, s', n - 1, o);
    }
  }

  /** The thread that FinishAll is ending runs no entry of the trace. */
  ghost function TargetLeft(s: State): nat
  {
    if s.stage.FinishJoin? && s.target in s.workers then Left(|s.slots|, s.workers[s.target]) else 0
  }

  // ------------------------------------------------------------ what the coordinator has left

  ghost function Tids(trace: seq<Entry>): set<int>
  {
    set e | 0 <= e < |trace| :: trace[e].tid
  }

  /** Threads exist only for tids of the trace. */
  ghost predicate FromTrace(trace: seq<Entry>, s: State)
  {
    s.workers.Keys <= Tids(trace)
  }

  /** Steps for one entry: those of its thread, one wait for each thread, and the coordinator's own. */
  function PerRound(n: nat, size: nat): nat
  {
    PerEntry(size) + n + 6
  }

  function PerThread(size: nat): nat
  {
    PerEntry(size) + 3
  }

  function Times(n: int, m: nat): int
  {
    n * m
  }

  lemma OneLess(n: int, m: nat)
    ensures Times(n, m) == Times(n - 1, m) + m && Times(0, m) == 0
    ensures n >= 0 ==> Times(n, m) >= 0
  {
  }

  lemma FewerTimes(n: nat, k: nat, m: nat)
    requires n <= k
    ensures Times(n, m) <= Times(k, m)
  {
    MulMonotone(n, k, m);
  }

  ghost function CoordinatorLeft(trace: seq<Entry>, s: State): int
  {
    var n, size := |trace|, |s.slots|;
    var rounds := Times(n - s.i, PerRound(n, size)) + n + 2 + Times(n, PerThread(size)) + size + 3;
    match s.stage
    case Lookup => rounds
    case Ready => rounds - 1
    case Quiesce => rounds - n - 3 + |s.waiting|
    case Trigger => rounds - n - 4
    case Join => rounds - n - 5 - PerEntry(size)
    case Settle => rounds - n - 5 - PerEntry(size)
    case LastQuiesce => |s.waiting| + 1 + Times(n, PerThread(size)) + size + 3
    case FinishNext => Times(|s.workers.Keys|, PerThread(size)) + size + 3
    case FinishJoin => Times(|s.workers.Keys| - 1, PerThread(size)) + 1 + size + 3
    case FreeAll => Remaining(size, s.scan) + 1
    case End => 0
  }

  ghost function Measure(trace: seq<Entry>, s: State): int
  {
    CoordinatorLeft(trace, s) + Sum(trace, s, |trace|) + TargetLeft(s)
  }

  /** How long a run can be: a number of steps that depends on the length of the trace and the table only. */
  function Longest(n: nat, size: nat): int
  {
    Times(n, PerRound(n, size)) + n + 2 + Times(n, PerThread(size)) + size + 3
  }

  lemma {:induction false} TidsNoMore(trace: seq<Entry>)
    ensures |Tids(trace)| <= |trace|
  {
    if trace != [] {
      var front, last := trace[..|trace| - 1], trace[|trace| - 1];
      TidsNoMore(front);
      assert Tids(trace) == Tids(front) + {last.tid};
    }
  }

  lemma {:induction false} SubsetNoMore(a: set<int>, b: set<int>)
    requires a <= b
    ensures |a| <= |b|
  {
    if a != {} {
      var x := AnyOf(a);
      SubsetNoMore(a - {x}, b - {x});
    }
  }

  lemma ThreadsNoMore(trace: seq<Entry>, s: State)
    requires FromTrace(trace, s)
    ensures |s.workers.Keys| <= |trace|
  {
    TidsNoMore(trace);
    SubsetNoMore(s.workers.Keys, Tids(trace));
  }

  lemma {:induction false} NothingRuns(trace: seq<Entry>, s: State, n: nat)
    requires forall e: nat :: e < n ==> !BusyWith(trace, s, e)
    ensures Sum(trace, s, n) == 0
  {
    if n > 0 {
      NothingRuns(trace, s, n - 1);
    }
  }

  // ---------------------------------------------------------------------- the steps

  lemma StepFromTrace(trace: seq<Entry>, s: State, step: Step)
    requires FromTrace(trace, s) && Enabled(trace, s, step)
    ensures FromTrace(trace, Do(trace, s, step))
  {
    hide Tids;
    if step.CLookup? {
      assert trace[s.i].tid in Tids(trace) by {
        TidThere(trace, s.i);
      }
    }
  }

  lemma TidThere(trace: seq<Entry>, e: nat)
    requires e < |trace|
    ensures trace[e].tid in Tids(trace)
  {
  }

  lemma WorkerStepLowers(trace: seq<Entry>, s: State, t: int)
    requires Inv(trace, s) && CanWork(s, t) && !WorkStep(trace, s, t).failed
    ensures Measure(trace, WorkStep(trace, s, t)) < Measure(trace, s)
  {
    hide Inv, CanWork, WorkStep, Left, ScanOk, DoesFree;
    var s' := WorkStep(trace, s, t);
    MovingIsPending(trace, s, t);
    WorkMoves(trace, s, t);
    WorkLowers(trace, s, t);
    WorkerFacts(trace, s, t);
    var w := s.workers[t];
    if w.entry < |trace| {
      OneEntryMoves(trace, s, t, s');
      SumOne(trace, s, s', |trace|, w.entry);
    } else {
      forall e: nat | e < |trace| ensures EntryLeft(trace, s', e) == EntryLeft(trace, s, e) {
      }
      SumSame(trace, s, s', |trace|);
    }
    hide Sum, EntryLeft, WorkerOk;
  }

  lemma MovingIsPending(trace: seq<Entry>, s: State, t: int)
    requires Inv(trace, s) && CanWork(s, t)
    ensures t in s.workers && s.workers[t].pending && !s.failed
  {
    WorkerFacts(trace, s, t);
  }

  lemma OneEntryMoves(trace: seq<Entry>, s: State, t: int, s': State)
    requires t in s.workers && t in s'.workers && s'.workers == s.workers[t := s'.workers[t]] && |s'.slots| == |s.slots|
    requires s.workers[t].pending && s'.workers[t].entry == s.workers[t].entry
    requires s.workers[t].entry < |trace| && trace[s.workers[t].entry].tid == t
    ensures EntryLeft(trace, s, s.workers[t].entry) == Left(|s.slots|, s.workers[t])
    ensures EntryLeft(trace, s', s.workers[t].entry) == Left(|s.slots|, s'.workers[t])
    ensures forall e: nat :: e != s.workers[t].entry ==> EntryLeft(trace, s', e) == EntryLeft(trace, s, e)
  {
  }

  /** A coordinator's step that starts no thread leaves every running entry as it is. */
  lemma NoneMoves(trace: seq<Entry>, s: State, step: Step)
    requires Inv(trace, s) && Enabled(trace, s, step) && !step.Work? && !step.CTrigger?
    ensures forall e: nat :: EntryLeft(trace, Do(trace, s, step), e) == EntryLeft(trace, s, e)
    ensures |Do(trace, s, step).slots| == |s.slots|
  {
    hide Inv, Left, ScansOk, WorkersOk;
    ThreadFacts(trace, s);
    match step
    case CJoined => WorkerFacts(trace, s, trace[s.i].tid);
    case CFinished => WorkerFacts(trace, s, s.target);
    case _ =>
  }

  /** SetPending gives the thread of entry i its steps, and no other thread any. */
  lemma OneStarts(trace: seq<Entry>, s: State)
    requires Inv(trace, s) && Enabled(trace, s, CTrigger)
    ensures var s' := Do(trace, s, CTrigger);
            && EntryLeft(trace, s, s.i) == 0 && EntryLeft(trace, s', s.i) == PerEntry(|s.slots|)
            && (forall e: nat :: e != s.i ==> EntryLeft(trace, s', e) == EntryLeft(trace, s, e))
            && |s'.slots| == |s.slots|
  {
    hide Inv;
    TriggerBusy(trace, s);
    hide BeingReleased, Shown, Dispatched;
  }

  lemma TriggerLowers(trace: seq<Entry>, s: State)
    requires Inv(trace, s) && Enabled(trace, s, CTrigger)
    ensures Measure(trace, Do(trace, s, CTrigger)) < Measure(trace, s)
  {
    hide Inv, Sum, EntryLeft, PerEntry, Times;
    var s' := Do(trace, s, CTrigger);
    OneStarts(trace, s);
    SumOne(trace, s, s', |trace|, s.i);
    OneLess(|trace| - s.i, PerRound(|trace|, |s.slots|));
  }

  /** The steps between two entries. */
  lemma RoundLowers(trace: seq<Entry>, s: State, step: Step)
    requires Inv(trace, s) && Enabled(trace, s, step) && (step.CLookup? || step.CJoined? || step.CSettled?)
    ensures Measure(trace, Do(trace, s, step)) < Measure(trace, s)
  {
    hide Inv, Sum, EntryLeft, PerEntry, Times, Left;
    var s' := Do(trace, s, step);
    NoneMoves(trace, s, step);
    SumSame(trace, s, s', |trace|);
    OneLess(|trace| - s.i, PerRound(|trace|, |s.slots|));
  }

  lemma ReadyLowers(trace: seq<Entry>, s: State)
    requires Inv(trace, s) && Enabled(trace, s, CReady) && FromTrace(trace, s)
    ensures Measure(trace, Do(trace, s, CReady)) < Measure(trace, s)
  {
    hide Inv, Sum, EntryLeft, PerEntry, FromTrace, Times, Left;
    NoneMoves(trace, s, CReady);
    SumSame(trace, s, Do(trace, s, CReady), |trace|);
    ThreadsNoMore(trace, s);
  }

  lemma WaitLowers(trace: seq<Entry>, s: State, step: Step)
    requires Inv(trace, s) && Enabled(trace, s, step) && FromTrace(trace, s)
    requires step.CWaited? || step.CQuiet? || step.CFinal?
    ensures Measure(trace, Do(trace, s, step)) < Measure(trace, s)
  {
    hide Inv, ScansOk, WorkersOk, Sum, EntryLeft, PerEntry, FromTrace, Times;
    var s' := Do(trace, s, step);
    ThreadFacts(trace, s);
    NoneMoves(trace, s, step);
    SumSame(trace, s, s', |trace|);
    ThreadsNoMore(trace, s);
    OneLess(0, PerRound(|trace|, |s.slots|));
    if step.CQuiet? && s.stage.LastQuiesce? {
      FewerTimes(|s.workers.Keys|, |trace|, PerThread(|s.slots|));
    }
  }

  /** Ending the threads, */
  lemma FinishLowers(trace: seq<Entry>, s: State, t: int)
    requires Inv(trace, s) && Enabled(trace, s, CFinish(t))
    ensures Measure(trace, Do(trace, s, CFinish(t))) < Measure(trace, s)
  {
    hide Inv, Sum, EntryLeft, Times;
    var s' := Do(trace, s, CFinish(t));
    NoneMoves(trace, s, CFinish(t));
    SumSame(trace, s, s', |trace|);
    assert s'.workers.Keys == s.workers.Keys;
    OneLess(|s.workers.Keys|, PerThread(|s.slots|));
  }

  lemma FinishedLowers(trace: seq<Entry>, s: State)
    requires Inv(trace, s) && Enabled(trace, s, CFinished)
    ensures Measure(trace, Do(trace, s, CFinished)) < Measure(trace, s)
  {
    hide Inv, Sum, EntryLeft, Times, Left, PerEntry;
    var s' := Do(trace, s, CFinished);
    NoneMoves(trace, s, CFinished);
    SumSame(trace, s, s', |trace|);
    assert s'.workers.Keys == s.workers.Keys - {s.target};
  }

  /** and giving back what is left. */
  lemma FreeingLowers(trace: seq<Entry>, s: State, step: Step)
    requires Inv(trace, s) && Enabled(trace, s, step) && (step.CStartFree? || step.CFreeSlot? || step.CStop?)
    ensures Measure(trace, Do(trace, s, step)) < Measure(trace, s)
  {
    hide Inv, Sum, EntryLeft, Times, Left;
    NoneMoves(trace, s, step);
    SumSame(trace, s, Do(trace, s, step), |trace|);
    OneLess(|s.workers.Keys|, PerThread(|s.slots|));
  }

  /** Every step of a run lowers the measure. */
  lemma StepLowers(trace: seq<Entry>, s: State, step: Step)
    requires Inv(trace, s) && FromTrace(trace, s) && Enabled(trace, s, step) && !Do(trace, s, step).failed
    ensures Measure(trace, Do(trace, s, step)) < Measure(trace, s)
  {
    hide Inv, Measure, FromTrace, WorkStep, CanWork;
    match step
    case Work(t) => WorkerStepLowers(trace, s, t);
    case CTrigger => TriggerLowers(trace, s);
    case CLookup => RoundLowers(trace, s, step);
    case CReady => ReadyLowers(trace, s);
    case CJoined => RoundLowers(trace, s, step);
    case CSettled => RoundLowers(trace, s, step);
    case CWaited(_) => WaitLowers(trace, s, step);
    case CQuiet => WaitLowers(trace, s, step);
    case CFinal => WaitLowers(trace, s, step);
    case CFinish(t) => FinishLowers(trace, s, t);
    case CFinished => FinishedLowers(trace, s);
    case _ => FreeingLowers(trace, s, step);
  }

  lemma NeverNegative(trace: seq<Entry>, s: State)
    requires Inv(trace, s)
    ensures Measure(trace, s) >= 0
  {
    hide Inv, WorkersOk, ScansOk, Sum, Left, Times, PerEntry;
    ThreadFacts(trace, s);
    var n, size := |trace|, |s.slots|;
    OneLess(n - s.i, PerRound(n, size));
    OneLess(n - s.i - 1, PerRound(n, size));
    OneLess(n, PerThread(size));
    OneLess(|s.workers.Keys|, PerThread(size));
    OneLess(|s.workers.Keys| - 1, PerThread(size));
    if s.stage.FinishJoin? {
      assert s.target in s.workers.Keys;
      SubsetNoMore({s.target}, s.workers.Keys);
    }
  }

  lemma {:induction false} RunLowers(trace: seq<Entry>, size: nat, run: seq<Step>)
    requires WellFormed(trace) && size >= MaxLive(trace, |trace|) && Run(trace, Init(size), run).Some?
    ensures var s := Run(trace, Init(size), run).value;
            FromTrace(trace, s) && Measure(trace, s) + |run| <= Longest(|trace|, size)
    decreases |run|
  {
    hide Inv, WellFormed, MaxLive, Do, Enabled, Measure, FromTrace, Longest;
    if run == [] {
      AtFirst(trace, size);
    } else {
      var front := run[..|run| - 1];
      var s := Run(trace, Init(size), front).value;
      RunLowers(trace, size, front);
      RunKeepsInv(trace, size, front);
      RunKeepsInv(trace, size, run);
      NotFailed(trace, Do(trace, s, run[|run| - 1]));
      StepLowers(trace, s, run[|run| - 1]);
      StepFromTrace(trace, s, run[|run| - 1]);
    }
  }

  lemma NotFailed(trace: seq<Entry>, s: State)
    requires Inv(trace, s)
    ensures !s.failed
  {
  }

  lemma AtFirst(trace: seq<Entry>, size: nat)
    ensures FromTrace(trace, Init(size)) && Measure(trace, Init(size)) == Longest(|trace|, size)
  {
    NothingRuns(trace, Init(size), |trace|);
    hide Sum;
  }

  /**
   * No run is longer than a number that depends on the length of the trace and the size of the table
   * only, and one that no step can follow has come to its end.
   */
  lemma EveryRunEnds(trace: seq<Entry>, size: nat, run: seq<Step>)
    requires WellFormed(trace) && size >= MaxLive(trace, |trace|) && Run(trace, Init(size), run).Some?
    ensures |run| <= Longest(|trace|, size)
    ensures var s := Run(trace, Init(size), run).value; s.stage.End? || exists step :: Enabled(trace, s, step)
  {
    hide Inv, WellFormed, MaxLive, Run, Enabled, Measure, FromTrace, Longest;
    var s := Run(trace, Init(size), run).value;
    RunKeepsInv(trace, size, run);
    RunLowers(trace, size, run);
    NeverNegative(trace, s);
    if !s.stage.End? {
      var step := NoDeadlock(trace, s);
      assert Enabled(trace, s, step);
    }
  }
}
