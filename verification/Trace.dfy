/** Allocation traces: their entries, what is live after each of them, and GetMaxAllocs. */
module Trace {
  import opened Common

  datatype Kind = Malloc | Calloc | Memalign | Realloc | Free | ThreadDone

  datatype Entry = Entry(tid: int, kind: Kind, ptr: nat, oldPtr: nat, size: nat)

  /** AllocDoesFree. */
  predicate DoesFree(e: Entry)
  {
    match e.kind
    case Free => e.ptr != 0
    case Realloc => e.oldPtr != 0
    case _ => false
  }

  predicate Allocates(e: Entry)
  {
    !e.kind.Free? && !e.kind.ThreadDone?
  }

  /** The pointer that a freeing entry gives back. */
  function Released(e: Entry): nat
  {
    if e.kind.Realloc? then e.oldPtr else e.ptr
  }

  function LiveStep(live: map<nat, nat>, e: Entry, i: nat): map<nat, nat>
  {
    var kept := if DoesFree(e) then live - {Released(e)} else live;
    if Allocates(e) then kept[e.ptr := i] else kept
  }

  /** After the first i entries: each live pointer and the entry that allocated it last. */
  function Live(trace: seq<Entry>, i: nat): map<nat, nat>
    requires i <= |trace|
  {
    if i == 0 then map[] else LiveStep(Live(trace, i - 1), trace[i - 1], i - 1)
  }

  /** What a recorded trace does: frees what is live, allocates what is not, never at pointer zero. */
  predicate EntryOk(live: map<nat, nat>, e: Entry)
  {
    && e.tid != 0
    && (DoesFree(e) ==> Released(e) in live)
    && (Allocates(e) ==> e.ptr != 0 && (e.ptr in live ==> DoesFree(e) && Released(e) == e.ptr))
  }

  predicate WellFormed(trace: seq<Entry>)
  {
    forall i :: 0 <= i < |trace| ==> EntryOk(Live(trace, i), trace[i])
  }

  /** The largest number of pointers live at once within the first i entries. */
  function MaxLive(trace: seq<Entry>, i: nat): nat
    requires i <= |trace|
  {
    if i == 0 then 0 else Max(MaxLive(trace, i - 1), |Live(trace, i)|)
  }

  lemma {:induction false} LiveFacts(trace: seq<Entry>, i: nat, p: nat)
    requires i <= |trace| && p in Live(trace, i)
    ensures Live(trace, i)[p] < i && trace[Live(trace, i)[p]].ptr == p && Allocates(trace[Live(trace, i)[p]])
  {
    if p in Live(trace, i - 1) && Live(trace, i)[p] == Live(trace, i - 1)[p] {
      LiveFacts(trace, i - 1, p);
    }
  }

  /** Entry e allocates at pointer p. */
  predicate MadeAt(e: Entry, p: nat)
  {
    (e.kind == Malloc || e.kind == Calloc || e.kind == Memalign || e.kind == Realloc) && e.ptr == p
  }

  /** Entry e gives pointer p back. */
  predicate GivenBackBy(e: Entry, p: nat)
  {
    p != 0 && ((e.kind == Free && e.ptr == p) || (e.kind == Realloc && e.oldPtr == p))
  }

  /** A pointer is live, from entry a, exactly if a allocated it and no entry since has allocated it or given it back. */
  lemma {:induction false} LiveIff(trace: seq<Entry>, i: nat, p: nat, a: nat)
    requires i <= |trace|
    ensures (p in Live(trace, i) && Live(trace, i)[p] == a)
            <==> (a < i && MadeAt(trace[a], p) && forall j :: a < j < i ==> !MadeAt(trace[j], p) && !GivenBackBy(trace[j], p))
  {
    if i > 0 {
      LiveIff(trace, i - 1, p, a);
      LiveStepIff(Live(trace, i - 1), trace[i - 1], i - 1, p);
      if p in Live(trace, i - 1) {
        LiveFacts(trace, i - 1, p);
      }
    }
  }

  lemma LiveStepIff(live: map<nat, nat>, e: Entry, i: nat, p: nat)
    ensures p in LiveStep(live, e, i) <==> MadeAt(e, p) || (p in live && !GivenBackBy(e, p))
    ensures p in LiveStep(live, e, i) ==> LiveStep(live, e, i)[p] == if MadeAt(e, p) then i else live[p]
  {
  }

  lemma NoneLiveAtFirst(trace: seq<Entry>)
    ensures |Live(trace, 0)| == 0
  {
    assert Live(trace, 0) == map[];
  }

  lemma {:induction false} MaxLiveBounds(trace: seq<Entry>, i: nat, n: nat)
    requires i <= n <= |trace|
    ensures |Live(trace, i)| <= MaxLive(trace, n)
  {
    hide Live;
    if i < n {
      MaxLiveBounds(trace, i, n - 1);
    } else if n == 0 {
      NoneLiveAtFirst(trace);
    }
  }

  lemma LiveCount(live: map<nat, nat>, e: Entry, i: nat)
    requires EntryOk(live, e)
    ensures |LiveStep(live, e, i)| == |live| + (if Allocates(e) then 1 else 0) - (if DoesFree(e) then 1 else 0)
  {
    var kept := if DoesFree(e) then live - {Released(e)} else live;
    if DoesFree(e) {
      assert kept.Keys == live.Keys - {Released(e)};
    }
    if Allocates(e) {
      assert LiveStep(live, e, i).Keys == kept.Keys + {e.ptr};
    }
  }

  lemma NextLiveCount(trace: seq<Entry>, i: nat)
    requires WellFormed(trace) && i < |trace|
    ensures var e := trace[i];
            && |Live(trace, i + 1)| == |Live(trace, i)| + (if Allocates(e) then 1 else 0) - (if DoesFree(e) then 1 else 0)
            && (Allocates(e) ==> e.ptr != 0)
  {
    LiveCount(Live(trace, i), trace[i], i);
    assert Live(trace, i + 1) == LiveStep(Live(trace, i), trace[i], i);
    hide LiveStep, Live;
  }

  /** The switch of GetMaxAllocs; the counter is a size_t, so freeing too much wraps it around. */
  function CountEntry(numAllocs: nat, e: Entry): nat
  {
    match e.kind
    case ThreadDone => numAllocs
    case Malloc | Calloc | Memalign => if e.ptr != 0 then (numAllocs + 1) % TWO_64 else numAllocs
    case Realloc =>
      if e.ptr == 0 && e.oldPtr != 0 then (numAllocs - 1) % TWO_64
      else if e.ptr != 0 && e.oldPtr == 0 then (numAllocs + 1) % TWO_64
      else numAllocs
    case Free => if e.ptr != 0 then (numAllocs - 1) % TWO_64 else numAllocs
  }

  lemma CountMatches(trace: seq<Entry>, i: nat)
    requires WellFormed(trace) && i < |trace| < TWO_64 && |Live(trace, i)| <= i
    ensures CountEntry(|Live(trace, i)|, trace[i]) == |Live(trace, i + 1)| <= i + 1
  {
    hide Live;
    NextLiveCount(trace, i);
  }

  /** Allocations at other pointers than zero, less pointers other than zero given back, in the first i entries. */
  ghost function Net(trace: seq<Entry>, i: nat): int
    requires i <= |trace|
  {
    if i == 0 then 0
    else
      var e := trace[i - 1];
      Net(trace, i - 1) + (if e.kind != Free && e.kind != ThreadDone && e.ptr != 0 then 1 else 0)
      - (if (e.kind == Free && e.ptr != 0) || (e.kind == Realloc && e.oldPtr != 0) then 1 else 0)
  }

  /** No more is given back than was allocated. */
  ghost predicate NeverBelow(trace: seq<Entry>, n: nat)
    requires n <= |trace|
  {
    forall i :: 0 <= i <= n ==> Net(trace, i) >= 0
  }

  lemma CountIsNet(trace: seq<Entry>, i: nat)
    requires i < |trace| < TWO_64 && 0 <= Net(trace, i) <= i && Net(trace, i + 1) >= 0
    ensures CountEntry(Net(trace, i), trace[i]) == Net(trace, i + 1) <= i + 1
  {
  }

  /** The balance of the first n entries is greatest after `at` of them. */
  ghost predicate IsPeak(trace: seq<Entry>, n: nat, max: nat, at: nat)
    requires n <= |trace|
  {
    at <= n && Net(trace, at) == max && forall i :: 0 <= i <= n ==> Net(trace, i) <= max
  }

  lemma PeakStep(trace: seq<Entry>, i: nat, max: nat, at: nat)
    requires NeverBelow(trace, |trace|) && i < |trace| < TWO_64 && Net(trace, i) <= i && IsPeak(trace, i, max, at)
    ensures 0 <= Net(trace, i) && CountEntry(Net(trace, i), trace[i]) == Net(trace, i + 1) <= i + 1
    ensures var n := Net(trace, i + 1); 0 <= n && if n > max then IsPeak(trace, i + 1, n, i + 1) else IsPeak(trace, i + 1, max, at)
  {
    hide Net, CountEntry;
    assert Net(trace, i) >= 0 && Net(trace, i + 1) >= 0;
    CountIsNet(trace, i);
  }

  lemma NothingAtFirst(trace: seq<Entry>)
    ensures Net(trace, 0) == 0 && IsPeak(trace, 0, 0, 0)
  {
  }

  /** The largest number of allocations at once: on any trace that never gives back too much, and on a well-formed one. */
  method GetMaxAllocs(trace: seq<Entry>) returns (maxAllocs: nat)
    requires |trace| < TWO_64
    ensures WellFormed(trace) ==> maxAllocs == MaxLive(trace, |trace|)
    ensures NeverBelow(trace, |trace|) ==>
              exists at :: IsPeak(trace, |trace|, maxAllocs, at)
  {
    maxAllocs := 0;
    var numAllocs: nat := 0;
    hide Live, WellFormed, CountEntry, NeverBelow, Net, IsPeak;
    NoneLiveAtFirst(trace);
    NothingAtFirst(trace);
    ghost var at: nat := 0;
    for i := 0 to |trace|
      invariant NeverBelow(trace, |trace|) ==>
                  numAllocs == Net(trace, i) <= i && IsPeak(trace, i, maxAllocs, at)
      invariant WellFormed(trace) ==>
                  && numAllocs == |Live(trace, i)| && numAllocs <= i
                  && maxAllocs == MaxLive(trace, i)
    {
      if NeverBelow(trace, |trace|) {
        PeakStep(trace, i, maxAllocs, at);
      }
      numAllocs := CountEntry(numAllocs, trace[i]);
      if numAllocs > maxAllocs {
        maxAllocs := numAllocs;
        at := i + 1;
      }
      if WellFormed(trace) {
        CountMatches(trace, i);
      }
    }
  }

  /** Slots of the pointer table: four per allocation, rounded up to whole pages of 16-byte slots. */
  function TableSize(maxAllocs: nat, pageSize: nat): nat
    requires pageSize > 0
  {
    DivUp(maxAllocs * 4 * 16, pageSize) * pageSize / 16
  }

  lemma TableHoldsFourTimes(maxAllocs: nat, pageSize: nat)
    requires pageSize > 0
    ensures TableSize(maxAllocs, pageSize) >= 4 * maxAllocs
  {
    DivUpFacts(maxAllocs * 4 * 16, pageSize);
  }
}
