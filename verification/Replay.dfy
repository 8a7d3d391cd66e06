/**
 * memory_replay: the coordinator of ProcessDump and one worker thread per trace tid, as
 * one state machine. Every wait, every change of a pending flag, every load, store and
 * compare-exchange on a slot of the pointer table, and every call of the allocator is a
 * step of its own. The block that entry i allocates is called block i.
 */
module Replay {
  import opened Common
  import opened Trace

  const CLAIMED: nat := 1   // the key FindEmpty puts into a slot it takes

  /** One pointer_data; `owner` is the entry that claimed the slot and is not in memory. */
  datatype Slot = Slot(key: nat, block: nat, owner: nat)

  datatype Phase =
    | Asleep        // in WaitForPending
    | Begun
    | Finding       // Find, one load per step
    | Fetching      // read data->pointer
    | Clearing      // store key zero
    | Releasing     // free, or the giving back half of realloc
    | Obtaining     // malloc, calloc, memalign, or the other half of realloc
    | Probing       // FindEmpty, one compare-exchange per step
    | PuttingKey
    | PuttingBlock
    | Finished      // about to ClearPending
    | Gone          // the thread has ended

  datatype Worker = Worker(pending: bool, entry: nat, phase: Phase, probes: nat, slot: nat, block: nat)

  datatype Stage =
    | Lookup | Ready | Quiesce | Trigger | Join | Settle
    | LastQuiesce | FinishNext | FinishJoin | FreeAll | End

  datatype State = State(
    i: nat,                      // the entry being handed out
    stage: Stage,
    waiting: set<int>,           // threads WaitForAllToQuiesce has yet to wait for
    target: int,                 // the thread FinishAll is ending
    scan: nat,                   // the slot FreeAll is at
    workers: map<int, Worker>,
    slots: seq<Slot>,
    place: map<nat, nat>,        // entry -> the slot it claimed (not in memory)
    obtained: set<nat>,
    freed: seq<nat>,             // blocks given back, in order
    removed: seq<(nat, nat)>,    // what each Remove returned: (entry, block)
    failed: bool)                // one of the err(1, ...) exits was taken

  datatype Step =
    | CLookup | CReady | CWaited(t: int) | CQuiet | CTrigger | CJoined | CSettled
    | CFinal | CFinish(t: int) | CFinished | CStartFree | CFreeSlot | CStop
    | Work(t: int)

  function Init(size: nat): State
  {
    State(0, Lookup, {}, 0, 0, map[], seq(size, _ => Slot(0, 0, 0)), map[], {}, [], [], false)
  }

  const DONE: Entry := Entry(0, ThreadDone, 0, 0, 0)   // the entry FinishAll hands out

  function EntryAt(trace: seq<Entry>, e: nat): Entry
  {
    if e < |trace| then trace[e] else DONE
  }

  function Hash(size: nat, key: nat): nat
    requires size > 0
    ensures Hash(size, key) < size
  {
    key % size
  }

  function Put(s: State, t: int, w: Worker): State
  {
    s.(workers := s.workers[t := w])
  }

  // --------------------------------------------------------------- worker steps

  predicate CanWork(s: State, t: int)
  {
    && t in s.workers
    && !s.workers[t].phase.Gone?
    && (s.workers[t].phase.Asleep? ==> s.workers[t].pending)
    && ((s.workers[t].phase.Fetching? || s.workers[t].phase.Clearing? || s.workers[t].phase.PuttingKey?
         || s.workers[t].phase.PuttingBlock?) ==> s.workers[t].slot < |s.slots|)
    && ((s.workers[t].phase.Finding? || s.workers[t].phase.Probing?) && s.workers[t].probes < |s.slots|
        ==> s.workers[t].slot < |s.slots|)
  }

  /** The start of Find or FindEmpty for `key`. */
  function Search(s: State, t: int, phase: Phase, key: nat, block: nat): State
    requires t in s.workers
  {
    var w := s.workers[t];
    if |s.slots| == 0 then s.(failed := true)
    else Put(s, t, w.(phase := phase, probes := 0, slot := Hash(|s.slots|, key), block := block))
  }

  function WorkStep(trace: seq<Entry>, s: State, t: int): State
    requires CanWork(s, t)
  {
    var w := s.workers[t];
    var e := EntryAt(trace, w.entry);
    match w.phase
    case Asleep => Put(s, t, w.(phase := Begun))
    case Begun =>
      if DoesFree(e) then Search(s, t, Finding, Released(e), 0)
      else Put(s, t, w.(phase := if Allocates(e) then Obtaining else Finished))
    case Finding =>
      if w.probes >= |s.slots| then s.(failed := true)
      else if s.slots[w.slot].key == Released(e) then Put(s, t, w.(phase := Fetching))
      else Put(s, t, w.(probes := w.probes + 1, slot := NextIndex(|s.slots|, w.slot)))
    case Fetching => Put(s, t, w.(phase := Clearing, block := s.slots[w.slot].block))
    case Clearing =>
      Put(s.(slots := s.slots[w.slot := s.slots[w.slot].(key := 0)],
             place := s.place - {s.slots[w.slot].owner},
             removed := s.removed + [(w.entry, w.block)]),
          t, w.(phase := Releasing))
    case Releasing =>
      Put(s.(freed := s.freed + [w.block]), t, w.(phase := if Allocates(e) then Obtaining else Finished))
    case Obtaining => Search(s.(obtained := s.obtained + {w.entry}), t, Probing, e.ptr, w.entry)
    case Probing =>
      if w.probes >= |s.slots| then s.(failed := true)
      else if s.slots[w.slot].key == 0 then
        Put(s.(slots := s.slots[w.slot := s.slots[w.slot].(key := CLAIMED, owner := w.entry)],
               place := s.place[w.entry := w.slot]),
            t, w.(phase := PuttingKey))
      else Put(s, t, w.(probes := w.probes + 1, slot := NextIndex(|s.slots|, w.slot)))
    case PuttingKey =>
      Put(s.(slots := s.slots[w.slot := s.slots[w.slot].(key := e.ptr)]), t, w.(phase := PuttingBlock))
    case PuttingBlock =>
      Put(s.(slots := s.slots[w.slot := s.slots[w.slot].(block := w.block)]), t, w.(phase := Finished))
    case Finished =>
      Put(s, t, w.(pending := false, phase := if e.kind.ThreadDone? then Gone else Asleep))
    case Gone => s
  }

  // ---------------------------------------------------------- coordinator steps

  predicate Idle(s: State, t: int)
  {
    t in s.workers && !s.workers[t].pending
  }

  predicate Enabled(trace: seq<Entry>, s: State, step: Step)
  {
    && !s.failed
    && match step
       case CLookup => s.stage.Lookup? && s.i < |trace|
       case CReady => s.stage.Ready? && s.i < |trace| && Idle(s, trace[s.i].tid)
       case CWaited(t) => (s.stage.Quiesce? || s.stage.LastQuiesce?) && t in s.waiting && Idle(s, t)
       case CQuiet => (s.stage.Quiesce? || s.stage.LastQuiesce?) && s.waiting == {}
       case CTrigger => s.stage.Trigger? && s.i < |trace| && trace[s.i].tid in s.workers
       case CJoined => s.stage.Join? && s.i < |trace| && trace[s.i].tid in s.workers && s.workers[trace[s.i].tid].phase.Gone?
       case CSettled => s.stage.Settle? && s.i < |trace| && Idle(s, trace[s.i].tid)
       case CFinal => s.stage.Lookup? && s.i >= |trace|
       case CFinish(t) => s.stage.FinishNext? && t in s.workers
       case CFinished => s.stage.FinishJoin? && s.target in s.workers && s.workers[s.target].phase.Gone?
       case CStartFree => s.stage.FinishNext? && s.workers == map[]
       case CFreeSlot => s.stage.FreeAll? && s.scan < |s.slots|
       case CStop => s.stage.FreeAll? && s.scan >= |s.slots|
       case Work(t) => CanWork(s, t)
  }

  function Do(trace: seq<Entry>, s: State, step: Step): State
    requires Enabled(trace, s, step)
  {
    match step
    case CLookup =>
      var t := trace[s.i].tid;
      var s1 := if t in s.workers then s else Put(s, t, Worker(false, 0, Asleep, 0, 0, 0));
      s1.(stage := Ready)
    case CReady =>
      var t := trace[s.i].tid;
      var s1 := Put(s, t, s.workers[t].(entry := s.i));
      if DoesFree(trace[s.i]) then s1.(stage := Quiesce, waiting := s.workers.Keys) else s1.(stage := Trigger)
    case CWaited(t) => s.(waiting := s.waiting - {t})
    case CQuiet => s.(stage := if s.stage.Quiesce? then Trigger else FinishNext)
    case CTrigger =>
      var t := trace[s.i].tid;
      var s1 := Put(s, t, s.workers[t].(pending := true));
      if trace[s.i].kind.ThreadDone? then s1.(stage := Join)
      else if DoesFree(trace[s.i]) then s1.(stage := Settle)
      else s1.(stage := Lookup, i := s.i + 1)
    case CJoined => s.(workers := s.workers - {trace[s.i].tid}, stage := Lookup, i := s.i + 1)
    case CSettled => s.(stage := Lookup, i := s.i + 1)
    case CFinal => s.(stage := LastQuiesce, waiting := s.workers.Keys)
    case CFinish(t) =>
      Put(s, t, s.workers[t].(entry := |trace|, pending := true)).(stage := FinishJoin, target := t)
    case CFinished => s.(workers := s.workers - {s.target}, stage := FinishNext)
    case CStartFree => s.(stage := FreeAll, scan := 0)
    case CFreeSlot =>
      var slot := s.slots[s.scan];
      s.(freed := if slot.key != 0 then s.freed + [slot.block] else s.freed, scan := s.scan + 1)
    case CStop => s.(stage := End)
    case Work(t) => WorkStep(trace, s, t)
  }

  /** The state after a run, or None when some step of it was not possible. */
  function Run(trace: seq<Entry>, s: State, run: seq<Step>): Option<State>
    decreases |run|
  {
    if run == [] then Some(s)
    else
      var before := Run(trace, s, run[..|run| - 1]);
      if before.Some? && Enabled(trace, before.value, run[|run| - 1])
      then Some(Do(trace, before.value, run[|run| - 1])) else None
  }

  // ---------------------------------------------------------------- invariant

  /** How many entries have been handed to a thread. */
  ghost function Dispatched(trace: seq<Entry>, s: State): nat
  {
    match s.stage
    case Lookup | Ready | Quiesce | Trigger => s.i
    case Join | Settle => s.i + 1
    case _ => |trace|
  }

  ghost predicate BeforeRemoval(p: Phase)
  {
    p.Asleep? || p.Begun? || p.Finding? || p.Fetching? || p.Clearing?
  }

  ghost predicate BeforeObtained(p: Phase)
  {
    BeforeRemoval(p) || p.Releasing? || p.Obtaining?
  }

  ghost predicate BeforePlaced(p: Phase)
  {
    BeforeObtained(p) || p.Probing?
  }

  /** The thread running entry i, the only one, has not yet cleared the slot it is to remove. */
  ghost predicate RemovalAhead(trace: seq<Entry>, s: State)
  {
    && s.stage.Settle? && s.i < |trace|
    && trace[s.i].tid in s.workers
    && s.workers[trace[s.i].tid].pending
    && BeforeRemoval(s.workers[trace[s.i].tid].phase)
  }

  /** The number of entries whose effect on the set of live pointers the table is to show. */
  ghost function Shown(trace: seq<Entry>, s: State): nat
  {
    if RemovalAhead(trace, s) then s.i else Dispatched(trace, s)
  }

  ghost predicate BusyWith(trace: seq<Entry>, s: State, e: nat)
  {
    e < |trace| && trace[e].tid in s.workers && s.workers[trace[e].tid].pending && s.workers[trace[e].tid].entry == e
  }

  ghost function PhaseOf(trace: seq<Entry>, s: State, e: nat): Phase
    requires BusyWith(trace, s, e)
  {
    s.workers[trace[e].tid].phase
  }

  ghost predicate Unplaced(trace: seq<Entry>, s: State, e: nat)
  {
    BusyWith(trace, s, e) && BeforePlaced(PhaseOf(trace, s, e))
  }

  ghost predicate Unobtained(trace: seq<Entry>, s: State, e: nat)
  {
    BusyWith(trace, s, e) && BeforeObtained(PhaseOf(trace, s, e))
  }

  ghost predicate IsLive(trace: seq<Entry>, k: nat, e: nat)
    requires k <= |trace|
  {
    e < |trace| && trace[e].ptr in Live(trace, k) && Live(trace, k)[trace[e].ptr] == e
  }

  /** What the first k entries are to remove, with the blocks they are to get. */
  ghost function Removals(trace: seq<Entry>, k: nat): seq<(nat, nat)>
    requires k <= |trace|
  {
    if k == 0 then []
    else
      var before := Removals(trace, k - 1);
      var e := trace[k - 1];
      if DoesFree(e) && Released(e) in Live(trace, k - 1)
      then before + [(k - 1, Live(trace, k - 1)[Released(e)])] else before
  }

  ghost predicate AllIdle(s: State)
  {
    forall t :: t in s.workers ==> !s.workers[t].pending
  }

  ghost predicate OthersIdle(s: State, u: int)
  {
    forall t :: t in s.workers && t != u ==> !s.workers[t].pending
  }

  ghost predicate WaitedOrWaiting(s: State)
  {
    && (forall t :: t in s.workers && t !in s.waiting ==> !s.workers[t].pending)
    && (forall t :: t in s.waiting ==> t in s.workers)
  }

  ghost predicate RunningOrGone(s: State, t: int)
    requires t in s.workers
  {
    s.workers[t].pending || s.workers[t].phase.Gone?
  }

  /** The coordinator stands before entry i, whose thread exists. */
  ghost predicate AtEntry(trace: seq<Entry>, s: State)
  {
    s.i < |trace| && trace[s.i].tid in s.workers
  }

  ghost predicate Assigned(trace: seq<Entry>, s: State)
  {
    AtEntry(trace, s) && s.workers[trace[s.i].tid].entry == s.i
  }

  ghost predicate StageOk(trace: seq<Entry>, s: State)
  {
    && s.i <= |trace|
    && match s.stage
       case Lookup => true
       case Ready => AtEntry(trace, s)
       case Quiesce => Assigned(trace, s) && Idle(s, trace[s.i].tid) && DoesFree(trace[s.i]) && WaitedOrWaiting(s)
       case Trigger => Assigned(trace, s) && Idle(s, trace[s.i].tid) && (DoesFree(trace[s.i]) ==> AllIdle(s))
       case Join => Assigned(trace, s) && trace[s.i].kind.ThreadDone? && RunningOrGone(s, trace[s.i].tid)
       case Settle => Assigned(trace, s) && DoesFree(trace[s.i]) && OthersIdle(s, trace[s.i].tid)
       case LastQuiesce => WaitedOrWaiting(s)
       case FinishNext => AllIdle(s)
       case FinishJoin =>
         && s.target in s.workers && s.workers[s.target].entry == |trace|
         && OthersIdle(s, s.target) && RunningOrGone(s, s.target)
       case FreeAll => s.workers == map[]
       case End => s.workers == map[]
  }

  ghost predicate Removing(p: Phase)
  {
    p.Finding? || p.Fetching? || p.Clearing? || p.Releasing?
  }

  ghost predicate Adding(p: Phase)
  {
    p.Obtaining? || p.Probing? || p.PuttingKey? || p.PuttingBlock?
  }

  ghost predicate WorkerOk(trace: seq<Entry>, s: State, t: int)
    requires t in s.workers
  {
    var w := s.workers[t];
    var e := EntryAt(trace, w.entry);
    && (w.pending || w.phase.Asleep? || w.phase.Gone?)
    && (w.phase.Gone? ==> !w.pending && ((s.stage.Join? && s.i < |trace| && t == trace[s.i].tid) || (s.stage.FinishJoin? && t == s.target)))
    && (w.pending ==>
          || (w.entry < |trace| && w.entry < Dispatched(trace, s) && trace[w.entry].tid == t)
          || (w.entry == |trace| && s.stage.FinishJoin? && t == s.target))
    && (w.pending && DoesFree(e) ==> s.stage.Settle? && w.entry == s.i)
    && (w.pending && e.kind.ThreadDone? ==> (s.stage.Join? && w.entry == s.i) || (s.stage.FinishJoin? && t == s.target))
    && (Removing(w.phase) ==> DoesFree(e))
    && (Adding(w.phase) ==> Allocates(e))
  }

  ghost predicate WorkersOk(trace: seq<Entry>, s: State)
  {
    forall t :: t in s.workers ==> WorkerOk(trace, s, t)
  }

  ghost predicate Searching(size: nat, key: nat, w: Worker)
  {
    && size > 0
    && w.probes <= size
    && (w.probes < size ==> w.slot == Spot(size, Hash(size, key), w.probes))
  }

  /** How far the search of a worker has come, and what it holds. */
  ghost predicate ScanOk(trace: seq<Entry>, slots: seq<Slot>, place: map<nat, nat>, w: Worker)
  {
    var e, size := EntryAt(trace, w.entry), |slots|;
    match w.phase
    case Finding =>
      && Searching(size, Released(e), w)
      && forall j :: 0 <= j < size && Passed(size, Hash(size, Released(e)), w.probes, j) ==> slots[j].key != Released(e)
    case Fetching => w.slot < size && slots[w.slot].key == Released(e)
    case Clearing => w.slot < size && slots[w.slot].key == Released(e) && w.block == slots[w.slot].block
    case Releasing =>
      && w.entry < |trace| && Released(e) in Live(trace, w.entry) && w.block == Live(trace, w.entry)[Released(e)]
    case Probing =>
      && Searching(size, e.ptr, w) && w.block == w.entry
      && forall j :: 0 <= j < size && Passed(size, Hash(size, e.ptr), w.probes, j) ==> slots[j].key != 0
    case PuttingKey => w.entry in place && place[w.entry] == w.slot && w.slot < size && w.block == w.entry
    case PuttingBlock => w.entry in place && place[w.entry] == w.slot && w.slot < size && w.block == w.entry
    case _ => true
  }

  ghost predicate ScansOk(trace: seq<Entry>, s: State)
  {
    forall t :: t in s.workers ==> ScanOk(trace, s.slots, s.place, s.workers[t])
  }

  ghost predicate Filling(trace: seq<Entry>, s: State, e: nat)
  {
    BusyWith(trace, s, e) && (PhaseOf(trace, s, e).PuttingKey? || PhaseOf(trace, s, e).PuttingBlock?)
  }

  ghost predicate SlotOk(trace: seq<Entry>, s: State, e: nat)
    requires e in s.place && e < |trace|
  {
    var j := s.place[e];
    && j < |s.slots|
    && s.slots[j].owner == e
    && s.slots[j].key != 0
    && (!Filling(trace, s, e) ==> s.slots[j].block == e)
    && (!(Filling(trace, s, e) && PhaseOf(trace, s, e).PuttingKey?) ==> s.slots[j].key == trace[e].ptr)
  }

  /** The live pointers of the first k entries, less those still on their way, are what the table holds. */
  ghost predicate PlacesOk(trace: seq<Entry>, s: State, k: nat)
    requires k <= |trace|
  {
    forall e: nat :: e in s.place <==> IsLive(trace, k, e) && !Unplaced(trace, s, e)
  }

  ghost predicate SlotsOk(trace: seq<Entry>, s: State)
  {
    forall e: nat :: e in s.place ==> e < |trace| && SlotOk(trace, s, e)
  }

  ghost predicate OwnersOk(slots: seq<Slot>, place: map<nat, nat>)
  {
    forall j :: 0 <= j < |slots| && slots[j].key != 0 ==> slots[j].owner in place && place[slots[j].owner] == j
  }

  ghost predicate Held(s: State, e: nat)
  {
    e in s.obtained && e !in s.freed
  }

  ghost predicate BeingReleased(trace: seq<Entry>, s: State, e: nat)
  {
    s.stage.Settle? && AtEntry(trace, s) && s.workers[trace[s.i].tid].phase.Releasing? && s.workers[trace[s.i].tid].block == e
  }

  ghost predicate ObtainedOk(trace: seq<Entry>, s: State)
  {
    forall e: nat :: e in s.obtained <==>
      e < |trace| && e < Dispatched(trace, s) && Allocates(trace[e]) && !Unobtained(trace, s, e)
  }

  /** The blocks not yet given back are those of live pointers and the one on its way to free. */
  ghost predicate HeldOk(trace: seq<Entry>, s: State, k: nat)
    requires k <= |trace|
  {
    if s.stage.FreeAll? || s.stage.End? then
      forall e: nat :: Held(s, e) <==> IsLive(trace, k, e) && e in s.place && s.place[e] >= s.scan
    else
      forall e: nat :: Held(s, e) <==>
        (IsLive(trace, k, e) && !Unobtained(trace, s, e)) || BeingReleased(trace, s, e)
  }

  ghost predicate FreedOnce(freed: seq<nat>, obtained: set<nat>)
  {
    && (forall j :: 0 <= j < |freed| ==> freed[j] in obtained)
    && (forall j, l :: 0 <= j < l < |freed| ==> freed[j] != freed[l])
  }

  /** What is being allocated stays live until it is done. */
  ghost predicate RunningOk(trace: seq<Entry>, s: State, k: nat)
    requires k <= |trace|
  {
    forall e: nat :: BusyWith(trace, s, e) && Allocates(trace[e]) && e < k ==> IsLive(trace, k, e)
  }

  ghost predicate Inv(trace: seq<Entry>, s: State)
  {
    && !s.failed
    && StageOk(trace, s)
    && WorkersOk(trace, s)
    && Shown(trace, s) <= |trace|
    && PlacesOk(trace, s, Shown(trace, s))
    && SlotsOk(trace, s)
    && OwnersOk(s.slots, s.place)
    && ScansOk(trace, s)
    && RunningOk(trace, s, Shown(trace, s))
    && ObtainedOk(trace, s)
    && HeldOk(trace, s, Shown(trace, s))
    && FreedOnce(s.freed, s.obtained)
    && s.removed == Removals(trace, Shown(trace, s))
    && (s.stage.End? ==> s.scan >= |s.slots|)
  }

  lemma InitInv(trace: seq<Entry>, size: nat)
    ensures Inv(trace, Init(size))
  {
  }

  // ---------------------------------------------- steps that move one worker on

  /** The change of w into w' shows neither in the table nor in the count of blocks. */
  ghost predicate Quiet(trace: seq<Entry>, w: Worker, w': Worker)
  {
    && w'.pending && w.pending && w'.entry == w.entry
    && !w'.phase.Gone?
    && (Allocates(EntryAt(trace, w.entry)) ==>
          && BeforeObtained(w'.phase) == BeforeObtained(w.phase)
          && BeforePlaced(w'.phase) == BeforePlaced(w.phase)
          && w'.phase.PuttingKey? == w.phase.PuttingKey? && w'.phase.PuttingBlock? == w.phase.PuttingBlock?)
    && !w.phase.Releasing? && !w'.phase.Releasing?
    && (BeforeRemoval(w'.phase) == BeforeRemoval(w.phase) || !DoesFree(EntryAt(trace, w.entry)))
  }

  /** s and s' differ in nothing that the table and the blocks are judged by. */
  ghost predicate SameView(trace: seq<Entry>, s: State, s': State)
  {
    && s'.slots == s.slots && s'.place == s.place && s'.obtained == s.obtained
    && s'.freed == s.freed && s'.removed == s.removed && s'.scan == s.scan && s'.failed == s.failed
    && (s'.stage.FreeAll? || s'.stage.End?) == (s.stage.FreeAll? || s.stage.End?)
    && (s'.stage.End? ==> s.stage.End?)
    && Dispatched(trace, s') == Dispatched(trace, s)
    && Shown(trace, s') == Shown(trace, s)
    && SameBusy(trace, s, s')
  }

  ghost predicate SameBusy(trace: seq<Entry>, s: State, s': State)
  {
    && (forall e: nat :: Counts(trace, e) && BusyWith(trace, s', e) ==> BusyWith(trace, s, e))
    && (forall e: nat :: Counts(trace, e) ==> Unplaced(trace, s', e) == Unplaced(trace, s, e))
    && (forall e: nat :: Counts(trace, e) ==> Unobtained(trace, s', e) == Unobtained(trace, s, e))
    && (forall e: nat :: Counts(trace, e) ==> Filling(trace, s', e) == Filling(trace, s, e))
    && (forall e: nat :: Counts(trace, e) && Filling(trace, s, e) ==> PhaseOf(trace, s', e) == PhaseOf(trace, s, e))
    && (forall e: nat :: BeingReleased(trace, s', e) == BeingReleased(trace, s, e))
  }

  ghost predicate Counts(trace: seq<Entry>, e: nat)
  {
    e < |trace| && Allocates(trace[e])
  }

  lemma LiveCounts(trace: seq<Entry>, k: nat)
    requires k <= |trace|
    ensures forall e: nat :: IsLive(trace, k, e) ==> Counts(trace, e) && e < k
  {
    forall e: nat | IsLive(trace, k, e) ensures Counts(trace, e) && e < k {
      LiveFacts(trace, k, trace[e].ptr);
    }
  }

  lemma SameViewKeepsInv(trace: seq<Entry>, s: State, s': State)
    requires Inv(trace, s) && SameView(trace, s, s')
    requires StageOk(trace, s') && WorkersOk(trace, s') && ScansOk(trace, s')
    ensures Inv(trace, s')
  {
    LiveCounts(trace, Shown(trace, s));
    hide StageOk, WorkersOk, ScansOk, Shown, Dispatched, Unplaced, Unobtained, BusyWith, IsLive, Removals, OwnersOk,
         BeingReleased;
    assert PlacesOk(trace, s', Shown(trace, s')) by {
      hide SlotsOk, ObtainedOk, HeldOk, FreedOnce, RunningOk;
    }
    assert RunningOk(trace, s', Shown(trace, s')) by {
      hide PlacesOk, SlotsOk, ObtainedOk, HeldOk, FreedOnce;
    }
    hide RunningOk;
    assert SlotsOk(trace, s') by {
      hide ObtainedOk, HeldOk, FreedOnce;
    }
    hide Filling, SlotsOk, PlacesOk, PhaseOf;
  }

  lemma QuietBusy(trace: seq<Entry>, s: State, t: int, w': Worker)
    requires t in s.workers && WorkerOk(trace, s, t) && Quiet(trace, s.workers[t], w')
    ensures SameBusy(trace, s, Put(s, t, w'))
  {
  }

  lemma QuietView(trace: seq<Entry>, s: State, t: int, w': Worker)
    requires Inv(trace, s) && t in s.workers && Quiet(trace, s.workers[t], w')
    ensures StageOk(trace, Put(s, t, w')) && SameView(trace, s, Put(s, t, w'))
  {
    hide SameBusy;
    ThreadFacts(trace, s);
    hide Inv, ScansOk;
    var s' := Put(s, t, w');
    assert WorkerOk(trace, s, t);
    hide WorkersOk;
    QuietBusy(trace, s, t, w');
    assert StageOk(trace, s') by {
      hide WorkerOk;
    }
  }

  lemma ThreadFacts(trace: seq<Entry>, s: State)
    requires Inv(trace, s)
    ensures StageOk(trace, s) && WorkersOk(trace, s) && ScansOk(trace, s)
  {
  }

  lemma QuietKeepsInv(trace: seq<Entry>, s: State, t: int, w': Worker)
    requires Inv(trace, s) && t in s.workers && Quiet(trace, s.workers[t], w')
    requires Removing(w'.phase) ==> DoesFree(EntryAt(trace, w'.entry))
    requires Adding(w'.phase) ==> Allocates(EntryAt(trace, w'.entry))
    requires ScanOk(trace, s.slots, s.place, w')
    ensures Inv(trace, Put(s, t, w'))
  {
    var s' := Put(s, t, w');
    QuietView(trace, s, t, w');
    assert WorkersOk(trace, s') by {
      hide PlacesOk, SlotsOk, OwnersOk, ScansOk, ObtainedOk, HeldOk, FreedOnce, Removals, SameView, StageOk;
    }
    assert ScansOk(trace, s') by {
      hide PlacesOk, SlotsOk, OwnersOk, ScanOk, ObtainedOk, HeldOk, FreedOnce, Removals, SameView, StageOk, WorkersOk;
    }
    hide Inv, SameView, StageOk, WorkersOk, ScansOk;
    SameViewKeepsInv(trace, s, s');
  }

  // ------------------------------------------------------- the phases of a worker

  /** While a freeing entry runs, everything before it is in the table. */
  lemma AllPlaced(trace: seq<Entry>, s: State, t: int)
    requires Inv(trace, s) && t in s.workers && s.workers[t].pending && DoesFree(EntryAt(trace, s.workers[t].entry))
    requires BeforeRemoval(s.workers[t].phase)
    ensures s.workers[t].entry == s.i < |trace| && Shown(trace, s) == s.i && s.stage.Settle? && trace[s.i].tid == t
    ensures forall e: nat :: IsLive(trace, s.i, e) ==> e in s.place && !BusyWith(trace, s, e)
    ensures forall e: nat :: e in s.place ==> !Filling(trace, s, e)
  {
    hide SlotsOk, OwnersOk, ScansOk, ObtainedOk, HeldOk, FreedOnce, Removals, Live;
    forall e: nat | IsLive(trace, s.i, e) ensures !BusyWith(trace, s, e) {
      LiveFacts(trace, s.i, trace[e].ptr);
    }
  }

  /** The key a freeing entry names is in exactly the slot of the entry that allocated it last. */
  lemma KeyIsThere(trace: seq<Entry>, s: State, t: int)
    requires Inv(trace, s) && WellFormed(trace)
    requires t in s.workers && s.workers[t].pending && DoesFree(EntryAt(trace, s.workers[t].entry))
    requires BeforeRemoval(s.workers[t].phase)
    ensures s.i < |trace|
    ensures var p := Released(trace[s.i]);
            && p in Live(trace, s.i)
            && var e := Live(trace, s.i)[p];
               && e in s.place && s.place[e] < |s.slots|
               && s.slots[s.place[e]].key == p && s.slots[s.place[e]].block == e
               && forall j :: 0 <= j < |s.slots| && s.slots[j].key == p ==> j == s.place[e]
  {
    AllPlaced(trace, s, t);
    var p := Released(trace[s.i]);
    assert EntryOk(Live(trace, s.i), trace[s.i]);
    var e := Live(trace, s.i)[p];
    LiveFacts(trace, s.i, p);
    assert IsLive(trace, s.i, e);
    hide WellFormed, Live, ScansOk, ObtainedOk, HeldOk, FreedOnce, Removals, WorkersOk, StageOk, Unplaced, Filling;
    assert e in s.place && SlotOk(trace, s, e);
    forall j | 0 <= j < |s.slots| && s.slots[j].key == p ensures j == s.place[e] {
      var o := s.slots[j].owner;
      assert o in s.place && SlotOk(trace, s, o);
      assert IsLive(trace, s.i, o);
    }
  }

  lemma SearchMovesOn(size: nat, key: nat, w: Worker)
    requires Searching(size, key, w) && w.probes < size
    ensures Searching(size, key, w.(probes := w.probes + 1, slot := NextIndex(size, w.slot)))
    ensures forall j :: 0 <= j < size && Passed(size, Hash(size, key), w.probes + 1, j) ==>
              j == w.slot || Passed(size, Hash(size, key), w.probes, j)
  {
    var h := Hash(size, key);
    hide Hash;
  }

  /** Find does not run off the end: the slot it looks for is still ahead of it. */
  lemma FindingNotOver(trace: seq<Entry>, s: State, t: int)
    requires Inv(trace, s) && WellFormed(trace) && CanWork(s, t) && s.workers[t].phase.Finding?
    ensures s.workers[t].pending && DoesFree(EntryAt(trace, s.workers[t].entry))
    ensures ScanOk(trace, s.slots, s.place, s.workers[t])
    ensures s.workers[t].probes < |s.slots|
  {
    var w := s.workers[t];
    var p, size := Released(EntryAt(trace, w.entry)), |s.slots|;
    assert WorkerOk(trace, s, t) && ScanOk(trace, s.slots, s.place, w);
    assert s.workers[t].pending;
    AllPlaced(trace, s, t);
    KeyIsThere(trace, s, t);
    hide Inv, WellFormed, Hash, IsLive, BusyWith, Filling;
    var j := s.place[Live(trace, s.i)[p]];
    assert !Passed(size, Hash(size, p), w.probes, j);
  }

  lemma FindingKeepsInv(trace: seq<Entry>, s: State, t: int)
    requires Inv(trace, s) && WellFormed(trace) && CanWork(s, t) && s.workers[t].phase.Finding?
    ensures Inv(trace, WorkStep(trace, s, t))
  {
    hide Inv, WellFormed, Hash;
    FindingNotOver(trace, s, t);
    var w, size := s.workers[t], |s.slots|;
    var p := Released(EntryAt(trace, w.entry));
    if s.slots[w.slot].key == p {
      QuietKeepsInv(trace, s, t, w.(phase := Fetching));
    } else {
      SearchMovesOn(size, p, w);
      QuietKeepsInv(trace, s, t, w.(probes := w.probes + 1, slot := NextIndex(size, w.slot)));
    }
  }

  lemma FetchingKeepsInv(trace: seq<Entry>, s: State, t: int)
    requires Inv(trace, s) && CanWork(s, t) && s.workers[t].phase.Fetching?
    ensures Inv(trace, WorkStep(trace, s, t))
  {
    var w := s.workers[t];
    assert WorkerOk(trace, s, t) && ScanOk(trace, s.slots, s.place, w);
    hide Inv;
    QuietKeepsInv(trace, s, t, w.(phase := Clearing, block := s.slots[w.slot].block));
  }

  lemma WakingKeepsInv(trace: seq<Entry>, s: State, t: int)
    requires Inv(trace, s) && CanWork(s, t) && s.workers[t].phase.Asleep?
    ensures Inv(trace, WorkStep(trace, s, t))
  {
    var w := s.workers[t];
    assert WorkerOk(trace, s, t) && ScanOk(trace, s.slots, s.place, w);
    hide Inv;
    QuietKeepsInv(trace, s, t, w.(phase := Begun));
  }

  lemma WorkerFacts(trace: seq<Entry>, s: State, t: int)
    requires Inv(trace, s) && t in s.workers
    ensures WorkerOk(trace, s, t) && ScanOk(trace, s.slots, s.place, s.workers[t])
  {
  }

  lemma BegunKeepsInv(trace: seq<Entry>, s: State, t: int)
    requires Inv(trace, s) && WellFormed(trace) && CanWork(s, t) && s.workers[t].phase.Begun?
    ensures Inv(trace, WorkStep(trace, s, t))
  {
    hide Inv, WellFormed, Live, Hash;
    WorkerFacts(trace, s, t);
    var w := s.workers[t];
    var e := EntryAt(trace, w.entry);
    if DoesFree(e) {
      KeyIsThere(trace, s, t);
      var w' := w.(phase := Finding, probes := 0, slot := Hash(|s.slots|, Released(e)), block := 0);
      hide WorkerOk;
      QuietKeepsInv(trace, s, t, w');
    } else {
      QuietKeepsInv(trace, s, t, w.(phase := if Allocates(e) then Obtaining else Finished));
    }
  }

  /** How one entry of a well-formed trace changes what is live. */
  lemma LiveNext(trace: seq<Entry>, i: nat, e: nat)
    requires WellFormed(trace) && i < |trace|
    ensures DoesFree(trace[i]) ==> Released(trace[i]) in Live(trace, i)
    ensures IsLive(trace, i + 1, e) <==>
              || (IsLive(trace, i, e) && !(DoesFree(trace[i]) && e == Live(trace, i)[Released(trace[i])]))
              || (e == i && Allocates(trace[i]))
  {
    assert EntryOk(Live(trace, i), trace[i]);
    assert Live(trace, i + 1) == LiveStep(Live(trace, i), trace[i], i);
    if e < |trace| && trace[e].ptr in Live(trace, i) {
      LiveFacts(trace, i, trace[e].ptr);
    }
    if DoesFree(trace[i]) {
      LiveFacts(trace, i, Released(trace[i]));
    }
    hide Live, WellFormed;
  }

  /** The situation when the one running thread is about to clear its slot. */
  lemma ClearingFacts(trace: seq<Entry>, s: State, t: int) returns (e0: nat)
    requires Inv(trace, s) && WellFormed(trace) && CanWork(s, t) && s.workers[t].phase.Clearing?
    ensures s.stage.Settle? && s.i < |trace| && trace[s.i].tid == t && DoesFree(trace[s.i])
    ensures s.workers[t].pending && s.workers[t].entry == s.i && s.workers[t].block == e0
    ensures Released(trace[s.i]) in Live(trace, s.i) && e0 == Live(trace, s.i)[Released(trace[s.i])]
    ensures e0 in s.place && s.place[e0] == s.workers[t].slot < |s.slots| && s.slots[s.workers[t].slot].owner == e0
    ensures OthersIdle(s, t) && Shown(trace, s) == s.i
    ensures e0 < s.i
  {
    WorkerFacts(trace, s, t);
    AllPlaced(trace, s, t);
    KeyIsThere(trace, s, t);
    e0 := Live(trace, s.i)[Released(trace[s.i])];
    LiveFacts(trace, s.i, Released(trace[s.i]));
    assert SlotOk(trace, s, e0);
    assert OthersIdle(s, t);
    hide Inv, Live, WellFormed, IsLive, BusyWith, Filling;
  }

  /** When only the thread of entry i runs, and runs that entry. */
  ghost predicate Alone(trace: seq<Entry>, s: State, t: int)
  {
    && s.stage.Settle? && s.i < |trace| && trace[s.i].tid == t && t in s.workers && DoesFree(trace[s.i])
    && s.workers[t].pending && s.workers[t].entry == s.i && OthersIdle(s, t)
  }

  lemma AloneBusy(trace: seq<Entry>, s: State, t: int)
    requires Alone(trace, s, t)
    ensures forall e: nat :: BusyWith(trace, s, e) <==> e == s.i
    ensures forall e: nat :: Unplaced(trace, s, e) <==> e == s.i && BeforePlaced(s.workers[t].phase)
    ensures forall e: nat :: Unobtained(trace, s, e) <==> e == s.i && BeforeObtained(s.workers[t].phase)
    ensures forall e: nat :: Filling(trace, s, e) <==> e == s.i && (s.workers[t].phase.PuttingKey? || s.workers[t].phase.PuttingBlock?)
    ensures forall e: nat :: BeingReleased(trace, s, e) <==> s.workers[t].phase.Releasing? && s.workers[t].block == e
    ensures Shown(trace, s) == if BeforeRemoval(s.workers[t].phase) then s.i else s.i + 1
    ensures Dispatched(trace, s) == s.i + 1
  {
  }

  lemma AlonePart(trace: seq<Entry>, s: State, t: int)
    requires Inv(trace, s) && t in s.workers && s.workers[t].pending && DoesFree(EntryAt(trace, s.workers[t].entry))
    ensures Alone(trace, s, t)
  {
    WorkerFacts(trace, s, t);
    hide SlotsOk, OwnersOk, ScansOk, ObtainedOk, HeldOk, FreedOnce, Removals, Live, PlacesOk;
  }

  /** The parts of Inv about threads, for a step of the one running thread. */
  lemma AloneThreads(trace: seq<Entry>, s: State, t: int, s': State)
    requires Inv(trace, s) && Alone(trace, s, t)
    requires s'.stage == s.stage && s'.i == s.i && s'.workers.Keys == s.workers.Keys
    requires forall u :: u in s.workers && u != t ==> s'.workers[u] == s.workers[u]
    requires Alone(trace, s', t) && !s'.workers[t].phase.Gone?
    requires Adding(s'.workers[t].phase) ==> Allocates(trace[s.i])
    requires ScanOk(trace, s'.slots, s'.place, s'.workers[t])
    ensures StageOk(trace, s') && WorkersOk(trace, s') && ScansOk(trace, s')
  {
    assert forall u :: u in s.workers && u != t ==> WorkerOk(trace, s, u);
    hide SlotsOk, OwnersOk, ScansOk, ObtainedOk, HeldOk, FreedOnce, Removals, Live, PlacesOk, Shown;
    assert forall u :: u in s.workers && u != t ==> s.workers[u].phase.Asleep? || s.workers[u].phase.Gone?;
    assert StageOk(trace, s');
    assert WorkersOk(trace, s') by {
      hide ScanOk;
    }
    hide WorkersOk, StageOk;
    assert ScansOk(trace, s');
  }

  lemma LiveAfterRemoval(trace: seq<Entry>, i: nat, e0: nat)
    requires WellFormed(trace) && i < |trace| && DoesFree(trace[i])
    requires Released(trace[i]) in Live(trace, i) && e0 == Live(trace, i)[Released(trace[i])]
    ensures forall e: nat :: IsLive(trace, i + 1, e) <==> (IsLive(trace, i, e) && e != e0) || (e == i && Allocates(trace[i]))
    ensures forall e: nat :: IsLive(trace, i, e) ==> e < i
    ensures Allocates(trace[i]) ==> IsLive(trace, i + 1, i)
    ensures Removals(trace, i + 1) == Removals(trace, i) + [(i, e0)]
  {
    hide Live, WellFormed, IsLive;
    LiveNext(trace, i, i);
    forall e: nat ensures IsLive(trace, i + 1, e) <==> (IsLive(trace, i, e) && e != e0) || (e == i && Allocates(trace[i])) {
      LiveNext(trace, i, e);
    }
    LiveCounts(trace, i);
  }

  lemma IsLiveAt(trace: seq<Entry>, k: nat, p: nat)
    requires k <= |trace| && p in Live(trace, k)
    ensures IsLive(trace, k, Live(trace, k)[p])
  {
    LiveFacts(trace, k, p);
  }

  lemma RemovedSoFar(trace: seq<Entry>, s: State)
    requires Inv(trace, s)
    ensures !s.failed && FreedOnce(s.freed, s.obtained)
    ensures Shown(trace, s) <= |trace| && s.removed == Removals(trace, Shown(trace, s))
  {
  }

  lemma Assemble(trace: seq<Entry>, s: State)
    requires !s.failed && Shown(trace, s) <= |trace|
    requires StageOk(trace, s) && WorkersOk(trace, s) && ScansOk(trace, s)
    requires PlacesOk(trace, s, Shown(trace, s)) && SlotsOk(trace, s) && OwnersOk(s.slots, s.place)
    requires ObtainedOk(trace, s) && HeldOk(trace, s, Shown(trace, s)) && FreedOnce(s.freed, s.obtained)
    requires s.removed == Removals(trace, Shown(trace, s)) && RunningOk(trace, s, Shown(trace, s))
    requires s.stage.End? ==> s.scan >= |s.slots|
    ensures Inv(trace, s)
  {
  }

  /** Clearing the slot of e0 takes exactly e0 out of the table. */
  lemma ClearedTable(trace: seq<Entry>, s: State, t: int, e0: nat)
    requires Inv(trace, s) && Alone(trace, s, t) && CanWork(s, t) && s.workers[t].phase.Clearing?
    requires e0 in s.place && s.place[e0] == s.workers[t].slot && s.slots[s.workers[t].slot].owner == e0
    requires forall e: nat :: IsLive(trace, s.i + 1, e) <==> (IsLive(trace, s.i, e) && e != e0) || (e == s.i && Allocates(trace[s.i]))
    requires forall e: nat :: IsLive(trace, s.i, e) ==> e < s.i
    ensures var s' := WorkStep(trace, s, t);
            PlacesOk(trace, s', s.i + 1) && SlotsOk(trace, s') && OwnersOk(s'.slots, s'.place)
  {
    hide Inv, IsLive, ScansOk, RunningOk, Shown, Dispatched, Unplaced, Unobtained, BeingReleased, Filling, BusyWith,
         Allocates;
    var s' := WorkStep(trace, s, t);
    TableFacts(trace, s);
    AloneBusy(trace, s, t);
    AloneBusy(trace, s', t);
    hide Alone;
    assert PlacesOk(trace, s', s.i + 1) by {
      hide SlotsOk, OwnersOk;
    }
    assert OwnersOk(s'.slots, s'.place) by {
      hide SlotsOk, PlacesOk;
    }
    hide PlacesOk, OwnersOk;
  }

  lemma ClearedBlocks(trace: seq<Entry>, s: State, t: int, e0: nat)
    requires Inv(trace, s) && Alone(trace, s, t) && CanWork(s, t) && s.workers[t].phase.Clearing?
    requires s.workers[t].block == e0 && IsLive(trace, s.i, e0)
    requires forall e: nat :: IsLive(trace, s.i + 1, e) <==> (IsLive(trace, s.i, e) && e != e0) || (e == s.i && Allocates(trace[s.i]))
    requires forall e: nat :: IsLive(trace, s.i, e) ==> e < s.i
    ensures var s' := WorkStep(trace, s, t); ObtainedOk(trace, s') && HeldOk(trace, s', s.i + 1)
  {
    var s' := WorkStep(trace, s, t);
    AloneBusy(trace, s, t);
    AloneBusy(trace, s', t);
    hide IsLive, StageOk, WorkersOk, ScansOk, Shown, Dispatched, Unplaced, Unobtained, BeingReleased, Filling,
         BusyWith, Removals, Alone, Allocates, PlacesOk, SlotsOk, OwnersOk, FreedOnce;
    assert forall e: nat :: Held(s', e) == Held(s, e);
    assert ObtainedOk(trace, s') by {
      hide HeldOk;
    }
    hide ObtainedOk, Held;
  }

  lemma ClearingKeepsInv(trace: seq<Entry>, s: State, t: int)
    requires Inv(trace, s) && WellFormed(trace) && CanWork(s, t) && s.workers[t].phase.Clearing?
    ensures Inv(trace, WorkStep(trace, s, t))
  {
    hide Inv, WellFormed, IsLive, Live, StageOk, WorkersOk, ScansOk, Unplaced, Unobtained, BeingReleased, Filling,
         BusyWith, Removals, PlacesOk, SlotsOk, OwnersOk, ObtainedOk, HeldOk, FreedOnce, Shown, Dispatched;
    var e0 := ClearingFacts(trace, s, t);
    var s' := WorkStep(trace, s, t);
    AloneBusy(trace, s', t);
    LiveAfterRemoval(trace, s.i, e0);
    LiveFacts(trace, s.i, Released(trace[s.i]));
    IsLiveAt(trace, s.i, Released(trace[s.i]));
    AloneThreads(trace, s, t, s');
    ClearedTable(trace, s, t, e0);
    ClearedBlocks(trace, s, t, e0);
    RemovedSoFar(trace, s);
    assert RunningOk(trace, s', s.i + 1);
    Assemble(trace, s');
  }

  /** The block a Remove returned is the one of a pointer that is no longer live. */
  lemma ReleasingFacts(trace: seq<Entry>, s: State, t: int)
    requires Inv(trace, s) && WellFormed(trace) && CanWork(s, t) && s.workers[t].phase.Releasing?
    ensures Alone(trace, s, t)
    ensures !IsLive(trace, s.i + 1, s.workers[t].block)
    ensures Allocates(trace[s.i]) ==> IsLive(trace, s.i + 1, s.i)
    ensures forall e: nat :: IsLive(trace, s.i + 1, e) ==> Counts(trace, e)
  {
    hide Inv, WellFormed, IsLive, Live, Unplaced, Unobtained, BeingReleased, Filling, BusyWith, Counts;
    WorkerFacts(trace, s, t);
    AlonePart(trace, s, t);
    LiveFacts(trace, s.i, Released(trace[s.i]));
    var b := s.workers[t].block;
    LiveAfterRemoval(trace, s.i, b);
    IsLiveAt(trace, s.i, Released(trace[s.i]));
    LiveCounts(trace, s.i + 1);
  }

  lemma ReleasedBlocks(trace: seq<Entry>, s: State, t: int)
    requires Inv(trace, s) && Alone(trace, s, t) && CanWork(s, t) && s.workers[t].phase.Releasing?
    requires !IsLive(trace, s.i + 1, s.workers[t].block)
    requires forall e: nat :: IsLive(trace, s.i + 1, e) ==> Counts(trace, e)
    ensures var s' := WorkStep(trace, s, t);
            && ObtainedOk(trace, s') && HeldOk(trace, s', s.i + 1) && FreedOnce(s'.freed, s'.obtained)
  {
    var s' := WorkStep(trace, s, t);
    var b := s.workers[t].block;
    AloneBusy(trace, s, t);
    AloneBusy(trace, s', t);
    hide IsLive, StageOk, WorkersOk, ScansOk, Shown, Dispatched, Unplaced, Unobtained, BeingReleased, Filling,
         BusyWith, Removals, Alone, Allocates, PlacesOk, SlotsOk, OwnersOk;
    assert Held(s, b);
    assert forall e: nat :: Held(s', e) <==> Held(s, e) && e != b;
    assert FreedOnce(s'.freed, s'.obtained) by {
      hide HeldOk, ObtainedOk;
    }
    hide FreedOnce;
    assert ObtainedOk(trace, s') by {
      hide HeldOk;
    }
    hide ObtainedOk, Held;
  }

  lemma ReleasedTable(trace: seq<Entry>, s: State, t: int)
    requires Inv(trace, s) && Alone(trace, s, t) && CanWork(s, t) && s.workers[t].phase.Releasing?
    requires forall e: nat :: IsLive(trace, s.i + 1, e) ==> Counts(trace, e)
    ensures var s' := WorkStep(trace, s, t);
            PlacesOk(trace, s', s.i + 1) && SlotsOk(trace, s') && OwnersOk(s'.slots, s'.place)
  {
    var s' := WorkStep(trace, s, t);
    AloneBusy(trace, s, t);
    AloneBusy(trace, s', t);
    hide IsLive, StageOk, WorkersOk, ScansOk, Shown, Dispatched, Unplaced, Unobtained, BeingReleased, Filling,
         BusyWith, Removals, Alone, Allocates, ObtainedOk, HeldOk, FreedOnce;
  }

  lemma ReleasingKeepsInv(trace: seq<Entry>, s: State, t: int)
    requires Inv(trace, s) && WellFormed(trace) && CanWork(s, t) && s.workers[t].phase.Releasing?
    ensures Inv(trace, WorkStep(trace, s, t))
  {
    hide Inv, WellFormed, IsLive, Live, StageOk, WorkersOk, ScansOk, Unplaced, Unobtained, BeingReleased, Filling,
         BusyWith, Removals, PlacesOk, SlotsOk, OwnersOk, ObtainedOk, HeldOk, FreedOnce, Shown, Dispatched;
    ReleasingFacts(trace, s, t);
    var s' := WorkStep(trace, s, t);
    AloneBusy(trace, s, t);
    AloneBusy(trace, s', t);
    AloneThreads(trace, s, t, s');
    ReleasedTable(trace, s, t);
    ReleasedBlocks(trace, s, t);
    RemovedSoFar(trace, s);
    assert RunningOk(trace, s', s.i + 1);
    Assemble(trace, s');
  }

  // ----------------------------------------------------- adding to the table

  /** Obtaining a block: it is new, and from now on it is held for its pointer. */
  lemma ObtainedBlocks(trace: seq<Entry>, s: State, t: int, w': Worker)
    requires Inv(trace, s) && t in s.workers && s.workers[t].pending && s.workers[t].phase.Obtaining?
    requires w' == s.workers[t].(phase := Probing, probes := w'.probes, slot := w'.slot, block := w'.block)
    requires IsLive(trace, Shown(trace, s), s.workers[t].entry)
    ensures var s' := Put(s.(obtained := s.obtained + {w'.entry}), t, w');
            && Shown(trace, s') == Shown(trace, s)
            && ObtainedOk(trace, s') && HeldOk(trace, s', Shown(trace, s)) && FreedOnce(s'.freed, s'.obtained)
  {
    var s' := Put(s.(obtained := s.obtained + {w'.entry}), t, w');
    var o := w'.entry;
    WorkerFacts(trace, s, t);
    assert BusyWith(trace, s, o) && BusyWith(trace, s', o);
    assert forall e: nat :: e != o ==> Unobtained(trace, s', e) == Unobtained(trace, s, e);
    assert forall e: nat :: BeingReleased(trace, s', e) == BeingReleased(trace, s, e);
    assert Shown(trace, s') == Shown(trace, s) && Dispatched(trace, s') == Dispatched(trace, s);
    assert Unobtained(trace, s, o) && !Unobtained(trace, s', o);
    hide IsLive, StageOk, WorkersOk, ScansOk, Shown, Dispatched, Unplaced, Unobtained, BeingReleased, Filling,
         BusyWith, Removals, PlacesOk, SlotsOk, OwnersOk;
    assert o !in s.obtained;
    assert forall e: nat :: Held(s', e) <==> Held(s, e) || e == o;
  }

  lemma RunningIsLive(trace: seq<Entry>, s: State, t: int)
    requires Inv(trace, s) && t in s.workers && Adding(s.workers[t].phase)
    ensures s.workers[t].pending && s.workers[t].entry < |trace| && trace[s.workers[t].entry].tid == t
    ensures Allocates(trace[s.workers[t].entry])
    ensures BusyWith(trace, s, s.workers[t].entry)
    ensures IsLive(trace, Shown(trace, s), s.workers[t].entry)
  {
    WorkerFacts(trace, s, t);
    assert s.workers[t].entry < |trace| by {
      hide RunningOk, PlacesOk, SlotsOk, OwnersOk, ScansOk, ObtainedOk, HeldOk, FreedOnce, Removals;
    }
    assert BusyWith(trace, s, s.workers[t].entry);
    assert s.workers[t].entry < Shown(trace, s) by {
      hide RunningOk, PlacesOk, SlotsOk, OwnersOk, ScansOk, ObtainedOk, HeldOk, FreedOnce, Removals;
    }
  }

  // ------------------------------------------------------------ room in the table

  ghost function Occupied(slots: seq<Slot>, n: nat): set<nat>
    requires n <= |slots|
  {
    set j | 0 <= j < n && slots[j].key != 0
  }

  ghost function PlacedBelow(place: map<nat, nat>, n: nat): set<nat>
  {
    set e | e in place && place[e] < n
  }

  lemma {:induction false} OccupiedHaveOwners(slots: seq<Slot>, place: map<nat, nat>, n: nat)
    requires n <= |slots| && OwnersOk(slots, place)
    ensures |Occupied(slots, n)| <= |PlacedBelow(place, n)|
  {
    if n > 0 {
      OccupiedHaveOwners(slots, place, n - 1);
      var before, now := PlacedBelow(place, n - 1), PlacedBelow(place, n);
      if slots[n - 1].key != 0 {
        assert Occupied(slots, n) == Occupied(slots, n - 1) + {n - 1};
        assert before + {slots[n - 1].owner} <= now;
        SubsetSize(before + {slots[n - 1].owner}, now);
      } else {
        assert Occupied(slots, n) == Occupied(slots, n - 1);
        SubsetSize(before, now);
      }
    }
  }

  lemma {:induction false} ValuesNoMore(m: map<nat, nat>)
    ensures |m.Values| <= |m|
    decreases |m|
  {
    if m.Keys == {} {
      assert m.Values == {};
    } else {
      var x :| x in m.Keys;
      var m' := m - {x};
      assert m'.Keys == m.Keys - {x};
      ValuesNoMore(m');
      forall v | v in m.Values ensures v in m'.Values + {m[x]} {
        var y :| y in m && m[y] == v;
        assert y != x ==> y in m' && m'[y] == v;
      }
      SubsetSize(m.Values, m'.Values + {m[x]});
    }
  }

  /** Any set of entries live together is no larger than MaxLive. */
  lemma LiveTogether(trace: seq<Entry>, k: nat, es: set<nat>)
    requires k <= |trace| && forall e :: e in es ==> IsLive(trace, k, e)
    ensures |es| <= MaxLive(trace, |trace|)
  {
    var live := Live(trace, k);
    MaxLiveBounds(trace, k, |trace|);
    hide Live, MaxLive;
    ValuesNoMore(live);
    assert es <= live.Values;
    SubsetSize(es, live.Values);
  }

  /** The table never holds more than is live at once; less, while something live is on its way. */
  lemma OccupiedBound(trace: seq<Entry>, s: State)
    requires Inv(trace, s)
    ensures |Occupied(s.slots, |s.slots|)| <= |s.place| <= MaxLive(trace, |trace|)
    ensures forall e: nat :: IsLive(trace, Shown(trace, s), e) && e !in s.place ==> |s.place| < MaxLive(trace, |trace|)
  {
    var k := Shown(trace, s);
    hide StageOk, WorkersOk, ScansOk, SlotsOk, OwnersOk, ObtainedOk, HeldOk, FreedOnce, Removals, RunningOk, Shown,
         Unplaced, Live, MaxLive, IsLive;
    OccupiedHaveOwners(s.slots, s.place, |s.slots|);
    hide Occupied;
    SubsetSize(PlacedBelow(s.place, |s.slots|), s.place.Keys);
    hide PlacedBelow;
    LiveTogether(trace, k, s.place.Keys);
    forall e: nat | IsLive(trace, k, e) && e !in s.place ensures |s.place| < MaxLive(trace, |trace|) {
      LiveTogether(trace, k, s.place.Keys + {e});
    }
  }

  // ------------------------------------------------------- steps of an adding thread

  /** s' is s with worker t moved on within the same entry, and possibly another table. */
  ghost predicate Moved(s: State, t: int, s': State)
  {
    && t in s.workers && t in s'.workers
    && s'.workers == s.workers[t := s'.workers[t]]
    && s.workers[t].pending && s'.workers[t].pending && s'.workers[t].entry == s.workers[t].entry
    && s'.stage == s.stage && s'.i == s.i && s'.target == s.target && s'.waiting == s.waiting && s'.scan == s.scan
    && s'.failed == s.failed && s'.removed == s.removed
    && |s'.slots| == |s.slots|
  }

  /** An adding thread is past any removal, and nobody removes beside it. */
  lemma NobodyRemoves(trace: seq<Entry>, s: State, t: int, u: int)
    requires StageOk(trace, s) && WorkersOk(trace, s)
    requires t in s.workers && Adding(s.workers[t].phase) && u in s.workers
    ensures !Removing(s.workers[u].phase)
  {
    assert WorkerOk(trace, s, t) && WorkerOk(trace, s, u);
  }

  lemma MovedThreads(trace: seq<Entry>, s: State, t: int, s': State)
    requires StageOk(trace, s) && WorkersOk(trace, s) && Moved(s, t, s') && Adding(s.workers[t].phase)
    requires Adding(s'.workers[t].phase) || s'.workers[t].phase.Finished?
    ensures StageOk(trace, s') && WorkersOk(trace, s')
    ensures Shown(trace, s') == Shown(trace, s) && Dispatched(trace, s') == Dispatched(trace, s)
  {
    assert WorkerOk(trace, s, t);
    assert StageOk(trace, s') by {
      hide WorkersOk;
    }
    assert WorkersOk(trace, s') by {
      hide StageOk;
    }
    hide WorkersOk;
  }

  lemma MovedView(trace: seq<Entry>, s: State, t: int, s': State)
    requires Inv(trace, s) && Moved(s, t, s') && Adding(s.workers[t].phase)
    requires Adding(s'.workers[t].phase) || s'.workers[t].phase.Finished?
    ensures StageOk(trace, s') && Shown(trace, s') == Shown(trace, s) && Dispatched(trace, s') == Dispatched(trace, s)
    ensures WorkersOk(trace, s')
    ensures forall e: nat :: BusyWith(trace, s', e) == BusyWith(trace, s, e)
    ensures forall e: nat :: BusyWith(trace, s, e) && e != s.workers[t].entry ==> PhaseOf(trace, s', e) == PhaseOf(trace, s, e)
    ensures forall e: nat :: BeingReleased(trace, s', e) == BeingReleased(trace, s, e)
    ensures forall u :: u in s.workers ==> !Removing(s.workers[u].phase)
  {
    hide Inv, StageOk, WorkersOk, ScansOk, Shown, Dispatched;
    ThreadFacts(trace, s);
    MovedThreads(trace, s, t, s');
    forall u | u in s.workers ensures !Removing(s.workers[u].phase) {
      NobodyRemoves(trace, s, t, u);
    }
  }

  lemma MovedBlocks(trace: seq<Entry>, s: State, t: int, s': State)
    requires Inv(trace, s) && Moved(s, t, s') && Adding(s.workers[t].phase) && !s.workers[t].phase.Obtaining?
    requires (Adding(s'.workers[t].phase) && !s'.workers[t].phase.Obtaining?) || s'.workers[t].phase.Finished?
    requires s'.obtained == s.obtained && s'.freed == s.freed
    ensures ObtainedOk(trace, s') && HeldOk(trace, s', Shown(trace, s)) && RunningOk(trace, s', Shown(trace, s))
  {
    assert s.stage != FreeAll && s.stage != End;
    hide SlotsOk, OwnersOk, ScansOk, FreedOnce, Removals, Live, PlacesOk, StageOk, WorkersOk, Shown, Dispatched,
         BeingReleased;
    MovedView(trace, s, t, s');
    RunningIsLive(trace, s, t);
    assert RunningOk(trace, s', Shown(trace, s)) by {
      hide ObtainedOk, HeldOk, IsLive;
    }
    hide RunningOk, IsLive;
    assert forall e: nat :: Unobtained(trace, s', e) == Unobtained(trace, s, e);
    hide Unobtained, BusyWith;
    assert forall e: nat :: Held(s', e) == Held(s, e);
    assert ObtainedOk(trace, s') by {
      hide HeldOk;
    }
    hide ObtainedOk, Held;
  }

  /** The compare-exchange that succeeds gives the entry a slot nobody else has. */
  lemma ClaimedTable(trace: seq<Entry>, s: State, t: int)
    requires Inv(trace, s) && CanWork(s, t) && s.workers[t].phase.Probing?
    requires s.workers[t].probes < |s.slots| && s.slots[s.workers[t].slot].key == 0
    ensures var s' := WorkStep(trace, s, t);
            && PlacesOk(trace, s', Shown(trace, s)) && SlotsOk(trace, s') && OwnersOk(s'.slots, s'.place)
  {
    hide Inv, ScansOk, StageOk, WorkersOk, Shown, Dispatched, BeingReleased, RunningOk, IsLive;
    var s', o, j := WorkStep(trace, s, t), s.workers[t].entry, s.workers[t].slot;
    RunningIsLive(trace, s, t);
    MovedView(trace, s, t, s');
    TableFacts(trace, s);
    assert Unplaced(trace, s, o) && !Unplaced(trace, s', o);
    assert forall e: nat :: e != o ==> Unplaced(trace, s', e) == Unplaced(trace, s, e);
    assert forall e: nat :: e != o ==> Filling(trace, s', e) == Filling(trace, s, e);
    assert o !in s.place;
    hide Unplaced, BusyWith;
    assert PlacesOk(trace, s', Shown(trace, s)) by {
      hide SlotsOk, OwnersOk;
    }
    hide PlacesOk;
    assert OwnersOk(s'.slots, s'.place) by {
      hide SlotsOk;
    }
    hide OwnersOk;
  }

  lemma ClaimedScans(trace: seq<Entry>, s: State, t: int)
    requires Inv(trace, s) && CanWork(s, t) && s.workers[t].phase.Probing?
    requires s.workers[t].probes < |s.slots| && s.slots[s.workers[t].slot].key == 0
    ensures ScansOk(trace, WorkStep(trace, s, t))
  {
    hide Inv, StageOk, WorkersOk, Shown, Dispatched, BusyWith, BeingReleased, IsLive;
    var s' := WorkStep(trace, s, t);
    RunningIsLive(trace, s, t);
    MovedView(trace, s, t, s');
    WorkerFacts(trace, s, t);
    forall u | u in s.workers && u != t ensures ScanOk(trace, s'.slots, s'.place, s.workers[u]) {
      WorkerFacts(trace, s, u);
      if s.workers[u].phase.PuttingKey? || s.workers[u].phase.PuttingBlock? {
        RunningIsLive(trace, s, u);
      }
    }
  }

  lemma ProbingKeepsInv(trace: seq<Entry>, s: State, t: int)
    requires Inv(trace, s) && |s.slots| >= MaxLive(trace, |trace|) && CanWork(s, t) && s.workers[t].phase.Probing?
    ensures Inv(trace, WorkStep(trace, s, t))
  {
    hide Inv, Hash, MaxLive, Live, StageOk, WorkersOk, ScansOk, Unplaced, Unobtained, BeingReleased, Filling,
         BusyWith, Removals, PlacesOk, SlotsOk, OwnersOk, ObtainedOk, HeldOk, RunningOk, FreedOnce, Shown,
         Dispatched, IsLive;
    WorkerFacts(trace, s, t);
    ProbingNotOver(trace, s, t);
    var w := s.workers[t];
    var s' := WorkStep(trace, s, t);
    if s.slots[w.slot].key == 0 {
      MovedView(trace, s, t, s');
      ClaimedTable(trace, s, t);
      ClaimedScans(trace, s, t);
      MovedBlocks(trace, s, t, s');
      RemovedSoFar(trace, s);
      NotAtEnd(trace, s, t);
      Assemble(trace, s');
    } else {
      SearchMovesOn(|s.slots|, EntryAt(trace, w.entry).ptr, w);
      QuietKeepsInv(trace, s, t, w.(probes := w.probes + 1, slot := NextIndex(|s.slots|, w.slot)));
    }
  }

  lemma NotAtEnd(trace: seq<Entry>, s: State, t: int)
    requires Inv(trace, s) && t in s.workers
    ensures !s.stage.FreeAll? && !s.stage.End?
  {
  }

  /** FindEmpty always finds: fewer slots are taken than there are. */
  lemma ProbingNotOver(trace: seq<Entry>, s: State, t: int)
    requires Inv(trace, s) && |s.slots| >= MaxLive(trace, |trace|) && CanWork(s, t) && s.workers[t].phase.Probing?
    ensures s.workers[t].probes < |s.slots|
  {
    hide MaxLive, Hash, Live, IsLive;
    var w, size := s.workers[t], |s.slots|;
    WorkerFacts(trace, s, t);
    RunningIsLive(trace, s, t);
    assert Unplaced(trace, s, w.entry);
    assert w.entry !in s.place;
    OccupiedBound(trace, s);
    hide Inv, Shown;
    if w.probes == size {
      AllOccupied(s.slots, size);
    }
  }

  lemma {:induction false} AllOccupied(slots: seq<Slot>, n: nat)
    requires n <= |slots| && forall j :: 0 <= j < n ==> slots[j].key != 0
    ensures |Occupied(slots, n)| == n
  {
    if n > 0 {
      AllOccupied(slots, n - 1);
      assert Occupied(slots, n) == Occupied(slots, n - 1) + {n - 1};
    }
  }

  lemma PointerNotZero(trace: seq<Entry>, e: nat)
    requires WellFormed(trace) && e < |trace| && Allocates(trace[e])
    ensures trace[e].ptr != 0
  {
    assert EntryOk(Live(trace, e), trace[e]);
  }

  /** The two stores of Add complete the slot and touch no other. */
  lemma PutTable(trace: seq<Entry>, s: State, t: int, slot': Slot)
    requires Inv(trace, s) && CanWork(s, t)
    requires s.workers[t].phase.PuttingKey? || s.workers[t].phase.PuttingBlock?
    requires WorkStep(trace, s, t).slots == s.slots[s.workers[t].slot := slot']
    requires slot'.key != 0 && slot'.owner == s.slots[s.workers[t].slot].owner
    ensures var s' := WorkStep(trace, s, t);
            && PlacesOk(trace, s', Shown(trace, s)) && SlotsOk(trace, s') && OwnersOk(s'.slots, s'.place)
            && ScansOk(trace, s')
  {
    hide Inv, Live, IsLive, Shown, Removals, StageOk, WorkersOk, Dispatched, BeingReleased, ObtainedOk, HeldOk,
         RunningOk, FreedOnce;
    var s', o := WorkStep(trace, s, t), s.workers[t].entry;
    WorkerFacts(trace, s, t);
    RunningIsLive(trace, s, t);
    MovedView(trace, s, t, s');
    TableFacts(trace, s);
    assert PlacesOk(trace, s', Shown(trace, s)) by {
      hide SlotsOk, OwnersOk, ScansOk, ScanOk;
    }
    hide PlacesOk;
    assert ScansOk(trace, s') by {
      hide SlotsOk, OwnersOk, BusyWith, PhaseOf;
      forall u | u in s.workers && u != t ensures ScanOk(trace, s'.slots, s'.place, s.workers[u]) {
        WorkerFacts(trace, s, u);
      }
    }
    hide ScansOk;
    assert OwnersOk(s'.slots, s'.place) by {
      hide SlotsOk;
    }
    hide OwnersOk;
    forall e | e in s'.place ensures e < |trace| && SlotOk(trace, s', e) {
      assert SlotOk(trace, s, e);
    }
  }

  lemma TableFacts(trace: seq<Entry>, s: State)
    requires Inv(trace, s)
    ensures Shown(trace, s) <= |trace| && PlacesOk(trace, s, Shown(trace, s))
    ensures SlotsOk(trace, s) && OwnersOk(s.slots, s.place) && ScansOk(trace, s)
    ensures RunningOk(trace, s, Shown(trace, s))
  {
  }

  lemma PutKeepsInv(trace: seq<Entry>, s: State, t: int)
    requires Inv(trace, s) && WellFormed(trace) && CanWork(s, t)
    requires s.workers[t].phase.PuttingKey? || s.workers[t].phase.PuttingBlock?
    ensures Inv(trace, WorkStep(trace, s, t))
  {
    hide Inv, WellFormed, Live, StageOk, WorkersOk, ScansOk, Unplaced, Unobtained, BeingReleased, Filling, Removals,
         PlacesOk, OwnersOk, ObtainedOk, HeldOk, RunningOk, FreedOnce, Shown, Dispatched, IsLive;
    var s', o, j := WorkStep(trace, s, t), s.workers[t].entry, s.workers[t].slot;
    WorkerFacts(trace, s, t);
    RunningIsLive(trace, s, t);
    PointerNotZero(trace, o);
    TableFacts(trace, s);
    assert SlotOk(trace, s, o);
    hide SlotsOk, BusyWith, SlotOk;
    PutTable(trace, s, t, s'.slots[j]);
    MovedView(trace, s, t, s');
    MovedBlocks(trace, s, t, s');
    RemovedSoFar(trace, s);
    NotAtEnd(trace, s, t);
    Assemble(trace, s');
  }

  lemma ObtainingKeepsInv(trace: seq<Entry>, s: State, t: int)
    requires Inv(trace, s) && |s.slots| >= MaxLive(trace, |trace|) && CanWork(s, t) && s.workers[t].phase.Obtaining?
    ensures Inv(trace, WorkStep(trace, s, t))
  {
    hide Inv, MaxLive, Hash, Live, StageOk, WorkersOk, Unobtained, BeingReleased, Removals, OwnersOk, ObtainedOk,
         HeldOk, FreedOnce, Shown, Dispatched, IsLive;
    var s', o := WorkStep(trace, s, t), s.workers[t].entry;
    WorkerFacts(trace, s, t);
    RunningIsLive(trace, s, t);
    TableFacts(trace, s);
    assert |s.slots| > 0 by {
      assert Unplaced(trace, s, o);
      OccupiedBound(trace, s);
    }
    MovedView(trace, s, t, s');
    ObtainedBlocks(trace, s, t, s'.workers[t]);
    assert PlacesOk(trace, s', Shown(trace, s)) && SlotsOk(trace, s') by {
      hide ScansOk, ScanOk;
    }
    hide PlacesOk, SlotsOk;
    assert ScansOk(trace, s');
    hide ScansOk, ScanOk;
    RunningKept(trace, s, s');
    hide RunningOk, BusyWith;
    RemovedSoFar(trace, s);
    NotAtEnd(trace, s, t);
    Assemble(trace, s');
  }

  lemma RunningKept(trace: seq<Entry>, s: State, s': State)
    requires Inv(trace, s) && Shown(trace, s') == Shown(trace, s)
    requires forall e: nat :: BusyWith(trace, s', e) ==> BusyWith(trace, s, e)
    ensures RunningOk(trace, s', Shown(trace, s'))
  {
    hide BusyWith, IsLive, Shown;
  }

  lemma FinishedThreads(trace: seq<Entry>, s: State, t: int)
    requires Inv(trace, s) && CanWork(s, t) && s.workers[t].phase.Finished?
    ensures var s' := WorkStep(trace, s, t); StageOk(trace, s') && WorkersOk(trace, s') && ScansOk(trace, s')
  {
    hide Inv;
    ThreadFacts(trace, s);
    var s' := WorkStep(trace, s, t);
    assert ScansOk(trace, s') by {
      hide StageOk, WorkersOk;
    }
    hide ScansOk, ScanOk;
    assert WorkersOk(trace, s') by {
      hide StageOk;
    }
    assert WorkerOk(trace, s, t);
    hide WorkersOk;
  }

  lemma FinishedBusy(trace: seq<Entry>, s: State, t: int)
    requires CanWork(s, t) && WorkerOk(trace, s, t) && s.workers[t].phase.Finished?
    ensures SameBusy(trace, s, WorkStep(trace, s, t))
  {
  }

  lemma FinishedView(trace: seq<Entry>, s: State, t: int)
    requires Inv(trace, s) && CanWork(s, t) && s.workers[t].phase.Finished?
    ensures SameView(trace, s, WorkStep(trace, s, t))
  {
    hide SameBusy, Inv;
    WorkerFacts(trace, s, t);
    hide ScanOk;
    FinishedBusy(trace, s, t);
  }

  lemma FinishedKeepsInv(trace: seq<Entry>, s: State, t: int)
    requires Inv(trace, s) && CanWork(s, t) && s.workers[t].phase.Finished?
    ensures Inv(trace, WorkStep(trace, s, t))
  {
    hide Inv, SameView, StageOk, WorkersOk, ScansOk;
    FinishedThreads(trace, s, t);
    FinishedView(trace, s, t);
    SameViewKeepsInv(trace, s, WorkStep(trace, s, t));
  }

  lemma WorkKeepsInv(trace: seq<Entry>, s: State, t: int)
    requires Inv(trace, s) && WellFormed(trace) && |s.slots| >= MaxLive(trace, |trace|) && CanWork(s, t)
    ensures Inv(trace, WorkStep(trace, s, t))
  {
    hide Inv, WellFormed, MaxLive, WorkStep;
    match s.workers[t].phase
    case Asleep => WakingKeepsInv(trace, s, t);
    case Begun => BegunKeepsInv(trace, s, t);
    case Finding => FindingKeepsInv(trace, s, t);
    case Fetching => FetchingKeepsInv(trace, s, t);
    case Clearing => ClearingKeepsInv(trace, s, t);
    case Releasing => ReleasingKeepsInv(trace, s, t);
    case Obtaining => ObtainingKeepsInv(trace, s, t);
    case Probing => ProbingKeepsInv(trace, s, t);
    case PuttingKey | PuttingBlock => PutKeepsInv(trace, s, t);
    case Finished => FinishedKeepsInv(trace, s, t);
  }

  // ----------------------------------------------------------- coordinator steps

  /** Steps of the coordinator that start nothing. */
  ghost predicate Bookkeeping(step: Step)
  {
    !step.Work? && !step.CTrigger? && !step.CStartFree? && !step.CFreeSlot? && !step.CStop?
  }

  /** The parts of Inv about threads, one coordinator step at a time. */
  lemma LookupThreads(trace: seq<Entry>, s: State)
    requires StageOk(trace, s) && WorkersOk(trace, s) && Enabled(trace, s, CLookup)
    ensures StageOk(trace, Do(trace, s, CLookup)) && WorkersOk(trace, Do(trace, s, CLookup))
  {
  }

  lemma ReadyThreads(trace: seq<Entry>, s: State)
    requires StageOk(trace, s) && WorkersOk(trace, s) && Enabled(trace, s, CReady)
    ensures StageOk(trace, Do(trace, s, CReady)) && WorkersOk(trace, Do(trace, s, CReady))
  {
  }

  lemma JoinedThreads(trace: seq<Entry>, s: State)
    requires StageOk(trace, s) && WorkersOk(trace, s) && Enabled(trace, s, CJoined)
    ensures StageOk(trace, Do(trace, s, CJoined)) && WorkersOk(trace, Do(trace, s, CJoined))
  {
  }

  lemma EndingThreads(trace: seq<Entry>, s: State, t: int)
    requires StageOk(trace, s) && WorkersOk(trace, s) && Enabled(trace, s, CFinish(t))
    ensures StageOk(trace, Do(trace, s, CFinish(t))) && WorkersOk(trace, Do(trace, s, CFinish(t)))
  {
  }

  lemma EndedThreads(trace: seq<Entry>, s: State)
    requires StageOk(trace, s) && WorkersOk(trace, s) && Enabled(trace, s, CFinished)
    ensures StageOk(trace, Do(trace, s, CFinished)) && WorkersOk(trace, Do(trace, s, CFinished))
  {
  }

  lemma WaitingThreads(trace: seq<Entry>, s: State, step: Step)
    requires StageOk(trace, s) && WorkersOk(trace, s) && Enabled(trace, s, step)
    requires step.CWaited? || step.CQuiet? || step.CSettled? || step.CFinal?
    ensures StageOk(trace, Do(trace, s, step)) && WorkersOk(trace, Do(trace, s, step))
  {
  }

  lemma BookkeepingThreads(trace: seq<Entry>, s: State, step: Step)
    requires Inv(trace, s) && Enabled(trace, s, step) && Bookkeeping(step)
    ensures StageOk(trace, Do(trace, s, step)) && WorkersOk(trace, Do(trace, s, step))
  {
    hide Inv, StageOk, WorkersOk, Do, Enabled;
    ThreadFacts(trace, s);
    match step
    case CLookup => LookupThreads(trace, s);
    case CReady => ReadyThreads(trace, s);
    case CJoined => JoinedThreads(trace, s);
    case CFinish(t) => EndingThreads(trace, s, t);
    case CFinished => EndedThreads(trace, s);
    case _ => WaitingThreads(trace, s, step);
  }

  lemma BookkeepingScans(trace: seq<Entry>, s: State, step: Step)
    requires Inv(trace, s) && Enabled(trace, s, step) && Bookkeeping(step)
    ensures var s' := Do(trace, s, step); ScansOk(trace, s')
  {
    ThreadFacts(trace, s);
    hide Inv;
    match step
    case CFinish(t) => assert WorkerOk(trace, s, t);
    case CReady => assert WorkerOk(trace, s, trace[s.i].tid);
    case _ =>
  }

  /** A running thread is untouched by such a step. */
  lemma BookkeepingBusy(trace: seq<Entry>, s: State, step: Step)
    requires Inv(trace, s) && Enabled(trace, s, step) && Bookkeeping(step)
    ensures var s' := Do(trace, s, step);
            && (forall e: nat :: BusyWith(trace, s', e) == BusyWith(trace, s, e))
            && (forall e: nat :: BusyWith(trace, s, e) ==> PhaseOf(trace, s', e) == PhaseOf(trace, s, e))
  {
    ThreadFacts(trace, s);
    hide Inv, ScansOk;
    match step
    case CLookup =>
    case CReady =>
    case CJoined =>
    case CFinish(t) =>
    case CFinished =>
    case _ => hide WorkersOk, StageOk;
  }

  lemma BookkeepingReleases(trace: seq<Entry>, s: State, step: Step, e: nat)
    requires Inv(trace, s) && Enabled(trace, s, step) && Bookkeeping(step)
    ensures !BeingReleased(trace, s, e) && !BeingReleased(trace, Do(trace, s, step), e)
  {
    hide Inv;
    if s.stage.Settle? && AtEntry(trace, s) {
      WorkerFacts(trace, s, trace[s.i].tid);
    }
  }

  lemma BookkeepingView(trace: seq<Entry>, s: State, step: Step)
    requires Inv(trace, s) && Enabled(trace, s, step) && Bookkeeping(step)
    ensures SameView(trace, s, Do(trace, s, step))
  {
    hide Inv, ScansOk, WorkersOk;
    var s' := Do(trace, s, step);
    assert SameBusy(trace, s, s') by {
      hide BusyWith, BeingReleased, Do, Enabled, StageOk;
      BookkeepingBusy(trace, s, step);
      forall e: nat ensures BeingReleased(trace, s', e) == BeingReleased(trace, s, e) {
        BookkeepingReleases(trace, s, step, e);
      }
    }
    hide SameBusy;
    ThreadFacts(trace, s);
  }

  lemma BookkeepingKeepsInv(trace: seq<Entry>, s: State, step: Step)
    requires Inv(trace, s) && Enabled(trace, s, step) && Bookkeeping(step)
    ensures Inv(trace, Do(trace, s, step))
  {
    hide Inv, Do, SameView, StageOk, WorkersOk, ScansOk;
    BookkeepingThreads(trace, s, step);
    BookkeepingScans(trace, s, step);
    BookkeepingView(trace, s, step);
    SameViewKeepsInv(trace, s, Do(trace, s, step));
  }

  /** SetPending: entry i is now running, at its very start, and nothing else changed. */
  lemma TriggerBusy(trace: seq<Entry>, s: State)
    requires Inv(trace, s) && Enabled(trace, s, CTrigger)
    ensures var s' := Do(trace, s, CTrigger);
            && !BusyWith(trace, s, s.i) && BusyWith(trace, s', s.i) && PhaseOf(trace, s', s.i).Asleep?
            && (forall e: nat :: e != s.i ==> BusyWith(trace, s', e) == BusyWith(trace, s, e))
            && (forall e: nat :: e != s.i && BusyWith(trace, s, e) ==> PhaseOf(trace, s', e) == PhaseOf(trace, s, e))
            && (forall e: nat :: !BeingReleased(trace, s, e) && !BeingReleased(trace, s', e))
            && Shown(trace, s) == s.i && Dispatched(trace, s) == s.i && Dispatched(trace, s') == s.i + 1
            && Shown(trace, s') == if DoesFree(trace[s.i]) then s.i else s.i + 1
  {
    ThreadFacts(trace, s);
    hide Inv, ScansOk;
    assert WorkerOk(trace, s, trace[s.i].tid);
    hide WorkersOk;
  }

  lemma TriggerThreads(trace: seq<Entry>, s: State)
    requires Inv(trace, s) && Enabled(trace, s, CTrigger)
    ensures var s' := Do(trace, s, CTrigger); StageOk(trace, s') && WorkersOk(trace, s') && ScansOk(trace, s')
  {
    ThreadFacts(trace, s);
    hide Inv;
    var s' := Do(trace, s, CTrigger);
    assert WorkerOk(trace, s, trace[s.i].tid);
    assert ScansOk(trace, s') by {
      hide WorkersOk;
    }
    hide ScansOk, ScanOk;
    assert StageOk(trace, s');
  }

  lemma TriggerLive(trace: seq<Entry>, s: State, k: nat)
    requires WellFormed(trace) && s.i < |trace| && k == if DoesFree(trace[s.i]) then s.i else s.i + 1
    ensures forall e: nat :: IsLive(trace, k, e) <==> IsLive(trace, s.i, e) || (e == s.i && k == s.i + 1 && Allocates(trace[s.i]))
    ensures forall e: nat :: IsLive(trace, s.i, e) ==> e < s.i
    ensures Removals(trace, k) == Removals(trace, s.i)
  {
    hide Live, WellFormed, IsLive;
    LiveCounts(trace, s.i);
    forall e: nat ensures IsLive(trace, k, e) <==> IsLive(trace, s.i, e) || (e == s.i && k == s.i + 1 && Allocates(trace[s.i])) {
      LiveNext(trace, s.i, e);
    }
  }

  lemma TriggerTable(trace: seq<Entry>, s: State, k: nat)
    requires Inv(trace, s) && Enabled(trace, s, CTrigger) && WellFormed(trace) && k == Shown(trace, Do(trace, s, CTrigger)) <= |trace|
    ensures var s' := Do(trace, s, CTrigger); PlacesOk(trace, s', k) && SlotsOk(trace, s') && RunningOk(trace, s', k)
  {
    hide Inv, WellFormed, IsLive, Shown, Dispatched, BeingReleased, Removals, ScansOk, OwnersOk, Live;
    var s' := Do(trace, s, CTrigger);
    TriggerBusy(trace, s);
    TriggerLive(trace, s, k);
    TableFacts(trace, s);
    assert PlacesOk(trace, s', k) by {
      hide SlotsOk, RunningOk;
    }
    assert RunningOk(trace, s', k) by {
      hide SlotsOk, PlacesOk;
    }
    hide RunningOk;
    assert s.i !in s.place;
    hide PlacesOk;
  }

  lemma BlockFacts(trace: seq<Entry>, s: State)
    requires Inv(trace, s)
    ensures ObtainedOk(trace, s) && Shown(trace, s) <= |trace| && HeldOk(trace, s, Shown(trace, s))
    ensures FreedOnce(s.freed, s.obtained)
  {
  }

  lemma TriggerBlocks(trace: seq<Entry>, s: State, k: nat)
    requires Inv(trace, s) && Enabled(trace, s, CTrigger) && WellFormed(trace) && k == Shown(trace, Do(trace, s, CTrigger)) <= |trace|
    ensures var s' := Do(trace, s, CTrigger); ObtainedOk(trace, s') && HeldOk(trace, s', k)
  {
    hide Inv, WellFormed, IsLive, Shown, Dispatched, BeingReleased, Removals, Live;
    var s' := Do(trace, s, CTrigger);
    TriggerBusy(trace, s);
    TriggerLive(trace, s, k);
    BlockFacts(trace, s);
    assert forall e: nat :: Unobtained(trace, s', e) <==> Unobtained(trace, s, e) || e == s.i by {
      hide ObtainedOk, HeldOk;
    }
    hide Unobtained, BusyWith, FreedOnce;
    assert ObtainedOk(trace, s') by {
      hide HeldOk;
    }
    assert forall e: nat :: Held(s', e) == Held(s, e);
    hide ObtainedOk, Held;
  }

  lemma TriggerKeepsInv(trace: seq<Entry>, s: State)
    requires Inv(trace, s) && Enabled(trace, s, CTrigger) && WellFormed(trace)
    ensures Inv(trace, Do(trace, s, CTrigger))
  {
    hide Inv, WellFormed, IsLive, Shown, Dispatched, BeingReleased, Removals, ScansOk, Live, StageOk, WorkersOk,
         BusyWith, PhaseOf, PlacesOk, SlotsOk, RunningOk, ObtainedOk, HeldOk;
    var s' := Do(trace, s, CTrigger);
    TriggerBusy(trace, s);
    var k := Shown(trace, s');
    TriggerLive(trace, s, k);
    TriggerThreads(trace, s);
    TriggerTable(trace, s, k);
    TriggerBlocks(trace, s, k);
    RemovedSoFar(trace, s);
    TableFacts(trace, s);
    Assemble(trace, s');
  }

  // ----------------------------------------------------------------- the last frees

  lemma StartFreeKeepsInv(trace: seq<Entry>, s: State)
    requires Inv(trace, s) && Enabled(trace, s, CStartFree)
    ensures Inv(trace, Do(trace, s, CStartFree))
  {
    hide Live, IsLive, Removals;
    var s' := Do(trace, s, CStartFree);
    assert forall e: nat :: !BusyWith(trace, s, e) && !BusyWith(trace, s', e);
    assert HeldOk(trace, s', |trace|) by {
      hide SlotsOk, OwnersOk, ScansOk, ObtainedOk, RunningOk, FreedOnce, WorkersOk;
    }
    hide HeldOk;
  }

  /** FreeAll frees the block of each occupied slot it passes, and no block twice. */
  lemma FreeSlotKeepsInv(trace: seq<Entry>, s: State)
    requires Inv(trace, s) && Enabled(trace, s, CFreeSlot)
    ensures Inv(trace, Do(trace, s, CFreeSlot))
  {
    hide Live, IsLive, Removals;
    var s' := Do(trace, s, CFreeSlot);
    var slot := s.slots[s.scan];
    assert forall e: nat :: !BusyWith(trace, s, e) && !BusyWith(trace, s', e);
    if slot.key != 0 {
      assert SlotOk(trace, s, slot.owner);
      assert slot.block == slot.owner && Held(s, slot.block);
      assert forall e: nat :: Held(s', e) <==> Held(s, e) && e != slot.block;
    }
    assert forall e: nat :: e in s.place && s.place[e] == s.scan ==> slot.key != 0 && e == slot.owner;
    hide SlotsOk, OwnersOk, ScansOk, ObtainedOk, RunningOk, WorkersOk;
  }

  // ------------------------------------------------------------------- theorems

  lemma StepKeepsInv(trace: seq<Entry>, s: State, step: Step)
    requires Inv(trace, s) && WellFormed(trace) && |s.slots| >= MaxLive(trace, |trace|) && Enabled(trace, s, step)
    ensures Inv(trace, Do(trace, s, step)) && |Do(trace, s, step).slots| == |s.slots|
  {
    hide Inv, WellFormed, MaxLive;
    SameTableSize(trace, s, step);
    match step
    case Work(t) => WorkKeepsInv(trace, s, t);
    case CTrigger => hide Do; TriggerKeepsInv(trace, s);
    case CStartFree => hide Do; StartFreeKeepsInv(trace, s);
    case CFreeSlot => hide Do; FreeSlotKeepsInv(trace, s);
    case CStop => hide Do; StopKeepsInv(trace, s);
    case _ => hide Do; BookkeepingKeepsInv(trace, s, step);
  }

  lemma SameTableSize(trace: seq<Entry>, s: State, step: Step)
    requires Enabled(trace, s, step)
    ensures |Do(trace, s, step).slots| == |s.slots|
  {
  }

  lemma StopKeepsInv(trace: seq<Entry>, s: State)
    requires Inv(trace, s) && Enabled(trace, s, CStop)
    ensures Inv(trace, Do(trace, s, CStop))
  {
    hide Live, IsLive, Removals;
    var s' := Do(trace, s, CStop);
    assert forall e: nat :: !BusyWith(trace, s, e) && !BusyWith(trace, s', e);
  }

  lemma {:induction false} RunKeepsInv(trace: seq<Entry>, size: nat, run: seq<Step>)
    requires WellFormed(trace) && size >= MaxLive(trace, |trace|) && Run(trace, Init(size), run).Some?
    ensures var s := Run(trace, Init(size), run).value; Inv(trace, s) && |s.slots| == size
    decreases |run|
  {
    if run == [] {
      InitInv(trace, size);
    } else {
      hide Inv, WellFormed, MaxLive, Do, Enabled;
      RunKeepsInv(trace, size, run[..|run| - 1]);
      StepKeepsInv(trace, Run(trace, Init(size), run[..|run| - 1]).value, run[|run| - 1]);
    }
  }

  /** Between the entry that Live names for a pointer and entry i, nothing allocates or frees that pointer. */
  lemma {:induction false} LiveIsLatest(trace: seq<Entry>, i: nat, p: nat, j: nat)
    requires i <= |trace| && p in Live(trace, i) && Live(trace, i)[p] < j < i
    ensures !(Allocates(trace[j]) && trace[j].ptr == p)
    ensures !(DoesFree(trace[j]) && Released(trace[j]) == p)
  {
    if j < i - 1 {
      LiveIsLatest(trace, i - 1, p, j);
    }
  }

  /** Entry `at` gave back block e, and e was the latest earlier allocation of the pointer it names. */
  ghost predicate RemovedLatest(trace: seq<Entry>, at: nat, e: nat)
  {
    && at < |trace| && DoesFree(trace[at])
    && e < at && Allocates(trace[e]) && trace[e].ptr == Released(trace[at])
    && forall j :: e < j < at ==>
         !(Allocates(trace[j]) && trace[j].ptr == Released(trace[at]))
         && !(DoesFree(trace[j]) && Released(trace[j]) == Released(trace[at]))
  }

  lemma {:induction false} RemovalsAreLatest(trace: seq<Entry>, k: nat, n: nat)
    requires k <= |trace| && n < |Removals(trace, k)|
    ensures RemovedLatest(trace, Removals(trace, k)[n].0, Removals(trace, k)[n].1)
  {
    if n < |Removals(trace, k - 1)| {
      RemovalsAreLatest(trace, k - 1, n);
    } else {
      var p := Released(trace[k - 1]);
      LiveFacts(trace, k - 1, p);
      forall j | Live(trace, k - 1)[p] < j < k - 1
        ensures !(Allocates(trace[j]) && trace[j].ptr == p) && !(DoesFree(trace[j]) && Released(trace[j]) == p)
      {
        LiveIsLatest(trace, k - 1, p, j);
      }
    }
  }

  /** Every freeing entry among the first k, in order, and nothing else. */
  lemma {:induction false} RemovalsAreTheFrees(trace: seq<Entry>, k: nat)
    requires WellFormed(trace) && k <= |trace|
    ensures |Removals(trace, k)| == FreesAmong(trace, k)
    ensures forall m, n :: 0 <= m < n < |Removals(trace, k)| ==> Removals(trace, k)[m].0 < Removals(trace, k)[n].0
    ensures forall n :: 0 <= n < |Removals(trace, k)| ==> Removals(trace, k)[n].0 < k
  {
    if k > 0 {
      RemovalsAreTheFrees(trace, k - 1);
      assert EntryOk(Live(trace, k - 1), trace[k - 1]);
      hide WellFormed, Live;
    }
  }

  ghost function FreesAmong(trace: seq<Entry>, k: nat): nat
    requires k <= |trace|
  {
    if k == 0 then 0 else FreesAmong(trace, k - 1) + if DoesFree(trace[k - 1]) then 1 else 0
  }

  /**
   * Over every interleaving: none of the error exits is taken, what a Remove returned is the
   * block of the latest earlier allocation of its pointer, and the table holds at most as many
   * slots as GetMaxAllocs computes.
   */
  lemma EveryRunIsSafe(trace: seq<Entry>, size: nat, run: seq<Step>)
    requires WellFormed(trace) && size >= MaxLive(trace, |trace|) && Run(trace, Init(size), run).Some?
    ensures var s := Run(trace, Init(size), run).value;
            && !s.failed
            && |Occupied(s.slots, |s.slots|)| <= MaxLive(trace, |trace|)
            && forall n :: 0 <= n < |s.removed| ==> RemovedLatest(trace, s.removed[n].0, s.removed[n].1)
  {
    hide WellFormed, MaxLive, Occupied, Run, RemovedLatest;
    RunKeepsInv(trace, size, run);
    var s := Run(trace, Init(size), run).value;
    OccupiedBound(trace, s);
    RemovedSoFar(trace, s);
    hide Inv;
    forall n | 0 <= n < |s.removed| ensures RemovedLatest(trace, s.removed[n].0, s.removed[n].1) {
      RemovalsAreLatest(trace, Shown(trace, s), n);
    }
  }

  /** A finished run freed the block of every allocating entry exactly once, and ran every Remove. */
  lemma FinishedRunFreesAllOnce(trace: seq<Entry>, size: nat, run: seq<Step>, e: nat)
    requires WellFormed(trace) && size >= MaxLive(trace, |trace|) && Run(trace, Init(size), run).Some?
    requires Run(trace, Init(size), run).value.stage.End?
    ensures var s := Run(trace, Init(size), run).value;
            && multiset(s.freed)[e] == (if e < |trace| && Allocates(trace[e]) then 1 else 0)
            && s.removed == Removals(trace, |trace|) && |s.removed| == FreesAmong(trace, |trace|)
  {
    hide WellFormed, MaxLive, Run, Live, Removals;
    RunKeepsInv(trace, size, run);
    var s := Run(trace, Init(size), run).value;
    RemovalsAreTheFrees(trace, |trace|);
    EndFacts(trace, s, e);
    hide Inv;
    if e in s.freed {
      CountedOnce(s.freed, e);
    }
  }

  lemma EndFacts(trace: seq<Entry>, s: State, e: nat)
    requires Inv(trace, s) && s.stage.End?
    ensures e in s.freed <==> e < |trace| && Allocates(trace[e])
    ensures forall j, l :: 0 <= j < l < |s.freed| ==> s.freed[j] != s.freed[l]
    ensures Shown(trace, s) == |trace| && s.removed == Removals(trace, |trace|)
  {
    hide Live, Removals, IsLive;
    assert !BusyWith(trace, s, e);
    assert e in s.place ==> SlotOk(trace, s, e);
    assert !Held(s, e);
  }

  lemma {:induction false} CountedOnce(s: seq<nat>, x: nat)
    requires x in s && forall j, l :: 0 <= j < l < |s| ==> s[j] != s[l]
    ensures multiset(s)[x] == 1
  {
    var front, last := s[..|s| - 1], s[|s| - 1];
    assert s == front + [last];
    if last == x {
      assert x !in front;
    } else {
      CountedOnce(front, x);
    }
  }

  /** No reachable state is stuck: the coordinator never waits for a thread that cannot move. */
  lemma NoDeadlock(trace: seq<Entry>, s: State) returns (step: Step)
    requires Inv(trace, s) && !s.stage.End?
    ensures Enabled(trace, s, step)
  {
    hide Inv, ScansOk, WorkersOk, CanWork;
    ThreadFacts(trace, s);
    RemovedSoFar(trace, s);
    hide Removals, FreedOnce;
    match s.stage
    case Lookup => step := if s.i < |trace| then CLookup else CFinal;
    case Ready => step := IdleOrWork(trace, s, trace[s.i].tid, CReady);
    case Quiesce | LastQuiesce =>
      if s.waiting == {} {
        step := CQuiet;
      } else {
        var t := AnyOf(s.waiting);
        step := IdleOrWork(trace, s, t, CWaited(t));
      }
    case Trigger => step := CTrigger;
    case Join => step := GoneOrWork(trace, s, trace[s.i].tid, CJoined);
    case Settle => step := IdleOrWork(trace, s, trace[s.i].tid, CSettled);
    case FinishNext =>
      if s.workers.Keys == {} {
        assert s.workers == map[];
        step := CStartFree;
      } else {
        var t := AnyOf(s.workers.Keys);
        step := CFinish(t);
      }
    case FinishJoin => step := GoneOrWork(trace, s, s.target, CFinished);
    case FreeAll => step := if s.scan < |s.slots| then CFreeSlot else CStop;
  }

  lemma AnyOf(ts: set<int>) returns (t: int)
    requires ts != {}
    ensures t in ts
  {
    assert (forall u :: u !in ts) ==> ts == {};
    t :| t in ts;
  }

  /** A thread with work can take its next step. */
  lemma PendingCanWork(trace: seq<Entry>, s: State, t: int)
    requires Inv(trace, s) && t in s.workers && s.workers[t].pending
    ensures CanWork(s, t)
  {
    WorkerFacts(trace, s, t);
    hide Inv, Hash;
  }

  lemma IdleOrWork(trace: seq<Entry>, s: State, t: int, next: Step) returns (step: Step)
    requires Inv(trace, s) && t in s.workers && !s.failed
    requires !s.workers[t].pending ==> Enabled(trace, s, next)
    ensures Enabled(trace, s, step)
  {
    if s.workers[t].pending {
      PendingCanWork(trace, s, t);
      step := Work(t);
    } else {
      step := next;
    }
  }

  lemma GoneOrWork(trace: seq<Entry>, s: State, t: int, next: Step) returns (step: Step)
    requires Inv(trace, s) && t in s.workers && !s.failed && RunningOrGone(s, t)
    requires s.workers[t].phase.Gone? ==> Enabled(trace, s, next)
    ensures Enabled(trace, s, step)
  {
    if s.workers[t].pending {
      PendingCanWork(trace, s, t);
      step := Work(t);
    } else {
      step := next;
    }
  }
}
