/**
 * The reading thread and the record buffer together: each record handed over by a pass is decided
 * with what the ring itself answers, and written to it byte by byte, while the main thread goes on
 * reading from it.
 */
module DrainedRing {
  import opened Common
  import opened KernelRecords
  import opened KernelDrain
  import Ring = RecordRing

  // ------------------------------------------------------------------- the ring's answers

  /** GetFreeSize, with an older or newer value of the read head. */
  function FreeSize(size: nat, write: Ring.Head, read: Ring.Head): nat
  {
    if write.value < size && read.value < size then Ring.GetFreeSize(size, write.value, read.value) else 0
  }

  /** For how many bytes AllocWriteSpace finds room. */
  function Grants(size: nat, write: Ring.Head, read: Ring.Head): nat -> bool
  {
    (n: nat) => write.value < size && read.value < size && Ring.AllocWriteSpace(size, write.value, read.value, n).Space?
  }

  /** What becomes of the record if the ring has room. */
  function Wish(c: Config, rec: seq<byte>, free: nat): Outcome
    requires |rec| >= Ring.HEADER_SIZE
  {
    Decide(c, rec, Answer(free, _ => true))
  }

  predicate IsOffer(o: Outcome)
  {
    o.Stored? || o.Cut?
  }

  /** A record of the kernel whose stack, if any, comes last, and whose sizes suit the ring. */
  ghost predicate Pushable(c: Config, unit: nat, rec: seq<byte>)
  {
    && RecordOk(c.attr, rec) && StackIsLast(c.attr, rec) && Ring.HeaderType(rec) != Ring.PERF_RECORD_AUXTRACE
    && forall free: nat :: IsOffer(Wish(c, rec, free)) ==> Ring.IsMultiple(|Wish(c, rec, free).bytes|, unit)
  }

  // ---------------------------------------------------------------------- the machine

  /** How far the record at hand has come. `at` is the read head that GetFreeSize loaded. */
  datatype Hand =
    | Between
    | Measured(at: nat)
    | Offered(at: nat)
    | Writing(o: Outcome, ans: Answer)

  datatype State = State(ring: Ring.State, todo: seq<Handed>, done: seq<Handed>, answers: seq<Answer>, stat: Stat, hand: Hand)

  datatype Step =
    | Measure(k: nat)        // GetFreeSize
    | Skip                   // excluded, or dropped at the critical level
    | Offer
    | Alloc(k: nat)          // AllocWriteSpace
    | Copy(e: Ring.Step)     // one byte of the record or of the wrap marker
    | Finish                 // FinishWrite
    | Read(e: Ring.Step)     // a step of the main thread

  const NOTHING: Stat := Stat([], 0, 0, 0)

  function Init(size: nat, unit: nat, bytes: seq<byte>, all: seq<Handed>): State
  {
    State(Ring.Init(size, unit, bytes), all, [], [], NOTHING, Between)
  }

  ghost function Free(ring: Ring.State, at: nat): nat
    requires at < |ring.readHeads| && |ring.writeHeads| > 0
  {
    FreeSize(ring.size, Ring.Last(ring.writeHeads), ring.readHeads[at])
  }

  ghost function AnswerOf(ring: Ring.State, at: nat, k: nat): Answer
    requires at < |ring.readHeads| && k < |ring.readHeads| && |ring.writeHeads| > 0
  {
    Answer(Free(ring, at), Grants(ring.size, Ring.Last(ring.writeHeads), ring.readHeads[k]))
  }

  /** The record at hand is dealt with. */
  ghost function Counted(c: Config, s: State, o: Outcome, ans: Answer): State
    requires |s.todo| > 0 && |s.todo[0].record| >= Ring.HEADER_SIZE
  {
    s.(todo := s.todo[1..], done := s.done + [s.todo[0]], answers := s.answers + [ans],
       stat := Count(s.stat, o, Ring.HeaderType(s.todo[0].record)), hand := Between)
  }

  ghost predicate WishIs(c: Config, s: State, at: nat, offer: bool)
  {
    && |s.todo| > 0 && |s.todo[0].record| >= Ring.HEADER_SIZE && at < |s.ring.readHeads| && |s.ring.writeHeads| > 0
    && IsOffer(Wish(c, s.todo[0].record, Free(s.ring, at))) == offer
  }

  ghost predicate Enabled(c: Config, s: State, step: Step)
  {
    && Ring.Shape(s.ring)
    && match step
       case Measure(k) => s.hand.Between? && |s.todo| > 0 && s.ring.seenRead <= k < |s.ring.readHeads|
       case Skip => s.hand.Measured? && WishIs(c, s, s.hand.at, false)
       case Offer =>
         && s.hand.Measured? && WishIs(c, s, s.hand.at, true)
         && Ring.Enabled(s.ring, Ring.WOffer(Wish(c, s.todo[0].record, Free(s.ring, s.hand.at)).bytes))
       case Alloc(k) => s.hand.Offered? && WishIs(c, s, s.hand.at, true) && Ring.Enabled(s.ring, Ring.WLoad(k))
       case Copy(e) => s.hand.Writing? && (e.WMark? || e.WCopy?) && Ring.Enabled(s.ring, e)
       case Finish =>
         && s.hand.Writing? && |s.todo| > 0 && |s.todo[0].record| >= Ring.HEADER_SIZE
         && Ring.Enabled(s.ring, Ring.WFinish)
       case Read(e) => (e.RMove? || e.RLoad? || e.RPeek? || e.RDecide? || e.RTake? || e.RTaken?) && Ring.Enabled(s.ring, e)
  }

  ghost function Do(c: Config, s: State, step: Step): State
    requires Enabled(c, s, step)
  {
    match step
    case Measure(k) => s.(ring := s.ring.(seenRead := k), hand := Measured(k))
    case Skip =>
      var at := s.hand.at;
      var ans := AnswerOf(s.ring, at, at);
      Counted(c, s, Decide(c, s.todo[0].record, ans), ans)
    case Offer =>
      var o := Wish(c, s.todo[0].record, Free(s.ring, s.hand.at));
      s.(ring := Ring.Do(s.ring, Ring.WOffer(o.bytes)), hand := Offered(s.hand.at))
    case Alloc(k) =>
      var ans := AnswerOf(s.ring, s.hand.at, k);
      var o := Decide(c, s.todo[0].record, ans);
      var s1 := s.(ring := Ring.Do(s.ring, Ring.WLoad(k)));
      if s1.ring.writer.Waiting? then Counted(c, s1, o, ans) else s1.(hand := Writing(o, ans))
    case Copy(e) => s.(ring := Ring.Do(s.ring, e))
    case Finish => Counted(c, s.(ring := Ring.Do(s.ring, Ring.WFinish)), s.hand.o, s.hand.ans)
    case Read(e) => s.(ring := Ring.Do(s.ring, e))
  }

  ghost function Run(c: Config, s: State, run: seq<Step>): Option<State>
    decreases |run|
  {
    if run == [] then Some(s)
    else
      var before := Run(c, s, run[..|run| - 1]);
      if before.Some? && Enabled(c, before.value, run[|run| - 1])
      then Some(Do(c, before.value, run[|run| - 1])) else None
  }

  // ---------------------------------------------------------------------- invariant

  /** The answer is one the ring gave: for a value of the write head, and two values of the read head in their order. */
  ghost predicate Own(ring: Ring.State, ans: Answer)
  {
    exists i: nat, j: nat, l: nat ::
      && i < |ring.writeHeads| && j <= l < |ring.readHeads|
      && ans == Answer(FreeSize(ring.size, ring.writeHeads[i], ring.readHeads[j]),
                       Grants(ring.size, ring.writeHeads[i], ring.readHeads[l]))
  }

  function AnswerAt(answers: seq<Answer>): nat -> Answer
  {
    (k: nat) => if k < |answers| then answers[k] else Answer(0, _ => false)
  }

  ghost predicate AllPushable(c: Config, unit: nat, all: seq<Handed>)
  {
    ConfigOk(c) && forall k :: 0 <= k < |all| ==> Pushable(c, unit, all[k].record)
  }

  ghost predicate HandOk(c: Config, s: State)
  {
    match s.hand
    case Between => s.ring.writer.Waiting?
    case Measured(at) => s.ring.writer.Waiting? && |s.todo| > 0 && at <= s.ring.seenRead < |s.ring.readHeads| && |s.ring.writeHeads| > 0
    case Offered(at) =>
      && at <= s.ring.seenRead < |s.ring.readHeads| && WishIs(c, s, at, true)
      && s.ring.writer == Ring.Allocating(Wish(c, s.todo[0].record, Free(s.ring, at)).bytes)
    case Writing(o, ans) =>
      && |s.todo| > 0 && |s.todo[0].record| >= Ring.HEADER_SIZE && IsOffer(o) && o == Decide(c, s.todo[0].record, ans)
      && Own(s.ring, ans)
      && (s.ring.writer.Marking? || s.ring.writer.Copying?) && s.ring.writer.rec == o.bytes
  }

  ghost predicate Ledger(c: Config, all: seq<Handed>, s: State)
  {
    && s.done + s.todo == all && |s.answers| == |s.done|
    && (forall k :: 0 <= k < |s.done| ==> |s.done[k].record| >= Ring.HEADER_SIZE)
    && s.stat == Tally(c, NOTHING, s.done, AnswerAt(s.answers))
    && (forall k :: 0 <= k < |s.answers| ==> Own(s.ring, s.answers[k]))
  }

  ghost predicate Inv(c: Config, all: seq<Handed>, s: State)
  {
    && Ring.Inv(s.ring) && AllPushable(c, s.ring.unit, all)
    && Ledger(c, all, s) && HandOk(c, s) && s.stat.stored == s.ring.log
  }

  // -------------------------------------------------------------- decisions and answers

  /** A wish comes true exactly if the ring has room for its bytes. */
  lemma WishDecides(c: Config, rec: seq<byte>, ans: Answer)
    requires ConfigOk(c) && RecordOk(c.attr, rec) && StackIsLast(c.attr, rec) && |rec| >= Ring.HEADER_SIZE
    ensures var w := Wish(c, rec, ans.free);
            Decide(c, rec, ans) == if IsOffer(w) then (if ans.fits(|w.bytes|) then w else Lost) else w
  {
    hide Value, AfterRegs, RecordOk, Shorten, Ring.HeaderType, PidPos;
    StoredIsRecord(c, rec, Answer(ans.free, _ => true));
    RecordLength(c.attr, rec);
    if Wish(c, rec, ans.free).Cut? {
      SampleFacts(c, rec);
      var keep := NewStackSize(c, rec, ans.free);
      CutIsRecord(c.attr, rec, keep);
    }
  }

  lemma OfferIsRecord(c: Config, unit: nat, rec: seq<byte>, free: nat)
    requires ConfigOk(c) && Pushable(c, unit, rec) && |rec| >= Ring.HEADER_SIZE && IsOffer(Wish(c, rec, free))
    ensures Ring.IsRecord(Wish(c, rec, free).bytes) && Ring.IsMultiple(|Wish(c, rec, free).bytes|, unit)
  {
    hide Value, AfterRegs, Shorten, PidPos, LittleEndian;
    RecordLength(c.attr, rec);
    if Wish(c, rec, free).Cut? {
      SampleFacts(c, rec);
      CutIsRecord(c.attr, rec, NewStackSize(c, rec, free));
    }
  }

  // ------------------------------------------------------------------------ the steps

  /** Heads are only ever added. */
  ghost predicate Grown(r: Ring.State, r': Ring.State)
  {
    r'.size == r.size && r'.unit == r.unit && r.writeHeads <= r'.writeHeads && r.readHeads <= r'.readHeads
  }

  lemma OwnKept(r: Ring.State, r': Ring.State, ans: Answer)
    requires Own(r, ans) && Grown(r, r')
    ensures Own(r', ans)
  {
    hide Grants, FreeSize;
    var i: nat, j: nat, l: nat :|
      && i < |r.writeHeads| && j <= l < |r.readHeads|
      && ans == Answer(FreeSize(r.size, r.writeHeads[i], r.readHeads[j]), Grants(r.size, r.writeHeads[i], r.readHeads[l]));
    assert r'.writeHeads[i] == r.writeHeads[i] && r'.readHeads[j] == r.readHeads[j] && r'.readHeads[l] == r.readHeads[l];
  }

  lemma IsOwn(r: Ring.State, at: nat, k: nat)
    requires at <= k < |r.readHeads| && |r.writeHeads| > 0
    ensures Own(r, AnswerOf(r, at, k))
  {
    hide Grants, FreeSize;
    var i := |r.writeHeads| - 1;
    assert r.writeHeads[i] == Ring.Last(r.writeHeads);
  }

  lemma {:induction false} TallySame(c: Config, out: seq<Handed>, a: nat -> Answer, b: nat -> Answer)
    requires forall k :: 0 <= k < |out| ==> |out[k].record| >= Ring.HEADER_SIZE
    requires forall k: nat :: k < |out| ==> a(k) == b(k)
    ensures Tally(c, NOTHING, out, a) == Tally(c, NOTHING, out, b)
  {
    hide Decide, Count;
    if out != [] {
      TallySame(c, out[..|out| - 1], a, b);
    }
  }

  lemma LedgerKept(c: Config, all: seq<Handed>, s: State, r': Ring.State, hand: Hand)
    requires Ledger(c, all, s) && Grown(s.ring, r')
    ensures Ledger(c, all, s.(ring := r', hand := hand))
  {
    hide Own, Grown, Tally;
    forall k | 0 <= k < |s.answers| ensures Own(r', s.answers[k]) {
      OwnKept(s.ring, r', s.answers[k]);
    }
  }

  lemma CountedLedger(c: Config, all: seq<Handed>, s: State, o: Outcome, ans: Answer)
    requires Ledger(c, all, s) && |s.todo| > 0 && |s.todo[0].record| >= Ring.HEADER_SIZE
    requires o == Decide(c, s.todo[0].record, ans) && Own(s.ring, ans)
    ensures Ledger(c, all, Counted(c, s, o, ans))
  {
    hide Own, Decide, Count;
    var s' := Counted(c, s, o, ans);
    TallySame(c, s.done, AnswerAt(s.answers), AnswerAt(s'.answers));
    assert s'.done[..|s.done|] == s.done;
    assert s'.done + s'.todo == all;
  }

  lemma Measuring(r: Ring.State, k: nat)
    requires Ring.Inv(r) && r.writer.Waiting? && r.seenRead <= k < |r.readHeads|
    ensures Ring.Inv(r.(seenRead := k))
  {
    Ring.LoadedHead(r, k);
    hide Ring.Stored, Ring.ReaderOk, Ring.IsMultiple, Ring.HeadsOk, Ring.HeadsFollowLog, Ring.NeverBack, Ring.Ascending;
  }

  lemma RingGrows(r: Ring.State, e: Ring.Step)
    requires Ring.Shape(r) && Ring.Enabled(r, e)
    ensures var r' := Ring.Do(r, e);
            && Grown(r, r')
            && (!e.WFinish? ==> r'.log == r.log && r'.writeHeads == r.writeHeads)
            && (e.RMove? || e.RLoad? || e.RPeek? || e.RDecide? || e.RTake? || e.RTaken? ==>
                  r'.writer == r.writer && r'.seenRead == r.seenRead)
            && (e.WMark? || e.WCopy? ==> (r'.writer.Marking? || r'.writer.Copying?) && r'.writer.rec == r.writer.rec)
  {
    hide Ring.Shape, Ring.AllocWriteSpace, Ring.Advance, Ring.HeaderBytes, Ring.AuxBytes;
  }

  lemma HeadAt(c: Config, all: seq<Handed>, s: State)
    requires AllPushable(c, s.ring.unit, all) && Ledger(c, all, s) && |s.todo| > 0
    ensures ConfigOk(c) && Pushable(c, s.ring.unit, s.todo[0].record) && |s.todo[0].record| >= Ring.HEADER_SIZE
  {
    hide Tally, Own;
    assert all[|s.done|] == s.todo[0];
  }

  lemma SkipKeepsInv(c: Config, all: seq<Handed>, s: State)
    requires Inv(c, all, s) && Enabled(c, s, Skip)
    ensures Inv(c, all, Do(c, s, Skip))
  {
    hide Ring.Inv, Ring.Shape, Ledger, Own, Decide, Pushable, AllPushable, Grants, FreeSize;
    HeadAt(c, all, s);
    var at := s.hand.at;
    var ans := AnswerOf(s.ring, at, at);
    var rec := s.todo[0].record;
    PushableParts(c, s.ring.unit, rec);
    WishDecides(c, rec, ans);
    IsOwn(s.ring, at, at);
    CountedLedger(c, all, s, Decide(c, rec, ans), ans);
  }

  lemma PushableParts(c: Config, unit: nat, rec: seq<byte>)
    requires Pushable(c, unit, rec)
    ensures RecordOk(c.attr, rec) && StackIsLast(c.attr, rec)
  {
  }

  lemma OfferKeepsInv(c: Config, all: seq<Handed>, s: State)
    requires Inv(c, all, s) && Enabled(c, s, Offer)
    ensures Inv(c, all, Do(c, s, Offer))
  {
    hide Ring.Inv, Ring.Shape, Ledger, Wish, AllPushable, FreeSize, Grown;
    var o := Wish(c, s.todo[0].record, Free(s.ring, s.hand.at));
    Ring.StepKeepsInv(s.ring, Ring.WOffer(o.bytes));
    RingGrows(s.ring, Ring.WOffer(o.bytes));
    LedgerKept(c, all, s, Ring.Do(s.ring, Ring.WOffer(o.bytes)), Offered(s.hand.at));
  }

  lemma AllocKeepsInv(c: Config, all: seq<Handed>, s: State, k: nat)
    requires Inv(c, all, s) && Enabled(c, s, Alloc(k))
    ensures Inv(c, all, Do(c, s, Alloc(k)))
  {
    hide Ring.Inv, Ledger, Wish, Decide, AllPushable, Pushable, FreeSize, Grown, Own, Ring.AllocWriteSpace;
    HeadAt(c, all, s);
    var rec, at := s.todo[0].record, s.hand.at;
    var ans := AnswerOf(s.ring, at, k);
    var r' := Ring.Do(s.ring, Ring.WLoad(k));
    var o := Decide(c, rec, ans);
    PushableParts(c, s.ring.unit, rec);
    WishDecides(c, rec, ans);
    Ring.StepKeepsInv(s.ring, Ring.WLoad(k));
    RingGrows(s.ring, Ring.WLoad(k));
    IsOwn(s.ring, at, k);
    OwnKept(s.ring, r', ans);
    LedgerKept(c, all, s, r', s.hand);
    if r'.writer.Waiting? {
      CountedLedger(c, all, s.(ring := r'), o, ans);
    } else {
      LedgerKept(c, all, s, r', Writing(o, ans));
    }
  }

  lemma FinishKeepsInv(c: Config, all: seq<Handed>, s: State)
    requires Inv(c, all, s) && Enabled(c, s, Finish)
    ensures Inv(c, all, Do(c, s, Finish))
  {
    hide Ring.Inv, Ring.Shape, Ledger, Decide, AllPushable, Grown, Own;
    var r' := Ring.Do(s.ring, Ring.WFinish);
    Ring.StepKeepsInv(s.ring, Ring.WFinish);
    RingGrows(s.ring, Ring.WFinish);
    LedgerKept(c, all, s, r', s.hand);
    OwnKept(s.ring, r', s.hand.ans);
    CountedLedger(c, all, s.(ring := r'), s.hand.o, s.hand.ans);
    SameUnit(s.ring, r');
  }

  lemma SameUnit(r: Ring.State, r': Ring.State)
    requires Grown(r, r')
    ensures r'.unit == r.unit && r'.size == r.size && |r'.readHeads| >= |r.readHeads|
    ensures forall k :: 0 <= k < |r.readHeads| ==> r'.readHeads[k] == r.readHeads[k]
  {
  }

  lemma RingKeepsInv(c: Config, all: seq<Handed>, s: State, step: Step)
    requires Inv(c, all, s) && Enabled(c, s, step) && (step.Copy? || step.Read?)
    ensures Inv(c, all, Do(c, s, step))
  {
    hide Ring.Inv, Ring.Shape, Ring.Do, Ledger, Decide, Wish, AllPushable, Grown, Own, FreeSize;
    var r' := Ring.Do(s.ring, step.e);
    Ring.StepKeepsInv(s.ring, step.e);
    RingGrows(s.ring, step.e);
    SameUnit(s.ring, r');
    LedgerKept(c, all, s, r', s.hand);
    if s.hand.Writing? {
      OwnKept(s.ring, r', s.hand.ans);
    }
  }

  lemma StepKeepsInv(c: Config, all: seq<Handed>, s: State, step: Step)
    requires Inv(c, all, s) && Enabled(c, s, step)
    ensures Inv(c, all, Do(c, s, step))
  {
    match step
    case Measure(k) =>
      hide Ring.Inv, Ledger, AllPushable;
      Measuring(s.ring, k);
      LedgerKept(c, all, s, s.ring.(seenRead := k), Measured(k));
    case Skip => hide *; SkipKeepsInv(c, all, s);
    case Offer => hide *; OfferKeepsInv(c, all, s);
    case Alloc(k) => hide *; AllocKeepsInv(c, all, s, k);
    case Finish => hide *; FinishKeepsInv(c, all, s);
    case Copy(_) => hide *; RingKeepsInv(c, all, s, step);
    case Read(_) => hide *; RingKeepsInv(c, all, s, step);
  }

  lemma InitInv(c: Config, size: nat, unit: nat, bytes: seq<byte>, all: seq<Handed>)
    requires size > 0 && unit >= 2 && Ring.IsMultiple(size, unit) && |bytes| == size && AllPushable(c, unit, all)
    ensures Inv(c, all, Init(size, unit, bytes, all))
  {
    hide Ring.Inv, AllPushable, Ring.IsMultiple;
    Ring.InitInv(size, unit, bytes);
    assert [] + all == all;
  }

  lemma {:induction false} RunKeepsInv(c: Config, size: nat, unit: nat, bytes: seq<byte>, all: seq<Handed>, run: seq<Step>)
    requires size > 0 && unit >= 2 && Ring.IsMultiple(size, unit) && |bytes| == size && AllPushable(c, unit, all)
    requires Run(c, Init(size, unit, bytes, all), run).Some?
    ensures Inv(c, all, Run(c, Init(size, unit, bytes, all), run).value)
    decreases |run|
  {
    hide Inv, Enabled, Do, AllPushable, Init;
    if run == [] {
      InitInv(c, size, unit, bytes, all);
    } else {
      RunKeepsInv(c, size, unit, bytes, all, run[..|run| - 1]);
      StepKeepsInv(c, all, Run(c, Init(size, unit, bytes, all), run[..|run| - 1]).value, run[|run| - 1]);
    }
  }

  /**
   * In every interleaving of the two threads: what the statistics say is stored is what the ring's
   * log holds, the main thread has read a front part of it unchanged, and the statistics are those
   * that DrainPass promises for the records handed over, with answers that the ring gave.
   */
  lemma DrainedIsLog(c: Config, size: nat, unit: nat, bytes: seq<byte>, all: seq<Handed>, run: seq<Step>)
    requires size > 0 && unit >= 2 && Ring.IsMultiple(size, unit) && |bytes| == size && AllPushable(c, unit, all)
    requires Run(c, Init(size, unit, bytes, all), run).Some?
    ensures var s := Run(c, Init(size, unit, bytes, all), run).value;
            && s.stat.stored == s.ring.log && s.ring.out <= s.stat.stored
            && s.done + s.todo == all && |s.answers| == |s.done|
            && (forall k :: 0 <= k < |s.done| ==> |s.done[k].record| >= Ring.HEADER_SIZE)
            && s.stat == Tally(c, NOTHING, s.done, AnswerAt(s.answers))
            && (forall k :: 0 <= k < |s.answers| ==> Own(s.ring, s.answers[k]))
  {
    hide Run, Init, AllPushable, HandOk, Own, Tally, Ring.Stored, Ring.ReaderOk, Ring.WriterOk, Ring.HeadsFollowLog;
    RunKeepsInv(c, size, unit, bytes, all, run);
  }

  /** When a whole pass has been dealt with, the ring's log is what the pass stored. */
  lemma PassIsLogged(c: Config, size: nat, unit: nat, bytes: seq<byte>, all: seq<Handed>, run: seq<Step>)
    requires size > 0 && unit >= 2 && Ring.IsMultiple(size, unit) && |bytes| == size && AllPushable(c, unit, all)
    requires Run(c, Init(size, unit, bytes, all), run).Some? && Run(c, Init(size, unit, bytes, all), run).value.todo == []
    ensures var s := Run(c, Init(size, unit, bytes, all), run).value;
            && (forall k :: 0 <= k < |all| ==> |all[k].record| >= Ring.HEADER_SIZE)
            && Tally(c, NOTHING, all, AnswerAt(s.answers)).stored == s.ring.log
  {
    hide Run, Init, AllPushable, Own, Tally;
    DrainedIsLog(c, size, unit, bytes, all, run);
    var s := Run(c, Init(size, unit, bytes, all), run).value;
    assert s.done == all;
  }

  /** The reading thread never waits for the main thread: until all records are dealt with, it has a step. */
  lemma NeverBlocked(c: Config, all: seq<Handed>, s: State) returns (step: Step)
    requires Inv(c, all, s) && s.todo != []
    ensures Enabled(c, s, step) && !step.Read?
  {
    hide Ledger, Wish, AllPushable, Pushable, FreeSize, Own, Ring.IsRecord, Ring.Shape, Decide;
    Ring.InvImpliesShape(s.ring);
    Ring.WriterFacts(s.ring);
    HeadAt(c, all, s);
    hide Ring.Inv;
    match s.hand
    case Between => step := Measure(s.ring.seenRead);
    case Measured(at) =>
      if IsOffer(Wish(c, s.todo[0].record, Free(s.ring, at))) {
        OfferIsRecord(c, s.ring.unit, s.todo[0].record, Free(s.ring, at));
        step := Offer;
      } else {
        step := Skip;
      }
    case Offered(at) => step := Alloc(s.ring.seenRead);
    case Writing(o, ans) =>
      if s.ring.writer.Marking? {
        step := Copy(if s.ring.writer.done < Ring.HEADER_SIZE then Ring.WMark else Ring.WCopy);
      } else {
        step := if s.ring.writer.done < |s.ring.writer.rec| then Copy(Ring.WCopy) else Finish;
      }
  }
}
