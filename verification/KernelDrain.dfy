/**
 * One pass of ReadRecordsFromKernelBuffer over the kernel buffers: every available record is handed
 * over once, and records of different buffers are merged by time.
 */
module KernelDrain {
  import opened Common
  import opened RecordRing
  import opened KernelRecords

  /** A record with the buffer it comes from and the time that is used for it. */
  datatype Handed = Handed(reader: nat, record: seq<byte>, time: nat)

  /** A record without a time field goes by the time of the record before it. */
  function TimeOf(a: Attr, rec: seq<byte>, before: nat): nat
  {
    var pos := if |rec| >= HEADER_SIZE then TimePos(a, HeaderType(rec), |rec|) else 0;
    if pos != 0 then Value(rec, pos, 8) else before
  }

  function Bytes(hs: seq<Handed>): seq<byte>
  {
    if hs == [] then [] else hs[0].record + Bytes(hs[1..])
  }

  /** The reader stands at the first of these records; the others follow it in its buffer. */
  ghost predicate Queue(a: Attr, r: KernelReader, hs: seq<Handed>)
  {
    && |hs| > 0 && |r.buffer| >= 8 && Holds(r.buffer, r.dataPos, Bytes(hs)) && r.dataSize == |Bytes(hs)|
    && r.headerSize == |hs[0].record| && r.time == hs[0].time
    && forall k :: 1 <= k < |hs| ==> RecordOk(a, hs[k].record) && hs[k].time == TimeOf(a, hs[k].record, hs[k - 1].time)
  }

  /** What GetDataFromKernelBuffer finds in buffer i: these records, not yet begun. */
  ghost predicate Ready(a: Attr, r: KernelReader, available: nat, i: nat, hs: seq<Handed>)
  {
    && Queue(a, r.(dataSize := available, headerSize := 0), [Handed(i, [], r.time)] + hs)
    && forall k :: 0 <= k < |hs| ==> hs[k].reader == i
  }

  // ------------------------------------------------------------------ the statistics

  datatype Stat = Stat(stored: seq<seq<byte>>, lostSamples: nat, lostNonSamples: nat, cutSamples: nat)

  function Count(s: Stat, o: Outcome, kind: nat): Stat
  {
    match o
    case Stored(bytes) => s.(stored := s.stored + [bytes])
    case Cut(bytes, dropsValid) => s.(stored := s.stored + [bytes], cutSamples := s.cutSamples + Bit(dropsValid))
    case Excluded => s
    case Lost => if kind == PERF_RECORD_SAMPLE then s.(lostSamples := s.lostSamples + 1)
                 else s.(lostNonSamples := s.lostNonSamples + 1)
  }

  /** The statistics after these records were handed over, the k-th with the buffer's k-th answer. */
  ghost function Tally(c: Config, s: Stat, out: seq<Handed>, answers: nat -> Answer): Stat
    requires forall k :: 0 <= k < |out| ==> |out[k].record| >= HEADER_SIZE
  {
    if out == [] then s
    else
      var n := |out| - 1;
      Count(Tally(c, s, out[..n], answers), Decide(c, out[n].record, answers(n)), HeaderType(out[n].record))
  }

  ghost function ExcludedCount(c: Config, out: seq<Handed>, answers: nat -> Answer): nat
    requires forall k :: 0 <= k < |out| ==> |out[k].record| >= HEADER_SIZE
  {
    if out == [] then 0
    else
      var n := |out| - 1;
      ExcludedCount(c, out[..n], answers) + Bit(Decide(c, out[n].record, answers(n)).Excluded?)
  }

  /** Every record handed over is stored, excluded or counted as lost, and only one of these. */
  lemma {:induction false} TallyConserves(c: Config, s: Stat, out: seq<Handed>, answers: nat -> Answer)
    requires forall k :: 0 <= k < |out| ==> |out[k].record| >= HEADER_SIZE
    ensures var t := Tally(c, s, out, answers);
            && s.stored <= t.stored
            && |t.stored| - |s.stored| + t.lostSamples - s.lostSamples + t.lostNonSamples - s.lostNonSamples
               + ExcludedCount(c, out, answers) == |out|
  {
    hide Decide;
    if out != [] {
      TallyConserves(c, s, out[..|out| - 1], answers);
    }
  }

  /** How many of the first n numbers have the property. */
  ghost function HowMany(n: nat, p: nat -> bool): nat
  {
    if n == 0 then 0 else HowMany(n - 1, p) + if p(n - 1) then 1 else 0
  }

  lemma {:induction false} HowManySame(n: nat, p: nat -> bool, q: nat -> bool)
    requires forall k :: 0 <= k < n ==> p(k) == q(k)
    ensures HowMany(n, p) == HowMany(n, q)
  {
    if n > 0 {
      HowManySame(n - 1, p, q);
    }
  }

  /** The k-th record handed over is of this kind and is lost. */
  ghost predicate LostAt(c: Config, out: seq<Handed>, answers: nat -> Answer, k: nat, sample: bool)
  {
    && k < |out| && |out[k].record| >= HEADER_SIZE && (HeaderType(out[k].record) == 9 <==> sample)
    && Decide(c, out[k].record, answers(k)) == Lost
  }

  /** The k-th record handed over is stored with less than the valid part of its stack. */
  ghost predicate CutAt(c: Config, out: seq<Handed>, answers: nat -> Answer, k: nat)
  {
    && k < |out| && |out[k].record| >= HEADER_SIZE
    && var o := Decide(c, out[k].record, answers(k)); o.Cut? && o.dropsValid
  }

  /** Each counter tells how many records met that fate: samples lost, other records lost, samples cut. */
  lemma {:induction false} TallyCounts(c: Config, s: Stat, out: seq<Handed>, answers: nat -> Answer)
    requires forall k :: 0 <= k < |out| ==> |out[k].record| >= HEADER_SIZE
    ensures var t := Tally(c, s, out, answers);
            && t.lostSamples == s.lostSamples + HowMany(|out|, (k: nat) => LostAt(c, out, answers, k, true))
            && t.lostNonSamples == s.lostNonSamples + HowMany(|out|, (k: nat) => LostAt(c, out, answers, k, false))
            && t.cutSamples == s.cutSamples + HowMany(|out|, (k: nat) => CutAt(c, out, answers, k))
  {
    hide Decide, HeaderType;
    if out != [] {
      var n := |out| - 1;
      var init := out[..n];
      TallyCounts(c, s, init, answers);
      HowManySame(n, (k: nat) => LostAt(c, out, answers, k, true), (k: nat) => LostAt(c, init, answers, k, true));
      HowManySame(n, (k: nat) => LostAt(c, out, answers, k, false), (k: nat) => LostAt(c, init, answers, k, false));
      HowManySame(n, (k: nat) => CutAt(c, out, answers, k), (k: nat) => CutAt(c, init, answers, k));
    }
  }

  /** Everything that is newly stored is a record, if the stack ends every record that has one. */
  lemma {:induction false} TallyStores(c: Config, s: Stat, out: seq<Handed>, answers: nat -> Answer, n: nat)
    requires forall k :: 0 <= k < |out| ==> |out[k].record| >= HEADER_SIZE
    requires ConfigOk(c) && forall k :: 0 <= k < |out| ==> RecordOk(c.attr, out[k].record) && StackIsLast(c.attr, out[k].record)
    requires |s.stored| <= n < |Tally(c, s, out, answers).stored|
    ensures RecordOk(c.attr, Tally(c, s, out, answers).stored[n])
  {
    hide Decide, RecordOk, StackIsLast, ConfigOk;
    if out != [] {
      var last := |out| - 1;
      StoredIsRecord(c, out[last].record, answers(last));
      if n < |Tally(c, s, out[..last], answers).stored| {
        TallyStores(c, s, out[..last], answers, n);
      }
    }
  }

  // ------------------------------------------------------------- order and completeness

  /** What was handed over from one buffer. */
  function Of(out: seq<Handed>, i: nat): seq<Handed>
  {
    if out == [] then []
    else Of(out[..|out| - 1], i) + (if out[|out| - 1].reader == i then [out[|out| - 1]] else [])
  }

  lemma OfAppend(out: seq<Handed>, h: Handed, i: nat)
    ensures Of(out + [h], i) == Of(out, i) + (if h.reader == i then [h] else [])
  {
    var all := out + [h];
    assert all[..|all| - 1] == out;
  }

  lemma {:induction false} OfHas(out: seq<Handed>, k: nat)
    requires k < |out|
    ensures out[k] in Of(out, out[k].reader)
  {
    if k < |out| - 1 {
      OfHas(out[..|out| - 1], k);
    }
  }

  ghost predicate InTimeOrder(hs: seq<Handed>)
  {
    forall k, l :: 0 <= k < l < |hs| ==> hs[k].time <= hs[l].time
  }

  ghost predicate AllInOrder(left: seq<seq<Handed>>)
  {
    forall j :: 0 <= j < |left| ==> InTimeOrder(left[j])
  }

  /** Everything not yet handed over comes last in its buffer. */
  ghost predicate Conserved(all: seq<seq<Handed>>, left: seq<seq<Handed>>, out: seq<Handed>)
  {
    && |left| == |all|
    && (forall i :: 0 <= i < |all| ==> Of(out, i) + left[i] == all[i])
    && (forall k :: 0 <= k < |out| ==> out[k].reader < |all|)
  }

  /** What was handed over is in order, and nothing of it is later than what is left. */
  ghost predicate Merged(left: seq<seq<Handed>>, out: seq<Handed>)
  {
    && InTimeOrder(out)
    && forall i, k, l :: 0 <= i < |left| && 0 <= k < |left[i]| && 0 <= l < |out| ==> out[l].time <= left[i][k].time
  }

  lemma HandOne(all: seq<seq<Handed>>, left: seq<seq<Handed>>, out: seq<Handed>, i: nat)
    requires Conserved(all, left, out) && i < |left| && |left[i]| > 0 && left[i][0].reader == i
    ensures Conserved(all, left[i := left[i][1..]], out + [left[i][0]])
  {
    var left', out' := left[i := left[i][1..]], out + [left[i][0]];
    forall j | 0 <= j < |all| ensures Of(out', j) + left'[j] == all[j] {
      OfAppend(out, left[i][0], j);
      if j == i {
        assert left[i] == [left[i][0]] + left[i][1..];
      }
    }
  }

  /** Handing over the earliest of the first records keeps the order. */
  lemma MergeOne(left: seq<seq<Handed>>, out: seq<Handed>, i: nat)
    requires Merged(left, out) && i < |left| && |left[i]| > 0
    requires AllInOrder(left)
    requires forall j :: 0 <= j < |left| && |left[j]| > 0 ==> left[i][0].time <= left[j][0].time
    ensures Merged(left[i := left[i][1..]], out + [left[i][0]])
    ensures AllInOrder(left[i := left[i][1..]])
  {
    var left': seq<seq<Handed>>, out' := left[i := left[i][1..]], out + [left[i][0]];
    forall j, k, l | 0 <= j < |left'| && 0 <= k < |left'[j]| && 0 <= l < |out'| ensures out'[l].time <= left'[j][k].time {
      var k' := if j == i then k + 1 else k;
      assert left'[j][k] == left[j][k'];
      assert left[j][0].time <= left[j][k'].time;
    }
  }

  // ----------------------------------------------------------------- moving a reader

  lemma BytesFirst(hs: seq<Handed>)
    requires |hs| > 0
    ensures Bytes(hs) == hs[0].record + Bytes(hs[1..])
  {
  }

  /** Skipping the current record. */
  function Skipped(r: KernelReader): KernelReader
    requires |r.buffer| > 0 && r.headerSize <= r.dataSize
  {
    r.(dataPos := Wrap(r.dataPos + r.headerSize, |r.buffer|), dataSize := r.dataSize - r.headerSize)
  }

  lemma SkippedHolds(a: Attr, r: KernelReader, hs: seq<Handed>)
    requires Queue(a, r, hs)
    ensures r.headerSize <= r.dataSize
    ensures var s := Skipped(r);
            && Holds(s.buffer, s.dataPos, Bytes(hs[1..])) && s.dataSize == |Bytes(hs[1..])|
            && (s.dataSize == 0 <==> |hs| == 1)
  {
    hide Holds, RecordOk, TimeOf;
    BytesFirst(hs);
    HoldsPart(r.buffer, r.dataPos, Bytes(hs), |hs[0].record|);
    assert Bytes(hs)[|hs[0].record|..] == Bytes(hs[1..]);
    if |hs| > 1 {
      BytesFirst(hs[1..]);
      RecordLength(a, hs[1].record);
    }
  }

  /** Reading the header of the record it now stands at. */
  function Loaded(a: Attr, r: KernelReader): KernelReader
    requires |r.buffer| >= 8
  {
    var header := ReadRecord(r.buffer, r.dataPos, 0, HEADER_SIZE);
    var size, kind := HeaderBytes(header), HeaderType(header);
    var pos := if size >= HEADER_SIZE then TimePos(a, kind, size) else 0;
    r.(headerSize := size, headerType := kind,
       time := if pos != 0 then ReadNumber(r.buffer, r.dataPos, pos, 8) else r.time)
  }

  lemma LoadedIs(a: Attr, r: KernelReader, rec: seq<byte>, rest: seq<byte>)
    requires |r.buffer| >= 8 && RecordOk(a, rec) && Holds(r.buffer, r.dataPos, rec + rest)
    ensures Holds(r.buffer, r.dataPos, rec)
    ensures Loaded(a, r) == r.(headerSize := |rec|, headerType := HeaderType(rec), time := TimeOf(a, rec, r.time))
  {
    hide Holds, ReadRecord, ReadNumber, Value, TimePos, LittleEndian;
    HoldsPart(r.buffer, r.dataPos, rec + rest, |rec|);
    assert (rec + rest)[..|rec|] == rec;
    ReadIsSlice(r.buffer, r.dataPos, rec, 0, HEADER_SIZE);
    var header := ReadRecord(r.buffer, r.dataPos, 0, HEADER_SIZE);
    assert header[0..4] == rec[0..4] && header[6] == rec[6] && header[7] == rec[7];
    var pos := TimePos(a, HeaderType(rec), |rec|);
    if pos != 0 {
      NumberIsField(r.buffer, r.dataPos, rec, pos, 8);
    }
  }

  lemma LoadedQueue(a: Attr, r: KernelReader, hs: seq<Handed>)
    requires Queue(a, r, hs) && |hs| > 1
    ensures r.headerSize <= r.dataSize && |Skipped(r).buffer| >= 8
    ensures Queue(a, Loaded(a, Skipped(r)), hs[1..]) && StandsAt(a, Loaded(a, Skipped(r)), hs[1].record)
  {
    hide Holds, RecordOk, TimeOf, Loaded, HeaderType;
    SkippedHolds(a, r, hs);
    BytesFirst(hs[1..]);
    var s := Skipped(r);
    LoadedIs(a, s, hs[1].record, Bytes(hs[1..][1..]));
    assert hs[1].time == TimeOf(a, hs[1].record, hs[1 - 1].time);
    var t := hs[1..];
    forall k | 1 <= k < |t| ensures RecordOk(a, t[k].record) && t[k].time == TimeOf(a, t[k].record, t[k - 1].time) {
      assert t[k] == hs[k + 1] && t[k - 1] == hs[k];
    }
  }

  // ------------------------------------------------------------------ the heap of readers

  /** Each active reader stands at the first record left in its buffer; nothing is left in the others. */
  ghost predicate Standing(a: Attr, readers: seq<KernelReader>, active: seq<nat>, left: seq<seq<Handed>>)
  {
    && |left| == |readers|
    && (forall i: nat :: i in active ==> i < |left| && ReaderAt(a, readers[i], i, left[i]))
    && (forall k, l :: 0 <= k < l < |active| ==> active[k] != active[l])
    && (forall i: nat :: i < |left| && i !in active ==> left[i] == [])
  }

  ghost predicate ReaderAt(a: Attr, r: KernelReader, i: nat, hs: seq<Handed>)
  {
    && Queue(a, r, hs) && StandsAt(a, r, hs[0].record)
    && forall k :: 0 <= k < |hs| ==> hs[k].reader == i
  }

  predicate InBounds(readers: seq<KernelReader>, heap: seq<nat>)
  {
    forall k :: 0 <= k < |heap| ==> heap[k] < |readers|
  }

  /** Some reader in the heap has the earliest record. */
  lemma {:induction false} EarliestExists(readers: seq<KernelReader>, heap: seq<nat>) returns (m: nat)
    requires |heap| > 0 && InBounds(readers, heap)
    ensures m < |heap| && Earliest(readers, heap, m)
  {
    if |heap| == 1 {
      m := 0;
    } else {
      var init := heap[..|heap| - 1];
      m := EarliestExists(readers, init);
      var last := |heap| - 1;
      assert forall k :: 0 <= k < last ==> heap[k] == init[k];
      if readers[heap[last]].time < readers[heap[m]].time {
        m := last;
      }
    }
  }

  predicate Earliest(readers: seq<KernelReader>, heap: seq<nat>, m: nat)
    requires InBounds(readers, heap)
  {
    m < |heap| && forall k :: 0 <= k < |heap| ==> readers[heap[m]].time <= readers[heap[k]].time
  }

  /** The earliest reader holds the earliest record that is left. */
  lemma EarliestRecord(a: Attr, readers: seq<KernelReader>, heap: seq<nat>, left: seq<seq<Handed>>, m: nat)
    requires Standing(a, readers, heap, left) && InBounds(readers, heap) && Earliest(readers, heap, m)
    ensures var i := heap[m];
            && i < |left| && ReaderAt(a, readers[i], i, left[i]) && |left[i]| > 0 && left[i][0].reader == i
            && forall j :: 0 <= j < |left| && |left[j]| > 0 ==> left[i][0].time <= left[j][0].time
  {
    hide Holds, RecordOk, StandsAt;
    var i := heap[m];
    assert i in heap;
    forall j | 0 <= j < |left| && |left[j]| > 0 ensures left[i][0].time <= left[j][0].time {
      assert j in heap;
      var k :| 0 <= k < |heap| && heap[k] == j;
    }
  }

  lemma WithoutHas(heap: seq<nat>, m: nat)
    requires m < |heap| && forall k, l :: 0 <= k < l < |heap| ==> heap[k] != heap[l]
    ensures forall i :: i in Without(heap, m) <==> i in heap && i != heap[m]
    ensures var w := Without(heap, m); forall k, l :: 0 <= k < l < |w| ==> w[k] != w[l]
  {
    var w := Without(heap, m);
    assert forall k :: 0 <= k < |w| ==> w[k] == heap[if k < m then k else k + 1];
    forall i | i in heap && i != heap[m] ensures i in w {
      var k :| 0 <= k < |heap| && heap[k] == i;
      assert w[if k < m then k else k - 1] == i;
    }
  }

  /** The reader that gave its record goes back into the heap, or leaves it when it has no more. */
  lemma StandingStep(a: Attr, readers: seq<KernelReader>, readers': seq<KernelReader>, heap: seq<nat>,
                     left: seq<seq<Handed>>, m: nat, more: bool)
    requires Standing(a, readers, heap, left) && m < |heap| && |readers'| == |readers|
    requires forall j :: 0 <= j < |readers| && j != heap[m] ==> readers'[j] == readers[j]
    requires heap[m] < |left| && |left[heap[m]]| > 0 && (more <==> |left[heap[m]]| > 1)
    requires more ==> ReaderAt(a, readers'[heap[m]], heap[m], left[heap[m]][1..])
    ensures var left' := left[heap[m] := left[heap[m]][1..]];
            Standing(a, readers', if more then Without(heap, m) + [heap[m]] else Without(heap, m), left')
  {
    hide ReaderAt;
    WithoutHas(heap, m);
  }

  lemma NextReaderAt(a: Attr, r: KernelReader, i: nat, hs: seq<Handed>)
    requires |hs| > 1 && Queue(a, r, hs[1..]) && StandsAt(a, r, hs[1].record) && forall k :: 1 <= k < |hs| ==> hs[k].reader == i
    ensures ReaderAt(a, r, i, hs[1..])
  {
    hide Queue, StandsAt;
  }

  ghost function Remaining(left: seq<seq<Handed>>): nat
  {
    if left == [] then 0 else |left[0]| + Remaining(left[1..])
  }

  lemma {:induction false} RemainingStep(left: seq<seq<Handed>>, i: nat)
    requires i < |left| && |left[i]| > 0
    ensures Remaining(left[i := left[i][1..]]) == Remaining(left) - 1
  {
    var left' := left[i := left[i][1..]];
    if i == 0 {
      assert left'[1..] == left[1..];
    } else {
      RemainingStep(left[1..], i - 1);
      assert left'[1..] == left[1..][i - 1 := left[1..][i - 1][1..]];
    }
  }

  /** Handing over one more record adds one outcome to the statistics. */
  lemma TallyStep(c: Config, s: Stat, out: seq<Handed>, h: Handed, answers: nat -> Answer)
    requires (forall k :: 0 <= k < |out| ==> |out[k].record| >= HEADER_SIZE) && |h.record| >= HEADER_SIZE
    ensures Tally(c, s, out + [h], answers)
            == Count(Tally(c, s, out, answers), Decide(c, h.record, answers(|out|)), HeaderType(h.record))
  {
    hide Decide, Count;
    var all := out + [h];
    assert all[..|all| - 1] == out;
  }

  lemma QueueFacts(a: Attr, r: KernelReader, hs: seq<Handed>)
    requires Queue(a, r, hs)
    ensures |hs| > 0 && |r.buffer| >= 8 && r.time == hs[0].time
  {
  }

  // ------------------------------------------------------------------- the read thread

  class ReadThread {
    const config: Config
    var readers: seq<KernelReader>
    var stat: Stat

    constructor (config: Config, readers: seq<KernelReader>)
      ensures this.config == config && this.readers == readers && stat == Stat([], 0, 0, 0)
    {
      this.config, this.readers, stat := config, readers, Stat([], 0, 0, 0);
    }

    /** KernelRecordReader::MoveToNextRecord of reader i. */
    method MoveToNextRecord(i: nat, ghost hs: seq<Handed>) returns (more: bool)
      requires i < |readers| && Queue(config.attr, readers[i], hs)
      modifies this`readers
      ensures |readers| == |old(readers)| && forall j :: 0 <= j < |readers| && j != i ==> readers[j] == old(readers[j])
      ensures more <==> |hs| > 1
      ensures more ==> Queue(config.attr, readers[i], hs[1..]) && StandsAt(config.attr, readers[i], hs[1].record)
    {
      hide Queue, StandsAt, Loaded;
      QueueFacts(config.attr, readers[i], hs);
      SkippedHolds(config.attr, readers[i], hs);
      if |hs| > 1 {
        LoadedQueue(config.attr, readers[i], hs);
      }
      readers := readers[i := Skipped(readers[i])];
      if readers[i].dataSize == 0 {
        return false;
      }
      readers := readers[i := Loaded(config.attr, readers[i])];
      return true;
    }

    /** PushRecordToRecordBuffer for the current record of reader i. */
    method PushRecord(i: nat, ans: Answer, ghost h: Handed)
      requires i < |readers| && ConfigOk(config) && StandsAt(config.attr, readers[i], h.record) && |readers[i].buffer| >= 8
      modifies this`stat
      ensures |h.record| >= HEADER_SIZE
      ensures stat == Count(old(stat), Decide(config, h.record, ans), HeaderType(h.record))
    {
      hide Decide, Holds, RecordOk;
      RecordLength(config.attr, h.record);
      var o, _ := Push(config, readers[i], ans, h.record);
      match o {
        case Stored(bytes) => stat := stat.(stored := stat.stored + [bytes]);
        case Cut(bytes, dropsValid) =>
          stat := stat.(stored := stat.stored + [bytes]);
          if dropsValid {
            stat := stat.(cutSamples := stat.cutSamples + 1);
          }
        case Excluded =>
        case Lost =>
          if readers[i].headerType == PERF_RECORD_SAMPLE {
            stat := stat.(lostSamples := stat.lostSamples + 1);
          } else {
            stat := stat.(lostNonSamples := stat.lostNonSamples + 1);
          }
      }
    }

    /** Hands the first record left in buffer i to the record buffer. */
    method HandOver(i: nat, ans: Answer, ghost hs: seq<Handed>)
      requires i < |readers| && ConfigOk(config) && ReaderAt(config.attr, readers[i], i, hs)
      modifies this`stat
      ensures |hs| > 0 && |hs[0].record| >= HEADER_SIZE
      ensures stat == Count(old(stat), Decide(config, hs[0].record, ans), HeaderType(hs[0].record))
    {
      hide Queue, StandsAt, Decide;
      QueueFacts(config.attr, readers[i], hs);
      PushRecord(i, ans, hs[0]);
    }

    /** GetDataFromKernelBuffer for every reader; `available` is what the kernel says. */
    method StartReaders(available: seq<nat>, ghost all: seq<seq<Handed>>) returns (active: seq<nat>)
      requires |available| == |readers| == |all|
      requires forall i :: 0 <= i < |readers| ==> Ready(config.attr, readers[i], available[i], i, all[i])
      modifies this`readers
      ensures |readers| == |old(readers)| && Listed(active, all, |all|)
      ensures forall k :: 0 <= k < |active| ==> active[k] < |all| && BeforeFirst(config.attr, readers[active[k]], active[k], all[active[k]])
    {
      hide Ready, BeforeFirst, Listed;
      active := [];
      NoneListed(all);
      var i := 0;
      while i < |readers|
        invariant 0 <= i <= |readers| == |old(readers)| && Listed(active, all, i)
        invariant forall j :: i <= j < |readers| ==> readers[j] == old(readers[j])
        invariant forall k :: 0 <= k < |active| ==> active[k] < i && BeforeFirst(config.attr, readers[active[k]], active[k], all[active[k]])
      {
        ReadyFacts(config.attr, readers[i], available[i], i, all[i]);
        ListedStep(active, all, i);
        if available[i] != 0 {
          readers := readers[i := readers[i].(dataSize := available[i], headerSize := 0)];
          active := active + [i];
        } else {
          readers := readers[i := readers[i].(dataSize := 0)];
        }
        i := i + 1;
      }
    }

    /** The first record of every reader with data. */
    method LoadFirst(active: seq<nat>, ghost all: seq<seq<Handed>>)
      requires |readers| == |all| && Listed(active, all, |all|)
      requires forall k :: 0 <= k < |active| ==> active[k] < |all| && BeforeFirst(config.attr, readers[active[k]], active[k], all[active[k]])
      modifies this`readers
      ensures |readers| == |old(readers)| && Standing(config.attr, readers, active, all)
    {
      hide BeforeFirst, ReaderAt, Queue, StandsAt, Standing;
      ListedDistinct(active, all, |all|);
      hide Listed;
      var k := 0;
      while k < |active|
        invariant 0 <= k <= |active| && |readers| == |all|
        invariant forall l :: k <= l < |active| ==> BeforeFirst(config.attr, readers[active[l]], active[l], all[active[l]])
        invariant forall l :: 0 <= l < k ==> ReaderAt(config.attr, readers[active[l]], active[l], all[active[l]])
      {
        var i := active[k];
        ghost var r0 := readers[i];
        BeforeQueue(config.attr, r0, i, all[i]);
        var more := MoveToNextRecord(i, [Handed(i, [], r0.time)] + all[i]);
        Begun(config.attr, readers[i], r0, i, all[i]);
        k := k + 1;
      }
      AllStanding(config.attr, readers, active, all);
    }

    /** Only one buffer has data: its records in their order. */
    method DrainOne(i: nat, answers: nat -> Answer, ghost all: seq<seq<Handed>>) returns (ghost out: seq<Handed>)
      requires ConfigOk(config) && i < |readers| == |all| && BeforeFirst(config.attr, readers[i], i, all[i])
      requires forall j :: 0 <= j < |all| && j != i ==> all[j] == []
      modifies this`readers, this`stat
      ensures |readers| == |old(readers)|
      ensures Conserved(all, seq(|all|, _ => []), out) && (AllInOrder(all) ==> InTimeOrder(out))
      ensures (forall k :: 0 <= k < |out| ==> |out[k].record| >= HEADER_SIZE)
              && stat == Tally(config, old(stat), out, answers)
    {
      hide Standing, Decide, Count, Conserved, Merged, AllInOrder, ReaderAt, InTimeOrder, Tally, Queue, StandsAt,
           BeforeFirst;
      ghost var left := all;
      out := [];
      MergeStart(all);
      TallyStart(config, stat, answers);
      BeforeQueue(config.attr, readers[i], i, all[i]);
      var n := 0;
      ghost var r0 := readers[i];
      var more := MoveToNextRecord(i, [Handed(i, [], r0.time)] + all[i]);
      Begun(config.attr, readers[i], r0, i, all[i]);
      while more
        invariant |readers| == |old(readers)| && |left| == |all| == |readers| && n == |out|
        invariant forall j :: 0 <= j < |all| && j != i ==> left[j] == []
        invariant if more then ReaderAt(config.attr, readers[i], i, left[i]) else left[i] == []
        invariant Conserved(all, left, out)
        invariant AllInOrder(all) ==> Merged(left, out) && AllInOrder(left)
        invariant (forall k :: 0 <= k < |out| ==> |out[k].record| >= HEADER_SIZE)
                  && stat == Tally(config, old(stat), out, answers)
        decreases |left[i]|, more
      {
        ghost var hs := left[i];
        ReaderParts(config.attr, readers[i], i, hs);
        HandOver(i, answers(n), hs);
        TallyStep(config, old(stat), out, hs[0], answers);
        HandOne(all, left, out, i);
        if AllInOrder(all) {
          MergeOne(left, out, i);
        }
        more := MoveToNextRecord(i, hs);
        if more {
          NextReaderAt(config.attr, readers[i], i, hs);
        }
        left, out, n := left[i := left[i][1..]], out + [hs[0]], n + 1;
      }
      assert left == seq(|all|, _ => []);
      MergedOrder(left, out, all);
    }

    /**
     * One pass over the kernel buffers. From every buffer exactly its available records are handed
     * over, in the buffer's order; if every buffer is in time order, so is the whole; and the
     * statistics account for each record.
     */
    method DrainPass(available: seq<nat>, answers: nat -> Answer, ghost all: seq<seq<Handed>>) returns (hasData: bool, ghost out: seq<Handed>)
      requires ConfigOk(config) && |available| == |readers| == |all|
      requires forall i :: 0 <= i < |readers| ==> Ready(config.attr, readers[i], available[i], i, all[i])
      modifies this`readers, this`stat
      ensures hasData <==> exists i :: 0 <= i < |all| && all[i] != []
      ensures (forall i :: 0 <= i < |all| ==> Of(out, i) == all[i]) && (forall k :: 0 <= k < |out| ==> out[k].reader < |all|)
      ensures AllInOrder(all) ==> InTimeOrder(out)
      ensures (forall k :: 0 <= k < |out| ==> |out[k].record| >= HEADER_SIZE)
              && stat == Tally(config, old(stat), out, answers)
      ensures StacksLast(config.attr, all) ==>
                forall n :: |old(stat).stored| <= n < |stat.stored| ==> RecordOk(config.attr, stat.stored[n])
    {
      hide Ready, BeforeFirst, Conserved, InTimeOrder, AllInOrder, Tally, Standing, Of, StacksLast, AllRecords, Listed;
      ReadyRecords(config.attr, readers, available, all);
      var active := StartReaders(available, all);
      ListedFacts(active, all);
      hasData := |active| > 0;
      if |active| == 0 {
        out := [];
        TallyStart(config, stat, answers);
        NoRecords(all);
      } else if |active| == 1 {
        out := DrainOne(active[0], answers, all);
        AllHanded(all, out);
      } else {
        LoadFirst(active, all);
        out := MergeReaders(active, answers, all);
        AllHanded(all, out);
      }
      if StacksLast(config.attr, all) {
        AllStored(config, old(stat), out, answers, all);
      }
    }

    /** The merge: always the earliest of the first records, whichever the heap puts first among equals. */
    method MergeReaders(active: seq<nat>, answers: nat -> Answer, ghost all: seq<seq<Handed>>) returns (ghost out: seq<Handed>)
      requires ConfigOk(config) && Standing(config.attr, readers, active, all)
      modifies this`readers, this`stat
      ensures |readers| == |old(readers)|
      ensures Conserved(all, seq(|all|, _ => []), out) && (AllInOrder(all) ==> InTimeOrder(out))
      ensures (forall k :: 0 <= k < |out| ==> |out[k].record| >= HEADER_SIZE)
              && stat == Tally(config, old(stat), out, answers)
    {
      hide Standing, Decide, Count, Conserved, Merged, AllInOrder, ReaderAt, InTimeOrder, Earliest, Tally;
      var heap: seq<nat> := active;
      ghost var left := all;
      out := [];
      MergeStart(all);
      StandingBounds(config.attr, readers, heap, left);
      TallyStart(config, stat, answers);
      var n := 0;
      while |heap| > 0
        invariant |readers| == |old(readers)| && |left| == |all| == |readers| && n == |out|
        invariant InBounds(readers, heap) && Standing(config.attr, readers, heap, left)
        invariant Conserved(all, left, out)
        invariant AllInOrder(all) ==> Merged(left, out) && AllInOrder(left)
        invariant (forall k :: 0 <= k < |out| ==> |out[k].record| >= HEADER_SIZE)
                  && stat == Tally(config, old(stat), out, answers)
        decreases Remaining(left)
      {
        ghost var first := EarliestExists(readers, heap);
        var m: nat :| m < |heap| && Earliest(readers, heap, m);
        var i := heap[m];
        EarliestRecord(config.attr, readers, heap, left, m);
        ghost var hs, before := left[i], readers;
        HandOver(i, answers(n), hs);
        TallyStep(config, old(stat), out, hs[0], answers);
        HandOne(all, left, out, i);
        if AllInOrder(all) {
          MergeOne(left, out, i);
        }
        RemainingStep(left, i);
        ReaderParts(config.attr, readers[i], i, hs);
        var more := MoveToNextRecord(i, hs);
        if more {
          NextReaderAt(config.attr, readers[i], i, hs);
        }
        StandingStep(config.attr, before, readers, heap, left, m, more);
        heap := if more then Without(heap, m) + [i] else Without(heap, m);
        left, out, n := left[i := left[i][1..]], out + [hs[0]], n + 1;
        StandingBounds(config.attr, readers, heap, left);
      }
      NothingLeft(config.attr, readers, left);
      MergedOrder(left, out, all);
    }
  }

  // ------------------------------------------------------------ the start of a pass

  /** Reader i has data but has not begun: it stands before the first of these records. */
  ghost predicate BeforeFirst(a: Attr, r: KernelReader, i: nat, hs: seq<Handed>)
  {
    && |hs| > 0 && Queue(a, r, [Handed(i, [], r.time)] + hs)
    && forall k :: 0 <= k < |hs| ==> hs[k].reader == i
  }

  /** The readers in `active` are those with data. */
  ghost predicate Listed(active: seq<nat>, all: seq<seq<Handed>>, n: nat)
  {
    && n <= |all| && (forall i: nat :: i < n ==> (i in active <==> all[i] != []))
    && (forall k :: 0 <= k < |active| ==> active[k] < n)
    && (forall k, l :: 0 <= k < l < |active| ==> active[k] != active[l])
  }

  lemma NoneListed(all: seq<seq<Handed>>)
    ensures Listed([], all, 0)
  {
  }

  lemma ListedDistinct(active: seq<nat>, all: seq<seq<Handed>>, n: nat)
    requires Listed(active, all, n)
    ensures forall k, l :: 0 <= k < l < |active| ==> active[k] != active[l]
  {
  }

  lemma ListedFacts(active: seq<nat>, all: seq<seq<Handed>>)
    requires Listed(active, all, |all|)
    ensures |active| > 0 <==> exists i :: 0 <= i < |all| && all[i] != []
    ensures |active| == 0 ==> forall i :: 0 <= i < |all| ==> all[i] == []
    ensures |active| == 1 ==> forall j :: 0 <= j < |all| && j != active[0] ==> all[j] == []
  {
    if |active| > 0 {
      assert active[0] in active && all[active[0]] != [];
    }
  }

  lemma NoRecords(all: seq<seq<Handed>>)
    requires forall i :: 0 <= i < |all| ==> all[i] == []
    ensures (forall i :: 0 <= i < |all| ==> Of([], i) == all[i]) && InTimeOrder([])
  {
  }

  /** In every record of every buffer, the stack comes last. */
  ghost predicate StacksLast(a: Attr, all: seq<seq<Handed>>)
  {
    forall i, k :: 0 <= i < |all| && 0 <= k < |all[i]| ==> StackIsLast(a, all[i][k].record)
  }

  ghost predicate AllRecords(a: Attr, all: seq<seq<Handed>>)
  {
    forall i, k :: 0 <= i < |all| && 0 <= k < |all[i]| ==> RecordOk(a, all[i][k].record)
  }

  lemma ReadyRecords(a: Attr, readers: seq<KernelReader>, available: seq<nat>, all: seq<seq<Handed>>)
    requires |available| == |readers| == |all|
    requires forall i :: 0 <= i < |readers| ==> Ready(a, readers[i], available[i], i, all[i])
    ensures AllRecords(a, all)
  {
    hide RecordOk, Holds, TimeOf;
    forall i, k | 0 <= i < |all| && 0 <= k < |all[i]| ensures RecordOk(a, all[i][k].record) {
      assert Ready(a, readers[i], available[i], i, all[i]);
      var q := [Handed(i, [], readers[i].time)] + all[i];
      assert q[k + 1] == all[i][k];
    }
  }

  lemma AllStored(c: Config, s: Stat, out: seq<Handed>, answers: nat -> Answer, all: seq<seq<Handed>>)
    requires ConfigOk(c) && AllRecords(c.attr, all) && StacksLast(c.attr, all)
    requires (forall i :: 0 <= i < |all| ==> Of(out, i) == all[i]) && (forall k :: 0 <= k < |out| ==> out[k].reader < |all|)
    requires forall k :: 0 <= k < |out| ==> |out[k].record| >= HEADER_SIZE
    ensures var t := Tally(c, s, out, answers); forall n :: |s.stored| <= n < |t.stored| ==> RecordOk(c.attr, t.stored[n])
  {
    hide RecordOk, StackIsLast, Tally, Of;
    forall k | 0 <= k < |out| ensures RecordOk(c.attr, out[k].record) && StackIsLast(c.attr, out[k].record) {
      OfHas(out, k);
      var l :| 0 <= l < |all[out[k].reader]| && all[out[k].reader][l] == out[k];
    }
    var t := Tally(c, s, out, answers);
    forall n | |s.stored| <= n < |t.stored| ensures RecordOk(c.attr, t.stored[n]) {
      TallyStores(c, s, out, answers, n);
    }
  }

  lemma AllHanded(all: seq<seq<Handed>>, out: seq<Handed>)
    requires Conserved(all, seq(|all|, _ => []), out)
    ensures (forall i :: 0 <= i < |all| ==> Of(out, i) == all[i]) && (forall k :: 0 <= k < |out| ==> out[k].reader < |all|)
  {
    hide Of;
    forall i | 0 <= i < |all| ensures Of(out, i) == all[i] {
      assert Of(out, i) + [] == Of(out, i);
    }
  }

  lemma ListedStep(active: seq<nat>, all: seq<seq<Handed>>, n: nat)
    requires Listed(active, all, n) && n < |all|
    ensures Listed(if all[n] != [] then active + [n] else active, all, n + 1)
  {
  }

  /** Data of size 0 means no records. */
  lemma ReadyFacts(a: Attr, r: KernelReader, available: nat, i: nat, hs: seq<Handed>)
    requires Ready(a, r, available, i, hs)
    ensures available == 0 <==> hs == []
    ensures hs != [] ==> BeforeFirst(a, r.(dataSize := available, headerSize := 0), i, hs)
  {
    hide Holds, RecordOk, TimeOf;
    var q := [Handed(i, [], r.time)] + hs;
    BytesFirst(q);
    assert q[1..] == hs;
    if hs != [] {
      BytesFirst(hs);
      assert q[1] == hs[0];
      RecordLength(a, q[1].record);
    }
  }

  /** After its first move, a reader stands at its first record. */
  lemma Begun(a: Attr, r: KernelReader, r0: KernelReader, i: nat, hs: seq<Handed>)
    requires BeforeFirst(a, r0, i, hs)
    requires var q := [Handed(i, [], r0.time)] + hs; Queue(a, r, q[1..]) && StandsAt(a, r, q[1].record)
    ensures ReaderAt(a, r, i, hs)
  {
    hide Queue, StandsAt;
    var q := [Handed(i, [], r0.time)] + hs;
    assert q[1..] == hs && q[1] == hs[0];
  }

  lemma BeforeQueue(a: Attr, r: KernelReader, i: nat, hs: seq<Handed>)
    requires BeforeFirst(a, r, i, hs)
    ensures Queue(a, r, [Handed(i, [], r.time)] + hs) && |hs| > 0
  {
    hide Queue;
  }

  /** Reader i is at the k-th place of the heap that is being built. */
  lemma AllStanding(a: Attr, readers: seq<KernelReader>, active: seq<nat>, all: seq<seq<Handed>>)
    requires Listed(active, all, |all|) && |readers| == |all|
    requires forall k :: 0 <= k < |active| ==> active[k] < |all| && ReaderAt(a, readers[active[k]], active[k], all[active[k]])
    ensures Standing(a, readers, active, all)
  {
    hide ReaderAt;
    forall i: nat | i in active ensures i < |all| && ReaderAt(a, readers[i], i, all[i]) {
      var k :| 0 <= k < |active| && active[k] == i;
    }
  }

  lemma ReaderParts(a: Attr, r: KernelReader, i: nat, hs: seq<Handed>)
    requires ReaderAt(a, r, i, hs)
    ensures Queue(a, r, hs) && |hs| > 0 && StandsAt(a, r, hs[0].record) && forall k :: 0 <= k < |hs| ==> hs[k].reader == i
  {
    hide Holds, RecordOk, StandsAt;
  }

  lemma StandingBounds(a: Attr, readers: seq<KernelReader>, active: seq<nat>, left: seq<seq<Handed>>)
    requires Standing(a, readers, active, left)
    ensures |left| == |readers| && InBounds(readers, active)
  {
    forall k | 0 <= k < |active| ensures active[k] < |readers| {
      assert active[k] in active;
    }
  }

  lemma NothingLeft(a: Attr, readers: seq<KernelReader>, left: seq<seq<Handed>>)
    requires Standing(a, readers, [], left)
    ensures left == seq(|left|, _ => [])
  {
  }

  lemma {:induction false} MergeStart(all: seq<seq<Handed>>)
    ensures Conserved(all, all, []) && Merged(all, [])
  {
    forall i | 0 <= i < |all| ensures Of([], i) + all[i] == all[i] {
    }
  }

  lemma TallyStart(c: Config, s: Stat, answers: nat -> Answer)
    ensures Tally(c, s, [], answers) == s
  {
  }

  lemma MergedOrder(left: seq<seq<Handed>>, out: seq<Handed>, all: seq<seq<Handed>>)
    ensures Merged(left, out) ==> InTimeOrder(out)
  {
  }
}
