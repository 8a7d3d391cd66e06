/**
 * What RecordReadThread does with one record of a kernel buffer: finding its fields
 * (RecordParser), reading it out of the mapped ring (KernelRecordReader), and deciding whether it
 * is stored whole, stored with less stack data, excluded or lost (PushRecordToRecordBuffer).
 */
module KernelRecords {
  import opened Common
  import opened RecordRing

  const PERF_RECORD_SAMPLE: nat := 9

  // ------------------------------------------------------------- positions of fields

  /** The bits of perf_event_attr that decide where the fields of a record are. */
  datatype Attr = Attr(identifier: bool, ip: bool, tid: bool, time: bool, addr: bool, id: bool, streamId: bool, cpu: bool,
                       period: bool, callchain: bool, raw: bool, branchStack: bool, regsUser: bool, stackUser: bool,
                       sampleIdAll: bool, regsCount: nat)

  function Bit(b: bool): nat { if b then 1 else 0 }

  function PidPos(a: Attr): nat
  {
    if a.tid then 8 + 8 * (Bit(a.identifier) + Bit(a.ip)) else 0
  }

  function TimePosInSample(a: Attr): nat
  {
    if a.time then 8 + 8 * (Bit(a.identifier) + Bit(a.ip) + Bit(a.tid)) else 0
  }

  function CallchainPos(a: Attr): nat
  {
    8 + 8 * (Bit(a.identifier) + Bit(a.ip) + Bit(a.tid) + Bit(a.time)
             + Bit(a.addr) + Bit(a.id) + Bit(a.streamId) + Bit(a.cpu) + Bit(a.period))
  }

  function TimeRposInNonSample(a: Attr): nat
  {
    if a.time && a.sampleIdAll then 8 * (Bit(a.identifier) + Bit(a.cpu) + Bit(a.streamId) + Bit(a.id) + 1) else 0
  }

  /** GetTimePos. */
  function TimePos(a: Attr, kind: nat, size: nat): nat
    requires size >= HEADER_SIZE
  {
    if kind == PERF_RECORD_SAMPLE then TimePosInSample(a)
    else if TimeRposInNonSample(a) != 0 && TimeRposInNonSample(a) < size - HEADER_SIZE then size - TimeRposInNonSample(a)
    else 0
  }

  /** A field of the record, 0 where the record ends before it. */
  function Value(rec: seq<byte>, pos: nat, n: nat): nat
  {
    if pos + n <= |rec| then Field(rec, pos, n) else 0
  }

  function AfterCallchain(a: Attr, rec: seq<byte>): nat
  {
    CallchainPos(a) + if a.callchain then (Value(rec, CallchainPos(a), 8) + 1) * 8 else 0
  }

  function AfterRaw(a: Attr, rec: seq<byte>): nat
  {
    AfterCallchain(a, rec) + if a.raw then Value(rec, AfterCallchain(a, rec), 4) + 4 else 0
  }

  function AfterBranches(a: Attr, rec: seq<byte>): nat
  {
    AfterRaw(a, rec) + if a.branchStack then 8 + Value(rec, AfterRaw(a, rec), 8) * 24 else 0
  }

  function AfterRegs(a: Attr, rec: seq<byte>): nat
  {
    AfterBranches(a, rec)
    + if a.regsUser then (1 + (if Value(rec, AfterBranches(a, rec), 8) == 0 then 0 else a.regsCount)) * 8 else 0
  }

  /** Where the size of the user stack is. */
  function StackSizePos(a: Attr, rec: seq<byte>): nat
  {
    if a.stackUser then AfterRegs(a, rec) else 0
  }

  /** What perf promises of a record: the fields its header announces are inside it. */
  ghost predicate RecordOk(a: Attr, rec: seq<byte>)
  {
    && |rec| >= HEADER_SIZE && HeaderBytes(rec) == |rec|
    && (TimePos(a, HeaderType(rec), |rec|) > 0 ==> TimePos(a, HeaderType(rec), |rec|) + 8 <= |rec|)
    && (HeaderType(rec) == PERF_RECORD_SAMPLE ==>
          && (a.tid ==> PidPos(a) + 8 <= |rec|)
          && (a.stackUser ==>
                && AfterRegs(a, rec) + 8 <= |rec|
                && var stack := Value(rec, AfterRegs(a, rec), 8);
                   stack > 0 ==> AfterRegs(a, rec) + 16 + stack <= |rec|))
  }

  // ------------------------------------------------------------ reading from the ring

  /** KernelRecordReader; the mapped buffer's length is a power of two, so the mask is a remainder. */
  datatype KernelReader = KernelReader(buffer: seq<byte>, dataPos: nat, dataSize: nat, headerSize: nat, headerType: nat, time: nat)

  function Wrap(x: nat, n: nat): nat
    requires n > 0
  {
    x % n
  }

  lemma WrapOnce(x: nat, n: nat)
    requires n > 0 && x < 2 * n
    ensures Wrap(x, n) == if x < n then x else x - n
  {
    if x < n {
      DivModUnique(x, n, 0, x);
    } else {
      DivModUnique(x, n, 1, x - n);
    }
  }

  /** ReadRecord: up to the end of the buffer, and the rest from its start. */
  function ReadRecord(buffer: seq<byte>, dataPos: nat, pos: nat, size: nat): (r: seq<byte>)
    requires size <= |buffer| && |buffer| > 0
    ensures |r| == size
  {
    var p := Wrap(pos + dataPos, |buffer|);
    var copy := Min(size, |buffer| - p);
    buffer[p..p + copy] + (if copy < size then buffer[..size - copy] else [])
  }

  /** From dataPos on, around the end of the buffer, lie these bytes. */
  ghost predicate Holds(buffer: seq<byte>, dataPos: nat, bytes: seq<byte>)
  {
    && dataPos < |buffer| && |bytes| <= |buffer|
    && forall i :: 0 <= i < |bytes| ==> buffer[Wrap(dataPos + i, |buffer|)] == bytes[i]
  }

  lemma ReadIsSlice(buffer: seq<byte>, dataPos: nat, bytes: seq<byte>, pos: nat, size: nat)
    requires Holds(buffer, dataPos, bytes) && pos + size <= |bytes|
    ensures ReadRecord(buffer, dataPos, pos, size) == bytes[pos..pos + size]
  {
    var n, r := |buffer|, ReadRecord(buffer, dataPos, pos, size);
    if size > 0 {
      WrapOnce(pos + dataPos, n);
      var p := Wrap(pos + dataPos, n);
      forall i | 0 <= i < size ensures r[i] == bytes[pos + i] {
        WrapOnce(dataPos + (pos + i), n);
        assert buffer[Wrap(dataPos + (pos + i), n)] == bytes[pos + i];
        assert r[i] == buffer[if p + i < n then p + i else p + i - n];
      }
    }
  }

  lemma HoldsPart(buffer: seq<byte>, dataPos: nat, bytes: seq<byte>, k: nat)
    requires Holds(buffer, dataPos, bytes) && k <= |bytes|
    ensures Holds(buffer, dataPos, bytes[..k])
    ensures Holds(buffer, Wrap(dataPos + k, |buffer|), bytes[k..])
  {
    var n, rest := |buffer|, bytes[k..];
    WrapOnce(dataPos + k, n);
    forall i | 0 <= i < |rest| ensures buffer[Wrap(Wrap(dataPos + k, n) + i, n)] == rest[i] {
      WrapOnce(Wrap(dataPos + k, n) + i, n);
      WrapOnce(dataPos + (k + i), n);
      assert buffer[Wrap(dataPos + (k + i), n)] == bytes[k + i];
    }
  }

  /** A number read from the ring is the number in the record. */
  function ReadNumber(buffer: seq<byte>, dataPos: nat, pos: nat, n: nat): nat
    requires n <= |buffer| && |buffer| > 0
  {
    LittleEndian(ReadRecord(buffer, dataPos, pos, n))
  }

  lemma NumberIsField(buffer: seq<byte>, dataPos: nat, bytes: seq<byte>, pos: nat, n: nat)
    requires Holds(buffer, dataPos, bytes) && pos + n <= |bytes| && |buffer| > 0
    ensures ReadNumber(buffer, dataPos, pos, n) == Value(bytes, pos, n)
  {
    hide ReadRecord, Holds;
    ReadIsSlice(buffer, dataPos, bytes, pos, n);
  }

  // ------------------------------------------------------------- what becomes of it

  datatype Config = Config(attr: Attr, excludePid: int, stackSize: nat, lowLevel: nat, criticalLevel: nat)

  /** What the record buffer says: its free size, and whether AllocWriteSpace finds room. */
  datatype Answer = Answer(free: nat, fits: nat -> bool)

  /** A cut record may have lost only padding, or also valid stack data. */
  datatype Outcome = Stored(bytes: seq<byte>) | Cut(bytes: seq<byte>, dropsValid: bool) | Excluded | Lost

  /** How much of the stack data is valid; some kernels leave 0 there for all of it. */
  function ValidStack(a: Attr, rec: seq<byte>): nat
  {
    var pos := StackSizePos(a, rec);
    var stack := Value(rec, pos, 8);
    var dyn := Value(rec, pos + 8 + stack, 8);
    if dyn == 0 then stack else dyn
  }

  /** The stack data to keep: what is valid, cut to 1K when the buffer is low. */
  function NewStackSize(c: Config, rec: seq<byte>, free: nat): nat
  {
    Min(ValidStack(c.attr, rec), if free < c.lowLevel then 1024 else c.stackSize)
  }

  function NewSize(rec: seq<byte>, stack: nat, keep: nat): nat
  {
    (|rec| - (stack - keep)) % 0x1_0000
  }

  /** The record with only `keep` bytes of its stack. */
  function Shorten(rec: seq<byte>, pos: nat, stack: nat, keep: nat): seq<byte>
    requires HEADER_SIZE <= pos && pos + 16 + stack <= |rec| && keep <= stack
  {
    rec[..6] + ToBytes(NewSize(rec, stack, keep), 2) + rec[HEADER_SIZE..pos]
    + ToBytes(keep, 8) + rec[pos + 8..pos + 8 + keep] + ToBytes(keep, 8)
  }

  ghost predicate ConfigOk(c: Config)
  {
    (c.stackSize > 1024 ==> c.attr.stackUser) && (c.excludePid != -1 ==> c.attr.tid)
  }

  /** What should become of the record. */
  function Decide(c: Config, rec: seq<byte>, ans: Answer): Outcome
    requires |rec| >= HEADER_SIZE
  {
    var pos := StackSizePos(c.attr, rec);
    var stack := Value(rec, pos, 8);
    var keep := NewStackSize(c, rec, ans.free);
    var sample := HeaderType(rec) == PERF_RECORD_SAMPLE;
    if sample && c.excludePid != -1 && Value(rec, PidPos(c.attr), 4) == c.excludePid then Excluded
    else if sample && c.stackSize > 1024 && ans.free < c.criticalLevel then Lost
    else if && sample && c.stackSize > 1024 && stack > keep
            && HEADER_SIZE <= pos && pos + 16 + stack <= |rec|
    then if ans.fits(NewSize(rec, stack, keep)) then Cut(Shorten(rec, pos, stack, keep), keep < ValidStack(c.attr, rec)) else Lost
    else if ans.fits(|rec|) then Stored(rec) else Lost
  }

  lemma StagesGrow(a: Attr, rec: seq<byte>)
    ensures HEADER_SIZE <= CallchainPos(a) <= AfterCallchain(a, rec) <= AfterRaw(a, rec) <= AfterBranches(a, rec) <= AfterRegs(a, rec)
    ensures a.callchain ==> CallchainPos(a) + 8 <= AfterCallchain(a, rec)
    ensures a.raw ==> AfterCallchain(a, rec) + 4 <= AfterRaw(a, rec)
    ensures a.branchStack ==> AfterRaw(a, rec) + 8 <= AfterBranches(a, rec)
    ensures a.regsUser ==> AfterBranches(a, rec) + 8 <= AfterRegs(a, rec)
  {
    hide Value;
  }

  /** GetStackSizePos, reading through the ring. */
  method GetStackSizePos(a: Attr, r: KernelReader, ghost rec: seq<byte>) returns (pos: nat)
    requires Holds(r.buffer, r.dataPos, rec) && |r.buffer| >= 8
    requires AfterRegs(a, rec) <= |rec|
    ensures pos == StackSizePos(a, rec)
  {
    hide ReadRecord, Holds, Value, ReadNumber;
    StagesGrow(a, rec);
    pos := CallchainPos(a);
    if a.callchain {
      NumberIsField(r.buffer, r.dataPos, rec, pos, 8);
      pos := pos + (ReadNumber(r.buffer, r.dataPos, pos, 8) + 1) * 8;
    }
    if a.raw {
      NumberIsField(r.buffer, r.dataPos, rec, pos, 4);
      pos := pos + ReadNumber(r.buffer, r.dataPos, pos, 4) + 4;
    }
    if a.branchStack {
      NumberIsField(r.buffer, r.dataPos, rec, pos, 8);
      pos := pos + 8 + ReadNumber(r.buffer, r.dataPos, pos, 8) * 24;
    }
    if a.regsUser {
      NumberIsField(r.buffer, r.dataPos, rec, pos, 8);
      var abi := ReadNumber(r.buffer, r.dataPos, pos, 8);
      pos := pos + (1 + (if abi == 0 then 0 else a.regsCount)) * 8;
    }
    if !a.stackUser {
      pos := 0;
    }
  }

  /** The reader stands at record rec and has loaded its header. */
  ghost predicate StandsAt(a: Attr, r: KernelReader, rec: seq<byte>)
  {
    && RecordOk(a, rec) && Holds(r.buffer, r.dataPos, rec)
    && r.headerSize == |rec| && r.headerType == HeaderType(rec)
  }

  lemma SampleFacts(c: Config, rec: seq<byte>)
    requires ConfigOk(c) && RecordOk(c.attr, rec) && HeaderType(rec) == PERF_RECORD_SAMPLE
    ensures c.excludePid != -1 ==> PidPos(c.attr) + 4 <= |rec|
    ensures c.stackSize > 1024 ==>
              && var pos := StackSizePos(c.attr, rec);
              && pos == AfterRegs(c.attr, rec) >= HEADER_SIZE && pos + 8 <= |rec|
              && (Value(rec, pos, 8) > 0 ==> pos + 16 + Value(rec, pos, 8) <= |rec|)
  {
    hide Value, AfterRegs, PidPos;
    StagesGrow(c.attr, rec);
  }

  /** Only a sample of the excluded process is passed over. */
  ghost predicate IsExcluded(c: Config, rec: seq<byte>)
    requires |rec| >= HEADER_SIZE
  {
    HeaderType(rec) == 9 && c.excludePid != -1 && Value(rec, PidPos(c.attr), 4) == c.excludePid
  }

  /** The record with `keep` bytes of stack, field by field; the header's size is 16 bits wide. */
  ghost predicate IsCutTo(rec: seq<byte>, pos: nat, stack: nat, keep: nat, cut: seq<byte>)
  {
    && HEADER_SIZE <= pos && pos + 16 + stack <= |rec| && keep < stack && |cut| == pos + 16 + keep
    && cut[..6] == rec[..6] && HeaderBytes(cut) == (|rec| - (stack - keep)) % 0x1_0000
    && cut[HEADER_SIZE..pos] == rec[HEADER_SIZE..pos]
    && cut[pos..pos + 8] == ToBytes(keep, 8) && cut[pos + 8..pos + 8 + keep] == rec[pos + 8..pos + 8 + keep]
    && cut[pos + 8 + keep..] == ToBytes(keep, 8)
  }

  /**
   * What becomes of a sample's stack when the free space has reached the critical level: the record
   * stays whole, or its stack becomes `keep` bytes long.
   */
  ghost predicate StackTreated(c: Config, rec: seq<byte>, ans: Answer, stack: nat, valid: nat, keep: nat, o: Outcome)
  {
    && (c.lowLevel <= ans.free && valid <= c.stackSize ==> keep == valid)
    && (c.lowLevel <= ans.free && valid > c.stackSize ==> keep == c.stackSize)
    && (ans.free < c.lowLevel && valid <= 1024 ==> keep == valid)
    && (ans.free < c.lowLevel && valid > 1024 ==> keep == 1024)
    && (stack <= keep ==> o == if ans.fits(|rec|) then Stored(rec) else Lost)
    && (stack > keep ==>
          && (o == Lost <==> !ans.fits((|rec| - (stack - keep)) % 0x1_0000))
          && (o != Lost ==> o.Cut? && IsCutTo(rec, StackSizePos(c.attr, rec), stack, keep, o.bytes)
                            && (o.dropsValid <==> keep < valid)))
  }

  /** Decide in terms of the record's fields. */
  lemma DecideMeans(c: Config, rec: seq<byte>, ans: Answer) returns (keep: nat)
    requires ConfigOk(c) && RecordOk(c.attr, rec)
    ensures |rec| >= HEADER_SIZE
    ensures var o, deep := Decide(c, rec, ans), HeaderType(rec) == 9 && c.stackSize > 1024;
            && (o == Excluded <==> IsExcluded(c, rec))
            && (!IsExcluded(c, rec) && !deep ==> o == if ans.fits(|rec|) then Stored(rec) else Lost)
            && (!IsExcluded(c, rec) && deep && ans.free < c.criticalLevel ==> o == Lost)
            && (!IsExcluded(c, rec) && deep && ans.free >= c.criticalLevel ==>
                  var stack := Value(rec, StackSizePos(c.attr, rec), 8);
                  var dyn := Value(rec, StackSizePos(c.attr, rec) + 8 + stack, 8);
                  StackTreated(c, rec, ans, stack, if dyn == 0 then stack else dyn, keep, o))
  {
    hide Value, StackSizePos, PidPos, HeaderType, AfterRegs, Shorten, RecordOk, LittleEndian, IsCutTo;
    RecordLength(c.attr, rec);
    keep := NewStackSize(c, rec, ans.free);
    if HeaderType(rec) == 9 && c.stackSize > 1024 {
      SampleFacts(c, rec);
      var pos := StackSizePos(c.attr, rec);
      var stack := Value(rec, pos, 8);
      if stack > keep {
        ShortenCuts(rec, pos, stack, keep);
      }
    }
  }

  lemma ShortenCuts(rec: seq<byte>, pos: nat, stack: nat, keep: nat)
    requires HEADER_SIZE <= pos && pos + 16 + stack <= |rec| && keep < stack
    ensures IsCutTo(rec, pos, stack, keep, Shorten(rec, pos, stack, keep))
  {
    hide Shorten, ToBytes, HeaderBytes, HeaderType, LittleEndian;
    CutParts(rec, pos, stack, keep);
    CutHeader(rec, pos, stack, keep);
  }

  /**
   * PushRecordToRecordBuffer, reading through the ring. `keep` is the stack it leaves: what is valid,
   * at most 1024 bytes of it when the buffer is low and at most the configured size otherwise.
   */
  method Push(c: Config, r: KernelReader, ans: Answer, ghost rec: seq<byte>) returns (o: Outcome, ghost keep: nat)
    requires ConfigOk(c) && StandsAt(c.attr, r, rec) && |r.buffer| >= 8
    ensures |rec| >= HEADER_SIZE && o == Decide(c, rec, ans)
    ensures o == Excluded <==> IsExcluded(c, rec)
    ensures o != Excluded && !(HeaderType(rec) == 9 && c.stackSize > 1024) ==> o == if ans.fits(|rec|) then Stored(rec) else Lost
    ensures o != Excluded && HeaderType(rec) == 9 && c.stackSize > 1024 && ans.free < c.criticalLevel ==> o == Lost
    ensures o != Excluded && HeaderType(rec) == 9 && c.stackSize > 1024 && ans.free >= c.criticalLevel ==>
              var stack := Value(rec, StackSizePos(c.attr, rec), 8);
              var dyn := Value(rec, StackSizePos(c.attr, rec) + 8 + stack, 8);
              StackTreated(c, rec, ans, stack, if dyn == 0 then stack else dyn, keep, o)
  {
    hide ReadRecord, Holds, Value, ReadNumber, RecordOk, StackSizePos, PidPos, HeaderType, AfterRegs, Shorten;
    hide StackTreated, IsExcluded;
    RecordLength(c.attr, rec);
    keep := DecideMeans(c, rec, ans);
    if r.headerType == PERF_RECORD_SAMPLE {
      SampleFacts(c, rec);
      if c.excludePid != -1 {
        NumberIsField(r.buffer, r.dataPos, rec, PidPos(c.attr), 4);
        if ReadNumber(r.buffer, r.dataPos, PidPos(c.attr), 4) == c.excludePid {
          o := Excluded;
          return;
        }
      }
      if c.stackSize > 1024 {
        if ans.free < c.criticalLevel {
          o := Lost;
          return;
        }
        var limit := if ans.free < c.lowLevel then 1024 else c.stackSize;
        var pos := GetStackSizePos(c.attr, r, rec);
        NumberIsField(r.buffer, r.dataPos, rec, pos, 8);
        var stack := ReadNumber(r.buffer, r.dataPos, pos, 8);
        if stack > 0 {
          NumberIsField(r.buffer, r.dataPos, rec, pos + 8 + stack, 8);
          var dyn := ReadNumber(r.buffer, r.dataPos, pos + 8 + stack, 8);
          if dyn == 0 {
            dyn := stack;
          }
          var kept: nat := Min(dyn, limit);
          if stack > kept {
            var size := (r.headerSize - (stack - kept)) % 0x1_0000;
            if !ans.fits(size) {
              o := Lost;
              return;
            }
            var p := WriteShortened(r, rec, pos, stack, kept);
            o := Cut(p, kept < dyn);
            return;
          }
        }
      }
    }
    HoldsLength(r.buffer, r.dataPos, rec);
    if ans.fits(r.headerSize) {
      ReadIsSlice(r.buffer, r.dataPos, rec, 0, r.headerSize);
      assert rec[0..|rec|] == rec;
      o := Stored(ReadRecord(r.buffer, r.dataPos, 0, r.headerSize));
    } else {
      o := Lost;
    }
  }

  lemma RecordLength(a: Attr, rec: seq<byte>)
    requires RecordOk(a, rec)
    ensures |rec| >= HEADER_SIZE && HeaderBytes(rec) == |rec|
  {
  }

  /** The writes into the allocated space, one behind the other. */
  method WriteShortened(r: KernelReader, ghost rec: seq<byte>, pos: nat, stack: nat, keep: nat) returns (p: seq<byte>)
    requires Holds(r.buffer, r.dataPos, rec) && r.headerSize == |rec| && |r.buffer| >= 8
    requires HEADER_SIZE <= pos && pos + 16 + stack <= |rec| && keep < stack
    ensures p == Shorten(rec, pos, stack, keep)
  {
    hide Holds, ReadRecord;
    HoldsLength(r.buffer, r.dataPos, rec);
    ReadIsSlice(r.buffer, r.dataPos, rec, 0, 6);
    ReadIsSlice(r.buffer, r.dataPos, rec, HEADER_SIZE, pos - HEADER_SIZE);
    ReadIsSlice(r.buffer, r.dataPos, rec, pos + 8, keep);
    var size := (r.headerSize - (stack - keep)) % 0x1_0000;
    p := ReadRecord(r.buffer, r.dataPos, 0, 6) + ToBytes(size, 2);
    p := p + ReadRecord(r.buffer, r.dataPos, HEADER_SIZE, pos - HEADER_SIZE);
    p := p + ToBytes(keep, 8);
    p := p + ReadRecord(r.buffer, r.dataPos, pos + 8, keep);
    p := p + ToBytes(keep, 8);
  }

  lemma HoldsLength(buffer: seq<byte>, dataPos: nat, bytes: seq<byte>)
    requires Holds(buffer, dataPos, bytes)
    ensures |bytes| <= |buffer|
  {
  }

  // -------------------------------------------------------------- a shortened record

  lemma CutParts(rec: seq<byte>, pos: nat, stack: nat, keep: nat)
    requires HEADER_SIZE <= pos && pos + 16 + stack <= |rec| && keep <= stack
    ensures var cut := Shorten(rec, pos, stack, keep);
            && |cut| == pos + 16 + keep && cut[..6] == rec[..6] && cut[6..8] == ToBytes(NewSize(rec, stack, keep), 2)
            && cut[HEADER_SIZE..pos] == rec[HEADER_SIZE..pos] && cut[pos..pos + 8] == ToBytes(keep, 8)
            && cut[pos + 8..pos + 8 + keep] == rec[pos + 8..pos + 8 + keep]
            && cut[pos + 8 + keep..pos + 16 + keep] == ToBytes(keep, 8)
  {
    hide ToBytes, NewSize;
  }

  lemma TwoBytes(v: nat)
    requires v < 0x1_0000
    ensures ToBytes(v, 2) == [v % 256, v / 256]
  {
    assert ToBytes(v / 256, 1) == [v / 256 % 256] + ToBytes(v / 256 / 256, 0);
  }

  lemma CutHeader(rec: seq<byte>, pos: nat, stack: nat, keep: nat)
    requires HEADER_SIZE <= pos && pos + 16 + stack <= |rec| && keep <= stack
    ensures var cut := Shorten(rec, pos, stack, keep);
            && |cut| == pos + 16 + keep
            && HeaderType(cut) == HeaderType(rec) && HeaderBytes(cut) == NewSize(rec, stack, keep)
  {
    hide Shorten, ToBytes, NewSize, LittleEndian;
    var cut, v := Shorten(rec, pos, stack, keep), NewSize(rec, stack, keep);
    CutParts(rec, pos, stack, keep);
    assert cut[0..4] == cut[..6][0..4] && rec[0..4] == rec[..6][0..4];
    NewSizeBound(rec, stack, keep);
    TwoBytes(v);
    assert cut[6] == cut[6..8][0] && cut[7] == cut[6..8][1];
  }

  lemma NewSizeBound(rec: seq<byte>, stack: nat, keep: nat)
    ensures NewSize(rec, stack, keep) < 0x1_0000
  {
  }

  lemma NewSizeIs(rec: seq<byte>, stack: nat, keep: nat)
    requires |rec| >= HEADER_SIZE && HeaderBytes(rec) == |rec| && keep <= stack <= |rec|
    ensures NewSize(rec, stack, keep) == |rec| - (stack - keep)
  {
  }

  /** The header counts the bytes written exactly if the stack is the last field of the record. */
  lemma CutSizeIff(rec: seq<byte>, pos: nat, stack: nat, keep: nat)
    requires HEADER_SIZE <= pos && pos + 16 + stack <= |rec| && keep <= stack && HeaderBytes(rec) == |rec|
    ensures var cut := Shorten(rec, pos, stack, keep);
            |cut| >= HEADER_SIZE && (HeaderBytes(cut) == |cut| <==> |rec| == pos + 16 + stack)
  {
    hide Shorten, NewSize;
    CutHeader(rec, pos, stack, keep);
    NewSizeIs(rec, stack, keep);
  }

  lemma SameValue(x: seq<byte>, y: seq<byte>, pos: nat, at: nat, n: nat)
    requires HEADER_SIZE <= pos <= |x| && pos <= |y| && x[HEADER_SIZE..pos] == y[HEADER_SIZE..pos]
    requires HEADER_SIZE <= at && at + n <= pos
    ensures Value(x, at, n) == Value(y, at, n)
  {
    hide LittleEndian;
    SameSlice(x, HEADER_SIZE, pos, y, HEADER_SIZE, pos, at - HEADER_SIZE, at - HEADER_SIZE + n);
  }

  /** Records that agree up to the stack agree on where the stack is. */
  lemma SameLayout(a: Attr, x: seq<byte>, y: seq<byte>, pos: nat)
    requires HEADER_SIZE <= pos <= |x| && pos <= |y| && x[HEADER_SIZE..pos] == y[HEADER_SIZE..pos]
    requires AfterRegs(a, x) == pos
    ensures AfterRegs(a, y) == pos
  {
    hide Value, CallchainPos;
    StagesGrow(a, x);
    if a.callchain {
      SameValue(x, y, pos, CallchainPos(a), 8);
    }
    if a.raw {
      SameValue(x, y, pos, AfterCallchain(a, x), 4);
    }
    if a.branchStack {
      SameValue(x, y, pos, AfterRaw(a, x), 8);
    }
    if a.regsUser {
      SameValue(x, y, pos, AfterBranches(a, x), 8);
    }
  }

  /**
   * A shortened sample whose stack was its last field is again a record: everything before the
   * stack is as it was, and both stack sizes tell how much stack data it has.
   */
  lemma CutIsRecord(a: Attr, rec: seq<byte>, keep: nat)
    requires RecordOk(a, rec) && HeaderType(rec) == PERF_RECORD_SAMPLE && a.stackUser
    requires var pos := AfterRegs(a, rec); var stack := Value(rec, pos, 8);
             0 < stack && keep <= stack && |rec| == pos + 16 + stack
    ensures var pos := AfterRegs(a, rec); var stack := Value(rec, pos, 8);
            && HEADER_SIZE <= pos
            && var cut := Shorten(rec, pos, stack, keep);
            && RecordOk(a, cut) && AfterRegs(a, cut) == pos
            && Value(cut, pos, 8) == keep && Value(cut, pos + 8 + keep, 8) == keep
            && cut[HEADER_SIZE..pos] == rec[HEADER_SIZE..pos] && cut[pos + 8..pos + 8 + keep] == rec[pos + 8..pos + 8 + keep]
            && IsRecord(cut) && |cut| == |rec| - (stack - keep)
  {
    hide Value, Shorten, AfterRegs, LittleEndian, ToBytes, NewSize;
    StagesGrow(a, rec);
    var pos := AfterRegs(a, rec);
    var stack := Value(rec, pos, 8);
    var cut := Shorten(rec, pos, stack, keep);
    CutParts(rec, pos, stack, keep);
    CutHeader(rec, pos, stack, keep);
    CutSizeIff(rec, pos, stack, keep);
    SameLayout(a, rec, cut, pos);
    EightRoundTrip(keep, |rec|);
    StackSizes(cut, pos, keep);
    CutFieldsInside(a, pos);
  }

  lemma CutFieldsInside(a: Attr, pos: nat)
    requires CallchainPos(a) <= pos
    ensures TimePosInSample(a) > 0 ==> TimePosInSample(a) + 8 <= pos
    ensures a.tid ==> PidPos(a) + 8 <= pos
  {
  }

  lemma EightRoundTrip(v: nat, size: nat)
    requires v <= size < 0x1_0000
    ensures LittleEndian(ToBytes(v, 8)) == v
  {
    FitsEight(v);
    NumberRoundTrip(v, 8);
  }

  lemma StackSizes(cut: seq<byte>, pos: nat, keep: nat)
    requires |cut| == pos + 16 + keep && LittleEndian(ToBytes(keep, 8)) == keep
    requires cut[pos..pos + 8] == ToBytes(keep, 8) && cut[pos + 8 + keep..pos + 16 + keep] == ToBytes(keep, 8)
    ensures Value(cut, pos, 8) == keep && Value(cut, pos + 8 + keep, 8) == keep
  {
    hide LittleEndian, ToBytes;
  }

  /** The stack and its sizes end the record, if it has a stack. */
  ghost predicate StackIsLast(a: Attr, rec: seq<byte>)
  {
    var pos := AfterRegs(a, rec);
    var stack := Value(rec, pos, 8);
    |rec| >= HEADER_SIZE && HeaderType(rec) == PERF_RECORD_SAMPLE && a.stackUser && stack > 0 ==> |rec| == pos + 16 + stack
  }

  /** What is stored of a record, whole or cut, is a record whose header counts its bytes. */
  lemma StoredIsRecord(c: Config, rec: seq<byte>, ans: Answer)
    requires ConfigOk(c) && RecordOk(c.attr, rec) && StackIsLast(c.attr, rec)
    ensures var o := Decide(c, rec, ans);
            o.Stored? || o.Cut? ==> RecordOk(c.attr, o.bytes) && HeaderBytes(o.bytes) == |o.bytes|
  {
    hide Value, AfterRegs, RecordOk, Shorten, NewSize, LittleEndian, HeaderType, HeaderBytes, PidPos;
    RecordLength(c.attr, rec);
    var o := Decide(c, rec, ans);
    if o.Cut? {
      SampleFacts(c, rec);
      var pos := AfterRegs(c.attr, rec);
      var stack, keep := Value(rec, pos, 8), NewStackSize(c, rec, ans.free);
      assert o.bytes == Shorten(rec, pos, stack, keep);
      CutIsRecord(c.attr, rec, keep);
      RecordLength(c.attr, o.bytes);
    }
  }
}
