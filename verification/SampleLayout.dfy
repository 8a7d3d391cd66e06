/**
 * Records as perf lays them out, field by field, and what the read thread finds in them: the
 * positions RecordParser computes are those of the fields, and a sample whose stack is cut is the
 * same sample laid out with less stack.
 */
module SampleLayout {
  import opened Common
  import opened RecordRing
  import opened KernelRecords
  import opened KernelDrain

  // ------------------------------------------------------------------------ the layout

  /** The fields of a sample, whether its attr asks for them or not. */
  datatype Sample = Sample(misc: nat, identifier: u64, ip: u64, pid: nat, tid: nat, time: u64, addr: u64, id: u64,
                           streamId: u64, cpu: u64, period: u64, callchain: seq<u64>, raw: seq<byte>,
                           branches: seq<seq<byte>>, abi: u64, regs: seq<u64>, stack: seq<byte>, valid: u64)

  function Word(v: u64): (b: seq<byte>)
    ensures |b| == 8
  {
    ToBytes(v, 8)
  }

  function Words(vs: seq<u64>): (b: seq<byte>)
    ensures |b| == 8 * |vs|
  {
    if vs == [] then [] else Word(vs[0]) + Words(vs[1..])
  }

  /** Branch stack entries of 24 bytes each. */
  function Flat(bs: seq<seq<byte>>): (b: seq<byte>)
    requires forall k :: 0 <= k < |bs| ==> |bs[k]| == 24
    ensures |b| == 24 * |bs|
  {
    if bs == [] then [] else bs[0] + Flat(bs[1..])
  }

  function Opt(here: bool, b: seq<byte>): (r: seq<byte>)
    ensures |r| == Bit(here) * |b|
  {
    if here then b else []
  }

  function Header(kind: nat, misc: nat, size: nat): (b: seq<byte>)
    ensures |b| == 8
  {
    ToBytes(kind, 4) + ToBytes(misc, 2) + ToBytes(size, 2)
  }

  function BeforePid(a: Attr, f: Sample): seq<byte>
  {
    Opt(a.identifier, Word(f.identifier)) + Opt(a.ip, Word(f.ip))
  }

  function Pids(a: Attr, f: Sample): seq<byte>
  {
    Opt(a.tid, ToBytes(f.pid, 4) + ToBytes(f.tid, 4))
  }

  function AfterTime(a: Attr, f: Sample): seq<byte>
  {
    Opt(a.addr, Word(f.addr)) + Opt(a.id, Word(f.id)) + Opt(a.streamId, Word(f.streamId))
    + Opt(a.cpu, Word(f.cpu)) + Opt(a.period, Word(f.period))
  }

  /** The fields of fixed size. */
  function Fixed(a: Attr, f: Sample): seq<byte>
  {
    BeforePid(a, f) + Pids(a, f) + Opt(a.time, Word(f.time)) + AfterTime(a, f)
  }

  /** What fits in a record: 16 bits for its size, and the registers the attr asks for. */
  ghost predicate SampleOk(a: Attr, f: Sample)
  {
    && f.pid < 0x1_0000_0000 && f.tid < 0x1_0000_0000 && |f.regs| == a.regsCount
    && (forall k :: 0 <= k < |f.branches| ==> |f.branches[k]| == 24)
    && |f.callchain| < 0x1_0000 && |f.raw| < 0x1_0000 && |f.branches| < 0x1_0000 && |f.stack| < 0x1_0000
  }

  function Callchain(a: Attr, f: Sample): seq<byte>
    requires |f.callchain| < 0x1_0000
  {
    Opt(a.callchain, Word(|f.callchain|) + Words(f.callchain))
  }

  function RawData(a: Attr, f: Sample): seq<byte>
  {
    Opt(a.raw, ToBytes(|f.raw|, 4) + f.raw)
  }

  function Branches(a: Attr, f: Sample): seq<byte>
    requires |f.branches| < 0x1_0000 && forall k :: 0 <= k < |f.branches| ==> |f.branches[k]| == 24
  {
    Opt(a.branchStack, Word(|f.branches|) + Flat(f.branches))
  }

  function Registers(a: Attr, f: Sample): seq<byte>
  {
    Opt(a.regsUser, Word(f.abi) + (if f.abi == 0 then [] else Words(f.regs)))
  }

  /** Everything between the header and the stack. */
  ghost function Front(a: Attr, f: Sample): seq<byte>
    requires SampleOk(a, f)
  {
    Fixed(a, f) + Callchain(a, f) + RawData(a, f) + Branches(a, f) + Registers(a, f)
  }

  /** The stack's size, the stack, and how much of it is valid; an empty stack has no third part. */
  ghost function Stack(a: Attr, f: Sample): seq<byte>
    requires |f.stack| < 0x1_0000
  {
    Opt(a.stackUser, Word(|f.stack|) + (if f.stack == [] then [] else f.stack + Word(f.valid)))
  }

  ghost function Layout(a: Attr, f: Sample): seq<byte>
    requires SampleOk(a, f)
  {
    Header(9, f.misc, 8 + |Front(a, f)| + |Stack(a, f)|) + Front(a, f) + Stack(a, f)
  }

  // --------------------------------------------------------------------- finding fields

  lemma FieldInside(pre: seq<byte>, v: nat, n: nat, post: seq<byte>)
    requires Fits(v, n)
    ensures Value(pre + ToBytes(v, n) + post, |pre|, n) == v
  {
    hide ToBytes, LittleEndian, Fits;
    NumberRoundTrip(v, n);
    var rec := pre + ToBytes(v, n) + post;
    assert rec[|pre|..|pre| + n] == ToBytes(v, n);
  }

  lemma HeaderFields(kind: nat, misc: nat, size: nat, rest: seq<byte>)
    requires kind < 0x1_0000_0000 && size < 0x1_0000
    ensures var rec := Header(kind, misc, size) + rest; HeaderType(rec) == kind && HeaderBytes(rec) == size
  {
    hide LittleEndian, ToBytes;
    var rec := Header(kind, misc, size) + rest;
    FourRoundTrip(kind);
    assert rec[0..4] == ToBytes(kind, 4);
    TwoBytes(size);
    assert rec[6] == ToBytes(size, 2)[0] && rec[7] == ToBytes(size, 2)[1];
  }

  /** A number that opens a field, behind what comes before it. */
  lemma FieldAt(rec: seq<byte>, pre: seq<byte>, v: nat, n: nat, post: seq<byte>)
    requires rec == pre + ToBytes(v, n) + post && Fits(v, n)
    ensures Value(rec, |pre|, n) == v && |pre| + n <= |rec|
  {
    hide ToBytes, Value, Fits;
    FieldInside(pre, v, n, post);
  }

  lemma FixedLengths(a: Attr, f: Sample)
    ensures |BeforePid(a, f)| == 8 * (Bit(a.identifier) + Bit(a.ip)) && |Pids(a, f)| == 8 * Bit(a.tid)
    ensures |AfterTime(a, f)| == 8 * (Bit(a.addr) + Bit(a.id) + Bit(a.streamId) + Bit(a.cpu) + Bit(a.period))
    ensures 8 + |Fixed(a, f)| == CallchainPos(a)
  {
    hide Word, Opt, Bit, ToBytes;
  }

  lemma PidsInFixed(a: Attr, f: Sample) returns (after: seq<byte>)
    requires a.tid
    ensures Fixed(a, f) == BeforePid(a, f) + ToBytes(f.pid, 4) + after && |after| >= 4
  {
    hide ToBytes, BeforePid, AfterTime, Opt;
    after := ToBytes(f.tid, 4) + (Opt(a.time, Word(f.time)) + AfterTime(a, f));
    OptHere(ToBytes(f.pid, 4) + ToBytes(f.tid, 4));
  }

  lemma OptHere(b: seq<byte>)
    ensures Opt(true, b) == b
  {
  }

  /** The process and the time are where RecordParser says. */
  lemma PidFound(a: Attr, f: Sample, h: seq<byte>, rest: seq<byte>)
    requires |h| == 8 && f.pid < 0x1_0000_0000 && a.tid
    ensures var rec := h + Fixed(a, f) + rest; PidPos(a) + 8 <= |rec| && Value(rec, PidPos(a), 4) == f.pid
  {
    hide ToBytes, Value, BeforePid, Pids, AfterTime, Fixed, Fits, Opt;
    FixedLengths(a, f);
    FitsFour(f.pid);
    var after := PidsInFixed(a, f);
    var rec, before := h + Fixed(a, f) + rest, h + BeforePid(a, f);
    assert rec == before + ToBytes(f.pid, 4) + (after + rest);
    FieldAt(rec, before, f.pid, 4, after + rest);
  }

  lemma TimeFound(a: Attr, f: Sample, h: seq<byte>, rest: seq<byte>)
    requires |h| == 8 && a.time
    ensures var rec, pos := h + Fixed(a, f) + rest, TimePosInSample(a); 0 < pos && pos + 8 <= |rec| && Value(rec, pos, 8) == f.time
  {
    hide ToBytes, Value, BeforePid, Pids, AfterTime, Fits, Opt;
    FixedLengths(a, f);
    FitsEight(f.time);
    OptHere(Word(f.time));
    var rec, before, after := h + Fixed(a, f) + rest, h + BeforePid(a, f) + Pids(a, f), AfterTime(a, f) + rest;
    assert rec == before + Word(f.time) + after;
    FieldAt(rec, before, f.time, 8, after);
  }

  /** Each field of variable size ends where RecordParser says. */
  lemma CallchainEnds(a: Attr, f: Sample, pre: seq<byte>, rest: seq<byte>)
    requires |f.callchain| < 0x1_0000 && |pre| == CallchainPos(a)
    ensures AfterCallchain(a, pre + Callchain(a, f) + rest) == |pre + Callchain(a, f)|
  {
    hide ToBytes, Value, Words, CallchainPos, Fits;
    var rec := pre + Callchain(a, f) + rest;
    if a.callchain {
      FitsEight(|f.callchain|);
      FieldAt(rec, pre, |f.callchain|, 8, Words(f.callchain) + rest);
    }
  }

  lemma RawEnds(a: Attr, f: Sample, rec: seq<byte>, pre: seq<byte>, rest: seq<byte>)
    requires |f.raw| < 0x1_0000 && rec == pre + RawData(a, f) + rest && |pre| == AfterCallchain(a, rec)
    ensures AfterRaw(a, rec) == |pre + RawData(a, f)|
  {
    hide ToBytes, Value, AfterCallchain, Fits;
    if a.raw {
      FitsFour(|f.raw|);
      FieldAt(rec, pre, |f.raw|, 4, f.raw + rest);
    }
  }

  lemma BranchesEnd(a: Attr, f: Sample, rec: seq<byte>, pre: seq<byte>, rest: seq<byte>)
    requires |f.branches| < 0x1_0000 && (forall k :: 0 <= k < |f.branches| ==> |f.branches[k]| == 24)
    requires rec == pre + Branches(a, f) + rest && |pre| == AfterRaw(a, rec)
    ensures AfterBranches(a, rec) == |pre + Branches(a, f)|
  {
    hide ToBytes, Value, AfterRaw, Flat, Fits;
    if a.branchStack {
      FitsEight(|f.branches|);
      FieldAt(rec, pre, |f.branches|, 8, Flat(f.branches) + rest);
    }
  }

  lemma RegistersEnd(a: Attr, f: Sample, rec: seq<byte>, pre: seq<byte>, rest: seq<byte>)
    requires |f.regs| == a.regsCount && rec == pre + Registers(a, f) + rest && |pre| == AfterBranches(a, rec)
    ensures AfterRegs(a, rec) == |pre + Registers(a, f)|
  {
    hide ToBytes, Value, AfterBranches, Words, Fits;
    if a.regsUser {
      FitsEight(f.abi);
      FieldAt(rec, pre, f.abi, 8, (if f.abi == 0 then [] else Words(f.regs)) + rest);
    }
  }

  lemma FrontEnds(a: Attr, f: Sample, h: seq<byte>, rest: seq<byte>)
    requires SampleOk(a, f) && |h| == 8
    ensures AfterRegs(a, h + Front(a, f) + rest) == 8 + |Front(a, f)|
  {
    hide Fixed, Callchain, RawData, Branches, Registers, AfterCallchain, AfterRaw, AfterBranches, AfterRegs,
         CallchainPos;
    FixedLengths(a, f);
    var rec := h + Front(a, f) + rest;
    var p4 := h + Fixed(a, f);
    var p5 := p4 + Callchain(a, f);
    var p6 := p5 + RawData(a, f);
    var p7 := p6 + Branches(a, f);
    var r8 := Registers(a, f) + rest;
    var r7 := Branches(a, f) + r8;
    var r6 := RawData(a, f) + r7;
    assert rec == p4 + Callchain(a, f) + r6;
    CallchainEnds(a, f, p4, r6);
    assert rec == p5 + RawData(a, f) + r7;
    RawEnds(a, f, rec, p5, r7);
    assert rec == p6 + Branches(a, f) + r8;
    BranchesEnd(a, f, rec, p6, r8);
    assert rec == p7 + Registers(a, f) + rest;
    RegistersEnd(a, f, rec, p7, rest);
  }

  lemma StackFields(a: Attr, f: Sample, pre: seq<byte>)
    requires |f.stack| < 0x1_0000 && a.stackUser
    ensures var rec, n := pre + Stack(a, f), |f.stack|;
            && |pre| + 8 <= |rec| && Value(rec, |pre|, 8) == n
            && (n > 0 ==> && |pre| + 16 + n == |rec| && Value(rec, |pre| + 8 + n, 8) == f.valid
                          && rec[|pre| + 8..|pre| + 8 + n] == f.stack)
  {
    hide ToBytes, Value, Fits;
    var rec, n := pre + Stack(a, f), |f.stack|;
    FitsEight(n);
    FieldAt(rec, pre, n, 8, if f.stack == [] then [] else f.stack + Word(f.valid));
    if n > 0 {
      FitsEight(f.valid);
      FieldAt(rec, pre + Word(n) + f.stack, f.valid, 8, []);
    }
  }

  /**
   * A sample laid out field by field, in perf's order, is a well-formed record that ends with its
   * stack, and the process, the time, the stack's size and its valid part are found in it.
   */
  lemma FieldsAreFound(a: Attr, f: Sample)
    requires SampleOk(a, f) && |Layout(a, f)| < 0x1_0000
    ensures var rec := Layout(a, f);
            && RecordOk(a, rec) && StackIsLast(a, rec) && HeaderType(rec) == 9
            && (a.tid ==> Value(rec, PidPos(a), 4) == f.pid)
            && (forall before: nat :: TimeOf(a, rec, before) == if a.time then f.time else before)
            && (a.stackUser ==>
                  && StackSizePos(a, rec) == 8 + |Front(a, f)|
                  && Value(rec, StackSizePos(a, rec), 8) == |f.stack|
                  && (f.stack != [] ==> Value(rec, StackSizePos(a, rec) + 8 + |f.stack|, 8) == f.valid))
  {
    hide Front, Fixed, Stack, Value, HeaderType, HeaderBytes, AfterRegs, PidPos, TimePosInSample, Header;
    var rec := Layout(a, f);
    var h := Header(9, f.misc, 8 + |Front(a, f)| + |Stack(a, f)|);
    assert rec == h + (Front(a, f) + Stack(a, f));
    HeaderFields(9, f.misc, |rec|, Front(a, f) + Stack(a, f));
    var rest := FrontSplit(a, f);
    assert rec == h + Fixed(a, f) + (rest + Stack(a, f));
    if a.tid {
      PidFound(a, f, h, rest + Stack(a, f));
    }
    if a.time {
      TimeFound(a, f, h, rest + Stack(a, f));
    } else {
      NoTime(a);
    }
    FrontEnds(a, f, h, Stack(a, f));
    if a.stackUser {
      StackFields(a, f, h + Front(a, f));
    }
  }

  lemma NoTime(a: Attr)
    requires !a.time
    ensures TimePosInSample(a) == 0
  {
  }

  lemma FrontSplit(a: Attr, f: Sample) returns (rest: seq<byte>)
    requires SampleOk(a, f)
    ensures Front(a, f) == Fixed(a, f) + rest
  {
    hide Fixed, Callchain, RawData, Branches, Registers;
    rest := Callchain(a, f) + RawData(a, f) + Branches(a, f) + Registers(a, f);
  }

  // ---------------------------------------------------------------- what becomes of it

  /** The sample with only the first `keep` bytes of its stack, all of them valid. */
  function Trimmed(f: Sample, keep: nat): Sample
    requires keep <= |f.stack| < 0x1_0000
  {
    f.(stack := f.stack[..keep], valid := keep)
  }

  lemma TrimmedFront(a: Attr, f: Sample, keep: nat)
    requires SampleOk(a, f) && 0 < keep <= |f.stack|
    ensures SampleOk(a, Trimmed(f, keep)) && Front(a, Trimmed(f, keep)) == Front(a, f)
    ensures a.stackUser ==> Stack(a, Trimmed(f, keep)) == ToBytes(keep, 8) + f.stack[..keep] + ToBytes(keep, 8)
  {
    hide ToBytes, Words, Flat;
  }

  /** Cutting a laid out sample lays out the trimmed sample. */
  lemma ShortenIsTrim(a: Attr, f: Sample, keep: nat)
    requires SampleOk(a, f) && |Layout(a, f)| < 0x1_0000 && a.stackUser && 0 < keep < |f.stack|
    ensures var rec, pos := Layout(a, f), 8 + |Front(a, f)|;
            && pos + 16 + |f.stack| == |rec| && SampleOk(a, Trimmed(f, keep))
            && Shorten(rec, pos, |f.stack|, keep) == Layout(a, Trimmed(f, keep))
            && NewSize(rec, |f.stack|, keep) == |Layout(a, Trimmed(f, keep))|
  {
    hide Front, ToBytes, LittleEndian, Stack, Value;
    var rec, n := Layout(a, f), |f.stack|;
    var pre := Header(9, f.misc, |rec|) + Front(a, f);
    assert rec == pre + Stack(a, f);
    StackFields(a, f, pre);
    TrimmedFront(a, f, keep);
    var pos := |pre|;
    assert NewSize(rec, n, keep) == |rec| - (n - keep);
    assert rec[..6] == ToBytes(9, 4) + ToBytes(f.misc, 2);
    assert rec[8..pos] == Front(a, f);
    assert rec[pos + 8..pos + 8 + keep] == rec[pos + 8..pos + 8 + n][..keep] == f.stack[..keep];
  }

  /**
   * What becomes of a sample, by its own fields. A sample of the excluded process is passed over.
   * With large stacks configured, a sample is lost while the free space is below the critical level;
   * otherwise it keeps the valid part of its stack, no more than 1024 bytes while the free space is
   * below the low level and no more than the configured size above it.
   */
  lemma SampleIsTrimmed(c: Config, f: Sample, ans: Answer)
    requires ConfigOk(c) && SampleOk(c.attr, f) && |Layout(c.attr, f)| < 0x1_0000
    ensures |Layout(c.attr, f)| >= HEADER_SIZE
    ensures var rec := Layout(c.attr, f);
            var o := Decide(c, rec, ans);
            var valid := if f.valid == 0 then |f.stack| else f.valid;
            var most := if ans.free < c.lowLevel then 1024 else c.stackSize;
            if c.excludePid != -1 && f.pid == c.excludePid then o == Excluded
            else if c.stackSize > 1024 && ans.free < c.criticalLevel then o == Lost
            else if c.stackSize <= 1024 || (|f.stack| <= valid && |f.stack| <= most)
                 then o == if ans.fits(|rec|) then Stored(rec) else Lost
            else && 0 < Min(valid, most) < |f.stack| && SampleOk(c.attr, Trimmed(f, Min(valid, most)))
                 && var cut := Layout(c.attr, Trimmed(f, Min(valid, most)));
                    o == if ans.fits(|cut|) then Cut(cut, most < valid) else Lost
  {
    hide Layout, Value, StackSizePos, PidPos, HeaderType, Shorten, RecordOk, NewSize, SampleOk, TimeOf;
    FieldsAreFound(c.attr, f);
    RecordLength(c.attr, Layout(c.attr, f));
    var valid: nat := if f.valid == 0 then |f.stack| else f.valid;
    var keep: nat := Min(valid, if ans.free < c.lowLevel then 1024 else c.stackSize);
    if c.stackSize > 1024 && keep < |f.stack| {
      ShortenIsTrim(c.attr, f, keep);
    }
  }

  // -------------------------------------------------------------------- other records

  /** What perf appends to other records when sample_id_all is set. */
  datatype SampleId = SampleId(pid: nat, tid: nat, time: u64, id: u64, streamId: u64, cpu: u64, identifier: u64)

  function BehindTime(a: Attr, t: SampleId): seq<byte>
  {
    Opt(a.id, Word(t.id)) + Opt(a.streamId, Word(t.streamId)) + Opt(a.cpu, Word(t.cpu)) + Opt(a.identifier, Word(t.identifier))
  }

  function Trailer(a: Attr, t: SampleId): seq<byte>
  {
    Opt(a.tid, ToBytes(t.pid, 4) + ToBytes(t.tid, 4)) + Opt(a.time, Word(t.time)) + BehindTime(a, t)
  }

  function OtherRecord(a: Attr, kind: nat, misc: nat, body: seq<byte>, t: SampleId): seq<byte>
  {
    var tail := Opt(a.sampleIdAll, Trailer(a, t));
    Header(kind, misc, 8 + |body| + |tail|) + body + tail
  }

  /**
   * Any other record goes by the time in its trailer. It goes by the time of the record before it if
   * it has no such field, or if nothing stands between the header and that field.
   */
  lemma TrailerTime(a: Attr, kind: nat, misc: nat, body: seq<byte>, t: SampleId, before: nat)
    requires kind != 9 && kind < 0x1_0000_0000 && |OtherRecord(a, kind, misc, body, t)| < 0x1_0000
    ensures var rec := OtherRecord(a, kind, misc, body, t);
            && RecordOk(a, rec) && HeaderType(rec) == kind
            && TimeOf(a, rec, before) == if a.sampleIdAll && a.time && (body != [] || a.tid) then t.time else before
  {
    hide Value, HeaderType, HeaderBytes, Header, TimeRposInNonSample, Opt, Trailer;
    var rec, tail := OtherRecord(a, kind, misc, body, t), Opt(a.sampleIdAll, Trailer(a, t));
    var h := Header(kind, misc, |rec|);
    assert rec == h + (body + tail) == h + body + tail;
    HeaderFields(kind, misc, |rec|, body + tail);
    if a.sampleIdAll && a.time {
      OptHere(Trailer(a, t));
      TimeInTrailer(a, t, h + body);
    } else {
      NoTrailerTime(a);
    }
  }

  lemma NoTrailerTime(a: Attr)
    requires !(a.sampleIdAll && a.time)
    ensures TimeRposInNonSample(a) == 0
  {
  }

  lemma TimeInTrailer(a: Attr, t: SampleId, pre: seq<byte>)
    requires a.sampleIdAll && a.time
    ensures var rec, back := pre + Trailer(a, t), TimeRposInNonSample(a);
            && 8 <= back <= |rec| - |pre| && Value(rec, |rec| - back, 8) == t.time
            && (back == |rec| - |pre| <==> !a.tid)
  {
    hide Value, ToBytes, Opt, BehindTime, Fits, Bit;
    TrailerLengths(a, t);
    FitsEight(t.time);
    OptHere(Word(t.time));
    var rec, pids, after := pre + Trailer(a, t), Opt(a.tid, ToBytes(t.pid, 4) + ToBytes(t.tid, 4)), BehindTime(a, t);
    assert rec == pre + pids + Word(t.time) + after;
    FieldAt(rec, pre + pids, t.time, 8, after);
  }

  lemma TrailerLengths(a: Attr, t: SampleId)
    requires a.sampleIdAll && a.time
    ensures |BehindTime(a, t)| + 8 == TimeRposInNonSample(a)
    ensures |Opt(a.tid, ToBytes(t.pid, 4) + ToBytes(t.tid, 4))| == if a.tid then 8 else 0
  {
    hide Word, Opt, ToBytes;
  }
}
