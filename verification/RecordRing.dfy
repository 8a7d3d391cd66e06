/**
 * RecordBuffer: the byte ring between the thread that drains the kernel buffers (the
 * writer) and the main thread (the reader). Every atomic load or store of a head and
 * every copied byte is one step, and the two threads interleave freely. A load of the
 * other side's head may return any value stored since the last one that thread saw.
 */
module RecordRing {
  import opened Common

  const HEADER_SIZE: nat := 8            // sizeof(perf_event_header)
  const PERF_RECORD_AUXTRACE: nat := 71
  const Zeros: seq<byte> := [0, 0, 0, 0, 0, 0, 0, 0]

  // ---------------------------------------------------------------- records

  function HeaderType(h: seq<byte>): nat
    requires |h| >= HEADER_SIZE
  {
    Field(h, 0, 4)
  }

  function HeaderBytes(h: seq<byte>): nat
    requires |h| >= HEADER_SIZE
  {
    h[6] as int + 256 * h[7] as int
  }

  /** Bytes that follow the record proper: aux trace data travels behind its record. */
  function AuxBytes(r: seq<byte>): nat
    requires |r| >= HEADER_SIZE && (HeaderType(r) == PERF_RECORD_AUXTRACE ==> |r| >= 16)
  {
    if HeaderType(r) == PERF_RECORD_AUXTRACE then Field(r, 8, 8) else 0
  }

  /** What the writer puts in the ring: its length is the one its header, and its aux size, tell. */
  predicate IsRecord(r: seq<byte>)
  {
    && |r| >= HEADER_SIZE
    && HeaderBytes(r) >= (if HeaderType(r) == PERF_RECORD_AUXTRACE then 16 else HEADER_SIZE)
    && |r| >= HeaderBytes(r)
    && |r| == HeaderBytes(r) + AuxBytes(r)
  }

  predicate IsMultiple(x: nat, unit: nat)
  {
    unit > 0 && x % unit == 0
  }

  lemma MultipleSum(x: nat, y: nat, unit: nat)
    requires IsMultiple(x, unit) && IsMultiple(y, unit)
    ensures IsMultiple(x + y, unit)
  {
    DivModUnique(x + y, unit, x / unit + y / unit, 0);
  }

  /** Neighbours are not both multiples of 2 or more. */
  lemma NotNeighbours(x: nat, unit: nat)
    requires unit >= 2 && IsMultiple(x, unit)
    ensures !IsMultiple(x + 1, unit)
  {
    DivModUnique(x + 1, unit, x / unit, 1);
  }

  // ------------------------------------------------ arithmetic of RecordBuffer

  function WriteTail(size: nat, readHead: nat): nat
    requires size > 0
  {
    if readHead > 0 then readHead - 1 else size - 1
  }

  function GetFreeSize(size: nat, writeHead: nat, readHead: nat): nat
    requires writeHead < size && readHead < size
  {
    var tail := WriteTail(size, readHead);
    if writeHead <= tail then tail - writeHead else size - writeHead + tail
  }

  datatype Space = Full | Space(at: nat, advance: nat, marker: bool)

  /** AllocWriteSpace: where to write, how far FinishWrite will move, whether a zero header is left. */
  function AllocWriteSpace(size: nat, writeHead: nat, readHead: nat, n: nat): Space
    requires writeHead < size && readHead < size
  {
    var tail := WriteTail(size, readHead);
    if writeHead < tail then
      if writeHead + n > tail then Full else Space(writeHead, n, false)
    else if writeHead + n > size then
      if tail < n then Full
      else Space(0, n + size - writeHead, size - writeHead >= HEADER_SIZE)
    else
      Space(writeHead, n, false)
  }

  // ------------------------------------------------------------ state machine

  /** A stored head: the value in memory, and how often that head has gone round (not in memory). */
  datatype Head = Head(value: nat, lap: nat)

  function Advance(size: nat, h: Head, n: nat): Head
    requires size > 0
  {
    Head((h.value + n) % size, h.lap + (h.value + n) / size)
  }

  datatype Writer =
    | Waiting
    | Allocating(rec: seq<byte>)
    | Marking(rec: seq<byte>, done: nat)
    | Copying(rec: seq<byte>, at: nat, done: nat)

  datatype Reader =
    | Moving
    | Loading
    | Peeking(writeHead: nat, got: seq<byte>)
    | PeekingStart(got: seq<byte>)
    | Taking(at: nat, got: seq<byte>, need: nat, auxAdded: bool)

  datatype State = State(
    size: nat,
    unit: nat,             // the buffer size and every record size are multiples of it
    buffer: seq<byte>,
    readHeads: seq<Head>,      // every value read_head_ has held
    writeHeads: seq<Head>,     // every value write_head_ has held
    writer: Writer,
    curWrite: nat,         // cur_write_record_size_
    seenRead: nat,         // the newest element of readHeads the writer has loaded
    reader: Reader,
    curRead: nat,          // cur_read_record_size_
    seenWrite: nat,        // the newest element of writeHeads the reader has loaded
    log: seq<seq<byte>>,   // records whose write was finished
    out: seq<seq<byte>>)   // records the reader has copied out

  datatype Step =
    | WOffer(rec: seq<byte>)
    | WLoad(k: nat)        // load both heads; read_head_ yields readHeads[k]
    | WMark                // one byte of the zero header
    | WCopy                // one byte of the record
    | WFinish
    | RMove
    | RLoad(k: nat)        // write_head_ yields writeHeads[k]
    | RPeek
    | RDecide
    | RTake
    | RTaken

  function Init(size: nat, unit: nat, bytes: seq<byte>): State
  {
    State(size, unit, bytes, [Head(0, 0)], [Head(0, 0)], Waiting, 0, 0, Moving, 0, 0, [], [])
  }

  function Last<T>(s: seq<T>): T
    requires |s| > 0
  {
    s[|s| - 1]
  }

  ghost predicate Enabled(s: State, e: Step)
  {
    match e
    case WOffer(rec) => s.writer.Waiting? && IsRecord(rec) && IsMultiple(|rec|, s.unit)
    case WLoad(k) => s.writer.Allocating? && s.seenRead <= k < |s.readHeads|
    case WMark => s.writer.Marking? && s.writer.done < HEADER_SIZE
    case WCopy =>
      || (s.writer.Copying? && s.writer.done < |s.writer.rec|)
      || (s.writer.Marking? && s.writer.done == HEADER_SIZE)
    case WFinish => s.writer.Copying? && s.writer.done == |s.writer.rec|
    case RMove => s.reader.Moving?
    case RLoad(k) => s.reader.Loading? && s.seenWrite <= k < |s.writeHeads|
    case RPeek =>
      || (s.reader.Peeking? && |s.reader.got| < HEADER_SIZE)
      || (s.reader.PeekingStart? && |s.reader.got| < HEADER_SIZE)
    case RDecide =>
      || (s.reader.Peeking? && |s.reader.got| == HEADER_SIZE)
      || (s.reader.PeekingStart? && |s.reader.got| == HEADER_SIZE)
    case RTake => s.reader.Taking? && |s.reader.got| < s.reader.need
    case RTaken => s.reader.Taking? && |s.reader.got| == s.reader.need
  }

  /** The shape a state needs for its next step to be defined; Inv implies it. */
  ghost predicate Shape(s: State)
  {
    && s.size > 0
    && |s.buffer| == s.size
    && |s.readHeads| > 0 && |s.writeHeads| > 0
    && (forall h :: h in s.readHeads ==> h.value < s.size)
    && (forall h :: h in s.writeHeads ==> h.value < s.size)
    && (s.writer.Marking? ==> Last(s.writeHeads).value + HEADER_SIZE <= s.size)
    && (s.writer.Copying? ==> s.writer.at + |s.writer.rec| <= s.size)
    && (s.reader.Peeking? && |s.reader.got| < HEADER_SIZE ==> Last(s.readHeads).value + HEADER_SIZE <= s.size)
    && (s.reader.PeekingStart? ==> HEADER_SIZE <= s.size)
    && (s.reader.Taking? ==>
          s.reader.at + s.reader.need <= s.size && (s.reader.auxAdded || s.reader.need >= HEADER_SIZE)
          && (|s.reader.got| == s.reader.need && !s.reader.auxAdded && HeaderType(s.reader.got) == PERF_RECORD_AUXTRACE
              ==> |s.reader.got| >= 16))
  }

  /** The address a writer step stores a byte to. */
  ghost predicate Stores(s: State, e: Step)
  {
    Shape(s) && Enabled(s, e) && (e.WMark? || (e.WCopy? && s.writer.Copying?))
  }

  ghost function StoreAddress(s: State, e: Step): nat
    requires Stores(s, e)
  {
    if e.WMark? then Last(s.writeHeads).value + s.writer.done else s.writer.at + s.writer.done
  }

  ghost function Do(s: State, e: Step): State
    requires Shape(s) && Enabled(s, e)
  {
    match e
    case WOffer(rec) => s.(writer := Allocating(rec))
    case WLoad(k) =>
      var rec := s.writer.rec;
      var space := AllocWriteSpace(s.size, Last(s.writeHeads).value, s.readHeads[k].value, |rec|);
      (match space
       case Full => s.(writer := Waiting, curWrite := |rec|, seenRead := k)
       case Space(at, advance, marker) =>
         s.(writer := if marker then Marking(rec, 0) else Copying(rec, at, 0),
            curWrite := advance, seenRead := k))
    case WMark =>
      s.(buffer := s.buffer[StoreAddress(s, e) := Zeros[s.writer.done]], writer := Marking(s.writer.rec, s.writer.done + 1))
    case WCopy =>
      if s.writer.Marking? then s.(writer := Copying(s.writer.rec, 0, 0))
      else s.(buffer := s.buffer[StoreAddress(s, e) := s.writer.rec[s.writer.done]],
              writer := Copying(s.writer.rec, s.writer.at, s.writer.done + 1))
    case WFinish =>
      s.(writeHeads := s.writeHeads + [Advance(s.size, Last(s.writeHeads), s.curWrite)],
         writer := Waiting, log := s.log + [s.writer.rec])
    case RMove =>
      s.(readHeads := s.readHeads + [Advance(s.size, Last(s.readHeads), s.curRead)],
         curRead := 0, reader := Loading)
    case RLoad(k) =>
      var writeHead, readHead := s.writeHeads[k].value, Last(s.readHeads).value;
      var s1 := s.(seenWrite := k);
      if readHead == writeHead then s1.(reader := Moving)
      else if readHead > writeHead && s.size - readHead < HEADER_SIZE then
        s1.(curRead := s.curRead + s.size - readHead, reader := PeekingStart([]))
      else s1.(reader := Peeking(writeHead, []))
    case RPeek =>
      if s.reader.Peeking? then
        s.(reader := Peeking(s.reader.writeHead,
                             s.reader.got + [s.buffer[Last(s.readHeads).value + |s.reader.got|]]))
      else
        s.(reader := PeekingStart(s.reader.got + [s.buffer[|s.reader.got|]]))
    case RDecide =>
      var readHead, n := Last(s.readHeads).value, HeaderBytes(s.reader.got);
      if s.reader.PeekingStart? then s.(curRead := s.curRead + n, reader := Taking(0, [], n, false))
      else if readHead > s.reader.writeHead && n == 0 then
        s.(curRead := s.curRead + s.size - readHead, reader := PeekingStart([]))
      else s.(curRead := s.curRead + n, reader := Taking(readHead, [], n, false))
    case RTake =>
      s.(reader := s.reader.(got := s.reader.got + [s.buffer[s.reader.at + |s.reader.got|]]))
    case RTaken =>
      if !s.reader.auxAdded && HeaderType(s.reader.got) == PERF_RECORD_AUXTRACE then
        var aux := AuxBytes(s.reader.got);
        s.(curRead := s.curRead + aux, reader := s.reader.(need := s.reader.need + aux, auxAdded := true))
      else
        s.(out := s.out + [s.reader.got], reader := Moving)
  }

  /** The state after a run, or None when some step of it was not possible. */
  ghost function Run(s: State, run: seq<Step>): Option<State>
    decreases |run|
  {
    if run == [] then Some(s)
    else
      var before := Run(s, run[..|run| - 1]);
      if before.Some? && Shape(before.value) && Enabled(before.value, Last(run))
      then Some(Do(before.value, Last(run))) else None
  }

  // ----------------------------------------------------------- ring positions

  predicate Before(p: Head, q: Head)
  {
    p.lap < q.lap || (p.lap == q.lap && p.value < q.value)
  }

  predicate NotAfter(p: Head, q: Head)
  {
    p == q || Before(p, q)
  }

  /** q is p or less than one lap ahead of it. */
  predicate WithinLap(p: Head, q: Head)
  {
    (q.lap == p.lap && p.value <= q.value) || (q.lap == p.lap + 1 && q.value < p.value)
  }

  /** Address `a` holds a byte of the stretch from p up to q. */
  predicate Covers(p: Head, q: Head, a: nat)
  {
    if p.lap == q.lap then p.value <= a < q.value else p.value <= a || a < q.value
  }

  /** Where a record of n bytes goes that is written when the head is h. */
  function DataAt(size: nat, h: Head, n: nat): nat
  {
    if h.value + n <= size then h.value else 0
  }

  /** The head after that record. */
  function After(size: nat, h: Head, n: nat): Head
  {
    if h.value + n < size then Head(h.value + n, h.lap)
    else if h.value + n == size then Head(0, h.lap + 1)
    else Head(n, h.lap + 1)
  }

  /** What is added to the head to get there. */
  function Distance(size: nat, h: Head, n: nat): nat
    requires h.value <= size
  {
    if h.value + n <= size then n else n + size - h.value
  }

  lemma AdvanceMeetsAfter(size: nat, h: Head, n: nat)
    requires size > 0 && h.value < size && n < size
    ensures Advance(size, h, Distance(size, h, n)) == After(size, h, n)
  {
    var d := Distance(size, h, n);
    if h.value + d < size {
      DivModUnique(h.value + d, size, 0, h.value + d);
    } else {
      DivModUnique(h.value + d, size, 1, h.value + d - size);
    }
  }

  /**
   * A grant is safe exactly when the write head is not one byte behind the read head: then the
   * ring is full, but line 53 does not see it.
   */
  lemma AllocSafeIff(size: nat, write: Head, read: Head, n: nat)
    requires write.value < size && read.value < size && WithinLap(read, write) && n > 0
    requires AllocWriteSpace(size, write.value, read.value, n).Space?
    ensures WithinLap(read, After(size, write, n)) && n < size
       <==> write.value != WriteTail(size, read.value)
  {
  }

  /**
   * When space is granted: where the record, at the end or wrapped around to the start, keeps the heads
   * within one lap; and also in the case that AllocSafeIff names, if the record would fit an empty ring.
   */
  lemma GrantedIff(size: nat, write: Head, read: Head, n: nat)
    requires write.value < size && read.value < size && WithinLap(read, write) && n > 0
    ensures AllocWriteSpace(size, write.value, read.value, n).Space? <==>
              || (n < size && WithinLap(read, After(size, write, n)))
              || ((write.value + 1) % size == read.value && (write.value + n <= size || n < read.value || (read.value == 0 && n < size)))
  {
    if write.value + 1 < size {
      DivModUnique(write.value + 1, size, 0, write.value + 1);
    } else {
      DivModUnique(write.value + 1, size, 1, 0);
    }
  }

  /**
   * In a ring of 32 bytes, records of 10, 22 and 9 bytes fit when the first has been read: the
   * heads are then at 10 and 9. Eight more bytes are granted on top of the second record.
   */
  lemma UnsafeGrant()
    ensures var start := Head(0, 0);
            var read := After(32, start, 10);
            var write := After(32, After(32, read, 22), 9);
            && AllocWriteSpace(32, 0, 0, 10) == Space(0, 10, false)
            && AllocWriteSpace(32, 10, 10, 22) == Space(10, 22, false)
            && AllocWriteSpace(32, 0, 10, 9) == Space(0, 9, false)
            && read.value == 10 && write.value == 9 && WithinLap(read, write)
            && AllocWriteSpace(32, write.value, read.value, 8) == Space(9, 8, false)
            && Covers(read, write, 10) && !WithinLap(read, After(32, write, 8))
  {
  }

  /**
   * With sizes that have a common divisor of 2 or more, AllocWriteSpace grants space exactly if the
   * head that FinishWrite will store stays less than one lap ahead of the read head; the spot is the
   * one DataAt names.
   */
  lemma AllocIsSafe(size: nat, unit: nat, write: Head, read: Head, n: nat)
    requires unit >= 2 && IsMultiple(size, unit) && IsMultiple(write.value, unit) && IsMultiple(read.value, unit) && n > 0
    requires write.value < size && read.value < size && WithinLap(read, write)
    ensures var space := AllocWriteSpace(size, write.value, read.value, n);
            && (space.Space? <==> n < size && WithinLap(read, After(size, write, n)))
            && (space.Space? ==>
              && space.at == DataAt(size, write, n) && space.advance == Distance(size, write, n)
              && space.marker == (write.value + n > size && write.value + HEADER_SIZE <= size))
  {
    NotNeighbours(write.value, unit);
    hide IsMultiple;
    if AllocWriteSpace(size, write.value, read.value, n).Space? {
      AllocSafeIff(size, write, read, n);
    }
  }

  /** GetFreeSize is the room left before the write head would reach the read head again. */
  lemma FreeSizeIsRoom(size: nat, write: Head, read: Head)
    requires write.value < size && read.value < size && WithinLap(read, write)
    ensures GetFreeSize(size, write.value, read.value)
         == size - 1 - (if write.lap == read.lap then write.value - read.value else size + write.value - read.value)
  {
  }

  // ---------------------------------------------------------------- invariant

  ghost function ReadHead(s: State): Head requires |s.readHeads| > 0 { Last(s.readHeads) }

  ghost function WriteHead(s: State): Head requires |s.writeHeads| > 0 { Last(s.writeHeads) }

  ghost predicate HeadsOk(size: nat, unit: nat, hs: seq<Head>)
  {
    && |hs| > 0
    && forall i :: 0 <= i < |hs| ==> hs[i].value < size && IsMultiple(hs[i].value, unit)
  }

  ghost predicate NeverBack(hs: seq<Head>)
  {
    forall i, j :: 0 <= i < j < |hs| ==> NotAfter(hs[i], hs[j])
  }

  ghost predicate Ascending(hs: seq<Head>)
  {
    forall i, j :: 0 <= i < j < |hs| ==> Before(hs[i], hs[j])
  }

  /** Record `rec`, written from head `from`, is in the ring with its wrap marker if it needed one. */
  ghost predicate Placed(size: nat, buffer: seq<byte>, from: Head, rec: seq<byte>)
  {
    && |buffer| == size && from.value < size
    && IsRecord(rec) && |rec| < size
    && buffer[DataAt(size, from, |rec|)..DataAt(size, from, |rec|) + |rec|] == rec
    && (from.value + |rec| > size ==> MarkerAt(size, buffer, from.value))
  }

  ghost predicate MarkerAt(size: nat, buffer: seq<byte>, at: nat)
    requires |buffer| == size
  {
    at + HEADER_SIZE <= size ==> buffer[at + 6] == 0 && buffer[at + 7] == 0
  }

  /** The heads are where the finished records put them. */
  ghost predicate HeadsFollowLog(size: nat, hs: seq<Head>, log: seq<seq<byte>>)
  {
    && |hs| == |log| + 1
    && forall i :: 0 <= i < |log| ==> hs[i + 1] == After(size, hs[i], |log[i]|)
  }

  /** Every record from the read head on is in the ring. */
  ghost predicate Stored(size: nat, buffer: seq<byte>, read: Head, hs: seq<Head>, log: seq<seq<byte>>)
    requires |hs| == |log| + 1
  {
    forall i :: 0 <= i < |log| && NotAfter(read, hs[i]) ==> Placed(size, buffer, hs[i], log[i])
  }

  ghost predicate WriterOk(size: nat, buffer: seq<byte>, w: Head, seen: Head, curWrite: nat, writer: Writer)
    requires |buffer| == size && w.value < size
  {
    && WithinLap(seen, w)
    && match writer
       case Waiting => true
       case Allocating(rec) => IsRecord(rec)
       case Marking(rec, done) =>
         && Granted(size, w, seen, curWrite, rec)
         && w.value + |rec| > size && w.value + HEADER_SIZE <= size
         && done <= HEADER_SIZE
         && buffer[w.value..w.value + done] == Zeros[..done]
       case Copying(rec, at, done) =>
         && Granted(size, w, seen, curWrite, rec)
         && at == DataAt(size, w, |rec|) && done <= |rec|
         && buffer[at..at + done] == rec[..done]
         && (w.value + |rec| > size ==> MarkerAt(size, buffer, w.value))
  }

  ghost predicate Granted(size: nat, w: Head, seen: Head, curWrite: nat, rec: seq<byte>)
    requires w.value < size
  {
    && IsRecord(rec) && |rec| < size
    && curWrite == Distance(size, w, |rec|)
    && WithinLap(seen, After(size, w, |rec|))
  }

  /** `hs[k]` is the head the next record to read was written from. */
  ghost predicate ReaderOk(size: nat, buffer: seq<byte>, r: Head, hs: seq<Head>, log: seq<seq<byte>>,
                           k: nat, seen: nat, curRead: nat, reader: Reader)
    requires |buffer| == size && |hs| == |log| + 1 && r.value < size
  {
    && k <= seen < |hs|
    && match reader
       case Moving => (r == hs[k] && curRead == 0) || (k > 0 && r == hs[k - 1] && curRead == Distance(size, r, |log[k - 1]|))
       case Loading => r == hs[k] && curRead == 0
       case Peeking(writeHead, got) =>
         && r == hs[k] && curRead == 0
         && k < seen && writeHead == hs[seen].value
         && |got| <= HEADER_SIZE && r.value + HEADER_SIZE <= size
         && got == buffer[r.value..r.value + |got|]
       case PeekingStart(got) =>
         && r == hs[k] && k < seen
         && r.value + |log[k]| > size && curRead == size - r.value
         && |got| <= HEADER_SIZE <= size
         && got == buffer[..|got|]
       case Taking(at, got, need, auxAdded) =>
         && r == hs[k] && k < seen
         && IsRecord(log[k]) && |log[k]| < size
         && at == DataAt(size, r, |log[k]|)
         && |got| <= need <= |log[k]|
         && got == log[k][..|got|]
         && need == (if auxAdded then |log[k]| else HeaderBytes(log[k]))
         && curRead == Distance(size, r, |log[k]|) - |log[k]| + need
  }

  ghost predicate Inv(s: State)
  {
    && s.size > 0 && s.unit >= 2 && IsMultiple(s.size, s.unit) && |s.buffer| == s.size
    && HeadsOk(s.size, s.unit, s.readHeads) && HeadsOk(s.size, s.unit, s.writeHeads)
    && NeverBack(s.readHeads) && Ascending(s.writeHeads)
    && HeadsFollowLog(s.size, s.writeHeads, s.log)
    && Stored(s.size, s.buffer, ReadHead(s), s.writeHeads, s.log)
    && s.seenRead < |s.readHeads|
    && NotAfter(ReadHead(s), WriteHead(s))
    && WriterOk(s.size, s.buffer, WriteHead(s), s.readHeads[s.seenRead], s.curWrite, s.writer)
    && (!s.writer.Waiting? ==> IsMultiple(|s.writer.rec|, s.unit))
    && s.out <= s.log
    && ReaderOk(s.size, s.buffer, ReadHead(s), s.writeHeads, s.log, |s.out|, s.seenWrite, s.curRead, s.reader)
  }

  /** A long enough front of a record has the record's type and sizes. */
  lemma FrontAgrees(r: seq<byte>, n: nat)
    requires HEADER_SIZE <= n <= |r|
    ensures HeaderType(r[..n]) == HeaderType(r) && HeaderBytes(r[..n]) == HeaderBytes(r)
    ensures n >= 16 ==> Field(r[..n], 8, 8) == Field(r, 8, 8)
  {
    assert r[..n][0..4] == r[0..4];
    if n >= 16 { assert r[..n][8..16] == r[8..16]; }
  }

  lemma InvImpliesShape(s: State)
    requires Inv(s)
    ensures Shape(s)
  {
    hide IsMultiple;
    if s.reader.Taking? && |s.reader.got| >= HEADER_SIZE {
      FrontAgrees(s.log[|s.out|], |s.reader.got|);
    }
  }

  /** No run is cut short because a step would be undefined. */
  lemma EveryStateHasShape(size: nat, unit: nat, bytes: seq<byte>, run: seq<Step>)
    requires size > 0 && unit >= 2 && IsMultiple(size, unit) && |bytes| == size
    requires Run(Init(size, unit, bytes), run).Some?
    ensures Shape(Run(Init(size, unit, bytes), run).value)
  {
    hide Shape, Inv, IsMultiple;
    RunKeepsInv(size, unit, bytes, run);
    InvImpliesShape(Run(Init(size, unit, bytes), run).value);
  }

  lemma InitInv(size: nat, unit: nat, bytes: seq<byte>)
    requires size > 0 && unit >= 2 && IsMultiple(size, unit) && |bytes| == size
    ensures Inv(Init(size, unit, bytes))
  {
    DivModUnique(0, unit, 0, 0);
  }

  // ------------------------------------------------------------ writer steps

  /** What the writer was granted does not meet what is still to be read. */
  lemma GrantAvoidsUnread(size: nat, w: Head, seen: Head, r: Head, n: nat, a: nat)
    requires w.value < size && r.value < size && 0 < n < size
    requires WithinLap(seen, After(size, w, n)) && NotAfter(seen, r) && NotAfter(r, w)
    requires DataAt(size, w, n) <= a < DataAt(size, w, n) + n || (w.value + n > size && w.value <= a < size)
    ensures !Covers(r, w, a)
  {
  }

  /** No writer step stores into a byte between read_head_ and write_head_. */
  lemma StoreAvoidsUnread(s: State, e: Step)
    requires Inv(s) && Stores(s, e)
    ensures !Covers(ReadHead(s), WriteHead(s), StoreAddress(s, e))
  {
    GrantAvoidsUnread(s.size, WriteHead(s), s.readHeads[s.seenRead], ReadHead(s), |s.writer.rec|, StoreAddress(s, e));
  }

  lemma SliceKept(buffer: seq<byte>, a: nat, v: byte, lo: nat, hi: nat)
    requires lo <= hi <= |buffer| && a < |buffer|
    requires !(lo <= a < hi)
    ensures buffer[a := v][lo..hi] == buffer[lo..hi]
  {
  }

  /** The bytes of a record between r and w are all covered by them. */
  lemma RecordCovered(size: nat, r: Head, w: Head, from: Head, n: nat)
    requires from.value < size && r.value < size && w.value < size && 0 < n < size
    requires WithinLap(r, w) && NotAfter(r, from) && NotAfter(After(size, from, n), w)
    ensures forall a :: DataAt(size, from, n) <= a < DataAt(size, from, n) + n ==> Covers(r, w, a)
    ensures from.value + n > size ==> forall a :: from.value <= a < size ==> Covers(r, w, a)
  {
  }

  lemma PlacedKept(size: nat, buffer: seq<byte>, a: nat, v: byte, r: Head, w: Head, from: Head, rec: seq<byte>)
    requires a < size == |buffer| && !Covers(r, w, a)
    requires Placed(size, buffer, from, rec)
    requires r.value < size && w.value < size
    requires WithinLap(r, w) && NotAfter(r, from) && NotAfter(After(size, from, |rec|), w)
    ensures Placed(size, buffer[a := v], from, rec)
  {
    RecordCovered(size, r, w, from, |rec|);
    var at := DataAt(size, from, |rec|);
    SliceKept(buffer, a, v, at, at + |rec|);
  }

  lemma UnreadWithinLap(s: State)
    requires Inv(s)
    ensures WithinLap(ReadHead(s), WriteHead(s))
    ensures forall i :: 0 <= i < |s.writeHeads| ==> NotAfter(s.writeHeads[i], WriteHead(s))
  {
  }

  lemma StoredKept(size: nat, unit: nat, buffer: seq<byte>, a: nat, v: byte, r: Head, hs: seq<Head>, log: seq<seq<byte>>)
    requires a < size == |buffer| && r.value < size
    requires HeadsFollowLog(size, hs, log) && Ascending(hs) && HeadsOk(size, unit, hs)
    requires WithinLap(r, Last(hs)) && !Covers(r, Last(hs), a)
    requires Stored(size, buffer, r, hs, log)
    ensures Stored(size, buffer[a := v], r, hs, log)
  {
    forall i | 0 <= i < |log| && NotAfter(r, hs[i])
      ensures Placed(size, buffer[a := v], hs[i], log[i])
    {
      assert NotAfter(hs[i + 1], Last(hs));
      PlacedKept(size, buffer, a, v, r, Last(hs), hs[i], log[i]);
    }
  }

  lemma ReaderKept(size: nat, unit: nat, buffer: seq<byte>, a: nat, v: byte, r: Head, hs: seq<Head>, log: seq<seq<byte>>,
                   k: nat, seen: nat, curRead: nat, reader: Reader)
    requires a < size == |buffer| && r.value < size
    requires HeadsFollowLog(size, hs, log) && Ascending(hs) && HeadsOk(size, unit, hs)
    requires WithinLap(r, Last(hs)) && !Covers(r, Last(hs), a)
    requires Stored(size, buffer, r, hs, log)
    requires ReaderOk(size, buffer, r, hs, log, k, seen, curRead, reader)
    ensures ReaderOk(size, buffer[a := v], r, hs, log, k, seen, curRead, reader)
  {
    if reader.Peeking? || reader.PeekingStart? {
      assert NotAfter(hs[k + 1], Last(hs));
      assert Placed(size, buffer, hs[k], log[k]);
      RecordCovered(size, r, Last(hs), r, |log[k]|);
      if reader.Peeking? {
        SliceKept(buffer, a, v, r.value, r.value + |reader.got|);
      } else {
        SliceKept(buffer, a, v, 0, |reader.got|);
      }
    }
  }

  lemma MarkKeepsWriter(size: nat, buffer: seq<byte>, w: Head, seen: Head, curWrite: nat, rec: seq<byte>, done: nat)
    requires |buffer| == size && w.value < size && done < HEADER_SIZE
    requires WriterOk(size, buffer, w, seen, curWrite, Marking(rec, done))
    ensures WriterOk(size, buffer[w.value + done := Zeros[done]], w, seen, curWrite, Marking(rec, done + 1))
  {
    var a := w.value + done;
    assert buffer[a := Zeros[done]][w.value..a + 1] == buffer[w.value..a] + [Zeros[done]];
    assert Zeros[..done + 1] == Zeros[..done] + [Zeros[done]];
  }

  lemma MarkEnds(size: nat, buffer: seq<byte>, w: Head, seen: Head, curWrite: nat, rec: seq<byte>)
    requires |buffer| == size && w.value < size
    requires WriterOk(size, buffer, w, seen, curWrite, Marking(rec, HEADER_SIZE))
    ensures WriterOk(size, buffer, w, seen, curWrite, Copying(rec, 0, 0))
  {
    var m := buffer[w.value..w.value + HEADER_SIZE];
    assert m == Zeros;
    assert m[6] == buffer[w.value + 6] && m[7] == buffer[w.value + 7];
  }

  lemma CopyKeepsWriter(size: nat, buffer: seq<byte>, w: Head, seen: Head, curWrite: nat, rec: seq<byte>, at: nat, done: nat)
    requires |buffer| == size && w.value < size && done < |rec|
    requires WriterOk(size, buffer, w, seen, curWrite, Copying(rec, at, done))
    requires seen.value < size
    ensures WriterOk(size, buffer[at + done := rec[done]], w, seen, curWrite, Copying(rec, at, done + 1))
  {
    var a := at + done;
    assert buffer[a := rec[done]][at..a + 1] == buffer[at..a] + [rec[done]];
    assert rec[..done + 1] == rec[..done] + [rec[done]];
  }

  /** A store outside the unread bytes disturbs neither the records stored nor the reader. */
  lemma StoreKeepsOthers(s: State, a: nat, v: byte, writer: Writer)
    requires Inv(s) && a < s.size && !Covers(ReadHead(s), WriteHead(s), a)
    requires WriterOk(s.size, s.buffer[a := v], WriteHead(s), s.readHeads[s.seenRead], s.curWrite, writer)
    requires writer.Waiting? || IsMultiple(|writer.rec|, s.unit)
    ensures Inv(s.(buffer := s.buffer[a := v], writer := writer))
  {
    UnreadWithinLap(s);
    hide Stored, ReaderOk, WriterOk, IsMultiple, HeadsOk, HeadsFollowLog, Ascending, NeverBack, Covers;
    StoredKept(s.size, s.unit, s.buffer, a, v, ReadHead(s), s.writeHeads, s.log);
    ReaderKept(s.size, s.unit, s.buffer, a, v, ReadHead(s), s.writeHeads, s.log, |s.out|, s.seenWrite, s.curRead, s.reader);
  }

  lemma WriterFacts(s: State)
    requires Inv(s)
    ensures |s.buffer| == s.size && s.seenRead < |s.readHeads| && |s.writeHeads| > 0
    ensures WriteHead(s).value < s.size && s.readHeads[s.seenRead].value < s.size
    ensures WriterOk(s.size, s.buffer, WriteHead(s), s.readHeads[s.seenRead], s.curWrite, s.writer)
    ensures !s.writer.Waiting? ==> IsMultiple(|s.writer.rec|, s.unit)
  {
    hide Stored, WriterOk, ReaderOk, NeverBack, Ascending, HeadsFollowLog;
  }

  lemma MarkKeepsInv(s: State)
    requires Inv(s) && Stores(s, WMark)
    ensures Inv(Do(s, WMark))
  {
    hide Inv, Covers, IsMultiple;
    StoreAvoidsUnread(s, WMark);
    WriterFacts(s);
    var rec, done := s.writer.rec, s.writer.done;
    assert WriteHead(s).value + done < s.size;
    hide WriterOk;
    MarkKeepsWriter(s.size, s.buffer, WriteHead(s), s.readHeads[s.seenRead], s.curWrite, rec, done);
    StoreKeepsOthers(s, WriteHead(s).value + done, Zeros[done], Marking(rec, done + 1));
  }

  lemma CopyKeepsInv(s: State)
    requires Inv(s) && Stores(s, WCopy)
    ensures Inv(Do(s, WCopy))
  {
    hide Inv, Covers, IsMultiple;
    StoreAvoidsUnread(s, WCopy);
    WriterFacts(s);
    var rec, at, done := s.writer.rec, s.writer.at, s.writer.done;
    assert at + done < s.size;
    hide WriterOk;
    CopyKeepsWriter(s.size, s.buffer, WriteHead(s), s.readHeads[s.seenRead], s.curWrite, rec, at, done);
    StoreKeepsOthers(s, at + done, rec[done], Copying(rec, at, done + 1));
  }

  /** A head loaded later is not behind one loaded before, and the write head is still within a lap of it. */
  lemma LoadedHead(s: State, k: nat)
    requires Inv(s) && s.seenRead <= k < |s.readHeads|
    ensures WithinLap(s.readHeads[k], WriteHead(s)) && WriteHead(s).value < s.size && s.readHeads[k].value < s.size
    ensures IsMultiple(WriteHead(s).value, s.unit) && IsMultiple(s.readHeads[k].value, s.unit)
  {
    hide Stored, ReaderOk, HeadsFollowLog, Ascending, IsMultiple;
    assert NotAfter(s.readHeads[s.seenRead], s.readHeads[k]) && NotAfter(s.readHeads[k], ReadHead(s));
  }

  lemma LoadKeepsInv(s: State, e: Step)
    requires Inv(s) && Shape(s) && Enabled(s, e) && e.WLoad?
    ensures Inv(Do(s, e))
  {
    LoadedHead(s, e.k);
    AllocIsSafe(s.size, s.unit, WriteHead(s), s.readHeads[e.k], |s.writer.rec|);
    hide Stored, ReaderOk, HeadsFollowLog, Ascending, IsMultiple, HeadsOk, NeverBack, AllocWriteSpace;
  }

  lemma FinishHeads(size: nat, unit: nat, hs: seq<Head>, log: seq<seq<byte>>, rec: seq<byte>)
    requires HeadsFollowLog(size, hs, log) && Ascending(hs) && HeadsOk(size, unit, hs)
    requires IsMultiple(|rec|, unit) && 0 < |rec| < size
    ensures var h := After(size, Last(hs), |rec|);
            Ascending(hs + [h]) && HeadsOk(size, unit, hs + [h]) && HeadsFollowLog(size, hs + [h], log + [rec])
  {
    DivModUnique(0, unit, 0, 0);
    MultipleSum(Last(hs).value, |rec|, unit);
    hide IsMultiple;
  }

  lemma FinishStored(size: nat, buffer: seq<byte>, r: Head, hs: seq<Head>, log: seq<seq<byte>>, rec: seq<byte>)
    requires |hs| == |log| + 1
    requires Stored(size, buffer, r, hs, log) && Placed(size, buffer, Last(hs), rec)
    ensures Stored(size, buffer, r, hs + [After(size, Last(hs), |rec|)], log + [rec])
  {
  }

  lemma FinishReader(size: nat, buffer: seq<byte>, r: Head, hs: seq<Head>, log: seq<seq<byte>>,
                     k: nat, seen: nat, curRead: nat, reader: Reader, h: Head, rec: seq<byte>)
    requires |buffer| == size && |hs| == |log| + 1 && r.value < size
    requires ReaderOk(size, buffer, r, hs, log, k, seen, curRead, reader)
    ensures ReaderOk(size, buffer, r, hs + [h], log + [rec], k, seen, curRead, reader)
  {
  }

  /** The record just finished is in the ring. */
  lemma FinishPlaced(s: State)
    requires Inv(s) && Enabled(s, WFinish)
    ensures |s.writeHeads| == |s.log| + 1
    ensures var w, rec := WriteHead(s), s.writer.rec;
            && 0 < |rec| < s.size && IsMultiple(|rec|, s.unit)
            && s.curWrite == Distance(s.size, w, |rec|) && Placed(s.size, s.buffer, w, rec)
            && WithinLap(s.readHeads[s.seenRead], w) && WithinLap(s.readHeads[s.seenRead], After(s.size, w, |rec|))
  {
    hide Stored, ReaderOk, Ascending, NeverBack, IsMultiple;
    var rec := s.writer.rec;
    assert rec[..|rec|] == rec;
  }

  lemma FinishKeepsInv(s: State)
    requires Inv(s) && Shape(s) && Enabled(s, WFinish)
    ensures Inv(Do(s, WFinish))
  {
    hide Placed, Stored, ReaderOk, Ascending, HeadsFollowLog, HeadsOk, NeverBack, IsMultiple, Advance, Distance;
    var w, rec := WriteHead(s), s.writer.rec;
    var h := After(s.size, w, |rec|);
    FinishPlaced(s);
    AdvanceMeetsAfter(s.size, w, |rec|);
    FinishHeads(s.size, s.unit, s.writeHeads, s.log, rec);
    FinishStored(s.size, s.buffer, ReadHead(s), s.writeHeads, s.log, rec);
    FinishReader(s.size, s.buffer, ReadHead(s), s.writeHeads, s.log, |s.out|, s.seenWrite, s.curRead, s.reader, h, rec);
  }

  // ------------------------------------------------------------ reader steps

  /** Heads between the read head and the write head are less than one lap from the former. */
  lemma SeenWithinLap(s: State, i: nat)
    requires Inv(s) && i < |s.writeHeads| && NotAfter(ReadHead(s), s.writeHeads[i])
    ensures WithinLap(ReadHead(s), s.writeHeads[i])
  {
    UnreadWithinLap(s);
    assert NotAfter(s.writeHeads[i], WriteHead(s));
  }

  lemma MoveTarget(s: State)
    requires Inv(s) && s.reader.Moving?
    ensures Advance(s.size, ReadHead(s), s.curRead) == s.writeHeads[|s.out|]
    ensures NotAfter(ReadHead(s), s.writeHeads[|s.out|])
  {
    var k := |s.out|;
    if s.curRead == 0 && ReadHead(s) == s.writeHeads[k] {
      DivModUnique(ReadHead(s).value, s.size, 0, ReadHead(s).value);
    } else {
      AdvanceMeetsAfter(s.size, ReadHead(s), |s.log[k - 1]|);
      assert s.writeHeads[k - 1 + 1] == After(s.size, s.writeHeads[k - 1], |s.log[k - 1]|);
    }
  }

  /** The read head moves to a head the writer stored, and so to nothing new. */
  lemma MovedHeads(s: State)
    requires Inv(s) && s.reader.Moving?
    ensures var h := s.writeHeads[|s.out|];
            && HeadsOk(s.size, s.unit, s.readHeads + [h]) && NeverBack(s.readHeads + [h]) && NotAfter(h, WriteHead(s))
            && Stored(s.size, s.buffer, h, s.writeHeads, s.log)
  {
    hide WriterOk, Placed, HeadsFollowLog, IsMultiple;
    MoveTarget(s);
  }

  lemma MoveKeepsInv(s: State)
    requires Inv(s) && Shape(s) && Enabled(s, RMove)
    ensures Inv(Do(s, RMove))
  {
    hide Stored, WriterOk, NeverBack, Ascending, HeadsFollowLog, HeadsOk, IsMultiple, Advance, NotAfter;
    MoveTarget(s);
    MovedHeads(s);
  }

  /** Steps that move only the reader on. */
  lemma ReaderOnly(s: State, seen: nat, curRead: nat, reader: Reader, out: seq<seq<byte>>)
    requires Inv(s) && out <= s.log
    requires ReaderOk(s.size, s.buffer, ReadHead(s), s.writeHeads, s.log, |out|, seen, curRead, reader)
    ensures Inv(s.(seenWrite := seen, curRead := curRead, reader := reader, out := out))
  {
    hide HeadsOk, NeverBack, Ascending, HeadsFollowLog, Stored, WriterOk, ReaderOk;
  }

  lemma ReaderFacts(s: State)
    requires Inv(s)
    ensures |s.buffer| == s.size && |s.readHeads| > 0 && |s.writeHeads| == |s.log| + 1
    ensures ReadHead(s).value < s.size
    ensures s.out <= s.log
    ensures ReaderOk(s.size, s.buffer, ReadHead(s), s.writeHeads, s.log, |s.out|, s.seenWrite, s.curRead, s.reader)
    ensures |s.out| < |s.log| && ReadHead(s) == s.writeHeads[|s.out|] ==> Placed(s.size, s.buffer, ReadHead(s), s.log[|s.out|])
  {
    hide WriterOk, ReaderOk, NeverBack, Ascending;
  }

  lemma LoadedKeepsInv(s: State, i: nat)
    requires Inv(s) && Shape(s) && Enabled(s, RLoad(i))
    ensures Inv(Do(s, RLoad(i)))
  {
    var r, k := ReadHead(s), |s.out|;
    if r.value != s.writeHeads[i].value {
      LoadedRecord(s, i);
    }
    hide Inv;
    ReaderFacts(s);
    hide Placed;
    var s' := Do(s, RLoad(i));
    ReaderOnly(s, i, s'.curRead, s'.reader, s.out);
  }

  /** A head that differs from the read head means a record; one too near the end for a header has wrapped. */
  lemma LoadedRecord(s: State, i: nat)
    requires Inv(s) && s.reader.Loading? && s.seenWrite <= i < |s.writeHeads| && ReadHead(s).value != s.writeHeads[i].value
    ensures |s.out| < i && HEADER_SIZE <= |s.log[|s.out|]| < s.size
    ensures ReadHead(s).value + |s.log[|s.out|]| > s.size ==> s.writeHeads[i].value < ReadHead(s).value
  {
    var k := |s.out|;
    assert Placed(s.size, s.buffer, s.writeHeads[k], s.log[k]);
    if ReadHead(s).value + |s.log[k]| > s.size {
      WrappedBelow(s, i);
    }
  }

  /** A wrapped record makes every later head lie below the read head. */
  lemma WrappedBelow(s: State, i: nat)
    requires Inv(s) && |s.out| < i < |s.writeHeads| && ReadHead(s) == s.writeHeads[|s.out|]
    requires ReadHead(s).value + |s.log[|s.out|]| > s.size
    ensures s.writeHeads[i].value < ReadHead(s).value
  {
    var k := |s.out|;
    assert s.writeHeads[k + 1] == After(s.size, s.writeHeads[k], |s.log[k]|);
    assert NotAfter(s.writeHeads[k + 1], s.writeHeads[i]);
    SeenWithinLap(s, i);
  }

  lemma PeekKeepsInv(s: State)
    requires Inv(s) && Shape(s) && Enabled(s, RPeek)
    ensures Inv(Do(s, RPeek))
  {
    hide Inv;
    ReaderFacts(s);
    hide Placed;
    ReaderOnly(s, s.seenWrite, s.curRead, Do(s, RPeek).reader, s.out);
  }

  lemma PeekedFront(size: nat, buffer: seq<byte>, from: Head, rec: seq<byte>)
    requires Placed(size, buffer, from, rec)
    ensures var at := DataAt(size, from, |rec|); HeaderBytes(buffer[at..at + HEADER_SIZE]) == HeaderBytes(rec)
  {
    var at := DataAt(size, from, |rec|);
    assert buffer[at..at + |rec|][..HEADER_SIZE] == buffer[at..at + HEADER_SIZE];
    FrontAgrees(rec, HEADER_SIZE);
  }

  lemma DecideKeepsInv(s: State)
    requires Inv(s) && Shape(s) && Enabled(s, RDecide)
    ensures Inv(Do(s, RDecide))
  {
    hide Inv;
    ReaderFacts(s);
    var r, rec, s' := ReadHead(s), s.log[|s.out|], Do(s, RDecide);
    if s.reader.Peeking? && r.value + |rec| > s.size {
      WrappedBelow(s, s.seenWrite);
      assert HeaderBytes(s.reader.got) == 0;
    } else {
      PeekedFront(s.size, s.buffer, r, rec);
    }
    hide HeaderBytes, HeaderType;
    ReaderOnly(s, s.seenWrite, s'.curRead, s'.reader, s.out);
  }

  lemma TakeKeepsInv(s: State)
    requires Inv(s) && Shape(s) && Enabled(s, RTake)
    ensures Inv(Do(s, RTake))
  {
    hide Inv, HeaderBytes, HeaderType;
    ReaderFacts(s);
    var r, rec, got := ReadHead(s), s.log[|s.out|], s.reader.got;
    var at := DataAt(s.size, r, |rec|);
    assert s.buffer[at + |got|] == s.buffer[at..at + |rec|][|got|];
    assert rec[..|got| + 1] == rec[..|got|] + [rec[|got|]];
    ReaderOnly(s, s.seenWrite, s.curRead, Do(s, RTake).reader, s.out);
  }

  lemma TakenKeepsInv(s: State)
    requires Inv(s) && Shape(s) && Enabled(s, RTaken)
    ensures Inv(Do(s, RTaken))
  {
    hide Inv;
    ReaderFacts(s);
    hide Placed;
    var rec, got, s' := s.log[|s.out|], s.reader.got, Do(s, RTaken);
    FrontAgrees(rec, |got|);
    assert rec[..|rec|] == rec;
    hide HeaderBytes, HeaderType;
    ReaderOnly(s, s.seenWrite, s'.curRead, s'.reader, s'.out);
  }

  // ------------------------------------------------------------------ theorems

  lemma StepKeepsInv(s: State, e: Step)
    requires Inv(s) && Shape(s) && Enabled(s, e)
    ensures Inv(Do(s, e))
  {
    match e
    case WOffer(_) => hide Stored, ReaderOk, NeverBack, HeadsFollowLog, Ascending;
    case WLoad(k) => LoadKeepsInv(s, e);
    case WMark => MarkKeepsInv(s);
    case WCopy =>
      if s.writer.Copying? {
        CopyKeepsInv(s);
      } else {
        MarkEnds(s.size, s.buffer, WriteHead(s), s.readHeads[s.seenRead], s.curWrite, s.writer.rec);
      }
    case WFinish => FinishKeepsInv(s);
    case RMove => MoveKeepsInv(s);
    case RLoad(k) => LoadedKeepsInv(s, k);
    case RPeek => PeekKeepsInv(s);
    case RDecide => DecideKeepsInv(s);
    case RTake => TakeKeepsInv(s);
    case RTaken => TakenKeepsInv(s);
  }

  lemma {:induction false} RunKeepsInv(size: nat, unit: nat, bytes: seq<byte>, run: seq<Step>)
    requires size > 0 && unit >= 2 && IsMultiple(size, unit) && |bytes| == size
    requires Run(Init(size, unit, bytes), run).Some?
    ensures Inv(Run(Init(size, unit, bytes), run).value)
    decreases |run|
  {
    if run == [] {
      InitInv(size, unit, bytes);
    } else {
      RunKeepsInv(size, unit, bytes, run[..|run| - 1]);
      hide Inv;
      StepKeepsInv(Run(Init(size, unit, bytes), run[..|run| - 1]).value, Last(run));
    }
  }

  /** Over every interleaving: what the reader got is a front part of what was written, unchanged. */
  lemma ReadsArePrefixOfWrites(size: nat, unit: nat, bytes: seq<byte>, run: seq<Step>)
    requires size > 0 && unit >= 2 && IsMultiple(size, unit) && |bytes| == size
    requires Run(Init(size, unit, bytes), run).Some?
    ensures var s := Run(Init(size, unit, bytes), run).value; s.out <= s.log
  {
    RunKeepsInv(size, unit, bytes, run);
  }

  /** Over every interleaving: the writer never stores between read_head_ and write_head_. */
  lemma WriterNeverTouchesUnread(size: nat, unit: nat, bytes: seq<byte>, run: seq<Step>, e: Step)
    requires size > 0 && unit >= 2 && IsMultiple(size, unit) && |bytes| == size
    requires Run(Init(size, unit, bytes), run).Some? && Stores(Run(Init(size, unit, bytes), run).value, e)
    ensures var s := Run(Init(size, unit, bytes), run).value;
            && |s.readHeads| > 0 && |s.writeHeads| > 0
            && StoreAddress(s, e) < s.size
            && !Covers(ReadHead(s), WriteHead(s), StoreAddress(s, e))
  {
    RunKeepsInv(size, unit, bytes, run);
    StoreAvoidsUnread(Run(Init(size, unit, bytes), run).value, e);
  }

  /**
   * In every run: a GetRecord finds nothing exactly if all records have been read that were finished
   * when the write head it loads was stored; with the newest write head, exactly if all were read.
   */
  lemma NothingFoundMeansAllRead(size: nat, unit: nat, bytes: seq<byte>, run: seq<Step>, k: nat)
    requires size > 0 && unit >= 2 && IsMultiple(size, unit) && |bytes| == size
    requires Run(Init(size, unit, bytes), run).Some?
    requires var s := Run(Init(size, unit, bytes), run).value; Shape(s) && Enabled(s, RLoad(k))
    ensures var s := Run(Init(size, unit, bytes), run).value;
            && |s.writeHeads| == |s.log| + 1
            && (Do(s, RLoad(k)).reader.Moving? <==> |s.out| == k)
            && (k == |s.writeHeads| - 1 ==> (Do(s, RLoad(k)).reader.Moving? <==> s.out == s.log))
  {
    hide Run;
    RunKeepsInv(size, unit, bytes, run);
    var s := Run(Init(size, unit, bytes), run).value;
    assert |s.writeHeads| == |s.log| + 1 && |s.out| <= s.seenWrite <= k && ReadHead(s) == s.writeHeads[|s.out|];
    if |s.out| < k {
      assert Before(s.writeHeads[|s.out|], s.writeHeads[k]);
      assert NotAfter(ReadHead(s), s.writeHeads[k]);
      SeenWithinLap(s, k);
    }
    hide Stored, WriterOk, ReaderOk, HeadsFollowLog, NeverBack, Ascending;
  }
}
