/**
 * What the two threads of the record buffer get done: a record that is offered and fits is written, and
 * a record that is written is read. Safety is in RecordRing; here each thread runs on its own.
 */
module RingProgress {
  import opened Common
  import opened RecordRing

  predicate IsWriterStep(e: Step)
  {
    e.WOffer? || e.WLoad? || e.WMark? || e.WCopy? || e.WFinish?
  }

  /** A run from s to s' in which only the writer (or only the reader) takes steps. */
  ghost predicate Reaches(s: State, run: seq<Step>, s': State, writer: bool)
  {
    Run(s, run) == Some(s') && forall i :: 0 <= i < |run| ==> IsWriterStep(run[i]) == writer
  }

  lemma ReachesMore(s: State, run: seq<Step>, s': State, e: Step)
    requires Reaches(s, run, s', IsWriterStep(e)) && Shape(s') && Enabled(s', e)
    ensures Reaches(s, run + [e], Do(s', e), IsWriterStep(e))
  {
    hide Shape, Enabled, Do;
    assert (run + [e])[..|run|] == run;
  }

  lemma ReachesNone(s: State, writer: bool)
    ensures Reaches(s, [], s, writer)
  {
  }

  // --------------------------------------------------------------------- the writer

  /** The record fits between the write head and the k-th read head. */
  ghost predicate FitsAt(s: State, k: nat, n: nat)
    requires |s.writeHeads| > 0 && k < |s.readHeads|
  {
    n < s.size && WithinLap(s.readHeads[k], After(s.size, Last(s.writeHeads), n))
  }

  /** The load that AllocWriteSpace makes: it gives up exactly if the record does not fit. */
  lemma LoadDecides(s: State, k: nat)
    requires Inv(s) && s.writer.Allocating? && s.seenRead <= k < |s.readHeads|
    ensures |s.writeHeads| > 0 && Shape(s) && Enabled(s, WLoad(k))
    ensures var s', rec := Do(s, WLoad(k)), s.writer.rec;
            && (s'.writer.Waiting? <==> !FitsAt(s, k, |rec|)) && s'.log == s.log && s'.out == s.out
            && (FitsAt(s, k, |rec|) ==> (s'.writer.Marking? || s'.writer.Copying?) && s'.writer.rec == rec)
  {
    InvImpliesShape(s);
    LoadedHead(s, k);
    WriterFacts(s);
    AllocIsSafe(s.size, s.unit, WriteHead(s), s.readHeads[k], |s.writer.rec|);
    hide Inv, Shape, WriterOk, AllocWriteSpace, WithinLap, After, IsMultiple;
  }

  function WriterNext(w: Writer): Step
    requires w.Marking? || w.Copying?
  {
    if w.Marking? && w.done < HEADER_SIZE then WMark
    else if w.Marking? || w.done < |w.rec| then WCopy
    else WFinish
  }

  function WriterLeft(w: Writer): nat
  {
    match w
    case Marking(rec, done) => |rec| + 2 + (if done < HEADER_SIZE then HEADER_SIZE - done else 0)
    case Copying(rec, _, done) => 1 + (if done < |rec| then |rec| - done else 0)
    case _ => 0
  }

  lemma WriterEnabled(s: State)
    requires Inv(s) && (s.writer.Marking? || s.writer.Copying?)
    ensures Shape(s) && Enabled(s, WriterNext(s.writer))
  {
    InvImpliesShape(s);
    WriterFacts(s);
    hide Inv, Shape;
  }

  lemma WriterMoves(s: State)
    requires Inv(s) && (s.writer.Marking? || s.writer.Copying?)
    ensures Shape(s) && Enabled(s, WriterNext(s.writer))
    ensures var s', e := Do(s, WriterNext(s.writer)), WriterNext(s.writer);
            && Inv(s') && s'.out == s.out && WriterLeft(s'.writer) < WriterLeft(s.writer)
            && if e.WFinish? then s'.writer.Waiting? && s'.log == s.log + [s.writer.rec]
               else (s'.writer.Marking? || s'.writer.Copying?) && s'.writer.rec == s.writer.rec && s'.log == s.log
  {
    hide Inv, Shape, Advance;
    WriterEnabled(s);
    StepKeepsInv(s, WriterNext(s.writer));
  }

  /**
   * The writer on its own: the record it offers gets into the log exactly if it fits before the read
   * head that the writer loads.
   */
  lemma OfferedIsLogged(s: State, k: nat) returns (run: seq<Step>, s': State)
    requires Inv(s) && s.writer.Allocating? && s.seenRead <= k < |s.readHeads| && |s.writeHeads| > 0
    ensures Reaches(s, run, s', true) && Inv(s') && s'.writer.Waiting? && s'.out == s.out
    ensures s'.log == if FitsAt(s, k, |s.writer.rec|) then s.log + [s.writer.rec] else s.log
  {
    hide Inv, Do, Shape, Enabled, Reaches, FitsAt;
    var rec := s.writer.rec;
    ReachesNone(s, true);
    LoadDecides(s, k);
    ReachesMore(s, [], s, WLoad(k));
    StepKeepsInv(s, WLoad(k));
    run, s' := [WLoad(k)], Do(s, WLoad(k));
    assert [] + [WLoad(k)] == [WLoad(k)];
    while !s'.writer.Waiting?
      invariant Reaches(s, run, s', true) && Inv(s') && s'.out == s.out
      invariant if FitsAt(s, k, |rec|) && s'.writer.Waiting? then s'.log == s.log + [rec] else s'.log == s.log
      invariant FitsAt(s, k, |rec|) && !s'.writer.Waiting? ==> (s'.writer.Marking? || s'.writer.Copying?) && s'.writer.rec == rec
      invariant !FitsAt(s, k, |rec|) ==> s'.writer.Waiting?
      decreases WriterLeft(s'.writer)
    {
      var e := WriterNext(s'.writer);
      WriterMoves(s');
      ReachesMore(s, run, s', e);
      run, s' := run + [e], Do(s', e);
    }
  }

  // --------------------------------------------------------------------- the reader

  /** The reader is on its way to record n, which is in the log. */
  ghost predicate Underway(s: State, n: nat)
  {
    Inv(s) && |s.out| == n < |s.log| && (s.reader.Peeking? || s.reader.PeekingStart? || s.reader.Taking?)
  }

  function ReaderNext(r: Reader): Step
    requires r.Peeking? || r.PeekingStart? || r.Taking?
  {
    if r.Taking? then (if |r.got| < r.need then RTake else RTaken)
    else if |r.got| < HEADER_SIZE then RPeek else RDecide
  }

  ghost function Missing(need: nat, got: nat): nat
  {
    if got < need then need - got else 0
  }

  ghost function ReaderLeft(r: Reader, len: nat): nat
  {
    match r
    case Peeking(_, got) => 2 * HEADER_SIZE + len + 6 + Missing(HEADER_SIZE, |got|)
    case PeekingStart(got) => HEADER_SIZE + len + 4 + Missing(HEADER_SIZE, |got|)
    case Taking(_, got, need, added) => Missing(len, |got|) + (if added then 1 else 2)
    case _ => 0
  }

  /** What the reader knows of the record it is on its way to. */
  ghost predicate Knows(s: State, n: nat)
  {
    && n < |s.log|
    && (s.reader.Peeking? || s.reader.PeekingStart? ==> |s.reader.got| <= HEADER_SIZE)
    && (s.reader.Taking? ==> |s.reader.got| <= s.reader.need <= |s.log[n]| && |s.reader.got| <= |s.log[n]|)
  }

  lemma UnderwayKnows(s: State, n: nat)
    requires Underway(s, n)
    ensures Shape(s) && Knows(s, n) && Enabled(s, ReaderNext(s.reader))
  {
    InvImpliesShape(s);
    ReaderFacts(s);
    hide Inv, Shape, Placed, HeaderType, HeaderBytes, AuxBytes;
  }

  lemma PeekMoves(s: State, n: nat)
    requires Shape(s) && Knows(s, n) && !s.reader.Taking? && (s.reader.Peeking? || s.reader.PeekingStart?)
    requires Enabled(s, ReaderNext(s.reader))
    ensures var s' := Do(s, ReaderNext(s.reader));
            && s'.log == s.log && s'.out == s.out && (s'.reader.Peeking? || s'.reader.PeekingStart? || s'.reader.Taking?)
            && ReaderLeft(s'.reader, |s.log[n]|) < ReaderLeft(s.reader, |s.log[n]|)
  {
    hide Shape, HeaderBytes;
  }

  lemma TakeMoves(s: State, n: nat)
    requires Shape(s) && Knows(s, n) && s.reader.Taking? && Enabled(s, ReaderNext(s.reader))
    ensures var s' := Do(s, ReaderNext(s.reader));
            && s'.log == s.log
            && if s'.reader.Moving? then |s'.out| == |s.out| + 1 && s.out <= s'.out
               else s'.reader.Taking? && s'.out == s.out && ReaderLeft(s'.reader, |s.log[n]|) < ReaderLeft(s.reader, |s.log[n]|)
  {
    hide Shape, HeaderType, AuxBytes;
  }

  lemma ReaderMoves(s: State, n: nat)
    requires Underway(s, n)
    ensures Shape(s) && Enabled(s, ReaderNext(s.reader)) && n < |s.log|
    ensures var s' := Do(s, ReaderNext(s.reader));
            && Inv(s') && s'.log == s.log
            && if s'.reader.Moving? then s'.out == s.out + [s.log[n]]
               else Underway(s', n) && s'.out == s.out && ReaderLeft(s'.reader, |s.log[n]|) < ReaderLeft(s.reader, |s.log[n]|)
  {
    hide Inv, Shape, Do, Enabled;
    UnderwayKnows(s, n);
    var s' := Do(s, ReaderNext(s.reader));
    if s.reader.Taking? {
      TakeMoves(s, n);
    } else {
      PeekMoves(s, n);
    }
    hide Knows, ReaderLeft, ReaderNext;
    StepKeepsInv(s, ReaderNext(s.reader));
    OutIsPrefix(s);
    OutIsPrefix(s');
    if s'.reader.Moving? {
      assert s'.out[n] == s.log[n];
    }
  }

  lemma OutIsPrefix(s: State)
    requires Inv(s)
    ensures s.out <= s.log
  {
  }

  /** A reader that sees a newer write head than it has read up to finds the next record. */
  lemma LoadFinds(s: State, k: nat)
    requires Inv(s) && s.reader.Loading? && s.seenWrite <= k < |s.writeHeads| && |s.out| < k
    ensures Shape(s) && Enabled(s, RLoad(k)) && k <= |s.log|
    ensures var s' := Do(s, RLoad(k)); Underway(s', |s.out|) && s'.log == s.log && s'.out == s.out
  {
    InvImpliesShape(s);
    StepKeepsInv(s, RLoad(k));
    assert ReadHead(s) == s.writeHeads[|s.out|];
    assert Before(s.writeHeads[|s.out|], s.writeHeads[k]);
    SeenWithinLap(s, k);
    hide Stored, WriterOk, ReaderOk, HeadsFollowLog, NeverBack, Ascending;
  }

  /** The reader on its own: it copies out the next record, if it sees that there is one. */
  lemma NextIsRead(s: State, k: nat) returns (run: seq<Step>, s': State)
    requires Inv(s) && s.reader.Loading? && s.seenWrite <= k < |s.writeHeads| && |s.out| < k
    ensures k <= |s.log| && Reaches(s, run, s', false) && Inv(s')
    ensures s'.reader.Moving? && s'.log == s.log && s'.out == s.out + [s.log[|s.out|]]
  {
    hide Inv, Do, Shape, Enabled, Reaches, Underway;
    var n := |s.out|;
    ReachesNone(s, false);
    LoadFinds(s, k);
    ReachesMore(s, [], s, RLoad(k));
    StepKeepsInv(s, RLoad(k));
    run, s' := [RLoad(k)], Do(s, RLoad(k));
    assert [] + [RLoad(k)] == [RLoad(k)];
    IsUnderway(s', n);
    while !s'.reader.Moving?
      invariant Reaches(s, run, s', false) && Inv(s') && s'.log == s.log
      invariant if s'.reader.Moving? then s'.out == s.out + [s.log[n]] else s'.out == s.out && Underway(s', n)
      decreases ReaderLeft(s'.reader, |s.log[n]|)
    {
      IsUnderway(s', n);
      var e := ReaderNext(s'.reader);
      ReaderMoves(s', n);
      ReachesMore(s, run, s', e);
      run, s' := run + [e], Do(s', e);
    }
  }

  lemma IsUnderway(s: State, n: nat)
    requires Underway(s, n)
    ensures |s.out| == n < |s.log| && (s.reader.Peeking? || s.reader.PeekingStart? || s.reader.Taking?)
  {
    hide Inv;
  }
}
