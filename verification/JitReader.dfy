/**
 * JITDebugReader reading one of a process's two entry lists (JIT code or dex files) while the
 * process goes on changing it. The descriptor's head, seqlock and timestamp are copied one after
 * the other, in the order they lie in memory, and each entry is read in one step. Between any two
 * steps the process may begin a modification, write anything while the seqlock is odd, and finish
 * by adding or removing one entry.
 */
module JitReader {
  import opened Common

  const TWO_32: nat := 0x1_0000_0000

  /** An entry of the list, as the process means it. */
  datatype Entry = Entry(addr: nat, symfileAddr: nat, symfileSize: nat, timestamp: nat, seqlock: nat)

  /** A code entry as it lies in the process's memory. */
  datatype Raw = Raw(next: nat, prev: nat, symfileAddr: nat, symfileSize: nat, timestamp: nat, seqlock: nat)

  /** JITCodeEntry::Valid and JITCodeEntryV2::Valid. */
  predicate RawValid(version: nat, e: Raw)
  {
    if version == 1 then e.symfileAddr > 0 && e.symfileSize > 0 else e.seqlock % 2 == 0
  }

  /**
   * The process: the descriptor and memory that can be read at any time, and what they stood for
   * when the last modification ended. `added` lists every registration so far.
   */
  datatype Remote = Remote(version: nat, seqlock: nat, timestamp: nat, head: nat, mem: map<nat, Raw>,
                           list: seq<Entry>, lastAction: nat, added: seq<Entry>)

  /** A descriptor as read. `headAt` is the process's seqlock when the head was copied; the reader does not know it. */
  datatype Descriptor = Descriptor(seqlock: nat, timestamp: nat, head: nat, headAt: nat)

  datatype Pc =
    | Idle
    | HeadRead(head: nat, headAt: nat)
    | SeqlockRead(head: nat, headAt: nat, seqlock: nat)
    | Reading(desc: Descriptor, limit: nat, i: nat, current: nat, prev: nat, seen: set<nat>, entries: seq<Entry>)
    | Checking(desc: Descriptor, entries: seq<Entry>)

  /**
   * `mark` is how many registrations there were at the last commit; `steady` says that no
   * modification ended while the descriptor of any commit so far was being copied.
   */
  datatype State = State(remote: Remote, last: Descriptor, pc: Pc, mark: nat, accepted: seq<Entry>, steady: bool)

  // ------------------------------------------------------------- the process's steps

  function AddrAt(list: seq<Entry>, k: int): nat
  {
    if 0 <= k < |list| then list[k].addr else 0
  }

  function RawAt(list: seq<Entry>, k: nat): Raw
    requires k < |list|
  {
    var e := list[k];
    Raw(AddrAt(list, k + 1), AddrAt(list, k - 1), e.symfileAddr, e.symfileSize, e.timestamp, e.seqlock)
  }

  /** The memory holds the list, doubly linked. */
  ghost predicate InMemory(mem: map<nat, Raw>, head: nat, list: seq<Entry>)
  {
    && head == AddrAt(list, 0)
    && forall k :: 0 <= k < |list| ==> list[k].addr in mem && mem[list[k].addr] == RawAt(list, k)
  }

  /** Newest first, at distinct addresses, none registered after the last action. */
  ghost predicate ListOk(list: seq<Entry>, lastAction: nat)
  {
    && (forall k :: 0 <= k < |list| ==> list[k].addr > 0 && 0 < list[k].timestamp <= lastAction)
    && (forall k, l :: 0 <= k < l < |list| ==> list[k].addr != list[l].addr && list[k].timestamp > list[l].timestamp)
  }

  ghost predicate Begin(r: Remote, r': Remote)
  {
    r.seqlock % 2 == 0 && r.seqlock + 2 < TWO_32 && r' == r.(seqlock := r.seqlock + 1)
  }

  ghost predicate Scribble(r: Remote, r': Remote)
  {
    r.seqlock % 2 == 1 && r' == r.(timestamp := r'.timestamp, head := r'.head, mem := r'.mem)
  }

  /** The end of a modification, at a later time than the one before, leaves a list in memory. */
  ghost predicate Finish(r: Remote, r': Remote)
  {
    && r.seqlock % 2 == 1 && r'.seqlock == r.seqlock + 1 && r'.version == r.version
    && r'.timestamp == r'.lastAction > r.lastAction
    && InMemory(r'.mem, r'.head, r'.list)
  }

  ghost predicate AddEntry(r: Remote, r': Remote, e: Entry)
  {
    && e.addr > 0 && (forall k :: 0 <= k < |r.list| ==> r.list[k].addr != e.addr)
    && Finish(r, r') && e.timestamp == r'.lastAction
    && r'.list == [e] + r.list && r'.added == r.added + [e]
  }

  ghost predicate RemoveEntry(r: Remote, r': Remote, k: nat)
  {
    Finish(r, r') && k < |r.list| && r'.list == r.list[..k] + r.list[k + 1..] && r'.added == r.added
  }

  // -------------------------------------------------------------- the reader's steps

  /** ReadDescriptors copies the head, */
  function ReadHead(s: State): State
  {
    s.(pc := HeadRead(s.remote.head, s.remote.seqlock))
  }

  /** then the seqlock, */
  function ReadSeqlock(s: State): State
    requires s.pc.HeadRead?
  {
    s.(pc := SeqlockRead(s.pc.head, s.pc.headAt, s.remote.seqlock))
  }

  /** and last the timestamp; then comes the first part of ReadDebugInfo. */
  function ReadTimestamp(s: State): State
    requires s.pc.SeqlockRead?
  {
    var d := Descriptor(s.pc.seqlock, s.remote.timestamp, s.pc.head, s.pc.headAt);
    if d.seqlock == s.last.seqlock || d.seqlock % 2 == 1 then s.(pc := Idle)
    else s.(pc := Reading(d, (d.seqlock - s.last.seqlock) % TWO_32 / 2, 0, d.head, 0, {}, []))
  }

  /** One round of the loop in ReadNewCodeEntriesImpl; a broken list ends the attempt. */
  function ReadEntry(s: State): State
    requires s.pc.Reading?
  {
    var p := s.pc;
    if !(p.i < p.limit && p.current != 0) then s.(pc := Checking(p.desc, p.entries))
    else if p.current in p.seen || p.current !in s.remote.mem then s.(pc := Idle)
    else
      var e := s.remote.mem[p.current];
      if e.prev != p.prev || !RawValid(s.remote.version, e) then s.(pc := Idle)
      else if e.timestamp <= s.last.timestamp then s.(pc := Checking(p.desc, p.entries))
      else
        var entries := if e.symfileSize > 0 then p.entries + [Entry(p.current, e.symfileAddr, e.symfileSize, e.timestamp, e.seqlock)]
                       else p.entries;
        s.(pc := Reading(p.desc, p.limit, p.i + 1, e.next, p.current, p.seen + {p.current}, entries))
  }

  /** IsDescriptorChanged and the end of ReadDebugInfo. */
  function Check(s: State): State
    requires s.pc.Checking?
  {
    if s.remote.seqlock != s.pc.desc.seqlock then s.(pc := Idle)
    else State(s.remote, s.pc.desc, Idle, |s.remote.added|, s.accepted + s.pc.entries,
               s.steady && s.pc.desc.headAt == s.pc.desc.seqlock)
  }

  function ReaderNext(s: State): State
  {
    match s.pc
    case Idle => ReadHead(s)
    case HeadRead(_, _) => ReadSeqlock(s)
    case SeqlockRead(_, _, _) => ReadTimestamp(s)
    case Reading(_, _, _, _, _, _, _) => ReadEntry(s)
    case Checking(_, _) => Check(s)
  }

  ghost predicate EnvStep(r: Remote, r': Remote)
  {
    || Begin(r, r')
    || Scribble(r, r')
    || (exists e :: AddEntry(r, r', e))
    || (exists k :: RemoveEntry(r, r', k))
  }

  /** The reader may also give up at any point: the process died, or its symbols could not be stored. */
  ghost predicate Step(s: State, s': State)
  {
    || s' == ReaderNext(s)
    || s' == s.(pc := Idle)
    || (EnvStep(s.remote, s'.remote) && s' == s.(remote := s'.remote))
  }

  // ---------------------------------------------------------------- what is wanted

  /** The entries registered after time t. */
  function Newer(list: seq<Entry>, t: nat): seq<Entry>
  {
    if list == [] then [] else (if list[0].timestamp > t then [list[0]] else []) + Newer(list[1..], t)
  }

  function NonEmpty(list: seq<Entry>): seq<Entry>
  {
    if list == [] then [] else (if list[0].symfileSize > 0 then [list[0]] else []) + NonEmpty(list[1..])
  }

  /** The listed entries that are among `some`. */
  function Among(list: seq<Entry>, some: seq<Entry>): seq<Entry>
  {
    if list == [] then [] else (if list[0] in some then [list[0]] else []) + Among(list[1..], some)
  }

  // ------------------------------------------------------------------- the invariant

  /** Registrations happened at increasing times; what is listed was registered. */
  ghost predicate HistoryOk(r: Remote)
  {
    && (forall k :: 0 <= k < |r.added| ==> 0 < r.added[k].timestamp <= r.lastAction)
    && (forall k, l :: 0 <= k < l < |r.added| ==> r.added[k].timestamp < r.added[l].timestamp)
    && (forall k :: 0 <= k < |r.list| ==> r.list[k] in r.added)
  }

  ghost predicate RemoteOk(r: Remote)
  {
    && r.seqlock + r.seqlock % 2 < TWO_32 && ListOk(r.list, r.lastAction) && HistoryOk(r)
    && (r.seqlock % 2 == 0 ==> r.timestamp == r.lastAction && InMemory(r.mem, r.head, r.list))
  }

  /** The last commit separates the registrations by time and bounds how many came since. */
  ghost predicate SinceOk(r: Remote, last: Descriptor, mark: nat)
  {
    && last.seqlock % 2 == 0 && last.seqlock <= r.seqlock && last.timestamp <= r.lastAction
    && mark <= |r.added| && 2 * (|r.added| - mark) <= r.seqlock - last.seqlock
    && |Newer(r.list, last.timestamp)| <= |r.added| - mark
    && (forall k :: 0 <= k < mark ==> r.added[k].timestamp <= last.timestamp)
    && (forall k :: mark <= k < |r.added| ==> r.added[k].timestamp > last.timestamp)
  }

  /** Nothing was accepted twice, and everything accepted is as old as the last commit. */
  ghost predicate AcceptedOk(accepted: seq<Entry>, last: Descriptor)
  {
    && (forall k :: 0 <= k < |accepted| ==> accepted[k].timestamp <= last.timestamp && accepted[k].symfileSize > 0)
    && (forall k, l :: 0 <= k < l < |accepted| ==> accepted[k].timestamp != accepted[l].timestamp)
  }

  function Addrs(list: seq<Entry>): set<nat>
  {
    set e | e in list :: e.addr
  }

  /** An undisturbed reader has walked the first i entries, all of them new. */
  ghost predicate Walked(list: seq<Entry>, t: nat, i: nat, current: nat, prev: nat, seen: set<nat>, entries: seq<Entry>)
  {
    && i <= |list| && current == AddrAt(list, i) && prev == AddrAt(list, i - 1) && seen == Addrs(list[..i])
    && (forall k :: 0 <= k < i ==> list[k].timestamp > t)
    && entries == NonEmpty(list[..i])
  }

  /**
   * A reader that started from a head which is not the list's head any more: it meets no entry of
   * the list, because none of them names as its predecessor what the reader came from.
   */
  ghost predicate Strayed(list: seq<Entry>, i: nat, current: nat, prev: nat, seen: set<nat>, entries: seq<Entry>)
  {
    && (if i == 0 then prev == 0 && current != AddrAt(list, 0) else prev in seen)
    && 0 !in seen && seen !! Addrs(list)
    && forall e :: e in entries ==> e.addr in seen
  }

  ghost predicate Outside(list: seq<Entry>, entries: seq<Entry>)
  {
    forall e :: e in entries ==> e.addr !in Addrs(list)
  }

  /** A head copied while the process rested is the list's head as long as it rests. */
  ghost predicate HeadOk(r: Remote, head: nat, headAt: nat)
  {
    headAt <= r.seqlock && (headAt == r.seqlock && r.seqlock % 2 == 0 ==> head == AddrAt(r.list, 0))
  }

  ghost predicate DescOk(r: Remote, last: Descriptor, d: Descriptor)
  {
    && d.seqlock % 2 == 0 && last.seqlock < d.seqlock <= r.seqlock && d.headAt <= d.seqlock
    && (r.seqlock == d.seqlock ==> d.timestamp == r.lastAction && HeadOk(r, d.head, d.headAt))
  }

  ghost predicate PcOk(s: State)
  {
    match s.pc
    case Idle => true
    case HeadRead(head, headAt) => HeadOk(s.remote, head, headAt)
    case SeqlockRead(head, headAt, q) =>
      && s.last.seqlock <= q <= s.remote.seqlock && headAt <= q
      && (s.remote.seqlock == q ==> HeadOk(s.remote, head, headAt))
    case Reading(d, limit, i, current, prev, seen, entries) =>
      && DescOk(s.remote, s.last, d) && limit == (d.seqlock - s.last.seqlock) / 2 && i <= limit
      && (s.remote.seqlock == d.seqlock ==>
            if d.head == AddrAt(s.remote.list, 0)
            then Walked(s.remote.list, s.last.timestamp, i, current, prev, seen, entries)
            else Strayed(s.remote.list, i, current, prev, seen, entries))
    case Checking(d, entries) =>
      && DescOk(s.remote, s.last, d)
      && (s.remote.seqlock == d.seqlock ==>
            if d.head == AddrAt(s.remote.list, 0)
            then entries == NonEmpty(Newer(s.remote.list, s.last.timestamp))
            else Outside(s.remote.list, entries))
  }

  ghost predicate Inv(s: State)
  {
    RemoteOk(s.remote) && SinceOk(s.remote, s.last, s.mark) && PcOk(s) && (s.steady ==> AcceptedOk(s.accepted, s.last))
  }

  /** A process in any state of its own, and a reader that has not read it yet. */
  ghost predicate Init(s: State)
  {
    && RemoteOk(s.remote) && 2 * |s.remote.added| <= s.remote.seqlock && |s.remote.list| <= |s.remote.added|
    && s.last == Descriptor(0, 0, 0, 0) && s.pc == Idle && s.mark == 0 && s.accepted == [] && s.steady
  }

  // ------------------------------------------------------------------ about the lists

  lemma {:induction false} NewerSplit(list: seq<Entry>, t: nat, i: nat)
    requires i <= |list| && forall k :: 0 <= k < i ==> list[k].timestamp > t
    ensures Newer(list, t) == list[..i] + Newer(list[i..], t)
  {
    if i > 0 {
      NewerSplit(list[1..], t, i - 1);
      assert list[1..][i - 1..] == list[i..];
      assert list[..i] == [list[0]] + list[1..][..i - 1];
    } else {
      assert list[0..] == list;
    }
  }

  lemma {:induction false} NewerNone(list: seq<Entry>, t: nat)
    requires forall k :: 0 <= k < |list| ==> list[k].timestamp <= t
    ensures Newer(list, t) == []
  {
    if list != [] {
      NewerNone(list[1..], t);
    }
  }

  /** In a list with the newest entries first, stopping at the first old entry misses nothing. */
  lemma NewerPrefix(list: seq<Entry>, lastAction: nat, t: nat, i: nat)
    requires ListOk(list, lastAction) && i <= |list| && (forall k :: 0 <= k < i ==> list[k].timestamp > t)
    requires i == |list| || list[i].timestamp <= t
    ensures Newer(list, t) == list[..i]
  {
    NewerSplit(list, t, i);
    NewerNone(list[i..], t);
  }

  /** Reading as many entries as there can be new ones misses nothing either. */
  lemma NewerLimit(list: seq<Entry>, lastAction: nat, t: nat, i: nat)
    requires ListOk(list, lastAction) && i <= |list| && (forall k :: 0 <= k < i ==> list[k].timestamp > t)
    requires |Newer(list, t)| <= i
    ensures Newer(list, t) == list[..i]
  {
    NewerSplit(list, t, i);
  }

  lemma {:induction false} NewerShorter(list: seq<Entry>, t: nat)
    ensures |Newer(list, t)| <= |list|
  {
    if list != [] {
      NewerShorter(list[1..], t);
    }
  }

  lemma {:induction false} NewerWithout(list: seq<Entry>, t: nat, k: nat)
    requires k < |list|
    ensures |Newer(list[..k] + list[k + 1..], t)| <= |Newer(list, t)|
  {
    if k == 0 {
      assert list[..0] + list[1..] == list[1..];
    } else {
      NewerWithout(list[1..], t, k - 1);
      var w := list[..k] + list[k + 1..];
      assert w[0] == list[0] && w[1..] == list[1..][..k - 1] + list[1..][k..];
    }
  }

  lemma {:induction false} NonEmptyAppend(list: seq<Entry>, e: Entry)
    ensures NonEmpty(list + [e]) == NonEmpty(list) + (if e.symfileSize > 0 then [e] else [])
  {
    var all := list + [e];
    if list == [] {
      assert all[1..] == [];
    } else {
      NonEmptyAppend(list[1..], e);
      assert all[1..] == list[1..] + [e];
    }
  }

  ghost predicate Decreasing(list: seq<Entry>)
  {
    forall k, l :: 0 <= k < l < |list| ==> list[k].timestamp > list[l].timestamp
  }

  lemma FirstDecreasing(list: seq<Entry>, some: seq<Entry>)
    requires list != [] && Decreasing(list) && Decreasing(some) && forall e :: e in some ==> e in list[1..]
    ensures Decreasing([list[0]] + some)
  {
    forall k | 0 <= k < |some| ensures list[0].timestamp > some[k].timestamp {
      assert some[k] in list[1..];
    }
  }

  lemma {:induction false} NewerDecreasing(list: seq<Entry>, t: nat)
    requires Decreasing(list)
    ensures Decreasing(Newer(list, t))
    ensures forall e :: e in Newer(list, t) ==> e in list && e.timestamp > t
  {
    if list != [] {
      NewerDecreasing(list[1..], t);
      FirstDecreasing(list, Newer(list[1..], t));
    }
  }

  lemma {:induction false} NonEmptyDecreasing(list: seq<Entry>)
    requires Decreasing(list)
    ensures Decreasing(NonEmpty(list))
    ensures forall e :: e in NonEmpty(list) ==> e in list && e.symfileSize > 0
  {
    if list != [] {
      NonEmptyDecreasing(list[1..]);
      FirstDecreasing(list, NonEmpty(list[1..]));
    }
  }

  /** New by its time means registered since. */
  lemma {:induction false} NewerIsAmong(list: seq<Entry>, some: seq<Entry>, t: nat)
    requires forall e :: e in list ==> (e.timestamp > t <==> e in some)
    ensures Newer(list, t) == Among(list, some)
  {
    if list != [] {
      NewerIsAmong(list[1..], some, t);
    }
  }

  lemma ListedSince(s: State)
    requires RemoteOk(s.remote) && SinceOk(s.remote, s.last, s.mark)
    ensures Newer(s.remote.list, s.last.timestamp) == Among(s.remote.list, s.remote.added[s.mark..])
  {
    var r, some := s.remote, s.remote.added[s.mark..];
    forall e | e in r.list ensures e.timestamp > s.last.timestamp <==> e in some {
      assert e in r.added;
      var k :| 0 <= k < |r.added| && r.added[k] == e;
      if k >= s.mark {
        assert some[k - s.mark] == e;
      }
    }
    NewerIsAmong(r.list, some, s.last.timestamp);
  }

  // ------------------------------------------------------------ the process's steps

  lemma AddKeepsRemote(r: Remote, r': Remote, e: Entry)
    requires RemoteOk(r) && AddEntry(r, r', e) && r.seqlock + 1 < TWO_32
    ensures RemoteOk(r')
  {
    hide InMemory;
    assert forall k :: 0 < k < |r'.list| ==> r'.list[k] == r.list[k - 1];
    assert forall x :: x in r.added ==> x in r'.added;
    assert r'.added[|r.added|] == e;
  }

  lemma RemoveKeepsRemote(r: Remote, r': Remote, k: nat)
    requires RemoteOk(r) && RemoveEntry(r, r', k) && r.seqlock + 1 < TWO_32
    ensures RemoteOk(r')
  {
    hide InMemory;
    assert forall l :: 0 <= l < |r'.list| ==> r'.list[l] == r.list[if l < k then l else l + 1];
  }

  lemma AddKeepsSince(r: Remote, r': Remote, e: Entry, last: Descriptor, mark: nat)
    requires SinceOk(r, last, mark) && AddEntry(r, r', e)
    ensures SinceOk(r', last, mark)
  {
    hide InMemory;
    assert r'.list[1..] == r.list;
    assert Newer(r'.list, last.timestamp) == [e] + Newer(r.list, last.timestamp);
  }

  lemma RemoveKeepsSince(r: Remote, r': Remote, k: nat, last: Descriptor, mark: nat)
    requires SinceOk(r, last, mark) && RemoveEntry(r, r', k)
    ensures SinceOk(r', last, mark)
  {
    hide InMemory;
    NewerWithout(r.list, last.timestamp, k);
  }

  lemma EnvKeepsRemote(r: Remote, r': Remote, last: Descriptor, mark: nat)
    requires RemoteOk(r) && SinceOk(r, last, mark) && EnvStep(r, r')
    ensures RemoteOk(r') && SinceOk(r', last, mark)
    ensures r'.seqlock >= r.seqlock && (r'.seqlock == r.seqlock ==> r.seqlock % 2 == 1)
  {
    hide Newer, ListOk, InMemory;
    if e :| AddEntry(r, r', e) {
      AddKeepsRemote(r, r', e);
      AddKeepsSince(r, r', e, last, mark);
    } else if k :| RemoveEntry(r, r', k) {
      RemoveKeepsRemote(r, r', k);
      RemoveKeepsSince(r, r', k, last, mark);
    }
  }

  lemma EnvKeepsPc(s: State, r': Remote)
    requires PcOk(s) && r'.seqlock >= s.remote.seqlock && (r'.seqlock == s.remote.seqlock ==> s.remote.seqlock % 2 == 1)
    ensures PcOk(s.(remote := r'))
  {
    hide Walked, Strayed, Outside, Newer, NonEmpty;
  }

  // -------------------------------------------------------------- the reader's steps

  lemma LoadsKeepPc(s: State)
    requires RemoteOk(s.remote) && SinceOk(s.remote, s.last, s.mark) && PcOk(s)
    requires s.pc == Idle || s.pc.HeadRead? || s.pc.SeqlockRead?
    ensures PcOk(ReaderNext(s))
  {
    hide Newer, ListOk, HistoryOk, NonEmpty;
    var list := s.remote.list;
    NothingWalked(list, s.last.timestamp);
  }

  lemma NothingWalked(list: seq<Entry>, t: nat)
    ensures Walked(list, t, 0, AddrAt(list, 0), 0, {}, [])
    ensures forall current: nat :: current != AddrAt(list, 0) ==> Strayed(list, 0, current, 0, {}, [])
  {
    assert list[..0] == [] && Addrs([]) == {} && NonEmpty([]) == [];
  }

  /** An undisturbed reader finds the next entry of the list where it looks. */
  lemma NextEntry(r: Remote, t: nat, i: nat, current: nat, prev: nat, seen: set<nat>, entries: seq<Entry>)
    requires RemoteOk(r) && r.seqlock % 2 == 0 && Walked(r.list, t, i, current, prev, seen, entries)
    ensures current != 0 <==> i < |r.list|
    ensures current != 0 ==> current !in seen && current in r.mem && r.mem[current] == RawAt(r.list, i) && r.mem[current].prev == prev
  {
    hide HistoryOk, NonEmpty;
    if i < |r.list| {
      assert r.list[i].addr in r.mem;
      forall e | e in r.list[..i] ensures e.addr != current {
        var k :| 0 <= k < i && r.list[..i][k] == e;
      }
    }
  }

  lemma WalkedFurther(r: Remote, t: nat, i: nat, current: nat, prev: nat, seen: set<nat>, entries: seq<Entry>)
    requires RemoteOk(r) && Walked(r.list, t, i, current, prev, seen, entries) && i < |r.list| && r.list[i].timestamp > t
    ensures var e := r.list[i];
            Walked(r.list, t, i + 1, AddrAt(r.list, i + 1), current, seen + {current},
                   entries + (if e.symfileSize > 0 then [e] else []))
  {
    hide HistoryOk, InMemory;
    var list := r.list;
    NonEmptyAppend(list[..i], list[i]);
    assert list[..i + 1] == list[..i] + [list[i]];
    assert Addrs(list[..i + 1]) == Addrs(list[..i]) + {list[i].addr};
  }

  lemma ReadKeepsPc(s: State)
    requires RemoteOk(s.remote) && SinceOk(s.remote, s.last, s.mark) && PcOk(s) && s.pc.Reading?
    ensures PcOk(ReadEntry(s))
  {
    var p, r, t := s.pc, s.remote, s.last.timestamp;
    if r.seqlock == p.desc.seqlock && p.desc.head == AddrAt(r.list, 0) {
      UndisturbedRead(s);
    } else if r.seqlock == p.desc.seqlock {
      StrayedRead(s);
    } else {
      hide Walked, Strayed, Outside, Newer, NonEmpty, RemoteOk, SinceOk;
    }
  }

  /** Whatever a strayed reader reads is not in the list, or breaks off its walk. */
  lemma StrayedRead(s: State)
    requires RemoteOk(s.remote) && PcOk(s) && s.pc.Reading?
    requires s.remote.seqlock == s.pc.desc.seqlock && s.pc.desc.head != AddrAt(s.remote.list, 0)
    ensures PcOk(ReadEntry(s))
  {
    hide RemoteOk, Walked, Strayed, Outside, Newer, NonEmpty, Addrs;
    var p, r := s.pc, s.remote;
    StrayedOutside(r.list, p.i, p.current, p.prev, p.seen, p.entries);
    if p.current in Addrs(r.list) && p.current != 0 {
      StrayedBreaks(r, p.i, p.current, p.prev, p.seen, p.entries);
    }
    var s' := ReadEntry(s);
    if s'.pc.Reading? {
      StrayedOn(r.list, p.i, p.current, p.prev, p.seen, p.entries, s'.pc.current, s'.pc.entries);
    }
  }

  lemma StrayedOutside(list: seq<Entry>, i: nat, current: nat, prev: nat, seen: set<nat>, entries: seq<Entry>)
    requires Strayed(list, i, current, prev, seen, entries)
    ensures Outside(list, entries)
  {
  }

  lemma StrayedOn(list: seq<Entry>, i: nat, current: nat, prev: nat, seen: set<nat>, entries: seq<Entry>, next: nat, entries': seq<Entry>)
    requires Strayed(list, i, current, prev, seen, entries) && current !in Addrs(list) && current != 0
    requires entries <= entries' && forall k :: |entries| <= k < |entries'| ==> entries'[k].addr == current
    ensures Strayed(list, i + 1, next, current, seen + {current}, entries')
  {
    hide Addrs;
  }

  lemma StrayedBreaks(r: Remote, i: nat, current: nat, prev: nat, seen: set<nat>, entries: seq<Entry>)
    requires RemoteOk(r) && r.seqlock % 2 == 0 && Strayed(r.list, i, current, prev, seen, entries)
    requires current in Addrs(r.list) && current != 0
    ensures current in r.mem && r.mem[current].prev != prev
  {
    hide HistoryOk;
    var e :| e in r.list && e.addr == current;
    var k :| 0 <= k < |r.list| && r.list[k] == e;
    assert r.mem[current] == RawAt(r.list, k);
    if k > 0 {
      assert r.list[k - 1] in r.list && r.list[k - 1].addr in Addrs(r.list);
    }
  }

  lemma UndisturbedRead(s: State)
    requires RemoteOk(s.remote) && SinceOk(s.remote, s.last, s.mark) && PcOk(s) && s.pc.Reading?
    requires s.remote.seqlock == s.pc.desc.seqlock && s.pc.desc.head == AddrAt(s.remote.list, 0)
    ensures PcOk(ReadEntry(s))
  {
    hide Walked, Strayed, Outside, Newer, NonEmpty, ListOk, HistoryOk, InMemory, RawAt;
    var p, r, t := s.pc, s.remote, s.last.timestamp;
    NextEntry(r, t, p.i, p.current, p.prev, p.seen, p.entries);
    WalkedFacts(r.list, t, p.i, p.current, p.prev, p.seen, p.entries);
    if p.i >= p.limit {
      NewerLimit(r.list, r.lastAction, t, p.i);
    } else if p.current == 0 {
      NewerPrefix(r.list, r.lastAction, t, p.i);
    } else {
      RawFields(r.list, p.i);
      if r.list[p.i].timestamp <= t {
        NewerPrefix(r.list, r.lastAction, t, p.i);
      } else {
        WalkedFurther(r, t, p.i, p.current, p.prev, p.seen, p.entries);
        assert p.entries + [] == p.entries;
      }
    }
  }

  lemma WalkedFacts(list: seq<Entry>, t: nat, i: nat, current: nat, prev: nat, seen: set<nat>, entries: seq<Entry>)
    requires Walked(list, t, i, current, prev, seen, entries)
    ensures i <= |list| && (forall k :: 0 <= k < i ==> list[k].timestamp > t) && entries == NonEmpty(list[..i])
    ensures i < |list| ==> current == list[i].addr
  {
  }

  lemma RawFields(list: seq<Entry>, k: nat)
    requires k < |list|
    ensures var e := RawAt(list, k);
            && e.next == AddrAt(list, k + 1) && e.timestamp == list[k].timestamp
            && Entry(list[k].addr, e.symfileAddr, e.symfileSize, e.timestamp, e.seqlock) == list[k]
  {
  }

  /** The nonempty entries registered since the last commit and still listed. */
  ghost function Wanted(s: State): seq<Entry>
    requires s.mark <= |s.remote.added|
  {
    NonEmpty(Among(s.remote.list, s.remote.added[s.mark..]))
  }

  ghost predicate Commits(s: State)
  {
    s.pc.Checking? && s.remote.seqlock == s.pc.desc.seqlock
  }

  lemma WantedIsNewer(s: State)
    requires RemoteOk(s.remote) && SinceOk(s.remote, s.last, s.mark)
    ensures Wanted(s) == NonEmpty(Newer(s.remote.list, s.last.timestamp))
    ensures forall e :: e in Wanted(s) ==> e in s.remote.list
  {
    hide Newer, NonEmpty, Among, InMemory;
    ListedSince(s);
    NewerDecreasing(s.remote.list, s.last.timestamp);
    NonEmptyDecreasing(Newer(s.remote.list, s.last.timestamp));
  }

  /**
   * A commit that started from the list's head is exact; this is so if no modification ended between
   * the copy of the head and that of the seqlock. One that started elsewhere took nothing off the
   * list, and is exact if and only if it accepts nothing and nothing was to be accepted.
   */
  lemma CommitExactIff(s: State)
    requires Inv(s) && Commits(s)
    ensures s.mark <= |s.remote.added|
    ensures s.pc.desc.headAt == s.pc.desc.seqlock ==> s.pc.desc.head == s.remote.head
    ensures s.pc.desc.head == s.remote.head ==> s.pc.entries == Wanted(s)
    ensures s.pc.desc.head != s.remote.head ==>
              && Outside(s.remote.list, s.pc.entries)
              && (s.pc.entries == Wanted(s) <==> s.pc.entries == [] && Wanted(s) == [])
  {
    hide Newer, NonEmpty, Among, HistoryOk, ListOk, Wanted;
    WantedIsNewer(s);
    assert s.remote.head == AddrAt(s.remote.list, 0);
    if Wanted(s) != [] {
      var e := Wanted(s)[0];
      assert e in Wanted(s) && e in s.remote.list && e.addr in Addrs(s.remote.list);
    }
  }

  lemma CommitKeepsInv(s: State)
    requires Inv(s) && Commits(s)
    ensures Inv(Check(s))
  {
    hide NonEmpty, Among, InMemory, Outside, Wanted, HistoryOk;
    var r, d := s.remote, s.pc.desc;
    CommitSince(r, s.last, d, s.mark);
    hide Newer;
    if s.steady && d.headAt == d.seqlock {
      NewerDecreasing(r.list, s.last.timestamp);
      NonEmptyDecreasing(Newer(r.list, s.last.timestamp));
      AcceptMore(s.accepted, s.pc.entries, s.last, d);
    }
  }

  lemma CommitSince(r: Remote, last: Descriptor, d: Descriptor, mark: nat)
    requires RemoteOk(r) && SinceOk(r, last, mark) && DescOk(r, last, d) && r.seqlock == d.seqlock
    ensures SinceOk(r, d, |r.added|)
  {
    hide InMemory;
    NewerNone(r.list, d.timestamp);
  }

  lemma AcceptMore(accepted: seq<Entry>, found: seq<Entry>, last: Descriptor, d: Descriptor)
    requires AcceptedOk(accepted, last) && Decreasing(found) && last.timestamp <= d.timestamp
    requires forall e :: e in found ==> last.timestamp < e.timestamp <= d.timestamp && e.symfileSize > 0
    ensures AcceptedOk(accepted + found, d)
  {
    var all := accepted + found;
    assert forall k :: |accepted| <= k < |all| ==> all[k] == found[k - |accepted|];
  }

  // ------------------------------------------------------------------------- all runs

  lemma StepKeepsInv(s: State, s': State)
    requires Inv(s) && Step(s, s')
    ensures Inv(s')
  {
    hide RemoteOk, SinceOk, AcceptedOk, EnvStep, ReadEntry, ReadTimestamp;
    if s' == s.(pc := Idle) {
    } else if s' == ReaderNext(s) {
      ReaderKeepsInv(s);
    } else {
      EnvKeepsRemote(s.remote, s'.remote, s.last, s.mark);
      EnvKeepsPc(s, s'.remote);
    }
  }

  lemma ReaderKeepsInv(s: State)
    requires Inv(s)
    ensures Inv(ReaderNext(s))
  {
    hide RemoteOk, SinceOk, AcceptedOk, Walked, Strayed, Outside, Newer, NonEmpty;
    if s.pc.Reading? {
      ReadKeepsPc(s);
    } else if s.pc.Checking? {
      if s.remote.seqlock == s.pc.desc.seqlock {
        CommitKeepsInv(s);
      }
    } else {
      LoadsKeepPc(s);
    }
  }

  lemma InitHolds(s: State)
    requires Init(s)
    ensures Inv(s)
  {
    hide ListOk, InMemory;
    NewerShorter(s.remote.list, 0);
  }

  ghost predicate IsRun(run: seq<State>)
  {
    && |run| > 0 && Init(run[0])
    && forall i :: 0 <= i < |run| - 1 ==> Step(run[i], run[i + 1])
  }

  lemma {:induction false} RunKeepsInv(run: seq<State>, n: nat)
    requires IsRun(run) && n < |run|
    ensures Inv(run[n])
  {
    hide Inv, Init, Step;
    if n == 0 {
      InitHolds(run[0]);
    } else {
      RunKeepsInv(run, n - 1);
      assert Step(run[n - 1], run[n - 1 + 1]);
      StepKeepsInv(run[n - 1], run[n]);
    }
  }

  /**
   * In every run: only a commit accepts anything. It is exact if the head it started from is the
   * list's head, and so if no modification ended while the descriptor was copied; from any other head
   * it is exact if and only if there is nothing to accept and nothing was.
   */
  lemma EveryCommitIsExact(run: seq<State>, n: nat)
    requires IsRun(run) && n + 1 < |run|
    ensures var s, s' := run[n], run[n + 1];
            if s'.last == s.last then s'.accepted == s.accepted && s'.mark == s.mark
            else && Commits(s) && s.mark <= s'.mark == |s.remote.added| && s'.last == s.pc.desc
                 && s'.accepted == s.accepted + s.pc.entries
                 && (s.pc.desc.headAt == s.pc.desc.seqlock ==> s.pc.desc.head == s.remote.head)
                 && (s.pc.desc.head == s.remote.head ==> s.pc.entries == Wanted(s))
                 && (s.pc.desc.head != s.remote.head ==>
                       && Outside(s.remote.list, s.pc.entries)
                       && (s.pc.entries == Wanted(s) <==> s.pc.entries == [] && Wanted(s) == []))
  {
    hide Inv, Init, Newer, NonEmpty, Among, EnvStep, Wanted, Outside;
    var s, s' := run[n], run[n + 1];
    RunKeepsInv(run, n);
    assert Step(run[n], run[n + 1]);
    if s' == ReaderNext(s) && Commits(s) {
      CommitMoves(s);
      CommitExactIff(s);
    }
  }

  lemma CommitMoves(s: State)
    requires Inv(s) && Commits(s)
    ensures s.last.seqlock < s.pc.desc.seqlock
  {
  }

  // ------------------------------------------------------------ nothing accepted twice

  /** What an attempt takes up is newer than the last commit, not empty, and at distinct addresses. */
  ghost predicate FoundOk(entries: seq<Entry>, t: nat)
  {
    && (forall k :: 0 <= k < |entries| ==> entries[k].timestamp > t && entries[k].symfileSize > 0)
    && (forall k, l :: 0 <= k < l < |entries| ==> entries[k].addr != entries[l].addr)
  }

  ghost predicate Found(s: State)
  {
    match s.pc
    case Reading(_, _, _, _, _, seen, entries) => FoundOk(entries, s.last.timestamp) && forall e :: e in entries ==> e.addr in seen
    case Checking(_, entries) => FoundOk(entries, s.last.timestamp)
    case _ => true
  }

  lemma StepKeepsFound(s: State, s': State)
    requires Found(s) && Step(s, s')
    ensures Found(s')
  {
    hide EnvStep;
  }

  lemma {:induction false} RunKeepsFound(run: seq<State>, n: nat)
    requires IsRun(run) && n < |run|
    ensures Found(run[n])
  {
    hide Found, Step;
    if n > 0 {
      RunKeepsFound(run, n - 1);
      assert Step(run[n - 1], run[n - 1 + 1]);
      StepKeepsFound(run[n - 1], run[n]);
    } else {
      NothingAtFirst(run);
    }
  }

  /** A step accepts only what is newer than the last commit, and moves the last commit's time on. */
  lemma StepAccepts(run: seq<State>, n: nat)
    requires IsRun(run) && n + 1 < |run|
    ensures var s, s' := run[n], run[n + 1];
            && s.accepted <= s'.accepted && s.last.timestamp <= s'.last.timestamp
            && FoundOk(s'.accepted[|s.accepted|..], s.last.timestamp)
            && (s'.accepted != s.accepted ==> s'.mark == |s.remote.added| && s'.remote.added == s.remote.added)
  {
    hide Inv, Init, EnvStep, FoundOk;
    var s, s' := run[n], run[n + 1];
    RunKeepsInv(run, n);
    RunKeepsFound(run, n);
    assert Step(run[n], run[n + 1]);
    if s' == ReaderNext(s) && Commits(s) {
      LaterCommit(s);
      assert s'.accepted[|s.accepted|..] == s.pc.entries;
    } else {
      assert s'.accepted == s.accepted;
      assert s'.accepted[|s.accepted|..] == [];
      NothingFound(s.last.timestamp);
    }
  }

  lemma NothingFound(t: nat)
    ensures FoundOk([], t)
  {
  }

  lemma LaterCommit(s: State)
    requires Inv(s) && Commits(s)
    ensures s.last.timestamp <= s.pc.desc.timestamp
  {
    hide Newer, NonEmpty, InMemory;
  }

  /** Whatever is accepted after state m is newer than the last commit there. */
  lemma {:induction false} LaterIsNewer(run: seq<State>, m: nat, n: nat)
    requires IsRun(run) && m <= n < |run|
    ensures run[m].accepted <= run[n].accepted && run[m].last.timestamp <= run[n].last.timestamp
    ensures forall j :: |run[m].accepted| <= j < |run[n].accepted| ==> run[n].accepted[j].timestamp > run[m].last.timestamp
    decreases n
  {
    hide IsRun;
    if m < n {
      LaterIsNewer(run, m, n - 1);
      StepAccepts(run, n - 1);
      var a, b := run[n - 1].accepted, run[n].accepted;
      forall j | |run[m].accepted| <= j < |b| ensures b[j].timestamp > run[m].last.timestamp {
        if j >= |a| {
          assert b[|a|..][j - |a|] == b[j];
        } else {
          assert b[j] == a[j];
        }
      }
    }
  }

  /** In every run: what was registered by a commit is not accepted by any later one. */
  lemma NotAcceptedLater(run: seq<State>, m: nat, n: nat, j: nat)
    requires IsRun(run) && m <= n < |run| && |run[m].accepted| <= j < |run[n].accepted|
    ensures run[m].mark <= |run[m].remote.added| && run[n].accepted[j] !in run[m].remote.added[..run[m].mark]
  {
    hide IsRun, RemoteOk, PcOk, AcceptedOk, Newer;
    RunKeepsInv(run, m);
    LaterIsNewer(run, m, n);
  }

  /** The commit that accepted the k-th entry. */
  lemma {:induction false} CommitOf(run: seq<State>, n: nat, k: nat) returns (m: nat)
    requires IsRun(run) && n < |run| && k < |run[n].accepted|
    ensures m < n && |run[m].accepted| <= k < |run[m + 1].accepted|
  {
    hide IsRun;
    assert n > 0 by {
      if n == 0 {
        NothingAtFirst(run);
      }
    }
    if k < |run[n - 1].accepted| {
      m := CommitOf(run, n - 1, k);
    } else {
      m := n - 1;
    }
  }

  lemma NothingAtFirst(run: seq<State>)
    requires IsRun(run)
    ensures run[0].accepted == [] && Found(run[0])
  {
    hide Step, RemoteOk;
  }

  /**
   * In every run no empty entry is accepted, and no entry that was registered when it was accepted
   * is accepted again. As long as no descriptor was copied across the end of a modification, no
   * entry at all is accepted twice.
   */
  lemma NeverAcceptedTwice(run: seq<State>, n: nat, k: nat, l: nat) returns (m: nat)
    requires IsRun(run) && n < |run| && k < l < |run[n].accepted|
    ensures m < n && |run[m].accepted| <= k < |run[m + 1].accepted|
    ensures run[n].accepted[k] in run[m].remote.added ==> run[n].accepted[k] != run[n].accepted[l]
    ensures run[n].steady ==> run[n].accepted[k] != run[n].accepted[l]
    ensures run[n].accepted[k].symfileSize > 0
  {
    hide IsRun, RemoteOk, SinceOk, PcOk;
    m := CommitOf(run, n, k);
    StepAccepts(run, m);
    LaterIsNewer(run, m + 1, n);
    var a, b := run[m].accepted, run[m + 1].accepted;
    assert b[|a|..][k - |a|] == b[k] == run[n].accepted[k];
    if l < |b| {
      assert b[|a|..][l - |a|] == b[l] == run[n].accepted[l];
    } else {
      NotAcceptedLater(run, m + 1, n, l);
      assert run[m].remote.added[..|run[m].remote.added|] == run[m].remote.added;
    }
    RunKeepsInv(run, n);
  }

  // ------------------------------------------------------------- a registration missed

  const MissedEntry: Entry := Entry(8, 16, 4, 1, 0)

  /** The empty list at first, and the list with one entry. */
  function Before(pc: Pc, seqlock: nat): State
  {
    State(Remote(2, seqlock, 0, 0, map[], [], 0, []), Descriptor(0, 0, 0, 0), pc, 0, [], true)
  }

  function After(pc: Pc): State
  {
    State(Remote(2, 2, 1, 8, map[8 := Raw(0, 0, 16, 4, 1, 0)], [MissedEntry], 1, [MissedEntry]),
          Descriptor(0, 0, 0, 0), pc, 0, [], true)
  }

  /** The head is copied from an empty list, the seqlock and the timestamp after one registration. */
  function MissingRun(): seq<State>
  {
    var d := Descriptor(2, 1, 0, 0);
    [Before(Idle, 0), Before(HeadRead(0, 0), 0), Before(HeadRead(0, 0), 1), After(HeadRead(0, 0)),
     After(SeqlockRead(0, 0, 2)), After(Reading(d, 1, 0, 0, 0, {}, [])), After(Checking(d, [])),
     State(After(Idle).remote, d, Idle, 1, [], false)]
  }

  lemma MissingIsRun()
    ensures IsRun(MissingRun())
  {
    hide Step;
    var run := MissingRun();
    forall i | 0 <= i < |run| - 1 ensures Step(run[i], run[i + 1]) {
      MissingStep(i);
    }
  }

  /** That run commits without the new entry, and the entry does not count as new ever after. */
  lemma RegistrationMissed()
    ensures IsRun(MissingRun())
    ensures var s, s' := MissingRun()[6], MissingRun()[7];
            && Commits(s) && Wanted(s) == [MissedEntry] && s.pc.entries == [] && s'.accepted == []
            && s'.last == s.pc.desc && MissedEntry in s'.remote.list && MissedEntry !in s'.remote.added[s'.mark..]
  {
    hide IsRun;
    MissingIsRun();
    var s := MissingRun()[6];
    assert s.remote.added[0..] == [MissedEntry];
    assert Among([MissedEntry], [MissedEntry]) == [MissedEntry] + Among([], [MissedEntry]);
    assert NonEmpty([MissedEntry]) == [MissedEntry] + NonEmpty([]);
  }

  lemma MissingStep(i: nat)
    requires i < 7
    ensures Step(MissingRun()[i], MissingRun()[i + 1])
  {
    var run := MissingRun();
    if i == 1 {
      assert Begin(run[1].remote, run[2].remote);
    } else if i == 2 {
      assert AddEntry(run[2].remote, run[3].remote, MissedEntry);
    } else {
      assert run[i + 1] == ReaderNext(run[i]);
    }
  }

  // ------------------------------------------------------------ a stray accepted twice

  /** What lies at address 40: it was never registered. */
  const Stray: Entry := Entry(40, 16, 4, 9, 0)

  /**
   * Twice the head is copied in the middle of a modification, when it names address 40, and the
   * fields behind it after the modification.
   */
  function Halfway(seqlock: nat, head: nat, one: bool, last: Descriptor, pc: Pc, mark: nat, accepted: seq<Entry>): State
  {
    var list := if one then [MissedEntry] else [];
    State(Remote(2, seqlock, seqlock / 2, head, StrayMemory(), list, seqlock / 2, if seqlock < 2 then [] else [MissedEntry]),
          last, pc, mark, accepted, seqlock < 2 || mark == 0)
  }

  function StrayMemory(): map<nat, Raw>
  {
    map[8 := Raw(0, 0, 16, 4, 1, 0), 40 := Raw(0, 0, 16, 4, 9, 0)]
  }

  function StrayRun(): seq<State>
  {
    var d0, d1, d2 := Descriptor(0, 0, 0, 0), Descriptor(2, 1, 40, 1), Descriptor(4, 2, 40, 3);
    [Halfway(0, 0, false, d0, Idle, 0, []),
     Halfway(1, 0, false, d0, Idle, 0, []),
     Halfway(1, 40, false, d0, Idle, 0, []),
     Halfway(1, 40, false, d0, HeadRead(40, 1), 0, []),
     Halfway(2, 8, true, d0, HeadRead(40, 1), 0, []),
     Halfway(2, 8, true, d0, SeqlockRead(40, 1, 2), 0, []),
     Halfway(2, 8, true, d0, Reading(d1, 1, 0, 40, 0, {}, []), 0, []),
     Halfway(2, 8, true, d0, Reading(d1, 1, 1, 0, 40, {40}, [Stray]), 0, []),
     Halfway(2, 8, true, d0, Checking(d1, [Stray]), 0, []),
     Halfway(2, 8, true, d1, Idle, 1, [Stray]),
     Halfway(3, 8, true, d1, Idle, 1, [Stray]),
     Halfway(3, 40, true, d1, Idle, 1, [Stray]),
     Halfway(3, 40, true, d1, HeadRead(40, 3), 1, [Stray]),
     Halfway(4, 0, false, d1, HeadRead(40, 3), 1, [Stray]),
     Halfway(4, 0, false, d1, SeqlockRead(40, 3, 4), 1, [Stray]),
     Halfway(4, 0, false, d1, Reading(d2, 1, 0, 40, 0, {}, []), 1, [Stray]),
     Halfway(4, 0, false, d1, Reading(d2, 1, 1, 0, 40, {40}, [Stray]), 1, [Stray]),
     Halfway(4, 0, false, d1, Checking(d2, [Stray]), 1, [Stray]),
     Halfway(4, 0, false, d2, Idle, 1, [Stray, Stray])]
  }

  lemma IsStep(s: State)
    ensures Step(s, ReaderNext(s))
  {
    hide ReaderNext;
  }

  lemma AddIsStep(s: State, s': State, e: Entry)
    requires AddEntry(s.remote, s'.remote, e) && s' == s.(remote := s'.remote)
    ensures Step(s, s')
  {
    hide AddEntry, RemoveEntry, ReaderNext;
  }

  lemma RemoveIsStep(s: State, s': State, k: nat)
    requires RemoveEntry(s.remote, s'.remote, k) && s' == s.(remote := s'.remote)
    ensures Step(s, s')
  {
    hide AddEntry, RemoveEntry, ReaderNext;
  }

  lemma StrayBegins(i: nat)
    requires i in {0, 1, 9, 10}
    ensures Step(StrayRun()[i], StrayRun()[i + 1])
  {
    var s, s' := StrayRun()[i], StrayRun()[i + 1];
    if i == 0 || i == 9 {
      assert Begin(s.remote, s'.remote);
    } else {
      assert Scribble(s.remote, s'.remote);
    }
  }

  lemma StrayEnds()
    ensures Step(StrayRun()[3], StrayRun()[4]) && Step(StrayRun()[12], StrayRun()[13])
  {
    hide Step;
    AddIsStep(StrayRun()[3], StrayRun()[4], MissedEntry);
    RemoveIsStep(StrayRun()[12], StrayRun()[13], 0);
  }

  lemma StrayLoads(i: nat)
    requires i in {2, 4, 5, 11, 13, 14}
    ensures StrayRun()[i + 1] == ReaderNext(StrayRun()[i])
  {
    hide ReadEntry, Check;
  }

  lemma StrayCommits(i: nat)
    requires i in {7, 8, 16, 17}
    ensures StrayRun()[i + 1] == ReaderNext(StrayRun()[i])
  {
  }

  lemma StrayEntry(i: nat)
    requires i == 6 || i == 15
    ensures StrayRun()[i + 1] == ReaderNext(StrayRun()[i])
  {
    var s := StrayRun()[i];
    assert s.pc.seen + {40} == {40} && s.pc.entries + [Stray] == [Stray];
  }

  /** An entry that was never registered can be accepted twice. */
  lemma StrayAcceptedTwice()
    ensures IsRun(StrayRun()) && StrayRun()[18].accepted == [Stray, Stray]
    ensures Stray !in StrayRun()[18].remote.added
  {
    hide Step, ReaderNext;
    var run := StrayRun();
    forall i | 0 <= i < |run| - 1 ensures Step(run[i], run[i + 1]) {
      if i in {0, 1, 9, 10} {
        StrayBegins(i);
      } else if i == 3 || i == 12 {
        StrayEnds();
      } else {
        IsStep(run[i]);
        if i == 6 || i == 15 {
          StrayEntry(i);
        } else if i in {2, 4, 5, 11, 13, 14} {
          StrayLoads(i);
        } else {
          StrayCommits(i);
        }
      }
    }
  }

  // ------------------------------------------------------ a reader left undisturbed

  function ReaderSteps(s: State, n: nat): State
    decreases n
  {
    if n == 0 then s else ReaderSteps(ReaderNext(s), n - 1)
  }

  /** What JITCodeEntry::Valid asks of version 1, and JITCodeEntryV2::Valid of the others. */
  ghost predicate ValidEntry(version: nat, e: Entry)
  {
    (version == 1 ==> e.symfileAddr > 0 && e.symfileSize > 0) && (version != 1 ==> e.seqlock % 2 == 0)
  }

  /** How many entries a reader looks at if nothing breaks off its walk: one old entry may be the last. */
  ghost function Looked(r: Remote, last: Descriptor, limit: nat): nat
  {
    Min(Min(limit, |r.list|), |Newer(r.list, last.timestamp)| + 1)
  }

  ghost predicate ValidFrom(r: Remote, i: nat, n: nat)
  {
    forall k :: i <= k < n && k < |r.list| ==> ValidEntry(r.version, r.list[k])
  }

  /** It started from the list's head, and the process still rests. */
  ghost predicate Undisturbed(s: State)
  {
    s.pc.Reading? && s.remote.seqlock == s.pc.desc.seqlock && s.pc.desc.headAt == s.pc.desc.seqlock
  }

  /** One round of its walk: over, broken off at an invalid entry, or one entry further. */
  lemma WalkGoesOn(s: State)
    requires Inv(s) && Undisturbed(s)
    ensures var s', n := ReaderNext(s), Looked(s.remote, s.last, s.pc.limit);
            if s.pc.i >= n then s' == s.(pc := Checking(s.pc.desc, s.pc.entries))
            else && s.pc.i < |s.remote.list|
                 && if !ValidEntry(s.remote.version, s.remote.list[s.pc.i]) then s' == s.(pc := Idle)
                    else || (s' == s.(pc := Checking(s.pc.desc, s.pc.entries)) && n == s.pc.i + 1)
                         || (s'.pc.Reading? && s' == s.(pc := s'.pc) && s'.pc.i == s.pc.i + 1
                             && s'.pc.desc == s.pc.desc && s'.pc.limit == s.pc.limit)
  {
    hide Walked, Strayed, Newer, NonEmpty, ListOk, HistoryOk, InMemory, SinceOk, AcceptedOk;
    var p, r, t := s.pc, s.remote, s.last.timestamp;
    NextEntry(r, t, p.i, p.current, p.prev, p.seen, p.entries);
    WalkedFacts(r.list, t, p.i, p.current, p.prev, p.seen, p.entries);
    NewerSplit(r.list, t, p.i);
    if p.i == |r.list| || r.list[p.i].timestamp <= t {
      NewerPrefix(r.list, r.lastAction, t, p.i);
    } else {
      NewerSplit(r.list, t, p.i + 1);
    }
  }

  /** The state after a commit of everything wanted. */
  ghost function Committed(s: State, d: Descriptor): State
    requires s.mark <= |s.remote.added|
  {
    State(s.remote, d, Idle, |s.remote.added|, s.accepted + Wanted(s), s.steady)
  }

  lemma CheckCommits(s: State)
    requires Inv(s) && Commits(s) && s.pc.desc.headAt == s.pc.desc.seqlock
    ensures s.mark <= |s.remote.added| && ReaderNext(s) == Committed(s, s.pc.desc)
  {
    hide Inv, Wanted, Outside;
    CommitExactIff(s);
  }

  lemma {:induction false} WalkEnds(s: State) returns (n: nat)
    requires Inv(s) && Undisturbed(s)
    ensures s.mark <= |s.remote.added|
    ensures ReaderSteps(s, n) == if ValidFrom(s.remote, s.pc.i, Looked(s.remote, s.last, s.pc.limit))
                                 then Committed(s, s.pc.desc) else s.(pc := Idle)
    decreases s.pc.limit - s.pc.i
  {
    hide Inv, ReadEntry, ValidEntry, Looked, Committed, Wanted;
    LimitBound(s);
    var s1 := ReaderNext(s);
    WalkGoesOn(s);
    ReaderKeepsInv(s);
    if s1.pc.Checking? {
      n := 2;
      assert ReaderSteps(s, 2) == ReaderSteps(s1, 1) == ReaderSteps(ReaderNext(s1), 0);
      CheckCommits(s1);
      CommittedSame(s, s1, s.pc.desc);
    } else if s1.pc.Reading? {
      LimitBound(s1);
      var m := WalkEnds(s1);
      n := m + 1;
      CommittedSame(s, s1, s.pc.desc);
    } else {
      n := 1;
      assert ReaderSteps(s, 1) == ReaderSteps(s1, 0);
    }
  }

  lemma CommittedSame(s: State, s1: State, d: Descriptor)
    requires s1 == s.(pc := s1.pc) && s.mark <= |s.remote.added|
    ensures Committed(s, d) == Committed(s1, d)
  {
  }

  lemma LimitBound(s: State)
    requires Inv(s) && s.pc.Reading?
    ensures s.pc.i <= s.pc.limit && s.mark <= |s.remote.added|
  {
  }

  lemma StepsAdd(s: State, m: nat, n: nat)
    ensures ReaderSteps(s, m + n) == ReaderSteps(ReaderSteps(s, m), n)
    decreases m
  {
    if m > 0 {
      StepsAdd(ReaderNext(s), m - 1, n);
    }
  }

  /** The reader alone never goes back behind a commit. */
  lemma {:induction false} LastGrows(s: State, n: nat)
    requires Inv(s)
    ensures var s' := ReaderSteps(s, n);
            Inv(s') && (s'.last == s.last || s'.last.seqlock > s.last.seqlock)
    decreases n
  {
    hide Inv;
    if n > 0 {
      ReaderKeepsInv(s);
      LastGrows(ReaderNext(s), n - 1);
      if Commits(s) {
        CommitMoves(s);
      }
    }
  }

  /** A reader that comes back to where it was goes on like that for ever. */
  lemma {:induction false} CycleStays(s: State, n: nat, m: nat)
    requires Inv(s) && n > 0 && ReaderSteps(s, n) == s
    ensures ReaderSteps(s, m).last == s.last
    decreases m
  {
    hide Inv, ReaderNext, ReaderSteps;
    if m >= n {
      StepsAdd(s, n, m - n);
      CycleStays(s, n, m - n);
    } else {
      StepsAdd(s, m, n - m);
      LastGrows(s, m);
      LastGrows(ReaderSteps(s, m), n - m);
    }
  }

  /**
   * When the process has finished a modification and rests, the reader catches up with it if and only
   * if every entry it looks at is valid: an even seqlock, or for version 1 a symfile that is there.
   * It looks at the new entries and one more, at most half the seqlock's distance in all. Otherwise
   * it comes back to where it was, and never commits while the process rests.
   */
  lemma UndisturbedReaderCommits(s: State) returns (n: nat)
    requires Inv(s) && s.pc == Idle
    requires s.remote.seqlock % 2 == 0 && s.remote.seqlock != s.last.seqlock
    ensures s.last.seqlock <= s.remote.seqlock && s.mark <= |s.remote.added| && n > 0
    ensures var r := s.remote;
            var looked := Min(Min((r.seqlock - s.last.seqlock) / 2, |r.list|), |Newer(r.list, s.last.timestamp)| + 1);
            if forall k :: 0 <= k < looked ==>
                 if r.version == 1 then r.list[k].symfileAddr > 0 && r.list[k].symfileSize > 0 else r.list[k].seqlock % 2 == 0
            then && ReaderSteps(s, n).pc == Idle
                 && ReaderSteps(s, n).last == Descriptor(r.seqlock, r.timestamp, r.head, r.seqlock)
                 && ReaderSteps(s, n).accepted == s.accepted + Wanted(s)
            else ReaderSteps(s, n) == s && forall m :: ReaderSteps(s, m).last == s.last
  {
    hide Inv, ReadEntry, Newer, Wanted;
    var s1 := ReaderNext(s);
    var s2 := ReaderNext(s1);
    var s3 := ReaderNext(s2);
    ReaderKeepsInv(s);
    ReaderKeepsInv(s1);
    ReaderKeepsInv(s2);
    RestFacts(s);
    var d := Descriptor(s.remote.seqlock, s.remote.timestamp, s.remote.head, s.remote.seqlock);
    var limit := (s.remote.seqlock - s.last.seqlock) / 2;
    assert s3 == s.(pc := Reading(d, limit, 0, d.head, 0, {}, []));
    var m := WalkEnds(s3);
    n := m + 3;
    CommittedSame(s, s3, d);
    assert ReaderSteps(s, n) == ReaderSteps(s1, m + 2) == ReaderSteps(s2, m + 1) == ReaderSteps(s3, m);
    if !ValidFrom(s.remote, 0, Looked(s.remote, s.last, limit)) {
      assert ReaderSteps(s, n) == s;
      forall j: nat ensures ReaderSteps(s, j).last == s.last {
        CycleStays(s, n, j);
      }
    }
  }

  lemma RestFacts(s: State)
    requires Inv(s)
    ensures s.last.seqlock <= s.remote.seqlock < TWO_32
  {
  }

  // ---------------------------------------------------------- only valid entries accepted

  ghost predicate AllValid(version: nat, entries: seq<Entry>)
  {
    forall e :: e in entries ==> ValidEntry(version, e)
  }

  ghost predicate Validated(s: State)
  {
    && AllValid(s.remote.version, s.accepted)
    && (s.pc.Reading? ==> AllValid(s.remote.version, s.pc.entries))
    && (s.pc.Checking? ==> AllValid(s.remote.version, s.pc.entries))
  }

  lemma StepKeepsValidated(s: State, s': State)
    requires Validated(s) && Step(s, s')
    ensures Validated(s')
  {
    hide InMemory;
  }

  lemma {:induction false} RunKeepsValidated(run: seq<State>, n: nat)
    requires IsRun(run) && n < |run|
    ensures Validated(run[n])
  {
    hide Step, Validated;
    if n > 0 {
      RunKeepsValidated(run, n - 1);
      assert Step(run[n - 1], run[n - 1 + 1]);
      StepKeepsValidated(run[n - 1], run[n]);
    } else {
      ValidatedFirst(run[0]);
    }
  }

  lemma ValidatedFirst(s: State)
    requires Init(s)
    ensures Validated(s)
  {
  }

  /**
   * In every run, whatever the process does meanwhile, an accepted entry had an even seqlock when it
   * was read; in version 1, which has no seqlock, its symfile was there.
   */
  lemma AcceptedWereValid(run: seq<State>, n: nat, k: nat)
    requires IsRun(run) && n < |run| && k < |run[n].accepted|
    ensures run[n].remote.version != 1 ==> run[n].accepted[k].seqlock % 2 == 0
    ensures run[n].remote.version == 1 ==> run[n].accepted[k].symfileAddr > 0 && run[n].accepted[k].symfileSize > 0
  {
    hide IsRun;
    RunKeepsValidated(run, n);
    assert run[n].accepted[k] in run[n].accepted;
  }
}
