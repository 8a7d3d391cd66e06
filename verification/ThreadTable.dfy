/** Threads: the fixed array of thread slots that ProcessDump looks up, fills and empties. */
module ThreadTable {
  import opened Common
  import opened Trace

  /** GetHashEntry: a pid_t taken as a size_t, modulo the number of slots. */
  function HashEntry(tid: int, max: nat): (h: nat)
    requires max > 0
    ensures h < max
  {
    tid % TWO_64 % max
  }

  /** The slots in use. */
  ghost function Used(tids: seq<int>): set<nat>
  {
    set j: nat | j < |tids| && tids[j] != 0
  }

  ghost predicate Distinct(tids: seq<int>)
  {
    forall i, j :: 0 <= i < j < |tids| && tids[i] != 0 ==> tids[i] != tids[j]
  }

  /** The used slots among the first n that a search from `start` looks at. */
  ghost function UsedPassed(tids: seq<int>, start: nat, n: nat): set<nat>
  {
    set j: nat | j < |tids| && tids[j] != 0 && Passed(|tids|, start, n, j)
  }

  lemma PassedAll(tids: seq<int>, start: nat)
    requires start < |tids|
    ensures UsedPassed(tids, start, |tids|) == Used(tids)
  {
  }

  lemma WholePassed(tids: seq<int>)
    ensures UsedPassed(tids, 0, |tids|) == Used(tids)
  {
  }

  lemma PassedOneMore(tids: seq<int>, start: nat, n: nat)
    requires start < |tids| && n < |tids|
    ensures var at := Spot(|tids|, start, n);
            && at < |tids|
            && NextIndex(|tids|, at) == (if n + 1 < |tids| then Spot(|tids|, start, n + 1) else start)
            && UsedPassed(tids, start, n + 1) == UsedPassed(tids, start, n) + (if tids[at] != 0 then {at} else {})
            && at !in UsedPassed(tids, start, n)
  {
  }

  /** None of the first n slots that a search from `start` looks at holds the tid. */
  ghost predicate NotYet(tids: seq<int>, start: nat, n: nat, tid: int)
  {
    forall j: nat :: j < |tids| && Passed(|tids|, start, n, j) ==> tids[j] != tid
  }

  lemma NotYetNext(tids: seq<int>, start: nat, n: nat, tid: int)
    requires start < |tids| && n < |tids| && NotYet(tids, start, n, tid)
    ensures Spot(|tids|, start, n) < |tids|
    ensures tids[Spot(|tids|, start, n)] != tid ==> NotYet(tids, start, n + 1, tid)
  {
  }

  lemma StillAhead(tids: seq<int>, start: nat, n: nat)
    requires start < |tids| && n <= |tids| && |UsedPassed(tids, start, n)| != |Used(tids)|
    ensures n < |tids|
  {
    PassedAll(tids, start);
  }

  lemma AllLookedAt(tids: seq<int>, start: nat, n: nat, tid: int)
    requires start < |tids| && |UsedPassed(tids, start, n)| == |Used(tids)| && NotYet(tids, start, n, tid)
    ensures tid != 0 ==> tid !in tids
  {
    SubsetSize(UsedPassed(tids, start, n), Used(tids));
    forall j: nat | j < |tids| && tids[j] != 0 ensures tids[j] != tid {
      assert j in Used(tids);
    }
  }

  lemma OneMoreUsed(tids: seq<int>, slot: nat, tid: int)
    requires slot < |tids| && tids[slot] == 0 && tid != 0
    ensures |Used(tids[slot := tid])| == |Used(tids)| + 1
  {
    var t := tids[slot := tid];
    forall j: nat ensures j in Used(t) <==> j in Used(tids) || j == slot {
      assert j < |tids| && j != slot ==> t[j] == tids[j];
    }
    assert Used(t) == Used(tids) + {slot} && slot !in Used(tids);
  }

  lemma UsedChange(tids: seq<int>, slot: nat, tid: int)
    requires slot < |tids|
    ensures tids[slot] == 0 && tid != 0 ==> |Used(tids[slot := tid])| == |Used(tids)| + 1
    ensures tids[slot] != 0 && tid == 0 ==> |Used(tids[slot := tid])| == |Used(tids)| - 1
    ensures tids[slot] == 0 && tid == 0 ==> tids[slot := tid] == tids
  {
    hide Used;
    var t := tids[slot := tid];
    if tids[slot] == 0 && tid != 0 {
      OneMoreUsed(tids, slot, tid);
    } else if tids[slot] != 0 && tid == 0 {
      assert t[slot := tids[slot]] == tids;
      OneMoreUsed(t, slot, tids[slot]);
    }
  }

  lemma RoomAt(tids: seq<int>, slot: nat)
    requires slot < |tids| && tids[slot] == 0
    ensures |Used(tids)| < |tids|
  {
    AtMost(tids, |tids|);
    assert slot !in Used(tids);
    UsedChange(tids, slot, 1);
    AtMost(tids[slot := 1], |tids|);
  }

  lemma {:induction false} AtMost(tids: seq<int>, n: nat)
    requires n <= |tids|
    ensures |Used(tids[..n])| <= n && (n == |tids| ==> |Used(tids)| <= n)
  {
    if n > 0 {
      AtMost(tids, n - 1);
      var before, now := Used(tids[..n - 1]), Used(tids[..n]);
      assert now <= before + {n - 1};
      SubsetSize(now, before + {n - 1});
    }
    assert n == |tids| ==> tids[..n] == tids;
  }

  lemma DistinctChange(tids: seq<int>, slot: nat, tid: int)
    requires slot < |tids| && tids[slot] == 0 && Distinct(tids)
    ensures tid != 0 ==> (Distinct(tids[slot := tid]) <==> tid !in tids)
    ensures tid == 0 ==> tids[slot := tid] == tids
  {
    var t := tids[slot := tid];
    if tid != 0 && tid in tids {
      var j :| 0 <= j < |tids| && tids[j] == tid;
      assert t[j] == tid && t[slot] == tid && j != slot;
      assert if j < slot then !Distinct(t) else !Distinct(t);
    }
  }

  lemma DistinctCleared(tids: seq<int>, slot: nat)
    requires slot < |tids| && Distinct(tids)
    ensures Distinct(tids[slot := 0])
  {
  }

  lemma UsedPassedSubset(tids: seq<int>, start: nat, n: nat)
    ensures UsedPassed(tids, start, n) <= Used(tids)
  {
  }

  lemma NoneBehind(tids: seq<int>, i: nat)
    requires i <= |tids| && |UsedPassed(tids, 0, i)| >= |Used(tids)|
    ensures forall j: nat :: i <= j < |tids| ==> tids[j] == 0
  {
    UsedPassedSubset(tids, 0, i);
    SubsetSize(UsedPassed(tids, 0, i), Used(tids));
    forall j: nat | i <= j < |tids| ensures tids[j] == 0 {
      assert j !in UsedPassed(tids, 0, i);
    }
  }

  /** What FindThread still has to count after n rounds of its loop, for a tid it does not meet. */
  ghost function LeftAfter(tids: seq<int>, index: nat, entries: int, n: nat): int
    requires index < |tids|
    decreases n
  {
    if n == 0 then entries
    else LeftAfter(tids, NextIndex(|tids|, index), if tids[index] != 0 then entries - 1 else entries, n - 1)
  }

  /**
   * Why a tid of zero is kept out: created in an empty table it leaves a count of one and no used
   * slot, and a search for any other tid then goes round for ever.
   */
  lemma {:induction false} EmptySearchNeverEnds(tids: seq<int>, tid: int, index: nat, entries: int, n: nat)
    requires Used(tids) == {} && tid != 0 && index < |tids| && entries != 0
    ensures LeftAfter(tids, index, entries, n) != 0 && tids[index] != tid
    decreases n
  {
    assert index !in Used(tids);
    if n > 0 {
      EmptySearchNeverEnds(tids, tid, NextIndex(|tids|, index), entries, n - 1);
    }
  }

  datatype Found = NotFound | At(slot: nat)

  class Threads {
    const max: nat             // max_threads_
    const tids: array<int>     // threads_[i].tid_, zero for an empty slot
    var num: nat               // num_threads_

    ghost predicate Valid()
      reads this, tids
    {
      && tids.Length == max > 0
      && num == |Used(tids[..])|
      && Distinct(tids[..])
    }

    constructor (max: nat)
      requires max > 0
      ensures this.max == max && fresh(tids) && Valid() && num == 0
      ensures forall j :: 0 <= j < max ==> tids[j] == 0
    {
      this.max := max;
      tids := new int[max](_ => 0);
      num := 0;
      new;
      assert Used(tids[..]) == {};
    }

    /** Exact lookup, although Finish empties slots in the middle of probe sequences. */
    method FindThread(tid: int) returns (r: Found)
      requires Valid()
      ensures r.At? ==> r.slot < max && tids[r.slot] == tid
      ensures tid != 0 ==> (r.At? <==> tid in tids[..])
    {
      ghost var t := tids[..];
      var start := HashEntry(tid, max);
      var index := start;
      var entries := num;
      ghost var n := 0;
      assert UsedPassed(t, start, 0) == {} && NotYet(t, start, 0, tid);
      hide Used, UsedPassed, HashEntry, Distinct, NotYet;
      while entries != 0
        invariant n <= max && (n < max ==> index == Spot(max, start, n))
        invariant entries + |UsedPassed(t, start, n)| == num
        invariant NotYet(t, start, n, tid)
        decreases max - n
      {
        StillAhead(t, start, n);
        PassedOneMore(t, start, n);
        NotYetNext(t, start, n, tid);
        var cur := tids[index];
        if cur == tid {
          return At(index);
        }
        if cur != 0 {
          entries := entries - 1;
        }
        index := index + 1;
        if index == max {
          index := 0;
        }
        n := n + 1;
      }
      AllLookedAt(t, start, n, tid);
      return NotFound;
    }

    /** An empty slot exists whenever fewer threads are there than slots. */
    method FindEmptyEntry(tid: int) returns (r: Found)
      requires Valid()
      ensures r.At? ==> r.slot < max && tids[r.slot] == 0
      ensures r.At? <==> num < max
    {
      ghost var t := tids[..];
      var start := HashEntry(tid, max);
      var index := start;
      assert UsedPassed(t, start, 0) == {};
      hide UsedPassed, HashEntry, Distinct, Used;
      for entries := 0 to max
        invariant entries < max ==> index == Spot(max, start, entries)
        invariant |UsedPassed(t, start, entries)| == entries
      {
        PassedOneMore(t, start, entries);
        if tids[index] == 0 {
          RoomAt(t, index);
          return At(index);
        }
        index := index + 1;
        if index == max {
          index := 0;
        }
      }
      PassedAll(t, start);
      return NotFound;
    }

    /**
     * Fails only when the table is full. Otherwise one empty slot gets the tid, and the
     * table stays valid exactly when the tid is neither zero nor already there.
     */
    method CreateThread(tid: int) returns (r: Found)
      requires Valid()
      modifies this, tids
      ensures r.At? <==> old(num) < max
      ensures r.NotFound? ==> tids[..] == old(tids[..]) && num == old(num)
      ensures r.At? ==>
                && r.slot < max && old(tids[r.slot]) == 0
                && tids[..] == old(tids[..])[r.slot := tid] && num == old(num) + 1
                && (Valid() <==> tid != 0 && tid !in old(tids[..]))
    {
      ghost var t := tids[..];
      AtMost(t, max);
      if num == max {
        return NotFound;
      }
      r := FindEmptyEntry(tid);
      assert r.At?;   // the second error exit is not taken
      tids[r.slot] := tid;
      assert tids[..] == t[r.slot := tid];
      num := num + 1;
      UsedChange(t, r.slot, tid);
      DistinctChange(t, r.slot, tid);
      hide Used, Distinct;
    }

    method Finish(slot: nat)
      requires Valid() && slot < max && tids[slot] != 0
      modifies this, tids
      ensures Valid()
      ensures tids[..] == old(tids[..])[slot := 0] && num == old(num) - 1
    {
      ghost var t := tids[..];
      tids[slot] := 0;
      assert tids[..] == t[slot := 0];
      UsedChange(t, slot, 0);
      assert Used(t) != {} by { assert slot in Used(t); }
      num := num - 1;
      DistinctCleared(t, slot);
      hide Used, Distinct;
    }

    /**
     * Stays within the table exactly if it counts no more threads than there are used slots, and then
     * waits for the first `num` of them: for exactly the threads there are, if the count is right.
     */
    method WaitForAllToQuiesce() returns (inside: bool, waited: seq<nat>)
      requires tids.Length == max
      ensures inside <==> num <= |Used(tids[..])|
      ensures forall j: nat :: j in waited ==> j < max && tids[j] != 0
      ensures inside ==> |waited| == num
      ensures num >= |Used(tids[..])| ==> forall j: nat :: j in waited <==> j < max && tids[j] != 0
    {
      ghost var t := tids[..];
      waited := [];
      var i, threads := 0, 0;
      assert UsedPassed(t, 0, 0) == {};
      hide Used, UsedPassed, Distinct;
      while threads < num
        invariant i <= max && |waited| == threads
        invariant threads == |UsedPassed(t, 0, i)| <= num
        invariant forall j: nat :: j in waited <==> j < i && t[j] != 0
        decreases max - i
      {
        if i == max {
          WholePassed(t);
          return false, waited;   // the source reads on behind the table
        }
        PassedOneMore(t, 0, i);
        if tids[i] != 0 {
          threads := threads + 1;
          waited := waited + [i];
        }
        i := i + 1;
      }
      inside := true;
      UsedPassedSubset(t, 0, i);
      SubsetSize(UsedPassed(t, 0, i), Used(t));
      if num == |Used(t)| {
        NoneBehind(t, i);
      }
    }

    method FinishAll()
      requires Valid()
      modifies this, tids
      ensures Valid() && num == 0
      ensures forall j :: 0 <= j < max ==> tids[j] == 0
    {
      for i := 0 to max
        invariant Valid()
        invariant forall j :: 0 <= j < i ==> tids[j] == 0
      {
        if tids[i] != 0 {
          ghost var t := tids[..];
          Finish(i);
          assert forall j :: 0 <= j < i ==> tids[..][j] == t[j];
        }
      }
      assert Used(tids[..]) == {};
    }
  }

  // --------------------------------------------------- the table over a whole trace

  /** The tids with a running thread after the first i entries. */
  ghost function Active(trace: seq<Entry>, i: nat): set<int>
    requires i <= |trace|
  {
    if i == 0 then {}
    else if trace[i - 1].kind.ThreadDone? then Active(trace, i - 1) - {trace[i - 1].tid}
    else Active(trace, i - 1) + {trace[i - 1].tid}
  }

  /** At no entry are more threads needed than there are slots. */
  ghost predicate Fits(trace: seq<Entry>, i: nat, max: nat)
    requires i <= |trace|
  {
    forall k :: 0 <= k < i ==> |Active(trace, k) + {trace[k].tid}| <= max
  }

  ghost function TidSet(tids: seq<int>): set<int>
  {
    set j: nat | j < |tids| && tids[j] != 0 :: tids[j]
  }

  lemma TidSetChange(tids: seq<int>, slot: nat, tid: int)
    requires slot < |tids| && Distinct(tids)
    ensures tids[slot] == 0 && tid != 0 ==> TidSet(tids[slot := tid]) == TidSet(tids) + {tid}
    ensures tids[slot] != 0 && tid == 0 ==> TidSet(tids[slot := tid]) == TidSet(tids) - {tids[slot]}
  {
    var t := tids[slot := tid];
    assert forall j: nat :: j < |tids| && j != slot ==> t[j] == tids[j];
    if tids[slot] == 0 && tid != 0 {
      assert t[slot] == tid;
      forall x | x in TidSet(tids) ensures x in TidSet(t) {
        var j: nat :| j < |tids| && tids[j] != 0 && tids[j] == x;
        assert t[j] == x;
      }
    } else if tids[slot] != 0 && tid == 0 {
      forall x | x in TidSet(tids) && x != tids[slot] ensures x in TidSet(t) {
        var j: nat :| j < |tids| && tids[j] != 0 && tids[j] == x;
        assert t[j] == x;
      }
    }
  }

  lemma NoTids(tids: seq<int>)
    requires |Used(tids)| == 0
    ensures TidSet(tids) == {}
  {
    forall j: nat | j < |tids| ensures tids[j] == 0 {
      assert j !in Used(tids);
    }
  }

  lemma {:induction false} TidsAsManyAsUsed(tids: seq<int>, n: nat)
    requires n <= |tids| && Distinct(tids)
    ensures |TidSet(tids[..n])| == |Used(tids[..n])|
  {
    if n > 0 {
      TidsAsManyAsUsed(tids, n - 1);
      var t := tids[..n - 1] + [0];
      assert Distinct(t);
      var front := tids[..n - 1];
      forall x ensures x in TidSet(t) <==> x in TidSet(front) {
        if x in TidSet(front) {
          var j: nat :| j < |front| && front[j] != 0 && front[j] == x;
          assert t[j] == x;
        }
      }
      assert TidSet(t) == TidSet(front);
      assert Used(t) == Used(tids[..n - 1]);
      if tids[n - 1] == 0 {
        assert tids[..n] == t;
      } else {
        assert tids[..n] == t[n - 1 := tids[n - 1]];
        TidSetChange(t, n - 1, tids[n - 1]);
        UsedChange(t, n - 1, tids[n - 1]);
        assert tids[n - 1] !in TidSet(t);
      }
    }
  }

  /** The first n entries name threads, and at no time more of them than there are slots. */
  ghost predicate Accepted(trace: seq<Entry>, n: nat, max: nat)
    requires n <= |trace|
  {
    Fits(trace, n, max) && forall k :: 0 <= k < n ==> trace[k].tid != 0
  }

  /**
   * The table part of ProcessDump: it gets to the first entry at which more threads are alive than
   * the table has slots, where it gives up, or that has tid 0, where the table breaks (`ZeroBreaks`).
   * Up to there it holds exactly the tids that are alive.
   */
  method HandOutThreads(trace: seq<Entry>, threads: Threads) returns (n: nat)
    requires threads.Valid() && threads.num == 0
    modifies threads, threads.tids
    ensures n <= |trace| && Accepted(trace, n, threads.max)
    ensures n < |trace| ==> !Accepted(trace, n + 1, threads.max)
    ensures threads.Valid() && TidSet(threads.tids[..]) == Active(trace, n)
  {
    NoTids(threads.tids[..]);
    n := 0;
    while n < |trace|
      invariant n <= |trace| && threads.Valid() && Accepted(trace, n, threads.max)
      invariant TidSet(threads.tids[..]) == Active(trace, n)
    {
      if trace[n].tid == 0 {
        return;
      }
      var ok := HandOut(trace, n, threads);
      if !ok {
        return;
      }
      n := n + 1;
    }
  }

  /**
   * What tid 0 does to a valid table of which no thread runs: one thread is counted, no slot is used,
   * every search for another tid goes on for ever, and waiting for all threads leaves the table.
   */
  method ZeroBreaks(threads: Threads) returns (r: Found, inside: bool)
    requires threads.Valid() && threads.num == 0
    modifies threads, threads.tids
    ensures r.At? && threads.tids[..] == old(threads.tids[..]) && threads.num == 1 && !inside
    ensures forall index: nat, n: nat :: index < threads.max ==> LeftAfter(threads.tids[..], index, 1, n) != 0
  {
    r := threads.CreateThread(0);
    ghost var t := threads.tids[..];
    assert t == old(threads.tids[..]) by {
      assert old(threads.tids[..])[r.slot := 0] == old(threads.tids[..]);
    }
    assert Used(t) == {};
    forall index: nat, n: nat | index < |t| ensures LeftAfter(t, index, 1, n) != 0 {
      EmptySearchNeverEnds(t, 1, index, 1, n);
    }
    var waited;
    inside, waited := threads.WaitForAllToQuiesce();
  }

  /** One entry: look the thread up, create it if it is not there, end it if the entry says so. */
  method HandOut(trace: seq<Entry>, i: nat, threads: Threads) returns (ok: bool)
    requires threads.Valid() && i < |trace| && trace[i].tid != 0
    requires TidSet(threads.tids[..]) == Active(trace, i)
    modifies threads, threads.tids
    ensures ok <==> |Active(trace, i) + {trace[i].tid}| <= threads.max
    ensures threads.Valid() && (!ok ==> TidSet(threads.tids[..]) == Active(trace, i))
    ensures ok ==> TidSet(threads.tids[..]) == Active(trace, i + 1)
  {
    var tid := trace[i].tid;
    ghost var t := threads.tids[..];
    TableCounts(t, tid);
    hide Used, Distinct;
    var r := threads.FindThread(tid);
    if r.NotFound? {
      r := threads.CreateThread(tid);
      if r.NotFound? {
        return false;
      }
      TidSetChange(t, r.slot, tid);
    }
    assert threads.tids[..][r.slot] == tid;
    ghost var u := threads.tids[..];
    if trace[i].kind.ThreadDone? {
      threads.Finish(r.slot);
      TidSetChange(u, r.slot, 0);
    }
    return true;
  }

  lemma TableCounts(tids: seq<int>, tid: int)
    requires Distinct(tids) && tid != 0
    ensures tid in tids <==> tid in TidSet(tids)
    ensures |TidSet(tids) + {tid}| == |Used(tids)| + (if tid in tids then 0 else 1)
    ensures |Used(tids)| <= |tids|
  {
    TidsAsManyAsUsed(tids, |tids|);
    AtMost(tids, |tids|);
    assert tids[..|tids|] == tids;
    if tid in tids {
      assert TidSet(tids) + {tid} == TidSet(tids);
    }
  }
}
