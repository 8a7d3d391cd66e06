/**
 * UnwindMaps::UpdateMaps: brings the unwinder's list of maps up to date with a process's map set,
 * keeping the map objects (and the ELF data hanging on them) of entries that stay.
 */
module UnwindMaps {
  import opened Common

  /**
   * An object for a mapped range; `id` is its identity, so equality is pointer equality. For an entry
   * whose library lies inside an apk, `inApk` is the library's offset there; otherwise it is 0.
   */
  datatype Mapping = Mapping(id: nat, start: nat, len: nat, pgoff: nat, inApk: nat)

  type Entry = Mapping   // MapEntry, of the process's map set
  type Info = Mapping    // unwindstack::MapInfo, of the unwinder

  predicate Describes(m: Info, e: Entry)
  {
    m.start == e.start && m.len == e.len && m.pgoff == e.pgoff + e.inApk
  }

  // ----------------------------------------------------------------------- sorting

  ghost predicate Ascending(s: seq<Mapping>)
  {
    forall k, l :: 0 <= k < l < |s| ==> s[k].start < s[l].start
  }

  ghost predicate DistinctStarts(s: seq<Mapping>)
  {
    forall k, l :: 0 <= k < l < |s| ==> s[k].start != s[l].start
  }

  function Insert(r: seq<Mapping>, x: Mapping): seq<Mapping>
  {
    if r == [] || x.start < r[0].start then [x] + r else [r[0]] + Insert(r[1..], x)
  }

  /** std::sort by start address. */
  function SortByStart(s: seq<Mapping>): seq<Mapping>
  {
    if s == [] then [] else Insert(SortByStart(s[..|s| - 1]), s[|s| - 1])
  }

  lemma {:induction false} InsertHas(r: seq<Mapping>, x: Mapping)
    ensures |Insert(r, x)| == |r| + 1
    ensures forall y :: y in Insert(r, x) <==> y in r || y == x
  {
    if !(r == [] || x.start < r[0].start) {
      InsertHas(r[1..], x);
      assert r == [r[0]] + r[1..];
    }
  }

  lemma {:induction false} InsertAscending(r: seq<Mapping>, x: Mapping)
    requires Ascending(r) && forall k :: 0 <= k < |r| ==> r[k].start != x.start
    ensures Ascending(Insert(r, x))
  {
    if r == [] || x.start < r[0].start {
    } else {
      InsertAscending(r[1..], x);
      InsertHas(r[1..], x);
      var t := Insert(r[1..], x);
      forall l | 0 <= l < |t| ensures r[0].start < t[l].start {
        assert t[l] in r[1..] || t[l] == x;
      }
    }
  }

  /** Sorting mappings with distinct starts keeps them all and puts them in strict order. */
  lemma {:induction false} SortIs(s: seq<Mapping>)
    requires DistinctStarts(s)
    ensures Ascending(SortByStart(s)) && |SortByStart(s)| == |s| && forall y :: y in SortByStart(s) <==> y in s
  {
    if s != [] {
      var init, x := s[..|s| - 1], s[|s| - 1];
      SortIs(init);
      var r := SortByStart(init);
      forall k | 0 <= k < |r| ensures r[k].start != x.start {
        assert r[k] in init;
      }
      InsertAscending(r, x);
      InsertHas(r, x);
      assert s == init + [x];
    }
  }

  /** Two strictly ascending lists of numbers with the same elements are the same list. */
  lemma {:induction false} AscendingUnique(a: seq<nat>, b: seq<nat>)
    requires forall k, l :: 0 <= k < l < |a| ==> a[k] < a[l]
    requires forall k, l :: 0 <= k < l < |b| ==> b[k] < b[l]
    requires forall x :: x in a <==> x in b
    ensures a == b
  {
    assert a != [] ==> a[0] in b;
    assert b != [] ==> b[0] in a;
    if a != [] && b != [] {
      assert a[0] == b[0];
      forall x ensures x in a[1..] <==> x in b[1..] {
        assert x in a[1..] <==> x in a && x != a[0];
        assert x in b[1..] <==> x in b && x != b[0];
      }
      AscendingUnique(a[1..], b[1..]);
    }
  }

  lemma AscendingSame(a: seq<Mapping>, b: seq<Mapping>)
    requires Ascending(a) && Ascending(b) && forall x :: x in a <==> x in b
    ensures a == b
  {
    StartsSame(a, b);
    forall k | 0 <= k < |a| ensures a[k] == b[k] {
      assert a[k] in b;
      var l :| 0 <= l < |b| && b[l] == a[k];
      assert Starts(a)[k] == Starts(b)[k] && Starts(b)[l] == Starts(a)[k];
    }
  }

  ghost function Starts(s: seq<Mapping>): (r: seq<nat>)
    ensures |r| == |s| && forall k :: 0 <= k < |s| ==> r[k] == s[k].start
  {
    seq(|s|, k requires 0 <= k < |s| => s[k].start)
  }

  /** Same elements, or only elements at the same places: the starts agree. */
  lemma StartsSame(a: seq<Mapping>, b: seq<Mapping>)
    requires Ascending(a) && Ascending(b)
    requires (forall x :: x in a ==> x.start in Starts(b)) && (forall x :: x in b ==> x.start in Starts(a))
    ensures Starts(a) == Starts(b) && |a| == |b|
  {
    forall x ensures x in Starts(a) <==> x in Starts(b) {
      if x in Starts(a) {
        var k :| 0 <= k < |a| && Starts(a)[k] == x;
        assert a[k] in a;
      }
      if x in Starts(b) {
        var k :| 0 <= k < |b| && Starts(b)[k] == x;
        assert b[k] in b;
      }
    }
    AscendingUnique(Starts(a), Starts(b));
  }

  // -------------------------------------------------------------------- compaction

  /** std::remove of the null pointers. */
  function Compact(s: seq<Option<Mapping>>): seq<Mapping>
  {
    if s == [] then []
    else Compact(s[..|s| - 1]) + (if s[|s| - 1].Some? then [s[|s| - 1].value] else [])
  }

  function Values(s: seq<Option<Mapping>>): seq<Mapping>
    requires forall k :: 0 <= k < |s| ==> s[k].Some?
  {
    seq(|s|, k requires 0 <= k < |s| => s[k].value)
  }

  lemma {:induction false} ValuesCompact(s: seq<Option<Mapping>>)
    requires forall k :: 0 <= k < |s| ==> s[k].Some?
    ensures Values(s) == Compact(s)
  {
    if s != [] {
      ValuesCompact(s[..|s| - 1]);
    }
  }

  ghost predicate DistinctSomes(s: seq<Option<Mapping>>)
  {
    forall k, l :: 0 <= k < l < |s| && s[k].Some? && s[l].Some? ==> s[k].value.start != s[l].value.start
  }

  lemma {:induction false} CompactHas(s: seq<Option<Mapping>>)
    ensures forall y :: y in Compact(s) <==> Some(y) in s
  {
    if s != [] {
      CompactHas(s[..|s| - 1]);
      assert s == s[..|s| - 1] + [s[|s| - 1]];
    }
  }

  lemma {:induction false} CompactDistinct(s: seq<Option<Mapping>>)
    requires DistinctSomes(s)
    ensures DistinctStarts(Compact(s))
  {
    if s != [] {
      var init, x := s[..|s| - 1], s[|s| - 1];
      CompactDistinct(init);
      CompactHas(init);
      var c := Compact(init);
      if x.Some? {
        forall k | 0 <= k < |c| ensures c[k].start != x.value.start {
          assert Some(c[k]) in init;
          var l :| 0 <= l < |init| && init[l] == Some(c[k]);
        }
      }
    }
  }

  /** Entry k of the list and map k of the list belong together. */
  ghost predicate Paired(es: seq<Option<Mapping>>, ms: seq<Option<Mapping>>)
  {
    && |es| == |ms|
    && forall k :: 0 <= k < |es| ==> es[k].Some? == ms[k].Some? && (es[k].Some? ==> Describes(ms[k].value, es[k].value))
  }

  /** After sorting both lists, map k belongs to entry k, as before. */
  lemma SortPaired(es: seq<Option<Mapping>>, ms: seq<Option<Mapping>>)
    requires Paired(es, ms) && DistinctSomes(es)
    ensures var (e', m') := (SortByStart(Compact(es)), SortByStart(Compact(ms)));
            && |m'| == |e'| && Ascending(e') && (forall y :: y in e' <==> Some(y) in es)
            && forall k :: 0 <= k < |e'| ==> exists l :: 0 <= l < |es| && es[l] == Some(e'[k]) && ms[l] == Some(m'[k])
  {
    var e', m' := SortByStart(Compact(es)), SortByStart(Compact(ms));
    assert DistinctSomes(ms);
    CompactHas(es);
    CompactHas(ms);
    CompactDistinct(es);
    CompactDistinct(ms);
    SortIs(Compact(es));
    SortIs(Compact(ms));
    hide SortByStart, Compact;
    PairedStarts(es, ms, e', m');
    forall k | 0 <= k < |e'| ensures exists l :: 0 <= l < |es| && es[l] == Some(e'[k]) && ms[l] == Some(m'[k]) {
      assert Starts(e')[k] == Starts(m')[k];
      assert e'[k] in e' && m'[k] in m';
      PairAt(es, ms, e'[k], m'[k]);
    }
  }

  lemma PairAt(es: seq<Option<Mapping>>, ms: seq<Option<Mapping>>, e: Mapping, m: Mapping)
    requires Paired(es, ms) && DistinctSomes(es) && Some(e) in es && Some(m) in ms && e.start == m.start
    ensures exists l :: 0 <= l < |es| && es[l] == Some(e) && ms[l] == Some(m)
  {
    var l :| 0 <= l < |es| && es[l] == Some(e);
    var l' :| 0 <= l' < |ms| && ms[l'] == Some(m);
    assert es[l'].Some? && es[l'].value.start == e.start;
    assert l == l';
  }

  lemma PairedStarts(es: seq<Option<Mapping>>, ms: seq<Option<Mapping>>, e': seq<Mapping>, m': seq<Mapping>)
    requires Paired(es, ms) && Ascending(e') && Ascending(m')
    requires (forall y :: y in e' <==> Some(y) in es) && (forall y :: y in m' <==> Some(y) in ms)
    ensures Starts(e') == Starts(m') && |e'| == |m'|
  {
    forall x | x in e' ensures x.start in Starts(m') {
      var l :| 0 <= l < |es| && es[l] == Some(x);
      var m := ms[l].value;
      assert Some(m) in ms;
      assert m in m';
      var k :| 0 <= k < |m'| && m'[k] == m;
      assert Starts(m')[k] == x.start;
    }
    forall x | x in m' ensures x.start in Starts(e') {
      var l :| 0 <= l < |ms| && ms[l] == Some(x);
      var e := es[l].value;
      assert Some(e) in es;
      assert e in e';
      var k :| 0 <= k < |e'| && e'[k] == e;
      assert Starts(e')[k] == x.start;
    }
    StartsSame(e', m');
  }

  // ----------------------------------------------------------------- the comparison

  /** The first i old entries were looked at: those not in the set are crossed out, with their maps. */
  ghost predicate Crossed(was: seq<Mapping>, had: seq<Mapping>, set': seq<Entry>, i: nat, es: seq<Option<Mapping>>)
    requires |was| == |had|
  {
    && i <= |was| <= |es|
    && forall k :: 0 <= k < |was| ==> es[k] == if k < i && was[k] !in set' then None else Some(had[k])
  }

  /** Behind the old entries come the first j entries of the set that are not among them, in order. */
  ghost predicate Appended(was: seq<Entry>, set': seq<Entry>, j: nat, es: seq<Option<Mapping>>)
  {
    && j <= |set'| && |was| <= |es|
    && (forall k :: |was| <= k < |es| ==> es[k].Some? && es[k].value in set'[..j] && es[k].value !in was)
    && (forall k, l :: |was| <= k < l < |es| ==> es[k].Some? && es[l].Some? && es[k].value.start < es[l].value.start)
    && (forall l :: 0 <= l < j ==> set'[l] in was || Some(set'[l]) in es[|was|..])
  }

  /** Both lists are ascending, and the two indices have passed the same addresses. */
  ghost predicate InStep(was: seq<Entry>, set': seq<Entry>, i: nat, j: nat)
  {
    && i <= |was| && j <= |set'| && Ascending(was) && Ascending(set')
    && (forall k, l :: 0 <= k < i && j <= l < |set'| ==> was[k].start < set'[l].start)
    && (forall k, l :: i <= k < |was| && 0 <= l < j ==> was[k] != set'[l])
  }

  /** The new maps are new objects for the appended entries. */
  ghost predicate NewMaps(n: nat, es: seq<Option<Mapping>>, ms: seq<Option<Mapping>>, firstId: nat, nextId: nat)
  {
    && |es| == |ms| && n <= |es|
    && forall k :: n <= k < |es| ==>
         es[k].Some? && ms[k].Some? && Describes(ms[k].value, es[k].value) && firstId <= ms[k].value.id < nextId
  }

  /** Old entry i is the set's next entry: it stays. */
  lemma KeepStep(was: seq<Entry>, set': seq<Entry>, i: nat, j: nat)
    requires InStep(was, set', i, j) && i < |was| && j < |set'| && was[i] == set'[j]
    ensures InStep(was, set', i + 1, j + 1) && was[i] in set'
  {
  }

  /** The set's next entry is before old entry i: it is new. */
  lemma AddStep(was: seq<Entry>, set': seq<Entry>, i: nat, j: nat)
    requires InStep(was, set', i, j) && j < |set'|
    requires i < |was| ==> was[i] != set'[j] && set'[j].start <= was[i].start
    ensures InStep(was, set', i, j + 1) && set'[j] !in was
  {
  }

  /** Old entry i is before the set's next entry, or the set has no more: it is gone. */
  lemma RemoveStep(was: seq<Entry>, set': seq<Entry>, i: nat, j: nat)
    requires InStep(was, set', i, j) && i < |was|
    requires j < |set'| ==> was[i].start < set'[j].start
    ensures InStep(was, set', i + 1, j) && was[i] !in set'
  {
    forall l | 0 <= l < |set'| ensures set'[l] != was[i] {
    }
  }

  lemma AppendStep(was: seq<Entry>, set': seq<Entry>, j: nat, es: seq<Option<Mapping>>)
    requires Appended(was, set', j, es) && j < |set'| && set'[j] !in was && Ascending(set')
    ensures Appended(was, set', j + 1, es + [Some(set'[j])])
  {
    var es', n := es + [Some(set'[j])], |was|;
    assert es'[n..] == es[n..] + [Some(set'[j])];
    assert set'[..j + 1] == set'[..j] + [set'[j]];
    forall k | n <= k < |es| ensures es[k].value.start < set'[j].start {
      var l :| 0 <= l < j && set'[..j][l] == es[k].value;
      assert set'[l] == es[k].value;
    }
  }

  lemma KeepAppended(was: seq<Entry>, set': seq<Entry>, j: nat, es: seq<Option<Mapping>>)
    requires Appended(was, set', j, es) && j < |set'| && set'[j] in was
    ensures Appended(was, set', j + 1, es)
  {
    assert set'[..j + 1] == set'[..j] + [set'[j]];
  }

  lemma CrossAppended(was: seq<Entry>, set': seq<Entry>, j: nat, es: seq<Option<Mapping>>, i: nat)
    requires Appended(was, set', j, es) && i < |was|
    ensures Appended(was, set', j, es[i := None])
  {
    assert es[i := None][|was|..] == es[|was|..];
  }

  /** What the comparison leaves is exactly the set, at distinct addresses. */
  lemma ComparedAll(was: seq<Entry>, set': seq<Entry>, es: seq<Option<Mapping>>)
    requires Ascending(was) && Ascending(set')
    requires Crossed(was, was, set', |was|, es) && Appended(was, set', |set'|, es)
    ensures DistinctSomes(es) && forall y :: y in set' <==> Some(y) in es
  {
    assert set'[..|set'|] == set';
    forall k | 0 <= k < |es| && es[k].Some? ensures es[k].value in set' {
    }
    forall k, l | 0 <= k < l < |es| && es[k].Some? && es[l].Some? ensures es[k].value.start != es[l].value.start {
      assert es[k].value != es[l].value;
      if es[k].value.start == es[l].value.start {
        SameStartSame(set', es[k].value, es[l].value);
      }
    }
    forall y | y in set' ensures Some(y) in es {
      var l :| 0 <= l < |set'| && set'[l] == y;
      if y in was {
        var k :| 0 <= k < |was| && was[k] == y;
        assert es[k] == Some(y);
      } else {
        assert Some(set'[l]) in es[|was|..];
      }
    }
  }

  lemma SameStartSame(set': seq<Entry>, a: Entry, b: Entry)
    requires Ascending(set') && a in set' && b in set' && a.start == b.start
    ensures a == b
  {
  }

  class Maps {
    var version: nat
    var entries: seq<Entry>
    var maps: seq<Info>
    var nextId: nat      // objects made so far have smaller identities

    ghost predicate Valid()
      reads this
    {
      && |entries| == |maps| && Ascending(entries)
      && forall k :: 0 <= k < |entries| ==> Describes(maps[k], entries[k]) && maps[k].id < nextId
    }

    constructor ()
      ensures Valid() && version == 0 && entries == []
    {
      version, entries, maps, nextId := 0, [], [], 0;
    }

    /** CreateMapInfo. */
    method CreateMapInfo(e: Entry) returns (m: Info)
      modifies this`nextId
      ensures Describes(m, e) && m.id == old(nextId) && nextId == old(nextId) + 1
      ensures m.start == e.start && m.len == e.len && m.pgoff == e.pgoff + e.inApk
    {
      m := Mapping(nextId, e.start, e.len, e.pgoff + e.inApk, 0);
      nextId := nextId + 1;
    }

    /**
     * Afterwards the entries are those of the map set in ascending order, map k is the map of entry
     * k, an entry that was there before still has its old map object, and any other has a new one.
     */
    method UpdateMaps(setVersion: nat, set': seq<Entry>)
      requires Valid() && Ascending(set')
      modifies this
      ensures Valid() && version == setVersion
      ensures |maps| == |entries| && forall k :: 0 <= k < |entries| ==>
                maps[k].start == entries[k].start && maps[k].len == entries[k].len && maps[k].pgoff == entries[k].pgoff + entries[k].inApk
      ensures old(version) == setVersion ==> entries == old(entries) && maps == old(maps)
      ensures old(version) != setVersion ==> entries == set'
      ensures old(version) != setVersion ==>
                forall k :: 0 <= k < |entries| ==>
                  if entries[k] in old(entries) then KeptMap(old(entries), old(maps), entries[k], maps[k])
                  else maps[k].id >= old(nextId)
    {
      hide Comparing, Ascending, KeptMap, Describes, Compact, SortByStart;
      if version == setVersion {
        AllDescribed(entries, maps);
        return;
      }
      version := setVersion;
      ghost var was, had := entries, maps;
      var oldSize := |entries|;
      var es, ms := Somes(entries), Somes(maps);
      CompareStart(was, had, set', nextId);
      var i, j, removed := 0, 0, false;
      while j < |set'|
        invariant 0 <= i <= oldSize && 0 <= j <= |set'| && |es| == |ms| >= oldSize && nextId >= old(nextId)
        invariant Comparing(was, had, set', i, j, es, ms, old(nextId), nextId)
        invariant !removed ==> AllSome(es) && AllSome(ms)
        invariant version == setVersion
        decreases |set'| - j + oldSize - i
      {
        var entry := set'[j];
        CrossedAt(was, had, set', i, j, es, ms, old(nextId), nextId);
        if i < oldSize && es[i] == Some(entry) {
          Keep(was, had, set', i, j, es, ms, old(nextId), nextId);
          i, j := i + 1, j + 1;
        } else if i == oldSize || entry.start <= es[i].value.start {
          var m := CreateMapInfo(entry);
          Add(was, had, set', i, j, es, ms, old(nextId), nextId - 1, m);
          es, ms, j := es + [Some(entry)], ms + [Some(m)], j + 1;
        } else {
          Remove(was, had, set', i, j, es, ms, old(nextId), nextId);
          removed, es, ms, i := true, es[i := None], ms[i := None], i + 1;
        }
      }
      while i < oldSize
        invariant 0 <= i <= oldSize && |es| == |ms| >= oldSize && version == setVersion
        invariant Comparing(was, had, set', i, |set'|, es, ms, old(nextId), nextId)
        invariant !removed ==> AllSome(es) && AllSome(ms)
      {
        Remove(was, had, set', i, |set'|, es, ms, old(nextId), nextId);
        removed, es, ms, i := true, es[i := None], ms[i := None], i + 1;
      }
      Finished(was, had, set', es, ms, old(nextId), nextId);
      if removed {
        entries, maps := Compact(es), Compact(ms);
      } else {
        ValuesCompact(es);
        ValuesCompact(ms);
        entries, maps := Values(es), Values(ms);
      }
      entries := SortByStart(entries);
      maps := SortByStart(maps);
      AllDescribed(entries, maps);
    }
  }

  lemma AllDescribed(es: seq<Entry>, ms: seq<Info>)
    requires |es| == |ms| && forall k :: 0 <= k < |es| ==> Describes(ms[k], es[k])
    ensures forall k :: 0 <= k < |es| ==>
              ms[k].start == es[k].start && ms[k].len == es[k].len && ms[k].pgoff == es[k].pgoff + es[k].inApk
  {
  }

  function Somes(s: seq<Mapping>): (r: seq<Option<Mapping>>)
    ensures |r| == |s| && forall k :: 0 <= k < |s| ==> r[k] == Some(s[k])
  {
    seq(|s|, k requires 0 <= k < |s| => Some(s[k]))
  }

  predicate AllSome(s: seq<Option<Mapping>>)
  {
    forall k :: 0 <= k < |s| ==> s[k].Some?
  }

  /** m is the map object that entry e had. */
  ghost predicate KeptMap(was: seq<Entry>, had: seq<Info>, e: Entry, m: Info)
    requires |was| == |had|
  {
    exists l :: 0 <= l < |was| && was[l] == e && had[l] == m
  }

  /** The state of the comparison: i old entries and j entries of the set were looked at. */
  ghost predicate Comparing(was: seq<Entry>, had: seq<Info>, set': seq<Entry>, i: nat, j: nat,
                            es: seq<Option<Mapping>>, ms: seq<Option<Mapping>>, firstId: nat, nextId: nat)
  {
    && |was| == |had| && firstId <= nextId
    && Crossed(was, was, set', i, es) && Crossed(was, had, set', i, ms)
    && Appended(was, set', j, es) && NewMaps(|was|, es, ms, firstId, nextId) && InStep(was, set', i, j)
  }

  lemma CompareStart(was: seq<Entry>, had: seq<Info>, set': seq<Entry>, nextId: nat)
    requires |was| == |had| && Ascending(was) && Ascending(set')
    ensures Comparing(was, had, set', 0, 0, Somes(was), Somes(had), nextId, nextId)
    ensures AllSome(Somes(was)) && AllSome(Somes(had))
  {
  }

  lemma CrossedAt(was: seq<Entry>, had: seq<Info>, set': seq<Entry>, i: nat, j: nat,
                  es: seq<Option<Mapping>>, ms: seq<Option<Mapping>>, firstId: nat, nextId: nat)
    requires Comparing(was, had, set', i, j, es, ms, firstId, nextId)
    ensures i < |was| ==> i < |es| && es[i] == Some(was[i])
  {
    hide Appended, InStep, NewMaps;
  }

  lemma Keep(was: seq<Entry>, had: seq<Info>, set': seq<Entry>, i: nat, j: nat,
             es: seq<Option<Mapping>>, ms: seq<Option<Mapping>>, firstId: nat, nextId: nat)
    requires Comparing(was, had, set', i, j, es, ms, firstId, nextId)
    requires i < |was| && j < |set'| && was[i] == set'[j]
    ensures Comparing(was, had, set', i + 1, j + 1, es, ms, firstId, nextId)
  {
    hide Crossed, Appended, InStep, NewMaps;
    KeepStep(was, set', i, j);
    CrossedKeep(was, was, set', i, es);
    CrossedKeep(was, had, set', i, ms);
    KeepAppended(was, set', j, es);
  }

  lemma Add(was: seq<Entry>, had: seq<Info>, set': seq<Entry>, i: nat, j: nat,
            es: seq<Option<Mapping>>, ms: seq<Option<Mapping>>, firstId: nat, nextId: nat, m: Info)
    requires Comparing(was, had, set', i, j, es, ms, firstId, nextId)
    requires j < |set'| && (i < |was| ==> was[i] != set'[j] && set'[j].start <= was[i].start)
    requires Describes(m, set'[j]) && m.id == nextId
    ensures Comparing(was, had, set', i, j + 1, es + [Some(set'[j])], ms + [Some(m)], firstId, nextId + 1)
  {
    hide Crossed, Appended, NewMaps, Describes;
    AddStep(was, set', i, j);
    hide InStep;
    AppendStep(was, set', j, es);
    CrossedAppend(was, was, set', i, es, set'[j]);
    CrossedAppend(was, had, set', i, ms, m);
    NewMapsAppend(|was|, es, ms, firstId, nextId, set'[j], m);
  }

  lemma Remove(was: seq<Entry>, had: seq<Info>, set': seq<Entry>, i: nat, j: nat,
               es: seq<Option<Mapping>>, ms: seq<Option<Mapping>>, firstId: nat, nextId: nat)
    requires Comparing(was, had, set', i, j, es, ms, firstId, nextId)
    requires i < |was| && (j < |set'| ==> was[i].start < set'[j].start)
    ensures i < |es| && i < |ms|
    ensures Comparing(was, had, set', i + 1, j, es[i := None], ms[i := None], firstId, nextId)
  {
    CrossedRange(was, was, set', i, es);
    CrossedRange(was, had, set', i, ms);
    hide Crossed, Appended, InStep, NewMaps;
    RemoveStep(was, set', i, j);
    CrossedRemove(was, was, set', i, es);
    CrossedRemove(was, had, set', i, ms);
    CrossAppended(was, set', j, es, i);
    NewMapsCross(|was|, es, ms, firstId, nextId, i);
  }

  lemma CrossedRange(was: seq<Entry>, had: seq<Info>, set': seq<Entry>, i: nat, es: seq<Option<Mapping>>)
    requires |was| == |had| && Crossed(was, had, set', i, es)
    ensures |was| <= |es|
  {
  }

  lemma CrossedKeep(was: seq<Entry>, had: seq<Info>, set': seq<Entry>, i: nat, es: seq<Option<Mapping>>)
    requires |was| == |had| && i < |was| && was[i] in set' && Crossed(was, had, set', i, es)
    ensures Crossed(was, had, set', i + 1, es)
  {
  }

  lemma CrossedAppend(was: seq<Entry>, had: seq<Info>, set': seq<Entry>, i: nat, es: seq<Option<Mapping>>, e: Mapping)
    requires |was| == |had| && Crossed(was, had, set', i, es)
    ensures Crossed(was, had, set', i, es + [Some(e)])
  {
  }

  lemma CrossedRemove(was: seq<Entry>, had: seq<Info>, set': seq<Entry>, i: nat, es: seq<Option<Mapping>>)
    requires |was| == |had| && i < |was| <= |es| && was[i] !in set' && Crossed(was, had, set', i, es)
    ensures Crossed(was, had, set', i + 1, es[i := None])
  {
  }

  lemma NewMapsAppend(n: nat, es: seq<Option<Mapping>>, ms: seq<Option<Mapping>>, firstId: nat, nextId: nat, e: Entry, m: Info)
    requires NewMaps(n, es, ms, firstId, nextId) && Describes(m, e) && m.id == nextId >= firstId
    ensures NewMaps(n, es + [Some(e)], ms + [Some(m)], firstId, nextId + 1)
  {
  }

  lemma NewMapsCross(n: nat, es: seq<Option<Mapping>>, ms: seq<Option<Mapping>>, firstId: nat, nextId: nat, i: nat)
    requires NewMaps(n, es, ms, firstId, nextId) && i < n <= |es| == |ms|
    ensures NewMaps(n, es[i := None], ms[i := None], firstId, nextId)
  {
  }

  lemma Finished(was: seq<Entry>, had: seq<Info>, set': seq<Entry>, es: seq<Option<Mapping>>, ms: seq<Option<Mapping>>, firstId: nat, nextId: nat)
    requires |was| == |had| && Ascending(was) && Ascending(set')
    requires forall k :: 0 <= k < |was| ==> Describes(had[k], was[k]) && had[k].id < firstId
    requires Comparing(was, had, set', |was|, |set'|, es, ms, firstId, nextId)
    ensures var (e', m') := (SortByStart(Compact(es)), SortByStart(Compact(ms)));
            && e' == set' && |m'| == |e'|
            && (forall k :: 0 <= k < |e'| ==> Describes(m'[k], e'[k]) && m'[k].id < nextId)
            && (forall k :: 0 <= k < |e'| ==>
                  if e'[k] in was then KeptMap(was, had, e'[k], m'[k]) else m'[k].id >= firstId)
  {
    hide SortByStart, Compact, Describes, Ascending;
    FinishedPaired(was, had, set', es, ms, firstId, nextId);
    ComparedAll(was, set', es);
    SortPaired(es, ms);
    var e', m' := SortByStart(Compact(es)), SortByStart(Compact(ms));
    AscendingSame(e', set');
    forall k | 0 <= k < |e'|
      ensures Describes(m'[k], e'[k]) && m'[k].id < nextId
      ensures if e'[k] in was then KeptMap(was, had, e'[k], m'[k]) else m'[k].id >= firstId
    {
      var l :| 0 <= l < |es| && es[l] == Some(e'[k]) && ms[l] == Some(m'[k]);
      MapOf(was, had, set', es, ms, firstId, nextId, l);
    }
  }

  lemma FinishedPaired(was: seq<Entry>, had: seq<Info>, set': seq<Entry>, es: seq<Option<Mapping>>, ms: seq<Option<Mapping>>, firstId: nat, nextId: nat)
    requires |was| == |had| && forall k :: 0 <= k < |was| ==> Describes(had[k], was[k])
    requires Crossed(was, was, set', |was|, es) && Crossed(was, had, set', |was|, ms) && NewMaps(|was|, es, ms, firstId, nextId)
    ensures Paired(es, ms)
  {
    hide Describes;
    forall k | 0 <= k < |es| ensures es[k].Some? == ms[k].Some? && (es[k].Some? ==> Describes(ms[k].value, es[k].value)) {
      if k < |was| {
        assert es[k] == if was[k] !in set' then None else Some(was[k]);
        assert ms[k] == if was[k] !in set' then None else Some(had[k]);
      }
    }
  }

  lemma MapOf(was: seq<Entry>, had: seq<Info>, set': seq<Entry>, es: seq<Option<Mapping>>, ms: seq<Option<Mapping>>, firstId: nat, nextId: nat, l: nat)
    requires |was| == |had| && (forall k :: 0 <= k < |was| ==> Describes(had[k], was[k]) && had[k].id < firstId) && firstId <= nextId
    requires Crossed(was, was, set', |was|, es) && Crossed(was, had, set', |was|, ms)
    requires Appended(was, set', |set'|, es) && NewMaps(|was|, es, ms, firstId, nextId)
    requires l < |es| == |ms| && es[l].Some? && ms[l].Some?
    ensures Describes(ms[l].value, es[l].value) && ms[l].value.id < nextId
    ensures if es[l].value in was then KeptMap(was, had, es[l].value, ms[l].value) else ms[l].value.id >= firstId
  {
    hide Describes;
    if l < |was| {
      assert es[l] == Some(was[l]) && ms[l] == Some(had[l]);
    }
  }
}
