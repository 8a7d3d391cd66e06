/**
 * Which frames of a chain are still cached when AddCallChain comes to them. A frame that was cached
 * before the call is looked up too late if its node has meanwhile been recycled for an earlier frame
 * of the same chain; whether it is follows from the cache and the chain before the call.
 */
module ChainKept {
  import opened Common
  import opened LruForest
  import opened CallChainCache
  import opened ChainRoom

  /** The leaves that can still be recycled, the next one first, and the number of unused slots. */
  datatype Front = Front(waiting: seq<nat>, slots: int)

  ghost function Drop(waiting: seq<nat>, n: nat): seq<nat>
  {
    if waiting == [] then [] else if waiting[0] == n then waiting[1..] else [waiting[0]] + Drop(waiting[1..], n)
  }

  /** The frame is cached as a node that is not recycled, because it has children. */
  ghost predicate Safe(a: Snap, keys: seq<Key>, j: nat)
    requires j < |keys|
  {
    Inner(a, keys[j]) && !(Gained(a, keys, j) && a.index[keys[j]] == Lead(a))
  }

  /** Frame j is still cached when it is looked up. */
  ghost predicate Kept(a: Snap, keys: seq<Key>, j: nat)
    requires j < |keys|
  {
    Safe(a, keys, j) || (keys[j] in a.index && a.index[keys[j]] in After(a, keys, j).waiting)
  }

  /**
   * What is left after the first i frames. A frame that is found leaves the front; any other takes a
   * slot, or else the leaf that waits longest. The first leaf recycled may leave its parent to wait.
   */
  ghost function After(a: Snap, keys: seq<Key>, i: nat): Front
    requires i <= |keys|
    decreases i
  {
    if i == 0 then Front(a.order, Unused(a))
    else
      var f, key := After(a, keys, i - 1), keys[i - 1];
      if Safe(a, keys, i - 1) then f
      else if key in a.index && a.index[key] in f.waiting then f.(waiting := Drop(f.waiting, a.index[key]))
      else if f.slots > 0 then f.(slots := f.slots - 1)
      else if f.waiting == [] then f
      else f.(waiting := f.waiting[1..] + (if Cost(a, keys, i - 1) == 0 && Gained(a, keys, i) then [Lead(a)] else []))
  }

  /** The first p nodes of the list are those that wait. */
  ghost predicate Follows(a: Snap, b: Snap, keys: seq<Key>, i: nat, p: nat)
  {
    i <= |keys| && p <= |b.order| && After(a, keys, i) == Front(b.order[..p], Unused(b))
  }

  lemma FrontUnique(fronts: set<nat>, fronts': set<nat>, order: seq<nat>, chain: seq<nat>, p: nat, q: nat)
    requires FrontOk(fronts, order, chain, p) && FrontOk(fronts', order, chain, q)
    ensures p == q
  {
  }

  lemma {:induction false} DropIs(waiting: seq<nat>, i: nat)
    requires i < |waiting| && forall k, l :: 0 <= k < l < |waiting| ==> waiting[k] != waiting[l]
    ensures Drop(waiting, waiting[i]) == Without(waiting, i)
  {
    if i > 0 {
      assert waiting[i] == waiting[1..][i - 1];
      DropIs(waiting[1..], i - 1);
      assert Without(waiting, i) == [waiting[0]] + Without(waiting[1..], i - 1);
    }
  }

  // ------------------------------------------------------------------- step by step

  /** What Tracks says of the list. */
  lemma TracksFront(a: Snap, b: Snap, keys: seq<Key>, chain: seq<nat>, p: nat)
    requires SnapOk(a) && SnapOk(b) && Tracks(a, b, keys, chain, p)
    ensures |chain| <= |keys|
    ensures FrontOk(Fronts(a, Gained(a, keys, |chain|)), b.order, chain, p) && Members(b.order, b.used)
    ensures Cost(a, keys, |chain|) == 0 ==> p == |b.order| && b.order == a.order && Unused(b) == Unused(a)
    ensures Cost(a, keys, |chain|) > 0 ==> p < |b.order|
  {
    hide SnapOk, FramesOk, Fronts, Gained, Cost, Extra, Distinct, FrontOk;
    SnapParts(b);
  }

  lemma TracksLookup(a: Snap, b: Snap, keys: seq<Key>, chain: seq<nat>, p: nat)
    requires SnapOk(a) && SnapOk(b) && Tracks(a, b, keys, chain, p) && |chain| < |keys|
    ensures var key := keys[|chain|];
            && (key in b.index <==> key in a.index && a.index[key] !in chain)
            && (key in b.index ==> b.index[key] == a.index[key])
            && (key in a.index && a.index[key] in chain ==> a.index[key] in Fronts(a, Gained(a, keys, |chain|)) && Unused(b) == 0)
  {
    hide SnapOk, KeysOk, Members, Fronts, Gained, Cost, Extra, Unspent, FrontOk;
    TrackParts(a, b, keys, chain, p);
    Lookup(a, b, keys, chain, Fronts(a, Gained(a, keys, |chain|)));
  }

  /** A frame is found exactly if it is kept. */
  lemma FoundIsKept(a: Snap, b: Snap, keys: seq<Key>, chain: seq<nat>, p: nat)
    requires SnapOk(a) && SnapOk(b) && Tracks(a, b, keys, chain, p) && |chain| < |keys| && Follows(a, b, keys, |chain|, p)
    ensures keys[|chain|] in b.index <==> Kept(a, keys, |chain|)
    ensures keys[|chain|] in b.index ==> b.index[keys[|chain|]] == a.index[keys[|chain|]]
    ensures Safe(a, keys, |chain|) ==> a.index[keys[|chain|]] !in b.order[..p]
    ensures keys[|chain|] in b.index && !Safe(a, keys, |chain|) ==> b.index[keys[|chain|]] in b.order[..p]
  {
    hide SnapOk, KeysOk, Tracks, Cost, Gained, Members, After;
    TracksFront(a, b, keys, chain, p);
    TracksLookup(a, b, keys, chain, p);
    var key, fronts := keys[|chain|], Fronts(a, Gained(a, keys, |chain|));
    if Safe(a, keys, |chain|) {
      assert a.index[key] !in fronts;
    } else if key in a.index {
      assert a.index[key] in fronts;
    }
  }

  /** The next frame is found. */
  lemma FollowFound(a: Snap, b: Snap, c: Snap, keys: seq<Key>, chain: seq<nat>, p: nat, p': nat, n: nat)
    requires SnapOk(a) && SnapOk(b) && SnapOk(c) && |chain| < |keys| && keys[|chain|] in b.index
    requires Tracks(a, b, keys, chain, p) && Tracks(a, c, keys, chain + [n], p') && Follows(a, b, keys, |chain|, p)
    requires Got(b.s, b.used, b.index, b.order, c.s, c.used, c.index, c.order, keys[|chain|], n)
    ensures Follows(a, c, keys, |chain| + 1, p')
  {
    hide SnapOk, KeysOk, Tracks, Cost, Gained, Members, Got, Touched, Fronts, Safe, FrontOk;
    TracksFront(a, b, keys, chain, p);
    TracksFront(a, c, keys, chain + [n], p');
    FoundIsKept(a, b, keys, chain, p);
    TracksLookup(a, b, keys, chain, p);
    GotHit(b, c, keys[|chain|], n);
    FoundList(Fronts(a, Gained(a, keys, |chain|)), Fronts(a, Gained(a, keys, |chain| + 1)), b.order, c.order, b.used, chain, p, p', n);
  }

  lemma FoundList(fronts: set<nat>, fronts': set<nat>, order: seq<nat>, order': seq<nat>, used: nat, chain: seq<nat>, p: nat, p': nat, n: nat)
    requires FrontOk(fronts, order, chain, p) && FrontOk(fronts', order', chain + [n], p') && Members(order, used)
    requires Touched(order, order', n) && n !in chain
    ensures order'[..p'] == if n in order[..p] then Drop(order[..p], n) else order[..p]
  {
    hide FrontOk, Members, Drop, Without;
    if n !in order {
      FrontSame(fronts, order, chain, p, n);
      FrontUnique(fronts, fronts', order, chain + [n], p, p');
    } else {
      var k :| 0 <= k < |order| && order[k] == n && order' == Without(order, k) + [n];
      ListPlace(fronts, order, used, chain, p, k);
      if k < p {
        FrontTaken(fronts, order, used, chain, p, k);
        FrontUnique(fronts, fronts', order', chain + [n], p - 1, p');
        TakenFront(order, used, p, k);
      } else {
        FrontBehind(fronts, order, used, chain, p, k);
        FrontUnique(fronts, fronts', order', chain + [n], p, p');
        BehindFront(order, p, k);
      }
    }
  }

  lemma ListPlace(fronts: set<nat>, order: seq<nat>, used: nat, chain: seq<nat>, p: nat, k: nat)
    requires FrontOk(fronts, order, chain, p) && Members(order, used) && k < |order| && order[k] !in chain
    ensures k != p && p <= |order| && (order[k] in order[..p] <==> k < p)
  {
  }

  lemma TakenFront(order: seq<nat>, used: nat, p: nat, k: nat)
    requires Members(order, used) && k < p <= |order|
    ensures (Without(order, k) + [order[k]])[..p - 1] == Drop(order[..p], order[k])
  {
    hide Drop;
    var front := order[..p];
    assert front[k] == order[k];
    DropIs(front, k);
    assert (Without(order, k) + [order[k]])[..p - 1] == Without(front, k);
  }

  lemma BehindFront(order: seq<nat>, p: nat, k: nat)
    requires p <= k < |order|
    ensures (Without(order, k) + [order[k]])[..p] == order[..p]
  {
  }

  /** The next frame gets an unused slot. */
  lemma FollowNew(a: Snap, b: Snap, c: Snap, keys: seq<Key>, chain: seq<nat>, p: nat, p': nat, n: nat)
    requires SnapOk(a) && SnapOk(b) && SnapOk(c) && |chain| < |keys| && keys[|chain|] !in b.index && Unused(b) > 0
    requires Tracks(a, b, keys, chain, p) && Tracks(a, c, keys, chain + [n], p') && Follows(a, b, keys, |chain|, p)
    requires Got(b.s, b.used, b.index, b.order, c.s, c.used, c.index, c.order, keys[|chain|], n)
    ensures Follows(a, c, keys, |chain| + 1, p')
  {
    hide SnapOk, KeysOk, Tracks, Cost, Gained, Members, Got, Touched, Fronts, FrontOk, Safe;
    TracksFront(a, b, keys, chain, p);
    TracksFront(a, c, keys, chain + [n], p');
    FoundIsKept(a, b, keys, chain, p);
    GotSlot(b, c, keys, chain, keys[|chain|], n);
    SlotUnlisted(b.order, b.used, n);
    var fronts := Fronts(a, Gained(a, keys, |chain|));
    FrontNew(fronts, b.order, chain, p, n);
    FrontUnique(fronts, Fronts(a, Gained(a, keys, |chain| + 1)), c.order, chain + [n], p, p');
    assert c.order[..p] == b.order[..p];
  }

  lemma AfterRecycled(a: Snap, keys: seq<Key>, i: nat)
    requires i < |keys| && !Kept(a, keys, i) && After(a, keys, i).slots == 0 && After(a, keys, i).waiting != []
    ensures var f := After(a, keys, i);
            After(a, keys, i + 1)
            == f.(waiting := f.waiting[1..] + (if Cost(a, keys, i) == 0 && Gained(a, keys, i + 1) then [Lead(a)] else []))
  {
    hide Safe, Cost, Gained, Lead;
  }

  /** The next frame gets the leaf that waits longest, and this is not the first that costs something. */
  lemma FollowRecycled(a: Snap, b: Snap, c: Snap, keys: seq<Key>, chain: seq<nat>, p: nat, p': nat, n: nat)
    requires SnapOk(a) && SnapOk(b) && SnapOk(c) && |chain| < |keys| && keys[|chain|] !in b.index && Unused(b) == 0
    requires Tracks(a, b, keys, chain, p) && Tracks(a, c, keys, chain + [n], p') && Follows(a, b, keys, |chain|, p)
    requires Got(b.s, b.used, b.index, b.order, c.s, c.used, c.index, c.order, keys[|chain|], n)
    requires Cost(a, keys, |chain|) > 0 && p > 0
    ensures Follows(a, c, keys, |chain| + 1, p')
  {
    hide SnapOk, KeysOk, Tracks, Cost, Gained, Members, Got, Touched, Fronts, FrontOk, Safe, Orphans, Kept, After, Lead;
    TracksFront(a, b, keys, chain, p);
    TracksFront(a, c, keys, chain + [n], p');
    FoundIsKept(a, b, keys, chain, p);
    GotRecycled(b, c, keys[|chain|], n);
    var fronts := Fronts(a, Gained(a, keys, |chain|));
    RecycledList(fronts, Fronts(a, Gained(a, keys, |chain| + 1)), b.order, c.order, b.used, chain, p, p',
                 if Orphans(b.s, b.used, n) then [b.s[n].parent] else []);
    AfterRecycled(a, keys, |chain|);
  }

  lemma RecycledList(fronts: set<nat>, fronts': set<nat>, order: seq<nat>, order': seq<nat>, used: nat, chain: seq<nat>,
                     p: nat, p': nat, more: seq<nat>)
    requires FrontOk(fronts, order, chain, p) && Members(order, used) && 0 < p < |order|
    requires order' == order[1..] + more + [order[0]] && FrontOk(fronts', order', chain + [order[0]], p')
    ensures p' == p - 1 && p' <= |order'| && order'[..p'] == order[..p][1..]
  {
    hide FrontOk, Members;
    FrontRecycled(fronts, order, used, chain, p, more);
    FrontUnique(fronts, fronts', order', chain + [order[0]], p - 1, p');
  }

  /** The first frame that costs something recycles the first leaf. */
  lemma FollowFirst(a: Snap, b: Snap, c: Snap, keys: seq<Key>, chain: seq<nat>, p: nat, p': nat, n: nat)
    requires SnapOk(a) && SnapOk(b) && SnapOk(c) && |chain| < |keys| && keys[|chain|] !in b.index && Unused(b) == 0
    requires Tracks(a, b, keys, chain, p) && Tracks(a, c, keys, chain + [n], p') && Follows(a, b, keys, |chain|, p)
    requires Got(b.s, b.used, b.index, b.order, c.s, c.used, c.index, c.order, keys[|chain|], n)
    requires Cost(a, keys, |chain|) == 0
    ensures Follows(a, c, keys, |chain| + 1, p')
  {
    hide SnapOk, KeysOk, Tracks, Cost, Gained, Members, Got, Touched, FrontOk, Safe, Orphans, OnlyChild, LeadAmong,
         Unspent, Fronts, Lead, Kept, After;
    TracksFront(a, b, keys, chain, p);
    TracksFront(a, c, keys, chain + [n], p');
    FoundIsKept(a, b, keys, chain, p);
    GotRecycled(b, c, keys[|chain|], n);
    FirstFacts(a, b, keys, chain, p);
    assert b.order[..p] == b.order;
    FirstList(Fronts(a, Gained(a, keys, |chain|)), Fronts(a, Gained(a, keys, |chain| + 1)), b.order, c.order, b.used, chain, p',
              OnlyChild(a), Gained(a, keys, |chain| + 1), Lead(a));
    AfterRecycled(a, keys, |chain|);
  }

  lemma FirstList(fronts: set<nat>, fronts': set<nat>, order: seq<nat>, order': seq<nat>, used: nat, chain: seq<nat>,
                  p': nat, freed: bool, gained: bool, lead: nat)
    requires FrontOk(fronts, order, chain, |order|) && Members(order, used) && |order| > 0
    requires if gained then freed && lead !in chain && lead !in order else freed ==> lead in chain
    requires order' == order[1..] + (if freed then [lead] else []) + [order[0]] && FrontOk(fronts', order', chain + [order[0]], p')
    ensures p' <= |order'| && order'[..p'] == order[1..] + (if gained then [lead] else [])
  {
    hide FrontOk, Members;
    if gained {
      FrontGained(fronts, order, used, chain, lead);
      FrontUnique(fronts + {lead}, fronts', order', chain + [order[0]], |order|, p');
    } else {
      FrontFirst(fronts, order, used, chain, if freed then [lead] else []);
      FrontUnique(fronts, fronts', order', chain + [order[0]], |order| - 1, p');
    }
  }

  lemma FirstFacts(a: Snap, b: Snap, keys: seq<Key>, chain: seq<nat>, p: nat)
    requires SnapOk(a) && SnapOk(b) && Tracks(a, b, keys, chain, p) && |chain| < |keys| && Cost(a, keys, |chain|) == 0
    requires keys[|chain|] !in b.index && Unused(b) == 0 && |b.order| > 0
    ensures b.s[b.order[0]].parent == Lead(a) && (OnlyChild(a) <==> Orphans(b.s, b.used, b.order[0]))
    ensures if Gained(a, keys, |chain| + 1) then OnlyChild(a) && Lead(a) !in chain && Lead(a) !in b.order
            else OnlyChild(a) ==> Lead(a) in chain
  {
    hide SnapOk, KeysOk, Gained, Cost, Extra, FramesOk, FrontOk, Fronts, Orphans, OnlyChild, LeadAmong, Unspent;
    TracksLookup(a, b, keys, chain, p);
    UnspentOrder(a, b, p);
    NothingGained(a, keys, |chain|);
    UnspentLead(a, b, p);
    FirstCount(a, keys, |chain|);
    LeadInChain(a, b, keys, chain, Fronts(a, false), p);
    LeadFacts(a);
  }

  lemma FollowStep(a: Snap, b: Snap, c: Snap, keys: seq<Key>, chain: seq<nat>, p: nat, p': nat, n: nat)
    requires SnapOk(a) && SnapOk(b) && SnapOk(c) && |chain| < |keys|
    requires Tracks(a, b, keys, chain, p) && Tracks(a, c, keys, chain + [n], p') && Follows(a, b, keys, |chain|, p)
    requires Got(b.s, b.used, b.index, b.order, c.s, c.used, c.index, c.order, keys[|chain|], n)
    requires !Stuck(b, chain, keys[|chain|])
    ensures Follows(a, c, keys, |chain| + 1, p')
  {
    hide SnapOk, Tracks, Cost, Got, Stuck, Follows;
    SnapParts(b);
    if keys[|chain|] in b.index {
      FollowFound(a, b, c, keys, chain, p, p', n);
    } else if Unused(b) > 0 {
      FollowNew(a, b, c, keys, chain, p, p', n);
    } else if Cost(a, keys, |chain|) > 0 {
      FrontOrStuck(a, b, keys, chain, p);
      FollowRecycled(a, b, c, keys, chain, p, p', n);
    } else {
      FollowFirst(a, b, c, keys, chain, p, p', n);
    }
  }

  // -------------------------------------------------------------- the nodes of the frames

  /** A frame has its old node, with its old parent, exactly if it was kept; otherwise it has no parent. */
  ghost predicate NodesKept(a: Snap, b: Snap, keys: seq<Key>, chain: seq<nat>)
  {
    && |chain| <= |keys| && |b.s| == |a.s|
    && forall j :: 0 <= j < |chain| ==>
         && chain[j] < |b.s|
         && if Kept(a, keys, j) then keys[j] in a.index && chain[j] == a.index[keys[j]] && b.s[chain[j]].parent == a.s[chain[j]].parent
            else b.s[chain[j]].parent == 0
  }

  lemma NodesKeptStep(a: Snap, b: Snap, c: Snap, keys: seq<Key>, chain: seq<nat>, p: nat, n: nat)
    requires SnapOk(a) && SnapOk(b) && |chain| < |keys| && n !in chain && NodesKept(a, b, keys, chain)
    requires Tracks(a, b, keys, chain, p) && Follows(a, b, keys, |chain|, p)
    requires Got(b.s, b.used, b.index, b.order, c.s, c.used, c.index, c.order, keys[|chain|], n)
    requires forall m: nat :: 1 <= m <= a.used && m !in chain ==> m < |b.s| && m < |a.s| && b.s[m].parent == a.s[m].parent
    ensures NodesKept(a, c, keys, chain + [n])
  {
    hide Touched, Recycled, Kept, SnapOk, Follows, Tracks;
    FoundIsKept(a, b, keys, chain, p);
    TracksLookup(a, b, keys, chain, p);
    SnapParts(a);
    var more := chain + [n];
    forall j | 0 <= j < |chain| ensures more[j] < |c.s| && c.s[more[j]].parent == b.s[chain[j]].parent {
      ChainInUse(a, b, keys, chain, p, j);
    }
    if keys[|chain|] in b.index {
      assert 1 <= n <= a.used;
    }
    forall j | 0 <= j < |more|
      ensures && more[j] < |c.s|
              && if Kept(a, keys, j) then keys[j] in a.index && more[j] == a.index[keys[j]] && c.s[more[j]].parent == a.s[more[j]].parent
                 else c.s[more[j]].parent == 0
    {
      assert j < |chain| ==> more[j] == chain[j];
    }
  }

  lemma ChainInUse(a: Snap, b: Snap, keys: seq<Key>, chain: seq<nat>, p: nat, j: nat)
    requires Tracks(a, b, keys, chain, p) && j < |chain|
    ensures 1 <= chain[j] <= b.used && chain[j] in chain
  {
  }

  // --------------------------------------------------------------------- what is inherited

  ghost predicate Unchanged(a: Snap, b: Snap, m: nat)
  {
    m <= a.used && m < |a.s| && m < |b.s| && KeyOf(b.s[m]) == KeyOf(a.s[m]) && b.s[m].parent == a.s[m].parent
  }

  /** A node that has a parent has had it before; both are as they were. */
  ghost predicate Inherited(a: Snap, b: Snap)
  {
    && a.used <= b.used < |b.s| == |a.s|
    && forall m: nat :: 1 <= m <= b.used && b.s[m].parent != 0 ==> Unchanged(a, b, m) && Unchanged(a, b, b.s[m].parent)
  }

  lemma InheritedStart(a: Snap)
    requires SnapOk(a)
    ensures Inherited(a, a)
  {
    SoundParts(a.s, a.used, a.index, a.order);
    hide SnapOk;
  }

  /** Only a node without children is given another frame. */
  lemma InheritedStep(a: Snap, b: Snap, c: Snap, key: Key, n: nat)
    requires Inherited(a, b) && SnapOk(b)
    requires Got(b.s, b.used, b.index, b.order, c.s, c.used, c.index, c.order, key, n)
    ensures Inherited(a, c)
  {
    SnapParts(b);
    hide SnapOk, Touched;
    forall m: nat | 1 <= m <= b.used && key !in b.index && n <= b.used ensures b.s[m].parent != n {
      assert m !in Kids(Parents(b.s, b.used), b.used, n);
    }
    forall m: nat | 1 <= m <= c.used && c.s[m].parent != 0 ensures Unchanged(a, c, m) && Unchanged(a, c, c.s[m].parent) {
      var q := c.s[m].parent;
      assert m <= b.used && b.s[m].parent == q;
      assert Unchanged(a, b, m) && Unchanged(a, b, q);
      StillUnchanged(a, b, c, key, n, m);
      StillUnchanged(a, b, c, key, n, q);
    }
  }

  lemma StillUnchanged(a: Snap, b: Snap, c: Snap, key: Key, n: nat, m: nat)
    requires Unchanged(a, b, m) && 1 <= m <= b.used && KeysOk(b.s, b.used, b.index, 0) && (m != n || key in b.index)
    requires Got(b.s, b.used, b.index, b.order, c.s, c.used, c.index, c.order, key, n)
    ensures Unchanged(a, c, m)
  {
    hide Touched, Recycled;
  }

  // ---------------------------------------------------------------- when all are kept

  /** How many of the first i frames were not cached. */
  ghost function Missing(a: Snap, keys: seq<Key>, i: nat): nat
    requires i <= |keys|
  {
    if i == 0 then 0 else Missing(a, keys, i - 1) + (if keys[i - 1] in a.index then 0 else 1)
  }

  lemma {:induction false} MissingGrows(a: Snap, keys: seq<Key>, i: nat, n: nat)
    requires i <= n <= |keys|
    ensures Missing(a, keys, i) <= Missing(a, keys, n)
    ensures i < n && keys[i] !in a.index ==> Missing(a, keys, i) < Missing(a, keys, n)
  {
    if i < n {
      MissingGrows(a, keys, i, n - 1);
    }
  }

  lemma {:induction false} DropKeeps(waiting: seq<nat>, n: nat, x: nat)
    requires x in waiting && x != n
    ensures x in Drop(waiting, n)
  {
    if waiting[0] != x && waiting[0] != n {
      DropKeeps(waiting[1..], n, x);
    }
  }

  /** With an unused slot for every frame that is not cached, nothing is gained and no leaf is lost but to its own frame. */
  lemma {:induction false} SlotsSuffice(a: Snap, keys: seq<Key>, i: nat)
    requires SnapOk(a) && Distinct(keys) && i <= |keys| && Missing(a, keys, |keys|) <= Unused(a)
    ensures !Gained(a, keys, i) && After(a, keys, i).slots == Unused(a) - Missing(a, keys, i)
    ensures forall x :: x in a.order && (forall k :: 0 <= k < i ==> keys[k] in a.index ==> a.index[keys[k]] != x) ==>
              x in After(a, keys, i).waiting
  {
    hide SnapOk;
    if i > 0 {
      SlotsSuffice(a, keys, i - 1);
      MissingGrows(a, keys, i - 1, |keys|);
      var f, key := After(a, keys, i - 1), keys[i - 1];
      if key in a.index && a.index[key] in a.order {
        SnapParts(a);
        forall k | 0 <= k < i - 1 && keys[k] in a.index ensures a.index[keys[k]] != a.index[key] {
          assert keys[k] != key;
        }
        assert a.index[key] in f.waiting;
      }
      forall x | x in a.order && (forall k :: 0 <= k < i ==> keys[k] in a.index ==> a.index[keys[k]] != x)
        ensures x in After(a, keys, i).waiting
      {
        assert x in f.waiting;
        if key in a.index && a.index[key] in f.waiting {
          DropKeeps(f.waiting, a.index[key], x);
        }
      }
    }
  }

  /** Then a frame is kept exactly if it was cached. */
  lemma CachedIsKept(a: Snap, keys: seq<Key>, j: nat)
    requires SnapOk(a) && Distinct(keys) && j < |keys| && Missing(a, keys, |keys|) <= Unused(a)
    ensures Kept(a, keys, j) <==> keys[j] in a.index
  {
    hide SnapOk, Missing;
    SlotsSuffice(a, keys, j);
    if keys[j] in a.index && a.index[keys[j]] in a.order {
      SnapParts(a);
      forall k | 0 <= k < j && keys[k] in a.index ensures a.index[keys[k]] != a.index[keys[j]] {
        assert keys[k] != keys[j];
      }
    }
  }

  // ------------------------------------------------------------------- a frame not kept

  /** Four nodes, all in use: a called by b called by c, and y. The leaf a waits longest, then y. */
  ghost function FullTree(): Snap
  {
    Snap([Node(0, 0, 0, true, 0, 4, 1), Node(1, 1, 7, true, 2, 0, 4), Node(2, 2, 7, false, 3, 1, 0),
          Node(3, 3, 7, false, 0, 1, 0), Node(9, 9, 7, true, 0, 1, 0)],
         4, map[Key(7, 1, 1) := 1, Key(7, 2, 2) := 2, Key(7, 3, 3) := 3, Key(7, 9, 9) := 4], [1, 4])
  }

  lemma FullTreeLinked()
    ensures Linked(FullTree().s, FullTree().order)
  {
    var b := FullTree();
    forall k | -1 <= k < 2
      ensures b.s[At(b.order, k)].next == At(b.order, k + 1) && b.s[At(b.order, k + 1)].link == At(b.order, k)
    {
      assert k == -1 || k == 0 || k == 1;
    }
  }

  lemma FullTreeKids()
    ensures var par := Parents(FullTree().s, 4);
            Kids(par, 4, 1) == {} && Kids(par, 4, 2) == {1} && Kids(par, 4, 3) == {2} && Kids(par, 4, 4) == {}
  {
  }

  lemma FullTreeForest()
    ensures var b := FullTree(); CountsOk(b.s, 4, Parents(b.s, 4)) && LeavesListed(b.s, 4, b.order, 0) && Members(b.order, 4)
  {
    FullTreeKids();
    hide Kids;
  }

  lemma FullTreeKeys()
    ensures var b := FullTree(); KeysOk(b.s, 4, b.index, 0)
  {
  }

  lemma FullTreeParents()
    ensures var b := FullTree(); ParentsOk(b.s, 4) && Rising(b.s, 4)
  {
  }

  lemma FullTreeOk()
    ensures SnapOk(FullTree()) && Rising(FullTree().s, 4)
  {
    hide Linked, KeysOk, CountsOk, LeavesListed, ParentsOk, Members, Parents, Rising;
    FullTreeLinked();
    FullTreeForest();
    FullTreeKeys();
    FullTreeParents();
  }

  /**
   * The chain z, a, b on that cache: there is room for it, and the cache knows a and its caller b. But
   * z takes the node of a, which is therefore not kept.
   */
  lemma RecycledTooEarly()
    ensures var (a, keys) := (FullTree(), [Key(7, 0, 0), Key(7, 1, 1), Key(7, 2, 2)]);
            && SnapOk(a) && Rising(a.s, a.used) && Distinct(keys) && Roomy(a, keys)
            && keys[1] in a.index && keys[2] in a.index && a.s[a.index[keys[1]]].parent == a.index[keys[2]]
            && !Kept(a, keys, 1)
  {
    hide SnapOk;
    var a, keys := FullTree(), [Key(7, 0, 0), Key(7, 1, 1), Key(7, 2, 2)];
    FullTreeOk();
    assert Cost(a, keys, 0) == 0 && Cost(a, keys, 1) == 1 && Cost(a, keys, 2) == 2 && Cost(a, keys, 3) == 2;
    assert After(a, keys, 0) == Front([1, 4], 0);
    assert !Safe(a, keys, 0) && keys[0] !in a.index;
    assert 1 !in After(a, keys, 1).waiting;
  }
}
