/**
 * When AddCallChain can collect the nodes of a chain without recycling one of them: an exact
 * condition on the cache and the chain before the call.
 *
 * A frame that is cached as an inner node costs nothing. Any other frame takes an unused slot, or
 * takes a leaf out of the front of the LRU list, because it is that leaf or is put in its place.
 * New leaves go to the end, behind the first node of the chain there, so the front cannot grow, but
 * for one case: the very first recycled leaf may leave its parent childless, and that parent is put
 * in the list before the chain's first node.
 */
module ChainRoom {
  import opened Common
  import opened LruForest
  import opened CallChainCache

  /** The cache at one moment. */
  datatype Snap = Snap(s: seq<Node>, used: nat, index: map<Key, nat>, order: seq<nat>)

  ghost function SnapOf(cache: LRUCache): Snap
    reads cache, cache.nodes
  {
    Snap(cache.nodes[..], cache.used, cache.index, cache.order)
  }

  /** The frames of a chain. */
  ghost function Frames(tid: nat, ips: seq<u64>, sps: seq<u64>): (keys: seq<Key>)
    requires |ips| == |sps|
    ensures |keys| == |ips| && forall j :: 0 <= j < |ips| ==> keys[j] == Key(tid, ips[j], sps[j])
  {
    seq(|ips|, j requires 0 <= j < |ips| => Key(tid, ips[j], sps[j]))
  }

  ghost predicate SnapOk(a: Snap)
  {
    SoundCache(a.s, a.used, a.index, a.order)
  }

  ghost function Unused(a: Snap): int
  {
    |a.s| - 1 - a.used
  }

  ghost predicate Distinct(keys: seq<Key>)
  {
    forall i, j :: 0 <= i < j < |keys| ==> keys[i] != keys[j]
  }

  /** The frame is cached, as a node with children. */
  ghost predicate Inner(a: Snap, key: Key)
  {
    key in a.index && a.index[key] !in a.order
  }

  /** How many of the first i frames are not. */
  ghost function Cost(a: Snap, keys: seq<Key>, i: nat): nat
    requires i <= |keys|
  {
    if i == 0 then 0 else Cost(a, keys, i - 1) + (if Inner(a, keys[i - 1]) then 0 else 1)
  }

  /** The parent of the leaf that is recycled first. */
  ghost function Lead(a: Snap): nat
  {
    if |a.order| > 0 && a.order[0] < |a.s| then a.s[a.order[0]].parent else 0
  }

  ghost predicate LeadAmong(a: Snap, keys: seq<Key>, i: nat)
    requires i <= |keys|
  {
    Lead(a) < |a.s| && KeyOf(a.s[Lead(a)]) in keys[..i]
  }

  ghost predicate OnlyChild(a: Snap)
  {
    Lead(a) != 0 && Orphans(a.s, a.used, a.order[0])
  }

  /** The first of the frames that costs something recycled a leaf, and so put its parent in the list. */
  ghost predicate Gained(a: Snap, keys: seq<Key>, i: nat)
    requires i <= |keys|
  {
    if i == 0 then false
    else if Cost(a, keys, i - 1) == 0 && !Inner(a, keys[i - 1]) then
      Unused(a) == 0 && keys[i - 1] !in a.index && OnlyChild(a) && !LeadAmong(a, keys, i - 1)
    else Gained(a, keys, i - 1)
  }

  /** That parent is still of use, since it is not itself a frame of the chain. */
  ghost predicate Extra(a: Snap, keys: seq<Key>, i: nat)
    requires i <= |keys|
  {
    Gained(a, keys, i) && !LeadAmong(a, keys, i)
  }

  /** The exact condition. */
  ghost predicate Roomy(a: Snap, keys: seq<Key>)
  {
    Cost(a, keys, |keys|) <= Unused(a) + |a.order| + (if Extra(a, keys, |keys|) then 1 else 0)
  }

  // --------------------------------------------------------------------- the front

  /** What the front of the list can hold. */
  ghost function Fronts(a: Snap, gained: bool): set<nat>
  {
    (set x | x in a.order) + (if gained then {Lead(a)} else {})
  }

  /** The first p nodes of the list are not the chain's; all that can be in front is there or is the chain's. */
  ghost predicate FrontOk(fronts: set<nat>, order: seq<nat>, chain: seq<nat>, p: nat)
  {
    && p <= |order|
    && (forall k :: 0 <= k < p ==> order[k] !in chain && order[k] in fronts)
    && (p < |order| ==> order[p] in chain)
    && (forall x :: x in fronts ==> x in chain || x in order[..p])
  }

  /** Nodes outside the chain are as they were; a node of the chain with another frame came from the front. */
  ghost predicate FramesOk(a: Snap, b: Snap, keys: seq<Key>, chain: seq<nat>, fronts: set<nat>)
  {
    && a.used <= b.used < |b.s| == |a.s| && |chain| <= |keys|
    && (forall j :: 0 <= j < |chain| ==> 1 <= chain[j] <= b.used && KeyOf(b.s[chain[j]]) == keys[j])
    && (forall x: nat :: 1 <= x <= a.used && x !in chain ==> KeyOf(b.s[x]) == KeyOf(a.s[x]))
    && (forall x: nat :: a.used < x <= b.used ==> x in chain)
    && (forall x: nat :: 1 <= x <= a.used && x in chain && KeyOf(b.s[x]) != KeyOf(a.s[x]) ==> x in fronts && Unused(b) == 0)
  }

  /** As long as nothing was spent, nothing but the order of lookups has happened. */
  ghost predicate Unspent(a: Snap, b: Snap, p: nat)
  {
    && b.order == a.order && b.index == a.index && b.used == a.used && |b.s| == |a.s| && p == |b.order|
    && forall x: nat :: 1 <= x <= a.used ==> x < |a.s| && KeyOf(b.s[x]) == KeyOf(a.s[x]) && b.s[x].parent == a.s[x].parent
  }

  ghost predicate Tracks(a: Snap, b: Snap, keys: seq<Key>, chain: seq<nat>, p: nat)
  {
    && |chain| <= |keys| && Distinct(keys)
    && FramesOk(a, b, keys, chain, Fronts(a, Gained(a, keys, |chain|)))
    && FrontOk(Fronts(a, Gained(a, keys, |chain|)), b.order, chain, p)
    && (if Cost(a, keys, |chain|) == 0 then Unspent(a, b, p) else p < |b.order|)
    && Unused(b) + p == Unused(a) + |a.order| - Cost(a, keys, |chain|) + (if Extra(a, keys, |chain|) then 1 else 0)
  }

  /** Looking up the next frame would recycle a node of the chain. */
  ghost predicate Stuck(b: Snap, chain: seq<nat>, key: Key)
  {
    key !in b.index && Unused(b) == 0 && |b.order| > 0 && b.order[0] in chain
  }

  // ---------------------------------------------------------------------- lookups

  /** A frame is found exactly if it was cached at first and its node was not recycled. */
  lemma Lookup(a: Snap, b: Snap, keys: seq<Key>, chain: seq<nat>, fronts: set<nat>)
    requires KeysOk(a.s, a.used, a.index, 0) && KeysOk(b.s, b.used, b.index, 0) && Distinct(keys)
    requires FramesOk(a, b, keys, chain, fronts) && |chain| < |keys|
    ensures var key := keys[|chain|];
            && (key in b.index <==> key in a.index && a.index[key] !in chain)
            && (key in b.index ==> b.index[key] == a.index[key])
            && (key in a.index && a.index[key] in chain ==> a.index[key] in fronts && Unused(b) == 0)
  {
    var key := keys[|chain|];
    assert forall j :: 0 <= j < |chain| ==> KeyOf(b.s[chain[j]]) != key;
    if key in b.index {
      var y := b.index[key];
      assert y !in chain && y <= a.used && KeyOf(a.s[y]) == key;
    }
    if key in a.index && a.index[key] !in chain {
      assert KeyOf(b.s[a.index[key]]) == key;
    }
  }

  // -------------------------------------------------------------- the list, step by step

  lemma FrontSame(fronts: set<nat>, order: seq<nat>, chain: seq<nat>, p: nat, n: nat)
    requires FrontOk(fronts, order, chain, p) && n !in order
    ensures FrontOk(fronts, order, chain + [n], p)
  {
  }

  /** A leaf behind the chain's first node in the list is touched. */
  lemma FrontBehind(fronts: set<nat>, order: seq<nat>, used: nat, chain: seq<nat>, p: nat, k: nat)
    requires FrontOk(fronts, order, chain, p) && Members(order, used) && p < k < |order|
    ensures FrontOk(fronts, Without(order, k) + [order[k]], chain + [order[k]], p)
  {
    var order' := Without(order, k) + [order[k]];
    assert order'[..p] == order[..p] && order'[p] == order[p];
  }

  /** A leaf in front of it is touched. */
  lemma FrontTaken(fronts: set<nat>, order: seq<nat>, used: nat, chain: seq<nat>, p: nat, k: nat)
    requires FrontOk(fronts, order, chain, p) && Members(order, used) && k < p
    ensures FrontOk(fronts, Without(order, k) + [order[k]], chain + [order[k]], p - 1)
  {
    var n := order[k];
    var order' := Without(order, k) + [n];
    assert order'[p - 1] == if p < |order| then order[p] else n;
    forall l | 0 <= l < p - 1 ensures order'[l] !in chain + [n] && order'[l] in fronts {
      assert order'[l] == order[if l < k then l else l + 1];
    }
    forall x | x in fronts ensures x in chain + [n] || x in order'[..p - 1] {
      if x !in chain && x != n {
        StillInFront(order, p, k, x);
      }
    }
  }

  lemma StillInFront(order: seq<nat>, p: nat, k: nat, x: nat)
    requires k < p <= |order| && x in order[..p] && x != order[k]
    ensures x in (Without(order, k) + [order[k]])[..p - 1]
  {
    var l :| 0 <= l < p && order[l] == x;
    assert (Without(order, k) + [order[k]])[if l < k then l else l - 1] == x;
  }

  lemma FrontNew(fronts: set<nat>, order: seq<nat>, chain: seq<nat>, p: nat, n: nat)
    requires FrontOk(fronts, order, chain, p) && n !in order
    ensures FrontOk(fronts, order + [n], chain + [n], p)
  {
    assert (order + [n])[..p] == order[..p];
  }

  /** A leaf is recycled while some node of the chain is in the list: only the front shrinks. */
  lemma FrontRecycled(fronts: set<nat>, order: seq<nat>, used: nat, chain: seq<nat>, p: nat, more: seq<nat>)
    requires FrontOk(fronts, order, chain, p) && Members(order, used) && 0 < p < |order|
    ensures FrontOk(fronts, order[1..] + more + [order[0]], chain + [order[0]], p - 1)
  {
    var n := order[0];
    var order' := order[1..] + more + [n];
    assert forall l :: 0 <= l < p ==> order'[l] == order[l + 1];
    forall x | x in fronts ensures x in chain + [n] || x in order'[..p - 1] {
      if x !in chain && x != n {
        var l :| 0 <= l < p && order[l] == x;
        assert order'[l - 1] == x;
      }
    }
  }

  /** The first leaf is recycled when no node of the chain is in the list, and its parent is not freed or is the chain's. */
  lemma FrontFirst(fronts: set<nat>, order: seq<nat>, used: nat, chain: seq<nat>, more: seq<nat>)
    requires FrontOk(fronts, order, chain, |order|) && Members(order, used) && |order| > 0
    requires more == [] || (|more| == 1 && more[0] in chain)
    ensures FrontOk(fronts, order[1..] + more + [order[0]], chain + [order[0]], |order| - 1)
  {
    var n, p := order[0], |order| - 1;
    var order' := order[1..] + more + [n];
    assert forall l :: 0 <= l < p ==> order'[l] == order[l + 1];
    assert order'[p] == if more == [] then n else more[0];
    forall x | x in fronts ensures x in chain + [n] || x in order'[..p] {
      if x !in chain && x != n {
        var l :| 0 <= l < |order| && order[l] == x;
        assert order'[l - 1] == x;
      }
    }
  }

  /** The same, when its parent is freed and is not the chain's. */
  lemma FrontGained(fronts: set<nat>, order: seq<nat>, used: nat, chain: seq<nat>, lead: nat)
    requires FrontOk(fronts, order, chain, |order|) && Members(order, used) && |order| > 0
    requires lead !in chain && lead !in order
    ensures FrontOk(fronts + {lead}, order[1..] + [lead] + [order[0]], chain + [order[0]], |order|)
  {
    var n, p := order[0], |order|;
    var order' := order[1..] + [lead] + [n];
    assert forall l :: 0 <= l < p - 1 ==> order'[l] == order[l + 1];
    assert order'[p - 1] == lead && order'[p] == n;
    forall x | x in fronts + {lead} ensures x in chain + [n] || x in order'[..p] {
      if x !in chain && x != n && x != lead {
        var l :| 0 <= l < |order| && order[l] == x;
        assert order'[l - 1] == x;
      }
    }
  }

  // ------------------------------------------------------------------ frames and counts

  lemma FramesStep(a: Snap, b: Snap, c: Snap, keys: seq<Key>, chain: seq<nat>, fronts: set<nat>, fronts': set<nat>, n: nat)
    requires FramesOk(a, b, keys, chain, fronts) && |chain| < |keys| && n !in chain && fronts <= fronts'
    requires KeysOk(b.s, b.used, b.index, 0)
    requires Got(b.s, b.used, b.index, b.order, c.s, c.used, c.index, c.order, keys[|chain|], n)
    requires keys[|chain|] !in b.index && Unused(b) == 0 ==> n in fronts
    ensures FramesOk(a, c, keys, chain + [n], fronts')
  {
    hide Touched, Recycled;
    var chain', key := chain + [n], keys[|chain|];
    forall j | 0 <= j < |chain'| ensures 1 <= chain'[j] <= c.used && KeyOf(c.s[chain'[j]]) == keys[j] {
      if j < |chain| {
        assert chain[j] in chain && chain[j] != n;
      }
    }
    forall x: nat | 1 <= x <= a.used && x !in chain' ensures KeyOf(c.s[x]) == KeyOf(a.s[x]) {
      assert x != n;
    }
    forall x: nat | 1 <= x <= a.used && x in chain' && KeyOf(c.s[x]) != KeyOf(a.s[x]) ensures x in fronts' && Unused(c) == 0 {
      if x != n {
        assert x in chain && KeyOf(c.s[x]) == KeyOf(b.s[x]);
      }
    }
  }

  lemma {:induction false} NothingGained(a: Snap, keys: seq<Key>, i: nat)
    requires i <= |keys| && Cost(a, keys, i) == 0
    ensures !Gained(a, keys, i)
  {
    if i > 0 {
      NothingGained(a, keys, i - 1);
    }
  }

  lemma LeadFacts(a: Snap)
    requires SnapOk(a)
    ensures Lead(a) != 0 ==> 1 <= Lead(a) <= a.used < |a.s| && Lead(a) !in a.order
    ensures Lead(a) != 0 ==> KeyOf(a.s[Lead(a)]) in a.index && a.index[KeyOf(a.s[Lead(a)])] == Lead(a)
  {
    if Lead(a) != 0 {
      var n, p := a.order[0], Lead(a);
      assert n in Kids(Parents(a.s, a.used), a.used, p);
      hide Kids, Linked;
    }
  }

  lemma {:induction false} GainedLead(a: Snap, keys: seq<Key>, i: nat)
    requires i <= |keys| && Gained(a, keys, i)
    ensures Lead(a) != 0
  {
    if !(Cost(a, keys, i - 1) == 0 && !Inner(a, keys[i - 1])) {
      GainedLead(a, keys, i - 1);
    }
  }

  /** The frame after the first i is that of the freed parent. */
  lemma LeadNext(a: Snap, keys: seq<Key>, i: nat)
    requires SnapOk(a) && i < |keys| && Distinct(keys) && Lead(a) != 0
    ensures var key := keys[i];
            if key in a.index && a.index[key] == Lead(a) then !LeadAmong(a, keys, i) && LeadAmong(a, keys, i + 1)
            else LeadAmong(a, keys, i + 1) == LeadAmong(a, keys, i)
  {
    hide SnapOk;
    LeadFacts(a);
    SnapParts(a);
    assert keys[..i + 1] == keys[..i] + [keys[i]];
  }

  // -------------------------------------------------------------------- one more frame

  lemma SnapParts(b: Snap)
    requires SnapOk(b)
    ensures KeysOk(b.s, b.used, b.index, 0) && Members(b.order, b.used) && b.used < |b.s|
  {
    hide Kids, Linked;
  }

  lemma TrackParts(a: Snap, b: Snap, keys: seq<Key>, chain: seq<nat>, p: nat)
    requires SnapOk(a) && SnapOk(b) && Tracks(a, b, keys, chain, p)
    ensures KeysOk(a.s, a.used, a.index, 0) && KeysOk(b.s, b.used, b.index, 0) && Members(b.order, b.used)
  {
    hide SnapOk, Tracks;
    SnapParts(a);
    SnapParts(b);
  }

  /** What is known when a frame is found. */
  lemma GotHit(b: Snap, c: Snap, key: Key, n: nat)
    requires Got(b.s, b.used, b.index, b.order, c.s, c.used, c.index, c.order, key, n) && key in b.index
    ensures n == b.index[key] && c.used == b.used && c.index == b.index && |c.s| == |b.s| && Touched(b.order, c.order, n)
  {
    hide Touched, Recycled;
  }

  lemma UnspentFree(a: Snap, b: Snap, c: Snap, p: nat, key: Key, n: nat)
    requires Unspent(a, b, p) && key in b.index && n !in b.order && KeysOk(b.s, b.used, b.index, 0)
    requires Got(b.s, b.used, b.index, b.order, c.s, c.used, c.index, c.order, key, n)
    ensures Unspent(a, c, p)
  {
  }

  /** A frame with a node that cannot be in front: found, for nothing. */
  lemma TrackFree(a: Snap, b: Snap, c: Snap, keys: seq<Key>, chain: seq<nat>, p: nat, n: nat)
    requires SnapOk(a) && SnapOk(b) && Tracks(a, b, keys, chain, p) && |chain| < |keys|
    requires Got(b.s, b.used, b.index, b.order, c.s, c.used, c.index, c.order, keys[|chain|], n)
    requires var key := keys[|chain|]; key in a.index && a.index[key] !in Fronts(a, Gained(a, keys, |chain|))
    ensures Tracks(a, c, keys, chain + [n], p)
  {
    hide SnapOk, KeysOk, Members, FramesOk, FrontOk, Got, Unspent, Fronts, Gained, Extra, Cost, Inner, Distinct,
         Touched;
    TrackParts(a, b, keys, chain, p);
    var i, key := |chain|, keys[|chain|];
    var fronts := Fronts(a, Gained(a, keys, i));
    Lookup(a, b, keys, chain, fronts);
    GotHit(b, c, key, n);
    FramesStep(a, b, c, keys, chain, fronts, fronts, n);
    FreeList(fronts, b.order, c.order, b.used, chain, p, n);
    FreeCount(a, keys, i);
    if Cost(a, keys, i) == 0 {
      UnspentOrder(a, b, p);
      InnerUnlisted(a, key);
      UnspentFree(a, b, c, p, key, n);
    }
  }

  lemma UnspentOrder(a: Snap, b: Snap, p: nat)
    requires Unspent(a, b, p)
    ensures b.order == a.order && b.index == a.index && b.used == a.used && |b.s| == |a.s| && p == |b.order|
  {
  }

  lemma InnerUnlisted(a: Snap, key: Key)
    requires Inner(a, key)
    ensures key in a.index && a.index[key] !in a.order
  {
  }

  lemma FreeList(fronts: set<nat>, order: seq<nat>, order': seq<nat>, used: nat, chain: seq<nat>, p: nat, n: nat)
    requires FrontOk(fronts, order, chain, p) && Members(order, used) && Touched(order, order', n)
    requires n !in fronts && n !in chain
    ensures FrontOk(fronts, order', chain + [n], p) && |order'| == |order|
  {
    if n !in order {
      FrontSame(fronts, order, chain, p, n);
    } else {
      var k :| 0 <= k < |order| && order[k] == n && order' == Without(order, k) + [n];
      FrontBehind(fronts, order, used, chain, p, k);
    }
  }

  lemma FreeCount(a: Snap, keys: seq<Key>, i: nat)
    requires SnapOk(a) && i < |keys| && Distinct(keys)
    requires keys[i] in a.index && a.index[keys[i]] !in Fronts(a, Gained(a, keys, i))
    ensures Inner(a, keys[i]) && Cost(a, keys, i + 1) == Cost(a, keys, i)
    ensures Gained(a, keys, i + 1) == Gained(a, keys, i) && Extra(a, keys, i + 1) == Extra(a, keys, i)
  {
    hide SnapOk;
    if Gained(a, keys, i) {
      GainedLead(a, keys, i);
      LeadNext(a, keys, i);
    }
  }

  /** One more is spent, by the count or because the freed parent was a frame of the chain after all. */
  lemma SpentCount(a: Snap, keys: seq<Key>, i: nat)
    requires SnapOk(a) && i < |keys| && Distinct(keys) && Cost(a, keys, i) > 0
    requires keys[i] in a.index ==> a.index[keys[i]] in Fronts(a, Gained(a, keys, i))
    ensures Gained(a, keys, i + 1) == Gained(a, keys, i) && Cost(a, keys, i + 1) > 0
    ensures Cost(a, keys, i + 1) - (if Extra(a, keys, i + 1) then 1 else 0)
         == Cost(a, keys, i) - (if Extra(a, keys, i) then 1 else 0) + 1
  {
    hide SnapOk;
    if Lead(a) != 0 {
      LeadFacts(a);
      LeadNext(a, keys, i);
    }
    if Gained(a, keys, i) {
      GainedLead(a, keys, i);
    }
  }

  /** A frame whose node is in front: found, and out of the front. */
  lemma TrackTaken(a: Snap, b: Snap, c: Snap, keys: seq<Key>, chain: seq<nat>, p: nat, n: nat)
    requires SnapOk(a) && SnapOk(b) && Tracks(a, b, keys, chain, p) && |chain| < |keys|
    requires Got(b.s, b.used, b.index, b.order, c.s, c.used, c.index, c.order, keys[|chain|], n)
    requires var key := keys[|chain|];
             key in a.index && a.index[key] !in chain && a.index[key] in Fronts(a, Gained(a, keys, |chain|))
    ensures p > 0 && Tracks(a, c, keys, chain + [n], p - 1)
  {
    hide SnapOk, KeysOk, Members, FramesOk, FrontOk, Got, Unspent, Fronts, Gained, Extra, Cost, Inner, Distinct,
         Touched;
    TrackParts(a, b, keys, chain, p);
    var i, key := |chain|, keys[|chain|];
    var fronts := Fronts(a, Gained(a, keys, i));
    Lookup(a, b, keys, chain, fronts);
    GotHit(b, c, key, n);
    FramesStep(a, b, c, keys, chain, fronts, fronts, n);
    TakenList(fronts, b.order, c.order, b.used, chain, p, n);
    if Cost(a, keys, i) > 0 {
      SpentCount(a, keys, i);
    } else {
      TakenFirst(a, keys, i);
    }
  }

  lemma TakenList(fronts: set<nat>, order: seq<nat>, order': seq<nat>, used: nat, chain: seq<nat>, p: nat, n: nat)
    requires FrontOk(fronts, order, chain, p) && Members(order, used) && Touched(order, order', n)
    requires n in fronts && n !in chain
    ensures p > 0 && FrontOk(fronts, order', chain + [n], p - 1) && |order'| == |order| && p - 1 < |order'|
  {
    var k :| 0 <= k < p && order[k] == n;
    var l :| 0 <= l < |order| && order[l] == n && order' == Without(order, l) + [n];
    assert l == k;
    FrontTaken(fronts, order, used, chain, p, k);
  }

  /** The first frame that costs something is a leaf. */
  lemma TakenFirst(a: Snap, keys: seq<Key>, i: nat)
    requires SnapOk(a) && i < |keys| && Cost(a, keys, i) == 0
    requires keys[i] in a.index && a.index[keys[i]] in Fronts(a, Gained(a, keys, i))
    ensures !Gained(a, keys, i) && !Gained(a, keys, i + 1) && Cost(a, keys, i + 1) == 1
    ensures !Extra(a, keys, i) && !Extra(a, keys, i + 1)
  {
    hide SnapOk;
    NothingGained(a, keys, i);
  }

  /** A frame that is not cached any more, or never was, with an unused slot left. */
  lemma TrackNew(a: Snap, b: Snap, c: Snap, keys: seq<Key>, chain: seq<nat>, p: nat, n: nat)
    requires SnapOk(a) && SnapOk(b) && Tracks(a, b, keys, chain, p) && |chain| < |keys|
    requires Got(b.s, b.used, b.index, b.order, c.s, c.used, c.index, c.order, keys[|chain|], n)
    requires keys[|chain|] !in b.index && Unused(b) > 0
    ensures Tracks(a, c, keys, chain + [n], p)
  {
    hide SnapOk, KeysOk, Members, FramesOk, FrontOk, Got, Unspent, Fronts, Gained, Extra, Cost, Inner, Distinct,
         Touched;
    TrackParts(a, b, keys, chain, p);
    var i, key := |chain|, keys[|chain|];
    var fronts := Fronts(a, Gained(a, keys, i));
    Lookup(a, b, keys, chain, fronts);
    GotSlot(b, c, keys, chain, key, n);
    FramesChain(a, b, keys, chain, fronts, n);
    FramesStep(a, b, c, keys, chain, fronts, fronts, n);
    SlotUnlisted(b.order, b.used, n);
    FrontNew(fronts, b.order, chain, p, n);
    if Cost(a, keys, i) > 0 {
      SpentCount(a, keys, i);
    } else {
      UnspentOrder(a, b, p);
      NewFirst(a, keys, i);
    }
  }

  lemma GotSlot(b: Snap, c: Snap, keys: seq<Key>, chain: seq<nat>, key: Key, n: nat)
    requires Got(b.s, b.used, b.index, b.order, c.s, c.used, c.index, c.order, key, n) && key !in b.index && Unused(b) > 0
    ensures n == b.used + 1 == c.used && |c.s| == |b.s| && c.order == b.order + [n]
  {
    hide Touched, Recycled;
  }

  lemma SlotUnlisted(order: seq<nat>, used: nat, n: nat)
    requires Members(order, used) && n > used
    ensures n !in order
  {
  }

  lemma FramesChain(a: Snap, b: Snap, keys: seq<Key>, chain: seq<nat>, fronts: set<nat>, n: nat)
    requires FramesOk(a, b, keys, chain, fronts) && n > b.used
    ensures n !in chain
  {
  }

  /** The first frame that costs something finds an unused slot. */
  lemma NewFirst(a: Snap, keys: seq<Key>, i: nat)
    requires SnapOk(a) && i < |keys| && Cost(a, keys, i) == 0 && Unused(a) > 0 && keys[i] !in a.index
    ensures !Gained(a, keys, i) && !Gained(a, keys, i + 1) && Cost(a, keys, i + 1) == 1
    ensures !Extra(a, keys, i) && !Extra(a, keys, i + 1)
  {
    hide SnapOk;
    NothingGained(a, keys, i);
  }

  lemma GotRecycled(b: Snap, c: Snap, key: Key, n: nat)
    requires Got(b.s, b.used, b.index, b.order, c.s, c.used, c.index, c.order, key, n) && key !in b.index && Unused(b) == 0
    ensures |b.order| > 0 && n == b.order[0] < |b.s| && c.used == b.used && |c.s| == |b.s|
    ensures c.order == b.order[1..] + (if Orphans(b.s, b.used, n) then [b.s[n].parent] else []) + [n]
  {
    hide Touched, Orphans;
  }

  /** A leaf out of the front makes place for the frame. */
  lemma TrackRecycled(a: Snap, b: Snap, c: Snap, keys: seq<Key>, chain: seq<nat>, p: nat, n: nat)
    requires SnapOk(a) && SnapOk(b) && Tracks(a, b, keys, chain, p) && |chain| < |keys| && Cost(a, keys, |chain|) > 0
    requires Got(b.s, b.used, b.index, b.order, c.s, c.used, c.index, c.order, keys[|chain|], n)
    requires keys[|chain|] !in b.index && Unused(b) == 0 && p > 0
    ensures Tracks(a, c, keys, chain + [n], p - 1)
  {
    hide SnapOk, KeysOk, Members, FramesOk, FrontOk, Got, Unspent, Fronts, Gained, Extra, Cost, Inner, Distinct,
         Touched, Orphans;
    TrackParts(a, b, keys, chain, p);
    var i, key := |chain|, keys[|chain|];
    var fronts := Fronts(a, Gained(a, keys, i));
    Lookup(a, b, keys, chain, fronts);
    GotRecycled(b, c, key, n);
    FrontFacts(fronts, b.order, chain, p);
    FramesStep(a, b, c, keys, chain, fronts, fronts, n);
    var more := if Orphans(b.s, b.used, n) then [b.s[n].parent] else [];
    FrontRecycled(fronts, b.order, b.used, chain, p, more);
    SpentCount(a, keys, i);
  }

  lemma FrontFacts(fronts: set<nat>, order: seq<nat>, chain: seq<nat>, p: nat)
    requires FrontOk(fronts, order, chain, p) && p > 0
    ensures p <= |order| && order[0] !in chain && order[0] in fronts
  {
  }

  /** The first frame that costs something recycles the first leaf. */
  lemma TrackFirst(a: Snap, b: Snap, c: Snap, keys: seq<Key>, chain: seq<nat>, p: nat, n: nat) returns (p': nat)
    requires SnapOk(a) && SnapOk(b) && Tracks(a, b, keys, chain, p) && |chain| < |keys| && Cost(a, keys, |chain|) == 0
    requires Got(b.s, b.used, b.index, b.order, c.s, c.used, c.index, c.order, keys[|chain|], n)
    requires keys[|chain|] !in b.index && Unused(b) == 0
    ensures Tracks(a, c, keys, chain + [n], p')
  {
    hide SnapOk, KeysOk, Members, FramesOk, FrontOk, Got, Unspent, Gained, Extra, Cost, Inner, Distinct, Touched,
         Orphans, OnlyChild;
    TrackParts(a, b, keys, chain, p);
    var i, key := |chain|, keys[|chain|];
    NothingGained(a, keys, i);
    var fronts := Fronts(a, false);
    Lookup(a, b, keys, chain, fronts);
    GotRecycled(b, c, key, n);
    UnspentOrder(a, b, p);
    FrontFacts(fronts, b.order, chain, p);
    UnspentLead(a, b, p);
    FirstCount(a, keys, i);
    LeadInChain(a, b, keys, chain, fronts, p);
    LeadFacts(a);
    var g := Gained(a, keys, i + 1);
    assert Fronts(a, true) == fronts + {Lead(a)};
    FramesStep(a, b, c, keys, chain, fronts, Fronts(a, g), n);
    if g {
      p' := p;
      FrontGained(fronts, b.order, b.used, chain, Lead(a));
    } else {
      p' := p - 1;
      FrontFirst(fronts, b.order, b.used, chain, if OnlyChild(a) then [Lead(a)] else []);
    }
  }

  lemma UnspentLead(a: Snap, b: Snap, p: nat)
    requires SnapOk(a) && Unspent(a, b, p) && |a.order| > 0
    ensures OnlyChild(a) <==> Orphans(b.s, b.used, b.order[0])
    ensures 1 <= a.order[0] <= a.used < |a.s| && b.s[b.order[0]].parent == Lead(a)
  {
    SnapParts(a);
    hide SnapOk;
    assert a.order[0] <= a.used;
    var pa, pb := Parents(a.s, a.used), Parents(b.s, b.used);
    var n, q := a.order[0], Lead(a);
    if q < |a.s| {
      assert Kids(pb, b.used, q) == Kids(pa, a.used, q);
    }
  }

  lemma FirstCount(a: Snap, keys: seq<Key>, i: nat)
    requires SnapOk(a) && i < |keys| && Cost(a, keys, i) == 0 && Unused(a) == 0 && keys[i] !in a.index && Distinct(keys)
    ensures Cost(a, keys, i + 1) == 1 && !Extra(a, keys, i)
    ensures Gained(a, keys, i + 1) <==> OnlyChild(a) && !LeadAmong(a, keys, i)
    ensures Extra(a, keys, i + 1) == Gained(a, keys, i + 1)
    ensures Gained(a, keys, i + 1) ==> Lead(a) != 0
  {
    NothingGained(a, keys, i);
    if Lead(a) != 0 {
      LeadNext(a, keys, i);
    }
    hide SnapOk;
  }

  /** At that point the chain has the parent as a node exactly if it has it as a frame. */
  lemma LeadInChain(a: Snap, b: Snap, keys: seq<Key>, chain: seq<nat>, fronts: set<nat>, p: nat)
    requires SnapOk(a) && Unspent(a, b, p) && FramesOk(a, b, keys, chain, fronts)
    ensures OnlyChild(a) ==> (Lead(a) in chain <==> LeadAmong(a, keys, |chain|))
  {
    LeadFacts(a);
    SnapParts(a);
    hide SnapOk, Orphans;
    if OnlyChild(a) {
      var q := Lead(a);
      if q in chain {
        var j :| 0 <= j < |chain| && chain[j] == q;
        assert keys[..|chain|][j] == KeyOf(a.s[q]);
      }
      if KeyOf(a.s[q]) in keys[..|chain|] {
        var j :| 0 <= j < |chain| && keys[..|chain|][j] == KeyOf(a.s[q]);
        assert KeyOf(b.s[chain[j]]) == KeyOf(a.s[q]);
        assert chain[j] <= a.used && KeyOf(a.s[chain[j]]) == KeyOf(a.s[q]);
        assert chain[j] == q;
      }
    }
  }

  /** One more frame, whatever it is, as long as no node of the chain has to be recycled for it. */
  lemma TrackStep(a: Snap, b: Snap, c: Snap, keys: seq<Key>, chain: seq<nat>, p: nat, n: nat) returns (p': nat)
    requires SnapOk(a) && SnapOk(b) && Tracks(a, b, keys, chain, p) && |chain| < |keys|
    requires Got(b.s, b.used, b.index, b.order, c.s, c.used, c.index, c.order, keys[|chain|], n)
    requires !Stuck(b, chain, keys[|chain|])
    ensures Tracks(a, c, keys, chain + [n], p')
  {
    hide Tracks, SnapOk, KeysOk, Members, Got, Fronts, Gained, Cost, Stuck, FramesOk;
    var i, key := |chain|, keys[|chain|];
    var fronts := Fronts(a, Gained(a, keys, i));
    TrackLookup(a, b, keys, chain, p);
    if key in b.index {
      if a.index[key] in fronts {
        TrackTaken(a, b, c, keys, chain, p, n);
        p' := p - 1;
      } else {
        TrackFree(a, b, c, keys, chain, p, n);
        p' := p;
      }
    } else if Unused(b) > 0 {
      TrackNew(a, b, c, keys, chain, p, n);
      p' := p;
    } else if Cost(a, keys, i) > 0 {
      FrontOrStuck(a, b, keys, chain, p);
      TrackRecycled(a, b, c, keys, chain, p, n);
      p' := p - 1;
    } else {
      p' := TrackFirst(a, b, c, keys, chain, p, n);
    }
  }

  lemma TrackLookup(a: Snap, b: Snap, keys: seq<Key>, chain: seq<nat>, p: nat)
    requires SnapOk(a) && SnapOk(b) && Tracks(a, b, keys, chain, p) && |chain| < |keys|
    ensures var key := keys[|chain|];
            && (key in b.index ==> key in a.index && a.index[key] !in chain)
            && (key !in b.index && key in a.index ==> a.index[key] in Fronts(a, Gained(a, keys, |chain|)))
            && Unused(b) >= 0
  {
    hide SnapOk, KeysOk, Members, Fronts, Gained, Cost, Extra, Unspent, FrontOk;
    TrackParts(a, b, keys, chain, p);
    Lookup(a, b, keys, chain, Fronts(a, Gained(a, keys, |chain|)));
  }

  lemma FrontOrStuck(a: Snap, b: Snap, keys: seq<Key>, chain: seq<nat>, p: nat)
    requires Tracks(a, b, keys, chain, p) && |chain| < |keys| && !Stuck(b, chain, keys[|chain|])
    requires keys[|chain|] !in b.index && Unused(b) == 0 && Cost(a, keys, |chain|) > 0
    ensures p > 0
  {
    hide Gained, Fronts, Cost, Extra, FramesOk;
  }

  // ---------------------------------------------------------------------- exactness

  lemma TrackStart(a: Snap, keys: seq<Key>)
    requires SnapOk(a) && Distinct(keys)
    ensures Tracks(a, a, keys, [], |a.order|)
  {
    hide SnapOk, KeysOk, Members, Distinct;
    SnapParts(a);
    var fronts := Fronts(a, false);
    assert FramesOk(a, a, keys, [], fronts) by {
      hide Fronts;
    }
    hide FramesOk;
    assert a.order[..|a.order|] == a.order;
    assert FrontOk(fronts, a.order, [], |a.order|);
    hide Fronts, FrontOk;
  }

  /** All frames have their nodes: there was room. */
  lemma TrackedIsRoomy(a: Snap, b: Snap, keys: seq<Key>, chain: seq<nat>, p: nat)
    requires Tracks(a, b, keys, chain, p) && |chain| == |keys|
    ensures Roomy(a, keys)
  {
    hide Cost, Extra, Gained, Fronts, FrontOk, Unspent;
  }

  lemma {:induction false} CostGrows(a: Snap, keys: seq<Key>, i: nat, n: nat)
    requires i <= n <= |keys|
    ensures Cost(a, keys, i) <= Cost(a, keys, n)
    ensures i < n && !Inner(a, keys[i]) ==> Cost(a, keys, i) < Cost(a, keys, n)
    ensures Cost(a, keys, i) > 0 ==> Gained(a, keys, n) == Gained(a, keys, i)
  {
    if i < n {
      CostGrows(a, keys, i, n - 1);
    }
  }

  /** A node of the chain would be recycled: there was not. */
  lemma StuckIsNotRoomy(a: Snap, b: Snap, keys: seq<Key>, chain: seq<nat>, p: nat)
    requires SnapOk(a) && SnapOk(b) && Tracks(a, b, keys, chain, p) && |chain| < |keys| && Stuck(b, chain, keys[|chain|])
    ensures !Roomy(a, keys)
  {
    hide SnapOk, KeysOk, Members, Gained, Cost, FramesOk, Fronts, Distinct;
    var i := |chain|;
    TrackLookup(a, b, keys, chain, p);
    StuckSpent(a, b, keys, chain, p);
    CostGrows(a, keys, i, |keys|);
    StuckLead(a, keys, i, chain);
    LeadMonotone(a, keys, i);
  }

  lemma StuckSpent(a: Snap, b: Snap, keys: seq<Key>, chain: seq<nat>, p: nat)
    requires Tracks(a, b, keys, chain, p) && |chain| < |keys| && Stuck(b, chain, keys[|chain|])
    ensures p == 0 && Cost(a, keys, |chain|) > 0
  {
    hide Gained, Fronts, Cost, Extra, FramesOk;
  }

  /** A frame that was inner and is not found is that of the freed parent. */
  lemma StuckLead(a: Snap, keys: seq<Key>, i: nat, chain: seq<nat>)
    requires SnapOk(a) && i < |keys| && Distinct(keys)
    requires keys[i] in a.index ==> a.index[keys[i]] in Fronts(a, Gained(a, keys, i))
    ensures Inner(a, keys[i]) ==> Extra(a, keys, i) && LeadAmong(a, keys, i + 1)
  {
    if Inner(a, keys[i]) {
      GainedLead(a, keys, i);
      LeadNext(a, keys, i);
    }
  }

  lemma LeadMonotone(a: Snap, keys: seq<Key>, i: nat)
    requires i < |keys|
    ensures LeadAmong(a, keys, i) ==> LeadAmong(a, keys, |keys|)
    ensures LeadAmong(a, keys, i + 1) ==> LeadAmong(a, keys, |keys|)
  {
    assert forall x :: x in keys[..i] ==> x in keys[..|keys|];
    assert forall x :: x in keys[..i + 1] ==> x in keys[..|keys|];
  }

  /** There the lookup does recycle a node of the chain, which then holds another frame than it should. */
  lemma StuckRecyclesChain(b: Snap, c: Snap, keys: seq<Key>, chain: seq<nat>, n: nat)
    requires Distinct(keys) && |chain| < |keys| && Stuck(b, chain, keys[|chain|])
    requires Got(b.s, b.used, b.index, b.order, c.s, c.used, c.index, c.order, keys[|chain|], n)
    ensures exists j :: 0 <= j < |chain| && chain[j] == n < |c.s| && KeyOf(c.s[chain[j]]) != keys[j]
  {
    GotRecycled(b, c, keys[|chain|], n);
    var j :| 0 <= j < |chain| && chain[j] == n;
    assert KeyOf(c.s[chain[j]]) == keys[|chain|] != keys[j];
  }

  /** A cache of two nodes, both in use by frames without callers. */
  ghost function FullPair(): Snap
  {
    Snap([Node(0, 0, 0, true, 0, 2, 1), Node(1, 1, 7, true, 0, 0, 2), Node(2, 2, 7, true, 0, 1, 0)],
         2, map[Key(7, 1, 1) := 1, Key(7, 2, 2) := 2], [1, 2])
  }

  lemma FullPairLinked()
    ensures Linked(FullPair().s, FullPair().order)
  {
    var b := FullPair();
    forall k | -1 <= k < 2
      ensures b.s[At(b.order, k)].next == At(b.order, k + 1) && b.s[At(b.order, k + 1)].link == At(b.order, k)
    {
      assert k == -1 || k == 0 || k == 1;
    }
  }

  lemma FullPairOk()
    ensures SnapOk(FullPair())
  {
    hide Linked;
    var b := FullPair();
    FullPairLinked();
    assert CountsOk(b.s, 2, Parents(b.s, 2));
    assert LeavesListed(b.s, 2, b.order, 0);
    assert KeysOk(b.s, 2, b.index, 0);
  }

  /** Those two frames are the first of a chain of three: there is no room for it, the third recycles the first. */
  lemma TwoNodesThreeFrames()
    ensures var (one, two, three) := (Key(7, 1, 1), Key(7, 2, 2), Key(7, 3, 3));
            && SnapOk(FullPair()) && KeyOf(FullPair().s[1]) == one && KeyOf(FullPair().s[2]) == two
            && Distinct([one, two, three])
            && Stuck(FullPair(), [1, 2], three) && !Roomy(FullPair(), [one, two, three])
  {
    hide SnapOk, Roomy;
    FullPairOk();
    LeavesHaveNoRoom(FullPair(), [Key(7, 1, 1), Key(7, 2, 2), Key(7, 3, 3)]);
  }

  /** A full cache of leaves without parents has no room for more frames than leaves. */
  lemma LeavesHaveNoRoom(a: Snap, keys: seq<Key>)
    requires Unused(a) == 0 && |keys| > |a.order| > 0 && a.order[0] < |a.s| && a.s[a.order[0]].parent == 0
    requires forall k :: k in a.index ==> a.index[k] in a.order
    ensures !Roomy(a, keys)
  {
    LeafCost(a, keys, |keys|);
    if Extra(a, keys, |keys|) {
      GainedLead(a, keys, |keys|);
    }
  }

  lemma {:induction false} LeafCost(a: Snap, keys: seq<Key>, i: nat)
    requires i <= |keys| && forall k :: k in a.index ==> a.index[k] in a.order
    ensures Cost(a, keys, i) == i
  {
    if i > 0 {
      LeafCost(a, keys, i - 1);
    }
  }

  /** An empty cache has room for as many frames as it has nodes: three frames do not fit two nodes. */
  lemma {:induction false} EmptyCacheRoom(a: Snap, keys: seq<Key>)
    requires a.index == map[] && a.order == []
    ensures Roomy(a, keys) <==> |keys| <= Unused(a)
  {
    AllCost(a, keys, |keys|);
    if Extra(a, keys, |keys|) {
      GainedLead(a, keys, |keys|);
    }
  }

  lemma {:induction false} AllCost(a: Snap, keys: seq<Key>, i: nat)
    requires i <= |keys| && a.index == map[]
    ensures Cost(a, keys, i) == i
  {
    if i > 0 {
      AllCost(a, keys, i - 1);
    }
  }

  /** Chains whose frames, but for the first, are cached with children fit any cache. */
  lemma {:induction false} CachedCost(a: Snap, keys: seq<Key>, i: nat)
    requires 1 <= i <= |keys| && forall j :: 1 <= j < i ==> Inner(a, keys[j])
    ensures Cost(a, keys, i) == if Inner(a, keys[0]) then 0 else 1
  {
    if i > 1 {
      CachedCost(a, keys, i - 1);
    } else {
      assert Cost(a, keys, 0) == 0;
    }
  }
}
