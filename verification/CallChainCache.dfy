/**
 * LRUCache of the call chain joiner: finding or making the node of a frame, recycling the least
 * recently used leaf, linking a chain and extending it along cached parents.
 */
module CallChainCache {
  import opened Common
  import opened LruForest

  datatype Key = Key(tid: nat, ip: u64, sp: u64)

  function KeyOf(n: Node): Key
  {
    Key(n.tid, n.ip, n.sp)
  }

  ghost function Parents(s: seq<Node>, used: nat): (par: seq<nat>)
    ensures |par| == |s|
    ensures forall i :: 0 <= i < |s| ==> par[i] == if i <= used then s[i].parent else 0
  {
    seq(|s|, i requires 0 <= i < |s| => if i <= used then s[i].parent else 0)
  }

  /** node_set_ finds each used node (but the one in `hole`) by its frame, and nothing else. */
  ghost predicate KeysOk(s: seq<Node>, used: nat, index: map<Key, nat>, hole: nat)
  {
    && used < |s|
    && (forall n: nat :: 1 <= n <= used && n != hole ==> KeyOf(s[n]) in index && index[KeyOf(s[n])] == n)
    && (forall k :: k in index ==> 1 <= index[k] <= used && index[k] != hole && KeyOf(s[index[k]]) == k)
  }

  /** A parent is a frame of the same thread. */
  ghost predicate ParentsOk(s: seq<Node>, used: nat)
  {
    && used < |s|
    && forall n: nat :: 1 <= n <= used && s[n].parent != 0 ==> s[n].parent <= used && s[s[n].parent].tid == s[n].tid
  }

  /** No parent is lower on the stack. */
  ghost predicate Rising(s: seq<Node>, used: nat)
  {
    && used < |s|
    && forall n: nat :: 1 <= n <= used && 0 < s[n].parent <= used ==> s[n].sp <= s[s[n].parent].sp
  }

  /** Following parents always leads to a higher rank: there is no cycle. */
  ghost predicate Ranked(s: seq<Node>, used: nat, rank: seq<nat>)
  {
    && used < |s| == |rank|
    && forall n: nat :: 1 <= n <= used && 0 < s[n].parent <= used ==> rank[n] < rank[s[n].parent]
  }

  /** Everything but the absence of cycles. */
  ghost predicate SoundCache(s: seq<Node>, used: nat, index: map<Key, nat>, order: seq<nat>)
  {
    && Forest(s, used, order, Parents(s, used), 0)
    && KeysOk(s, used, index, 0)
    && ParentsOk(s, used)
  }

  // ----------------------------------------------------------- getting a node

  /** What GetNode may do to the cache for frame `key`, giving node n. */
  ghost predicate Got(s: seq<Node>, used: nat, index: map<Key, nat>, order: seq<nat>,
                      s': seq<Node>, used': nat, index': map<Key, nat>, order': seq<nat>, key: Key, n: nat)
  {
    && |s'| == |s| && used < |s| && used' < |s|
    && 1 <= n <= used' && KeyOf(s'[n]) == key
    && (forall m: nat :: 1 <= m <= used && m != n ==> KeyOf(s'[m]) == KeyOf(s[m]) && s'[m].parent == s[m].parent)
    && if key in index then
         && n == index[key] && n <= used && used' == used && index' == index && s'[n].parent == s[n].parent
         && Touched(order, order', n)
       else
         && s'[n].parent == 0
         && if used + 1 < |s| then n == used + 1 == used' && order' == order + [n]
            else used' == used && Recycled(s, used, order, order', n)
  }

  ghost predicate Touched(order: seq<nat>, order': seq<nat>, n: nat)
  {
    (order' == order && n !in order) || exists i :: 0 <= i < |order| && order[i] == n && order' == Without(order, i) + [n]
  }

  /** n is the only child of its parent, which will be childless without it. */
  ghost predicate Orphans(s: seq<Node>, used: nat, n: nat)
  {
    && n < |s| && used < |s| && s[n].parent < |s|
    && s[n].parent != 0 && Kids(Parents(s, used), used, s[n].parent) == {n}
  }

  /** The front of the list, a node without children, was reused; a parent left childless is a leaf now. */
  ghost predicate Recycled(s: seq<Node>, used: nat, order: seq<nat>, order': seq<nat>, n: nat)
    requires used < |s|
  {
    && |order| > 0 && n == order[0] && 1 <= n <= used && Kids(Parents(s, used), used, n) == {}
    && order' == order[1..] + (if Orphans(s, used, n) then [s[n].parent] else []) + [n]
  }

  lemma ParentsSame(s: seq<Node>, s': seq<Node>, used: nat)
    requires SameFrames(s, s')
    ensures Parents(s', used) == Parents(s, used)
  {
  }

  lemma KeysSame(s: seq<Node>, s': seq<Node>, used: nat, index: map<Key, nat>, hole: nat)
    requires SameFrames(s, s') && KeysOk(s, used, index, hole)
    ensures KeysOk(s', used, index, hole)
  {
    assert forall x :: 0 <= x < |s| ==> KeyOf(s'[x]) == KeyOf(s[x]);
  }

  lemma ParentsOkSame(s: seq<Node>, s': seq<Node>, used: nat)
    requires SameFrames(s, s') && ParentsOk(s, used)
    ensures ParentsOk(s', used)
  {
  }

  /** A found leaf moves to the end of the list. */
  lemma TouchedSound(s: seq<Node>, used: nat, index: map<Key, nat>, order: seq<nat>, i: nat)
    requires SoundCache(s, used, index, order) && i < |order|
    ensures LinksInRange(s, order[i]) && Unlink(s, order[i])[0].link < |s| && 1 <= order[i] <= used
    ensures var s' := Append(Unlink(s, order[i]), order[i]);
            SoundCache(s', used, index, Without(order, i) + [order[i]]) && SameFrames(s, s')
  {
    var n, par := order[i], Parents(s, used);
    TouchForest(s, used, order, par, i);
    MemberBounds(s, used, order, par, 0, i);
    hide Forest;
    UnlinkFrames(s, n);
    AppendFrames(Unlink(s, n), n);
    var s' := Append(Unlink(s, n), n);
    hide Append, Unlink;
    ParentsSame(s, s', used);
    KeysSame(s, s', used, index, 0);
    ParentsOkSame(s, s', used);
  }

  /** A frame never seen takes the next unused slot. */
  lemma NewSound(s: seq<Node>, used: nat, index: map<Key, nat>, order: seq<nat>, x: Node)
    requires SoundCache(s, used, index, order) && used + 1 < |s|
    requires x.isLeaf && x.parent == 0 && KeyOf(x) !in index
    ensures var n := used + 1;
            && s[n := x][0].link < |s|
            && SoundCache(Append(s[n := x], n), n, index[KeyOf(x) := n], order + [n])
            && SameFrames(s[n := x], Append(s[n := x], n))
  {
    var n, s1 := used + 1, s[used + 1 := x];
    assert Parents(s1, n) == Parents(s, used);
    NewSlotForest(s, used, order, Parents(s, used), x);
    assert KeysOk(s1, n, index[KeyOf(x) := n], 0);
    assert ParentsOk(s1, n);
    hide Forest, Append, KeysOk, ParentsOk;
    AppendedSound(s1, n, index[KeyOf(x) := n], order, n);
  }

  /** The array and the list after AllocNode has recycled the front node. */
  ghost function Detached(s: seq<Node>, n: nat): seq<Node>
    requires LinksInRange(s, n)
    requires var p, s1 := s[n].parent, Unlink(s, n); p != 0 ==> p < |s| && s1[p].link > 0 && s1[0].link < |s|
  {
    if s[n].parent == 0 then Unlink(s, n) else Decrease(Unlink(s, n), s[n].parent)
  }

  lemma FrontFacts(s: seq<Node>, used: nat, index: map<Key, nat>, order: seq<nat>)
    requires SoundCache(s, used, index, order) && |order| > 0
    ensures var n, par := order[0], Parents(s, used);
            && 1 <= n <= used < |s| && par[n] == s[n].parent <= used && LinksInRange(s, n)
            && Kids(par, used, n) == {}
            && Forest(Unlink(s, n), used, order[1..], par, n)
  {
    UnlinkForest(s, used, order, Parents(s, used), 0);
    MemberBounds(s, used, order, Parents(s, used), 0, 0);
    assert Without(order, 0) == order[1..];
    assert s[order[0]].isLeaf;
    hide Unlink, Linked, Kids;
  }

  lemma DetachedForest(s: seq<Node>, used: nat, index: map<Key, nat>, order: seq<nat>)
    requires SoundCache(s, used, index, order) && |order| > 0
    ensures var n := order[0];
            && 1 <= n <= used < |s| && LinksInRange(s, n)
            && var p, s1 := s[n].parent, Unlink(s, n);
               && p <= used && (p != 0 ==> s1[p].link > 0 && s1[0].link < |s|)
               && SameFrames(s, Detached(s, n))
               && Forest(Detached(s, n), used, if p != 0 then Freed(s1, order[1..], p) else order[1..],
                         Parents(s, used)[n := 0], n)
  {
    var n, par := order[0], Parents(s, used);
    FrontFacts(s, used, index, order);
    var p, s1 := s[n].parent, Unlink(s, n);
    UnlinkFrames(s, n);
    hide SoundCache, Unlink, Kids;
    if p != 0 {
      DecreaseForest(s1, used, order[1..], par, n, n);
      hide Forest;
      DecreaseFrames(s1, p);
      hide Decrease;
    } else {
      assert par[n := 0] == par;
    }
  }

  /** s3 is s with node n, which nobody has as parent, given another frame and no parent. */
  ghost predicate Refilled(s: seq<Node>, s3: seq<Node>, used: nat, n: nat)
  {
    && |s3| == |s| && 1 <= n <= used < |s|
    && s3[n].parent == 0
    && (forall m: nat :: m < |s| && m != n ==> KeyOf(s3[m]) == KeyOf(s[m]) && s3[m].parent == s[m].parent)
    && (forall m: nat :: 1 <= m <= used ==> s[m].parent != n)
  }

  lemma RefilledKeys(s: seq<Node>, s3: seq<Node>, used: nat, index: map<Key, nat>, n: nat)
    requires Refilled(s, s3, used, n) && KeysOk(s, used, index, 0) && KeyOf(s3[n]) !in index
    ensures KeysOk(s3, used, (index - {KeyOf(s[n])})[KeyOf(s3[n]) := n], 0)
  {
  }

  lemma RefilledParents(s: seq<Node>, s3: seq<Node>, used: nat, n: nat)
    requires Refilled(s, s3, used, n) && ParentsOk(s, used)
    ensures ParentsOk(s3, used) && Parents(s3, used) == Parents(s, used)[n := 0]
  {
    assert forall m: nat :: m < |s| && m != n ==> KeyOf(s3[m]) == KeyOf(s[m]);
  }

  lemma NoKidRefilled(s: seq<Node>, s2: seq<Node>, used: nat, n: nat, x: Node)
    requires SameFrames(s, s2) && 1 <= n <= used < |s| && x.parent == 0 && Kids(Parents(s, used), used, n) == {}
    ensures Refilled(s, s2[n := x], used, n)
  {
    forall m: nat | 1 <= m <= used ensures s[m].parent != n {
      assert m !in Kids(Parents(s, used), used, n);
    }
    hide Kids;
    var s3 := s2[n := x];
    forall m: nat | m < |s| && m != n ensures KeyOf(s3[m]) == KeyOf(s[m]) && s3[m].parent == s[m].parent {
      assert s3[m] == s2[m];
    }
  }

  lemma AppendedSound(s3: seq<Node>, used: nat, index: map<Key, nat>, order: seq<nat>, n: nat)
    requires Forest(s3, used, order, Parents(s3, used), n) && 1 <= n <= used
    requires KeysOk(s3, used, index, 0) && ParentsOk(s3, used)
    ensures s3[0].link < |s3|
    ensures SoundCache(Append(s3, n), used, index, order + [n]) && SameFrames(s3, Append(s3, n))
  {
    assert used < |s3|;
    hide Forest, KeysOk, ParentsOk, Append;
    AppendForest(s3, used, order, Parents(s3, used), n);
    AppendFrames(s3, n);
    ParentsSame(s3, Append(s3, n), used);
    ParentsOkSame(s3, Append(s3, n), used);
    KeysSame(s3, Append(s3, n), used, index, 0);
  }

  /** A frame never seen takes over the slot of the least recently used leaf. */
  lemma RecycledSound(s: seq<Node>, s2: seq<Node>, used: nat, index: map<Key, nat>, order: seq<nat>, order2: seq<nat>, n: nat, x: Node)
    requires SoundCache(s, used, index, order) && 1 <= n <= used && Kids(Parents(s, used), used, n) == {}
    requires SameFrames(s, s2) && Forest(s2, used, order2, Parents(s, used)[n := 0], n)
    requires x.isLeaf && x.parent == 0 && KeyOf(x) !in index
    ensures s2[n := x][0].link < |s|
    ensures SoundCache(Append(s2[n := x], n), used, (index - {KeyOf(s[n])})[KeyOf(x) := n], order2 + [n])
    ensures SameFrames(s2[n := x], Append(s2[n := x], n))
  {
    SoundParts(s, used, index, order);
    hide SoundCache, Forest, KeysOk, ParentsOk, Refilled;
    NoKidRefilled(s, s2, used, n, x);
    hide Kids, Append;
    var s3 := s2[n := x];
    RefillForest(s2, used, order2, Parents(s, used)[n := 0], n, x);
    RefilledKeys(s, s3, used, index, n);
    RefilledParents(s, s3, used, n);
    AppendedSound(s3, used, (index - {KeyOf(s[n])})[KeyOf(x) := n], order2, n);
  }

  lemma SoundParts(s: seq<Node>, used: nat, index: map<Key, nat>, order: seq<nat>)
    requires SoundCache(s, used, index, order)
    ensures Forest(s, used, order, Parents(s, used), 0) && KeysOk(s, used, index, 0) && ParentsOk(s, used) && used < |s|
  {
  }

  lemma AssembleSound(s: seq<Node>, used: nat, index: map<Key, nat>, order: seq<nat>)
    requires Forest(s, used, order, Parents(s, used), 0) && KeysOk(s, used, index, 0) && ParentsOk(s, used)
    ensures SoundCache(s, used, index, order)
  {
  }

  /** What AllocNode does: take the next unused slot, or detach the front of the list. */
  ghost predicate Allotted(s: seq<Node>, used: nat, index: map<Key, nat>, order: seq<nat>,
                           s2: seq<Node>, used2: nat, index2: map<Key, nat>, order2: seq<nat>, n: nat)
  {
    && used < |s| == |s2|
    && if used + 1 < |s| then
         n == used2 == used + 1 && s2 == s && index2 == index && order2 == order
       else
         && used2 == used && |order| > 0 && n == order[0] && 1 <= n <= used
         && index2 == index - {KeyOf(s[n])}
         && Kids(Parents(s, used), used, n) == {}
         && SameFrames(s, s2)
         && Forest(s2, used, order2, Parents(s, used)[n := 0], n)
         && order2 == order[1..] + (if Orphans(s, used, n) then [s[n].parent] else [])
  }

  lemma UnusedAllotted(s: seq<Node>, used: nat, index: map<Key, nat>, order: seq<nat>)
    requires used + 1 < |s|
    ensures Allotted(s, used, index, order, s, used + 1, index, order, used + 1)
  {
  }

  lemma DetachedAllotted(s: seq<Node>, used: nat, index: map<Key, nat>, order: seq<nat>)
    requires SoundCache(s, used, index, order) && |order| > 0 && used + 1 >= |s|
    ensures var n := s[0].next;
            && n == order[0] && 1 <= n <= used < |s| && LinksInRange(s, n)
            && SameFrames(s, Unlink(s, n))
            && var p, s1 := s[n].parent, Unlink(s, n);
               && p <= used && (p != 0 ==> s1[p].link > 0 && s1[0].link < |s|)
               && Allotted(s, used, index, order, Detached(s, n), used, index - {KeyOf(s[n])},
                           if p != 0 then Freed(s1, order[1..], p) else order[1..], n)
  {
    SentinelNext(s, used, index, order);
    FrontFacts(s, used, index, order);
    DetachedForest(s, used, index, order);
    UnlinkFrames(s, order[0]);
    FreedExactly(s, used, index, order);
    hide SoundCache, Forest, Kids, SameFrames, Unlink, Detached, Orphans, Freed;
  }

  /** The front's parent is put in the list exactly if it had no other child. */
  lemma FreedExactly(s: seq<Node>, used: nat, index: map<Key, nat>, order: seq<nat>)
    requires SoundCache(s, used, index, order) && |order| > 0
    ensures var n := order[0];
            && 1 <= n <= used < |s| && LinksInRange(s, n) && s[n].parent <= used
            && (if s[n].parent != 0 then Freed(Unlink(s, n), order[1..], s[n].parent) else order[1..])
               == order[1..] + (if Orphans(s, used, n) then [s[n].parent] else [])
  {
    FrontFacts(s, used, index, order);
    var n, par := order[0], Parents(s, used);
    var p := s[n].parent;
    hide Unlink;
    if p != 0 {
      var s1 := Unlink(s, n);
      assert n in Kids(par, used, p);
      assert s1[p].link == |Kids(par, used, p)|;
      if s1[p].link == 1 {
        OneElement(Kids(par, used, p), n);
      }
    } else {
      assert order[1..] + [] == order[1..];
    }
  }

  lemma OneElement(k: set<nat>, n: nat)
    requires |k| == 1 && n in k
    ensures k == {n}
  {
    assert |k - {n}| == 0;
  }

  /** Filling the slot and appending it gives a sound cache again. */
  lemma MadeSound(s: seq<Node>, used: nat, index: map<Key, nat>, order: seq<nat>,
                  s2: seq<Node>, used2: nat, index2: map<Key, nat>, order2: seq<nat>, n: nat, x: Node)
    requires SoundCache(s, used, index, order) && Allotted(s, used, index, order, s2, used2, index2, order2, n)
    requires x.isLeaf && x.parent == 0 && KeyOf(x) !in index
    ensures 1 <= n < |s| == |s2| && s2[n := x][0].link < |s|
    ensures var s' := Append(s2[n := x], n);
            && SoundCache(s', used2, index2[KeyOf(x) := n], order2 + [n])
            && Got(s, used, index, order, s', used2, index2[KeyOf(x) := n], order2 + [n], KeyOf(x), n)
  {
    hide SoundCache, Forest, Kids, SameFrames, Got, Append;
    if used + 1 < |s| {
      NewSound(s, used, index, order, x);
    } else {
      RecycledSound(s, s2, used, index, order, order2, n, x);
    }
    GotNew(s, used, index, order, s2, Append(s2[n := x], n), used2, index2[KeyOf(x) := n], order2 + [n], x, n);
  }

  // ----------------------------------------------------------- changing a parent

  /** s' is s with the parent of c changed to p; frames and other parents are as before. */
  ghost predicate Relinked(s: seq<Node>, s': seq<Node>, c: nat, p: nat)
  {
    && |s'| == |s|
    && forall x: nat :: x < |s| ==> KeyOf(s'[x]) == KeyOf(s[x]) && s'[x].parent == if x == c then p else s[x].parent
  }

  /** The array after the first half of LinkParent or UnlinkParent. */
  ghost function Orphaned(s: seq<Node>, c: nat): seq<Node>
    requires c < |s|
    requires s[c].parent != 0 ==> s[c].parent < |s| && s[s[c].parent].link > 0 && s[0].link < |s|
  {
    if s[c].parent != 0 then Decrease(s, s[c].parent) else s
  }

  ghost predicate CanOrphan(s: seq<Node>, c: nat)
  {
    c < |s| && (s[c].parent != 0 ==> s[c].parent < |s| && s[s[c].parent].link > 0 && s[0].link < |s|)
  }

  lemma OrphanedForest(s: seq<Node>, used: nat, index: map<Key, nat>, order: seq<nat>, c: nat) returns (order1: seq<nat>)
    requires SoundCache(s, used, index, order) && 1 <= c <= used
    ensures CanOrphan(s, c) && SameFrames(s, Orphaned(s, c))
    ensures Forest(Orphaned(s, c), used, order1, Parents(s, used)[c := 0], 0)
  {
    SoundParts(s, used, index, order);
    var par := Parents(s, used);
    assert par[c] == s[c].parent <= used;
    hide Forest, KeysOk, ParentsOk, SoundCache, Decrease, SameFrames, Freed;
    if s[c].parent != 0 {
      DecreaseForest(s, used, order, par, c, 0);
      DecreaseFrames(s, s[c].parent);
      order1 := Freed(s, order, s[c].parent);
    } else {
      order1 := order;
      SameAsItself(s);
      assert par[c := 0] == par;
    }
  }

  lemma SameAsItself(s: seq<Node>)
    ensures SameFrames(s, s)
  {
  }

  /** The parent field of a node is not part of the forest's bookkeeping. */
  lemma ParentFieldForest(s: seq<Node>, used: nat, order: seq<nat>, par: seq<nat>, c: nat, p: nat)
    requires Forest(s, used, order, par, 0) && c < |s|
    ensures Forest(s[c := s[c].(parent := p)], used, order, par, 0)
  {
    LinkedKept(s, s[c := s[c].(parent := p)], used, order);
    hide Linked, Kids, Members;
  }

  lemma SetParent(s: seq<Node>, s1: seq<Node>, c: nat, p: nat)
    requires SameFrames(s, s1) && c < |s|
    ensures Relinked(s, s1[c := s1[c].(parent := p)], c, p)
  {
  }

  lemma RelinkedThen(s: seq<Node>, s2: seq<Node>, s3: seq<Node>, c: nat, p: nat)
    requires Relinked(s, s2, c, p) && SameFrames(s2, s3)
    ensures Relinked(s, s3, c, p)
  {
  }

  lemma RelinkedKeys(s: seq<Node>, s3: seq<Node>, used: nat, index: map<Key, nat>, c: nat, p: nat)
    requires Relinked(s, s3, c, p) && KeysOk(s, used, index, 0)
    ensures KeysOk(s3, used, index, 0)
  {
  }

  lemma RelinkedParents(s: seq<Node>, s3: seq<Node>, used: nat, c: nat, p: nat)
    requires Relinked(s, s3, c, p) && ParentsOk(s, used) && 1 <= c <= used && p <= used
    requires p != 0 ==> s[p].tid == s[c].tid
    ensures ParentsOk(s3, used) && Parents(s3, used) == Parents(s, used)[c := p]
  {
    assert forall x: nat :: x < |s| ==> KeyOf(s3[x]) == KeyOf(s[x]);
  }

  lemma LinkedSound(s: seq<Node>, used: nat, index: map<Key, nat>, order: seq<nat>, c: nat, p: nat) returns (order': seq<nat>)
    requires SoundCache(s, used, index, order) && 1 <= c <= used && 1 <= p <= used
    requires used < |s| && s[p].tid == s[c].tid
    ensures CanOrphan(s, c)
    ensures var s1 := Orphaned(s, c);
            && |s1| == |s|
            && var s2 := s1[c := s1[c].(parent := p)];
               && (s2[p].isLeaf ==> LinksInRange(s2, p))
               && var s3 := Attach(s2, p); SoundCache(s3, used, index, order') && Relinked(s, s3, c, p)
  {
    hide Forest, KeysOk, ParentsOk, SoundCache, Attach, SameFrames, Relinked, Orphaned;
    SoundParts(s, used, index, order);
    var order1 := OrphanedForest(s, used, index, order, c);
    var s1, par := Orphaned(s, c), Parents(s, used)[c := 0];
    FramesSize(s, s1);
    var s2 := s1[c := s1[c].(parent := p)];
    ParentFieldForest(s1, used, order1, par, c, p);
    SetParent(s, s1, c, p);
    order' := AttachForest(s2, used, order1, par, c, p);
    AttachFrames(s2, p);
    var s3 := Attach(s2, p);
    RelinkedThen(s, s2, s3, c, p);
    RelinkedKeys(s, s3, used, index, c, p);
    RelinkedParents(s, s3, used, c, p);
    assert par[c := p] == Parents(s, used)[c := p];
    AssembleSound(s3, used, index, order');
  }

  lemma FramesSize(s: seq<Node>, s1: seq<Node>)
    requires SameFrames(s, s1)
    ensures |s1| == |s|
  {
  }

  lemma UnlinkedSound(s: seq<Node>, used: nat, index: map<Key, nat>, order: seq<nat>, c: nat) returns (order': seq<nat>)
    requires SoundCache(s, used, index, order) && 1 <= c <= used
    ensures CanOrphan(s, c)
    ensures var s1 := Orphaned(s, c);
            && |s1| == |s|
            && var s2 := s1[c := s1[c].(parent := 0)]; SoundCache(s2, used, index, order') && Relinked(s, s2, c, 0)
  {
    hide Forest, KeysOk, ParentsOk, SoundCache, SameFrames, Relinked, Orphaned;
    SoundParts(s, used, index, order);
    order' := OrphanedForest(s, used, index, order, c);
    var s1, par := Orphaned(s, c), Parents(s, used)[c := 0];
    FramesSize(s, s1);
    var s2 := s1[c := s1[c].(parent := 0)];
    ParentFieldForest(s1, used, order', par, c, 0);
    SetParent(s, s1, c, 0);
    RelinkedKeys(s, s2, used, index, c, 0);
    RelinkedParents(s, s2, used, c, 0);
    AssembleSound(s2, used, index, order');
  }

  class LRUCache {
    const nodes: array<Node>
    var used: nat                 // cache_stat_.used_node_count
    var recycled: nat
    var index: map<Key, nat>      // node_set_
    const matched: nat            // matched_node_count_to_extend_callchain
    ghost var order: seq<nat>     // the LRU list, front first
    ghost var rank: seq<nat>

    ghost predicate Sound()
      reads this, nodes
    {
      nodes.Length >= 3 && SoundCache(nodes[..], used, index, order)
    }

    ghost predicate Valid()
      reads this, nodes
    {
      Sound() && Ranked(nodes[..], used, rank)
    }

    constructor (maxNodes: nat, matched: nat)
      requires maxNodes >= 2 && matched >= 1
      ensures Valid() && used == 0 && index == map[] && order == [] && fresh(nodes)
      ensures nodes.Length == maxNodes + 1 && this.matched == matched
    {
      nodes := new Node[maxNodes + 1](_ => Node(0, 0, 0, true, 0, 0, 0));
      used, recycled, index := 0, 0, map[];
      this.matched := matched;
      order := [];
      rank := seq(maxNodes + 1, _ => 0);
    }

    method RemoveNodeFromLRUList(n: nat)
      requires LinksInRange(nodes[..], n)
      modifies nodes
      ensures nodes[..] == Unlink(old(nodes[..]), n)
    {
      var prev, next := nodes[n].link, nodes[n].next;
      nodes[prev] := nodes[prev].(next := next);
      nodes[next] := nodes[next].(link := prev);
    }

    method AppendNodeToLRUList(n: nat)
      requires 0 < n < nodes.Length && nodes[0].link < nodes.Length
      modifies nodes
      ensures nodes[..] == Append(old(nodes[..]), n)
    {
      var prev := nodes[0].link;
      nodes[n] := nodes[n].(next := 0, link := prev);
      nodes[prev] := nodes[prev].(next := n);
      nodes[0] := nodes[0].(link := n);
    }

    method DecreaseChildCountOfNode(p: nat)
      requires 0 < p < nodes.Length && nodes[p].link > 0 && nodes[0].link < nodes.Length
      modifies nodes
      ensures nodes[..] == Decrease(old(nodes[..]), p)
    {
      ghost var s := nodes[..];
      nodes[p] := nodes[p].(link := nodes[p].link - 1);
      if nodes[p].link == 0 {
        nodes[p] := nodes[p].(isLeaf := true);
        assert nodes[..] == s[p := s[p].(link := 0, isLeaf := true)];
        AppendNodeToLRUList(p);
      }
    }

    function GetParent(n: nat): nat
      reads nodes
      requires n < nodes.Length
    {
      nodes[n].parent
    }

    function FindNode(k: Key): Option<nat>
      reads this
    {
      if k in index then Some(index[k]) else None
    }

    /** A slot for a new frame: the next unused one, else the front of the LRU list. */
    method AllocNode() returns (n: nat)
      requires Sound() && (used + 1 < nodes.Length || order != [])
      modifies this, nodes
      ensures rank == old(rank) && 1 <= n < nodes.Length
      ensures Allotted(old(nodes[..]), old(used), old(index), old(order), nodes[..], used, index, order, n)
    {
      hide Forest, Kids, KeysOk, ParentsOk, SoundCache, SameFrames, Allotted, Unlink, Decrease, Freed, Parents;
      ghost var s := nodes[..];
      SoundParts(s, used, index, order);
      if used + 1 < nodes.Length {
        used := used + 1;
        UnusedAllotted(s, used - 1, index, order);
        return used;
      }
      DetachedAllotted(s, used, index, order);
      n := nodes[0].next;
      RemoveNodeFromLRUList(n);
      ghost var s1 := nodes[..];
      index := index - {KeyOf(nodes[n])};
      var parent := nodes[n].parent;
      FrameSame(s, s1, n);
      order := order[1..];
      if parent != 0 {
        order := Freed(s1, order, parent);
        DecreaseChildCountOfNode(parent);
      }
      recycled := recycled + 1;
    }

    /** The part of GetNode for a frame that is cached. */
    method TouchNode(n: nat)
      requires Sound() && 1 <= n <= used
      modifies this, nodes
      ensures Sound() && rank == old(rank) && used == old(used) && index == old(index)
      ensures SameFrames(old(nodes[..]), nodes[..]) && Touched(old(order), order, n)
    {
      hide SoundCache, SameFrames, Append, Unlink, Touched, Without;
      ghost var s := nodes[..];
      LeafListed(s, used, index, order, n);
      if nodes[n].isLeaf {
        ghost var i :| 0 <= i < |order| && order[i] == n;
        TouchedSound(s, used, index, order, i);
        IsTouched(order, i);
        RemoveNodeFromLRUList(n);
        AppendNodeToLRUList(n);
        order := Without(order, i) + [n];
      } else {
        NotTouched(s, order, n);
      }
    }

    /** The part of GetNode for a frame that is not. */
    method MakeNode(tid: nat, ip: u64, sp: u64) returns (n: nat)
      requires Sound() && Key(tid, ip, sp) !in index && (used + 1 < nodes.Length || order != [])
      modifies this, nodes
      ensures Sound() && rank == old(rank)
      ensures Got(old(nodes[..]), old(used), old(index), old(order), nodes[..], used, index, order, Key(tid, ip, sp), n)
    {
      hide SoundCache, Got, Append, Allotted;
      ghost var s := nodes[..];
      ghost var used0, index0, order0 := used, index, order;
      n := AllocNode();
      ghost var s2 := nodes[..];
      var x := Node(ip, sp, tid, true, 0, n, n);
      MadeSound(s, used0, index0, order0, s2, used, index, order, n, x);
      nodes[n] := x;
      assert nodes[..] == s2[n := x];
      index := index[Key(tid, ip, sp) := n];
      AppendNodeToLRUList(n);
      order := order + [n];
    }

    /** The node of a frame: the cached one, now most recently used, or a new leaf without parent. */
    method GetNode(tid: nat, ip: u64, sp: u64) returns (n: nat)
      requires Sound()
      requires Key(tid, ip, sp) in index || used + 1 < nodes.Length || order != []
      modifies this, nodes
      ensures Sound() && rank == old(rank)
      ensures Got(old(nodes[..]), old(used), old(index), old(order), nodes[..], used, index, order, Key(tid, ip, sp), n)
    {
      var found := FindNode(Key(tid, ip, sp));
      if found.Some? {
        n := found.value;
        ghost var s := nodes[..];
        ghost var order0 := order;
        SoundParts(s, used, index, order);
        assert 1 <= n <= used && KeyOf(s[n]) == Key(tid, ip, sp);
        hide SoundCache, Forest, ParentsOk, Touched, KeysOk, SameFrames, Got;
        TouchNode(n);
        GotFound(s, used, index, order0, nodes[..], order, Key(tid, ip, sp), n);
      } else {
        hide SoundCache, Got;
        n := MakeNode(tid, ip, sp);
      }
    }

    /** The shared first half of LinkParent and UnlinkParent. */
    method LeaveParent(c: nat)
      requires CanOrphan(nodes[..], c)
      modifies nodes
      ensures nodes[..] == Orphaned(old(nodes[..]), c)
    {
      var oldParent := GetParent(c);
      if oldParent != 0 {
        DecreaseChildCountOfNode(oldParent);
      }
    }

    method LinkParent(c: nat, p: nat)
      requires Sound() && 1 <= c <= used && 1 <= p <= used && used < nodes.Length
      requires nodes[p].tid == nodes[c].tid
      modifies nodes, this`order
      ensures Sound() && Relinked(old(nodes[..]), nodes[..], c, p)
    {
      hide SoundCache, Orphaned, Relinked, Unlink;
      ghost var s := nodes[..];
      ghost var order' := LinkedSound(s, used, index, order, c, p);
      LeaveParent(c);
      ghost var s1 := nodes[..];
      nodes[c] := nodes[c].(parent := p);
      ghost var s2 := nodes[..];
      assert s2 == s1[c := s1[c].(parent := p)];
      if nodes[p].isLeaf {
        RemoveNodeFromLRUList(p);
        nodes[p] := nodes[p].(isLeaf := false, link := 1);
      } else {
        nodes[p] := nodes[p].(link := nodes[p].link + 1);
      }
      order := order';
    }

    method UnlinkParent(c: nat)
      requires Sound() && 1 <= c <= used
      modifies nodes, this`order
      ensures Sound() && Relinked(old(nodes[..]), nodes[..], c, 0)
    {
      hide SoundCache, Orphaned, Relinked;
      ghost var order' := UnlinkedSound(nodes[..], used, index, order, c);
      LeaveParent(c);
      ghost var s1 := nodes[..];
      nodes[c] := nodes[c].(parent := 0);
      assert nodes[..] == s1[c := s1[c].(parent := 0)];
      order := order';
    }
  }

  lemma IsTouched(order: seq<nat>, i: nat)
    requires i < |order|
    ensures Touched(order, Without(order, i) + [order[i]], order[i])
  {
  }

  lemma NotTouched(s: seq<Node>, order: seq<nat>, n: nat)
    requires n !in order
    ensures Touched(order, order, n) && SameFrames(s, s)
  {
  }

  lemma GotFound(s: seq<Node>, used: nat, index: map<Key, nat>, order: seq<nat>,
                 s': seq<Node>, order': seq<nat>, key: Key, n: nat)
    requires 1 <= n <= used < |s| && key in index && index[key] == n && KeyOf(s[n]) == key
    requires SameFrames(s, s') && Touched(order, order', n)
    ensures Got(s, used, index, order, s', used, index, order', key, n)
  {
    hide Touched;
  }

  lemma GotNew(s: seq<Node>, used: nat, index: map<Key, nat>, order: seq<nat>, s2: seq<Node>,
               s': seq<Node>, used': nat, index': map<Key, nat>, order': seq<nat>, x: Node, n: nat)
    requires used < |s| == |s2| && 1 <= n < |s| && x.parent == 0 && KeyOf(x) !in index
    requires SameFrames(s, s2) || s2 == s
    requires SameFrames(s2[n := x], s')
    requires if used + 1 < |s| then n == used + 1 == used' && order' == order + [n]
             else used' == used && n <= used && Recycled(s, used, order, order', n)
    ensures Got(s, used, index, order, s', used', index', order', KeyOf(x), n)
  {
    hide Recycled;
    assert s2[n := x][n] == x;
    forall m: nat | 1 <= m <= used && m != n ensures KeyOf(s'[m]) == KeyOf(s[m]) && s'[m].parent == s[m].parent {
      assert s2[n := x][m] == s2[m];
    }
  }

  lemma LeafListed(s: seq<Node>, used: nat, index: map<Key, nat>, order: seq<nat>, n: nat)
    requires SoundCache(s, used, index, order) && 1 <= n <= used
    ensures n < |s| && (s[n].isLeaf <==> n in order)
  {
  }

  lemma FrameSame(s: seq<Node>, s': seq<Node>, n: nat)
    requires SameFrames(s, s') && n < |s|
    ensures KeyOf(s'[n]) == KeyOf(s[n]) && s'[n].parent == s[n].parent
  {
  }

  lemma SentinelNext(s: seq<Node>, used: nat, index: map<Key, nat>, order: seq<nat>)
    requires SoundCache(s, used, index, order) && |order| > 0
    ensures s[0].next == order[0]
  {
    SentinelLinks(s, order);
  }
}
