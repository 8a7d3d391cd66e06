/**
 * AddCallChain of LRUCache: it collects the nodes of a chain, links them, and continues the chain
 * along cached parents unless that would lead back into the chain.
 *
 * Nothing keeps a node of the chain from being recycled for a later frame of the same chain. The
 * links may then run in a circle, but only through the top node, which the end of AddCallChain cuts
 * off: after every call following parents ends. And a node holds the frame of its last place in the
 * chain, so that stack order is kept too.
 */
module ChainExtension {
  import opened Common
  import opened LruForest
  import opened CallChainCache
  import opened ChainRoom
  import opened ChainKept

  /** What CallChainJoiner::AddCallChain leaves of its input: stack pointers never decrease, no frame twice. */
  ghost predicate GoodChain(ips: seq<u64>, sps: seq<u64>)
  {
    && |ips| == |sps| > 0
    && (forall i, j :: 0 <= i < j < |sps| ==> sps[i] <= sps[j])
    && (forall i, j :: 0 <= i < j < |ips| ==> ips[i] != ips[j] || sps[i] != sps[j])
  }

  /** Node chain[j] holds the j-th frame. */
  ghost predicate Holds(s: seq<Node>, used: nat, tid: nat, ips: seq<u64>, sps: seq<u64>, chain: seq<nat>)
  {
    && used < |s| && |chain| <= |ips| == |sps|
    && forall j :: 0 <= j < |chain| ==> 1 <= chain[j] <= used && KeyOf(s[chain[j]]) == Key(tid, ips[j], sps[j])
  }

  /** The nodes of the chain hold frames of its thread. */
  ghost predicate OfThread(s: seq<Node>, used: nat, tid: nat, chain: seq<nat>)
  {
    used < |s| && forall j :: 0 <= j < |chain| ==> 1 <= chain[j] <= used && s[chain[j]].tid == tid
  }

  /**
   * Each node of the chain holds the frame of its last place there, and a frame of the chain that is
   * still cached is cached in a node of the chain.
   */
  ghost predicate Latest(s: seq<Node>, used: nat, index: map<Key, nat>, tid: nat, ips: seq<u64>, sps: seq<u64>, chain: seq<nat>)
  {
    && used < |s| && |chain| <= |ips| == |sps|
    && (forall x: nat :: x in chain ==>
          1 <= x <= used && KeyOf(s[x]) == Key(tid, ips[LastPos(chain, x)], sps[LastPos(chain, x)]))
    && (forall j :: 0 <= j < |chain| ==> Key(tid, ips[j], sps[j]) in index ==> index[Key(tid, ips[j], sps[j])] in chain)
  }

  lemma LatestMore(b: Snap, c: Snap, tid: nat, ips: seq<u64>, sps: seq<u64>, chain: seq<nat>, n: nat)
    requires Latest(b.s, b.used, b.index, tid, ips, sps, chain) && |chain| < |ips|
    requires KeysOk(b.s, b.used, b.index, 0) && KeysOk(c.s, c.used, c.index, 0)
    requires Got(b.s, b.used, b.index, b.order, c.s, c.used, c.index, c.order, Key(tid, ips[|chain|], sps[|chain|]), n)
    ensures Latest(c.s, c.used, c.index, tid, ips, sps, chain + [n])
  {
    hide Touched, Recycled, LastPos;
    var more := chain + [n];
    forall x: nat | x in more
      ensures 1 <= x <= c.used && KeyOf(c.s[x]) == Key(tid, ips[LastPos(more, x)], sps[LastPos(more, x)])
    {
      if x == n {
        LastPosIs(more, x, |chain|);
      } else {
        LastPosIs(more, x, LastPos(chain, x));
        assert KeyOf(c.s[x]) == KeyOf(b.s[x]);
      }
    }
    forall j | 0 <= j < |more| && Key(tid, ips[j], sps[j]) in c.index ensures c.index[Key(tid, ips[j], sps[j])] in more {
      var m := c.index[Key(tid, ips[j], sps[j])];
      if m != n && j < |chain| {
        assert KeyOf(b.s[m]) == KeyOf(c.s[m]) == Key(tid, ips[j], sps[j]);
      }
    }
  }

  ghost predicate AllDistinct(chain: seq<nat>)
  {
    forall i, j :: 0 <= i < j < |chain| ==> chain[i] != chain[j]
  }

  /** A node of the old cache is as it was, or it was recycled for a frame of the chain. */
  ghost predicate Since(s0: seq<Node>, used0: nat, s: seq<Node>, used: nat, chain: seq<nat>)
  {
    && used0 <= used < |s| == |s0|
    && forall m: nat :: 1 <= m <= used0 ==>
         || (KeyOf(s[m]) == KeyOf(s0[m]) && s[m].parent == s0[m].parent)
         || (used + 1 == |s| && m in chain && s[m].parent == 0)
  }

  lemma DistinctNodes(s: seq<Node>, used: nat, tid: nat, ips: seq<u64>, sps: seq<u64>, chain: seq<nat>)
    requires Holds(s, used, tid, ips, sps, chain) && GoodChain(ips, sps)
    ensures AllDistinct(chain)
  {
  }

  /** Looking up the next frame gives a node the chain does not have yet, unless one of its nodes is recycled. */
  lemma NextNodeIsNew(b: Snap, c: Snap, tid: nat, ips: seq<u64>, sps: seq<u64>, chain: seq<nat>, n: nat)
    requires Holds(b.s, b.used, tid, ips, sps, chain) && |chain| < |ips| && Distinct(Frames(tid, ips, sps))
    requires KeysOk(b.s, b.used, b.index, 0) && !Stuck(b, chain, Key(tid, ips[|chain|], sps[|chain|]))
    requires Got(b.s, b.used, b.index, b.order, c.s, c.used, c.index, c.order, Key(tid, ips[|chain|], sps[|chain|]), n)
    ensures n !in chain
    ensures Holds(c.s, c.used, tid, ips, sps, chain + [n])
  {
    hide Touched;
    var keys := Frames(tid, ips, sps);
    forall j | 0 <= j < |chain| ensures chain[j] != n {
      assert KeyOf(b.s[chain[j]]) == keys[j] != keys[|chain|];
    }
    forall j | 0 <= j < |chain| ensures KeyOf(c.s[chain[j]]) == Key(tid, ips[j], sps[j]) {
    }
  }

  lemma SinceKept(s0: seq<Node>, used0: nat, s: seq<Node>, used: nat, index: map<Key, nat>, order: seq<nat>,
                  s': seq<Node>, used': nat, index': map<Key, nat>, order': seq<nat>,
                  chain: seq<nat>, key: Key, n: nat)
    requires Since(s0, used0, s, used, chain) && n !in chain
    requires KeysOk(s, used, index, 0)
    requires Got(s, used, index, order, s', used', index', order', key, n)
    ensures Since(s0, used0, s', used', chain + [n])
  {
    hide Touched, Recycled;
    forall m: nat | 1 <= m <= used0
      ensures || (KeyOf(s'[m]) == KeyOf(s0[m]) && s'[m].parent == s0[m].parent)
              || (used' + 1 == |s'| && m in chain + [n] && s'[m].parent == 0)
    {
      if m != n {
        assert KeyOf(s'[m]) == KeyOf(s[m]) && s'[m].parent == s[m].parent;
      }
    }
  }

  lemma GotRanked(s: seq<Node>, used: nat, index: map<Key, nat>, order: seq<nat>,
                  s': seq<Node>, used': nat, index': map<Key, nat>, order': seq<nat>, key: Key, n: nat, rank: seq<nat>)
    requires Ranked(s, used, rank) && ParentsOk(s, used)
    requires Got(s, used, index, order, s', used', index', order', key, n)
    ensures Ranked(s', used', rank)
  {
    hide Touched, Recycled;
  }

  /** Only a node without children gets another frame, and it loses its parent. */
  lemma GotRising(s: seq<Node>, used: nat, index: map<Key, nat>, order: seq<nat>,
                  s': seq<Node>, used': nat, index': map<Key, nat>, order': seq<nat>, key: Key, n: nat)
    requires Rising(s, used) && ParentsOk(s, used) && KeysOk(s, used, index, 0)
    requires Got(s, used, index, order, s', used', index', order', key, n)
    ensures Rising(s', used')
  {
    hide Touched;
    forall m: nat | 1 <= m <= used && key !in index && n <= used ensures s[m].parent != n {
      assert m !in Kids(Parents(s, used), used, n);
    }
    forall m: nat | 1 <= m <= used' && 0 < s'[m].parent <= used' ensures s'[m].sp <= s'[s'[m].parent].sp {
      var p := s'[m].parent;
      assert m <= used && p == s[m].parent;
      assert KeyOf(s'[m]) == KeyOf(s[m]) && KeyOf(s'[p]) == KeyOf(s[p]);
    }
  }

  /** Every node keeps its thread or gets that of the frame. */
  lemma GotThread(s: seq<Node>, used: nat, index: map<Key, nat>, order: seq<nat>,
                  s': seq<Node>, used': nat, index': map<Key, nat>, order': seq<nat>, key: Key, n: nat, chain: seq<nat>)
    requires Got(s, used, index, order, s', used', index', order', key, n) && OfThread(s, used, key.tid, chain)
    ensures used <= used' && OfThread(s', used', key.tid, chain + [n])
  {
    hide Touched, Recycled;
    forall j | 0 <= j < |chain| ensures s'[chain[j]].tid == key.tid {
      if chain[j] != n {
        assert KeyOf(s'[chain[j]]) == KeyOf(s[chain[j]]);
      }
    }
  }

  // ---------------------------------------------------------- collecting the nodes

  /** Without cycles, a cache with nodes has leaves. */
  lemma LeafExists(s: seq<Node>, used: nat, index: map<Key, nat>, order: seq<nat>, rank: seq<nat>)
    requires SoundCache(s, used, index, order) && Ranked(s, used, rank) && used >= 1
    ensures order != []
  {
    var n := LowestNode(rank, used);
    var par := Parents(s, used);
    assert Kids(par, used, n) == {} by {
      forall c: nat | 1 <= c <= used ensures par[c] != n {
      }
    }
    assert s[n].isLeaf && n in order;
  }

  lemma {:induction false} LowestNode(rank: seq<nat>, used: nat) returns (n: nat)
    requires 1 <= used < |rank|
    ensures 1 <= n <= used && forall c: nat :: 1 <= c <= used ==> rank[n] <= rank[c]
  {
    if used == 1 {
      n := 1;
    } else {
      n := LowestNode(rank, used - 1);
      if rank[used] < rank[n] {
        n := used;
      }
    }
  }

  lemma FramesDistinct(tid: nat, ips: seq<u64>, sps: seq<u64>)
    requires GoodChain(ips, sps)
    ensures Distinct(Frames(tid, ips, sps))
  {
  }

  lemma LeafOrEmpty(s: seq<Node>, used: nat, index: map<Key, nat>, order: seq<nat>, rank: seq<nat>)
    requires SoundCache(s, used, index, order) && Ranked(s, used, rank)
    ensures used < |s| && (used >= 1 ==> order != [])
  {
    SoundParts(s, used, index, order);
    hide SoundCache, Ranked;
    if used >= 1 {
      LeafExists(s, used, index, order, rank);
    }
  }

  /** GetNode, on a cache without cycles: there is always a node to give. */
  method NextNode(cache: LRUCache, tid: nat, ip: u64, sp: u64) returns (n: nat)
    requires cache.Valid()
    modifies cache, cache.nodes
    ensures cache.Valid() && cache.rank == old(cache.rank)
    ensures old(Rising(cache.nodes[..], cache.used)) ==> Rising(cache.nodes[..], cache.used)
    ensures Got(old(cache.nodes[..]), old(cache.used), old(cache.index), old(cache.order),
                cache.nodes[..], cache.used, cache.index, cache.order, Key(tid, ip, sp), n)
  {
    hide SoundCache, Got, Forest, KeysOk, ParentsOk, Ranked, Rising;
    ghost var b, key := SnapOf(cache), Key(tid, ip, sp);
    SoundParts(b.s, b.used, b.index, b.order);
    LeafOrEmpty(b.s, b.used, b.index, b.order, cache.rank);
    n := cache.GetNode(tid, ip, sp);
    ghost var c := SnapOf(cache);
    GotRanked(b.s, b.used, b.index, b.order, c.s, c.used, c.index, c.order, key, n, cache.rank);
    if Rising(b.s, b.used) {
      GotRising(b.s, b.used, b.index, b.order, c.s, c.used, c.index, c.order, key, n);
    }
  }

  /** As long as no node of the chain is recycled, each frame has its own. */
  ghost predicate Apiece(a: Snap, b: Snap, tid: nat, ips: seq<u64>, sps: seq<u64>, chain: seq<nat>, p: nat)
    requires |ips| == |sps|
  {
    && Holds(b.s, b.used, tid, ips, sps, chain) && Since(a.s, a.used, b.s, b.used, chain)
    && AllDistinct(chain) && SnapOk(a) && Tracks(a, b, Frames(tid, ips, sps), chain, p)
    && Follows(a, b, Frames(tid, ips, sps), |chain|, p) && NodesKept(a, b, Frames(tid, ips, sps), chain)
  }

  lemma ApieceStart(a: Snap, tid: nat, ips: seq<u64>, sps: seq<u64>)
    requires SnapOk(a) && |ips| == |sps| && Distinct(Frames(tid, ips, sps))
    ensures Apiece(a, a, tid, ips, sps, [], |a.order|)
  {
    hide Tracks, Distinct;
    SnapParts(a);
    hide SnapOk;
    TrackStart(a, Frames(tid, ips, sps));
    FollowStart(a, Frames(tid, ips, sps));
  }

  lemma FollowStart(a: Snap, keys: seq<Key>)
    ensures Follows(a, a, keys, 0, |a.order|) && NodesKept(a, a, keys, [])
  {
    assert a.order[..|a.order|] == a.order;
  }

  lemma ApieceStep(a: Snap, b: Snap, c: Snap, tid: nat, ips: seq<u64>, sps: seq<u64>, chain: seq<nat>, p: nat, n: nat) returns (p': nat)
    requires |ips| == |sps| && |chain| < |ips| && Distinct(Frames(tid, ips, sps))
    requires Apiece(a, b, tid, ips, sps, chain, p) && SnapOk(b) && SnapOk(c)
    requires !Stuck(b, chain, Key(tid, ips[|chain|], sps[|chain|]))
    requires Got(b.s, b.used, b.index, b.order, c.s, c.used, c.index, c.order, Key(tid, ips[|chain|], sps[|chain|]), n)
    ensures Apiece(a, c, tid, ips, sps, chain + [n], p')
  {
    hide SnapOk, Got, KeysOk, Members, Since, Tracks, Stuck, Holds, Distinct, Follows, NodesKept;
    SnapParts(b);
    NextNodeIsNew(b, c, tid, ips, sps, chain, n);
    SinceKept(a.s, a.used, b.s, b.used, b.index, b.order, c.s, c.used, c.index, c.order, chain, Key(tid, ips[|chain|], sps[|chain|]), n);
    p' := TrackStep(a, b, c, Frames(tid, ips, sps), chain, p, n);
    FollowStep(a, b, c, Frames(tid, ips, sps), chain, p, p', n);
    SinceParents(a, b, chain);
    NodesKeptStep(a, b, c, Frames(tid, ips, sps), chain, p, n);
  }

  lemma SinceParents(a: Snap, b: Snap, chain: seq<nat>)
    requires Since(a.s, a.used, b.s, b.used, chain)
    ensures forall m: nat :: 1 <= m <= a.used && m !in chain ==> m < |b.s| && m < |a.s| && b.s[m].parent == a.s[m].parent
  {
  }

  lemma ApieceStuck(a: Snap, b: Snap, c: Snap, tid: nat, ips: seq<u64>, sps: seq<u64>, chain: seq<nat>, p: nat, n: nat)
    requires |ips| == |sps| && |chain| < |ips| && Distinct(Frames(tid, ips, sps))
    requires Apiece(a, b, tid, ips, sps, chain, p) && SnapOk(b)
    requires Stuck(b, chain, Key(tid, ips[|chain|], sps[|chain|]))
    requires Got(b.s, b.used, b.index, b.order, c.s, c.used, c.index, c.order, Key(tid, ips[|chain|], sps[|chain|]), n)
    ensures !Roomy(a, Frames(tid, ips, sps)) && !AllDistinct(chain + [n])
  {
    hide SnapOk, Got, Tracks, Stuck, Holds, Distinct, Roomy, Follows, NodesKept;
    var keys := Frames(tid, ips, sps);
    StuckIsNotRoomy(a, b, keys, chain, p);
    StuckRecyclesChain(b, c, keys, chain, n);
    var j :| 0 <= j < |chain| && chain[j] == n;
    assert (chain + [n])[j] == (chain + [n])[|chain|];
  }

  lemma StillRepeated(chain: seq<nat>, n: nat)
    requires !AllDistinct(chain)
    ensures !AllDistinct(chain + [n])
  {
    var i, j :| 0 <= i < j < |chain| && chain[i] == chain[j];
    assert (chain + [n])[i] == (chain + [n])[j];
  }

  /**
   * The first loop of AddCallChain. The nodes are those of the frames, each its own, exactly if the
   * cache had room for the frames at the start; otherwise one of them was recycled for a later frame.
   */
  method BuildChain(cache: LRUCache, tid: nat, ips: seq<u64>, sps: seq<u64>) returns (chain: seq<nat>)
    requires cache.Valid() && |ips| == |sps|
    modifies cache, cache.nodes
    ensures cache.Valid() && cache.rank == old(cache.rank) && |chain| == |ips|
    ensures OfThread(cache.nodes[..], cache.used, tid, chain)
    ensures Latest(cache.nodes[..], cache.used, cache.index, tid, ips, sps, chain)
    ensures old(Rising(cache.nodes[..], cache.used)) ==> Rising(cache.nodes[..], cache.used)
    ensures Distinct(Frames(tid, ips, sps)) ==> (AllDistinct(chain) <==> Roomy(old(SnapOf(cache)), Frames(tid, ips, sps)))
    ensures Distinct(Frames(tid, ips, sps)) && AllDistinct(chain) ==>
              && Holds(cache.nodes[..], cache.used, tid, ips, sps, chain)
              && Since(old(cache.nodes[..]), old(cache.used), cache.nodes[..], cache.used, chain)
              && NodesKept(old(SnapOf(cache)), SnapOf(cache), Frames(tid, ips, sps), chain)
    ensures Inherited(old(SnapOf(cache)), SnapOf(cache))
  {
    hide NodesKept, Inherited, SoundCache, Got, Apiece, Stuck, Roomy, Distinct, OfThread, Rising, AllDistinct,
         Ranked, Holds, Since, Latest, KeysOk, Forest, ParentsOk;
    ghost var a, keys := SnapOf(cache), Frames(tid, ips, sps);
    ghost var p: nat, good := |cache.order|, Distinct(keys);
    if good {
      ApieceStart(a, tid, ips, sps);
    }
    chain := [];
    NobodyYet(a.s, a.used, a.index, a.order, tid, ips, sps);
    InheritedStart(a);
    for i := 0 to |ips|
      invariant cache.Valid() && |chain| == i && cache.rank == old(cache.rank)
      invariant OfThread(cache.nodes[..], cache.used, tid, chain)
      invariant Latest(cache.nodes[..], cache.used, cache.index, tid, ips, sps, chain)
      invariant old(Rising(cache.nodes[..], cache.used)) ==> Rising(cache.nodes[..], cache.used)
      invariant Inherited(a, SnapOf(cache))
      invariant good ==> Distinct(keys) && Apiece(a, SnapOf(cache), tid, ips, sps, chain, p)
      invariant !good && Distinct(keys) ==> !Roomy(a, keys) && !AllDistinct(chain)
    {
      ghost var b := SnapOf(cache);
      var node := NextNode(cache, tid, ips[i], sps[i]);
      ghost var c := SnapOf(cache);
      GotThread(b.s, b.used, b.index, b.order, c.s, c.used, c.index, c.order, keys[i], node, chain);
      SoundParts(b.s, b.used, b.index, b.order);
      SoundParts(c.s, c.used, c.index, c.order);
      LatestMore(b, c, tid, ips, sps, chain, node);
      InheritedStep(a, b, c, keys[i], node);
      if !good {
        if Distinct(keys) {
          StillRepeated(chain, node);
        }
      } else if Stuck(b, chain, keys[i]) {
        ApieceStuck(a, b, c, tid, ips, sps, chain, p, node);
        good := false;
      } else {
        p := ApieceStep(a, b, c, tid, ips, sps, chain, p, node);
      }
      chain := chain + [node];
    }
    if good {
      ApieceEnd(a, SnapOf(cache), tid, ips, sps, chain, p);
    }
  }

  lemma NobodyYet(s: seq<Node>, used: nat, index: map<Key, nat>, order: seq<nat>, tid: nat, ips: seq<u64>, sps: seq<u64>)
    requires SoundCache(s, used, index, order) && |ips| == |sps|
    ensures OfThread(s, used, tid, []) && Latest(s, used, index, tid, ips, sps, [])
  {
    SoundParts(s, used, index, order);
  }

  lemma ApieceEnd(a: Snap, b: Snap, tid: nat, ips: seq<u64>, sps: seq<u64>, chain: seq<nat>, p: nat)
    requires |ips| == |sps| == |chain| && Apiece(a, b, tid, ips, sps, chain, p)
    ensures Roomy(a, Frames(tid, ips, sps)) && AllDistinct(chain)
    ensures Holds(b.s, b.used, tid, ips, sps, chain) && Since(a.s, a.used, b.s, b.used, chain)
    ensures NodesKept(a, b, Frames(tid, ips, sps), chain)
  {
    hide Tracks, Roomy, SnapOk, Holds, Since, Follows, NodesKept;
    TrackedIsRoomy(a, b, Frames(tid, ips, sps), chain, p);
  }

  // ------------------------------------------------------------- linking the chain

  /** Where x comes last in the chain. */
  ghost function LastPos(chain: seq<nat>, x: nat): (i: nat)
    requires x in chain
    ensures i < |chain| && chain[i] == x && forall k :: i < k < |chain| ==> chain[k] != x
  {
    if chain[|chain| - 1] == x then |chain| - 1 else LastPos(chain[..|chain| - 1], x)
  }

  lemma LastPosIs(chain: seq<nat>, x: nat, i: nat)
    requires i < |chain| && chain[i] == x && forall k :: i < k < |chain| ==> chain[k] != x
    ensures x in chain && LastPos(chain, x) == i
  {
  }

  /** s is s1 with each of the first k nodes of the chain linked to its successor, a node that comes twice to its last one. */
  ghost predicate ChainLinked(s1: seq<Node>, s: seq<Node>, chain: seq<nat>, k: nat)
  {
    && |s| == |s1| && k < |chain|
    && (forall x: nat :: x < |s| ==> KeyOf(s[x]) == KeyOf(s1[x]))
    && (forall x: nat :: x < |s| && x !in chain[..k] ==> s[x].parent == s1[x].parent)
    && (forall x: nat :: x in chain[..k] ==> x < |s| && s[x].parent == chain[LastPos(chain[..k], x) + 1])
  }

  lemma ChainLinkedMore(s1: seq<Node>, s: seq<Node>, s': seq<Node>, chain: seq<nat>, k: nat)
    requires ChainLinked(s1, s, chain, k) && k + 1 < |chain|
    requires Relinked(s, s', chain[k], chain[k + 1]) && chain[k] < |s|
    ensures ChainLinked(s1, s', chain, k + 1)
  {
    hide LastPos;
    var a, b := chain[..k], chain[..k + 1];
    assert b == a + [chain[k]];
    forall x: nat | x in b ensures x < |s'| && s'[x].parent == chain[LastPos(b, x) + 1] {
      if x == chain[k] {
        LastPosIs(b, x, k);
      } else {
        LastPosIs(b, x, LastPos(a, x));
      }
    }
  }

  lemma ThreadKept(s: seq<Node>, s': seq<Node>, used: nat, tid: nat, chain: seq<nat>)
    requires OfThread(s, used, tid, chain) && |s'| == |s| && forall x: nat :: x < |s| ==> KeyOf(s'[x]) == KeyOf(s[x])
    ensures OfThread(s', used, tid, chain)
  {
    forall j | 0 <= j < |chain| ensures s'[chain[j]].tid == tid {
      assert KeyOf(s'[chain[j]]) == KeyOf(s[chain[j]]);
    }
  }

  lemma RelinkedThread(s: seq<Node>, s': seq<Node>, c: nat, p: nat, used: nat, tid: nat, chain: seq<nat>)
    requires Relinked(s, s', c, p) && OfThread(s, used, tid, chain)
    ensures OfThread(s', used, tid, chain)
  {
    ThreadKept(s, s', used, tid, chain);
  }

  lemma ThreadNode(s: seq<Node>, used: nat, tid: nat, chain: seq<nat>, j: nat)
    requires OfThread(s, used, tid, chain) && j < |chain|
    ensures 1 <= chain[j] <= used < |s| && s[chain[j]].tid == tid
  {
  }

  /** The third step of AddCallChain. */
  method LinkChain(cache: LRUCache, tid: nat, chain: seq<nat>)
    requires cache.Sound() && |chain| > 0 && OfThread(cache.nodes[..], cache.used, tid, chain)
    modifies cache.nodes, cache`order
    ensures cache.Sound() && OfThread(cache.nodes[..], cache.used, tid, chain)
    ensures ChainLinked(old(cache.nodes[..]), cache.nodes[..], chain, |chain| - 1)
  {
    hide SoundCache, OfThread, ChainLinked, Relinked;
    ghost var s1 := cache.nodes[..];
    NothingLinked(s1, chain);
    var i := 0;
    while i + 1 < |chain|
      invariant 0 <= i < |chain|
      invariant cache.Sound() && OfThread(cache.nodes[..], cache.used, tid, chain)
      invariant ChainLinked(s1, cache.nodes[..], chain, i)
    {
      ghost var s := cache.nodes[..];
      ThreadNode(s, cache.used, tid, chain, i);
      ThreadNode(s, cache.used, tid, chain, i + 1);
      cache.LinkParent(chain[i], chain[i + 1]);
      ChainLinkedMore(s1, s, cache.nodes[..], chain, i);
      RelinkedThread(s, cache.nodes[..], chain[i], chain[i + 1], cache.used, tid, chain);
      i := i + 1;
    }
  }

  lemma NothingLinked(s: seq<Node>, chain: seq<nat>)
    requires |chain| > 0
    ensures ChainLinked(s, s, chain, 0)
  {
  }

  function Top(chain: seq<nat>): nat
    requires |chain| > 0
  {
    chain[|chain| - 1]
  }

  /** From a node of the chain, but for the top, the way leads on through the chain. */
  lemma ChainGoesOn(mid: seq<Node>, s: seq<Node>, chain: seq<nat>, x: nat)
    requires |chain| > 0 && ChainLinked(mid, s, chain, |chain| - 1) && x in chain && x != Top(chain)
    ensures LastPos(chain, x) + 1 < |chain| && x < |s| && s[x].parent == chain[LastPos(chain, x) + 1]
    ensures s[x].parent in chain && LastPos(chain, x) < LastPos(chain, s[x].parent)
  {
    hide LastPos;
    var front, i := chain[..|chain| - 1], LastPos(chain, x);
    assert front[i] == x;
    LastPosIs(front, x, i);
    var y := chain[i + 1];
    assert LastPos(chain, y) >= i + 1;
  }

  /** The top is linked only if it came before; and then to a node of the chain. */
  lemma TopLink(mid: seq<Node>, s: seq<Node>, chain: seq<nat>)
    requires |chain| > 0 && ChainLinked(mid, s, chain, |chain| - 1) && Top(chain) < |s|
    ensures s[Top(chain)].parent == mid[Top(chain)].parent || s[Top(chain)].parent in chain
    ensures Top(chain) !in chain[..|chain| - 1] ==> s[Top(chain)].parent == mid[Top(chain)].parent
  {
  }

  // --------------------------------------------------------------- the way up

  /** c is the way from n up to a node without parent. */
  ghost predicate IsClimb(s: seq<Node>, n: nat, c: seq<nat>)
    decreases |c|
  {
    && n < |s|
    && if c == [] then s[n].parent == 0
       else c[0] != 0 && s[n].parent == c[0] && IsClimb(s, c[0], c[1..])
  }

  ghost function RankBound(rank: seq<nat>): (b: nat)
    ensures forall i :: 0 <= i < |rank| ==> rank[i] < b
  {
    if rank == [] then 0 else Max(rank[|rank| - 1] + 1, RankBound(rank[..|rank| - 1]))
  }

  /** Without cycles there is such a way. */
  lemma {:induction false} FullClimb(s: seq<Node>, used: nat, rank: seq<nat>, n: nat) returns (c: seq<nat>)
    requires Ranked(s, used, rank) && ParentsOk(s, used) && 1 <= n <= used
    ensures IsClimb(s, n, c)
    decreases RankBound(rank) - rank[n]
  {
    if s[n].parent == 0 {
      c := [];
    } else {
      var c' := FullClimb(s, used, rank, s[n].parent);
      c := [s[n].parent] + c';
    }
  }

  /** The test of the second step, as the loop over it computes it. */
  ghost predicate CanExtend(s: seq<Node>, chain: seq<nat>, matched: nat)
  {
    && |chain| >= matched
    && (matched > 1 ==> |chain| >= 2 && chain[|chain| - 2] < |s| && s[chain[|chain| - 2]].parent == chain[|chain| - 1])
  }

  method MayExtend(cache: LRUCache, chain: seq<nat>) returns (can: bool)
    requires |chain| > 0 && forall j :: 0 <= j < |chain| ==> chain[j] < cache.nodes.Length
    requires cache.matched >= 1
    ensures can == CanExtend(cache.nodes[..], chain, cache.matched)
  {
    if |chain| < cache.matched {
      return false;
    }
    var chainPos := |chain| - 2;
    for i := 1 to cache.matched
      invariant i > 1 ==> cache.nodes[chain[chainPos]].parent == chain[chainPos + 1]
    {
      if cache.GetParent(chain[chainPos]) != chain[chainPos + 1] {
        return false;
      }
    }
    return true;
  }

  /** ext is the way from n upward, as far as it goes: each element is the parent of the one before. */
  ghost predicate Ascends(s: seq<Node>, n: nat, ext: seq<nat>)
  {
    && n < |s| && (forall k :: 0 <= k < |ext| ==> 0 < ext[k] < |s|)
    && (|ext| > 0 ==> s[n].parent == ext[0])
    && forall k :: 0 < k < |ext| ==> s[ext[k - 1]].parent == ext[k]
  }

  function EndOf(n: nat, ext: seq<nat>): nat
  {
    if ext == [] then n else ext[|ext| - 1]
  }

  ghost predicate Apart(c: seq<nat>, chain: seq<nat>)
  {
    forall x :: x in c ==> x !in chain
  }

  lemma {:induction false} AscentIsClimb(s: seq<Node>, n: nat, ext: seq<nat>)
    requires Ascends(s, n, ext) && s[EndOf(n, ext)].parent == 0
    ensures IsClimb(s, n, ext)
    decreases |ext|
  {
    if ext != [] {
      assert forall k :: 0 < k < |ext[1..]| ==> ext[1..][k - 1] == ext[k] && ext[1..][k] == ext[k + 1];
      AscentIsClimb(s, ext[0], ext[1..]);
    }
  }

  /** The way up is unique, so an ascent lies on every climb. */
  lemma {:induction false} AscentOnClimb(s: seq<Node>, n: nat, ext: seq<nat>, c: seq<nat>)
    requires Ascends(s, n, ext) && IsClimb(s, n, c)
    ensures ext <= c
    decreases |ext|
  {
    if ext != [] {
      assert c != [] && c[0] == ext[0];
      assert forall k :: 0 < k < |ext[1..]| ==> ext[1..][k - 1] == ext[k] && ext[1..][k] == ext[k + 1];
      AscentOnClimb(s, ext[0], ext[1..], c[1..]);
    }
  }

  /** The next node of the way up. */
  lemma AscendMore(s: seq<Node>, used: nat, n: nat, ext: seq<nat>)
    requires Ascends(s, n, ext) && ParentsOk(s, used) && 1 <= EndOf(n, ext) <= used
    ensures var p := s[EndOf(n, ext)].parent;
            p != 0 ==> 1 <= p <= used < |s| && s[p].tid == s[EndOf(n, ext)].tid && Ascends(s, n, ext + [p])
  {
    var e := EndOf(n, ext);
    if s[e].parent != 0 {
      var ext' := ext + [s[e].parent];
      assert forall k :: 0 <= k < |ext| ==> ext'[k] == ext[k];
    }
  }

  // -------------------------------------------------------------- a loop is noticed

  /** The test of the fourth step: p has the frame of one of the last nodes of the chain, all as high as the top. */
  ghost predicate Detects(s: seq<Node>, chain: seq<nat>, p: nat)
    requires p < |s| && forall j :: 0 <= j < |chain| ==> chain[j] < |s|
  {
    exists j :: 0 <= j < |chain| && s[chain[j]].ip == s[p].ip && forall k :: j <= k < |chain| ==> s[chain[k]].sp == s[p].sp
  }

  method HasLoop(cache: LRUCache, chain: seq<nat>, top: nat) returns (loop: bool)
    requires |chain| > 0 && top < cache.nodes.Length && forall j :: 0 <= j < |chain| ==> chain[j] < cache.nodes.Length
    ensures loop <==> Detects(cache.nodes[..], chain, top)
  {
    var j := |chain|;
    if cache.nodes[top].sp != cache.nodes[chain[j - 1]].sp {
      return false;
    }
    while j > 0
      invariant 0 <= j <= |chain|
      invariant forall k :: j <= k < |chain| ==> cache.nodes[chain[k]].sp == cache.nodes[top].sp
      invariant forall k :: j <= k < |chain| ==> cache.nodes[chain[k]].ip != cache.nodes[top].ip
    {
      if cache.nodes[chain[j - 1]].sp != cache.nodes[top].sp {
        return false;
      }
      if cache.nodes[chain[j - 1]].ip == cache.nodes[top].ip {
        return true;
      }
      j := j - 1;
    }
    return false;
  }

  lemma TopDetected(s: seq<Node>, chain: seq<nat>)
    requires |chain| > 0 && forall j :: 0 <= j < |chain| ==> chain[j] < |s|
    ensures Detects(s, chain, Top(chain))
  {
    assert s[chain[|chain| - 1]].ip == s[Top(chain)].ip;
  }

  lemma DetectedInChain(s: seq<Node>, used: nat, index: map<Key, nat>, tid: nat, chain: seq<nat>, p: nat)
    requires OfThread(s, used, tid, chain) && KeysOk(s, used, index, 0) && 1 <= p <= used && s[p].tid == tid
    requires Detects(s, chain, p)
    ensures p in chain
  {
    var j :| 0 <= j < |chain| && s[chain[j]].ip == s[p].ip && forall k :: j <= k < |chain| ==> s[chain[k]].sp == s[p].sp;
    assert KeyOf(s[chain[j]]) == KeyOf(s[p]);
  }

  // ------------------------------------------------------------------ the fourth step

  /** The frames of the nodes in ext were appended. */
  ghost predicate Appended(s: seq<Node>, ips: seq<u64>, sps: seq<u64>, ext: seq<nat>, ips': seq<u64>, sps': seq<u64>)
  {
    && |ips| == |sps| && |ips'| == |sps'| == |ips| + |ext| && ips <= ips' && sps <= sps'
    && forall k :: 0 <= k < |ext| ==> ext[k] < |s| && ips'[|ips| + k] == s[ext[k]].ip && sps'[|sps| + k] == s[ext[k]].sp
  }

  lemma AppendedMore(s: seq<Node>, ips: seq<u64>, sps: seq<u64>, ext: seq<nat>, ips': seq<u64>, sps': seq<u64>, n: nat)
    requires Appended(s, ips, sps, ext, ips', sps') && n < |s|
    ensures Appended(s, ips, sps, ext + [n], ips' + [s[n].ip], sps' + [s[n].sp])
  {
  }

  lemma NothingAppended(s: seq<Node>, ips: seq<u64>, sps: seq<u64>)
    requires |ips| == |sps|
    ensures Appended(s, ips, sps, [], ips, sps)
  {
  }

  /** None of these nodes gives a loop away. */
  ghost predicate Unnoticed(s: seq<Node>, chain: seq<nat>, ext: seq<nat>)
  {
    && (forall j :: 0 <= j < |chain| ==> chain[j] < |s|)
    && forall k :: 0 <= k < |ext| ==> ext[k] < |s| && !Detects(s, chain, ext[k])
  }

  /** How far it is from n to the end of the way, or to the top: first outside the chain, then along it. */
  ghost function WayLeft(rank: seq<nat>, chain: seq<nat>, n: nat): nat
  {
    if n == 0 then 0
    else if n in chain then |chain| - LastPos(chain, n)
    else |chain| + 1 + (if n < |rank| then RankBound(rank) - rank[n] else 0)
  }

  lemma WayGetsShorter(mid: seq<Node>, s: seq<Node>, used: nat, rank: seq<nat>, chain: seq<nat>, n: nat)
    requires |chain| > 0 && ChainLinked(mid, s, chain, |chain| - 1) && Ranked(mid, used, rank) && ParentsOk(s, used)
    requires 1 <= n <= used && n != Top(chain)
    ensures WayLeft(rank, chain, s[n].parent) < WayLeft(rank, chain, n)
  {
    hide LastPos;
    var y := s[n].parent;
    if n in chain {
      ChainGoesOn(mid, s, chain, n);
    } else {
      assert n !in chain[..|chain| - 1];
      assert y == mid[n].parent;
      if y != 0 {
        assert y <= used;
        assert rank[n] < rank[y] < RankBound(rank);
      }
    }
  }

  /** A way that ends at a node without parent and does not come to the top does not touch the chain. */
  lemma {:induction false} EndsOutside(mid: seq<Node>, s: seq<Node>, chain: seq<nat>, n: nat, ext: seq<nat>, k: nat)
    requires |chain| > 0 && ChainLinked(mid, s, chain, |chain| - 1) && 0 !in chain
    requires Ascends(s, n, ext) && s[EndOf(n, ext)].parent == 0 && Top(chain) !in ext && k < |ext|
    ensures ext[k] !in chain
    decreases |ext| - k
  {
    assert ext[k] in ext;
    if k + 1 < |ext| {
      EndsOutside(mid, s, chain, n, ext, k + 1);
      assert s[ext[k + 1 - 1]].parent == ext[k + 1];
    }
    if ext[k] in chain {
      ChainGoesOn(mid, s, chain, ext[k]);
    }
  }

  /**
   * The loop up along the parents, whatever the links of the chain: it ends at a node without parent,
   * never having touched the chain, or at a node of the chain that gives the loop away.
   */
  method Climb(cache: LRUCache, tid: nat, ips: seq<u64>, sps: seq<u64>, chain: seq<nat>, ghost mid: seq<Node>)
    returns (meets: bool, ips': seq<u64>, sps': seq<u64>, ghost ext: seq<nat>)
    requires cache.Sound() && |chain| > 0 && |ips| == |sps| && OfThread(cache.nodes[..], cache.used, tid, chain)
    requires ChainLinked(mid, cache.nodes[..], chain, |chain| - 1) && Ranked(mid, cache.used, cache.rank)
    ensures Ascends(cache.nodes[..], Top(chain), ext)
    ensures !meets ==>
              && cache.nodes[..][EndOf(Top(chain), ext)].parent == 0 && Apart(ext, chain)
              && Unnoticed(cache.nodes[..], chain, ext) && Appended(cache.nodes[..], ips, sps, ext, ips', sps')
    ensures meets ==>
              && ext != [] && Top(ext) in chain && Unnoticed(cache.nodes[..], chain, ext[..|ext| - 1])
              && (forall j :: 0 <= j < |chain| ==> chain[j] < cache.nodes.Length) && Detects(cache.nodes[..], chain, Top(ext))
  {
    hide SoundCache, OfThread, ChainLinked, ParentsOk, KeysOk, Forest, Ranked, Ascends, Appended, Detects, Unnoticed,
         WayLeft;
    ghost var s, used, rank := cache.nodes[..], cache.used, cache.rank;
    SoundParts(s, used, cache.index, cache.order);
    var back := chain[|chain| - 1];
    ThreadNodes(s, used, tid, chain);
    ips', sps', ext := ips, sps, [];
    StartOfWay(s, chain, back, ips, sps);
    TopDetected(s, chain);
    var top := cache.GetParent(back);
    AscendMore(s, used, back, ext);
    while top != 0
      invariant Ascends(s, back, ext) && back !in ext && 1 <= EndOf(back, ext) <= used && s[EndOf(back, ext)].tid == tid
      invariant top == s[EndOf(back, ext)].parent
      invariant Appended(s, ips, sps, ext, ips', sps') && Unnoticed(s, chain, ext)
      decreases WayLeft(rank, chain, top)
    {
      AscendMore(s, used, back, ext);
      meets := HasLoop(cache, chain, top);
      if meets {
        DetectedInChain(s, used, cache.index, tid, chain, top);
        ext := ext + [top];
        assert ext[..|ext| - 1] + [top] == ext;
        return;
      }
      AppendedMore(s, ips, sps, ext, ips', sps', top);
      UnnoticedMore(s, chain, ext, top);
      WayGetsShorter(mid, s, used, rank, chain, top);
      ips', sps' := ips' + [cache.nodes[top].ip], sps' + [cache.nodes[top].sp];
      ext := ext + [top];
      top := cache.GetParent(top);
    }
    meets := false;
    forall x | x in ext ensures x !in chain {
      var k :| 0 <= k < |ext| && ext[k] == x;
      EndsOutside(mid, s, chain, back, ext, k);
    }
  }

  lemma ThreadNodes(s: seq<Node>, used: nat, tid: nat, chain: seq<nat>)
    requires OfThread(s, used, tid, chain) && |chain| > 0
    ensures 1 <= Top(chain) <= used < |s| && s[Top(chain)].tid == tid && 0 !in chain
    ensures forall j :: 0 <= j < |chain| ==> chain[j] < |s|
  {
  }

  lemma StartOfWay(s: seq<Node>, chain: seq<nat>, n: nat, ips: seq<u64>, sps: seq<u64>)
    requires n < |s| && |ips| == |sps| && forall j :: 0 <= j < |chain| ==> chain[j] < |s|
    ensures Ascends(s, n, []) && Appended(s, ips, sps, [], ips, sps) && Unnoticed(s, chain, [])
  {
  }

  lemma UnnoticedMore(s: seq<Node>, chain: seq<nat>, ext: seq<nat>, n: nat)
    requires Unnoticed(s, chain, ext) && n < |s| && !Detects(s, chain, n)
    ensures Unnoticed(s, chain, ext + [n])
  {
    hide Detects;
  }

  /**
   * The cache at the end: each node of the chain linked to its successor (the last one, if it comes
   * twice), the top continued by ext if there is any, the rest as in mid.
   */
  ghost predicate Extended(mid: seq<Node>, s: seq<Node>, chain: seq<nat>, ext: seq<nat>)
  {
    && |s| == |mid| && |chain| > 0
    && (forall j :: 0 <= j < |chain| ==> chain[j] < |s|)
    && (forall x: nat :: x < |s| ==> KeyOf(s[x]) == KeyOf(mid[x]))
    && (forall x: nat :: x < |s| && x !in chain ==> s[x].parent == mid[x].parent)
    && (forall x: nat :: x in chain && x != Top(chain) ==>
          LastPos(chain, x) + 1 < |chain| && s[x].parent == chain[LastPos(chain, x) + 1])
    && s[Top(chain)].parent == (if ext == [] then 0 else ext[0])
    && Apart(ext, chain)
    && (ext != [] ==> IsClimb(mid, Top(chain), ext))
  }

  /** What the fourth step does to the linked cache: where the way up is clear, it is kept, and otherwise cut. */
  ghost predicate Chose(linked: seq<Node>, chain: seq<nat>, can: bool, ext: seq<nat>)
    requires |chain| > 0
  {
    if can && Clear(linked, chain) then IsClimb(linked, Top(chain), ext) && Unnoticed(linked, chain, ext) else ext == []
  }

  /** The way up ends without giving a loop away. */
  ghost predicate Clear(linked: seq<Node>, chain: seq<nat>)
    requires |chain| > 0
  {
    exists c :: IsClimb(linked, Top(chain), c) && Unnoticed(linked, chain, c)
  }

  /** The way up of a clear chain in the linked cache is the way up in the cache before. */
  lemma {:induction false} ClimbBefore(mid: seq<Node>, s: seq<Node>, chain: seq<nat>, n: nat, c: seq<nat>)
    requires |chain| > 0 && ChainLinked(mid, s, chain, |chain| - 1) && IsClimb(s, n, c) && Apart(c, chain)
    requires n < |s| && s[n].parent == mid[n].parent
    ensures IsClimb(mid, n, c)
    decreases |c|
  {
    if c != [] {
      assert c[0] in c && c[0] !in chain[..|chain| - 1];
      assert c[0] < |s|;
      assert forall x :: x in c[1..] ==> x in c;
      ClimbBefore(mid, s, chain, c[0], c[1..]);
    }
  }

  lemma KeptIsExtended(mid: seq<Node>, s: seq<Node>, chain: seq<nat>, ext: seq<nat>)
    requires |chain| > 0 && ChainLinked(mid, s, chain, |chain| - 1) && 0 !in chain
    requires forall j :: 0 <= j < |chain| ==> chain[j] < |s|
    requires Ascends(s, Top(chain), ext) && s[EndOf(Top(chain), ext)].parent == 0 && Apart(ext, chain)
    ensures Extended(mid, s, chain, ext)
  {
    hide LastPos;
    AscentIsClimb(s, Top(chain), ext);
    TopLink(mid, s, chain);
    if ext != [] {
      assert ext[0] in ext;
    }
    hide Ascends;
    ClimbBefore(mid, s, chain, Top(chain), ext);
    forall x: nat | x in chain && x != Top(chain)
      ensures LastPos(chain, x) + 1 < |chain| && s[x].parent == chain[LastPos(chain, x) + 1]
    {
      ChainGoesOn(mid, s, chain, x);
    }
    assert forall x: nat :: x < |s| && x !in chain ==> x !in chain[..|chain| - 1];
    hide IsClimb;
  }

  /** The chain is linked and its top has lost its parent. */
  lemma CutIsExtended(mid: seq<Node>, s: seq<Node>, s': seq<Node>, chain: seq<nat>)
    requires |chain| > 0 && ChainLinked(mid, s, chain, |chain| - 1) && Relinked(s, s', Top(chain), 0)
    requires forall j :: 0 <= j < |chain| ==> chain[j] < |s|
    ensures Extended(mid, s', chain, [])
  {
    hide LastPos;
    forall x: nat | x in chain && x != Top(chain)
      ensures LastPos(chain, x) + 1 < |chain| && s'[x].parent == chain[LastPos(chain, x) + 1]
    {
      ChainGoesOn(mid, s, chain, x);
    }
    assert forall x: nat :: x < |s| && x !in chain ==> x !in chain[..|chain| - 1];
  }

  /** A way that gives a loop away is not clear. */
  lemma NoticedNotClear(s: seq<Node>, chain: seq<nat>, ext: seq<nat>)
    requires |chain| > 0 && Ascends(s, Top(chain), ext) && ext != []
    requires (forall j :: 0 <= j < |chain| ==> chain[j] < |s|) && Detects(s, chain, Top(ext))
    ensures !Clear(s, chain)
  {
    hide Detects;
    forall c | IsClimb(s, Top(chain), c) ensures !Unnoticed(s, chain, c) {
      AscentOnClimb(s, Top(chain), ext, c);
      assert c[|ext| - 1] == Top(ext);
    }
  }

  /** The fourth step. */
  method Extend(cache: LRUCache, tid: nat, ips: seq<u64>, sps: seq<u64>, chain: seq<nat>, can: bool, ghost mid: seq<Node>)
    returns (ips': seq<u64>, sps': seq<u64>, ghost ext: seq<nat>)
    requires cache.Sound() && |chain| > 0 && |ips| == |sps| && OfThread(cache.nodes[..], cache.used, tid, chain)
    requires ChainLinked(mid, cache.nodes[..], chain, |chain| - 1) && Ranked(mid, cache.used, cache.rank)
    modifies cache.nodes, cache`order
    ensures cache.Sound() && Extended(mid, cache.nodes[..], chain, ext)
    ensures Chose(old(cache.nodes[..]), chain, can, ext) && Appended(old(cache.nodes[..]), ips, sps, ext, ips', sps')
  {
    hide SoundCache, OfThread, ChainLinked, Ranked, Ascends, Relinked, Extended, Detects, IsClimb, Appended,
         Unnoticed, Clear;
    ghost var s, used := cache.nodes[..], cache.used;
    ThreadNodes(s, used, tid, chain);
    if can {
      var meets;
      ghost var seen;
      meets, ips', sps', seen := Climb(cache, tid, ips, sps, chain, mid);
      if !meets {
        ext := seen;
        KeptIsExtended(mid, s, chain, ext);
        AscentIsClimb(s, Top(chain), ext);
        IsClear(s, chain, ext);
        return;
      }
      NoticedNotClear(s, chain, seen);
    }
    cache.UnlinkParent(chain[|chain| - 1]);
    CutIsExtended(mid, s, cache.nodes[..], chain);
    ips', sps', ext := ips, sps, [];
    NothingAppended(s, ips, sps);
  }

  lemma IsClear(s: seq<Node>, chain: seq<nat>, c: seq<nat>)
    requires |chain| > 0 && IsClimb(s, Top(chain), c) && Unnoticed(s, chain, c)
    ensures Clear(s, chain)
  {
  }

  // --------------------------------------------------------------- no cycles again

  lemma {:induction false} ClimbClosed(s: seq<Node>, n: nat, c: seq<nat>, x: nat)
    requires IsClimb(s, n, c) && x in c
    ensures 0 < x < |s| && (s[x].parent != 0 ==> s[x].parent in c)
    decreases |c|
  {
    if x in c[1..] {
      ClimbClosed(s, c[0], c[1..], x);
    } else {
      assert c[1..] != [] ==> s[x].parent == c[1..][0];
    }
  }

  ghost function NewRank(rank: seq<nat>, chain: seq<nat>, ext: seq<nat>): (r: seq<nat>)
    ensures |r| == |rank|
    ensures forall x: nat :: x < |rank| ==> r[x] == RankIn(rank, chain, ext, x)
  {
    seq(|rank|, x requires 0 <= x < |rank| => RankIn(rank, chain, ext, x))
  }

  /** Above everything else come the nodes of the chain, in order, and above them its extension. */
  ghost function RankIn(rank: seq<nat>, chain: seq<nat>, ext: seq<nat>, x: nat): nat
    requires x < |rank|
  {
    if x in ext then RankBound(rank) + |chain| + rank[x]
    else if x in chain then RankBound(rank) + LastPos(chain, x)
    else rank[x]
  }

  lemma EdgeRises(mid: seq<Node>, s: seq<Node>, used: nat, rank: seq<nat>, chain: seq<nat>, ext: seq<nat>, x: nat)
    requires Ranked(mid, used, rank) && Extended(mid, s, chain, ext)
    requires 1 <= x <= used && 0 < s[x].parent <= used
    ensures RankIn(rank, chain, ext, x) < RankIn(rank, chain, ext, s[x].parent)
  {
    hide LastPos;
    var y := s[x].parent;
    assert rank[y] < RankBound(rank) && rank[x] < RankBound(rank);
    if x in chain {
      if x != Top(chain) {
        assert LastPos(chain, y) >= LastPos(chain, x) + 1;
      }
    } else {
      assert rank[x] < rank[y];
      if x in ext {
        ClimbClosed(mid, Top(chain), ext, x);
      }
    }
    hide RankBound, IsClimb;
  }

  /** After every call, following parents leads to a higher rank. */
  lemma ExtendedRanked(mid: seq<Node>, s: seq<Node>, used: nat, rank: seq<nat>, chain: seq<nat>, ext: seq<nat>)
    requires Ranked(mid, used, rank) && Extended(mid, s, chain, ext)
    ensures Ranked(s, used, NewRank(rank, chain, ext))
  {
    assert |s| == |mid|;
    hide Extended, RankIn;
    var r := NewRank(rank, chain, ext);
    forall n: nat | 1 <= n <= used && 0 < s[n].parent <= used ensures r[n] < r[s[n].parent] {
      EdgeRises(mid, s, used, rank, chain, ext, n);
    }
  }

  // ------------------------------------------------- when every frame has its own node

  /** The frames AddCallChain is to append: the way up from the top, unless it meets the chain again. */
  ghost predicate IsExtension(mid: seq<Node>, chain: seq<nat>, matched: nat, ext: seq<nat>)
    requires |chain| > 0
  {
    exists c :: IsClimb(mid, Top(chain), c) && ext == Chosen(mid, chain, matched, c)
  }

  ghost function Chosen(mid: seq<Node>, chain: seq<nat>, matched: nat, c: seq<nat>): seq<nat>
  {
    if CanExtend(mid, chain, matched) && Apart(c, chain) then c else []
  }

  lemma HoldsFrame(s: seq<Node>, used: nat, tid: nat, ips: seq<u64>, sps: seq<u64>, chain: seq<nat>, j: nat)
    requires Holds(s, used, tid, ips, sps, chain) && j < |chain|
    ensures 1 <= chain[j] <= used < |s| && s[chain[j]].tid == tid && s[chain[j]].ip == ips[j] && s[chain[j]].sp == sps[j]
  {
    assert KeyOf(s[chain[j]]) == Key(tid, ips[j], sps[j]);
  }

  lemma HoldsKept(s: seq<Node>, s': seq<Node>, used: nat, tid: nat, ips: seq<u64>, sps: seq<u64>, chain: seq<nat>)
    requires Holds(s, used, tid, ips, sps, chain) && |s'| == |s| && forall x: nat :: x < |s| ==> KeyOf(s'[x]) == KeyOf(s[x])
    ensures Holds(s', used, tid, ips, sps, chain)
  {
  }

  lemma ChainLength(ips: seq<u64>, sps: seq<u64>)
    requires GoodChain(ips, sps)
    ensures |ips| == |sps| > 0
  {
  }

  /** Frames do not get lower on the way up. */
  lemma {:induction false} AscentRises(s: seq<Node>, used: nat, n: nat, ext: seq<nat>, k: nat)
    requires Ascends(s, n, ext) && ParentsOk(s, used) && Rising(s, used) && 1 <= n <= used && k < |ext|
    ensures 1 <= ext[k] <= used && s[ext[k]].tid == s[n].tid && s[n].sp <= s[ext[k]].sp
    ensures k > 0 ==> s[ext[k - 1]].sp <= s[ext[k]].sp
  {
    if k > 0 {
      AscentRises(s, used, n, ext, k - 1);
    }
  }

  lemma {:induction false} ClimbAscends(s: seq<Node>, n: nat, c: seq<nat>, k: nat)
    requires IsClimb(s, n, c) && k <= |c|
    ensures Ascends(s, n, c[..k]) && (k == |c| ==> s[EndOf(n, c)].parent == 0)
    decreases |c|
  {
    if c != [] {
      ClimbAscends(s, c[0], c[1..], if k > 0 then k - 1 else 0);
      if k > 0 {
        var a, b := c[..k], c[1..][..k - 1];
        assert forall i :: 0 < i < |a| ==> a[i] == b[i - 1];
        forall i | 0 <= i < |a| ensures 0 < a[i] < |s| {
          if i > 0 {
            assert a[i] == b[i - 1];
          }
        }
        forall i | 0 < i < |a| ensures s[a[i - 1]].parent == a[i] {
          if i > 1 {
            assert a[i] == b[i - 1] && a[i - 1] == b[i - 2];
          }
        }
      }
      assert |c| > 1 ==> c[1..][|c| - 2] == c[|c| - 1];
    }
  }

  /** Outside the chain the way up is the same before and after linking. */
  lemma AscentAfter(mid: seq<Node>, s: seq<Node>, chain: seq<nat>, c: seq<nat>)
    requires |chain| > 0 && ChainLinked(mid, s, chain, |chain| - 1) && AllDistinct(chain) && Ascends(mid, Top(chain), c)
    requires forall k :: 0 <= k < |c| - 1 ==> c[k] !in chain
    ensures Ascends(s, Top(chain), c)
  {
    assert Top(chain) !in chain[..|chain| - 1];
    forall k | 0 < k < |c| ensures s[c[k - 1]].parent == c[k] {
      assert c[k - 1] !in chain[..|chain| - 1];
    }
  }

  /** A node of the chain on the way up gives the loop away: it is as high as the top, and so are all between. */
  lemma InChainDetected(s: seq<Node>, used: nat, tid: nat, ips: seq<u64>, sps: seq<u64>, chain: seq<nat>, p: nat)
    requires Holds(s, used, tid, ips, sps, chain) && GoodChain(ips, sps) && |chain| == |ips| && p in chain
    requires p < |s| && s[p].sp >= sps[|sps| - 1]
    ensures (forall j :: 0 <= j < |chain| ==> chain[j] < |s|) && Detects(s, chain, p)
  {
    var j :| 0 <= j < |chain| && chain[j] == p;
    forall k | j <= k < |chain| ensures s[chain[k]].sp == s[p].sp {
      HoldsFrame(s, used, tid, ips, sps, chain, j);
      HoldsFrame(s, used, tid, ips, sps, chain, k);
    }
  }

  lemma {:induction false} FirstInChain(c: seq<nat>, chain: seq<nat>) returns (k: nat)
    requires !Apart(c, chain)
    ensures k < |c| && c[k] in chain && forall i :: 0 <= i < k ==> c[i] !in chain
  {
    if c[0] in chain {
      k := 0;
    } else {
      var x :| x in c && x in chain;
      assert x in c[1..];
      k := FirstInChain(c[1..], chain);
      assert c[1..][k] == c[k + 1];
      k := k + 1;
      forall i | 0 <= i < k ensures c[i] !in chain {
        if i > 0 {
          assert c[1..][i - 1] == c[i];
        }
      }
    }
  }

  /** What is known of the cache when the frames have their nodes, and after linking. */
  ghost predicate Linking(mid: seq<Node>, s: seq<Node>, used: nat, index: map<Key, nat>, tid: nat, ips: seq<u64>, sps: seq<u64>, chain: seq<nat>)
  {
    && GoodChain(ips, sps) && |chain| == |ips| && Holds(mid, used, tid, ips, sps, chain) && Holds(s, used, tid, ips, sps, chain)
    && KeysOk(s, used, index, 0) && ParentsOk(mid, used) && Rising(mid, used)
    && ChainLinked(mid, s, chain, |chain| - 1) && OfThread(s, used, tid, chain)
  }

  /** If the way up meets the chain, it is not clear. */
  lemma MeetingNotClear(mid: seq<Node>, s: seq<Node>, used: nat, index: map<Key, nat>, tid: nat, ips: seq<u64>, sps: seq<u64>,
                        chain: seq<nat>, c: seq<nat>)
    requires Linking(mid, s, used, index, tid, ips, sps, chain) && |chain| > 0 && IsClimb(mid, Top(chain), c) && !Apart(c, chain)
    ensures !Clear(s, chain)
  {
    hide IsClimb, KeysOk, ChainLinked, ParentsOk, Rising, Ascends, Holds, OfThread, GoodChain, Clear, Detects;
    ChainLength(ips, sps);
    DistinctNodes(mid, used, tid, ips, sps, chain);
    var k := FirstInChain(c, chain);
    var seen := c[..k + 1];
    ClimbAscends(mid, Top(chain), c, k + 1);
    HoldsFrame(mid, used, tid, ips, sps, chain, |chain| - 1);
    AscentRises(mid, used, Top(chain), seen, k);
    AscentAfter(mid, s, chain, seen);
    KeysSameAt(mid, s, chain, c[k]);
    InChainDetected(s, used, tid, ips, sps, chain, c[k]);
    assert Top(seen) == c[k];
    NoticedNotClear(s, chain, seen);
  }

  lemma KeysSameAt(mid: seq<Node>, s: seq<Node>, chain: seq<nat>, x: nat)
    requires |chain| > 0 && ChainLinked(mid, s, chain, |chain| - 1) && x < |mid|
    ensures |s| == |mid| && s[x].tid == mid[x].tid && s[x].ip == mid[x].ip && s[x].sp == mid[x].sp
  {
    assert KeyOf(s[x]) == KeyOf(mid[x]);
  }

  /** If it does not, it is clear. */
  lemma PassingClear(mid: seq<Node>, s: seq<Node>, used: nat, index: map<Key, nat>, tid: nat, ips: seq<u64>, sps: seq<u64>,
                     chain: seq<nat>, c: seq<nat>)
    requires Linking(mid, s, used, index, tid, ips, sps, chain) && |chain| > 0 && IsClimb(mid, Top(chain), c) && Apart(c, chain)
    ensures IsClimb(s, Top(chain), c) && Clear(s, chain)
  {
    hide IsClimb, KeysOk, ParentsOk, Rising, Holds, OfThread, GoodChain, Detects, Unnoticed, Clear;
    ChainLength(ips, sps);
    DistinctNodes(mid, used, tid, ips, sps, chain);
    ClimbAscends(mid, Top(chain), c, |c|);
    assert c[..|c|] == c;
    HoldsFrame(mid, used, tid, ips, sps, chain, |chain| - 1);
    ThreadNodes(s, used, tid, chain);
    forall k | 0 <= k < |c| ensures c[k] < |s| && !Detects(s, chain, c[k]) {
      AscentRises(mid, used, Top(chain), c, k);
      KeysSameAt(mid, s, chain, c[k]);
      assert c[k] in c;
      if Detects(s, chain, c[k]) {
        DetectedInChain(s, used, index, tid, chain, c[k]);
      }
    }
    AscentAfter(mid, s, chain, c);
    var e := EndOf(Top(chain), c);
    assert s[e].parent == 0 by {
      assert c != [] ==> e in c;
      assert Top(chain) !in chain[..|chain| - 1];
    }
    AscentIsClimb(s, Top(chain), c);
    AreUnnoticed(s, chain, c);
    IsClear(s, chain, c);
  }

  lemma AreUnnoticed(s: seq<Node>, chain: seq<nat>, c: seq<nat>)
    requires forall j :: 0 <= j < |chain| ==> chain[j] < |s|
    requires forall k :: 0 <= k < |c| ==> c[k] < |s| && !Detects(s, chain, c[k])
    ensures Unnoticed(s, chain, c)
  {
  }

  lemma {:induction false} ClimbUnique(s: seq<Node>, n: nat, a: seq<nat>, b: seq<nat>)
    requires IsClimb(s, n, a) && IsClimb(s, n, b)
    ensures a == b
    decreases |a|
  {
    if a != [] {
      ClimbUnique(s, a[0], a[1..], b[1..]);
      assert a == [a[0]] + a[1..] && b == [b[0]] + b[1..];
    }
  }

  /** Then the frames appended are those of the way up as it was, unless it meets the chain. */
  lemma ChoseExtension(mid: seq<Node>, s: seq<Node>, used: nat, index: map<Key, nat>, rank: seq<nat>, tid: nat,
                       ips: seq<u64>, sps: seq<u64>, chain: seq<nat>, matched: nat, ext: seq<nat>)
    requires Linking(mid, s, used, index, tid, ips, sps, chain) && Ranked(mid, used, rank) && |chain| > 0
    requires Chose(s, chain, CanExtend(mid, chain, matched), ext)
    ensures IsExtension(mid, chain, matched, ext)
  {
    ChainLength(ips, sps);
    HoldsFrame(mid, used, tid, ips, sps, chain, |chain| - 1);
    hide IsClimb, KeysOk, ChainLinked, Rising, Holds, OfThread, GoodChain, CanExtend, Clear, Unnoticed;
    var c := FullClimb(mid, used, rank, Top(chain));
    if Apart(c, chain) {
      PassingClear(mid, s, used, index, tid, ips, sps, chain, c);
      if CanExtend(mid, chain, matched) {
        ClimbUnique(s, Top(chain), c, ext);
      }
    } else {
      MeetingNotClear(mid, s, used, index, tid, ips, sps, chain, c);
    }
    assert ext == Chosen(mid, chain, matched, c);
  }

  // ------------------------------------------------------------------ stack order

  lemma LatestAt(s: seq<Node>, used: nat, index: map<Key, nat>, tid: nat, ips: seq<u64>, sps: seq<u64>, chain: seq<nat>, x: nat)
    requires Latest(s, used, index, tid, ips, sps, chain) && x in chain
    ensures 1 <= x <= used < |s| && s[x].sp == sps[LastPos(chain, x)]
  {
    hide LastPos;
    assert KeyOf(s[x]) == Key(tid, ips[LastPos(chain, x)], sps[LastPos(chain, x)]);
  }

  lemma LatestKept(s: seq<Node>, s': seq<Node>, used: nat, index: map<Key, nat>, tid: nat, ips: seq<u64>, sps: seq<u64>, chain: seq<nat>)
    requires Latest(s, used, index, tid, ips, sps, chain) && |s'| == |s| && forall x: nat :: x < |s| ==> KeyOf(s'[x]) == KeyOf(s[x])
    ensures Latest(s', used, index, tid, ips, sps, chain)
  {
    hide LastPos;
  }

  /** No parent is lower after the call than its child: a chain node's parent has a later place in the chain. */
  lemma ExtendedRising(mid: seq<Node>, s: seq<Node>, used: nat, index: map<Key, nat>, tid: nat, ips: seq<u64>, sps: seq<u64>,
                       chain: seq<nat>, ext: seq<nat>)
    requires Rising(mid, used) && Extended(mid, s, chain, ext)
    requires Latest(mid, used, index, tid, ips, sps, chain) && GoodChain(ips, sps) && |chain| == |ips|
    ensures Rising(s, used)
  {
    hide LastPos, IsClimb, Latest;
    forall n: nat | 1 <= n <= used && 0 < s[n].parent <= used ensures s[n].sp <= s[s[n].parent].sp {
      var p := s[n].parent;
      assert KeyOf(s[n]) == KeyOf(mid[n]) && KeyOf(s[p]) == KeyOf(mid[p]);
      if n in chain && n != Top(chain) {
        var i := LastPos(chain, n);
        assert p == chain[i + 1] && p in chain;
        LatestAt(mid, used, index, tid, ips, sps, chain, n);
        LatestAt(mid, used, index, tid, ips, sps, chain, p);
        assert LastPos(chain, p) >= i + 1;
      } else if n == Top(chain) {
        FirstOfClimb(mid, n, ext);
      }
    }
  }

  lemma FirstOfClimb(s: seq<Node>, n: nat, c: seq<nat>)
    requires IsClimb(s, n, c) && c != []
    ensures s[n].parent == c[0]
  {
  }

  lemma {:induction false} AscentOrder(s: seq<Node>, used: nat, rank: seq<nat>, n: nat, ext: seq<nat>, j: nat, k: nat)
    requires Ascends(s, n, ext) && ParentsOk(s, used) && Rising(s, used) && Ranked(s, used, rank) && 1 <= n <= used && j < k < |ext|
    ensures 1 <= ext[j] <= used && 1 <= ext[k] <= used
    ensures s[ext[j]].sp <= s[ext[k]].sp && rank[ext[j]] < rank[ext[k]]
  {
    AscentRises(s, used, n, ext, k);
    AscentRises(s, used, n, ext, k - 1);
    if j < k - 1 {
      AscentOrder(s, used, rank, n, ext, j, k - 1);
    }
  }

  /** A frame appended is none of the chain's: those that are cached are cached in the chain. */
  lemma NewFrame(s: seq<Node>, used: nat, index: map<Key, nat>, tid: nat, ips: seq<u64>, sps: seq<u64>, chain: seq<nat>, j: nat, n: nat)
    requires Latest(s, used, index, tid, ips, sps, chain) && |chain| == |ips| && KeysOk(s, used, index, 0)
    requires j < |ips| && 1 <= n <= used && n !in chain && s[n].tid == tid
    ensures s[n].ip != ips[j] || s[n].sp != sps[j]
  {
    hide LastPos;
    assert KeyOf(s[n]) in index && index[KeyOf(s[n])] == n;
  }

  lemma DifferentFrames(s: seq<Node>, used: nat, index: map<Key, nat>, a: nat, b: nat)
    requires KeysOk(s, used, index, 0) && 1 <= a <= used && 1 <= b <= used && a != b
    ensures s[a].tid != s[b].tid || s[a].ip != s[b].ip || s[a].sp != s[b].sp
  {
  }

  /** The frame at place k behind another at place j: not lower, and not the same. */
  lemma BehindIsGood(s: seq<Node>, used: nat, index: map<Key, nat>, rank: seq<nat>, tid: nat, ips: seq<u64>, sps: seq<u64>,
                     chain: seq<nat>, ext: seq<nat>, ips': seq<u64>, sps': seq<u64>, j: nat, k: nat)
    requires Latest(s, used, index, tid, ips, sps, chain) && GoodChain(ips, sps) && |chain| == |ips|
    requires KeysOk(s, used, index, 0) && ParentsOk(s, used) && Rising(s, used) && Ranked(s, used, rank)
    requires Ascends(s, Top(chain), ext) && Apart(ext, chain) && OfThread(s, used, tid, chain)
    requires Appended(s, ips, sps, ext, ips', sps') && j < k < |ips'|
    ensures sps'[j] <= sps'[k] && (ips'[j] != ips'[k] || sps'[j] != sps'[k])
  {
    hide LastPos, Latest, KeysOk, ParentsOk, Rising, Ranked, Ascends, OfThread;
    var m := |ips|;
    if k < m {
      assert ips'[j] == ips[j] && ips'[k] == ips[k] && sps'[j] == sps[j] && sps'[k] == sps[k];
    } else {
      ThreadNodes(s, used, tid, chain);
      AscentThread(s, used, Top(chain), ext, k - m);
      AscentRises(s, used, Top(chain), ext, k - m);
      assert ext[k - m] in ext;
      assert ips'[m + (k - m)] == s[ext[k - m]].ip && sps'[m + (k - m)] == s[ext[k - m]].sp;
      if j < m {
        assert ips'[j] == ips[j] && sps'[j] == sps[j];
        LastPosIs(chain, Top(chain), |chain| - 1);
        LatestAt(s, used, index, tid, ips, sps, chain, Top(chain));
        NewFrame(s, used, index, tid, ips, sps, chain, j, ext[k - m]);
      } else {
        assert ips'[m + (j - m)] == s[ext[j - m]].ip && sps'[m + (j - m)] == s[ext[j - m]].sp;
        AscentThread(s, used, Top(chain), ext, j - m);
        AscentOrder(s, used, rank, Top(chain), ext, j - m, k - m);
        DifferentFrames(s, used, index, ext[j - m], ext[k - m]);
      }
    }
  }

  /** What AddCallChain returns can be fed to AddCallChain again. */
  lemma ExtendedIsGood(mid: seq<Node>, s: seq<Node>, used: nat, index: map<Key, nat>, rank: seq<nat>, tid: nat,
                       ips: seq<u64>, sps: seq<u64>, chain: seq<nat>, ext: seq<nat>, ips': seq<u64>, sps': seq<u64>)
    requires Latest(s, used, index, tid, ips, sps, chain) && GoodChain(ips, sps) && |chain| == |ips|
    requires KeysOk(s, used, index, 0) && ParentsOk(s, used) && Rising(s, used) && Ranked(s, used, rank)
    requires Extended(mid, s, chain, ext) && OfThread(s, used, tid, chain) && Appended(s, ips, sps, ext, ips', sps')
    ensures GoodChain(ips', sps')
  {
    hide LastPos, Latest, KeysOk, ParentsOk, Rising, Ranked, Ascends, OfThread, Extended, Apart, Appended;
    ExtendedAscends(mid, s, chain, ext);
    AppendedLength(s, ips, sps, ext, ips', sps');
    ChainLength(ips, sps);
    forall j, k | 0 <= j < k < |ips'| ensures sps'[j] <= sps'[k] && (ips'[j] != ips'[k] || sps'[j] != sps'[k]) {
      BehindIsGood(s, used, index, rank, tid, ips, sps, chain, ext, ips', sps', j, k);
    }
  }

  /** The frames on the way from the first node of the chain up to a root of the cache. */
  ghost predicate IsCachedPath(s: seq<Node>, used: nat, tid: nat, ips: seq<u64>, sps: seq<u64>, path: seq<nat>)
  {
    && Holds(s, used, tid, ips, sps, path) && |path| == |ips| > 0
    && (forall j :: 0 <= j < |path| - 1 ==> s[path[j]].parent == path[j + 1])
    && s[path[|path| - 1]].parent == 0
  }

  lemma ExtendedAscends(mid: seq<Node>, s: seq<Node>, chain: seq<nat>, ext: seq<nat>)
    requires Extended(mid, s, chain, ext)
    ensures Ascends(s, Top(chain), ext) && Apart(ext, chain) && s[EndOf(Top(chain), ext)].parent == 0
  {
    if ext != [] {
      ClimbAscends(mid, Top(chain), ext, |ext|);
      assert ext[..|ext|] == ext;
      hide IsClimb, LastPos;
      assert forall k :: 0 <= k < |ext| ==> ext[k] in ext && ext[k] !in chain;
    }
  }

  lemma ExtendedPath(mid: seq<Node>, s: seq<Node>, used: nat, tid: nat, ips: seq<u64>, sps: seq<u64>, chain: seq<nat>, ext: seq<nat>)
    requires Extended(mid, s, chain, ext) && AllDistinct(chain) && Holds(s, used, tid, ips, sps, chain + ext) && |ips| == |chain + ext|
    ensures IsCachedPath(s, used, tid, ips, sps, chain + ext)
  {
    ExtendedAscends(mid, s, chain, ext);
    var m, path := |chain|, chain + ext;
    hide IsClimb, LastPos;
    forall j | 0 <= j < |path| - 1 ensures s[path[j]].parent == path[j + 1] {
      if j < m - 1 {
        LastPosIs(chain, chain[j], j);
        assert chain[j] in chain && chain[j] != Top(chain);
      } else if j == m - 1 {
        assert path[j] == Top(chain) && path[j + 1] == ext[0];
      } else {
        assert path[j] == ext[j - m] && path[j + 1] == ext[j - m + 1];
      }
    }
    assert path[|path| - 1] == EndOf(Top(chain), ext);
  }

  lemma {:induction false} AscentThread(s: seq<Node>, used: nat, n: nat, ext: seq<nat>, k: nat)
    requires Ascends(s, n, ext) && ParentsOk(s, used) && 1 <= n <= used && k < |ext|
    ensures 1 <= ext[k] <= used && s[ext[k]].tid == s[n].tid
  {
    if k > 0 {
      AscentThread(s, used, n, ext, k - 1);
    }
  }

  lemma AppendedHolds(s: seq<Node>, used: nat, tid: nat, ips: seq<u64>, sps: seq<u64>, chain: seq<nat>,
                      ext: seq<nat>, ips': seq<u64>, sps': seq<u64>)
    requires Holds(s, used, tid, ips, sps, chain) && |chain| == |ips| > 0 && ParentsOk(s, used)
    requires Ascends(s, Top(chain), ext) && Appended(s, ips, sps, ext, ips', sps')
    ensures Holds(s, used, tid, ips', sps', chain + ext)
  {
    HoldsFrame(s, used, tid, ips, sps, chain, |chain| - 1);
    var path := chain + ext;
    forall j | 0 <= j < |path| ensures 1 <= path[j] <= used && KeyOf(s[path[j]]) == Key(tid, ips'[j], sps'[j]) {
      if j >= |chain| {
        AscentThread(s, used, Top(chain), ext, j - |chain|);
      } else {
        HoldsFrame(s, used, tid, ips, sps, chain, j);
        assert ips'[j] == ips[j] && sps'[j] == sps[j];
      }
    }
  }

  lemma AppendedKept(s: seq<Node>, s': seq<Node>, ips: seq<u64>, sps: seq<u64>, ext: seq<nat>, ips': seq<u64>, sps': seq<u64>)
    requires Appended(s, ips, sps, ext, ips', sps') && |s'| == |s| && forall x: nat :: x < |s| ==> KeyOf(s'[x]) == KeyOf(s[x])
    ensures Appended(s', ips, sps, ext, ips', sps')
  {
    forall k | 0 <= k < |ext| ensures ips'[|ips| + k] == s'[ext[k]].ip && sps'[|sps| + k] == s'[ext[k]].sp {
      assert KeyOf(s'[ext[k]]) == KeyOf(s[ext[k]]);
    }
  }

  // ------------------------------------------------------------------- AddCallChain

  /** Steps two to four, once every frame has a node. */
  method JoinChain(cache: LRUCache, tid: nat, ips: seq<u64>, sps: seq<u64>, chain: seq<nat>)
    returns (ips': seq<u64>, sps': seq<u64>, ghost ext: seq<nat>, ghost linked: seq<Node>)
    requires cache.Valid() && cache.matched >= 1 && |ips| == |sps| && |chain| > 0
    requires OfThread(cache.nodes[..], cache.used, tid, chain)
    modifies cache.nodes, cache`order
    ensures cache.Sound() && OfThread(linked, cache.used, tid, chain) && OfThread(cache.nodes[..], cache.used, tid, chain)
    ensures ChainLinked(old(cache.nodes[..]), linked, chain, |chain| - 1)
    ensures Chose(linked, chain, CanExtend(old(cache.nodes[..]), chain, cache.matched), ext)
    ensures Extended(old(cache.nodes[..]), cache.nodes[..], chain, ext) && Appended(cache.nodes[..], ips, sps, ext, ips', sps')
  {
    hide SoundCache, OfThread, ChainLinked, Ranked, CanExtend, Extended, Appended, Chose;
    ghost var mid := cache.nodes[..];
    ThreadNodes(mid, cache.used, tid, chain);
    var can := MayExtend(cache, chain);
    LinkChain(cache, tid, chain);
    linked := cache.nodes[..];
    ips', sps', ext := Extend(cache, tid, ips, sps, chain, can, mid);
    SameKeys(mid, linked, cache.nodes[..], chain, ext);
    AppendedKept(linked, cache.nodes[..], ips, sps, ext, ips', sps');
    ThreadKept(linked, cache.nodes[..], cache.used, tid, chain);
  }

  lemma SameKeys(mid: seq<Node>, linked: seq<Node>, s: seq<Node>, chain: seq<nat>, ext: seq<nat>)
    requires |chain| > 0 && ChainLinked(mid, linked, chain, |chain| - 1) && Extended(mid, s, chain, ext)
    ensures |s| == |linked| == |mid|
    ensures forall x: nat :: x < |s| ==> KeyOf(s[x]) == KeyOf(linked[x]) == KeyOf(mid[x])
  {
    hide IsClimb, LastPos;
  }

  /** What a chain of distinct nodes that hold its frames gives. */
  ghost predicate WellJoined(mid: seq<Node>, s: seq<Node>, used: nat, matched: nat, tid: nat, chain: seq<nat>, ext: seq<nat>,
                         ips': seq<u64>, sps': seq<u64>)
    requires |chain| > 0
  {
    && IsCachedPath(s, used, tid, ips', sps', chain + ext)
    && IsExtension(mid, chain, matched, ext)
    && |s| == |mid| && forall x: nat :: x < |mid| && x !in chain ==> s[x].parent == mid[x].parent
  }

  lemma JoinedFacts(mid: seq<Node>, linked: seq<Node>, s: seq<Node>, used: nat, index: map<Key, nat>, order: seq<nat>, rank: seq<nat>,
                    matched: nat, tid: nat, ips: seq<u64>, sps: seq<u64>, chain: seq<nat>, ext: seq<nat>, ips': seq<u64>, sps': seq<u64>)
    requires SoundCache(mid, used, index, order) && Ranked(mid, used, rank) && Rising(mid, used)
    requires Holds(mid, used, tid, ips, sps, chain) && GoodChain(ips, sps) && |chain| == |ips| > 0 && OfThread(linked, used, tid, chain)
    requires ChainLinked(mid, linked, chain, |chain| - 1) && Chose(linked, chain, CanExtend(mid, chain, matched), ext)
    requires Extended(mid, s, chain, ext) && Appended(s, ips, sps, ext, ips', sps')
    requires ParentsOk(s, used)
    ensures WellJoined(mid, s, used, matched, tid, chain, ext, ips', sps')
  {
    hide SoundCache, Holds, GoodChain, ParentsOk, KeysOk, Forest, Ranked, Rising, ChainLinked, Chose, CanExtend,
         Extended, Appended, OfThread, IsCachedPath, IsExtension, NewRank, Ascends, Apart, AllDistinct;
    SoundParts(mid, used, index, order);
    SameKeys(mid, linked, s, chain, ext);
    HoldsKept(mid, linked, used, tid, ips, sps, chain);
    HoldsKept(mid, s, used, tid, ips, sps, chain);
    KeysKept(mid, linked, used, index);
    ChoseExtension(mid, linked, used, index, rank, tid, ips, sps, chain, matched, ext);
    ExtendedAscends(mid, s, chain, ext);
    DistinctNodes(mid, used, tid, ips, sps, chain);
    AppendedHolds(s, used, tid, ips, sps, chain, ext, ips', sps');
    AppendedLength(s, ips, sps, ext, ips', sps');
    ExtendedPath(mid, s, used, tid, ips', sps', chain, ext);
    OthersKept(mid, s, chain, ext);
  }

  lemma JoinedExtension(mid: seq<Node>, s: seq<Node>, used: nat, matched: nat, tid: nat, chain: seq<nat>, ext: seq<nat>,
                        ips': seq<u64>, sps': seq<u64>)
    requires |chain| > 0 && WellJoined(mid, s, used, matched, tid, chain, ext, ips', sps')
    ensures IsExtension(mid, chain, matched, ext)
  {
    hide IsExtension, IsCachedPath;
  }

  lemma KeysKept(s: seq<Node>, s': seq<Node>, used: nat, index: map<Key, nat>)
    requires KeysOk(s, used, index, 0) && |s'| == |s| && forall x: nat :: x < |s| ==> KeyOf(s'[x]) == KeyOf(s[x])
    ensures KeysOk(s', used, index, 0)
  {
  }

  lemma OthersKept(mid: seq<Node>, s: seq<Node>, chain: seq<nat>, ext: seq<nat>)
    requires Extended(mid, s, chain, ext)
    ensures |s| == |mid| && forall x: nat :: x < |mid| && x !in chain ==> s[x].parent == mid[x].parent
  {
  }

  lemma AppendedLength(s: seq<Node>, ips: seq<u64>, sps: seq<u64>, ext: seq<nat>, ips': seq<u64>, sps': seq<u64>)
    requires Appended(s, ips, sps, ext, ips', sps')
    ensures ips <= ips' && sps <= sps' && |ips'| == |sps'| == |ips| + |ext|
  {
  }

  // ------------------------------------------------- the extension in the cache before

  /** The node of the last frame, as it was cached before the call, 0 if it was not. */
  ghost function LastNode(a: Snap, keys: seq<Key>): nat
  {
    if |keys| > 0 && keys[|keys| - 1] in a.index then a.index[keys[|keys| - 1]] else 0
  }

  /** The cache knew the last two frames, the one before the last as called by the last. */
  ghost predicate PairKnown(a: Snap, keys: seq<Key>)
  {
    && |keys| >= 2 && keys[|keys| - 2] in a.index && keys[|keys| - 1] in a.index
    && a.index[keys[|keys| - 2]] < |a.s| && a.s[a.index[keys[|keys| - 2]]].parent == a.index[keys[|keys| - 1]]
  }

  /**
   * Where an extension comes from, whatever the chain and the room: the last frame was cached, the
   * extension is the way up from it, and with a match count of two or more the cache knew the last two
   * frames as caller and callee.
   */
  ghost predicate CameFrom(a: Snap, keys: seq<Key>, matched: nat, ext: seq<nat>)
  {
    && |keys| >= matched && |keys| > 0 && keys[|keys| - 1] in a.index && IsClimb(a.s, LastNode(a, keys), ext)
    && (matched >= 2 ==> PairKnown(a, keys))
  }

  /** No node of c holds one of the frames. */
  ghost predicate Avoids(a: Snap, c: seq<nat>, keys: seq<Key>)
  {
    forall x :: x in c ==> x < |a.s| && KeyOf(a.s[x]) !in keys
  }

  /**
   * When a chain may be continued, by the cache before the call: it has as many frames as must match;
   * with a count of one its last frame is still cached when it is looked up; with more, the cache knew
   * the last two frames as callee and caller, and the callee is still cached when it is looked up.
   */
  ghost predicate MayContinue(a: Snap, keys: seq<Key>, matched: nat)
  {
    && |keys| >= matched && |keys| > 0
    && if matched <= 1 then Kept(a, keys, |keys| - 1) && keys[|keys| - 1] in a.index
       else PairKnown(a, keys) && Kept(a, keys, |keys| - 2)
  }

  /** The extension of a clean chain with room: the old way up from its last frame, if that avoids the chain, or nothing. */
  ghost predicate Continued(a: Snap, keys: seq<Key>, matched: nat, ext: seq<nat>)
  {
    if MayContinue(a, keys, matched)
    then exists c :: IsClimb(a.s, LastNode(a, keys), c) && ext == if Avoids(a, c, keys) then c else []
    else ext == []
  }

  /** A way up in the cache once the frames have nodes was the way up before, over the same frames. */
  lemma {:induction false} ClimbBack(a: Snap, b: Snap, n: nat, c: seq<nat>)
    requires Inherited(a, b) && IsClimb(b.s, n, c) && 1 <= n <= b.used && Unchanged(a, b, n) && ParentsOk(b.s, b.used)
    ensures IsClimb(a.s, n, c) && forall x :: x in c ==> 1 <= x <= b.used && Unchanged(a, b, x)
    decreases |c|
  {
    if c != [] {
      assert Unchanged(a, b, b.s[n].parent);
      ClimbBack(a, b, c[0], c[1..]);
      assert c == [c[0]] + c[1..];
    }
  }

  lemma LatestTop(s: seq<Node>, used: nat, index: map<Key, nat>, tid: nat, ips: seq<u64>, sps: seq<u64>, chain: seq<nat>)
    requires Latest(s, used, index, tid, ips, sps, chain) && |chain| == |ips| > 0
    ensures 1 <= Top(chain) <= used && KeyOf(s[Top(chain)]) == Frames(tid, ips, sps)[|ips| - 1]
  {
    hide LastPos;
    LastPosIs(chain, Top(chain), |chain| - 1);
  }

  lemma LatestSecond(s: seq<Node>, used: nat, index: map<Key, nat>, tid: nat, ips: seq<u64>, sps: seq<u64>, chain: seq<nat>)
    requires Latest(s, used, index, tid, ips, sps, chain) && |chain| == |ips| >= 2 && chain[|chain| - 2] != Top(chain)
    ensures 1 <= chain[|chain| - 2] <= used && KeyOf(s[chain[|chain| - 2]]) == Frames(tid, ips, sps)[|ips| - 2]
  {
    hide LastPos;
    LastPosIs(chain, chain[|chain| - 2], |chain| - 2);
  }

  /** A node that is unchanged is the one that was found by its frame. */
  lemma WasIndexed(a: Snap, b: Snap, m: nat)
    requires KeysOk(a.s, a.used, a.index, 0) && Unchanged(a, b, m) && m >= 1
    ensures KeyOf(b.s[m]) in a.index && a.index[KeyOf(b.s[m])] == m
  {
  }

  lemma ExtensionCameFrom(a: Snap, b: Snap, rank: seq<nat>, linked: seq<Node>, s: seq<Node>, tid: nat, ips: seq<u64>, sps: seq<u64>,
                          chain: seq<nat>, matched: nat, ext: seq<nat>)
    requires SnapOk(a) && SnapOk(b) && Inherited(a, b) && Ranked(b.s, b.used, rank)
    requires Latest(b.s, b.used, b.index, tid, ips, sps, chain) && |chain| == |ips| == |sps| > 0
    requires Chose(linked, chain, CanExtend(b.s, chain, matched), ext) && Extended(b.s, s, chain, ext) && ext != []
    ensures CameFrom(a, Frames(tid, ips, sps), matched, ext)
    ensures forall x :: x in ext ==> Unchanged(a, b, x)
  {
    hide SnapOk, KeysOk, LastPos, Forest, Latest, Extended, IsClimb, Unchanged, Inherited, PairKnown, ParentsOk,
         Ranked, Clear, Unnoticed;
    SnapSound(a);
    SnapSound(b);
    LatestTop(b.s, b.used, b.index, tid, ips, sps, chain);
    var top := Top(chain);
    ExtendedClimb(b.s, s, chain, ext);
    ClimbHead(b.s, top, ext);
    HasParent(a, b, top);
    ClimbBack(a, b, top, ext);
    WasIndexed(a, b, top);
    if matched >= 2 {
      PairCameFrom(a, b, rank, tid, ips, sps, chain);
    }
  }

  lemma SnapSound(b: Snap)
    requires SnapOk(b)
    ensures KeysOk(b.s, b.used, b.index, 0) && ParentsOk(b.s, b.used)
  {
    hide Forest, KeysOk, ParentsOk;
  }

  lemma HasParent(a: Snap, b: Snap, m: nat)
    requires Inherited(a, b) && 1 <= m <= b.used && b.s[m].parent != 0
    ensures Unchanged(a, b, m) && Unchanged(a, b, b.s[m].parent)
  {
  }

  lemma ExtendedClimb(mid: seq<Node>, s: seq<Node>, chain: seq<nat>, ext: seq<nat>)
    requires Extended(mid, s, chain, ext) && ext != []
    ensures IsClimb(mid, Top(chain), ext)
  {
    hide LastPos;
  }

  lemma ClimbHead(s: seq<Node>, n: nat, c: seq<nat>)
    requires IsClimb(s, n, c) && c != []
    ensures c[0] != 0 && s[n].parent == c[0]
  {
  }

  /** The link that the second step finds was there before the call. */
  lemma PairCameFrom(a: Snap, b: Snap, rank: seq<nat>, tid: nat, ips: seq<u64>, sps: seq<u64>, chain: seq<nat>)
    requires KeysOk(a.s, a.used, a.index, 0) && Inherited(a, b) && Ranked(b.s, b.used, rank)
    requires Latest(b.s, b.used, b.index, tid, ips, sps, chain) && |chain| == |ips| == |sps| >= 2
    requires chain[|chain| - 2] < |b.s| && b.s[chain[|chain| - 2]].parent == chain[|chain| - 1]
    ensures PairKnown(a, Frames(tid, ips, sps))
  {
    hide KeysOk, LastPos, Latest;
    LatestTop(b.s, b.used, b.index, tid, ips, sps, chain);
    var second, top := chain[|chain| - 2], Top(chain);
    assert second != top;
    LatestSecond(b.s, b.used, b.index, tid, ips, sps, chain);
    assert Unchanged(a, b, second) && Unchanged(a, b, top);
    WasIndexed(a, b, top);
    WasIndexed(a, b, second);
  }

  // With room, exactly.

  lemma HoldsKey(s: seq<Node>, used: nat, index: map<Key, nat>, tid: nat, ips: seq<u64>, sps: seq<u64>, chain: seq<nat>, m: nat)
    requires Holds(s, used, tid, ips, sps, chain) && |chain| == |ips| && KeysOk(s, used, index, 0) && 1 <= m <= used
    ensures m in chain <==> KeyOf(s[m]) in Frames(tid, ips, sps)
    ensures forall j :: 0 <= j < |ips| ==> KeyOf(s[m]) == Frames(tid, ips, sps)[j] ==> chain[j] == m
  {
    var keys := Frames(tid, ips, sps);
    if m in chain {
      var j :| 0 <= j < |chain| && chain[j] == m;
      assert keys[j] == KeyOf(s[m]);
    }
    forall j | 0 <= j < |ips| && KeyOf(s[m]) == keys[j] ensures chain[j] == m {
      assert KeyOf(s[chain[j]]) == keys[j];
    }
  }

  lemma AvoidsIsApart(a: Snap, b: Snap, tid: nat, ips: seq<u64>, sps: seq<u64>, chain: seq<nat>, c: seq<nat>)
    requires Holds(b.s, b.used, tid, ips, sps, chain) && |chain| == |ips| == |sps| && KeysOk(b.s, b.used, b.index, 0)
    requires forall x :: x in c ==> 1 <= x <= b.used && Unchanged(a, b, x)
    ensures Avoids(a, c, Frames(tid, ips, sps)) <==> Apart(c, chain)
  {
    hide Holds, KeysOk;
    forall x | x in c ensures KeyOf(a.s[x]) in Frames(tid, ips, sps) <==> x in chain {
      HoldsKey(b.s, b.used, b.index, tid, ips, sps, chain, x);
    }
  }

  /** Each frame has its own node; a is the cache before the frames were looked up, b after. */
  ghost predicate Built(a: Snap, b: Snap, tid: nat, ips: seq<u64>, sps: seq<u64>, chain: seq<nat>)
  {
    && KeysOk(a.s, a.used, a.index, 0) && KeysOk(b.s, b.used, b.index, 0) && ParentsOk(b.s, b.used) && Inherited(a, b)
    && |chain| == |ips| == |sps| > 0
    && Holds(b.s, b.used, tid, ips, sps, chain) && NodesKept(a, b, Frames(tid, ips, sps), chain)
  }

  /** With a match count above one, the test of the second step finds a pair the cache knew and kept, */
  lemma FoundPair(a: Snap, b: Snap, tid: nat, ips: seq<u64>, sps: seq<u64>, chain: seq<nat>)
    requires |ips| == |sps| && Built(a, b, tid, ips, sps, chain) && |chain| == |ips| >= 2
    requires chain[|chain| - 2] < |b.s| && b.s[chain[|chain| - 2]].parent == Top(chain)
    ensures PairKnown(a, Frames(tid, ips, sps)) && Kept(a, Frames(tid, ips, sps), |chain| - 2)
  {
    hide KeysOk, Kept, Holds, Unchanged;
    var n := |chain|;
    PairFrames(b, tid, ips, sps, chain);
    var second, top := chain[n - 2], chain[n - 1];
    assert Unchanged(a, b, second) && Unchanged(a, b, top);
    WasIndexed(a, b, second);
    WasIndexed(a, b, top);
    UnchangedParent(a, b, second);
  }

  lemma UnchangedParent(a: Snap, b: Snap, m: nat)
    requires Unchanged(a, b, m)
    ensures m < |a.s| && m < |b.s| && b.s[m].parent == a.s[m].parent && KeyOf(b.s[m]) == KeyOf(a.s[m])
  {
  }

  lemma PairFrames(b: Snap, tid: nat, ips: seq<u64>, sps: seq<u64>, chain: seq<nat>)
    requires Holds(b.s, b.used, tid, ips, sps, chain) && |chain| == |ips| == |sps| >= 2
    ensures var keys, n := Frames(tid, ips, sps), |chain|;
            && 1 <= chain[n - 2] <= b.used < |b.s| && 1 <= chain[n - 1] <= b.used
            && KeyOf(b.s[chain[n - 2]]) == keys[n - 2] && KeyOf(b.s[chain[n - 1]]) == keys[n - 1]
  {
    HoldsFrame(b.s, b.used, tid, ips, sps, chain, |chain| - 1);
    HoldsFrame(b.s, b.used, tid, ips, sps, chain, |chain| - 2);
  }

  /** and it finds every such pair. */
  lemma KnownPair(a: Snap, b: Snap, tid: nat, ips: seq<u64>, sps: seq<u64>, chain: seq<nat>)
    requires |ips| == |sps| && Built(a, b, tid, ips, sps, chain) && |chain| == |ips| >= 2
    requires PairKnown(a, Frames(tid, ips, sps)) && Kept(a, Frames(tid, ips, sps), |chain| - 2)
    ensures LastNode(a, Frames(tid, ips, sps)) == Top(chain) && Unchanged(a, b, Top(chain))
    ensures chain[|chain| - 2] < |b.s| && b.s[chain[|chain| - 2]].parent == Top(chain)
  {
    hide KeysOk, Kept, Holds, Unchanged;
    var keys, n := Frames(tid, ips, sps), |chain|;
    PairFrames(b, tid, ips, sps, chain);
    var second, q := chain[n - 2], a.index[keys[n - 1]];
    IndexedNode(a, keys[n - 1]);
    assert b.s[second].parent == q;
    assert Unchanged(a, b, q);
    UnchangedParent(a, b, q);
    HoldsKey(b.s, b.used, b.index, tid, ips, sps, chain, q);
  }

  lemma PairTest(a: Snap, b: Snap, tid: nat, ips: seq<u64>, sps: seq<u64>, chain: seq<nat>, matched: nat)
    requires |ips| == |sps| && Built(a, b, tid, ips, sps, chain) && |chain| == |ips| > 0 && matched >= 2
    ensures CanExtend(b.s, chain, matched) <==> MayContinue(a, Frames(tid, ips, sps), matched)
    ensures MayContinue(a, Frames(tid, ips, sps), matched) ==> Unchanged(a, b, Top(chain)) && LastNode(a, Frames(tid, ips, sps)) == Top(chain)
  {
    hide Kept, Unchanged, PairKnown, Built, LastNode;
    if CanExtend(b.s, chain, matched) {
      FoundPair(a, b, tid, ips, sps, chain);
    }
    if MayContinue(a, Frames(tid, ips, sps), matched) {
      KnownPair(a, b, tid, ips, sps, chain);
    }
  }

  lemma IndexedNode(a: Snap, key: Key)
    requires KeysOk(a.s, a.used, a.index, 0) && key in a.index
    ensures 1 <= a.index[key] <= a.used < |a.s| && KeyOf(a.s[a.index[key]]) == key
  {
  }

  lemma TopKept(a: Snap, b: Snap, tid: nat, ips: seq<u64>, sps: seq<u64>, chain: seq<nat>)
    requires |ips| == |sps| && Built(a, b, tid, ips, sps, chain) && |chain| == |ips| > 0 && Top(chain) < |b.s|
    ensures var keys := Frames(tid, ips, sps);
            if Kept(a, keys, |keys| - 1)
            then keys[|keys| - 1] in a.index && Unchanged(a, b, Top(chain)) && LastNode(a, keys) == Top(chain)
            else b.s[Top(chain)].parent == 0
  {
    hide KeysOk, Kept, Holds;
    var keys, n := Frames(tid, ips, sps), |chain|;
    HoldsFrame(b.s, b.used, tid, ips, sps, chain, n - 1);
    assert KeyOf(b.s[chain[n - 1]]) == keys[n - 1];
    if Kept(a, keys, n - 1) {
      IndexedNode(a, keys[n - 1]);
    }
  }

  lemma ExtensionContinues(a: Snap, b: Snap, tid: nat, ips: seq<u64>, sps: seq<u64>, chain: seq<nat>, matched: nat, ext: seq<nat>)
    requires SnapOk(a) && SnapOk(b) && Inherited(a, b) && matched >= 1
    requires Holds(b.s, b.used, tid, ips, sps, chain) && |chain| == |ips| == |sps| > 0 && NodesKept(a, b, Frames(tid, ips, sps), chain)
    requires IsExtension(b.s, chain, matched, ext)
    ensures Continued(a, Frames(tid, ips, sps), matched, ext)
  {
    SnapSound(a);
    SnapSound(b);
    hide SnapOk, KeysOk, Holds, NodesKept, Inherited, Forest, Kept, IsClimb, Unchanged, CanExtend, Avoids, Apart,
         PairKnown, ParentsOk, LastNode;
    var keys, top := Frames(tid, ips, sps), Top(chain);
    var c :| IsClimb(b.s, top, c) && ext == Chosen(b.s, chain, matched, c);
    HoldsFrame(b.s, b.used, tid, ips, sps, chain, |chain| - 1);
    TopKept(a, b, tid, ips, sps, chain);
    if matched >= 2 {
      PairTest(a, b, tid, ips, sps, chain, matched);
    } else {
      OneMatches(b.s, chain);
    }
    if MayContinue(a, keys, matched) {
      ClimbBack(a, b, top, c);
      AvoidsIsApart(a, b, tid, ips, sps, chain, c);
    } else if matched <= 1 {
      RootClimb(b.s, top, c);
    }
  }

  /** The frames appended were in those nodes before the call. */
  lemma AppendedOld(a: Snap, b: Snap, s: seq<Node>, ips: seq<u64>, sps: seq<u64>, ext: seq<nat>, ips': seq<u64>, sps': seq<u64>)
    requires Appended(s, ips, sps, ext, ips', sps') && |s| == |b.s| && forall x: nat :: x < |s| ==> KeyOf(s[x]) == KeyOf(b.s[x])
    requires forall x :: x in ext ==> Unchanged(a, b, x)
    ensures Appended(a.s, ips, sps, ext, ips', sps')
  {
    forall k | 0 <= k < |ext| ensures ext[k] < |a.s| && ips'[|ips| + k] == a.s[ext[k]].ip && sps'[|sps| + k] == a.s[ext[k]].sp {
      assert ext[k] in ext && KeyOf(s[ext[k]]) == KeyOf(b.s[ext[k]]);
    }
  }

  lemma OneMatches(s: seq<Node>, chain: seq<nat>)
    requires |chain| > 0
    ensures CanExtend(s, chain, 1)
  {
  }

  lemma RootClimb(s: seq<Node>, n: nat, c: seq<nat>)
    requires IsClimb(s, n, c) && s[n].parent == 0
    ensures c == []
  {
  }

  /**
   * LRUCache::AddCallChain, for any chain on any cache without cycles. The cache stays valid: exact
   * lookup, exact child counts, childless nodes on the list, no cycle. The chain returned starts with
   * the frames given; each frame behind them is that of another node, all of the same thread. If all
   * parents were in stack order and the chain is clean, parents are in stack order again and the chain
   * returned is clean.
   *
   * What is appended was in the cache before: the frames on the way up from the last frame, which was
   * cached, and with a match count of two or more was known there as the caller of the frame before it.
   *
   * Each frame has its own node exactly if the cache had room for the frames. If so, the chain returned
   * is the cached path from its first frame up to a root, and the cache before the call decides what is
   * appended. `mid` is the node array once the frames have nodes.
   */
  method AddCallChain(cache: LRUCache, tid: nat, ips: seq<u64>, sps: seq<u64>)
    returns (ips': seq<u64>, sps': seq<u64>, ghost chain: seq<nat>, ghost ext: seq<nat>, ghost mid: seq<Node>)
    requires cache.Valid() && |ips| == |sps| > 0 && cache.matched >= 1
    modifies cache, cache.nodes
    ensures cache.Valid() && |chain| == |ips| && OfThread(cache.nodes[..], cache.used, tid, chain)
    ensures Extended(mid, cache.nodes[..], chain, ext) && Appended(cache.nodes[..], ips, sps, ext, ips', sps')
    ensures Appended(old(cache.nodes[..]), ips, sps, ext, ips', sps')
    ensures ext != [] ==> CameFrom(old(SnapOf(cache)), Frames(tid, ips, sps), cache.matched, ext)
    ensures GoodChain(ips, sps) && old(Rising(cache.nodes[..], cache.used)) ==>
              GoodChain(ips', sps') && Rising(cache.nodes[..], cache.used)
    ensures Distinct(Frames(tid, ips, sps)) ==> (AllDistinct(chain) <==> Roomy(old(SnapOf(cache)), Frames(tid, ips, sps)))
    ensures GoodChain(ips, sps) && old(Rising(cache.nodes[..], cache.used)) && Roomy(old(SnapOf(cache)), Frames(tid, ips, sps)) ==>
              && Since(old(cache.nodes[..]), old(cache.used), mid, cache.used, chain)
              && WellJoined(mid, cache.nodes[..], cache.used, cache.matched, tid, chain, ext, ips', sps')
              && Continued(old(SnapOf(cache)), Frames(tid, ips, sps), cache.matched, ext)
  {
    hide NodesKept, Inherited, CameFrom, Continued, IsExtension, IsCachedPath, SoundCache, Holds, GoodChain, Ranked,
         Extended, Appended, Since, WellJoined, NewRank, Roomy, Rising, OfThread, AllDistinct, Distinct, ChainLinked,
         Chose, CanExtend, KeysOk, ParentsOk, Forest, Latest;
    ghost var a := SnapOf(cache);
    var nodes := BuildChain(cache, tid, ips, sps);
    chain, mid := nodes, cache.nodes[..];
    ghost var rank, order := cache.rank, cache.order;
    ghost var b := SnapOf(cache);
    ghost var linked;
    ips', sps', ext, linked := JoinChain(cache, tid, ips, sps, nodes);
    ghost var s := cache.nodes[..];
    ExtendedRanked(mid, s, cache.used, rank, chain, ext);
    SoundParts(s, cache.used, cache.index, cache.order);
    SameKeys(mid, linked, s, chain, ext);
    if ext != [] {
      ExtensionCameFrom(a, b, rank, linked, s, tid, ips, sps, chain, cache.matched, ext);
    }
    AppendedOld(a, b, s, ips, sps, ext, ips', sps');
    if GoodChain(ips, sps) && old(Rising(cache.nodes[..], cache.used)) {
      ExtendedRising(mid, s, cache.used, cache.index, tid, ips, sps, chain, ext);
      LatestKept(mid, s, cache.used, cache.index, tid, ips, sps, chain);
      ExtendedIsGood(mid, s, cache.used, cache.index, NewRank(rank, chain, ext), tid, ips, sps, chain, ext, ips', sps');
    }
    if GoodChain(ips, sps) && old(Rising(cache.nodes[..], cache.used)) && Roomy(old(SnapOf(cache)), Frames(tid, ips, sps)) {
      FramesDistinct(tid, ips, sps);
      JoinedFacts(mid, linked, s, cache.used, cache.index, order, rank, cache.matched, tid, ips, sps, chain, ext, ips', sps');
      JoinedExtension(mid, s, cache.used, cache.matched, tid, chain, ext, ips', sps');
      ExtensionContinues(a, b, tid, ips, sps, chain, cache.matched, ext);
    }
    cache.rank := NewRank(rank, chain, ext);
  }

  /**
   * With an unused slot for every frame that is not cached, a chain is continued by the old way up
   * whenever the cache knew the frames that must match and that way avoids the chain.
   */
  lemma PlentyContinues(a: Snap, keys: seq<Key>, matched: nat, ext: seq<nat>, c: seq<nat>)
    requires SnapOk(a) && Distinct(keys) && Missing(a, keys, |keys|) <= Unused(a) && Continued(a, keys, matched, ext)
    requires |keys| >= matched && |keys| > 0 && keys[|keys| - 1] in a.index && (matched >= 2 ==> PairKnown(a, keys))
    requires IsClimb(a.s, LastNode(a, keys), c) && Avoids(a, c, keys)
    ensures ext == c
  {
    hide SnapOk, Distinct, Missing, IsClimb, Avoids, Kept, LastNode;
    CachedIsKept(a, keys, |keys| - 1);
    if matched >= 2 {
      CachedIsKept(a, keys, |keys| - 2);
    }
    var c' :| IsClimb(a.s, LastNode(a, keys), c') && ext == if Avoids(a, c', keys) then c' else [];
    ClimbUnique(a.s, LastNode(a, keys), c, c');
  }

  /**
   * Without such slots it need not be. The cache a, b, c and y of FullTree knows a as called by b, and b
   * as called by c; it has room for z, a, b. Yet that chain is not continued, because z takes the node
   * of a.
   */
  lemma KnownYetNotContinued(ext: seq<nat>)
    ensures var (a, keys) := (FullTree(), [Key(7, 0, 0), Key(7, 1, 1), Key(7, 2, 2)]);
            && SnapOk(a) && Rising(a.s, a.used) && Distinct(keys) && Roomy(a, keys)
            && PairKnown(a, keys) && IsClimb(a.s, LastNode(a, keys), [3]) && Avoids(a, [3], keys)
            && (Continued(a, keys, 2, ext) ==> ext == [])
  {
    hide SnapOk, Kept, Roomy, Distinct, Rising;
    RecycledTooEarly();
  }

  /** A chain that is wholly cached fits any cache, however full: only its first frame can be a leaf. */
  lemma CachedChainFits(a: Snap, tid: nat, ips: seq<u64>, sps: seq<u64>, path: seq<nat>)
    requires SnapOk(a) && IsCachedPath(a.s, a.used, tid, ips, sps, path)
    ensures Roomy(a, Frames(tid, ips, sps))
  {
    hide Linked;
    var keys := Frames(tid, ips, sps);
    assert forall j :: 0 <= j < |keys| ==> keys[j] in a.index && a.index[keys[j]] == path[j];
    forall j | 1 <= j < |keys| ensures Inner(a, keys[j]) {
      assert a.s[path[j - 1]].parent == path[j - 1 + 1];
      assert path[j - 1] in Kids(Parents(a.s, a.used), a.used, path[j]);
    }
    hide SnapOk, Kids;
    CachedCost(a, keys, |keys|);
  }
}
