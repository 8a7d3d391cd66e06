/**
 * The node array of LRUCache: a forest of call frames whose childless nodes hang on a doubly
 * linked list. A node's `link` is leaf_link_prev while it is a leaf and children_count while it
 * is not: the two share their storage. This module states what each primitive of
 * CallChainJoiner.h does to the array, with the list as a sequence and the parents as a
 * separate map, so that the moments when a child has left one parent and not yet joined
 * another can be described.
 */
module LruForest {
  import opened Common

  datatype Node = Node(ip: u64, sp: u64, tid: nat, isLeaf: bool, parent: nat, link: nat, next: nat)

  // -------------------------------------------------------- primitives on the array

  predicate LinksInRange(s: seq<Node>, n: nat)
  {
    n < |s| && s[n].link < |s| && s[n].next < |s|
  }

  /** RemoveNodeFromLRUList. */
  function Unlink(s: seq<Node>, n: nat): (r: seq<Node>)
    requires LinksInRange(s, n)
    ensures |r| == |s|
  {
    var prev, next := s[n].link, s[n].next;
    var s1 := s[prev := s[prev].(next := next)];
    s1[next := s1[next].(link := prev)]
  }

  /** AppendNodeToLRUList. */
  function Append(s: seq<Node>, n: nat): (r: seq<Node>)
    requires 0 < n < |s| && s[0].link < |s|
    ensures |r| == |s|
  {
    var prev := s[0].link;
    var s1 := s[n := s[n].(next := 0, link := prev)];
    var s2 := s1[prev := s1[prev].(next := n)];
    s2[0 := s2[0].(link := n)]
  }

  /** DecreaseChildCountOfNode. */
  function Decrease(s: seq<Node>, p: nat): (r: seq<Node>)
    requires 0 < p < |s| && s[p].link > 0 && s[0].link < |s|
    ensures |r| == |s|
  {
    if s[p].link - 1 == 0 then Append(s[p := s[p].(link := 0, isLeaf := true)], p)
    else s[p := s[p].(link := s[p].link - 1)]
  }

  /** The part of LinkParent that concerns the new parent. */
  function Attach(s: seq<Node>, p: nat): (r: seq<Node>)
    requires 0 < p < |s| && (s[p].isLeaf ==> LinksInRange(s, p))
    ensures |r| == |s|
  {
    if s[p].isLeaf then
      var s1 := Unlink(s, p);
      s1[p := s1[p].(isLeaf := false, link := 1)]
    else s[p := s[p].(link := s[p].link + 1)]
  }

  // ------------------------------------------------------------------ the LRU list

  /** The k-th element of the list; the sentinel 0 stands on both sides. */
  function At(order: seq<nat>, k: int): nat
  {
    if 0 <= k < |order| then order[k] else 0
  }

  ghost predicate Members(order: seq<nat>, used: nat)
  {
    && (forall k :: 0 <= k < |order| ==> 1 <= order[k] <= used)
    && (forall k, l :: 0 <= k < l < |order| ==> order[k] != order[l])
  }

  ghost predicate Linked(s: seq<Node>, order: seq<nat>)
  {
    && (forall k :: -1 <= k <= |order| ==> At(order, k) < |s|)
    && (forall k :: -1 <= k < |order| ==> s[At(order, k)].next == At(order, k + 1))
    && (forall k :: -1 <= k < |order| ==> s[At(order, k + 1)].link == At(order, k))
  }

  lemma WithoutAt(order: seq<nat>, i: nat, k: int)
    requires i < |order|
    ensures At(Without(order, i), k) == if k < i then At(order, k) else At(order, k + 1)
  {
  }

  lemma WithoutMembers(order: seq<nat>, used: nat, i: nat)
    requires i < |order| && Members(order, used)
    ensures Members(Without(order, i), used)
    ensures forall n :: n in Without(order, i) <==> n in order && n != order[i]
  {
    var w := Without(order, i);
    forall n | n in order && n != order[i] ensures n in w {
      var k :| 0 <= k < |order| && order[k] == n;
      assert w[if k < i then k else k - 1] == n;
    }
  }

  /** Which slots Unlink writes, and what. */
  lemma UnlinkEffect(s: seq<Node>, n: nat, x: nat)
    requires LinksInRange(s, n) && x < |s| && s[n].link != n && s[n].next != n
    ensures var r := Unlink(s, n);
            && r[x].next == (if x == s[n].link then s[n].next else s[x].next)
            && r[x].link == (if x == s[n].next then s[n].link else s[x].link)
            && r[x] == s[x].(next := r[x].next, link := r[x].link)
  {
  }

  lemma UnlinkLinked(s: seq<Node>, used: nat, order: seq<nat>, i: nat)
    requires i < |order| && Members(order, used) && Linked(s, order)
    ensures LinksInRange(s, order[i])
    ensures Linked(Unlink(s, order[i]), Without(order, i))
  {
    var n, w := order[i], Without(order, i);
    assert s[At(order, i)].next == At(order, i + 1);
    assert s[At(order, i - 1 + 1)].link == At(order, i - 1);
    var r := Unlink(s, n);
    forall k | -1 <= k <= |w| ensures At(w, k) < |r| {
      WithoutAt(order, i, k);
    }
    forall k | -1 <= k < |w|
      ensures r[At(w, k)].next == At(w, k + 1) && r[At(w, k + 1)].link == At(w, k)
    {
      WithoutAt(order, i, k);
      WithoutAt(order, i, k + 1);
      var a, b := At(w, k), At(w, k + 1);
      UnlinkEffect(s, n, a);
      UnlinkEffect(s, n, b);
    }
  }

  lemma SentinelLinks(s: seq<Node>, order: seq<nat>)
    requires Linked(s, order)
    ensures |s| > 0 && s[0].link == At(order, |order| - 1) < |s| && s[0].next == At(order, 0) < |s|
  {
    assert At(order, -1) == 0;
    assert s[At(order, |order| - 1 + 1)].link == At(order, |order| - 1);
  }

  lemma AppendEffect(s: seq<Node>, n: nat, x: nat)
    requires 0 < n < |s| && s[0].link < |s| && s[0].link != n && x < |s|
    ensures var r := Append(s, n);
            && r[x].next == (if x == n then 0 else if x == s[0].link then n else s[x].next)
            && r[x].link == (if x == n then s[0].link else if x == 0 then n else s[x].link)
            && r[x] == s[x].(next := r[x].next, link := r[x].link)
  {
  }

  lemma AppendLinked(s: seq<Node>, used: nat, order: seq<nat>, n: nat)
    requires Members(order, used) && Linked(s, order) && 0 < n < |s| && n !in order
    ensures s[0].link < |s| && s[0].link != n
    ensures Linked(Append(s, n), order + [n])
  {
    var m := |order|;
    SentinelLinks(s, order);
    var r, w := Append(s, n), order + [n];
    forall k | -1 <= k <= |w| ensures At(w, k) < |r| {
      assert At(w, k) == if k == m then n else At(order, k);
    }
    forall k | -1 <= k < |w|
      ensures r[At(w, k)].next == At(w, k + 1) && r[At(w, k + 1)].link == At(w, k)
    {
      var a, b := At(w, k), At(w, k + 1);
      assert a == if k == m then n else At(order, k);
      assert b == if k + 1 == m then n else At(order, k + 1);
      AppendEffect(s, n, a);
      AppendEffect(s, n, b);
    }
  }

  lemma AppendMembers(order: seq<nat>, used: nat, n: nat)
    requires Members(order, used) && 1 <= n <= used && n !in order
    ensures Members(order + [n], used)
  {
  }

  /** Fields other than the links do not matter to the list; nor do nodes off the list. */
  lemma LinkedKept(s: seq<Node>, r: seq<Node>, used: nat, order: seq<nat>)
    requires Members(order, used) && Linked(s, order) && |r| == |s|
    requires forall x :: 0 <= x < |s| && (x == 0 || x in order) ==> r[x].next == s[x].next && r[x].link == s[x].link
    ensures Linked(r, order)
  {
    assert forall k :: -1 <= k <= |order| ==> At(order, k) == 0 || At(order, k) in order;
  }

  // ---------------------------------------------------------------------- the forest

  /** The children of n: the used nodes whose parent it is. */
  ghost function Kids(par: seq<nat>, used: nat, n: nat): set<nat>
    requires used < |par|
  {
    set c: nat | 1 <= c <= used && par[c] == n
  }

  /** A node that is not a leaf counts its children; a leaf has none. */
  ghost predicate CountsOk(s: seq<Node>, used: nat, par: seq<nat>)
  {
    && used < |s| == |par|
    && forall n: nat :: 1 <= n <= used ==>
         if s[n].isLeaf then Kids(par, used, n) == {} else s[n].link == |Kids(par, used, n)| > 0
  }

  /** The list holds exactly the leaves, but for the one in `hole` (0 for none). */
  ghost predicate LeavesListed(s: seq<Node>, used: nat, order: seq<nat>, hole: nat)
  {
    && used < |s|
    && hole !in order
    && forall n: nat :: 1 <= n <= used && n != hole ==> (s[n].isLeaf <==> n in order)
  }

  ghost predicate Forest(s: seq<Node>, used: nat, order: seq<nat>, par: seq<nat>, hole: nat)
  {
    && CountsOk(s, used, par)
    && Members(order, used)
    && Linked(s, order)
    && LeavesListed(s, used, order, hole)
    && (1 <= hole <= used ==> s[hole].isLeaf)
  }

  /** Taking a leaf off the list. */
  lemma UnlinkForest(s: seq<Node>, used: nat, order: seq<nat>, par: seq<nat>, i: nat)
    requires Forest(s, used, order, par, 0) && i < |order|
    ensures LinksInRange(s, order[i])
    ensures Forest(Unlink(s, order[i]), used, Without(order, i), par, order[i])
  {
    var n := order[i];
    UnlinkLinked(s, used, order, i);
    WithoutMembers(order, used, i);
    assert s[At(order, i)].next == At(order, i + 1) && s[At(order, i - 1 + 1)].link == At(order, i - 1);
    var r := Unlink(s, n);
    forall x | 0 <= x < |s|
      ensures r[x].isLeaf == s[x].isLeaf && (x != 0 && x !in order ==> r[x].link == s[x].link)
    {
      UnlinkEffect(s, n, x);
    }
    hide Unlink, Linked, Kids;
  }

  /** Putting the leaf in the hole at the end of the list. */
  lemma AppendForest(s: seq<Node>, used: nat, order: seq<nat>, par: seq<nat>, n: nat)
    requires Forest(s, used, order, par, n) && 1 <= n <= used
    ensures s[0].link < |s|
    ensures Forest(Append(s, n), used, order + [n], par, 0)
  {
    AppendLinked(s, used, order, n);
    AppendMembers(order, used, n);
    SentinelLinks(s, order);
    var r := Append(s, n);
    forall x | 0 <= x < |s|
      ensures r[x].isLeaf == s[x].isLeaf && (x != 0 && x != n ==> r[x].link == s[x].link)
    {
      AppendEffect(s, n, x);
    }
    hide Append, Linked, Kids;
  }

  lemma KidsLeave(par: seq<nat>, used: nat, c: nat)
    requires 1 <= c <= used < |par| && par[c] != 0
    ensures forall n: nat :: n != 0 && n != par[c] ==> Kids(par[c := 0], used, n) == Kids(par, used, n)
    ensures Kids(par[c := 0], used, par[c]) == Kids(par, used, par[c]) - {c}
    ensures |Kids(par[c := 0], used, par[c])| == |Kids(par, used, par[c])| - 1
  {
    assert c in Kids(par, used, par[c]);
  }

  lemma KidsJoin(par: seq<nat>, used: nat, c: nat, p: nat)
    requires 1 <= c <= used < |par| && par[c] == 0 && p != 0
    ensures forall n: nat :: n != 0 && n != p ==> Kids(par[c := p], used, n) == Kids(par, used, n)
    ensures Kids(par[c := p], used, p) == Kids(par, used, p) + {c}
    ensures |Kids(par[c := p], used, p)| == |Kids(par, used, p)| + 1
  {
    assert c !in Kids(par, used, p);
  }

  /** The list after the parent p has lost a child: a parent without children is a leaf again. */
  function Freed(s: seq<Node>, order: seq<nat>, p: nat): seq<nat>
    requires p < |s|
  {
    if s[p].link == 1 then order + [p] else order
  }

  /** Child c leaves its parent. */
  lemma DecreaseForest(s: seq<Node>, used: nat, order: seq<nat>, par: seq<nat>, c: nat, hole: nat)
    requires Forest(s, used, order, par, hole) && 1 <= c <= used && 1 <= par[c] <= used
    ensures var p := par[c];
            && !s[p].isLeaf && s[p].link > 0 && p != hole && s[0].link < |s|
            && Forest(Decrease(s, p), used, Freed(s, order, p), par[c := 0], hole)
  {
    var p := par[c];
    KidsLeave(par, used, c);
    assert c in Kids(par, used, p);
    assert !s[p].isLeaf && p !in order;
    SentinelLinks(s, order);
    hide Append, Linked, Kids;
    var r := Decrease(s, p);
    if s[p].link == 1 {
      var s1 := s[p := s[p].(link := 0, isLeaf := true)];
      LinkedKept(s, s1, used, order);
      AppendLinked(s1, used, order, p);
      AppendMembers(order, used, p);
      forall x | 0 <= x < |s|
        ensures r[x].isLeaf == s1[x].isLeaf && (x != 0 && x != p ==> r[x].link == s[x].link)
      {
        AppendEffect(s1, p, x);
      }
    } else {
      LinkedKept(s, r, used, order);
    }
  }

  /** Child c, an orphan, joins p. */
  lemma AttachForest(s: seq<Node>, used: nat, order: seq<nat>, par: seq<nat>, c: nat, p: nat) returns (order': seq<nat>)
    requires Forest(s, used, order, par, 0) && 1 <= c <= used && par[c] == 0 && 1 <= p <= used
    ensures s[p].isLeaf ==> LinksInRange(s, p)
    ensures Forest(Attach(s, p), used, order', par[c := p], 0)
    ensures forall n: nat :: n in order' <==> n in order && n != p
    ensures order' == if s[p].isLeaf then order' else order
  {
    KidsJoin(par, used, c, p);
    if s[p].isLeaf {
      var i :| 0 <= i < |order| && order[i] == p;
      order' := Without(order, i);
      UnlinkForest(s, used, order, par, i);
      WithoutMembers(order, used, i);
      var s1 := Unlink(s, p);
      var r := s1[p := s1[p].(isLeaf := false, link := 1)];
      LinkedKept(s1, r, used, order');
      hide Unlink, Linked, Kids;
    } else {
      order' := order;
      var r := s[p := s[p].(link := s[p].link + 1)];
      LinkedKept(s, r, used, order);
      hide Linked, Kids;
    }
  }

  /** Moving a leaf to the end of the list, as GetNode does with one it finds. */
  lemma TouchForest(s: seq<Node>, used: nat, order: seq<nat>, par: seq<nat>, i: nat)
    requires Forest(s, used, order, par, 0) && i < |order|
    ensures LinksInRange(s, order[i]) && Unlink(s, order[i])[0].link < |s|
    ensures Forest(Append(Unlink(s, order[i]), order[i]), used, Without(order, i) + [order[i]], par, 0)
  {
    UnlinkForest(s, used, order, par, i);
    hide Forest, Append, Unlink;
    MemberBounds(s, used, order, par, 0, i);
    AppendForest(Unlink(s, order[i]), used, Without(order, i), par, order[i]);
  }

  lemma MemberBounds(s: seq<Node>, used: nat, order: seq<nat>, par: seq<nat>, hole: nat, i: nat)
    requires Forest(s, used, order, par, hole) && i < |order|
    ensures 1 <= order[i] <= used < |s|
  {
  }

  /** A slot never used before becomes a leaf outside the list. */
  lemma NewSlotForest(s: seq<Node>, used: nat, order: seq<nat>, par: seq<nat>, x: Node)
    requires Forest(s, used, order, par, 0) && used + 1 < |s| && x.isLeaf
    requires par[used + 1] == 0 && forall c: nat :: 1 <= c <= used ==> par[c] <= used
    ensures Forest(s[used + 1 := x], used + 1, order, par, used + 1)
  {
    var n := used + 1;
    forall m: nat | 1 <= m ensures Kids(par, n, m) == Kids(par, used, m) {
    }
    LinkedKept(s, s[n := x], used, order);
    assert Kids(par, n, n) == {};
    hide Linked, Kids;
  }

  /** Overwriting a leaf that is off the list and has no parent. */
  lemma RefillForest(s: seq<Node>, used: nat, order: seq<nat>, par: seq<nat>, n: nat, x: Node)
    requires Forest(s, used, order, par, n) && 1 <= n <= used && x.isLeaf
    ensures Forest(s[n := x], used, order, par, n)
  {
    LinkedKept(s, s[n := x], used, order);
    hide Linked, Kids;
  }

  // ------------------------------------------------------- what the primitives leave alone

  /** The frames and parents of all nodes are as before. */
  ghost predicate SameFrames(s: seq<Node>, r: seq<Node>)
  {
    && |r| == |s|
    && forall x :: 0 <= x < |s| ==>
         r[x].ip == s[x].ip && r[x].sp == s[x].sp && r[x].tid == s[x].tid && r[x].parent == s[x].parent
  }

  lemma UnlinkFrames(s: seq<Node>, n: nat)
    requires LinksInRange(s, n)
    ensures SameFrames(s, Unlink(s, n))
  {
  }

  lemma AppendFrames(s: seq<Node>, n: nat)
    requires 0 < n < |s| && s[0].link < |s|
    ensures SameFrames(s, Append(s, n))
  {
  }

  lemma DecreaseFrames(s: seq<Node>, p: nat)
    requires 0 < p < |s| && s[p].link > 0 && s[0].link < |s|
    ensures SameFrames(s, Decrease(s, p))
  {
    var s1 := s[p := s[p].(link := 0, isLeaf := true)];
    if s[p].link == 1 {
      AppendFrames(s1, p);
    }
    hide Append;
  }

  lemma AttachFrames(s: seq<Node>, p: nat)
    requires 0 < p < |s| && (s[p].isLeaf ==> LinksInRange(s, p))
    ensures SameFrames(s, Attach(s, p))
  {
    if s[p].isLeaf {
      UnlinkFrames(s, p);
    }
    hide Unlink;
  }
}
