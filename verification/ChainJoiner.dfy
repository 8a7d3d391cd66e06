/**
 * CallChainJoiner: cleaning and storing the incoming chains, the two passes over the temporary
 * files that extend them, and handing them out again.
 */
module ChainJoiner {
  import opened Common
  import opened LruForest
  import opened CallChainCache
  import opened ChainRoom
  import opened ChainKept
  import opened ChainExtension
  import opened ChainFiles

  const ORIGINAL_OFFLINE: nat := 0
  const ORIGINAL_REMOTE: nat := 1
  const JOINED_OFFLINE: nat := 2
  const JOINED_REMOTE: nat := 3

  // ------------------------------------------------------------------ cleaning

  /**
   * The loop of AddCallChain that decides how much of a chain to keep: its longest beginning with
   * non-decreasing stack pointers and no frame twice.
   */
  method CleanLength(ips: seq<u64>, sps: seq<u64>) returns (n: nat)
    requires |ips| == |sps| > 0
    ensures 1 <= n <= |ips| && GoodChain(ips[..n], sps[..n])
    ensures n < |ips| ==> !GoodChain(ips[..n + 1], sps[..n + 1])
  {
    n := 1;
    while n < |ips|
      invariant 1 <= n <= |ips| && GoodChain(ips[..n], sps[..n])
    {
      if sps[n] < sps[n - 1] {
        assert ips[..n + 1][n] == ips[n] && sps[..n + 1][n] == sps[n] && sps[..n + 1][n - 1] == sps[n - 1];
        return;
      } else if sps[n] == sps[n - 1] {
        var twice := HasDuplicate(ips, sps, n);
        if twice {
          Duplicated(ips, sps, n);
          return;
        }
      }
      Longer(ips, sps, n);
      n := n + 1;
    }
  }

  /** Looking back over the frames with the same stack pointer is enough to find a frame that came before. */
  method HasDuplicate(ips: seq<u64>, sps: seq<u64>, i: nat) returns (found: bool)
    requires i < |ips| == |sps| && (forall j, k :: 0 <= j < k <= i ==> sps[j] <= sps[k])
    ensures found <==> exists j :: 0 <= j < i && ips[j] == ips[i] && sps[j] == sps[i]
  {
    var j := i;
    while j > 0 && sps[j - 1] == sps[i]
      invariant 0 <= j <= i
      invariant forall k :: j <= k < i ==> sps[k] == sps[i] && ips[k] != ips[i]
    {
      if ips[j - 1] == ips[i] {
        return true;
      }
      j := j - 1;
    }
    return false;
  }

  lemma Duplicated(ips: seq<u64>, sps: seq<u64>, n: nat)
    requires n < |ips| == |sps| && exists j :: 0 <= j < n && ips[j] == ips[n] && sps[j] == sps[n]
    ensures !GoodChain(ips[..n + 1], sps[..n + 1])
  {
    var j :| 0 <= j < n && ips[j] == ips[n] && sps[j] == sps[n];
    var a, b := ips[..n + 1], sps[..n + 1];
    assert a[j] == a[n] && b[j] == b[n];
  }

  lemma Longer(ips: seq<u64>, sps: seq<u64>, n: nat)
    requires 0 < n < |ips| == |sps| && GoodChain(ips[..n], sps[..n]) && sps[n - 1] <= sps[n]
    requires sps[n - 1] == sps[n] ==> !exists j :: 0 <= j < n && ips[j] == ips[n] && sps[j] == sps[n]
    ensures GoodChain(ips[..n + 1], sps[..n + 1])
  {
    var a, b, a0, b0 := ips[..n + 1], sps[..n + 1], ips[..n], sps[..n];
    forall i, j | 0 <= i < j < |b| ensures b[i] <= b[j] && (a[i] != a[j] || b[i] != b[j]) {
      assert b[i] == b0[i] && a[i] == a0[i] && b0[i] <= b0[n - 1] == sps[n - 1];
      if j < n {
        assert b[j] == b0[j] && a[j] == a0[j];
      }
    }
  }

  // ---------------------------------------------------------- stored chain lists

  /** What is stored in a chain file: every chain has frames and fits the format. */
  ghost predicate AllStored(cs: seq<Chain>)
  {
    forall i :: 0 <= i < |cs| ==> Storable(cs[i]) && |cs[i].ips| > 0
  }

  ghost predicate AllClean(cs: seq<Chain>)
  {
    forall i :: 0 <= i < |cs| ==> GoodChain(cs[i].ips, cs[i].sps)
  }

  lemma StoredLengths(cs: seq<Chain>)
    requires AllStored(cs)
    ensures forall i :: 0 <= i < |cs| ==> |cs[i].ips| == |cs[i].sps|
  {
  }

  ghost function Bytes(cs: seq<Chain>): seq<byte>
    requires AllStored(cs)
  {
    StoredLengths(cs);
    EncodeAll(cs)
  }

  lemma BytesStep(cs: seq<Chain>, c: Chain)
    requires AllStored(cs) && Storable(c) && |c.ips| > 0
    ensures AllStored(cs + [c]) && |c.ips| == |c.sps| && Bytes(cs + [c]) == Bytes(cs) + Encode(c)
  {
    hide Encode;
    var all := cs + [c];
    assert all[..|all| - 1] == cs;
    StoredLengths(all);
  }

  lemma BytesLast(cs: seq<Chain>)
    requires AllStored(cs) && |cs| > 0
    ensures var (init, c) := (cs[..|cs| - 1], cs[|cs| - 1]);
            AllStored(init) && |c.ips| == |c.sps| && Bytes(cs) == Bytes(init) + Encode(c)
  {
    hide Encode;
    assert cs == cs[..|cs| - 1] + [cs[|cs| - 1]];
    BytesStep(cs[..|cs| - 1], cs[|cs| - 1]);
  }

  /** The first i chains are the beginning of the file. */
  lemma {:induction false} BytesPrefix(cs: seq<Chain>, i: nat)
    requires AllStored(cs) && i <= |cs|
    ensures AllStored(cs[..i]) && Bytes(cs[..i]) <= Bytes(cs)
    decreases |cs|
  {
    hide Encode, EncodeAll;
    if i == |cs| {
      assert cs[..i] == cs;
    } else {
      BytesLast(cs);
      var init := cs[..|cs| - 1];
      BytesPrefix(init, i);
      assert init[..i] == cs[..i];
    }
  }

  // --------------------------------------------------------------- joining a chain

  ghost function UpTo(n: nat): (r: set<nat>)
    ensures |r| == n && forall x :: x in r <==> 1 <= x <= n
  {
    if n == 0 then {} else UpTo(n - 1) + {n}
  }

  /** Distinct numbers between 1 and `used` are at most `used` many. */
  lemma {:induction false} DistinctBounded(path: seq<nat>, used: nat, got: set<nat>)
    requires forall k :: 0 <= k < |path| ==> 1 <= path[k] <= used && path[k] !in got
    requires forall i, j :: 0 <= i < j < |path| ==> path[i] != path[j]
    requires got <= UpTo(used)
    ensures |path| + |got| <= used
  {
    hide UpTo;
    if path == [] {
      SubsetSize(got, UpTo(used));
    } else {
      DistinctBounded(path[1..], used, got + {path[0]});
    }
  }

  lemma {:induction false} AscentDistinct(s: seq<Node>, used: nat, rank: seq<nat>, n: nat, ext: seq<nat>, j: nat, k: nat)
    requires Ascends(s, n, ext) && ParentsOk(s, used) && Ranked(s, used, rank) && 1 <= n <= used && j < k < |ext|
    ensures 1 <= ext[j] <= used && 1 <= ext[k] <= used && rank[ext[j]] < rank[ext[k]]
  {
    AscentThread(s, used, n, ext, j);
    AscentThread(s, used, n, ext, k - 1);
    if j < k - 1 {
      AscentDistinct(s, used, rank, n, ext, j, k - 1);
    }
  }

  /** No more frames are appended than the cache has nodes. */
  lemma ExtensionFits(mid: seq<Node>, s: seq<Node>, used: nat, index: map<Key, nat>, order: seq<nat>, rank: seq<nat>,
                      tid: nat, chain: seq<nat>, ext: seq<nat>)
    requires SoundCache(s, used, index, order) && Ranked(s, used, rank)
    requires Extended(mid, s, chain, ext) && OfThread(s, used, tid, chain) && |chain| > 0
    ensures |ext| <= used < |s|
  {
    hide SoundCache, Ranked, Extended, Forest, KeysOk, ParentsOk, Ascends, OfThread;
    SoundParts(s, used, index, order);
    ExtendedAscends(mid, s, chain, ext);
    ThreadNodes(s, used, tid, chain);
    forall k | 0 <= k < |ext| ensures 1 <= ext[k] <= used {
      AscentThread(s, used, Top(chain), ext, k);
    }
    forall j, k | 0 <= j < k < |ext| ensures ext[j] != ext[k] {
      AscentDistinct(s, used, rank, Top(chain), ext, j, k);
    }
    DistinctBounded(ext, used, {});
  }

  function JoinedKind(kind: nat): nat
  {
    if kind == ORIGINAL_OFFLINE then JOINED_OFFLINE else if kind == ORIGINAL_REMOTE then JOINED_REMOTE else kind
  }

  /** The kind a pass gives the chains it writes. */
  function PassKind(pass: nat, kind: nat): nat
  {
    if pass == 0 then JoinedKind(kind) else kind
  }

  /** b is chain a, perhaps with more callers behind its frames. */
  ghost predicate Continues(a: Chain, b: Chain, kind: nat)
  {
    b.pid == a.pid && b.tid == a.tid && b.kind == kind && a.ips <= b.ips && a.sps <= b.sps
  }

  /**
   * y is what AddCallChain makes of x, and b what it makes of cache a: y is x with the frames of `ext`
   * behind it, the way up from the last frame that was in a, to the root where b has the chain end.
   * With room, a alone decides what is appended, and y is the path in b from its first frame to a root.
   */
  ghost predicate Makes(a: Snap, b: Snap, matched: nat, x: Chain, y: Chain, nodes: seq<nat>, ext: seq<nat>, mid: seq<Node>)
  {
    && |x.ips| == |x.sps| == |nodes| > 0 && SnapOk(b)
    && Extended(mid, b.s, nodes, ext) && Appended(b.s, x.ips, x.sps, ext, y.ips, y.sps)
    && Appended(a.s, x.ips, x.sps, ext, y.ips, y.sps)
    && (ext != [] ==> CameFrom(a, Frames(x.tid, x.ips, x.sps), matched, ext))
    && (GoodChain(x.ips, x.sps) && Rising(a.s, a.used) ==> GoodChain(y.ips, y.sps) && Rising(b.s, b.used))
    && (GoodChain(x.ips, x.sps) && Rising(a.s, a.used) && Roomy(a, Frames(x.tid, x.ips, x.sps)) ==>
          && Continued(a, Frames(x.tid, x.ips, x.sps), matched, ext)
          && IsCachedPath(b.s, b.used, x.tid, y.ips, y.sps, nodes + ext))
  }

  ghost predicate MadeFrom(a: Snap, b: Snap, matched: nat, x: Chain, y: Chain)
  {
    exists nodes, ext, mid :: Makes(a, b, matched, x, y, nodes, ext, mid)
  }

  lemma IsMade(a: Snap, b: Snap, matched: nat, x: Chain, y: Chain, nodes: seq<nat>, ext: seq<nat>, mid: seq<Node>)
    requires Makes(a, b, matched, x, y, nodes, ext, mid)
    ensures MadeFrom(a, b, matched, x, y)
  {
  }

  lemma PathOf(mid: seq<Node>, s: seq<Node>, used: nat, matched: nat, tid: nat, chain: seq<nat>, ext: seq<nat>,
               ips': seq<u64>, sps': seq<u64>)
    requires |chain| > 0 && WellJoined(mid, s, used, matched, tid, chain, ext, ips', sps')
    ensures IsCachedPath(s, used, tid, ips', sps', chain + ext)
  {
    hide IsExtension, IsCachedPath;
  }

  datatype JoinResult = Joined | TooLong | Failed

  function Total(cs: seq<Chain>): nat
  {
    if cs == [] then 0 else Total(cs[..|cs| - 1]) + |cs[|cs| - 1].ips|
  }

  function Longest(cs: seq<Chain>): nat
  {
    if cs == [] then 0 else Max(Longest(cs[..|cs| - 1]), |cs[|cs| - 1].ips|)
  }

  lemma ChainIsStored(a: Chain, c: Chain)
    requires Storable(a) && c.pid == a.pid && c.tid == a.tid && |c.ips| == |c.sps|
    requires c.kind == a.kind || c.kind == JoinedKind(a.kind)
    requires ChainSize(|c.ips|) < 0x8000_0000
    ensures Storable(c)
  {
  }

  /**
   * The body of the loop in JoinCallChains: one chain from the end of `src`, extended, to the end of
   * `dst`. The chain written is what AddCallChain makes of the one read and of the cache; it continues
   * the one read, by at most as many frames as the cache has nodes.
   * It is clean if the one read is and the cache is in stack order, as it then is again. It stops only
   * if the size of the longer chain does not fit an int.
   */
  method JoinOne(cache: LRUCache, src: TempFile, dst: TempFile, pass: nat, ghost todo: seq<Chain>, ghost done: seq<Chain>)
    returns (result: JoinResult, readLen: nat, len: nat, ghost c: Chain)
    requires src != dst && cache.Valid() && cache.matched >= 1
    requires AllStored(todo) && |todo| > 0 && AllStored(done)
    requires src.pos == |Bytes(todo)| <= |src.data| && src.data[..src.pos] == Bytes(todo)
    requires dst.data == Bytes(done) && dst.pos == |dst.data|
    modifies cache, cache.nodes, src`pos, dst
    ensures cache.Valid() && result != Failed
    ensures var last := todo[|todo| - 1];
            && readLen == |last.ips| && len == |c.ips| < readLen + cache.nodes.Length
            && Continues(last, c, PassKind(pass, last.kind))
            && MadeFrom(old(SnapOf(cache)), SnapOf(cache), cache.matched, last, c)
            && (result == TooLong <==> ChainSize(len) >= 0x8000_0000)
            && (GoodChain(last.ips, last.sps) && old(InOrder(cache)) ==> GoodChain(c.ips, c.sps) && InOrder(cache))
    ensures result == Joined ==>
              && Storable(c) && |c.ips| > 0
              && AllStored(todo[..|todo| - 1]) && src.pos == |Bytes(todo[..|todo| - 1])|
              && AllStored(done + [c]) && dst.data == Bytes(done + [c]) && dst.pos == |dst.data|
  {
    hide Encode, GoodChain, SoundCache, Ranked, Bytes, Extended, Appended, Storable, Roomy, Rising, OfThread,
         MadeFrom, CameFrom, Continued, WellJoined, IsCachedPath, Since;
    ghost var a := SnapOf(cache);
    ghost var last := todo[|todo| - 1];
    readLen, len, c := 0, 0, last;
    BytesLast(todo);
    var read := ReadCallChainInReverseOrder(src, Bytes(todo[..|todo| - 1]), last);
    if read.None? {
      return Failed, readLen, len, c;
    }
    var chain := read.value;
    var kind := PassKind(pass, chain.kind);
    var ips, sps, nodes, ext, mid := AddCallChain(cache, chain.tid, chain.ips, chain.sps);
    AppendedLength(cache.nodes[..], chain.ips, chain.sps, ext, ips, sps);
    ExtensionFits(mid, cache.nodes[..], cache.used, cache.index, cache.order, cache.rank, chain.tid, nodes, ext);
    var out := Chain(chain.pid, chain.tid, kind, ips, sps);
    c := out;
    if WellJoined(mid, cache.nodes[..], cache.used, cache.matched, chain.tid, nodes, ext, ips, sps) {
      PathOf(mid, cache.nodes[..], cache.used, cache.matched, chain.tid, nodes, ext, ips, sps);
    }
    IsMade(a, SnapOf(cache), cache.matched, last, c, nodes, ext, mid);
    readLen, len := |chain.ips|, |ips|;
    if ChainSize(len) >= 0x8000_0000 {
      return TooLong, readLen, len, c;
    }
    ChainIsStored(last, c);
    BytesStep(done, c);
    assert ips[..|ips|] == ips && sps[..|sps|] == sps;
    WriteCallChain(dst, out, |ips|);
    result := Joined;
  }

  /** Every parent in the cache is at least as high on the stack. */
  ghost predicate InOrder(cache: LRUCache)
    reads cache, cache.nodes
  {
    Rising(cache.nodes[..], cache.used)
  }

  /**
   * The chains of `done` are those at the end of `all`, last first, as one pass continues them, by at
   * most `most` frames each.
   */
  ghost predicate Reversed(all: seq<Chain>, done: seq<Chain>, pass: nat, most: nat)
  {
    && |done| <= |all|
    && forall i :: 0 <= i < |done| ==>
         && Continues(all[|all| - 1 - i], done[i], PassKind(pass, all[|all| - 1 - i].kind))
         && |done[i].ips| <= |all[|all| - 1 - i].ips| + most
  }

  lemma ReversedStep(all: seq<Chain>, done: seq<Chain>, c: Chain, pass: nat, most: nat)
    requires Reversed(all, done, pass, most) && |done| < |all|
    requires var a := all[|all| - 1 - |done|]; Continues(a, c, PassKind(pass, a.kind)) && |c.ips| <= |a.ips| + most
    ensures Reversed(all, done + [c], pass, most)
  {
    hide Continues;
  }

  /** Reading each file from its end twice brings the chains back in their order. */
  lemma TwoPasses(all: seq<Chain>, mid: seq<Chain>, out: seq<Chain>, most: nat)
    requires Reversed(all, mid, 0, most) && |mid| == |all| && Reversed(mid, out, 1, most) && |out| == |all|
    ensures forall i :: 0 <= i < |all| ==> Continues(all[i], out[i], JoinedKind(all[i].kind))
  {
    forall i | 0 <= i < |all| ensures Continues(all[i], out[i], JoinedKind(all[i].kind)) {
      var k := |all| - 1 - i;
      assert Continues(all[|all| - 1 - k], mid[k], PassKind(0, all[i].kind));
      assert Continues(mid[|mid| - 1 - i], out[i], PassKind(1, mid[k].kind));
    }
  }

  /** The cache before each chain of a pass and at its end; each chain and each cache made from the one before. */
  ghost predicate PassRun(snaps: seq<Snap>, matched: nat, all: seq<Chain>, done: seq<Chain>)
  {
    && |done| <= |all| && |snaps| == |done| + 1
    && forall i :: 0 <= i < |done| ==> MadeFrom(snaps[i], snaps[i + 1], matched, all[|all| - 1 - i], done[i])
  }

  lemma RunStart(snaps: seq<Snap>, matched: nat, all: seq<Chain>)
    requires |snaps| == 1
    ensures PassRun(snaps, matched, all, [])
  {
  }

  lemma RunStep(snaps: seq<Snap>, b: Snap, matched: nat, all: seq<Chain>, done: seq<Chain>, c: Chain)
    requires PassRun(snaps, matched, all, done) && |done| < |all| && |snaps| > 0
    requires MadeFrom(snaps[|snaps| - 1], b, matched, all[|all| - 1 - |done|], c)
    ensures PassRun(snaps + [b], matched, all, done + [c])
  {
    hide MadeFrom;
    var s, d := snaps + [b], done + [c];
    forall i | 0 <= i < |d| ensures MadeFrom(s[i], s[i + 1], matched, all[|all| - 1 - i], d[i]) {
      assert s[i] == snaps[i];
    }
  }

  /**
   * One pass: all `count` chains of `src`, from its end, extended into the empty file `dst`, each by
   * AddCallChain on what the chains before it have left of the cache. It keeps clean chains clean and
   * the cache in stack order.
   */
  method JoinPass(cache: LRUCache, src: TempFile, dst: TempFile, count: nat, pass: nat, ghost all: seq<Chain>)
    returns (result: JoinResult, ghost done: seq<Chain>, before: nat, total: nat, longest: nat, ghost snaps: seq<Snap>)
    requires src != dst && cache.Valid() && cache.matched >= 1 && AllStored(all) && |all| == count
    requires src.data == Bytes(all) && src.pos == |src.data| && dst.data == [] && dst.pos == 0
    modifies cache, cache.nodes, src`pos, dst
    ensures cache.Valid() && result != Failed
    ensures result == TooLong ==> exists c :: c in all && ChainSize(|c.ips| + cache.nodes.Length - 1) >= 0x8000_0000
    ensures result == Joined ==>
              && AllStored(done) && |done| == count && Reversed(all, done, pass, cache.nodes.Length - 1)
              && dst.data == Bytes(done) && dst.pos == |dst.data|
              && before == Total(all) && total == Total(done) && longest == Longest(done)
              && PassRun(snaps, cache.matched, all, done) && |snaps| == count + 1
              && snaps[0] == old(SnapOf(cache)) && snaps[count] == SnapOf(cache)
              && (AllClean(all) && old(InOrder(cache)) ==> AllClean(done) && InOrder(cache))
  {
    hide Bytes, GoodChain, SoundCache, Ranked, Reversed, Continues, AllStored, Total, Longest, Rising, AllClean,
         ChainSize, InOrder, PassRun, MadeFrom;
    done, before, total, longest, result, snaps := [], 0, 0, 0, Joined, [SnapOf(cache)];
    PassStart(all, pass, cache.nodes.Length - 1);
    RunStart(snaps, cache.matched, all);
    var i := 0;
    while i < count
      invariant i == |done| <= count && result == Joined && cache.Valid()
      invariant AllStored(done) && Reversed(all, done, pass, cache.nodes.Length - 1)
      invariant AllStored(all[..count - i]) && src.pos == |Bytes(all[..count - i])|
      invariant dst.data == Bytes(done) && dst.pos == |dst.data|
      invariant Total(all[..count - i]) + before == Total(all)
      invariant total == Total(done) && longest == Longest(done)
      invariant PassRun(snaps, cache.matched, all, done) && |snaps| == i + 1
      invariant snaps[0] == old(SnapOf(cache)) && snaps[i] == SnapOf(cache)
      invariant AllClean(all) && old(InOrder(cache)) ==> AllClean(done) && InOrder(cache)
    {
      ghost var todo := all[..count - i];
      BytesPrefix(all, count - i);
      ghost var c;
      var readLen: nat, len: nat;
      result, readLen, len, c := JoinOne(cache, src, dst, pass, todo, done);
      if result != Joined {
        TooLongFor(all, todo[|todo| - 1], len, cache.nodes.Length - 1);
        return;
      }
      PassStep(all, done, c, pass, cache.nodes.Length - 1);
      CleanStep(all, done, c);
      RunStep(snaps, SnapOf(cache), cache.matched, all, done, c);
      snaps := snaps + [SnapOf(cache)];
      before := before + readLen;
      total := total + len;
      longest := Max(longest, len);
      done := done + [c];
      i := i + 1;
    }
  }

  lemma TooLongFor(all: seq<Chain>, c: Chain, len: nat, most: nat)
    requires c in all && len <= |c.ips| + most && ChainSize(len) >= 0x8000_0000
    ensures exists c :: c in all && ChainSize(|c.ips| + most) >= 0x8000_0000
  {
  }

  /** One chain more, and what was known of the chains before. */
  lemma CleanStep(all: seq<Chain>, done: seq<Chain>, c: Chain)
    requires |done| < |all|
    ensures AllClean(all) ==> GoodChain(all[|all| - 1 - |done|].ips, all[|all| - 1 - |done|].sps)
    ensures AllClean(done) && GoodChain(c.ips, c.sps) ==> AllClean(done + [c])
  {
    hide GoodChain;
  }

  /** A chain written by the first pass continues one that was stored. */
  lemma TooLongAtFirst(all: seq<Chain>, mid: seq<Chain>, most: nat)
    requires Reversed(all, mid, 0, most) && exists c :: c in mid && ChainSize(|c.ips| + most) >= 0x8000_0000
    ensures exists c :: c in all && ChainSize(|c.ips| + 2 * most) >= 0x8000_0000
  {
    var b :| b in mid && ChainSize(|b.ips| + most) >= 0x8000_0000;
    var i :| 0 <= i < |mid| && mid[i] == b;
    var c := all[|all| - 1 - i];
    assert c in all && ChainSize(|c.ips| + 2 * most) >= 0x8000_0000;
  }

  lemma PassStart(all: seq<Chain>, pass: nat, most: nat)
    requires AllStored(all)
    ensures AllStored([]) && Bytes([]) == [] && Reversed(all, [], pass, most) && all[..|all|] == all
    ensures Total([]) == 0 && Longest([]) == 0 && Total(all[..0]) == 0 && AllClean([])
  {
    assert all[..|all|] == all;
  }

  lemma PassStep(all: seq<Chain>, done: seq<Chain>, c: Chain, pass: nat, most: nat)
    requires Reversed(all, done, pass, most) && |done| < |all|
    requires var a := all[|all| - 1 - |done|]; Continues(a, c, PassKind(pass, a.kind)) && |c.ips| <= |a.ips| + most
    ensures Reversed(all, done + [c], pass, most)
    ensures Total(done + [c]) == Total(done) + |c.ips| && Longest(done + [c]) == Max(Longest(done), |c.ips|)
    ensures var todo, rest := all[..|all| - |done|], all[..|all| - |done| - 1];
            && todo[..|todo| - 1] == rest && todo[|todo| - 1] == all[|all| - 1 - |done|]
            && Total(todo) == Total(rest) + |todo[|todo| - 1].ips|
  {
    hide Reversed, Continues;
    ReversedStep(all, done, c, pass, most);
    var todo := all[..|all| - |done|];
    assert todo[..|todo| - 1] == all[..|all| - |done| - 1];
    assert (done + [c])[..|done|] == done;
  }

  /**
   * Both passes from an empty cache: every chain of `mid` is made from one of `all`, the last first, and
   * every chain of `out` from one of `mid`, the last first, on the cache the first pass leaves.
   */
  ghost predicate JoinRun(maxNodes: nat, matched: nat, all: seq<Chain>, mid: seq<Chain>, out: seq<Chain>,
                          first: seq<Snap>, second: seq<Snap>)
  {
    && |all| == |mid| == |out| && PassRun(first, matched, all, mid) && PassRun(second, matched, mid, out)
    && |first| == |second| == |all| + 1
    && |first[0].s| == maxNodes + 1 && first[0].used == 0 && first[0].index == map[] && first[0].order == []
    && second[0] == first[|all|]
  }

  /** A pass over clean chains keeps every cache in stack order and every chain clean. */
  lemma {:induction false} RunClean(snaps: seq<Snap>, matched: nat, all: seq<Chain>, done: seq<Chain>, i: nat)
    requires PassRun(snaps, matched, all, done) && AllClean(all) && Rising(snaps[0].s, snaps[0].used) && i <= |done|
    ensures Rising(snaps[i].s, snaps[i].used) && forall k :: 0 <= k < i ==> GoodChain(done[k].ips, done[k].sps)
  {
    hide GoodChain, Extended, Appended, Rising, SnapOk, Roomy, CameFrom, Continued, IsCachedPath;
    if i > 0 {
      RunClean(snaps, matched, all, done, i - 1);
      var k := i - 1;
      assert MadeFrom(snaps[k], snaps[k + 1], matched, all[|all| - 1 - k], done[k]);
    }
  }

  /** The frames of c are those on a way from the first of them up to a root of cache b. */
  ghost predicate OnPath(b: Snap, tid: nat, c: Chain)
  {
    exists path :: IsCachedPath(b.s, b.used, tid, c.ips, c.sps, path)
  }

  lemma MadePath(a: Snap, b: Snap, matched: nat, x: Chain, y: Chain)
    requires |x.ips| == |x.sps| && MadeFrom(a, b, matched, x, y)
    requires GoodChain(x.ips, x.sps) && Rising(a.s, a.used) && Roomy(a, Frames(x.tid, x.ips, x.sps))
    ensures OnPath(b, x.tid, y)
  {
    hide GoodChain, Extended, Appended, Rising, SnapOk, Roomy, CameFrom, Continued, IsCachedPath;
    var nodes, ext, mid :| Makes(a, b, matched, x, y, nodes, ext, mid);
    assert IsCachedPath(b.s, b.used, x.tid, y.ips, y.sps, nodes + ext);
  }

  /** A joined chain for which the cache had room is, when it is written, the cached path from its first frame to a root. */
  lemma JoinedIsPath(maxNodes: nat, matched: nat, all: seq<Chain>, mid: seq<Chain>, out: seq<Chain>,
                     first: seq<Snap>, second: seq<Snap>, i: nat)
    requires JoinRun(maxNodes, matched, all, mid, out, first, second) && AllClean(all) && i < |all|
    requires var x := mid[|mid| - 1 - i]; |x.ips| == |x.sps| && Roomy(second[i], Frames(x.tid, x.ips, x.sps))
    ensures OnPath(second[i + 1], mid[|mid| - 1 - i].tid, out[i])
  {
    hide MadeFrom, GoodChain, Roomy, OnPath;
    RunClean(first, matched, all, mid, |mid|);
    RunClean(second, matched, mid, out, i);
    var x := mid[|mid| - 1 - i];
    MadePath(second[i], second[i + 1], matched, x, out[i]);
  }

  /** Both passes, by way of a third file. */
  method JoinTwice(src: TempFile, dst: TempFile, count: nat, maxNodes: nat, matched: nat, ghost all: seq<Chain>)
    returns (result: JoinResult, before: nat, total: nat, longest: nat, ghost out: seq<Chain>,
             ghost mid: seq<Chain>, ghost first: seq<Snap>, ghost second: seq<Snap>)
    requires src != dst && maxNodes >= 2 && matched >= 1 && AllStored(all) && AllClean(all) && |all| == count
    requires src.data == Bytes(all) && src.pos == |src.data| && dst.data == [] && dst.pos == 0
    modifies src`pos, dst
    ensures result != Failed
    ensures result == TooLong ==> exists c :: c in all && ChainSize(|c.ips| + 2 * maxNodes) >= 0x8000_0000
    ensures result == Joined ==>
              && AllStored(out) && AllClean(out) && |out| == count && dst.data == Bytes(out)
              && before == Total(all) && total == Total(out) && longest == Longest(out)
              && (forall i :: 0 <= i < |all| ==> Continues(all[i], out[i], JoinedKind(all[i].kind)))
              && JoinRun(maxNodes, matched, all, mid, out, first, second)
  {
    hide Bytes, AllStored, Continues, Reversed, Total, Longest, SoundCache, Ranked, AllClean, ChainSize, InOrder,
         PassRun;
    out, mid, first, second := [], [], [], [];
    var lru := new LRUCache(maxNodes, matched);
    StartsInOrder(lru);
    var tmp := new TempFile();
    result, mid, before, total, longest, first := JoinPass(lru, src, tmp, count, 0, all);
    if result != Joined {
      MoreIsTooLong(all, maxNodes);
      return;
    }
    var again: nat;
    result, out, again, total, longest, second := JoinPass(lru, tmp, dst, count, 1, mid);
    if result != Joined {
      TooLongAtFirst(all, mid, maxNodes);
      return;
    }
    TwoPasses(all, mid, out, maxNodes);
  }

  lemma MoreIsTooLong(all: seq<Chain>, most: nat)
    requires exists c :: c in all && ChainSize(|c.ips| + most) >= 0x8000_0000
    ensures exists c :: c in all && ChainSize(|c.ips| + 2 * most) >= 0x8000_0000
  {
    var c :| c in all && ChainSize(|c.ips| + most) >= 0x8000_0000;
    assert ChainSize(|c.ips| + 2 * most) >= 0x8000_0000;
  }

  lemma StartsInOrder(cache: LRUCache)
    requires cache.used == 0 && cache.nodes.Length > 0
    ensures InOrder(cache)
  {
  }

  // ---------------------------------------------------------------- the joiner

  class CallChainJoiner {
    const keepOriginal: bool
    const maxNodes: nat
    const matched: nat
    const original: TempFile
    var joined: TempFile
    var chainCount: nat
    var nextIndex: nat
    var beforeJoinNodes: nat
    var afterJoinNodes: nat
    var maxChainLength: nat
    ghost var chains: seq<Chain>         // what was stored, in order
    ghost var joinedChains: seq<Chain>   // what joining made of it

    /** While chains are added. */
    ghost predicate Collecting()
      reads this, original, joined
    {
      && original != joined && maxNodes >= 2 && matched >= 1
      && AllStored(chains) && AllClean(chains) && chainCount == |chains| && nextIndex == 0
      && original.data == Bytes(chains) && original.pos == |original.data|
    }

    /** The joined chains are the stored ones, in the same order, each perhaps continued. */
    ghost predicate JoinedInOrder()
      reads this
    {
      && |joinedChains| == |chains|
      && forall i :: 0 <= i < |chains| ==> Continues(chains[i], joinedChains[i], JoinedKind(chains[i].kind))
    }

    /** While chains are handed out. */
    ghost predicate HandingOut()
      reads this, original, joined
    {
      && original != joined && AllStored(chains) && AllStored(joinedChains) && chainCount == |chains|
      && JoinedInOrder()
      && nextIndex <= 2 * chainCount && (!keepOriginal ==> nextIndex % 2 == 0)
      && original.data == Bytes(chains) && joined.data == Bytes(joinedChains)
      && (nextIndex > 0 ==>
            && joined.pos == |Bytes(joinedChains[..nextIndex / 2])|
            && (keepOriginal ==> original.pos == |Bytes(chains[..(nextIndex + 1) / 2])|))
    }

    constructor (maxNodes: nat, matched: nat, keepOriginal: bool)
      requires maxNodes >= 2 && matched >= 1
      ensures Collecting() && chains == [] && this.maxNodes == maxNodes && this.matched == matched
      ensures this.keepOriginal == keepOriginal && fresh(original) && fresh(joined)
    {
      var o := new TempFile();
      var j := new TempFile();
      this.maxNodes, this.matched, this.keepOriginal := maxNodes, matched, keepOriginal;
      original, joined := o, j;
      chainCount, nextIndex, beforeJoinNodes, afterJoinNodes, maxChainLength := 0, 0, 0, 0, 0;
      chains, joinedChains := [], [];
    }

    /** Stores the clean beginning of the chain. */
    method AddCallChain(pid: nat, tid: nat, kind: nat, ips: seq<u64>, sps: seq<u64>)
      requires Collecting() && |ips| == |sps| > 0 && (kind == ORIGINAL_OFFLINE || kind == ORIGINAL_REMOTE)
      requires pid < 0x1_0000_0000 && tid < 0x1_0000_0000 && ChainSize(|ips|) < 0x8000_0000
      modifies this, original
      ensures Collecting() && joined == old(joined)
      ensures exists n: nat :: 1 <= n <= |ips| && chains == old(chains) + [Chain(pid, tid, kind, ips[..n], sps[..n])]
                && GoodChain(ips[..n], sps[..n]) && (n < |ips| ==> !GoodChain(ips[..n + 1], sps[..n + 1]))
    {
      hide GoodChain, Bytes, Encode;
      var n := CleanLength(ips, sps);
      chainCount := chainCount + 1;
      WriteCallChain(original, Chain(pid, tid, kind, ips, sps), n);
      ghost var c := Chain(pid, tid, kind, ips[..n], sps[..n]);
      BytesStep(chains, c);
      chains := chains + [c];
    }

    /**
     * The two passes, whatever the size of the cache: the joined chains are the stored ones, in their
     * order and with the type for joined chains, each continued as AddCallChain continues it in one pass
     * and in the other, and clean again. It stops only where the size of a chain with two
     * caches full of frames does not fit an int.
     */
    method JoinCallChains() returns (result: JoinResult, ghost mid: seq<Chain>, ghost first: seq<Snap>, ghost second: seq<Snap>)
      requires Collecting()
      modifies this, original, joined
      ensures result != Failed && chains == old(chains) && chainCount == old(chainCount)
      ensures result == TooLong ==> exists c :: c in chains && ChainSize(|c.ips| + 2 * maxNodes) >= 0x8000_0000
      ensures result == Joined && chainCount > 0 ==>
                && HandingOut() && nextIndex == 0 && AllClean(joinedChains)
                && beforeJoinNodes == Total(chains)
                && afterJoinNodes == Total(joinedChains) && maxChainLength == Longest(joinedChains)
                && JoinRun(maxNodes, matched, chains, mid, joinedChains, first, second)
                && forall i :: 0 <= i < |chains| ==>
                     && (chains[i].kind == ORIGINAL_OFFLINE ==> joinedChains[i].kind == JOINED_OFFLINE)
                     && (chains[i].kind == ORIGINAL_REMOTE ==> joinedChains[i].kind == JOINED_REMOTE)
    {
      hide Bytes, AllStored, Continues, Reversed, Total, Longest, SoundCache, Ranked, Storable, GoodChain, Encode,
           AllClean, ChainSize, InOrder, JoinRun;
      result, mid, first, second := Joined, [], [], [];
      if chainCount == 0 {
        return;
      }
      joined := new TempFile();
      ghost var out;
      var before: nat, total: nat, longest: nat;
      result, before, total, longest, out, mid, first, second :=
        JoinTwice(original, joined, chainCount, maxNodes, matched, chains);
      if result != Joined {
        return;
      }
      joinedChains := out;
      KindsJoined(chains, out);
      beforeJoinNodes, afterJoinNodes, maxChainLength := before, total, longest;
    }

    /** Rewinds both files before the first chain is handed out. */
    method Rewind()
      modifies original`pos, joined`pos
      ensures original.pos == 0 && joined.pos == 0
    {
      original.pos := 0;
      joined.pos := 0;
    }

    /**
     * Hands out the joined chains in order, each behind its original when originals are kept; ends
     * after the last one.
     */
    method GetNextCallChain() returns (r: Option<Chain>)
      requires HandingOut()
      modifies this`nextIndex, original`pos, joined`pos
      ensures HandingOut()
      ensures old(nextIndex) == 2 * |chains| ==> r == None && nextIndex == old(nextIndex)
      ensures old(nextIndex) < 2 * |chains| ==>
                && nextIndex == old(nextIndex) + (if keepOriginal then 1 else 2)
                && r == Some(if keepOriginal && old(nextIndex) % 2 == 0 then chains[old(nextIndex) / 2]
                             else joinedChains[old(nextIndex) / 2])
    {
      hide Bytes, AllStored, Continues;
      if nextIndex == chainCount * 2 {
        return None;
      }
      NothingRead(chains, joinedChains);
      if nextIndex == 0 {
        Rewind();
      }
      ghost var i := nextIndex / 2;
      if keepOriginal {
        var index := nextIndex;
        nextIndex := nextIndex + 1;
        if index % 2 == 1 {
          r := ReadNext(joined, joinedChains, i);
        } else {
          r := ReadNext(original, chains, i);
        }
      } else {
        nextIndex := nextIndex + 2;
        r := ReadNext(joined, joinedChains, i);
      }
    }
  }

  lemma KindsJoined(all: seq<Chain>, out: seq<Chain>)
    requires |out| == |all| && forall i :: 0 <= i < |all| ==> Continues(all[i], out[i], JoinedKind(all[i].kind))
    ensures forall i :: 0 <= i < |all| ==>
              && (all[i].kind == ORIGINAL_OFFLINE ==> out[i].kind == JOINED_OFFLINE)
              && (all[i].kind == ORIGINAL_REMOTE ==> out[i].kind == JOINED_REMOTE)
  {
  }

  lemma NothingRead(a: seq<Chain>, b: seq<Chain>)
    ensures AllStored([]) && Bytes([]) == [] && a[..0] == [] && b[..0] == []
  {
  }

  /** Reads the i-th chain of a file that stands behind the first i. */
  method ReadNext(fp: TempFile, ghost cs: seq<Chain>, ghost i: nat) returns (r: Option<Chain>)
    requires AllStored(cs) && i < |cs| && fp.data == Bytes(cs) && fp.pos == |Bytes(cs[..i])|
    modifies fp`pos
    ensures r == Some(cs[i]) && fp.pos == |Bytes(cs[..i + 1])|
  {
    hide Bytes, AllStored, Encode, Storable;
    NextIsThere(cs, i);
    r := ReadCallChain(fp, Bytes(cs[..i]), cs[i]);
  }

  /** The i-th chain stands right behind the first i of them. */
  lemma NextIsThere(cs: seq<Chain>, i: nat)
    requires AllStored(cs) && i < |cs|
    ensures AllStored(cs[..i]) && AllStored(cs[..i + 1]) && Storable(cs[i]) && |cs[i].ips| == |cs[i].sps|
    ensures Bytes(cs[..i + 1]) == Bytes(cs[..i]) + Encode(cs[i])
    ensures |Bytes(cs[..i + 1])| <= |Bytes(cs)| && Bytes(cs)[..|Bytes(cs[..i + 1])|] == Bytes(cs[..i + 1])
  {
    hide Bytes, Encode;
    BytesPrefix(cs, i + 1);
    BytesLast(cs[..i + 1]);
    assert cs[..i + 1][..i] == cs[..i] && cs[..i + 1][i] == cs[i];
  }
}
