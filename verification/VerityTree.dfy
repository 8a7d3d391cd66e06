/**
 * hashtree_info::verify_tree on a file that needs no correction: the walk over the levels of the
 * hash tree from the root down, and what its success says about the digests it keeps.
 */
module VerityTree {
  import opened Common
  import opened VerityLayout

  /** hashtree_info. `hash` stands for the digest of salt and block; it is never looked into. */
  datatype Tree = Tree(hashStart: nat, dataBlocks: nat, digestLength: nat, hash: seq<byte> -> seq<byte>)

  predicate ShapeOk(t: Tree)
  {
    t.digestLength == 20 || t.digestLength == 32
  }

  ghost predicate HashOk(t: Tree)
  {
    && ShapeOk(t)
    && (forall b: seq<byte> :: |b| == FEC_BLOCKSIZE ==> |t.hash(b)| == t.digestLength)
  }

  /** check_block_hash: only digest_length bytes of what is expected are compared. */
  predicate BlockOk(t: Tree, expected: seq<byte>, block: seq<byte>)
    requires t.digestLength <= |expected|
  {
    expected[..t.digestLength] == t.hash(block)
  }

  // -------------------------------------------------------------------- the levels

  /** Level 0 is the root block; level i of the walk holds h[levels - i] blocks. */
  function Blocks(h: seq<nat>, i: nat): nat
    requires i < |h|
  {
    if i == 0 then 1 else h[|h| - i]
  }

  function Start(hashStart: nat, h: seq<nat>, i: nat): (r: nat)
    requires i <= |h|
    ensures r >= hashStart
  {
    if i == 0 then hashStart else Start(hashStart, h, i - 1) + Blocks(h, i - 1) * FEC_BLOCKSIZE
  }

  function SumDown(h: seq<nat>, i: nat): nat
    requires i <= |h|
  {
    if i == 0 then 0 else SumDown(h, i - 1) + Blocks(h, i - 1)
  }

  lemma {:induction false} StartIsSum(hashStart: nat, h: seq<nat>, i: nat)
    requires i <= |h|
    ensures Start(hashStart, h, i) == hashStart + SumDown(h, i) * FEC_BLOCKSIZE
  {
    if i > 0 {
      StartIsSum(hashStart, h, i - 1);
    }
  }

  lemma {:induction false} SumDownIsSum(h: seq<nat>, i: nat)
    requires 1 <= i <= |h|
    ensures SumDown(h, i) == 1 + Sum(h[|h| - i + 1..])
  {
    if i > 1 {
      SumDownIsSum(h, i - 1);
      assert h[|h| - i + 1..][1..] == h[|h| - i + 2..];
      assert Blocks(h, i - 1) == h[|h| - i + 1];
    } else {
      assert h[|h|..] == [];
      assert SumDown(h, 0) == 0 && Blocks(h, 0) == 1;
    }
  }

  /** The root block and the levels fill the tree's size exactly, one behind the other. */
  lemma LevelsTile(hashStart: nat, dataBlocks: nat)
    requires dataBlocks > 0
    ensures var h := LevelHashes(dataBlocks);
            && Start(hashStart, h, 0) == hashStart
            && (forall i :: 0 <= i < |h| ==> Start(hashStart, h, i + 1) == Start(hashStart, h, i) + Blocks(h, i) * FEC_BLOCKSIZE)
            && Start(hashStart, h, |h|) == hashStart + TreeBlocks(dataBlocks) * FEC_BLOCKSIZE
  {
    var h := LevelHashes(dataBlocks);
    StartIsSum(hashStart, h, |h|);
    SumDownIsSum(h, |h|);
    TreeBlocksIsSum(dataBlocks);
  }

  /** Each level has room for the digests of the next one, and only the last level is as long as itself. */
  lemma LevelSizes(dataBlocks: nat, i: nat)
    requires dataBlocks > 0 && 1 <= i < |LevelHashes(dataBlocks)|
    ensures var h := LevelHashes(dataBlocks);
            && Blocks(h, i) * DIGEST <= Blocks(h, i - 1) * FEC_BLOCKSIZE
            && 2 <= Blocks(h, i) <= Up(dataBlocks)
            && (Blocks(h, i) == Up(dataBlocks) <==> i == |h| - 1)
  {
    hide Up, LevelHashes;
    var h := LevelHashes(dataBlocks);
    LevelsShrink(dataBlocks);
    UpIs(h[|h| - i]);
    assert h[|h| - i - 1 + 1] == Up(h[|h| - i - 1]);
    assert h[0 + 1] == Up(h[0]);
    if i > 1 {
      assert h[|h| - i + 1] == Up(h[|h| - i]);
    }
    if i < |h| - 1 {
      Shrinks(h, 1, |h| - i);
    }
  }

  lemma {:induction false} Shrinks(h: seq<nat>, a: nat, b: nat)
    requires a < b < |h| && forall i :: 0 <= i < |h| - 1 ==> h[i + 1] < h[i]
    ensures h[b] < h[a]
  {
    if a + 1 < b {
      Shrinks(h, a, b - 1);
    }
    assert h[b - 1 + 1] < h[b - 1];
  }

  // ------------------------------------------------------------------- a valid tree

  function Block(file: seq<byte>, start: nat, j: nat): seq<byte>
    requires start + (j + 1) * FEC_BLOCKSIZE <= |file|
  {
    file[start + j * FEC_BLOCKSIZE..start + (j + 1) * FEC_BLOCKSIZE]
  }

  /** The j-th block of the level at dataOff has the digest that the level above holds for it. */
  predicate EntryOk(t: Tree, file: seq<byte>, hashOff: nat, dataOff: nat, j: nat)
  {
    && ShapeOk(t)
    && hashOff + (j + 1) * DIGEST <= |file| && dataOff + (j + 1) * FEC_BLOCKSIZE <= |file|
    && BlockOk(t, file[hashOff + j * DIGEST..hashOff + (j + 1) * DIGEST], Block(file, dataOff, j))
  }

  ghost predicate EntriesOk(t: Tree, file: seq<byte>, hashOff: nat, dataOff: nat, n: nat)
  {
    forall j: nat :: j < n ==> EntryOk(t, file, hashOff, dataOff, j)
  }

  ghost predicate LevelOk(t: Tree, file: seq<byte>, h: seq<nat>, i: nat)
    requires 1 <= i < |h|
  {
    EntriesOk(t, file, Start(t.hashStart, h, i - 1), Start(t.hashStart, h, i), Blocks(h, i))
  }

  ghost predicate RootOk(t: Tree, file: seq<byte>, root: seq<byte>)
  {
    && ShapeOk(t) && |root| == t.digestLength
    && t.hashStart + FEC_BLOCKSIZE <= |file| && BlockOk(t, root, Block(file, t.hashStart, 0))
  }

  ghost predicate LevelsOk(t: Tree, file: seq<byte>, n: nat)
    requires n <= |LevelHashes(t.dataBlocks)|
  {
    forall i :: 1 <= i < n ==> LevelOk(t, file, LevelHashes(t.dataBlocks), i)
  }

  /** Every level checks against the one above, and the root block against the root digest. */
  ghost predicate TreeOk(t: Tree, file: seq<byte>, root: seq<byte>)
  {
    RootOk(t, file, root) && LevelsOk(t, file, |LevelHashes(t.dataBlocks)|)
  }

  /** The digest of the j-th block at `at` is that of which 32 bytes are kept, at place j from `above` on. */
  ghost predicate DigestKept(t: Tree, file: seq<byte>, above: nat, at: nat, j: nat)
    requires ShapeOk(t)
  {
    && above + j * 32 + 32 <= |file| && at + j * 4096 + 4096 <= |file|
    && file[above + j * 32..above + j * 32 + t.digestLength] == t.hash(file[at + j * 4096..at + j * 4096 + 4096])
  }

  /**
   * A level checks exactly if each of its blocks has the digest that stands at its place in the level
   * above, of which the digest's own bytes are compared.
   */
  lemma LevelOkIff(t: Tree, file: seq<byte>, h: seq<nat>, i: nat)
    requires ShapeOk(t) && 1 <= i < |h|
    ensures var above, at, n := Start(t.hashStart, h, i - 1), Start(t.hashStart, h, i), h[|h| - i];
            LevelOk(t, file, h, i) <==> forall j: nat :: j < n ==> DigestKept(t, file, above, at, j)
  {
    hide Start, EntryOk, DigestKept;
    LevelIs(t, file, h, i);
    var above, at := Start(t.hashStart, h, i - 1), Start(t.hashStart, h, i);
    forall j: nat ensures EntryOk(t, file, above, at, j) <==> DigestKept(t, file, above, at, j) {
      EntryOkIff(t, file, above, at, j);
    }
  }

  lemma EntryOkIff(t: Tree, file: seq<byte>, above: nat, at: nat, j: nat)
    requires ShapeOk(t)
    ensures EntryOk(t, file, above, at, j) <==> DigestKept(t, file, above, at, j)
  {
    if above + j * 32 + 32 <= |file| && at + j * 4096 + 4096 <= |file| {
      var slot := file[above + j * DIGEST..above + (j + 1) * DIGEST];
      assert slot[..t.digestLength] == file[above + j * 32..above + j * 32 + t.digestLength];
    }
  }

  function LevelBytes(t: Tree, file: seq<byte>, h: seq<nat>, i: nat): seq<byte>
    requires i < |h| && Start(t.hashStart, h, i + 1) <= |file|
  {
    file[Start(t.hashStart, h, i)..Start(t.hashStart, h, i + 1)]
  }

  /** The same tree at another place of a file. */
  ghost predicate Elsewhere(t: Tree, u: Tree)
  {
    u.dataBlocks == t.dataBlocks && u.digestLength == t.digestLength && u.hash == t.hash
  }

  /** The j-th blocks of level i in the two files are different and have the same digest. */
  ghost predicate Collides(t: Tree, f: seq<byte>, u: Tree, g: seq<byte>, i: nat, j: nat)
    requires i < |LevelHashes(t.dataBlocks)|
  {
    var h := LevelHashes(t.dataBlocks);
    var a, b := Start(t.hashStart, h, i), Start(u.hashStart, h, i);
    && j < Blocks(h, i) && a + (j + 1) * FEC_BLOCKSIZE <= |f| && b + (j + 1) * FEC_BLOCKSIZE <= |g|
    && Block(f, a, j) != Block(g, b, j) && t.hash(Block(f, a, j)) == t.hash(Block(g, b, j))
  }

  /** No such pair of blocks in the levels before n. */
  ghost predicate NoCollision(t: Tree, f: seq<byte>, u: Tree, g: seq<byte>, n: nat)
    requires n <= |LevelHashes(t.dataBlocks)|
  {
    forall i: nat, j: nat :: i < n ==> !Collides(t, f, u, g, i, j)
  }

  ghost predicate SameLevel(t: Tree, f: seq<byte>, u: Tree, g: seq<byte>, i: nat)
    requires i < |LevelHashes(t.dataBlocks)|
  {
    var h := LevelHashes(t.dataBlocks);
    && Start(t.hashStart, h, i + 1) <= |f| && Start(u.hashStart, h, i + 1) <= |g|
    && LevelBytes(t, f, h, i) == LevelBytes(u, g, h, i)
  }

  /**
   * Two files that both check against one root digest have the same first n levels if and only if
   * no two different blocks at the same place of these levels have the same digest.
   */
  lemma {:induction false} LevelsAgree(t: Tree, f: seq<byte>, u: Tree, g: seq<byte>, root: seq<byte>, n: nat)
    requires Elsewhere(t, u) && t.dataBlocks > 0 && TreeOk(t, f, root) && TreeOk(u, g, root)
    requires n <= |LevelHashes(t.dataBlocks)|
    requires var size := TreeBlocks(t.dataBlocks) * FEC_BLOCKSIZE; t.hashStart + size <= |f| && u.hashStart + size <= |g|
    ensures (forall i :: 0 <= i < n ==> SameLevel(t, f, u, g, i)) <==> NoCollision(t, f, u, g, n)
  {
    hide LevelHashes, TreeBlocks, Up, LevelOk, Start, Collides, SameLevel;
    if n > 0 {
      var h, i := LevelHashes(t.dataBlocks), n - 1;
      LevelsAgree(t, f, u, g, root, i);
      LevelInside(t.hashStart, t.dataBlocks, i);
      LevelInside(u.hashStart, t.dataBlocks, i);
      if forall k :: 0 <= k < i ==> SameLevel(t, f, u, g, k) {
        if i == 0 {
          RootAgrees(t, f, u, g, root);
        } else {
          assert SameLevel(t, f, u, g, i - 1);
          LevelSizes(t.dataBlocks, i);
          LevelInside(t.hashStart, t.dataBlocks, i - 1);
          LevelInside(u.hashStart, t.dataBlocks, i - 1);
          LevelStep(t, f, u, g, i);
        }
      }
    }
  }

  lemma LevelInside(hashStart: nat, dataBlocks: nat, i: nat)
    requires dataBlocks > 0 && i < |LevelHashes(dataBlocks)|
    ensures var h := LevelHashes(dataBlocks);
            && Start(hashStart, h, i + 1) == Start(hashStart, h, i) + Blocks(h, i) * FEC_BLOCKSIZE
            && Start(hashStart, h, i + 1) <= hashStart + TreeBlocks(dataBlocks) * FEC_BLOCKSIZE
  {
    LevelsTile(hashStart, dataBlocks);
    hide LevelHashes;
    StartGrows(hashStart, LevelHashes(dataBlocks), i + 1, |LevelHashes(dataBlocks)|);
  }

  lemma {:induction false} StartGrows(hashStart: nat, h: seq<nat>, a: nat, b: nat)
    requires a <= b <= |h|
    ensures Start(hashStart, h, a) <= Start(hashStart, h, b)
  {
    if a < b {
      StartGrows(hashStart, h, a, b - 1);
    }
  }

  lemma RootAgrees(t: Tree, f: seq<byte>, u: Tree, g: seq<byte>, root: seq<byte>)
    requires Elsewhere(t, u) && RootOk(t, f, root) && RootOk(u, g, root) && |LevelHashes(t.dataBlocks)| > 0
    ensures SameLevel(t, f, u, g, 0) <==> forall j: nat :: !Collides(t, f, u, g, 0, j)
  {
    hide LevelHashes, Start;
    var h := LevelHashes(t.dataBlocks);
    StartOfTwo(t.hashStart, h);
    StartOfTwo(u.hashStart, h);
    assert t.hash(Block(f, t.hashStart, 0)) == t.hash(Block(g, u.hashStart, 0));
    assert LevelBytes(t, f, h, 0) == Block(f, t.hashStart, 0) && LevelBytes(u, g, h, 0) == Block(g, u.hashStart, 0);
    if SameLevel(t, f, u, g, 0) {
      assert forall j: nat :: !Collides(t, f, u, g, 0, j);
    } else {
      assert Collides(t, f, u, g, 0, 0);
    }
  }

  predicate Follows(hashStart: nat, h: seq<nat>, i: nat)
    requires i < |h|
  {
    Start(hashStart, h, i + 1) == Start(hashStart, h, i) + Blocks(h, i) * FEC_BLOCKSIZE
  }

  lemma LevelStep(t: Tree, f: seq<byte>, u: Tree, g: seq<byte>, i: nat)
    requires Elsewhere(t, u) && 1 <= i < |LevelHashes(t.dataBlocks)|
    requires var h := LevelHashes(t.dataBlocks);
             && LevelOk(t, f, h, i) && LevelOk(u, g, h, i)
             && Start(t.hashStart, h, i + 1) <= |f| && Start(u.hashStart, h, i + 1) <= |g|
             && Follows(t.hashStart, h, i - 1) && Follows(t.hashStart, h, i)
             && Follows(u.hashStart, h, i - 1) && Follows(u.hashStart, h, i)
             && Blocks(h, i) * DIGEST <= Blocks(h, i - 1) * FEC_BLOCKSIZE
    requires SameLevel(t, f, u, g, i - 1)
    ensures SameLevel(t, f, u, g, i) <==> forall j: nat :: !Collides(t, f, u, g, i, j)
  {
    hide Start, Blocks, EntryOk, LevelHashes;
    var h := LevelHashes(t.dataBlocks);
    var a, b, n := Start(t.hashStart, h, i - 1), Start(t.hashStart, h, i), Blocks(h, i);
    var c, d := Start(u.hashStart, h, i - 1), Start(u.hashStart, h, i);
    if SameLevel(t, f, u, g, i) {
      forall j: nat | j < n ensures Block(f, b, j) == Block(g, d, j) {
        SameSlice(f, b, b + n * FEC_BLOCKSIZE, g, d, d + n * FEC_BLOCKSIZE, j * FEC_BLOCKSIZE, (j + 1) * FEC_BLOCKSIZE);
      }
    } else if forall j: nat :: !Collides(t, f, u, g, i, j) {
      forall j: nat | j < n ensures Block(f, b, j) == Block(g, d, j) {
        assert EntryOk(t, f, a, b, j) && EntryOk(u, g, c, d, j);
        EntryAgrees(t, f, a, b, u, g, c, d, j);
        assert !Collides(t, f, u, g, i, j);
      }
      SameBlocks(f, b, g, d, n);
    }
  }

  lemma EntryAgrees(t: Tree, f: seq<byte>, a: nat, b: nat, u: Tree, g: seq<byte>, c: nat, d: nat, j: nat)
    requires Elsewhere(t, u) && EntryOk(t, f, a, b, j) && EntryOk(u, g, c, d, j)
    requires a + (j + 1) * DIGEST <= b <= |f| && c <= d <= |g| && f[a..b] == g[c..d]
    ensures t.hash(Block(f, b, j)) == t.hash(Block(g, d, j))
  {
    SameSlice(f, a, b, g, c, d, j * DIGEST, (j + 1) * DIGEST);
  }

  lemma {:induction false} SameBlocks(f: seq<byte>, b: nat, g: seq<byte>, d: nat, n: nat)
    requires b + n * FEC_BLOCKSIZE <= |f| && d + n * FEC_BLOCKSIZE <= |g|
    requires forall j: nat :: j < n ==> Block(f, b, j) == Block(g, d, j)
    ensures f[b..b + n * FEC_BLOCKSIZE] == g[d..d + n * FEC_BLOCKSIZE]
  {
    if n > 0 {
      SameBlocks(f, b, g, d, n - 1);
      var m := (n - 1) * FEC_BLOCKSIZE;
      assert Block(f, b, n - 1) == Block(g, d, n - 1);
      assert f[b..b + n * FEC_BLOCKSIZE] == f[b..b + m] + Block(f, b, n - 1);
      assert g[d..d + n * FEC_BLOCKSIZE] == g[d..d + m] + Block(g, d, n - 1);
    }
  }

  // --------------------------------------------------------------------- the walk

  datatype TreeResult =
    | Verified(hashData: seq<byte>, zeroHash: seq<byte>)
    | NeedsCorrection | Refused
    | Overrun   // a copy beyond the kept digests: what follows is undefined

  function U32(x: nat): nat { x % 0x1_0000_0000 }

  const WRAP: nat := 0x10_0000   // blocks in 2^32 bytes

  lemma BlocksWrap(n: nat)
    ensures U32(n * FEC_BLOCKSIZE) == n % WRAP * FEC_BLOCKSIZE
  {
    var q, m := n / WRAP, n % WRAP;
    assert n * FEC_BLOCKSIZE == q * 0x1_0000_0000 + m * FEC_BLOCKSIZE;
  }

  const ZERO_BLOCK: seq<byte> := seq(FEC_BLOCKSIZE, _ => 0)

  /** raw_pread: all of the bytes or a failure. */
  function RawRead(file: seq<byte>, count: nat, offset: nat): Option<seq<byte>>
  {
    if offset + count <= |file| then Some(file[offset..offset + count]) else None
  }

  /**
   * The loop over the blocks of one level. The blocks are kept when the level is as long as the
   * bottom level. With 2^20 blocks or more, the room for them has wrapped around, and the copies
   * leave it.
   */
  method CheckLevel(t: Tree, file: seq<byte>, hashOff: nat, dataOff: nat, blocks: nat, bottom: nat, kept: seq<byte>)
    returns (bad: Option<TreeResult>, kept': seq<byte>)
    requires ShapeOk(t) && |kept| == U32(bottom * FEC_BLOCKSIZE)
    ensures bad.Some? ==> !bad.value.Verified?
    ensures |kept'| == |kept| && (blocks != bottom ==> kept' == kept)
    ensures blocks < WRAP ==> (bad.None? <==> EntriesOk(t, file, hashOff, dataOff, blocks))
    ensures bad.None? && 0 < blocks < WRAP ==>
              && dataOff + blocks * FEC_BLOCKSIZE <= |file|
              && (blocks == bottom ==> kept' == file[dataOff..dataOff + blocks * FEC_BLOCKSIZE])
    ensures blocks == bottom >= WRAP ==> bad.Some?
  {
    hide EntryOk, U32, BlockOk;
    BlocksWrap(bottom);
    bad, kept' := None, kept;
    var j := 0;
    while j < blocks
      invariant 0 <= j <= blocks && |kept'| == |kept| && bad.None?
      invariant blocks < WRAP ==> EntriesOk(t, file, hashOff, dataOff, j)
      invariant blocks < WRAP && j > 0 ==> dataOff + j * FEC_BLOCKSIZE <= |file|
      invariant 0 < j && blocks == bottom < WRAP ==> kept'[..j * FEC_BLOCKSIZE] == file[dataOff..dataOff + j * FEC_BLOCKSIZE]
      invariant blocks != bottom ==> kept' == kept
      invariant blocks == bottom >= WRAP ==> j <= bottom % WRAP
    {
      BlocksWrap(j);
      var at := U32(j * FEC_BLOCKSIZE);
      var expected := RawRead(file, DIGEST, hashOff + U32(j * DIGEST));
      var data := RawRead(file, FEC_BLOCKSIZE, dataOff + at);
      if blocks < WRAP {
        EntryIs(t, file, hashOff, dataOff, j);
      }
      if expected.None? || data.None? {
        return Some(Refused), kept';
      }
      if !BlockOk(t, expected.value, data.value) {
        return Some(NeedsCorrection), kept';
      }
      if blocks == bottom {
        if at + FEC_BLOCKSIZE > |kept'| {
          return Some(Overrun), kept';
        }
        ghost var before := kept';
        kept' := kept'[..at] + data.value + kept'[at + FEC_BLOCKSIZE..];
        if blocks < WRAP {
          KeptMore(file, dataOff, before, kept', j);
        }
      }
      j := j + 1;
    }
    assert blocks != bottom || blocks >= WRAP || kept'[..blocks * FEC_BLOCKSIZE] == kept';
  }

  lemma EntryIs(t: Tree, file: seq<byte>, hashOff: nat, dataOff: nat, j: nat)
    requires ShapeOk(t) && j < WRAP
    ensures U32(j * DIGEST) == j * DIGEST && U32(j * FEC_BLOCKSIZE) == j * FEC_BLOCKSIZE
    ensures var expected := RawRead(file, DIGEST, hashOff + j * DIGEST);
            var data := RawRead(file, FEC_BLOCKSIZE, dataOff + j * FEC_BLOCKSIZE);
            EntryOk(t, file, hashOff, dataOff, j) <==>
              expected.Some? && data.Some? && BlockOk(t, expected.value, data.value)
  {
    assert (j + 1) * DIGEST == j * DIGEST + DIGEST && (j + 1) * FEC_BLOCKSIZE == j * FEC_BLOCKSIZE + FEC_BLOCKSIZE;
  }

  /** With the j-th block copied, the first j + 1 blocks are kept. */
  lemma KeptMore(file: seq<byte>, dataOff: nat, kept: seq<byte>, kept': seq<byte>, j: nat)
    requires (j + 1) * FEC_BLOCKSIZE <= |kept| && dataOff + (j + 1) * FEC_BLOCKSIZE <= |file|
    requires kept' == kept[..j * FEC_BLOCKSIZE] + Block(file, dataOff, j) + kept[j * FEC_BLOCKSIZE + FEC_BLOCKSIZE..]
    requires j > 0 ==> kept[..j * FEC_BLOCKSIZE] == file[dataOff..dataOff + j * FEC_BLOCKSIZE]
    ensures kept'[..(j + 1) * FEC_BLOCKSIZE] == file[dataOff..dataOff + (j + 1) * FEC_BLOCKSIZE]
  {
    assert kept'[..(j + 1) * FEC_BLOCKSIZE] == kept[..j * FEC_BLOCKSIZE] + Block(file, dataOff, j);
  }

  lemma RootIs(t: Tree, file: seq<byte>, root: seq<byte>)
    requires ShapeOk(t) && |root| == t.digestLength
    ensures var data := RawRead(file, FEC_BLOCKSIZE, t.hashStart);
            RootOk(t, file, root) <==> data.Some? && BlockOk(t, root, data.value)
  {
  }

  lemma LevelIs(t: Tree, file: seq<byte>, h: seq<nat>, i: nat)
    requires 1 <= i < |h|
    ensures LevelOk(t, file, h, i) <==>
              EntriesOk(t, file, Start(t.hashStart, h, i - 1), Start(t.hashStart, h, i), h[|h| - i])
  {
  }

  /** What the walk needs of level i. */
  lemma LevelFacts(hashStart: nat, dataBlocks: nat, i: nat)
    requires 1 <= i < |LevelHashes(dataBlocks)| && Up(dataBlocks) < WRAP
    ensures var h := LevelHashes(dataBlocks);
            && 2 <= h[|h| - i] <= Up(dataBlocks)
            && (h[|h| - i] == Up(dataBlocks) <==> i == |h| - 1)
            && Start(hashStart, h, i) >= hashStart + FEC_BLOCKSIZE
            && Start(hashStart, h, i + 1) == Start(hashStart, h, i) + h[|h| - i] * FEC_BLOCKSIZE
            && Start(hashStart, h, i + 1) <= hashStart + TreeBlocks(dataBlocks) * FEC_BLOCKSIZE
            && U32(h[|h| - i] * FEC_BLOCKSIZE) == h[|h| - i] * FEC_BLOCKSIZE
            && h[|h| - i] % 0x1_0000_0000 == h[|h| - i]
  {
    NonEmpty(dataBlocks);
    hide Up, LevelHashes, TreeBlocks, Start;
    LevelSizes(dataBlocks, i);
    LevelInside(hashStart, dataBlocks, i);
    StartOfTwo(hashStart, LevelHashes(dataBlocks));
    StartGrows(hashStart, LevelHashes(dataBlocks), 1, i);
  }

  /** A tree has levels below the root exactly if it has more than one bottom block. */
  lemma NonEmpty(dataBlocks: nat)
    ensures |LevelHashes(dataBlocks)| > 1 <==> Up(dataBlocks) >= 2
    ensures |LevelHashes(dataBlocks)| > 1 ==> dataBlocks > 0 && LevelHashes(dataBlocks)[1] == Up(dataBlocks)
  {
    LevelsUnfold(dataBlocks);
    UpIs(dataBlocks);
  }

  lemma StartOfTwo(hashStart: nat, h: seq<nat>)
    requires |h| > 0
    ensures Start(hashStart, h, 0) == hashStart && Start(hashStart, h, 1) == hashStart + FEC_BLOCKSIZE
  {
    assert Start(hashStart, h, 1) == Start(hashStart, h, 0) + Blocks(h, 0) * FEC_BLOCKSIZE;
  }

  lemma BottomFits(dataBlocks: nat, hashSize: nat)
    requires hashSize == TreeBlocks(dataBlocks) * FEC_BLOCKSIZE
    ensures Up(dataBlocks) <= hashSize / FEC_BLOCKSIZE
  {
    TreeBound(dataBlocks);
  }

  /** The loop that finds where the bottom level starts and how many blocks it has. */
  method FindBottom(t: Tree, hashes: seq<nat>) returns (offset: nat, bottom: nat)
    requires |hashes| == |LevelHashes(t.dataBlocks)|
    requires forall i :: 0 <= i < |hashes| ==> hashes[i] == LevelHashes(t.dataBlocks)[i] % 0x1_0000_0000
    ensures bottom == if Up(t.dataBlocks) >= 2 then U32(Up(t.dataBlocks)) else 0
    ensures 2 <= Up(t.dataBlocks) < WRAP ==> offset == Start(t.hashStart, LevelHashes(t.dataBlocks), |hashes| - 1)
  {
    hide TreeBlocks, LevelHashes, Up, Start;
    ghost var h := LevelHashes(t.dataBlocks);
    NonEmpty(t.dataBlocks);
    StartOfTwo(t.hashStart, h);
    var dataOff: nat := t.hashStart + FEC_BLOCKSIZE;
    offset, bottom := dataOff, 0;
    var i := 1;
    while i < |hashes|
      invariant 1 <= i <= |hashes| && bottom == if i == 1 then 0 else U32(h[|h| - (i - 1)])
      invariant Up(t.dataBlocks) < WRAP ==>
                  dataOff == Start(t.hashStart, h, i) && (i > 1 ==> offset == Start(t.hashStart, h, i - 1))
    {
      if Up(t.dataBlocks) < WRAP {
        LevelFacts(t.hashStart, t.dataBlocks, i);
      }
      var blocks := hashes[|hashes| - i];
      offset, bottom := dataOff, blocks;
      dataOff := dataOff + U32(blocks * FEC_BLOCKSIZE);
      i := i + 1;
    }
  }

  /** The walk over the levels below the root. */
  method CheckLevels(t: Tree, file: seq<byte>, hashes: seq<nat>, bottom: nat) returns (bad: Option<TreeResult>, kept: seq<byte>)
    requires ShapeOk(t) && Up(t.dataBlocks) >= 2 && bottom == U32(Up(t.dataBlocks))
    requires |hashes| == |LevelHashes(t.dataBlocks)|
    requires forall i :: 0 <= i < |hashes| ==> hashes[i] == LevelHashes(t.dataBlocks)[i] % 0x1_0000_0000
    ensures bad.Some? ==> !bad.value.Verified?
    ensures bad.None? ==> bottom < WRAP && |kept| == bottom * FEC_BLOCKSIZE
    ensures Up(t.dataBlocks) < WRAP ==> (bad.None? <==> LevelsOk(t, file, |hashes|))
    ensures bad.None? && Up(t.dataBlocks) < WRAP ==>
              var h := LevelHashes(t.dataBlocks);
              |h| > 0 && Start(t.hashStart, h, |h|) <= |file| && kept == LevelBytes(t, file, h, |h| - 1)
  {
    hide TreeBlocks, LevelHashes, Up, LevelOk, Start, Blocks;
    ghost var h, small, levels := LevelHashes(t.dataBlocks), Up(t.dataBlocks) < WRAP, |hashes|;
    NonEmpty(t.dataBlocks);
    StartOfTwo(t.hashStart, h);
    BlocksWrap(bottom);
    assert hashes[1] == bottom && (small ==> bottom == Up(t.dataBlocks));
    hide U32;
    bad, kept := None, seq(U32(bottom * FEC_BLOCKSIZE), _ => 0);
    var hashOff: nat, dataOff: nat := t.hashStart, t.hashStart + FEC_BLOCKSIZE;
    var i := 1;
    while i < |hashes|
      invariant 1 <= i <= levels && |kept| == U32(bottom * FEC_BLOCKSIZE) && bad.None?
      invariant small ==> hashOff == Start(t.hashStart, h, i - 1) && dataOff == Start(t.hashStart, h, i)
      invariant small ==> LevelsOk(t, file, i)
      invariant small && i == levels ==> dataOff <= |file| && kept == LevelBytes(t, file, h, levels - 1)
      invariant i == levels ==> bottom < WRAP
    {
      var blocks := hashes[|hashes| - i];
      bad, kept := CheckLevel(t, file, hashOff, dataOff, blocks, bottom, kept);
      if small {
        LevelFacts(t.hashStart, t.dataBlocks, i);
        LevelIs(t, file, h, i);
      }
      if bad.Some? {
        return;
      }
      hashOff := dataOff;
      dataOff := dataOff + U32(blocks * FEC_BLOCKSIZE);
      i := i + 1;
    }
  }

  /**
   * verify_tree. It succeeds and keeps a digest for every data block exactly when the tree has at
   * least two and fewer than 2^20 bottom blocks, lies within the data and checks against the root
   * digest; what it keeps is then the bottom level. Otherwise it fails, or copies beyond the kept
   * digests, or (from 2^32 bottom blocks) keeps too few of them.
   */
  method VerifyTree(t: Tree, file: seq<byte>, dataSize: nat, root: seq<byte>) returns (r: TreeResult)
    requires ShapeOk(t) && |root| == t.digestLength
    requires t.hashStart < TWO_64 && dataSize < TWO_64 && t.dataBlocks * FEC_BLOCKSIZE < TWO_64
    ensures r.Verified? && |r.hashData| == Up(t.dataBlocks) * FEC_BLOCKSIZE <==>
              && 2 <= Up(t.dataBlocks) < WRAP && TreeOk(t, file, root)
              && t.hashStart + TreeBlocks(t.dataBlocks) * FEC_BLOCKSIZE <= dataSize
              && t.hashStart + TreeBlocks(t.dataBlocks) * FEC_BLOCKSIZE < TWO_64 - 1
    ensures r.Verified? ==> |r.hashData| == U32(Up(t.dataBlocks)) * FEC_BLOCKSIZE && U32(Up(t.dataBlocks)) < WRAP
    ensures r.Verified? && Up(t.dataBlocks) < WRAP ==>
              && var h := LevelHashes(t.dataBlocks);
              && Start(t.hashStart, h, |h|) <= |file|
              && r.hashData == LevelBytes(t, file, h, |h| - 1)
    ensures r.Verified? ==> r.zeroHash == t.hash(ZERO_BLOCK) + seq(DIGEST - t.digestLength, _ => 0)
  {
    hide TreeBlocks, LevelHashes, Up, LevelsOk, BlockOk, RootOk, Start, Blocks;
    ghost var h := LevelHashes(t.dataBlocks);
    var hashSize, levels, hashes := VerityGetSize(t.dataBlocks * FEC_BLOCKSIZE);
    if !(t.hashStart < TWO_64 - 1 - hashSize) || !(t.hashStart + hashSize <= dataSize) {
      return Refused;
    }
    var data := RawRead(file, FEC_BLOCKSIZE, t.hashStart);
    RootIs(t, file, root);
    if data.None? || !BlockOk(t, root, data.value) {
      return NeedsCorrection;
    }
    var bottomOffset, bottom := FindBottom(t, hashes);
    NonEmpty(t.dataBlocks);
    if bottom == 0 {
      return Refused;
    }
    ghost var small := Up(t.dataBlocks) < WRAP;
    if small {
      LevelFacts(t.hashStart, t.dataBlocks, levels - 1);
    }
    BottomFits(t.dataBlocks, hashSize);
    if || bottom > hashSize / FEC_BLOCKSIZE || bottomOffset == 0
       || bottomOffset > TWO_64 - 1 - U32(bottom * FEC_BLOCKSIZE) || bottomOffset >= dataSize
       || bottomOffset + U32(bottom * FEC_BLOCKSIZE) > dataSize
    {
      return Refused;
    }
    var bad, kept := CheckLevels(t, file, hashes, bottom);
    if bad.Some? {
      return bad.value;
    }
    r := Verified(kept, t.hash(ZERO_BLOCK) + seq(DIGEST - t.digestLength, _ => 0));
  }

  /**
   * Without corrections, the digests that are kept depend on the root digest, the hash and the number
   * of data blocks only, not on the file nor on where the tree is: unless the two files have
   * different blocks with the same digest at the same place of the tree.
   */
  lemma HashDataIsDetermined(t: Tree, f: seq<byte>, u: Tree, g: seq<byte>, root: seq<byte>)
    requires Elsewhere(t, u) && Up(t.dataBlocks) >= 2 && TreeOk(t, f, root) && TreeOk(u, g, root)
    requires var size := TreeBlocks(t.dataBlocks) * FEC_BLOCKSIZE; t.hashStart + size <= |f| && u.hashStart + size <= |g|
    ensures var h := LevelHashes(t.dataBlocks);
            && Start(t.hashStart, h, |h|) <= |f| && Start(u.hashStart, h, |h|) <= |g|
            && (NoCollision(t, f, u, g, |h|) ==> LevelBytes(t, f, h, |h| - 1) == LevelBytes(u, g, h, |h| - 1))
  {
    NonEmpty(t.dataBlocks);
    hide LevelHashes, TreeBlocks, Up, TreeOk, NoCollision, LevelBytes;
    var h := LevelHashes(t.dataBlocks);
    LevelInside(t.hashStart, t.dataBlocks, |h| - 1);
    LevelInside(u.hashStart, t.dataBlocks, |h| - 1);
    LevelsAgree(t, f, u, g, root, |h|);
    assert NoCollision(t, f, u, g, |h|) ==> SameLevel(t, f, u, g, |h| - 1);
  }
}
