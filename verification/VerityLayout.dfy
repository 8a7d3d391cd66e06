/**
 * The layout of a verity hash tree (verity_get_size) and the binary search for the place where
 * verity metadata starts in a file (find_offset with get_verity_size, its only use).
 */
module VerityLayout {
  import opened Common

  const FEC_BLOCKSIZE: nat := 4096
  const DIGEST: nat := 32                     // SHA256_DIGEST_LENGTH, also the padded length of SHA-1 digests
  const VERITY_METADATA_SIZE: nat := 8 * 4096
  const TWO_63: nat := 0x8000_0000_0000_0000

  /** Arithmetic of uint64_t. */
  function U64(x: int): nat { x % TWO_64 }

  lemma Wraps(x: int)
    requires 0 <= x + TWO_64 && x < 2 * TWO_64
    ensures U64(x) == if x < 0 then x + TWO_64 else if x < TWO_64 then x else x - TWO_64
  {
  }

  /** The number of blocks that hold the digests of `hashes` blocks. */
  function Up(hashes: nat): nat { DivUp(hashes * DIGEST, FEC_BLOCKSIZE) }

  lemma UpIs(hashes: nat)
    ensures Up(hashes) == (hashes + 127) / 128
    ensures hashes <= 128 * Up(hashes) < hashes + 128
    ensures hashes > 1 ==> Up(hashes) < hashes
    ensures hashes > 0 ==> Up(hashes) > 0
  {
  }

  lemma UpMonotone(x: nat, y: nat)
    requires x <= y
    ensures Up(x) <= Up(y)
  {
    UpIs(x);
    UpIs(y);
  }

  /** The number of digests on each level, the lowest level first, up to the level that fits one block. */
  function LevelHashes(hashes: nat): (r: seq<nat>)
    ensures |r| > 0 && r[0] == hashes
    decreases hashes
  {
    UpIs(hashes);
    [hashes] + if Up(hashes) > 1 then LevelHashes(Up(hashes)) else []
  }

  /** The number of blocks of the whole tree over `hashes` data blocks. */
  function TreeBlocks(hashes: nat): nat
    decreases hashes
  {
    UpIs(hashes);
    Up(hashes) + if Up(hashes) > 1 then TreeBlocks(Up(hashes)) else 0
  }

  /** Each level holds the digests of the level below, and levels shrink strictly. */
  lemma {:induction false} LevelsShrink(hashes: nat)
    ensures var h := LevelHashes(hashes);
            && (forall i :: 0 <= i < |h| - 1 ==> h[i + 1] == Up(h[i]) > 1 && h[i + 1] < h[i])
            && Up(h[|h| - 1]) <= 1
    decreases hashes
  {
    UpIs(hashes);
    if Up(hashes) > 1 {
      LevelsShrink(Up(hashes));
      var h, t := LevelHashes(hashes), LevelHashes(Up(hashes));
      assert forall i :: 1 <= i < |h| ==> h[i] == t[i - 1];
    }
  }

  /** The computed size is the number of blocks of all levels but the data, plus the root block. */
  function Sum(s: seq<nat>): nat
  {
    if s == [] then 0 else s[0] + Sum(s[1..])
  }

  lemma {:induction false} TreeBlocksIsSum(hashes: nat)
    requires hashes > 0
    ensures TreeBlocks(hashes) == Sum(LevelHashes(hashes)[1..]) + 1
    decreases hashes
  {
    UpIs(hashes);
    var h := LevelHashes(hashes);
    if Up(hashes) > 1 {
      TreeBlocksIsSum(Up(hashes));
      assert h[1..] == LevelHashes(Up(hashes));
    }
  }

  /** More data never needs a smaller tree, although the number of levels varies. */
  lemma {:induction false} TreeMonotone(x: nat, y: nat)
    requires x <= y
    ensures TreeBlocks(x) <= TreeBlocks(y)
    decreases y
  {
    UpIs(x);
    UpIs(y);
    UpMonotone(x, y);
    if Up(x) > 1 {
      TreeMonotone(Up(x), Up(y));
    }
  }

  lemma {:induction false} TreeBound(hashes: nat)
    ensures Up(hashes) <= TreeBlocks(hashes) <= Up(hashes) + 2 * Up(Up(hashes))
    decreases hashes
  {
    UpIs(hashes);
    if Up(hashes) > 1 {
      TreeBound(Up(hashes));
      UpIs(Up(hashes));
      UpIs(Up(Up(hashes)));
    }
  }

  /** The loop of verity_get_size; the optional level_hashes array keeps 32 bits of each count. */
  method VerityGetSize(fileSize: nat) returns (size: nat, levels: nat, levelHashes: seq<nat>)
    requires fileSize < TWO_64
    ensures size == TreeBlocks(fileSize / FEC_BLOCKSIZE) * FEC_BLOCKSIZE < TWO_64
    ensures levels == |levelHashes| == |LevelHashes(fileSize / FEC_BLOCKSIZE)|
    ensures forall i :: 0 <= i < levels ==> levelHashes[i] == LevelHashes(fileSize / FEC_BLOCKSIZE)[i] % 0x1_0000_0000
  {
    hide Up, LevelHashes, TreeBlocks;
    var total, hashes := 0, fileSize / FEC_BLOCKSIZE;
    ghost var all := hashes;
    LevelsUnfold(hashes);
    SizeFits(fileSize);
    levels, levelHashes := 1, [hashes % 0x1_0000_0000];
    hashes := DivUp(U64(hashes * DIGEST), FEC_BLOCKSIZE);
    UpOf(all, fileSize);
    total := total + hashes;
    ghost var done := [all];
    while hashes > 1
      invariant hashes <= all && levels == |levelHashes| == |done|
      invariant total + (if hashes > 1 then TreeBlocks(hashes) else 0) == TreeBlocks(all)
      invariant done + (if hashes > 1 then LevelHashes(hashes) else []) == LevelHashes(all)
      invariant forall i :: 0 <= i < levels ==> levelHashes[i] == done[i] % 0x1_0000_0000
      decreases hashes
    {
      LevelsUnfold(hashes);
      assert forall rest: seq<nat> :: done + ([hashes] + rest) == (done + [hashes]) + rest;
      levels, levelHashes, done := levels + 1, levelHashes + [hashes % 0x1_0000_0000], done + [hashes];
      UpOf(hashes, fileSize);
      hashes := DivUp(U64(hashes * DIGEST), FEC_BLOCKSIZE);
      total := total + hashes;
    }
    size := U64(total * FEC_BLOCKSIZE);
  }

  lemma UpOf(hashes: nat, fileSize: nat)
    requires hashes <= fileSize / FEC_BLOCKSIZE && fileSize < TWO_64
    ensures DivUp(U64(hashes * DIGEST), FEC_BLOCKSIZE) == Up(hashes) <= hashes
    ensures hashes > 1 ==> Up(hashes) < hashes
  {
    UpIs(hashes);
  }

  lemma LevelsUnfold(hashes: nat)
    ensures TreeBlocks(hashes) == Up(hashes) + if Up(hashes) > 1 then TreeBlocks(Up(hashes)) else 0
    ensures LevelHashes(hashes) == [hashes] + if Up(hashes) > 1 then LevelHashes(Up(hashes)) else []
  {
  }

  lemma SizeFits(fileSize: nat)
    requires fileSize < TWO_64
    ensures TreeBlocks(fileSize / FEC_BLOCKSIZE) * FEC_BLOCKSIZE < TWO_64
  {
    var h := fileSize / FEC_BLOCKSIZE;
    TreeBound(h);
    UpIs(h);
    UpIs(Up(h));
  }

  // ----------------------------------------------------- searching for the metadata

  /** get_verity_size. */
  function VeritySize(size: nat): nat
  {
    VERITY_METADATA_SIZE + TreeBlocks(size / FEC_BLOCKSIZE) * FEC_BLOCKSIZE
  }

  lemma SizeMonotone(x: nat, y: nat)
    requires x <= y
    ensures VeritySize(x) <= VeritySize(y)
  {
    TreeMonotone(x / FEC_BLOCKSIZE, y / FEC_BLOCKSIZE);
  }

  /** The metadata takes about one part in 127. */
  lemma SizeBound(size: nat)
    ensures VERITY_METADATA_SIZE <= VeritySize(size) <= VERITY_METADATA_SIZE + 3 * FEC_BLOCKSIZE + size / 64
    ensures VeritySize(size) % FEC_BLOCKSIZE == 0
  {
    var h := size / FEC_BLOCKSIZE;
    TreeBound(h);
    UpIs(h);
    UpIs(Up(h));
  }

  /** A place where a file of fileSize bytes can be data followed by its verity metadata. */
  predicate IsOffset(fileSize: nat, offset: nat)
  {
    offset % FEC_BLOCKSIZE == 0 && offset + VeritySize(offset) == fileSize
  }

  lemma OffsetUnique(fileSize: nat, a: nat, b: nat)
    requires IsOffset(fileSize, a) && IsOffset(fileSize, b)
    ensures a == b
  {
    hide VeritySize;
    if a < b {
      SizeMonotone(a, b);
    } else if b < a {
      SizeMonotone(b, a);
    }
  }

  /** Every such place lies in the range the search starts with. */
  lemma OffsetInRange(fileSize: nat, offset: nat)
    requires IsOffset(fileSize, offset)
    ensures fileSize - 2 * VeritySize(fileSize) <= offset < fileSize - VeritySize(fileSize) / 2
  {
    hide TreeBlocks;
    SizeMonotone(offset, fileSize);
    var h := offset / FEC_BLOCKSIZE;
    var t := TreeBlocks(h);
    assert fileSize == (h + 8 + t) * FEC_BLOCKSIZE;
    assert fileSize / FEC_BLOCKSIZE == h + 8 + t;
    DoubleTree(h);
    assert VeritySize(fileSize) < 2 * VeritySize(offset);
  }

  lemma DoubleTree(h: nat)
    ensures 8 + TreeBlocks(h + 8 + TreeBlocks(h)) < 2 * (8 + TreeBlocks(h))
  {
    hide Up, TreeBlocks;
    var t := TreeBlocks(h);
    var x := h + 8 + t;
    TreeBound(h);
    TreeBound(x);
    var c, d := Up(h), Up(x);
    UpIs(h);
    UpIs(x);
    UpIs(c);
    UpIs(d);
    assert 128 * d < h + 8 + t + 128;
    assert t <= c + 2 * Up(c) && 128 * Up(c) < c + 128;
    assert 64 * t <= 65 * c + 128;
    assert 128 * 64 * d < 64 * 128 * c + 64 * 136 + 65 * c + 128;
    assert TreeBlocks(x) <= d + 2 * Up(d) && 128 * Up(d) < d + 128;
  }

  /** The block in the middle of [lo, hi), as uint64_t computes it. */
  function Middle(lo: nat, hi: nat): nat
  {
    U64(hi + lo) / (2 * FEC_BLOCKSIZE) * FEC_BLOCKSIZE
  }

  function StartLow(fileSize: nat): nat { U64(fileSize - U64(VeritySize(fileSize) * 2)) }

  function StartHigh(fileSize: nat): nat { U64(fileSize - VeritySize(fileSize) / 2) }

  datatype Search = Going(lo: nat, hi: nat) | Found(offset: nat) | NotFound

  /** One round of the loop in find_offset. */
  function Round(fileSize: nat, lo: nat, hi: nat): Search
  {
    if lo < hi then
      var mi := Middle(lo, hi);
      var total := U64(mi + VeritySize(mi));
      if total < fileSize then Going(U64(mi + FEC_BLOCKSIZE), hi)
      else if total > fileSize then Going(lo, mi)
      else Found(mi)
    else NotFound
  }

  /** As long as the sum does not overflow, the middle is one. */
  lemma MiddleFacts(lo: nat, hi: nat)
    requires lo < hi && lo + hi < TWO_64
    ensures var mi := Middle(lo, hi);
            && mi % FEC_BLOCKSIZE == 0 && lo < mi + FEC_BLOCKSIZE && mi < hi && mi < TWO_63
            && mi + VeritySize(mi) < TWO_64
            && (lo % FEC_BLOCKSIZE == 0 ==> lo <= mi)
  {
    SizeBound(Middle(lo, hi));
  }

  lemma StartFacts(fileSize: nat)
    requires fileSize % FEC_BLOCKSIZE == 0 && fileSize < TWO_64
    ensures 2 * VeritySize(fileSize) <= fileSize ==>
              && StartLow(fileSize) == fileSize - 2 * VeritySize(fileSize)
              && StartHigh(fileSize) == fileSize - VeritySize(fileSize) / 2
              && StartLow(fileSize) < StartHigh(fileSize)
    ensures StartLow(fileSize) % FEC_BLOCKSIZE == 0 && StartLow(fileSize) < TWO_64
  {
    hide VeritySize, U64;
    SizeBound(fileSize);
    var v := VeritySize(fileSize);
    Wraps(v * 2);
    Wraps(fileSize - 2 * v);
    Wraps(fileSize - v / 2);
  }

  /** A file too short for its own metadata ends the search in the first round, if it starts at all. */
  lemma TooShort(fileSize: nat)
    requires fileSize % FEC_BLOCKSIZE == 0 && fileSize < 2 * VeritySize(fileSize)
    requires StartLow(fileSize) < StartHigh(fileSize)
    ensures var mi := Middle(StartLow(fileSize), StartHigh(fileSize));
            fileSize < mi + VeritySize(mi) < TWO_64 && mi < StartLow(fileSize) && mi < StartHigh(fileSize)
  {
    hide VeritySize, U64;
    SizeBound(fileSize);
    var v := VeritySize(fileSize);
    assert fileSize < 23 * FEC_BLOCKSIZE && v <= 12 * FEC_BLOCKSIZE;
    Wraps(v * 2);
    Wraps(fileSize - 2 * v);
    Wraps(fileSize - v / 2);
    assert fileSize < v / 2;
    var lo, hi := StartLow(fileSize), StartHigh(fileSize);
    Wraps(hi + lo);
    SizeBound(Middle(lo, hi));
  }

  // ------------------------------------------------------- when the sum hi + lo overflows

  /** `lo` after a first round that does not overflow. */
  function SecondLow(fileSize: nat): nat
  {
    (StartLow(fileSize) + StartHigh(fileSize)) / (2 * FEC_BLOCKSIZE) * FEC_BLOCKSIZE + FEC_BLOCKSIZE
  }

  /** The sum hi + lo reaches 2^64 in the first or the second round. */
  predicate Overflows(fileSize: nat)
  {
    && fileSize % FEC_BLOCKSIZE == 0 && 2 * VeritySize(fileSize) <= fileSize
    && SecondLow(fileSize) + StartHigh(fileSize) >= TWO_64
  }

  function Pow128(n: nat): nat
  {
    if n == 0 then 1 else 128 * Pow128(n - 1)
  }

  /** The tree takes one block in 127, up to one block for each level. */
  lemma {:induction false} TreeIsOneIn127(hashes: nat, n: nat)
    requires 0 < hashes <= Pow128(n) && n > 0
    ensures hashes - 1 <= 127 * TreeBlocks(hashes) <= hashes + 127 * n
    decreases n
  {
    var u := Up(hashes);
    UpIs(hashes);
    LevelsUnfold(hashes);
    if u > 1 {
      assert u <= Pow128(n - 1);
      assert n > 1;
      TreeIsOneIn127(u, n - 1);
    }
  }

  /** Sizes in blocks, for all sizes of 64 bits. */
  lemma SizeInBlocks(blocks: nat)
    requires 0 < blocks < 0x10_0000_0000_0000
    ensures var v := VeritySize(blocks * FEC_BLOCKSIZE) / FEC_BLOCKSIZE;
            && VeritySize(blocks * FEC_BLOCKSIZE) == v * FEC_BLOCKSIZE
            && blocks - 1 + 127 * 8 <= 127 * v <= blocks + 127 * 16
  {
    hide TreeBlocks;
    assert Pow128(8) == 0x100_0000_0000_0000 by {
      assert Pow128(2) == 0x4000 && Pow128(4) == 0x1000_0000 && Pow128(6) == 0x400_0000_0000;
    }
    TreeIsOneIn127(blocks, 8);
    assert blocks * FEC_BLOCKSIZE / FEC_BLOCKSIZE == blocks;
  }

  const BLOCKS_63: nat := 0x8_0000_0000_0000    // 2^63 bytes
  const BLOCKS_64: nat := 0x10_0000_0000_0000   // 2^64 bytes

  /** The start of the search in blocks: f of the file, v of metadata for as many, from f - 2v to about f - v/2. */
  lemma StartInBlocks(fileSize: nat) returns (f: nat, v: nat, b: nat)
    requires fileSize % FEC_BLOCKSIZE == 0 && fileSize < TWO_64 && 2 * VeritySize(fileSize) <= fileSize
    ensures fileSize == f * FEC_BLOCKSIZE && 0 < f < BLOCKS_64 && f - 1 + 1016 <= 127 * v <= f + 2032 && 2 * v <= f
    ensures StartLow(fileSize) == (f - 2 * v) * FEC_BLOCKSIZE
    ensures b == StartHigh(fileSize) / FEC_BLOCKSIZE && 2 * b <= 2 * f - v <= 2 * b + 1
    ensures SecondLow(fileSize) == ((b + f - 2 * v) / 2 + 1) * FEC_BLOCKSIZE
    ensures Overflows(fileSize) <==> (b + f - 2 * v) / 2 + 1 + b >= BLOCKS_64
  {
    hide VeritySize, StartLow, StartHigh;
    SizeBound(fileSize);
    StartFacts(fileSize);
    f := fileSize / FEC_BLOCKSIZE;
    assert fileSize == f * FEC_BLOCKSIZE;
    SizeInBlocks(f);
    v := VeritySize(fileSize) / FEC_BLOCKSIZE;
    b := StartHigh(fileSize) / FEC_BLOCKSIZE;
    var hi, l := StartHigh(fileSize), f - 2 * v;
    assert hi == f * FEC_BLOCKSIZE - v * FEC_BLOCKSIZE / 2;
    HalfSum(l, hi);
    SumReaches((b + l) / 2 + 1, hi);
  }

  lemma HalfSum(l: nat, hi: nat)
    ensures (l * FEC_BLOCKSIZE + hi) / (2 * FEC_BLOCKSIZE) == (l + hi / FEC_BLOCKSIZE) / 2
  {
  }

  lemma SumReaches(l: nat, hi: nat)
    ensures l * FEC_BLOCKSIZE + hi >= TWO_64 <==> l + hi / FEC_BLOCKSIZE >= BLOCKS_64
  {
  }

  /** Where the second round does not overflow, its middle is not too low, and lies in the lower half of the range. */
  lemma SecondIsHigh(fileSize: nat)
    requires fileSize % FEC_BLOCKSIZE == 0 && fileSize < TWO_64 && 2 * VeritySize(fileSize) <= fileSize
    requires !Overflows(fileSize) && StartHigh(fileSize) > TWO_63
    ensures var mi := Middle(SecondLow(fileSize), StartHigh(fileSize)); mi + VeritySize(mi) >= fileSize
    ensures StartLow(fileSize) < SecondLow(fileSize) && SecondLow(fileSize) + StartHigh(fileSize) < TWO_64
  {
    hide VeritySize, StartLow, StartHigh, U64, Overflows, SecondLow;
    var f, v, b := StartInBlocks(fileSize);
    var hi, l := StartHigh(fileSize), (b + f - 2 * v) / 2 + 1;
    SumReaches(l, hi);
    Wraps(l * FEC_BLOCKSIZE + hi);
    HalfSum(l, hi);
    var m := (l + b) / 2;
    assert Middle(l * FEC_BLOCKSIZE, hi) == m * FEC_BLOCKSIZE;
    SizeInBlocks(m);
    assert m + VeritySize(m * FEC_BLOCKSIZE) / FEC_BLOCKSIZE >= f;
  }

  /**
   * find_offset with get_verity_size, for every size at which the sum hi + lo does not overflow in the
   * first two rounds. It always ends, and it finds the place of the metadata exactly when there is one
   * and the file is at least twice as long as get_verity_size makes of its length.
   */
  method FindOffset(fileSize: nat) returns (r: Option<nat>)
    requires fileSize < TWO_64 && !Overflows(fileSize)
    ensures r.Some? ==> IsOffset(fileSize, r.value)
    ensures r.Some? <==> 2 * VeritySize(fileSize) <= fileSize && exists o: nat :: IsOffset(fileSize, o)
  {
    hide VeritySize, TreeBlocks, IsOffset, U64, Middle, StartLow, StartHigh, SecondLow, Overflows;
    if fileSize % FEC_BLOCKSIZE != 0 {
      NoOffset(fileSize);
      return None;
    }
    StartFacts(fileSize);
    StartIs(fileSize);
    var mi := GetVeritySize(fileSize);
    var lo: nat, hi: nat := U64(fileSize - U64(mi * 2)), U64(fileSize - mi / 2);
    ghost var fits := 2 * VeritySize(fileSize) <= fileSize;
    Inside(fileSize);
    while lo < hi
      invariant lo % FEC_BLOCKSIZE == 0
      invariant fits ==> forall o: nat :: IsOffset(fileSize, o) ==> lo <= o < hi
      invariant fits ==> hi <= TWO_63 || (hi == StartHigh(fileSize) && (lo == StartLow(fileSize) || lo == SecondLow(fileSize)))
      invariant !fits ==> lo >= hi || (lo == StartLow(fileSize) && hi == StartHigh(fileSize))
      decreases if lo < hi then hi - lo else 0
    {
      mi := Middle(lo, hi);
      if fits {
        if hi > TWO_63 {
          SecondIsHigh(fileSize);
          FirstMiddle(fileSize);
        }
        MiddleFacts(lo, hi);
        Around(fileSize, mi);
      } else {
        TooShort(fileSize);
      }
      Wraps(mi + VeritySize(mi));
      Wraps(mi + FEC_BLOCKSIZE);
      var size := GetVeritySize(mi);
      var total := U64(mi + size);
      if total < fileSize {
        lo := U64(mi + FEC_BLOCKSIZE);
      } else if total > fileSize {
        hi := mi;
      } else {
        return Some(mi);
      }
    }
    return None;
  }

  lemma FirstMiddle(fileSize: nat)
    requires StartLow(fileSize) + StartHigh(fileSize) < TWO_64
    ensures Middle(StartLow(fileSize), StartHigh(fileSize)) + FEC_BLOCKSIZE == SecondLow(fileSize)
  {
    hide StartLow, StartHigh, U64;
    Wraps(StartLow(fileSize) + StartHigh(fileSize));
  }

  lemma StartIs(fileSize: nat)
    ensures StartLow(fileSize) == U64(fileSize - U64(VeritySize(fileSize) * 2))
    ensures StartHigh(fileSize) == U64(fileSize - VeritySize(fileSize) / 2)
  {
  }

  lemma NoOffset(fileSize: nat)
    requires fileSize % FEC_BLOCKSIZE != 0
    ensures !exists o: nat :: IsOffset(fileSize, o)
  {
    hide VeritySize;
    forall o: nat ensures !IsOffset(fileSize, o) {
      SizeBound(o);
    }
  }

  lemma Inside(fileSize: nat)
    ensures forall o: nat :: IsOffset(fileSize, o) ==>
              fileSize - 2 * VeritySize(fileSize) <= o < fileSize - VeritySize(fileSize) / 2
  {
    forall o: nat | IsOffset(fileSize, o)
      ensures fileSize - 2 * VeritySize(fileSize) <= o < fileSize - VeritySize(fileSize) / 2
    {
      OffsetInRange(fileSize, o);
    }
  }

  /** What comparing block mi with the file size says about the place looked for. */
  lemma Around(fileSize: nat, mi: nat)
    requires mi % FEC_BLOCKSIZE == 0
    ensures mi + VeritySize(mi) < fileSize ==> forall o: nat :: IsOffset(fileSize, o) ==> mi + FEC_BLOCKSIZE <= o
    ensures mi + VeritySize(mi) > fileSize ==> forall o: nat :: IsOffset(fileSize, o) ==> o < mi
    ensures mi + VeritySize(mi) == fileSize ==> IsOffset(fileSize, mi)
  {
    hide VeritySize;
    forall o: nat | IsOffset(fileSize, o)
      ensures mi + VeritySize(mi) < fileSize ==> mi + FEC_BLOCKSIZE <= o
      ensures mi + VeritySize(mi) > fileSize ==> o < mi
    {
      if o <= mi {
        SizeMonotone(o, mi);
      } else {
        SizeMonotone(mi, o);
      }
    }
  }

  method GetVeritySize(size: nat) returns (r: nat)
    requires size < TWO_64
    ensures r == VeritySize(size)
  {
    var tree, levels, hashes := VerityGetSize(size);
    r := VERITY_METADATA_SIZE + tree;
  }

  /** Ten blocks can be one block of data and its metadata, but the search does not start. */
  lemma ShortFileMissed()
    ensures IsOffset(10 * FEC_BLOCKSIZE, FEC_BLOCKSIZE) && 2 * VeritySize(10 * FEC_BLOCKSIZE) > 10 * FEC_BLOCKSIZE
  {
    assert Up(1) == 1 && Up(10) == 1;
  }

  // -------------------------------------------------------------- a search without end

  ghost function Rounds(fileSize: nat, s: Search, n: nat): Search
  {
    if n == 0 then s
    else
      var t := Rounds(fileSize, s, n - 1);
      if t.Going? then Round(fileSize, t.lo, t.hi) else t
  }

  ghost function After(fileSize: nat, n: nat): Search
  {
    Rounds(fileSize, Going(StartLow(fileSize), StartHigh(fileSize)), n)
  }

  lemma OverflowFacts(fileSize: nat)
    requires fileSize < TWO_64 && Overflows(fileSize)
    ensures StartLow(fileSize) < StartHigh(fileSize) && TWO_63 < StartHigh(fileSize) < TWO_64
  {
    hide VeritySize, StartLow, StartHigh, SecondLow;
    var f, v, b := StartInBlocks(fileSize);
    StartFacts(fileSize);
  }

  /**
   * No middle ever reaches the upper half of the range. When every block below it is too low, the
   * search goes on for ever.
   */
  lemma {:induction false} LowNeverEnds(fileSize: nat, n: nat)
    requires fileSize < TWO_64 && Overflows(fileSize)
    requires TWO_63 - FEC_BLOCKSIZE + VeritySize(TWO_63 - FEC_BLOCKSIZE) < fileSize
    ensures var s := After(fileSize, n); s.Going? && s.lo < s.hi && s.hi == StartHigh(fileSize)
  {
    hide VeritySize, U64, Middle, StartLow, StartHigh, Overflows;
    OverflowFacts(fileSize);
    if n > 0 {
      LowNeverEnds(fileSize, n - 1);
      var t := After(fileSize, n - 1);
      LowRound(fileSize, t.lo, t.hi);
    }
  }

  lemma LowRound(fileSize: nat, lo: nat, hi: nat)
    requires lo < hi && TWO_63 - FEC_BLOCKSIZE + VeritySize(TWO_63 - FEC_BLOCKSIZE) < fileSize < TWO_64
    ensures exists lo': nat :: Round(fileSize, lo, hi) == Going(lo', hi) && lo' <= TWO_63
  {
    hide VeritySize, U64, Middle;
    var mi := Middle(lo, hi);
    MiddleLow(lo, hi);
    SizeMonotone(mi, TWO_63 - FEC_BLOCKSIZE);
    Wraps(mi + VeritySize(mi));
    Wraps(mi + FEC_BLOCKSIZE);
    assert Round(fileSize, lo, hi) == Going(mi + FEC_BLOCKSIZE, hi);
  }

  lemma MiddleLow(lo: nat, hi: nat)
    ensures Middle(lo, hi) <= TWO_63 - FEC_BLOCKSIZE
  {
  }

  // In the narrow band left, some blocks of the lower half are high enough, but no middle comes to one.
  // With b the upper end and l the lower one in blocks, let d = b + 2 - l. A round halves d; if the sum
  // overflows, which is so up to d = 2b + 2 - 2^52, it adds 2^51 as well.

  const WIDTH: nat := 0x800_0000_0000      // 2^43
  const SLACK: nat := 0x8_0000_0000        // 2^35

  /** d is p times 2^43, and a little more. */
  predicate OnTheWay(d: int, p: nat)
  {
    p in {1, 2, 4, 8, 16, 32, 64, 128, 256} && p * WIDTH <= d <= p * (WIDTH + SLACK)
  }

  function Halved(b: nat, d: int): int
  {
    (d + 1) / 2 + if d <= 2 * b + 2 - BLOCKS_64 then BLOCKS_63 else 0
  }

  /** d is on the way, or the next sum overflows. */
  ghost predicate Trapped(b: nat, d: int)
  {
    WIDTH <= d <= 2 * b + 2 - BLOCKS_64 || exists p: nat :: OnTheWay(d, p)
  }

  lemma StaysTrapped(b: nat, d: int)
    requires Trapped(b, d) && WIDTH + SLACK <= 2 * b + 2 - BLOCKS_64 < 2 * WIDTH
    ensures Trapped(b, Halved(b, d)) && Halved(b, d) >= WIDTH
  {
    var d' := Halved(b, d);
    if WIDTH <= d <= 2 * b + 2 - BLOCKS_64 {
      assert OnTheWay(d', 256);
    } else {
      var p: nat :| OnTheWay(d, p);
      assert OnTheWay(d', p / 2);
    }
  }

  /** The search starts as StartInBlocks says, and some block of the lower half is not too low. */
  ghost predicate InBand(fileSize: nat, f: nat, v: nat, b: nat)
  {
    && fileSize == f * FEC_BLOCKSIZE && 0 < f < BLOCKS_64
    && f - 1 + 1016 <= 127 * v <= f + 2032 && 2 * v <= f && 2 * b <= 2 * f - v <= 2 * b + 1
    && (b + f - 2 * v) / 2 + 1 + b >= BLOCKS_64
    && TWO_63 - FEC_BLOCKSIZE + VeritySize(TWO_63 - FEC_BLOCKSIZE) >= fileSize
  }

  /** How far sums overflow there, and that blocks 2^43 or more below the upper end are too low. */
  lemma BandFacts(fileSize: nat, f: nat, v: nat, b: nat)
    requires InBand(fileSize, f, v, b)
    ensures WIDTH + SLACK <= 2 * b + 2 - BLOCKS_64 < 2 * WIDTH && 2 * v <= f && f - 2 * v <= b
    ensures WIDTH <= Halved(b, b + 2 - (f - 2 * v)) <= 2 * b + 2 - BLOCKS_64
    ensures forall m: nat :: m + 1 + WIDTH <= b + 2 ==> m * FEC_BLOCKSIZE + VeritySize(m * FEC_BLOCKSIZE) < fileSize
  {
    hide VeritySize;
    SizeInBlocks(BLOCKS_63 - 1);
    assert (BLOCKS_63 - 1) * FEC_BLOCKSIZE == TWO_63 - FEC_BLOCKSIZE;
    var top := VeritySize(TWO_63 - FEC_BLOCKSIZE) / FEC_BLOCKSIZE;
    assert f <= BLOCKS_63 - 1 + top;
    assert b >= BLOCKS_63;
    forall m: nat | m + 1 + WIDTH <= b + 2 ensures m * FEC_BLOCKSIZE + VeritySize(m * FEC_BLOCKSIZE) < fileSize {
      if m > 0 {
        SizeInBlocks(m);
      } else {
        SizeBound(0);
      }
    }
  }

  lemma FirstTrapped(b: nat, d: int)
    requires WIDTH <= d <= 2 * b + 2 - BLOCKS_64
    ensures Trapped(b, d)
  {
  }

  lemma MidNotNegative(b: nat, d: int)
    requires d <= b + 2 && b > 0
    ensures Halved(b, d) <= b + 1
  {
  }

  /** One round in blocks, from a middle that is too low. */
  lemma BandRound(fileSize: nat, hi: nat, l: nat)
    requires hi < TWO_64 && l * FEC_BLOCKSIZE < hi && fileSize < TWO_64
    requires var b := hi / FEC_BLOCKSIZE; var m := b + 1 - Halved(b, b + 2 - l);
             m >= 0 && m * FEC_BLOCKSIZE + VeritySize(m * FEC_BLOCKSIZE) < fileSize
    ensures var b := hi / FEC_BLOCKSIZE; var l' := b + 2 - Halved(b, b + 2 - l);
            l' > 0 && Round(fileSize, l * FEC_BLOCKSIZE, hi) == Going(l' * FEC_BLOCKSIZE, hi)
  {
    hide VeritySize, U64;
    var b := hi / FEC_BLOCKSIZE;
    var m := b + 1 - Halved(b, b + 2 - l);
    HalfSum(l, hi);
    SumReaches(l, hi);
    Wraps(hi + l * FEC_BLOCKSIZE);
    assert Middle(l * FEC_BLOCKSIZE, hi) == m * FEC_BLOCKSIZE;
    Wraps(m * FEC_BLOCKSIZE + VeritySize(m * FEC_BLOCKSIZE));
    MiddleLow(l * FEC_BLOCKSIZE, hi);
    Wraps(m * FEC_BLOCKSIZE + FEC_BLOCKSIZE);
  }

  lemma {:induction false} BandNeverEnds(fileSize: nat, n: nat, f: nat, v: nat, b: nat) returns (l: nat)
    requires fileSize < TWO_64 && Overflows(fileSize) && n > 0 && InBand(fileSize, f, v, b)
    requires StartLow(fileSize) == (f - 2 * v) * FEC_BLOCKSIZE && b == StartHigh(fileSize) / FEC_BLOCKSIZE
    ensures After(fileSize, n) == Going(l * FEC_BLOCKSIZE, StartHigh(fileSize))
    ensures l < b && Trapped(b, b + 2 - l)
    decreases n
  {
    hide VeritySize, StartLow, StartHigh, Overflows, Round, Trapped, Halved, InBand;
    OverflowFacts(fileSize);
    BandFacts(fileSize, f, v, b);
    var l0: nat;
    if n == 1 {
      l0 := f - 2 * v;
      FirstTrapped(b, Halved(b, b + 2 - l0));
    } else {
      l0 := BandNeverEnds(fileSize, n - 1, f, v, b);
      StaysTrapped(b, b + 2 - l0);
    }
    MidNotNegative(b, b + 2 - l0);
    l := b + 2 - Halved(b, b + 2 - l0);
    InBlocks(l0, StartHigh(fileSize));
    BandRound(fileSize, StartHigh(fileSize), l0);
    OneMore(fileSize, n, l0 * FEC_BLOCKSIZE);
  }

  lemma InBlocks(l: nat, hi: nat)
    ensures l < hi / FEC_BLOCKSIZE ==> l * FEC_BLOCKSIZE < hi
  {
  }

  lemma OneMore(fileSize: nat, n: nat, lo: nat)
    requires n > 0 && After(fileSize, n - 1) == Going(lo, StartHigh(fileSize))
    ensures After(fileSize, n) == Round(fileSize, lo, StartHigh(fileSize))
  {
    hide Round, StartHigh, StartLow;
  }

  /**
   * For every size at which the sum hi + lo overflows in the first or the second round, the search goes
   * on for ever; for every other size FindOffset ends.
   */
  lemma NeverEnds(fileSize: nat, n: nat)
    requires fileSize < TWO_64 && Overflows(fileSize)
    ensures var s := After(fileSize, n); s.Going? && s.lo < s.hi
  {
    hide VeritySize, StartLow, StartHigh, SecondLow, Round;
    OverflowFacts(fileSize);
    if n == 0 {
    } else if TWO_63 - FEC_BLOCKSIZE + VeritySize(TWO_63 - FEC_BLOCKSIZE) < fileSize {
      LowNeverEnds(fileSize, n);
    } else {
      var f, v, b := StartInBlocks(fileSize);
      var l := BandNeverEnds(fileSize, n, f, v, b);
      InBlocks(l, StartHigh(fileSize));
    }
  }

  /** The largest block-aligned size is such a case. */
  lemma LargestNeverEnds(n: nat)
    ensures After(TWO_64 - FEC_BLOCKSIZE, n).Going?
  {
    hide VeritySize, StartLow, StartHigh, SecondLow, Overflows;
    var fileSize := TWO_64 - FEC_BLOCKSIZE;
    SizeBound(fileSize);
    var f, v, b := StartInBlocks(fileSize);
    NeverEnds(fileSize, n);
  }

  /** All sizes up to 2^63 end, and a little beyond. */
  lemma HalfEnds(fileSize: nat)
    requires fileSize <= TWO_63 + TWO_63 / 256
    ensures !Overflows(fileSize)
  {
    hide VeritySize, StartLow, StartHigh, SecondLow;
    if Overflows(fileSize) {
      var f, v, b := StartInBlocks(fileSize);
    }
  }
}
