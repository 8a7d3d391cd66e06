/**
 * Reading through a loaded hash tree: verity_read with its raw, zero and corrected paths, the
 * split of a read over threads (process), and fec_pread on top.
 */
module VerityRead {
  import opened Common
  import opened VerityLayout
  import opened VerityTree

  /** Block b has the digest that the loaded tree holds for block k. */
  ghost predicate Genuine(t: Tree, hashData: seq<byte>, k: nat, b: seq<byte>)
  {
    && ShapeOk(t) && |b| == FEC_BLOCKSIZE && (k + 1) * DIGEST <= |hashData|
    && BlockOk(t, hashData[k * DIGEST..(k + 1) * DIGEST], b)
  }

  /** Byte p of the image, as some block with the right digest has it. */
  ghost predicate GenuineByte(t: Tree, hashData: seq<byte>, p: nat, x: byte)
  {
    exists b: seq<byte> :: Genuine(t, hashData, p / FEC_BLOCKSIZE, b) && b[p % FEC_BLOCKSIZE] == x
  }

  ghost predicate Certified(t: Tree, hashData: seq<byte>, offset: nat, bytes: seq<byte>)
  {
    forall p :: 0 <= p < |bytes| ==> GenuineByte(t, hashData, offset + p, bytes[p])
  }

  lemma CertifiedConcat(t: Tree, hashData: seq<byte>, offset: nat, a: seq<byte>, b: seq<byte>)
    requires Certified(t, hashData, offset, a) && Certified(t, hashData, offset + |a|, b)
    ensures Certified(t, hashData, offset, a + b)
  {
    hide GenuineByte;
    forall p | 0 <= p < |a + b| ensures GenuineByte(t, hashData, offset + p, (a + b)[p]) {
      if p >= |a| {
        assert (a + b)[p] == b[p - |a|] && offset + |a| + (p - |a|) == offset + p;
      }
    }
  }

  /** A piece of one genuine block. */
  lemma PieceCertified(t: Tree, hashData: seq<byte>, k: nat, b: seq<byte>, from: nat, count: nat)
    requires Genuine(t, hashData, k, b) && from + count <= FEC_BLOCKSIZE
    ensures Certified(t, hashData, k * FEC_BLOCKSIZE + from, b[from..from + count])
  {
    hide Genuine, GenuineByte;
    assert |b| == FEC_BLOCKSIZE by { GenuineLength(t, hashData, k, b); }
    var piece := b[from..from + count];
    forall p | 0 <= p < |piece| ensures GenuineByte(t, hashData, k * FEC_BLOCKSIZE + from + p, piece[p]) {
      DivModUnique(k * FEC_BLOCKSIZE + from + p, FEC_BLOCKSIZE, k, from + p);
      ByteOf(t, hashData, k, b, from + p);
    }
  }

  /** Only the digest's own bytes count of the 32 that the tree keeps for a block. */
  lemma GenuineIff(t: Tree, hashData: seq<byte>, k: nat, b: seq<byte>)
    requires ShapeOk(t) && k * 32 + 32 <= |hashData|
    ensures Genuine(t, hashData, k, b) <==> |b| == 4096 && hashData[k * 32..k * 32 + t.digestLength] == t.hash(b)
  {
    var slot := hashData[k * DIGEST..(k + 1) * DIGEST];
    assert slot[..t.digestLength] == hashData[k * 32..k * 32 + t.digestLength];
  }

  lemma GenuineLength(t: Tree, hashData: seq<byte>, k: nat, b: seq<byte>)
    requires Genuine(t, hashData, k, b)
    ensures |b| == FEC_BLOCKSIZE
  {
  }

  lemma ByteOf(t: Tree, hashData: seq<byte>, k: nat, b: seq<byte>, i: nat)
    requires Genuine(t, hashData, k, b) && i < FEC_BLOCKSIZE
    requires (k * FEC_BLOCKSIZE + i) / FEC_BLOCKSIZE == k && (k * FEC_BLOCKSIZE + i) % FEC_BLOCKSIZE == i
    ensures |b| == FEC_BLOCKSIZE && GenuineByte(t, hashData, k * FEC_BLOCKSIZE + i, b[i])
  {
  }

  /** An image every block of which has the right digest. */
  ghost predicate IsImage(t: Tree, hashData: seq<byte>, image: seq<byte>)
  {
    && |image| == t.dataBlocks * FEC_BLOCKSIZE
    && forall k: nat :: k < t.dataBlocks ==> Genuine(t, hashData, k, Block(image, 0, k))
  }

  /** No other block has the digest that the tree holds for block k of the image. */
  ghost predicate Unmatched(t: Tree, hashData: seq<byte>, image: seq<byte>, k: nat)
    requires (k + 1) * FEC_BLOCKSIZE <= |image|
  {
    forall b: seq<byte> :: Genuine(t, hashData, k, b) ==> b == Block(image, 0, k)
  }

  /** Where no other blocks have the digests of the image's, certified bytes are the image's and no others. */
  lemma CertifiedIsImage(t: Tree, hashData: seq<byte>, offset: nat, bytes: seq<byte>, image: seq<byte>)
    requires IsImage(t, hashData, image) && Certified(t, hashData, offset, bytes) && offset + |bytes| <= |image|
    requires forall k: nat :: k < t.dataBlocks && offset < (k + 1) * FEC_BLOCKSIZE && k * FEC_BLOCKSIZE < offset + |bytes|
               ==> Unmatched(t, hashData, image, k)
    ensures bytes == image[offset..offset + |bytes|]
  {
    hide GenuineByte, Genuine, Unmatched;
    forall p | 0 <= p < |bytes| ensures bytes[p] == image[offset + p] {
      assert GenuineByte(t, hashData, offset + p, bytes[p]);
      var k := (offset + p) / FEC_BLOCKSIZE;
      assert k < t.dataBlocks;
      ImageByte(t, hashData, offset + p, bytes[p], image);
      assert Block(image, 0, k)[(offset + p) % FEC_BLOCKSIZE] == image[offset + p];
    }
  }

  lemma ImageByte(t: Tree, hashData: seq<byte>, p: nat, x: byte, image: seq<byte>)
    requires GenuineByte(t, hashData, p, x) && (p / FEC_BLOCKSIZE + 1) * FEC_BLOCKSIZE <= |image|
    requires Unmatched(t, hashData, image, p / FEC_BLOCKSIZE)
    ensures Block(image, 0, p / FEC_BLOCKSIZE)[p % FEC_BLOCKSIZE] == x
  {
    hide Genuine;
    var b: seq<byte> :| Genuine(t, hashData, p / FEC_BLOCKSIZE, b) && b[p % FEC_BLOCKSIZE] == x;
  }

  /** Only the image's own bytes are certified for block k if and only if no other block has its digest. */
  lemma OnlyImageIff(t: Tree, hashData: seq<byte>, k: nat, image: seq<byte>)
    requires IsImage(t, hashData, image) && k < t.dataBlocks
    ensures (k + 1) * FEC_BLOCKSIZE <= |image|
    ensures Unmatched(t, hashData, image, k) <==>
              forall b: seq<byte> :: |b| == FEC_BLOCKSIZE && Certified(t, hashData, k * FEC_BLOCKSIZE, b) ==> b == Block(image, 0, k)
  {
    hide Genuine, Certified;
    MulMonotone(k + 1, t.dataBlocks, FEC_BLOCKSIZE);
    if Unmatched(t, hashData, image, k) {
      forall b: seq<byte> | |b| == FEC_BLOCKSIZE && Certified(t, hashData, k * FEC_BLOCKSIZE, b) ensures b == Block(image, 0, k) {
        forall l: nat | l < t.dataBlocks && k * FEC_BLOCKSIZE < (l + 1) * FEC_BLOCKSIZE && l * FEC_BLOCKSIZE < k * FEC_BLOCKSIZE + |b|
          ensures Unmatched(t, hashData, image, l)
        {
          assert l == k;
        }
        CertifiedIsImage(t, hashData, k * FEC_BLOCKSIZE, b, image);
      }
    } else {
      var b: seq<byte> :| Genuine(t, hashData, k, b) && b != Block(image, 0, k);
      PieceCertified(t, hashData, k, b, 0, FEC_BLOCKSIZE);
      GenuineLength(t, hashData, k, b);
      assert b[0..FEC_BLOCKSIZE] == b;
    }
  }

  // ------------------------------------------------------------------ the handle

  class FecHandle {
    var file: seq<byte>            // what is behind the file descriptor
    const dataSize: nat
    const eccStart: nat
    const readWrite: bool
    const tree: Tree
    const hashData: seq<byte>
    const zeroHash: seq<byte>
    const decode: (seq<byte>, nat, bool) -> Option<seq<byte>>   // __ecc_read: anything at all

    constructor (file: seq<byte>, dataSize: nat, eccStart: nat, readWrite: bool, tree: Tree, hashData: seq<byte>,
                 zeroHash: seq<byte>, decode: (seq<byte>, nat, bool) -> Option<seq<byte>>)
      ensures this.file == file && this.dataSize == dataSize && this.eccStart == eccStart && this.readWrite == readWrite
      ensures this.tree == tree && this.hashData == hashData && this.zeroHash == zeroHash && this.decode == decode
    {
      this.file, this.dataSize, this.eccStart, this.readWrite := file, dataSize, eccStart, readWrite;
      this.tree, this.hashData, this.zeroHash, this.decode := tree, hashData, zeroHash, decode;
    }

    /** What verify_tree leaves behind, for a data area of whole blocks. */
    ghost predicate Loaded()
    {
      && HashOk(tree) && dataSize == tree.dataBlocks * FEC_BLOCKSIZE < TWO_64
      && |hashData| == Up(tree.dataBlocks) * FEC_BLOCKSIZE > 0 && |hashData| < TWO_64
      && zeroHash == tree.hash(ZERO_BLOCK) + seq(DIGEST - tree.digestLength, _ => 0)
      && (forall f, o, e :: decode(f, o, e).Some? ==> |decode(f, o, e).value| == FEC_BLOCKSIZE)
    }

    /** The digest held for block k is that of a block of zeros. */
    ghost predicate ExpectsZeros(k: nat)
    {
      (k + 1) * DIGEST <= |hashData| && hashData[k * DIGEST..(k + 1) * DIGEST] == zeroHash
    }

    /** Decoding gives a block with the right digest. */
    ghost predicate Decodes(file: seq<byte>, k: nat, erasures: bool)
    {
      var d := decode(file, k * FEC_BLOCKSIZE, erasures);
      d.Some? && Genuine(tree, hashData, k, d.value)
    }

    /** What it takes to read block k. */
    ghost predicate Recoverable(file: seq<byte>, k: nat)
    {
      || (!readWrite && ExpectsZeros(k))
      || ((k + 1) * FEC_BLOCKSIZE <= |file|
          && (Genuine(tree, hashData, k, Block(file, 0, k)) || ExpectsZeros(k)
              || (eccStart != 0 && (Decodes(file, k, false) || Decodes(file, k, true)))))
    }

    /** check_block_hash_with_index; a failed index check comes out as true. */
    method CheckBlockHashWithIndex(index: nat, block: seq<byte>) returns (ok: bool)
      requires Loaded() && |block| == FEC_BLOCKSIZE
      ensures index < tree.dataBlocks ==> (ok <==> Genuine(tree, hashData, index, block))
      ensures index >= tree.dataBlocks ==> ok
    {
      if index >= tree.dataBlocks {
        return true;
      }
      DigestInside(tree.dataBlocks, index);
      ok := BlockOk(tree, hashData[index * DIGEST..(index + 1) * DIGEST], block);
    }

    /** is_zero: the digest held for the block at `offset` is that of a block of zeros. */
    method IsZero(offset: nat) returns (zero: bool)
      requires Loaded()
      ensures zero <==> offset < dataSize && ExpectsZeros(offset / FEC_BLOCKSIZE)
      ensures zero ==> Genuine(tree, hashData, offset / FEC_BLOCKSIZE, ZERO_BLOCK)
    {
      if offset < dataSize {
        DigestInside(tree.dataBlocks, offset / FEC_BLOCKSIZE);
      }
      if |hashData| == 0 || offset >= dataSize {
        return false;
      }
      var hashOffset := offset / FEC_BLOCKSIZE * DIGEST;
      if hashOffset > |hashData| - DIGEST {
        return false;
      }
      zero := zeroHash == hashData[hashOffset..hashOffset + DIGEST];
      if zero {
        ZeroDigest(tree, zeroHash, hashData, offset / FEC_BLOCKSIZE);
      }
    }

    /** raw_pwrite of one block. */
    method WriteBlock(k: nat, block: seq<byte>) returns (ok: bool)
      requires |block| == FEC_BLOCKSIZE
      modifies this
      ensures ok <==> (k + 1) * FEC_BLOCKSIZE <= |old(file)|
      ensures ok ==> file == Patched(old(file), k * FEC_BLOCKSIZE, block)
      ensures !ok ==> file == old(file)
    {
      ok := (k + 1) * FEC_BLOCKSIZE <= |file|;
      if ok {
        file := Patched(file, k * FEC_BLOCKSIZE, block);
      }
    }

    /**
     * The body of the loop in verity_read. Whatever path it takes, the block it gives has the right
     * digest, and only such a block is ever written back.
     */
    method ReadBlock(curr: nat) returns (r: Option<seq<byte>>)
      requires Loaded() && curr < tree.dataBlocks
      modifies this
      ensures r.Some? <==> Recoverable(old(file), curr)
      ensures r.Some? ==> Genuine(tree, hashData, curr, r.value)
      ensures || file == old(file)
              || (readWrite && r.Some? && (curr + 1) * FEC_BLOCKSIZE <= |old(file)|
                  && file == Patched(old(file), curr * FEC_BLOCKSIZE, r.value))
      ensures Undamaged(old(file), tree, hashData, curr) ==> r.Some? && file == old(file)
    {
      var expectZeros := IsZero(curr * FEC_BLOCKSIZE);
      if !readWrite && expectZeros {
        return Some(ZERO_BLOCK);
      }
      var raw := RawRead(file, FEC_BLOCKSIZE, curr * FEC_BLOCKSIZE);
      if raw.None? {
        return None;
      }
      var ok := CheckBlockHashWithIndex(curr, raw.value);
      if ok {
        return raw;
      }
      var data: seq<byte>;
      if expectZeros {
        data := ZERO_BLOCK;
      } else {
        if eccStart == 0 {
          return None;
        }
        var fixed := Correct(curr);
        if fixed.None? {
          return None;
        }
        data := fixed.value;
      }
      if readWrite {
        var written := WriteBlock(curr, data);
        if !written {
          return None;
        }
      }
      return Some(data);
    }

    /** Decoding without and then with erasures; the digest decides which result to believe. */
    method Correct(curr: nat) returns (r: Option<seq<byte>>)
      requires Loaded() && curr < tree.dataBlocks
      ensures r.Some? <==> Decodes(file, curr, false) || Decodes(file, curr, true)
      ensures r.Some? ==> Genuine(tree, hashData, curr, r.value)
    {
      var first := decode(file, curr * FEC_BLOCKSIZE, false);
      if first.Some? {
        var ok := CheckBlockHashWithIndex(curr, first.value);
        if ok {
          return first;
        }
      }
      var second := decode(file, curr * FEC_BLOCKSIZE, true);
      if second.Some? {
        var ok := CheckBlockHashWithIndex(curr, second.value);
        if ok {
          return second;
        }
      }
      return None;
    }

    /**
     * verity_read: reads [offset, offset + count). What it returns is certified; undamaged data is
     * always returned and left alone; a range that ends behind the data is refused.
     */
    method ReadRange(count: nat, offset: nat) returns (r: Option<seq<byte>>)
      requires Loaded() && offset + count < TWO_64
      modifies this
      ensures r.Some? ==> |r.value| == count && offset + count <= dataSize && Certified(tree, hashData, offset, r.value)
      ensures OnlyGenuineWritten(old(file), file, tree, hashData) && (!readWrite ==> file == old(file))
      ensures offset < dataSize && offset + count <= dataSize && UndamagedRange(old(file), tree, hashData, offset, count) ==>
                r.Some? && file == old(file)
    {
      hide Certified, Genuine, HashOk, Up, Undamaged, Patched;
      if !(offset < dataSize) || !(U64(offset + count) <= dataSize) {
        return None;
      }
      var curr := offset / FEC_BLOCKSIZE;
      var coff, left := offset - curr * FEC_BLOCKSIZE, count;
      var maxHashBlock := (|hashData| - DIGEST) / DIGEST;
      BlockCount(tree.dataBlocks, |hashData|);
      NothingYet(tree, hashData, offset);
      var dest: seq<byte> := [];
      SameFile(file, tree, hashData);
      while left > 0
        invariant 0 <= left <= count && |dest| == count - left && 0 <= coff < FEC_BLOCKSIZE
        invariant left > 0 ==> curr * FEC_BLOCKSIZE + coff == offset + |dest|
        invariant Certified(tree, hashData, offset, dest)
        invariant OnlyGenuineWritten(old(file), file, tree, hashData) && (!readWrite ==> file == old(file))
        invariant UndamagedRange(old(file), tree, hashData, offset, count) ==> file == old(file)
        decreases left
      {
        InRange(offset, count, tree.dataBlocks, curr, coff, |dest|);
        if curr > maxHashBlock {
          return None;
        }
        ghost var before := file;
        var block := ReadBlock(curr);
        if block.Some? {
          WriteStep(old(file), before, file, tree, hashData, curr, block.value);
        }
        if block.None? {
          return None;
        }
        var data := block.value;
        GenuineLength(tree, hashData, curr, data);
        var copy := FEC_BLOCKSIZE - coff;
        if copy > left {
          copy := left;
        }
        PieceCertified(tree, hashData, curr, data, coff, copy);
        CertifiedConcat(tree, hashData, offset, dest, data[coff..coff + copy]);
        dest := dest + data[coff..coff + copy];
        left, coff, curr := left - copy, 0, curr + 1;
      }
      return Some(dest);
    }

    /**
     * process: one range after another. Every success is the certified request; it fails if the
     * ranges do not fit, and delivers undamaged data if they do.
     */
    method Process(count: nat, offset: nat, processors: nat) returns (r: Option<seq<byte>>)
      requires Loaded() && offset + count < TWO_64
      modifies this
      ensures r.Some? ==> |r.value| == count && Certified(tree, hashData, offset, r.value)
      ensures r.Some? && count > 0 ==> offset + count <= dataSize
      ensures OnlyGenuineWritten(old(file), file, tree, hashData) && (!readWrite ==> file == old(file))
      ensures count == 0 ==> r.Some? && file == old(file)
      ensures count > 0 && !SplitFits(count, offset, processors) ==> r.None?
      ensures SplitFits(count, offset, processors) && offset + count <= dataSize
              && UndamagedRange(old(file), tree, hashData, offset, count) ==>
                r.Some? && file == old(file)
    {
      hide Certified, Genuine, HashOk, Up, Undamaged, Patched, UndamagedRange, OnlyGenuineWritten, GenuineByte,
           Tiles, Covered, SplitFits;
      SameFile(file, tree, hashData);
      NothingYet(tree, hashData, offset);
      if count == 0 {
        return Some([]);
      }
      var ranges, left := Split(count, offset, processors);
      if left != 0 {
        return None;
      }
      var buf: seq<byte> := [];
      var failed, i := false, 0;
      ghost var pos := offset;
      NoRanges(offset);
      while i < |ranges|
        invariant 0 <= i <= |ranges| && pos == Covered(offset, ranges[..i])
        invariant !failed ==> pos == offset + |buf| && Certified(tree, hashData, offset, buf)
        invariant !failed && i > 0 ==> pos <= dataSize
        invariant OnlyGenuineWritten(old(file), file, tree, hashData) && (!readWrite ==> file == old(file))
        invariant offset + count <= dataSize && UndamagedRange(old(file), tree, hashData, offset, count) ==> !failed && file == old(file)
      {
        RangeAt(offset, ranges, i);
        ghost var before := file;
        var part := ReadRange(ranges[i].1, ranges[i].0);
        if offset + count <= dataSize && UndamagedRange(old(file), tree, hashData, offset, count) {
          PartUndamaged(before, tree, hashData, offset, count, ranges[i].0, ranges[i].1);
        }
        WrittenAfter(old(file), before, file, tree, hashData);
        if part.None? {
          failed := true;
        } else if !failed {
          CertifiedConcat(tree, hashData, offset, buf, part.value);
          buf := buf + part.value;
        }
        pos := pos + ranges[i].1;
        i := i + 1;
      }
      assert ranges[..|ranges|] == ranges;
      if failed {
        return None;
      }
      return Some(buf);
    }

    /**
     * fec_pread with a loaded hash tree. A success is always the certified part of the request that
     * lies within the data. A request larger than the data that starts inside it fails, and so does
     * one whose ranges do not fit; any other request for undamaged data succeeds.
     */
    method Pread(count: nat, offset: nat, processors: nat) returns (r: Option<seq<byte>>)
      requires Loaded() && count < TWO_64 && offset < TWO_64
      modifies this
      ensures r.Some? ==> |r.value| == Available(offset, count, dataSize) && Certified(tree, hashData, offset, r.value)
      ensures count > dataSize && offset < dataSize ==> r.None?
      ensures OnlyGenuineWritten(old(file), file, tree, hashData) && (!readWrite ==> file == old(file))
      ensures offset < dataSize && count > 0 && !SplitFits(Available(offset, count, dataSize), offset, processors) ==> r.None?
      ensures && offset + count < TWO_64 && (count <= dataSize || offset >= dataSize)
              && (Available(offset, count, dataSize) == 0 || SplitFits(Available(offset, count, dataSize), offset, processors))
              && UndamagedRange(old(file), tree, hashData, offset, Available(offset, count, dataSize)) ==>
                r.Some? && file == old(file)
    {
      hide Certified, Genuine, HashOk, Up, UndamagedRange, SplitFits;
      SameFile(file, tree, hashData);
      if offset > TWO_64 - 1 - count {
        return None;
      }
      MaxCountCorrectIff(offset, count, dataSize);
      r := Process(GetMaxCount(offset, count, dataSize), offset, processors);
    }
  }

  /** get_max_count, with size_t arithmetic. */
  function GetMaxCount(offset: nat, count: nat, max: nat): nat
  {
    if offset >= max then 0 else if offset > U64(max - count) then max - offset else count
  }

  /** How much of a request lies within the first `max` bytes. */
  function Available(offset: nat, count: nat, max: nat): nat
  {
    if offset >= max then 0 else Min(count, max - offset)
  }

  /** max - count wraps around when more is asked for than there is. */
  lemma MaxCountCorrectIff(offset: nat, count: nat, max: nat)
    requires offset < TWO_64 && count < TWO_64 && max < TWO_64
    ensures GetMaxCount(offset, count, max) == Available(offset, count, max) <==> count <= max || offset >= max
    ensures count > max && offset < max ==> GetMaxCount(offset, count, max) == count
  {
    Wraps(max - count);
  }

  // ---------------------------------------------------------- splitting the work

  /** Where a run of ranges that starts at `offset` ends. */
  function Covered(offset: nat, ranges: seq<(nat, nat)>): nat
  {
    if ranges == [] then offset else Covered(offset, ranges[..|ranges| - 1]) + ranges[|ranges| - 1].1
  }

  /** Each range is nonempty and starts where the one before it ends. */
  predicate Tiles(offset: nat, ranges: seq<(nat, nat)>)
  {
    forall i :: 0 <= i < |ranges| ==> ranges[i].1 > 0 && ranges[i].0 == Covered(offset, ranges[..i])
  }

  /**
   * The loop of process that gives each thread its range. The ranges follow each other without gap
   * or overlap and cover the request exactly if SplitFits; every range but the first starts at a
   * block, so no two threads touch one block.
   */
  method Split(count: nat, offset: nat, processors: nat) returns (ranges: seq<(nat, nat)>, left: nat)
    requires 0 < count && offset + count < TWO_64
    ensures Tiles(offset, ranges) && Covered(offset, ranges) + left == offset + count
    ensures forall i :: 0 < i < |ranges| ==> ranges[i].0 % FEC_BLOCKSIZE == 0
    ensures |ranges| == Started(count, processors)
    ensures left == 0 <==> SplitFits(count, offset, processors)
  {
    hide Covered, Tiles, DivUp, PerThread, Threads;
    StartedIs(count, processors);
    var threads := Threads(processors);
    var start := offset / FEC_BLOCKSIZE * FEC_BLOCKSIZE;
    var countPerThread := PerThread(count, processors);
    PerThreadFacts(count, processors);
    var maxThreads := DivUp(count, countPerThread);
    if threads > maxThreads {
      threads := maxThreads;
    }
    EnoughThreads(count, processors);
    left := count;
    var pos, end := offset, start + countPerThread;
    ranges := [];
    NoRanges(offset);
    var i := 0;
    while i < threads
      invariant 0 <= i <= threads && |ranges| == i
      invariant Tiles(offset, ranges) && Covered(offset, ranges) + left == offset + count
      invariant end == start + (i + 1) * countPerThread && pos == (if i == 0 then offset else start + i * countPerThread)
      invariant left == if pos >= offset + count then 0 else offset + count - pos
      invariant forall k :: 0 < k < |ranges| ==> ranges[k].0 % FEC_BLOCKSIZE == 0
    {
      StillLeft(count, countPerThread, i);
      assert left > 0;
      var n := end - pos;
      if n > left {
        n := left;
      }
      TilesStep(offset, ranges, (pos, n));
      BlockStart(offset / FEC_BLOCKSIZE, i, countPerThread);
      assert (i + 2) * countPerThread == (i + 1) * countPerThread + countPerThread;
      ranges := ranges + [(pos, n)];
      pos, end, left, i := end, end + countPerThread, left - n, i + 1;
    }
  }

  lemma NoRanges(offset: nat)
    ensures Covered(offset, []) == offset && Tiles(offset, [])
  {
  }

  lemma TilesStep(offset: nat, ranges: seq<(nat, nat)>, x: (nat, nat))
    requires Tiles(offset, ranges) && x.0 == Covered(offset, ranges) && x.1 > 0
    ensures Tiles(offset, ranges + [x]) && Covered(offset, ranges + [x]) == Covered(offset, ranges) + x.1
  {
    var all := ranges + [x];
    assert all[..|all| - 1] == ranges;
    forall i | 0 <= i < |all| ensures all[i].1 > 0 && all[i].0 == Covered(offset, all[..i]) {
      if i < |ranges| {
        assert all[..i] == ranges[..i];
      }
    }
  }

  lemma BlockStart(first: nat, i: nat, countPerThread: nat)
    requires countPerThread % FEC_BLOCKSIZE == 0
    ensures (first * FEC_BLOCKSIZE + i * countPerThread) % FEC_BLOCKSIZE == 0
  {
    var c := countPerThread / FEC_BLOCKSIZE;
    assert i * countPerThread == i * c * FEC_BLOCKSIZE;
    DivModUnique(first * FEC_BLOCKSIZE + i * countPerThread, FEC_BLOCKSIZE, first + i * c, 0);
  }

  /** A thread that is started has something to do. */
  lemma StillLeft(count: nat, countPerThread: nat, i: nat)
    requires countPerThread > 0 && i < DivUp(count, countPerThread)
    ensures i * countPerThread < count
  {
    hide DivUp;
    DivUpFacts(count, countPerThread);
    var d := DivUp(count, countPerThread);
    MulMonotone(i + 1, d, countPerThread);
  }

  /** How many threads are started. */
  function Started(count: nat, processors: nat): nat
  {
    if count == 0 then 0 else
    PerThreadFacts(count, processors);
    Min(Threads(processors), DivUp(count, PerThread(count, processors)))
  }

  lemma StartedIs(count: nat, processors: nat)
    requires count > 0
    ensures PerThread(count, processors) > 0
    ensures Started(count, processors) == Min(Threads(processors), DivUp(count, PerThread(count, processors)))
  {
    PerThreadFacts(count, processors);
  }

  /** The ranges are counted from the block the request starts in, but their number from its length alone. */
  predicate SplitFits(count: nat, offset: nat, processors: nat)
  {
    offset % FEC_BLOCKSIZE + count <= Started(count, processors) * PerThread(count, processors)
  }

  /** Block-aligned requests always fit. */
  lemma AlignedFits(count: nat, offset: nat, processors: nat)
    requires count > 0 && offset % FEC_BLOCKSIZE == 0
    ensures SplitFits(count, offset, processors)
  {
    hide DivUp, PerThread, Threads;
    StartedIs(count, processors);
    EnoughThreads(count, processors);
  }

  /** One block's worth of bytes from offset 1 never does: the last byte is left over. */
  lemma UnalignedBlockFails(processors: nat)
    ensures !SplitFits(FEC_BLOCKSIZE, 1, processors)
  {
    StartedIs(FEC_BLOCKSIZE, processors);
    hide Started;
    var threads := Threads(processors);
    assert DivUp(FEC_BLOCKSIZE, FEC_BLOCKSIZE) == 1;
    assert DivUp(1, threads) == 1 by {
      if threads > 1 {
        DivModUnique(1, threads, 0, 1);
      }
    }
    assert PerThread(FEC_BLOCKSIZE, processors) == FEC_BLOCKSIZE;
  }

  /**
   * How the work is split, by the request and the number of processors. `per` blocks are for each
   * thread, as few as lets no more threads do all of them than there are processors, from 1 to 64;
   * so many threads are started as these pieces take. The request fits if it does not reach beyond
   * their end, counted from the block it starts in.
   */
  lemma SplitIs(count: nat, offset: nat, processors: nat)
    requires count > 0
    ensures var blocks, threads := DivUp(count, 4096), if processors < 1 then 1 else if processors > 64 then 64 else processors;
            var per := DivUp(blocks, threads);
            && per > 0 && PerThread(count, processors) == per * 4096
            && Started(count, processors) == DivUp(blocks, per) <= threads
            && (SplitFits(count, offset, processors) <==> offset % 4096 + count <= DivUp(blocks, per) * per * 4096)
  {
    hide DivUp, Started;
    var blocks, threads := DivUp(count, 4096), if processors < 1 then 1 else if processors > 64 then 64 else processors;
    DivUpFacts(count, 4096);
    DivUpFacts(blocks, threads);
    var per := DivUp(blocks, threads);
    StartedIs(count, processors);
    DivUpLeast(blocks, per, threads);
    DivUpTwice(count, 4096, per);
    assert DivUp(blocks, per) * (per * 4096) == DivUp(blocks, per) * per * 4096;
  }

  /** n pieces of k are enough for x exactly if n is at least the rounded-up quotient. */
  lemma DivUpLeast(x: nat, k: nat, n: nat)
    requires k > 0 && x <= n * k
    ensures DivUp(x, k) <= n
  {
    hide DivUp;
    DivUpFacts(x, k);
    if DivUp(x, k) > n {
      MulMonotone(n, DivUp(x, k) - 1, k);
    }
  }

  lemma DivUpTwice(x: nat, a: nat, b: nat)
    requires a > 0 && b > 0
    ensures b * a > 0 && DivUp(x, b * a) == DivUp(DivUp(x, a), b)
  {
    hide DivUp;
    var y := DivUp(x, a);
    DivUpFacts(x, a);
    DivUpFacts(y, b);
    DivUpFacts(x, b * a);
    var q, r := DivUp(x, b * a), DivUp(y, b);
    assert q * (b * a) == (q * b) * a && r * (b * a) == (r * b) * a;
    MulMonotone(y, r * b, a);
    DivUpLeast(x, b * a, r);
    DivUpLeast(x, a, q * b);
    DivUpLeast(y, b, q);
  }

  function Threads(processors: nat): nat
  {
    if processors < 1 then 1 else if processors > 64 then 64 else processors
  }

  function PerThread(count: nat, processors: nat): nat
  {
    DivUp(DivUp(count, FEC_BLOCKSIZE), Threads(processors)) * FEC_BLOCKSIZE
  }

  lemma PerThreadFacts(count: nat, processors: nat)
    requires count > 0
    ensures PerThread(count, processors) > 0 && PerThread(count, processors) % FEC_BLOCKSIZE == 0
  {
    DivUpFacts(count, FEC_BLOCKSIZE);
    DivUpFacts(DivUp(count, FEC_BLOCKSIZE), Threads(processors));
  }

  /** Both bounds on the number of threads leave enough of them. */
  lemma EnoughThreads(count: nat, processors: nat)
    requires count > 0
    ensures 1 <= Threads(processors) <= 64 && count <= Threads(processors) * PerThread(count, processors)
    ensures PerThread(count, processors) > 0
    ensures var m := DivUp(count, PerThread(count, processors)); m > 0 && count <= m * PerThread(count, processors)
  {
    hide DivUp;
    PerThreadFacts(count, processors);
    var blocks, threads := DivUp(count, FEC_BLOCKSIZE), Threads(processors);
    DivUpFacts(count, FEC_BLOCKSIZE);
    DivUpFacts(blocks, threads);
    DivUpFacts(count, PerThread(count, processors));
    var d := DivUp(blocks, threads);
    assert threads * (d * FEC_BLOCKSIZE) == d * threads * FEC_BLOCKSIZE;
  }

  lemma RangeAt(offset: nat, ranges: seq<(nat, nat)>, i: nat)
    requires Tiles(offset, ranges) && i < |ranges|
    ensures ranges[i].0 == Covered(offset, ranges[..i]) && ranges[i].1 > 0
    ensures Covered(offset, ranges[..i + 1]) == ranges[i].0 + ranges[i].1 <= Covered(offset, ranges)
    ensures offset <= ranges[i].0
  {
    assert ranges[..i + 1][..i] == ranges[..i];
    CoveredGrows(offset, ranges, i + 1);
    CoveredGrows(offset, ranges[..i], 0);
  }

  lemma {:induction false} CoveredGrows(offset: nat, ranges: seq<(nat, nat)>, i: nat)
    requires i <= |ranges|
    ensures offset <= Covered(offset, ranges[..i]) <= Covered(offset, ranges)
    decreases |ranges|
  {
    if i < |ranges| {
      var init := ranges[..|ranges| - 1];
      CoveredGrows(offset, init, i);
      assert init[..i] == ranges[..i];
    } else {
      assert ranges[..i] == ranges;
      if i > 0 {
        CoveredGrows(offset, ranges[..i - 1], i - 1);
        assert ranges[..i - 1][..i - 1] == ranges[..i - 1];
      }
    }
  }

  // ------------------------------------------------------------- damage and repair

  /** The raw block can be read and has the right digest. */
  ghost predicate Undamaged(file: seq<byte>, t: Tree, hashData: seq<byte>, k: nat)
  {
    (k + 1) * FEC_BLOCKSIZE <= |file| && Genuine(t, hashData, k, Block(file, 0, k))
  }

  ghost predicate UndamagedRange(file: seq<byte>, t: Tree, hashData: seq<byte>, offset: nat, count: nat)
  {
    forall k: nat :: offset / FEC_BLOCKSIZE <= k && k * FEC_BLOCKSIZE < offset + count ==> Undamaged(file, t, hashData, k)
  }

  /** Every block that changed has the right digest now. */
  ghost predicate OnlyGenuineWritten(before: seq<byte>, after: seq<byte>, t: Tree, hashData: seq<byte>)
  {
    && |after| == |before|
    && forall k: nat :: (k + 1) * FEC_BLOCKSIZE <= |after| ==>
         Block(after, 0, k) == Block(before, 0, k) || Genuine(t, hashData, k, Block(after, 0, k))
  }

  lemma SameFile(file: seq<byte>, t: Tree, hashData: seq<byte>)
    ensures OnlyGenuineWritten(file, file, t, hashData)
  {
  }

  lemma WrittenAfter(a: seq<byte>, b: seq<byte>, c: seq<byte>, t: Tree, hashData: seq<byte>)
    requires OnlyGenuineWritten(a, b, t, hashData) && OnlyGenuineWritten(b, c, t, hashData)
    ensures OnlyGenuineWritten(a, c, t, hashData)
  {
    hide Genuine, Block;
  }

  lemma WriteStep(a: seq<byte>, b: seq<byte>, c: seq<byte>, t: Tree, hashData: seq<byte>, k: nat, block: seq<byte>)
    requires OnlyGenuineWritten(a, b, t, hashData) && Genuine(t, hashData, k, block)
    requires c == b || ((k + 1) * FEC_BLOCKSIZE <= |b| && c == Patched(b, k * FEC_BLOCKSIZE, block))
    ensures OnlyGenuineWritten(a, c, t, hashData)
  {
    if c == b {
      SameFile(b, t, hashData);
    } else {
      PatchedWritten(b, t, hashData, k, block);
    }
    hide *;
    WrittenAfter(a, b, c, t, hashData);
  }

  lemma PatchedWritten(b: seq<byte>, t: Tree, hashData: seq<byte>, k: nat, block: seq<byte>)
    requires Genuine(t, hashData, k, block) && (k + 1) * FEC_BLOCKSIZE <= |b|
    ensures OnlyGenuineWritten(b, Patched(b, k * FEC_BLOCKSIZE, block), t, hashData)
  {
    GenuineLength(t, hashData, k, block);
    hide Genuine, Patched;
    var c := Patched(b, k * FEC_BLOCKSIZE, block);
    PatchedElsewhere(b, k * FEC_BLOCKSIZE, block);
    forall i: nat | (i + 1) * FEC_BLOCKSIZE <= |c|
      ensures Block(c, 0, i) == Block(b, 0, i) || Genuine(t, hashData, i, Block(c, 0, i))
    {
      PatchedBlock(b, k, block, i);
    }
  }

  lemma PatchedBlock(b: seq<byte>, k: nat, block: seq<byte>, i: nat)
    requires |block| == FEC_BLOCKSIZE && (k + 1) * FEC_BLOCKSIZE <= |b| && (i + 1) * FEC_BLOCKSIZE <= |b|
    ensures var c := Patched(b, k * FEC_BLOCKSIZE, block);
            |c| == |b| && Block(c, 0, i) == if i == k then block else Block(b, 0, i)
  {
    hide Patched;
    var c := Patched(b, k * FEC_BLOCKSIZE, block);
    PatchedElsewhere(b, k * FEC_BLOCKSIZE, block);
    if i < k {
      MulMonotone(i + 1, k, FEC_BLOCKSIZE);
    } else if i > k {
      MulMonotone(k + 1, i, FEC_BLOCKSIZE);
    }
  }

  lemma PartUndamaged(file: seq<byte>, t: Tree, hashData: seq<byte>, offset: nat, count: nat, from: nat, n: nat)
    requires UndamagedRange(file, t, hashData, offset, count) && offset <= from && from + n <= offset + count
    ensures UndamagedRange(file, t, hashData, from, n)
  {
    hide Undamaged;
    assert offset / FEC_BLOCKSIZE <= from / FEC_BLOCKSIZE;
  }

  lemma NothingYet(t: Tree, hashData: seq<byte>, offset: nat)
    ensures Certified(t, hashData, offset, [])
  {
  }

  lemma BlockCount(dataBlocks: nat, length: nat)
    requires length == Up(dataBlocks) * FEC_BLOCKSIZE > 0
    ensures dataBlocks <= (length - DIGEST) / DIGEST + 1
  {
    UpIs(dataBlocks);
  }

  /** While something is left to read, the current block is one of the data. */
  lemma InRange(offset: nat, count: nat, dataBlocks: nat, curr: nat, coff: nat, done: nat)
    requires offset + count <= dataBlocks * FEC_BLOCKSIZE && done < count && coff < FEC_BLOCKSIZE
    requires curr * FEC_BLOCKSIZE + coff == offset + done
    ensures curr < dataBlocks && offset / FEC_BLOCKSIZE <= curr && curr * FEC_BLOCKSIZE < offset + count
  {
    if curr >= dataBlocks {
      MulMonotone(dataBlocks, curr, FEC_BLOCKSIZE);
    }
  }

  lemma DigestInside(dataBlocks: nat, index: nat)
    requires index < dataBlocks
    ensures (index + 1) * DIGEST <= Up(dataBlocks) * FEC_BLOCKSIZE
  {
    UpIs(dataBlocks);
  }

  lemma ZeroDigest(t: Tree, zeroHash: seq<byte>, hashData: seq<byte>, k: nat)
    requires HashOk(t) && zeroHash == t.hash(ZERO_BLOCK) + seq(DIGEST - t.digestLength, _ => 0)
    requires (k + 1) * DIGEST <= |hashData| && zeroHash == hashData[k * DIGEST..k * DIGEST + DIGEST]
    ensures Genuine(t, hashData, k, ZERO_BLOCK)
  {
    assert (k + 1) * DIGEST == k * DIGEST + DIGEST;
    assert |ZERO_BLOCK| == FEC_BLOCKSIZE;
    assert zeroHash[..t.digestLength] == t.hash(ZERO_BLOCK);
  }
}
