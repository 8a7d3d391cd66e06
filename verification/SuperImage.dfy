/**
 * Writing a partition image into the extents of a super image (lpadd) and extracting a partition
 * from its extents into a file with holes (lpunpack).
 */
module SuperImage {
  import opened Common

  const LP_SECTOR_SIZE: nat := 512

  /** LpMetadataExtent; only linear extents of the first block device are supported. */
  datatype Extent = Extent(numSectors: nat, linear: bool, targetData: nat, targetSource: nat)

  predicate Supported(e: Extent) { e.linear && e.targetSource == 0 }

  function StartOf(e: Extent): nat { e.targetData * LP_SECTOR_SIZE }

  function SizeOf(e: Extent): nat { e.numSectors * LP_SECTOR_SIZE }

  /** The extent is empty or lies within the image. */
  predicate Readable(d: seq<byte>, e: Extent) { SizeOf(e) == 0 || StartOf(e) + SizeOf(e) <= |d| }

  function Part(d: seq<byte>, e: Extent): (r: seq<byte>)
    ensures Readable(d, e) ==> |r| == SizeOf(e)
  {
    if StartOf(e) + SizeOf(e) <= |d| then d[StartOf(e)..StartOf(e) + SizeOf(e)] else []
  }

  /** The sizes of the extents together: where the next one's part of the image starts. */
  function Total(es: seq<Extent>): nat
  {
    if es == [] then 0 else Total(es[..|es| - 1]) + SizeOf(es[|es| - 1])
  }

  /** The bytes of the extents, one behind the other. */
  function Contents(d: seq<byte>, es: seq<Extent>): seq<byte>
  {
    if es == [] then [] else Contents(d, es[..|es| - 1]) + Part(d, es[|es| - 1])
  }

  lemma ContentsStep(d: seq<byte>, es: seq<Extent>, i: nat)
    requires i < |es|
    ensures Contents(d, es[..i + 1]) == Contents(d, es[..i]) + Part(d, es[i])
    ensures Total(es[..i + 1]) == Total(es[..i]) + SizeOf(es[i])
  {
    assert es[..i + 1][..i] == es[..i];
  }

  // ------------------------------------------------------------------------- files

  /** An open file: its bytes and the file position. */
  class File {
    var data: seq<byte>
    var pos: nat

    constructor (data: seq<byte>)
      ensures this.data == data && pos == 0
    {
      this.data, pos := data, 0;
    }

    /** ReadFully. */
    method Read(n: nat) returns (r: Option<seq<byte>>)
      modifies this`pos
      ensures if old(pos) + n <= |data| then r == Some(data[old(pos)..old(pos) + n]) && pos == old(pos) + n
              else r == None
    {
      if pos + n <= |data| {
        r, pos := Some(data[pos..pos + n]), pos + n;
      } else {
        r := None;
      }
    }

    /** WriteFully. */
    method Write(b: seq<byte>)
      modifies this
      ensures data == Patched(old(data), old(pos), b) && pos == old(pos) + |b|
    {
      data, pos := Patched(data, pos, b), pos + |b|;
    }
  }

  // ---------------------------------------------------------------------- extracting

  /** SparseWriter: blocks of zeros become holes. */
  class SparseWriter {
    const output: File
    const image: File
    const blockSize: nat
    var holeSize: nat

    /** What was written so far, holes included. */
    ghost predicate Wrote(w: seq<byte>)
      reads this, output
    {
      && output.pos == |output.data| && |w| == output.pos + holeSize
      && w == output.data + ZeroBytes(holeSize)
    }

    constructor (output: File, image: File, blockSize: nat)
      requires output.data == [] && output.pos == 0
      ensures this.output == output && this.image == image && this.blockSize == blockSize && Wrote([])
    {
      this.output, this.image, this.blockSize, holeSize := output, image, blockSize, 0;
    }

    method WriteBlock(data: seq<byte>, ghost w: seq<byte>)
      requires Wrote(w) && |data| == blockSize
      modifies this, output
      ensures Wrote(w + data)
    {
      var skip := ShouldSkipChunk(data);
      if skip {
        assert ZeroBytes(holeSize) + ZeroBytes(blockSize) == ZeroBytes(holeSize + blockSize);
        assert w + data == output.data + (ZeroBytes(holeSize) + ZeroBytes(blockSize));
        holeSize := holeSize + blockSize;
        return;
      }
      ghost var before := output.data;
      if holeSize > 0 {
        output.pos := output.pos + holeSize;
        holeSize := 0;
      }
      output.Write(data);
      assert output.data == w + data;
    }

    /** Copies one extent, block by block. */
    method WriteExtent(e: Extent, ghost w: seq<byte>) returns (ok: bool)
      requires Wrote(w) && image != output && blockSize > 0
      modifies this, output, image`pos
      ensures ok <==> SizeOf(e) % blockSize == 0 && Readable(image.data, e)
      ensures ok ==> Wrote(w + Part(image.data, e))
    {
      image.pos := StartOf(e);
      var left := SizeOf(e);
      ghost var n := 0;
      assert image.data[..0] == [] && w + [] == w;
      while left > 0
        invariant 0 <= n && left + n * blockSize == SizeOf(e) && left >= 0
        invariant image.pos == StartOf(e) + n * blockSize
        invariant n > 0 ==> image.pos <= |image.data|
        invariant n == 0 ==> Wrote(w)
        invariant n > 0 ==> Wrote(w + image.data[StartOf(e)..image.pos])
        decreases left
      {
        Multiple(left, n, blockSize, SizeOf(e));
        if left < blockSize {
          return false;
        }
        var buffer := image.Read(blockSize);
        if buffer.None? {
          return false;
        }
        ghost var so := if n == 0 then w else w + image.data[StartOf(e)..image.pos - blockSize];
        WriteBlock(buffer.value, so);
        assert so + buffer.value == w + image.data[StartOf(e)..image.pos];
        left := left - blockSize;
        n := n + 1;
        assert (n - 1) * blockSize + blockSize == n * blockSize;
      }
      Multiple(left, n, blockSize, SizeOf(e));
      assert SizeOf(e) == 0 ==> w + Part(image.data, e) == w;
      ok := true;
    }

    /** A hole at the end becomes part of the file. */
    method Finish(ghost w: seq<byte>)
      requires Wrote(w)
      modifies output
      ensures output.data == w
    {
      if holeSize > 0 {
        output.data := Resized(output.data, output.pos + holeSize);
      }
    }
  }

  method ShouldSkipChunk(data: seq<byte>) returns (skip: bool)
    ensures skip <==> data == ZeroBytes(|data|)
  {
    var i := 0;
    while i < |data|
      invariant 0 <= i <= |data| && forall k :: 0 <= k < i ==> data[k] == 0
    {
      if data[i] != 0 {
        assert ZeroBytes(|data|)[i] == 0;
        return false;
      }
      i := i + 1;
    }
    return true;
  }

  lemma Multiple(left: nat, n: nat, block: nat, size: nat)
    requires block > 0 && left + n * block == size
    ensures left < block ==> (size % block == 0 <==> left == 0)
  {
    if left < block {
      DivModUnique(size, block, n, left);
    }
  }

  /** The whole partition can be read: whole blocks of linear extents inside the super image. */
  predicate Extractable(d: seq<byte>, es: seq<Extent>, block: nat)
    requires block > 0
  {
    forall i :: 0 <= i < |es| ==> Supported(es[i]) && SizeOf(es[i]) % block == 0 && Readable(d, es[i])
  }

  /** ExtractPartition: it succeeds exactly for such partitions, and then gives their bytes, holes or not. */
  method ExtractPartition(image: File, es: seq<Extent>, blockSize: nat) returns (output: Option<seq<byte>>)
    requires blockSize > 0
    modifies image`pos
    ensures output.Some? <==> Extractable(image.data, es, blockSize)
    ensures output.Some? ==> output.value == Contents(image.data, es)
  {
    hide Contents, Part, Readable, SizeOf;
    for i := 0 to |es|
      invariant forall k :: 0 <= k < i ==> Supported(es[k])
    {
      if !Supported(es[i]) {
        return None;
      }
    }
    var file := new File([]);
    var writer := new SparseWriter(file, image, blockSize);
    NoContents(image.data, es);
    for i := 0 to |es|
      invariant writer.output == file && writer.image == image && writer.blockSize == blockSize
      invariant fresh(writer) && fresh(file) && writer.Wrote(Contents(image.data, es[..i]))
      invariant forall k :: 0 <= k < i ==> SizeOf(es[k]) % blockSize == 0 && Readable(image.data, es[k])
    {
      ContentsStep(image.data, es, i);
      var ok := writer.WriteExtent(es[i], Contents(image.data, es[..i]));
      if !ok {
        return None;
      }
    }
    assert es[..|es|] == es;
    writer.Finish(Contents(image.data, es));
    output := Some(file.data);
  }

  lemma NoContents(d: seq<byte>, es: seq<Extent>)
    ensures Contents(d, es[..0]) == [] && Total(es[..0]) == 0
  {
  }

  // ------------------------------------------------------------------------- writing

  /** How much of a file of `size` bytes goes into the extent at image offset `at`. */
  function Share(size: nat, at: nat, e: Extent): nat
  {
    if at >= size then 0 else Min(size - at, SizeOf(e))
  }

  datatype WriteResult = Written | CheckFailed

  /** WriteExtent of lpadd: the next bytes of the image, as many as there are and as fit, in 4K chunks. */
  method WriteExtent(fd: File, fileSize: nat, super: File, e: Extent) returns (r: WriteResult)
    requires fd != super && fileSize == |fd.data| && fd.pos <= fileSize
    modifies fd`pos, super
    ensures r == Written <==> Supported(e)
    ensures r == Written || (r == CheckFailed && super.data == old(super.data) && fd.pos == old(fd.pos))
    ensures r == Written ==>
              && var n := Share(fileSize, old(fd.pos), e);
              && fd.pos == old(fd.pos) + n <= fileSize
              && super.data == Patched(old(super.data), StartOf(e), fd.data[old(fd.pos)..old(fd.pos) + n])
  {
    if !Supported(e) {
      return CheckFailed;
    }
    hide Patched, StartOf, SizeOf;
    var n := Min(fileSize - fd.pos, SizeOf(e));
    super.pos := StartOf(e);
    CopyBytes(fd, super, n);
    r := Written;
  }

  /** The loop of WriteExtent. */
  method CopyBytes(fd: File, super: File, n: nat)
    requires fd != super && fd.pos + n <= |fd.data|
    modifies fd`pos, super
    ensures fd.pos == old(fd.pos) + n
    ensures super.data == Patched(old(super.data), old(super.pos), fd.data[old(fd.pos)..old(fd.pos) + n])
  {
    hide Patched;
    ghost var from, before, start := fd.pos, super.data, super.pos;
    var left := n;
    PatchedNothing(before, start);
    assert fd.data[from..from] == [];
    while left > 0
      invariant 0 <= left <= n && fd.pos == from + (n - left) && super.pos == start + (n - left)
      invariant super.data == Patched(before, start, fd.data[from..fd.pos])
      decreases left
    {
      var bytes := Min(4096, left);
      ghost var mid := fd.pos;
      var buffer := fd.Read(bytes);
      if buffer.None? {
        assert false;
      }
      super.Write(buffer.value);
      SliceJoin(fd.data, from, mid, fd.pos);
      PatchedMore(before, start, fd.data[from..mid], fd.data[mid..fd.pos]);
      left := left - bytes;
    }
  }

  lemma SliceJoin(d: seq<byte>, a: nat, b: nat, c: nat)
    requires a <= b <= c <= |d|
    ensures d[a..b] + d[b..c] == d[a..c]
  {
  }

  /** No two extents share a byte. */
  ghost predicate Disjoint(es: seq<Extent>)
  {
    forall i, j :: 0 <= i < j < |es| ==>
      StartOf(es[i]) + SizeOf(es[i]) <= StartOf(es[j]) || StartOf(es[j]) + SizeOf(es[j]) <= StartOf(es[i])
  }

  /** Extent i holds its share of the image. */
  ghost predicate Holds(d: seq<byte>, image: seq<byte>, es: seq<Extent>, i: nat)
    requires i < |es|
  {
    var at, n := Total(es[..i]), Share(|image|, Total(es[..i]), es[i]);
    n > 0 ==> StartOf(es[i]) + n <= |d| && at + n <= |image| && d[StartOf(es[i])..StartOf(es[i]) + n] == image[at..at + n]
  }

  /** A byte of the super image that belongs to one of the extents. */
  ghost predicate Owned(es: seq<Extent>, x: nat)
  {
    exists i :: 0 <= i < |es| && StartOf(es[i]) <= x < StartOf(es[i]) + SizeOf(es[i])
  }

  /** Bytes outside the extents are as they were; if the file grew, they are zeros. */
  ghost predicate OthersUntouched(before: seq<byte>, after: seq<byte>, es: seq<Extent>)
  {
    && |before| <= |after|
    && forall x: nat :: x < |after| && !Owned(es, x) ==> after[x] == if x < |before| then before[x] else 0
  }

  lemma HoldsKept(d: seq<byte>, d': seq<byte>, image: seq<byte>, es: seq<Extent>, i: nat, at: nat, n: nat)
    requires i < |es| && Holds(d, image, es, i) && |d| <= |d'|
    requires forall x :: 0 <= x < |d| && !(at <= x < at + n) ==> d'[x] == d[x]
    requires StartOf(es[i]) + SizeOf(es[i]) <= at || at + n <= StartOf(es[i])
    ensures Holds(d', image, es, i)
  {
    hide Total;
    var s, k := StartOf(es[i]), Share(|image|, Total(es[..i]), es[i]);
    assert k <= SizeOf(es[i]);
    if k > 0 {
      assert d'[s..s + k] == d[s..s + k];
    }
  }

  /**
   * WritePartition. For disjoint extents it succeeds, with its final check holding, exactly if they
   * are all supported and large enough together; every extent then holds its share of the image and
   * nothing else has changed.
   */
  method WritePartition(fd: File, fileSize: nat, super: File, es: seq<Extent>) returns (r: WriteResult)
    requires fd != super && fileSize == |fd.data| && fd.pos == 0 && Disjoint(es)
    modifies fd`pos, super
    ensures r == Written <==> (forall i :: 0 <= i < |es| ==> Supported(es[i])) && fileSize <= Total(es)
    ensures r == Written ==> forall i :: 0 <= i < |es| ==> Holds(super.data, fd.data, es, i)
    ensures OthersUntouched(old(super.data), super.data, es)
  {
    hide Patched, StartOf, SizeOf, Holds, Total, OthersUntouched, Disjoint, Supported, Contents, Part;
    NoContents(super.data, es);
    Untouched(super.data, es);
    ghost var first := super.data;
    for i := 0 to |es|
      invariant fd.pos == Min(fileSize, Total(es[..i]))
      invariant forall k :: 0 <= k < i ==> Supported(es[k])
      invariant forall k :: 0 <= k < i ==> Holds(super.data, fd.data, es, k)
      invariant OthersUntouched(first, super.data, es)
    {
      ghost var before, at := super.data, fd.pos;
      ContentsStep(first, es, i);
      var done := WriteExtent(fd, fileSize, super, es[i]);
      if done != Written {
        return CheckFailed;
      }
      ExtentWritten(first, before, super.data, fd.data, es, i, at);
    }
    assert es[..|es|] == es;
    if fd.pos == fileSize {
      r := Written;
    } else {
      r := CheckFailed;
    }
  }

  lemma Untouched(d: seq<byte>, es: seq<Extent>)
    ensures OthersUntouched(d, d, es)
  {
  }

  /** Extent i got its share; the earlier ones and everything else are as they were. */
  lemma ExtentWritten(first: seq<byte>, d: seq<byte>, d': seq<byte>, image: seq<byte>, es: seq<Extent>, i: nat, at: nat)
    requires Disjoint(es) && OthersUntouched(first, d, es) && i < |es|
    requires forall k :: 0 <= k < i ==> Holds(d, image, es, k)
    requires at == Min(|image|, Total(es[..i])) && at + Share(|image|, at, es[i]) <= |image|
    requires d' == Patched(d, StartOf(es[i]), image[at..at + Share(|image|, at, es[i])])
    ensures OthersUntouched(first, d', es)
    ensures forall k :: 0 <= k < i + 1 ==> Holds(d', image, es, k)
  {
    hide Patched, Total;
    var n, start := Share(|image|, at, es[i]), StartOf(es[i]);
    assert n == Share(|image|, Total(es[..i]), es[i]) <= SizeOf(es[i]);
    if n == 0 {
      PatchedNothing(d, start);
      assert image[at..at + n] == [];
    } else {
      PatchedElsewhere(d, start, image[at..at + n]);
      forall k | 0 <= k < i ensures Holds(d', image, es, k) {
        HoldsKept(d, d', image, es, k, start, n);
      }
      forall x: nat | x < |d'| && !Owned(es, x) ensures d'[x] == if x < |first| then first[x] else 0 {
        assert !(start <= x < start + SizeOf(es[i]));
      }
    }
  }

  lemma PatchedNothing(d: seq<byte>, at: nat)
    ensures Patched(d, at, []) == d
  {
  }

  ghost predicate AllReadable(d: seq<byte>, es: seq<Extent>)
  {
    forall i :: 0 <= i < |es| ==> Readable(d, es[i])
  }

  /** What is extracted from extents that hold an image begins with that image. */
  lemma ImageComesBack(d: seq<byte>, image: seq<byte>, es: seq<Extent>)
    requires AllReadable(d, es) && |image| <= Total(es) && forall i :: 0 <= i < |es| ==> Holds(d, image, es, i)
    ensures image <= Contents(d, es)
  {
    hide Holds, Contents;
    BeginsWith(d, image, es, |es|);
    assert es[..|es|] == es;
    assert image[..|image|] == image;
  }

  lemma {:induction false} BeginsWith(d: seq<byte>, image: seq<byte>, es: seq<Extent>, i: nat)
    requires AllReadable(d, es) && i <= |es| && forall k :: 0 <= k < |es| ==> Holds(d, image, es, k)
    ensures |Contents(d, es[..i])| == Total(es[..i])
    ensures var m := Min(|image|, Total(es[..i])); Contents(d, es[..i])[..m] == image[..m]
  {
    hide Holds, Contents, Total, AllReadable, Part;
    if i == 0 {
      NoContents(d, es);
      assert es[..0] == [];
    } else {
      BeginsWith(d, image, es, i - 1);
      ContentsStep(d, es, i - 1);
      PartHolds(d, image, es, i - 1);
      var m, m' := Min(|image|, Total(es[..i - 1])), Min(|image|, Total(es[..i]));
      var c, part := Contents(d, es[..i - 1]), Part(d, es[i - 1]);
      if Total(es[..i - 1]) < |image| {
        assert (c + part)[..m'] == c + part[..m' - m];
        assert image[..m'] == image[..m] + image[m..m'];
      } else {
        assert (c + part)[..m] == c[..m];
      }
    }
  }

  lemma PartHolds(d: seq<byte>, image: seq<byte>, es: seq<Extent>, i: nat)
    requires AllReadable(d, es) && i < |es| && Holds(d, image, es, i)
    ensures |Part(d, es[i])| == SizeOf(es[i])
    ensures var at, n := Total(es[..i]), Share(|image|, Total(es[..i]), es[i]);
            at < |image| && n > 0 ==> n <= SizeOf(es[i]) && at + n <= |image| && Part(d, es[i])[..n] == image[at..at + n]
  {
    hide Total;
    var at, n := Total(es[..i]), Share(|image|, Total(es[..i]), es[i]);
    if at < |image| && n > 0 {
      assert Part(d, es[i])[..n] == d[StartOf(es[i])..StartOf(es[i]) + n];
    }
  }

  /**
   * Writing an image into disjoint extents and extracting them again gives a file that begins with
   * the image; it fails only where one of the two steps has to.
   */
  method WriteAndExtract(fd: File, fileSize: nat, super: File, es: seq<Extent>, blockSize: nat)
    returns (r: WriteResult, output: Option<seq<byte>>)
    requires fd != super && fileSize == |fd.data| && fd.pos == 0 && Disjoint(es) && blockSize > 0
    modifies fd`pos, super
    ensures r == Written <==> (forall i :: 0 <= i < |es| ==> Supported(es[i])) && fileSize <= Total(es)
    ensures output.Some? <==> r == Written && Extractable(super.data, es, blockSize)
    ensures output.Some? ==> fd.data <= output.value
  {
    hide Disjoint, Holds, Total, Contents, OthersUntouched, Supported;
    r := WritePartition(fd, fileSize, super, es);
    if r != Written {
      return r, None;
    }
    output := ExtractPartition(super, es, blockSize);
    if output.Some? {
      ImageComesBack(super.data, fd.data, es);
    }
  }
}
