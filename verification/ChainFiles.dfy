/**
 * The temporary files of CallChainJoiner: how a call chain is laid out, reading forward, and reading
 * backward from the end of a chain to its start.
 */
module ChainFiles {
  import opened Common

  datatype Chain = Chain(pid: nat, tid: nat, kind: nat, ips: seq<u64>, sps: seq<u64>)

  // ------------------------------------------------------------------- numbers

  function Words(vs: seq<u64>): (b: seq<byte>)
    ensures |b| == 8 * |vs|
  {
    if vs == [] then [] else ToBytes(vs[0], 8) + Words(vs[1..])
  }

  function ReadWords(b: seq<byte>, count: nat): (vs: seq<u64>)
    requires |b| >= 8 * count
    ensures |vs| == count
  {
    if count == 0 then [] else [Word(b[..8])] + ReadWords(b[8..], count - 1)
  }

  function Word(b: seq<byte>): u64
    requires |b| == 8
  {
    EightBytes(b);
    LittleEndian(b)
  }

  lemma EightBytes(b: seq<byte>)
    requires |b| == 8
    ensures LittleEndian(b) < 0x1_0000_0000_0000_0000
  {
    Bounded(b[1..], 0x100_0000_0000_0000);
  }

  lemma Bounded(b: seq<byte>, bound: nat)
    requires |b| == 7 && bound == 0x100_0000_0000_0000
    ensures LittleEndian(b) < bound
  {
    var b1, b2, b3, b4, b5, b6 := b[1..], b[2..], b[3..], b[4..], b[5..], b[6..];
    assert b1[1..] == b2 && b2[1..] == b3 && b3[1..] == b4 && b4[1..] == b5 && b5[1..] == b6 && b6[1..] == [];
    assert LittleEndian(b6) == b6[0];
  }

  lemma {:induction false} WordsRoundTrip(vs: seq<u64>, rest: seq<byte>)
    ensures ReadWords(Words(vs) + rest, |vs|) == vs
  {
    hide ToBytes, LittleEndian;
    if vs != [] {
      var b := Words(vs) + rest;
      assert b[..8] == ToBytes(vs[0], 8);
      assert b[8..] == Words(vs[1..]) + rest;
      FitsEight(vs[0]);
      NumberRoundTrip(vs[0], 8);
      WordsRoundTrip(vs[1..], rest);
    }
  }

  // -------------------------------------------------------------------- chains

  function ChainSize(count: nat): nat { 20 + 16 * count }

  /** pid, tid, type, ip_count, the ips, the sps, and the size of it all at the end. */
  function Encode(c: Chain): (b: seq<byte>)
    requires |c.ips| == |c.sps|
    ensures |b| == ChainSize(|c.ips|)
  {
    ToBytes(c.pid, 4) + ToBytes(c.tid, 4) + ToBytes(c.kind, 4) + ToBytes(|c.ips|, 4)
    + Words(c.ips) + Words(c.sps) + ToBytes(ChainSize(|c.ips|), 4)
  }

  /** The fields fit their types, and the size fits the int that seeking back casts it to. */
  predicate Storable(c: Chain)
  {
    && |c.ips| == |c.sps|
    && c.pid < 0x1_0000_0000 && c.tid < 0x1_0000_0000 && c.kind < 4
    && ChainSize(|c.ips|) < 0x8000_0000
  }

  /** What the reading functions make of the bytes of a chain. */
  function Decode(b: seq<byte>, count: nat): Chain
    requires |b| >= 16 + 16 * count
  {
    Chain(LittleEndian(b[..4]), LittleEndian(b[4..8]), LittleEndian(b[8..12]),
          ReadWords(b[16..], count), ReadWords(b[16 + 8 * count..], count))
  }

  lemma HeaderParts(c: Chain)
    requires |c.ips| == |c.sps|
    ensures var b := Encode(c);
            && b[..4] == ToBytes(c.pid, 4) && b[4..8] == ToBytes(c.tid, 4)
            && b[8..12] == ToBytes(c.kind, 4) && b[12..16] == ToBytes(|c.ips|, 4)
            && b[|b| - 4..] == ToBytes(ChainSize(|c.ips|), 4)
  {
    hide ToBytes, Words;
  }

  lemma HeaderRoundTrip(c: Chain)
    requires Storable(c)
    ensures var b := Encode(c);
            && LittleEndian(b[..4]) == c.pid && LittleEndian(b[4..8]) == c.tid
            && LittleEndian(b[8..12]) == c.kind && LittleEndian(b[12..16]) == |c.ips|
            && LittleEndian(b[|b| - 4..]) == |b|
  {
    hide ToBytes, Words, LittleEndian, Encode;
    HeaderParts(c);
    FourRoundTrip(c.pid);
    FourRoundTrip(c.tid);
    FourRoundTrip(c.kind);
    FourRoundTrip(|c.ips|);
    FourRoundTrip(ChainSize(|c.ips|));
  }

  /** With or without the trailing size, the bytes of a chain give the chain back. */
  lemma DecodeEncode(c: Chain)
    requires Storable(c)
    ensures var b := Encode(c);
            && LittleEndian(b[12..16]) == |c.ips|
            && Decode(b, |c.ips|) == c && Decode(b[..|b| - 4], |c.ips|) == c
  {
    hide ToBytes, Words, LittleEndian, Encode, ReadWords;
    var b, n, size := Encode(c), |c.ips|, ToBytes(ChainSize(|c.ips|), 4);
    HeaderRoundTrip(c);
    BodyParts(c);
    WordsRoundTrip(c.ips, Words(c.sps) + size);
    WordsRoundTrip(c.sps, size);
    WordsRoundTrip(c.ips, Words(c.sps));
    WordsRoundTrip(c.sps, []);
    assert Words(c.sps) + [] == Words(c.sps);
    var f := b[..|b| - 4];
    assert f[..4] == b[..4] && f[4..8] == b[4..8] && f[8..12] == b[8..12];
  }

  lemma BodyParts(c: Chain)
    requires |c.ips| == |c.sps|
    ensures var (b, n, size) := (Encode(c), |c.ips|, ToBytes(ChainSize(|c.ips|), 4));
            && b[16..] == Words(c.ips) + (Words(c.sps) + size)
            && b[16 + 8 * n..] == Words(c.sps) + size
            && b[..|b| - 4][16..] == Words(c.ips) + Words(c.sps)
            && b[..|b| - 4][16 + 8 * n..] == Words(c.sps)
  {
    hide ToBytes, Words;
  }

  function EncodeAll(cs: seq<Chain>): seq<byte>
    requires forall i :: 0 <= i < |cs| ==> |cs[i].ips| == |cs[i].sps|
  {
    if cs == [] then [] else EncodeAll(cs[..|cs| - 1]) + Encode(cs[|cs| - 1])
  }

  // --------------------------------------------------------------------- files

  /** A stdio stream on a temporary file: its bytes and the position in it. */
  class TempFile {
    var data: seq<byte>
    var pos: nat

    constructor ()
      ensures data == [] && pos == 0
    {
      data, pos := [], 0;
    }

    /** fread of n bytes as one item: all of them, or a failure. */
    method Read(n: nat) returns (r: Option<seq<byte>>)
      modifies this`pos
      ensures if old(pos) + n <= |data| then r == Some(data[old(pos)..old(pos) + n]) && pos == old(pos) + n
              else r == None && pos == old(pos)
    {
      if pos + n <= |data| {
        r, pos := Some(data[pos..pos + n]), pos + n;
      } else {
        r := None;
      }
    }

    /** fwrite at the position, which the joiner only does at the end of the file. */
    method Write(b: seq<byte>)
      requires pos == |data|
      modifies this
      ensures data == old(data) + b && pos == |data|
    {
      data, pos := data + b, pos + |b|;
    }

    /** fseek back by n bytes from the position. */
    method Back(n: nat) returns (ok: bool)
      modifies this`pos
      ensures ok <==> n <= old(pos)
      ensures pos == if ok then old(pos) - n else old(pos)
    {
      ok := n <= pos;
      if ok {
        pos := pos - n;
      }
    }
  }

  method WriteCallChain(fp: TempFile, c: Chain, ipCount: nat)
    requires |c.ips| == |c.sps| && ipCount <= |c.ips| && fp.pos == |fp.data|
    modifies fp
    ensures fp.data == old(fp.data) + Encode(c.(ips := c.ips[..ipCount], sps := c.sps[..ipCount])) && fp.pos == |fp.data|
  {
    var size := 4 * 4 + 8 * ipCount * 2 + 4;
    fp.Write(ToBytes(c.pid, 4) + ToBytes(c.tid, 4) + ToBytes(c.kind, 4) + ToBytes(ipCount, 4)
             + Words(c.ips[..ipCount]) + Words(c.sps[..ipCount]) + ToBytes(size, 4));
  }

  /** Standing right behind a chain, it gives that chain and ends right before it. */
  method ReadCallChainInReverseOrder(fp: TempFile, ghost before: seq<byte>, ghost c: Chain) returns (r: Option<Chain>)
    requires Storable(c) && fp.pos == |before| + |Encode(c)| <= |fp.data|
    requires fp.data[..fp.pos] == before + Encode(c)
    modifies fp`pos
    ensures r == Some(c) && fp.pos == |before|
  {
    hide Encode, LittleEndian, ToBytes, Words, ReadWords, Decode, Storable;
    ChainLengths(c);
    ghost var end, b := fp.pos, Encode(c);
    HeaderRoundTrip(c);
    DecodeEncode(c);
    assert forall i, j :: 0 <= i <= j <= |b| ==> fp.data[|before| + i..|before| + j] == b[i..j] by {
      PartOf(fp.data, before, b);
    }
    var ok := fp.Back(4);
    var tail := fp.Read(4);
    if !ok || tail.None? {
      return None;
    }
    assert fp.data[end - 4..end] == b[|b| - 4..|b|] == b[|b| - 4..];
    var size := LittleEndian(tail.value);
    ok := fp.Back(size);
    var data := fp.Read(size - 4);
    if !ok || data.None? {
      return None;
    }
    assert fp.data[|before| + 0..|before| + (|b| - 4)] == b[0..|b| - 4] == b[..|b| - 4];
    ok := fp.Back(|data.value|);
    assert data.value[12..16] == b[12..16];
    var count := LittleEndian(data.value[12..16]);
    r := Some(Decode(data.value, count));
  }

  /** Standing right before a chain, it gives that chain and ends right behind it. */
  method ReadCallChain(fp: TempFile, ghost before: seq<byte>, ghost c: Chain) returns (r: Option<Chain>)
    requires Storable(c) && fp.pos == |before| && |before| + |Encode(c)| <= |fp.data|
    requires fp.data[..|before| + |Encode(c)|] == before + Encode(c)
    modifies fp`pos
    ensures r == Some(c) && fp.pos == |before| + |Encode(c)|
  {
    hide Encode, LittleEndian, ToBytes, Words, ReadWords, Decode, Storable;
    ChainLengths(c);
    ghost var b := Encode(c);
    HeaderRoundTrip(c);
    DecodeEncode(c);
    assert forall i, j :: 0 <= i <= j <= |b| ==> fp.data[|before| + i..|before| + j] == b[i..j] by {
      PartOf(fp.data, before, b);
    }
    var head := fp.Read(16);
    if head.None? {
      return None;
    }
    assert fp.data[|before| + 0..|before| + 16] == b[0..16];
    assert head.value[12..16] == b[12..16];
    var count := LittleEndian(head.value[12..16]);
    var rest := fp.Read(8 * count * 2 + 4);
    if rest.None? {
      return None;
    }
    assert fp.data[|before| + 16..|before| + |b|] == b[16..|b|];
    assert head.value + rest.value == b;
    r := Some(Decode(head.value + rest.value, count));
  }

  lemma PartOf(data: seq<byte>, before: seq<byte>, b: seq<byte>)
    requires |before| + |b| <= |data| && data[..|before| + |b|] == before + b
    ensures forall i, j :: 0 <= i <= j <= |b| ==> data[|before| + i..|before| + j] == b[i..j]
  {
    forall i, j | 0 <= i <= j <= |b| ensures data[|before| + i..|before| + j] == b[i..j] {
      assert data[|before| + i..|before| + j] == data[..|before| + |b|][|before| + i..|before| + j];
    }
  }

  lemma ChainLengths(c: Chain)
    requires Storable(c)
    ensures |c.ips| == |c.sps| && |Encode(c)| == 20 + 16 * |c.ips| < 0x8000_0000
  {
  }
}
