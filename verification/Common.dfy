/** Small definitions shared by the other modules: bytes, little-endian fields, options. */
module Common {

  type byte = x: int | 0 <= x < 256

  const TWO_64: nat := 0x1_0000_0000_0000_0000

  type u64 = x: int | 0 <= x < TWO_64

  datatype Option<+T> = None | Some(value: T)

  /** Value of the little-endian unsigned integer held by all of `s`. */
  function LittleEndian(s: seq<byte>): (v: nat)
  {
    if s == [] then 0 else s[0] + 256 * LittleEndian(s[1..])
  }

  /** v as an n byte little-endian field, cut to n bytes as a narrower integer type would. */
  function ToBytes(v: nat, n: nat): (b: seq<byte>)
    ensures |b| == n
  {
    if n == 0 then [] else [v % 256] + ToBytes(v / 256, n - 1)
  }

  predicate Fits(v: nat, n: nat)
  {
    if n == 0 then v == 0 else Fits(v / 256, n - 1)
  }

  lemma {:induction false} NumberRoundTrip(v: nat, n: nat)
    requires Fits(v, n)
    ensures LittleEndian(ToBytes(v, n)) == v
  {
    if n > 0 {
      NumberRoundTrip(v / 256, n - 1);
      assert ToBytes(v, n)[1..] == ToBytes(v / 256, n - 1);
    }
  }

  lemma FitsFour(v: nat)
    ensures Fits(v, 4) <==> v < 0x1_0000_0000
  {
    var a := v / 256;
    var b := a / 256;
    var c := b / 256;
    assert Fits(v, 4) == Fits(a, 3) && Fits(a, 3) == Fits(b, 2) && Fits(b, 2) == Fits(c, 1);
    assert Fits(c, 1) == Fits(c / 256, 0);
  }

  lemma FitsEight(v: u64)
    ensures Fits(v, 8)
  {
    var a := v / 0x1_0000_0000;
    FitsFour(a);
    var b := v / 256;
    var c := b / 256;
    var d := c / 256;
    assert Fits(v, 8) == Fits(b, 7) && Fits(b, 7) == Fits(c, 6) && Fits(c, 6) == Fits(d, 5);
    assert Fits(d, 5) == Fits(d / 256, 4);
  }

  lemma FourRoundTrip(v: nat)
    requires v < 0x1_0000_0000
    ensures LittleEndian(ToBytes(v, 4)) == v
  {
    FitsFour(v);
    NumberRoundTrip(v, 4);
  }

  /** The `n` byte little-endian field of `s` at `pos`. */
  function Field(s: seq<byte>, pos: nat, n: nat): nat
    requires pos + n <= |s|
  {
    LittleEndian(s[pos..pos + n])
  }

  /** Equal stretches of two sequences have equal parts. */
  lemma SameSlice<T>(f: seq<T>, a: nat, b: nat, g: seq<T>, c: nat, d: nat, lo: nat, hi: nat)
    requires a <= b <= |f| && c <= d <= |g| && f[a..b] == g[c..d] && lo <= hi <= b - a
    ensures hi <= d - c && f[a + lo..a + hi] == g[c + lo..c + hi]
  {
    assert |f[a..b]| == |g[c..d]|;
    var x, y := f[a + lo..a + hi], g[c + lo..c + hi];
    forall k | 0 <= k < |x| ensures x[k] == y[k] {
      assert f[a..b][lo + k] == f[a + lo + k] && g[c..d][lo + k] == g[c + lo + k];
    }
  }

  /** s with element i left out. */
  function Without<T>(s: seq<T>, i: nat): seq<T>
    requires i < |s|
  {
    s[..i] + s[i + 1..]
  }

  // Files as byte sequences.

  function ZeroBytes(n: nat): (r: seq<byte>)
    ensures |r| == n && forall i :: 0 <= i < n ==> r[i] == 0
  {
    seq(n, _ => 0)
  }

  /** A file made n bytes long by dropping its end or adding zeros. */
  function Resized(d: seq<byte>, n: nat): seq<byte>
  {
    if n <= |d| then d[..n] else d + ZeroBytes(n - |d|)
  }

  /** d after writing b at `at`; a gap before it reads as zeros. */
  function Patched(d: seq<byte>, at: nat, b: seq<byte>): seq<byte>
  {
    if b == [] then d else Resized(d, at) + b + (if at + |b| < |d| then d[at + |b|..] else [])
  }

  lemma PatchedElsewhere(d: seq<byte>, at: nat, b: seq<byte>)
    requires b != []
    ensures var p := Patched(d, at, b);
            && |p| == Max(|d|, at + |b|) && p[at..at + |b|] == b
            && (forall x :: 0 <= x < |d| && !(at <= x < at + |b|) ==> p[x] == d[x])
            && (forall x :: |d| <= x < at ==> p[x] == 0)
  {
  }

  /** What stands at each place afterwards. */
  lemma PatchedByte(d: seq<byte>, at: nat, b: seq<byte>, x: nat)
    requires b != [] && x < |Patched(d, at, b)|
    ensures Patched(d, at, b)[x] == if at <= x < at + |b| then b[x - at] else if x < |d| then d[x] else 0
  {
  }

  lemma PatchedMore(d: seq<byte>, at: nat, a: seq<byte>, b: seq<byte>)
    ensures Patched(Patched(d, at, a), at + |a|, b) == Patched(d, at, a + b)
  {
    if a == [] || b == [] {
      assert a + [] == a && [] + b == b;
    } else {
      hide Patched;
      var p, q := Patched(d, at, a), Patched(d, at, a + b);
      PatchedElsewhere(d, at, a);
      PatchedElsewhere(d, at, a + b);
      PatchedElsewhere(p, at + |a|, b);
      var t := Patched(p, at + |a|, b);
      forall x | 0 <= x < |t| ensures t[x] == q[x] {
        PatchedByte(p, at + |a|, b, x);
        PatchedByte(d, at, a + b, x);
        if x < |p| {
          PatchedByte(d, at, a, x);
        }
      }
    }
  }

  function Min(a: int, b: int): int { if a <= b then a else b }

  function Max(a: int, b: int): int { if a <= b then b else a }

  /** x / y, rounded up. */
  function DivUp(x: nat, y: nat): nat
    requires y > 0
  {
    x / y + (if x % y > 0 then 1 else 0)
  }

  lemma DivUpFacts(x: nat, y: nat)
    requires y > 0
    ensures x <= DivUp(x, y) * y < x + y
    ensures x > 0 ==> DivUp(x, y) > 0
  {
  }

  lemma MulMonotone(x: int, y: int, b: int)
    requires x <= y && 0 <= b
    ensures x * b <= y * b
  {
  }

  lemma DivModUnique(a: int, b: int, q: int, r: int)
    requires b > 0 && 0 <= r < b && a == q * b + r
    ensures a / b == q && a % b == r
  {
    var q', r' := a / b, a % b;
    assert a == q' * b + r' && 0 <= r' < b;
    if q' < q {
      MulMonotone(q' + 1, q, b);
    } else if q < q' {
      MulMonotone(q + 1, q', b);
    }
  }

  // Linear probing over a table of `size` slots, starting at some slot and wrapping around.

  function NextIndex(size: nat, index: nat): nat
  {
    if index + 1 == size then 0 else index + 1
  }

  /** Slot j is among the first n that a search starting at `start` looks at. */
  predicate Passed(size: nat, start: nat, n: nat, j: nat)
  {
    (if j >= start then j - start else j + size - start) < n
  }

  function Spot(size: nat, start: nat, n: nat): nat
  {
    if start + n < size then start + n else start + n - size
  }

  lemma {:induction false} SubsetSize(a: set<nat>, b: set<nat>)
    requires a <= b
    ensures |a| <= |b|
    ensures |a| == |b| ==> a == b
  {
    if a != {} {
      var x :| x in a;
      SubsetSize(a - {x}, b - {x});
    }
  }
}
