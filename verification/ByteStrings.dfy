/** Bytes, little-endian numbers, flag words and the build profile shared by every other module. */
module ByteStrings {

  type Byte = b: int | 0 <= b < 256

  type Bytes = seq<Byte>

  datatype Option<+T> = None | Some(value: T)

  /** Whether the build panics on arithmetic overflow (the debug profile) or wraps (the release
      profile). It is left open, so every statement of the project holds for both builds. */
  const OVERFLOW_CHECKS: bool

  /** Plain `a + b` on an unsigned type of the given size; `None` is the overflow panic. */
  function CheckedAdd(a: nat, b: nat, size: nat): (r: Option<nat>)
    requires a < size && b < size
    ensures a + b < size ==> r == Some(a + b)
    ensures a + b >= size ==> (if OVERFLOW_CHECKS then r.None? else r == Some(a + b - size))
    ensures r.Some? ==> r.value < size
  {
    if a + b < size then Some(a + b) else if OVERFLOW_CHECKS then None else Some(a + b - size)
  }

  lemma Associative<T>(a: seq<T>, b: seq<T>, c: seq<T>)
    ensures (a + b) + c == a + (b + c)
  {
  }

  // ---------- little-endian numbers ----------

  function Pow256(k: nat): (r: nat)
    ensures r > 0
  {
    if k == 0 then 1 else 256 * Pow256(k - 1)
  }

  function ToLe(n: nat, k: nat): (r: Bytes)
    ensures |r| == k
  {
    if k == 0 then [] else [n % 256] + ToLe(n / 256, k - 1)
  }

  function FromLe(s: Bytes): (r: nat)
  {
    if s == [] then 0 else s[0] + 256 * FromLe(s[1..])
  }

  lemma {:induction false} LeRoundTrip(n: nat, k: nat)
    requires n < Pow256(k)
    ensures FromLe(ToLe(n, k)) == n
  {
    if k > 0 {
      LeRoundTrip(n / 256, k - 1);
      assert ToLe(n, k)[1..] == ToLe(n / 256, k - 1);
    }
  }

  lemma {:induction false} LeInjective(s: Bytes)
    ensures FromLe(s) < Pow256(|s|)
    ensures ToLe(FromLe(s), |s|) == s
  {
    if s != [] {
      LeInjective(s[1..]);
      assert s == [s[0]] + s[1..];
    }
  }

  lemma Pow256Values()
    ensures Pow256(1) == 0x100 && Pow256(2) == 0x1_0000 && Pow256(3) == 0x100_0000
    ensures Pow256(4) == 0x1_0000_0000 && Pow256(8) == 0x1_0000_0000_0000_0000
  {
    assert Pow256(5) == 0x100_0000_0000;
    assert Pow256(6) == 0x1_0000_0000_0000;
  }

  lemma Le2(s: Bytes)
    requires |s| == 2
    ensures FromLe(s) == s[0] as int + 0x100 * (s[1] as int)
  {
    assert FromLe(s[1..]) == s[1] + 256 * FromLe(s[1..][1..]);
  }

  lemma Le3(s: Bytes)
    requires |s| == 3
    ensures FromLe(s) == s[0] as int + 0x100 * (s[1] as int) + 0x1_0000 * (s[2] as int)
  {
    Le2(s[1..]);
  }

  // ---------- flag words ----------

  /** A flag word, seen as the set of its bit positions. */
  type Flags = set<nat>

  function Pow2(k: nat): (r: nat)
    ensures r > 0
  {
    if k == 0 then 1 else 2 * Pow2(k - 1)
  }

  predicate Bit(n: nat, i: nat)
  {
    n / Pow2(i) % 2 == 1
  }

  function Bits(n: nat, width: nat): (r: Flags)
    ensures forall i: nat :: i in r <==> i < width && Bit(n, i)
  {
    set i: nat | i < width && Bit(n, i)
  }

  /** A number written in too few bytes is cut to them. */
  lemma {:induction false} LeCut(n: nat, k: nat)
    ensures FromLe(ToLe(n, k)) == n % Pow256(k)
  {
    if k > 0 {
      LeCut(n / 256, k - 1);
      assert ToLe(n, k)[1..] == ToLe(n / 256, k - 1);
      CutStep(n, Pow256(k - 1));
    }
  }

  lemma CutStep(n: nat, m: nat)
    requires m > 0
    ensures n % (256 * m) == n % 256 + 256 * (n / 256 % m)
  {
    var q, x := n / 256 / m, n / 256 % m;
    assert n / 256 == q * m + x;
    assert n == 256 * (q * m + x) + n % 256;
    assert n == (256 * m) * q + (256 * x + n % 256);
    assert 256 * x + n % 256 < 256 * m;
    DivUnique(n, 256 * m, q, 256 * x + n % 256);
  }

  lemma DivUnique(n: nat, d: nat, q: nat, r: nat)
    requires d > 0 && n == d * q + r && r < d
    ensures n / d == q && n % d == r
  {
    var k := n / d - q;
    assert n == d * (n / d) + n % d;
    assert d * k == r - n % d;
    assert k >= 1 ==> d * k >= d;
    assert k <= -1 ==> d * k + d <= 0;
  }

  /** The bit at a position is set iff the number above it is odd. */
  lemma BitExactly(high: nat, i: nat, low: nat)
    requires low < Pow2(i)
    ensures Bit(high * Pow2(i) + low, i) <==> high % 2 == 1
  {
    DivUnique(high * Pow2(i) + low, Pow2(i), high, low);
  }
}
