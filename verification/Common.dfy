/** Constants, device parameters and errors shared by the whole file server. */
module Common {
  const START_BLOCK: nat := 2
  const NO_ZONE: nat := 0
  const NO_BLOCK: nat := 0
  const NO_BIT: nat := 0
  const V2_NR_DZONES: nat := 7
  const V2_NR_TZONES: nat := 10

  datatype Option<+T> = None | Some(value: T)

  /** A nil error is `OK`. */
  datatype Error = OK | EFBIG | ENOSPC | ENFILE | ENOENT | ENOTEMPTY | EOF

  /** The parameters read from the superblock. */
  datatype DeviceInfo = DeviceInfo(
    blocksize: nat,
    scale: nat,
    firstdatazone: nat,
    zones: nat,
    inodes: nat,
    maxsize: nat,
    imapBlocks: nat,
    zmapBlocks: nat)

  function Pow2(n: nat): (p: nat)
    ensures p >= 1
  {
    if n == 0 then 1 else 2 * Pow2(n - 1)
  }

  /** `Pow2(n)` is 2 to the power `n`, by its laws. */
  lemma {:induction false} Pow2Sum(m: nat, n: nat)
    ensures Pow2(0) == 1 && Pow2(1) == 2 && Pow2(m + n) == Pow2(m) * Pow2(n)
  {
    if m > 0 {
      Pow2Sum(m - 1, n);
      assert Pow2(m + n) == 2 * Pow2(m - 1 + n) && Pow2(m) == 2 * Pow2(m - 1);
      assert 2 * (Pow2(m - 1) * Pow2(n)) == (2 * Pow2(m - 1)) * Pow2(n);
    }
  }

  /** Division of naturals, as a natural. */
  function Quot(a: nat, d: nat): nat
    requires d > 0
  {
    a / d
  }

  function Rem(a: nat, d: nat): (r: nat)
    requires d > 0
    ensures r < d
  {
    a % d
  }

  lemma DivModUnique(a: nat, d: nat, q: nat, r: nat)
    requires r < d && a == q * d + r
    ensures a / d == q && a % d == r
  {
    DivMod(a, d);
    assert (q - a / d) * d == a % d - r;
    MulSmall(q - a / d, d);
  }

  lemma MulGrows(k: int, d: int)
    requires 0 <= d
    ensures k > 0 ==> k * d >= d
    ensures k < 0 ==> k * d <= -d
  {
    if k > 0 {
      assert (k - 1) * d >= 0;
    } else if k < 0 {
      assert (-k - 1) * d >= 0;
    }
  }

  lemma MulOrder(p: int, q: int, d: int)
    requires 0 <= d
    ensures p < q ==> p * d + d <= q * d
  {
    MulGrows(q - p, d);
    assert (q - p) * d == q * d - p * d;
  }

  lemma MulAtMost(a: nat, b: nat, j: nat)
    requires a <= b
    ensures a * j <= b * j
  {
  }

  lemma MulSmall(k: int, d: int)
    requires -d < k * d < d
    ensures k == 0
  {
    MulGrows(k, d);
  }

  lemma DivMod(a: nat, d: nat)
    requires d > 0
    ensures a == (a / d) * d + a % d
  {
  }

  lemma DivAtLeast(a: nat, d: nat, n: nat)
    requires d > 0 && n * d <= a
    ensures n <= a / d
  {
    DivMod(a, d);
    MulGrows(n - a / d, d);
  }

  lemma DivLess(a: nat, d: nat, n: nat)
    requires d > 0 && a < n * d
    ensures a / d < n
  {
  }

  /** Cutting a position into zones and a zone into blocks is cutting it into blocks first. */
  lemma BlocksOfZone(pos: nat, bs: nat, zs: nat)
    requires bs > 0 && zs > 0
    ensures bs * zs > 0
    ensures pos / (bs * zs) == (pos / bs) / zs
    ensures (pos % (bs * zs)) / bs == (pos / bs) % zs
    ensures pos % (bs * zs) == 0 ==> pos % bs == 0
  {
    var p, r := pos / bs, pos % bs;
    var q, s := p / zs, p % zs;
    DivMod(pos, bs);
    DivMod(p, zs);
    var w := s * bs + r;
    InnerBound(s, zs, r, bs);
    assert (q * zs + s) * bs == q * (bs * zs) + s * bs;
    DivModUnique(pos, bs * zs, q, w);
    DivModUnique(w, bs, s, r);
  }

  lemma InnerBound(s: nat, zs: nat, r: nat, bs: nat)
    requires s < zs && r < bs
    ensures s * bs + r < bs * zs
  {
    assert (zs - 1 - s) * bs >= 0;
    assert (zs - 1 - s) * bs == zs * bs - bs - s * bs;
  }

  /** Splitting a number by a multiple of 16 keeps its remainder by 16. */
  lemma ModOfMod(a: nat, d: nat)
    requires d > 0 && d % 16 == 0
    ensures (a % d) % 16 == a % 16
  {
    DivMod(a, d);
    Split16(a, a / d, d / 16, a % d);
  }

  lemma Split16(a: int, q: int, k: int, r: int)
    requires a == q * (16 * k) + r
    ensures a % 16 == r % 16
  {
    var p := q * k;
    assert a == 16 * p + r;
  }
}
