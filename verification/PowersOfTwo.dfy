/** Residues modulo powers of two. */
module PowersOfTwo {

  function Pow2(n: nat): (r: nat)
    ensures r > 0
  {
    if n == 0 then 1 else 2 * Pow2(n - 1)
  }

  lemma {:induction false} Pow2Add(a: nat, b: nat)
    ensures Pow2(a + b) == Pow2(a) * Pow2(b)
  {
    if a > 0 {
      Pow2Add(a - 1, b);
      assert Pow2(a + b) == 2 * Pow2(a - 1 + b);
      assert 2 * (Pow2(a - 1) * Pow2(b)) == (2 * Pow2(a - 1)) * Pow2(b);
    }
  }

  lemma {:induction false} Pow2Grows(a: nat, b: nat)
    requires a < b
    ensures Pow2(a) < Pow2(b)
  {
    if a < b - 1 { Pow2Grows(a, b - 1); }
  }

  lemma FewerMultiples(a: int, b: int, m: nat)
    requires a < b
    ensures a * m + m <= b * m
  {
    assert (b - a) * m == b * m - a * m;
    assert (b - a - 1) * m >= 0;
  }

  lemma DivMod(x: nat, m: nat)
    requires m > 0
    ensures x == (x / m) * m + x % m && x % m < m
  {
  }

  /** Quotient and remainder are unique. */
  lemma DivModUnique(x: nat, m: nat, q: nat, r: nat)
    requires m > 0 && x == q * m + r && r < m
    ensures x / m == q && x % m == r
  {
    DivMod(x, m);
    if x / m > q { FewerMultiples(q, x / m, m); } else if x / m < q { FewerMultiples(x / m, q, m); }
  }

  lemma ModStep(x: nat, m: nat)
    requires m > 0
    ensures (x + m) % m == x % m
  {
    assert x == (x / m) * m + x % m;
    assert x + m == (x / m + 1) * m + x % m;
    DivModUnique(x + m, m, x / m + 1, x % m);
  }

  lemma SameResidue(i: nat, j: nat, m: nat)
    requires m > 0 && i <= j < i + m && i % m == j % m
    ensures i == j
  {
    DivMod(i, m);
    DivMod(j, m);
    if j / m > i / m { FewerMultiples(i / m, j / m, m); } else if j / m < i / m { FewerMultiples(j / m, i / m, m); }
  }

  /** The low d bits of x, as x & ((1 << d) - 1). */
  function Low(x: nat, d: nat): (r: nat)
    ensures r < Pow2(d)
  {
    if d == 0 then 0 else x % 2 + 2 * Low(x / 2, d - 1)
  }

  /** Bit d of x, as x & (1 << d). */
  predicate Bit(x: nat, d: nat) {
    if d == 0 then x % 2 == 1 else Bit(x / 2, d - 1)
  }

  /** One more bit. */
  lemma {:induction false} NextBit(x: nat, d: nat)
    ensures Low(x, d + 1) == Low(x, d) + if Bit(x, d) then Pow2(d) else 0
  {
    if d > 0 { NextBit(x / 2, d - 1); }
  }

  /** The low a bits of the low b bits. */
  lemma {:induction false} LowLow(x: nat, a: nat, b: nat)
    requires a <= b
    ensures Low(Low(x, b), a) == Low(x, a)
  {
    if a > 0 {
      LowLow(x / 2, a - 1, b - 1);
      assert Low(x, b) / 2 == Low(x / 2, b - 1);
    }
  }

  lemma {:induction false} LowLe(x: nat, d: nat)
    ensures Low(x, d) <= x
  {
    if d > 0 { LowLe(x / 2, d - 1); }
  }

  lemma {:induction false} LowSmall(x: nat, d: nat)
    requires x < Pow2(d)
    ensures Low(x, d) == x
  {
    if d > 0 { LowSmall(x / 2, d - 1); }
  }

  /** The low d bits are the remainder modulo 2^d. */
  lemma {:induction false} LowIsMod(x: nat, d: nat)
    ensures Low(x, d) == x % Pow2(d)
  {
    if d > 0 {
      LowIsMod(x / 2, d - 1);
      DoubleMod(x, Pow2(d - 1));
    }
  }

  lemma DoubleMod(x: nat, m: nat)
    requires m > 0
    ensures x % (2 * m) == x % 2 + 2 * ((x / 2) % m)
  {
    var q, r := (x / 2) / m, (x / 2) % m;
    DivMod(x / 2, m);
    assert q * (2 * m) == 2 * (q * m);
    DivModUnique(x, 2 * m, q, x % 2 + 2 * r);
  }
}
