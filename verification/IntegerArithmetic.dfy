/** Checked arithmetic on signed integers of mixed widths, with two's-complement wrap-around made explicit. */
module IntegerArithmetic {
  import PowersOfTwo

  datatype Width = W8 | W16 | W32 | W64

  /** Half the number of values of the type: its range is from -Half to Half - 1, and -Half is its NULL. */
  function Half(w: Width): (h: int)
    ensures h > 0
  {
    match w
    case W8 => 0x80
    case W16 => 0x8000
    case W32 => 0x8000_0000
    case W64 => 0x8000_0000_0000_0000
  }

  predicate Fits(v: int, w: Width) { -Half(w) <= v < Half(w) }

  /** A value of the type other than NULL. */
  predicate NonNull(v: int, w: Width) { -Half(w) < v < Half(w) }

  /** Conversion to the type: the value with the same low bits. */
  function Wrap(v: int, w: Width): int {
    (v + Half(w)) % (2 * Half(w)) - Half(w)
  }

  function Wider(a: Width, b: Width): Width { if Half(a) >= Half(b) then a else b }

  /** The type in which the expression is computed: int, or wider if an operand is. */
  function Promoted(a: Width, b: Width): Width { Wider(W32, Wider(a, b)) }

  datatype Outcome = OutOfRange | Value(width: Width, value: int)

  function Abs(v: int): nat { if v < 0 then -v else v }

  /** Division that truncates toward zero. */
  function TruncDiv(a: int, b: int): int
    requires b != 0
  {
    Signed(Abs(a) / Abs(b), (a >= 0) == (b > 0))
  }

  function Signed(q: int, positive: bool): int { if positive then q else -q }

  // ---- The operations ----

  /** The common frame around a true result z: it is computed in the promoted type; narrowing that to both operand types
    * must not lose it in both, and its form in the wider type must not fail the overflow test. */
  function Checked(z: int, a: Width, b: Width, bad: int -> bool): Outcome {
    var e := Wrap(z, Promoted(a, b));
    if e != Wrap(e, a) && e != Wrap(e, b) then OutOfRange
    else if Half(a) >= Half(b) then (if bad(Wrap(e, a)) then OutOfRange else Value(a, Wrap(e, a)))
    else (if bad(Wrap(e, b)) then OutOfRange else Value(b, Wrap(e, b)))
  }

  predicate BadSum(x: int, y: int, sum: int) { (x > 0 && y > 0 && sum < 0) || (x < 0 && y < 0 && sum > 0) }

  predicate BadDifference(x: int, y: int, diff: int) { (x > 0 && y < 0 && diff < 0) || (x < 0 && y > 0 && diff > 0) }

  predicate BadProduct(x: int, y: int, prod: int) { y != 0 && TruncDiv(prod, y) != x }

  function Add(x: int, a: Width, y: int, b: Width): Outcome { Checked(x + y, a, b, sum => BadSum(x, y, sum)) }

  function Subtract(x: int, a: Width, y: int, b: Width): Outcome {
    Checked(x - y, a, b, diff => BadDifference(x, y, diff))
  }

  function Multiply(x: int, a: Width, y: int, b: Width): Outcome {
    Checked(x * y, a, b, prod => BadProduct(x, y, prod))
  }

  // ---- Wrapping ----

  lemma WrapFits(v: int, w: Width)
    ensures Fits(Wrap(v, w), w) && (Fits(v, w) <==> Wrap(v, w) == v)
  {
  }

  /** Wrapping changes a value by a multiple of the number of values. */
  lemma WrapBy(v: int, w: Width) returns (k: int)
    ensures Wrap(v, w) == v - 2 * Half(w) * k
  {
    k := (v + Half(w)) / (2 * Half(w));
  }

  /** A value off by less than a full turn comes back by exactly one turn. */
  lemma WrapOnce(v: int, w: Width)
    requires -3 * Half(w) <= v < 3 * Half(w)
    ensures Wrap(v, w) == if v < -Half(w) then v + 2 * Half(w) else if v >= Half(w) then v - 2 * Half(w) else v
  {
  }

  /** What passes the narrowing test fits the wider type, and its narrowed form in that type is the value itself. */
  lemma Narrowing(e: int, a: Width, b: Width)
    ensures (e == Wrap(e, a) || e == Wrap(e, b)) <==> Fits(e, Wider(a, b))
    ensures Fits(e, Wider(a, b)) ==> Wrap(e, Wider(a, b)) == e
  {
    WrapFits(e, a);
    WrapFits(e, b);
  }

  /** The promoted type is the wider type, or wide enough for any sum, difference or product of narrower ones. */
  lemma PromotedIs(a: Width, b: Width)
    ensures Promoted(a, b) == Wider(a, b) || (Half(Wider(a, b)) <= 0x8000 && Promoted(a, b) == W32)
  {
  }

  /** A test that tells a wrapped result from a true one makes the frame exact. */
  lemma CheckedExact(z: int, a: Width, b: Width, bad: int -> bool)
    requires bad(Wrap(z, Wider(a, b))) <==> !Fits(z, Wider(a, b))
    requires Half(Wider(a, b)) <= 0x8000 ==> Fits(z, W32)
    ensures Checked(z, a, b, bad) == if Fits(z, Wider(a, b)) then Value(Wider(a, b), z) else OutOfRange
  {
    PromotedIs(a, b);
    Narrowing(Wrap(z, Promoted(a, b)), a, b);
    WrapFits(z, Promoted(a, b));
    WrapFits(z, Wider(a, b));
  }

  // ---- Sums and differences ----

  /** Adding throws exactly when the true sum does not fit the wider type, and otherwise returns it. */
  lemma AddExact(x: int, a: Width, y: int, b: Width)
    requires NonNull(x, a) && NonNull(y, b)
    ensures Add(x, a, y, b) == if Fits(x + y, Wider(a, b)) then Value(Wider(a, b), x + y) else OutOfRange
  {
    WrapOnce(x + y, Wider(a, b));
    CheckedExact(x + y, a, b, sum => BadSum(x, y, sum));
  }

  lemma SubtractExact(x: int, a: Width, y: int, b: Width)
    requires NonNull(x, a) && NonNull(y, b)
    ensures Subtract(x, a, y, b) == if Fits(x - y, Wider(a, b)) then Value(Wider(a, b), x - y) else OutOfRange
  {
    WrapOnce(x - y, Wider(a, b));
    CheckedExact(x - y, a, b, diff => BadDifference(x, y, diff));
  }

  // ---- Products ----

  /** The quotient leaves a remainder smaller than the divisor. */
  lemma QuotientNear(p: int, y: int)
    requires y != 0
    ensures Abs(p - TruncDiv(p, y) * y) < Abs(y)
  {
    PowersOfTwo.DivMod(Abs(p), Abs(y));
    SignedRemainder(p, y, Abs(p) / Abs(y), Abs(p) % Abs(y));
  }

  lemma SignedRemainder(p: int, y: int, q: int, r: int)
    requires y != 0 && Abs(p) == q * Abs(y) + r && 0 <= r < Abs(y)
    ensures Abs(p - Signed(q, (p >= 0) == (y > 0)) * y) < Abs(y)
  {
    var t := Signed(q, (p >= 0) == (y > 0));
    assert t * y == Signed(q * Abs(y), p >= 0);
  }

  lemma NonNegativeProduct(p: nat, q: nat)
    ensures p * q >= 0
  {
  }

  /** A product is no smaller than a factor, unless the other factor is zero. */
  lemma AtLeastFactor(k: int, m: int)
    requires k != 0
    ensures Abs(k * m) >= Abs(m)
  {
    NonNegativeProduct(Abs(k) - 1, Abs(m));
    assert (Abs(k) - 1) * Abs(m) == Abs(k) * Abs(m) - Abs(m);
    assert Abs(k * m) == Abs(k) * Abs(m);
  }

  lemma QuotientOfProduct(x: int, y: int)
    requires y != 0
    ensures TruncDiv(x * y, y) == x
  {
    QuotientNear(x * y, y);
    NearMultiple(x, TruncDiv(x * y, y), y);
  }

  lemma NearMultiple(x: int, t: int, y: int)
    requires Abs(x * y - t * y) < Abs(y)
    ensures x == t
  {
    var d := x - t;
    assert x * y - t * y == d * y;
    if d != 0 { AtLeastFactor(d, y); }
  }

  /** The quotient test catches every wrap: only the true product divides back. */
  lemma QuotientTest(x: int, y: int, w: Width)
    requires y != 0 && Abs(y) <= Half(w)
    ensures TruncDiv(Wrap(x * y, w), y) == x <==> Fits(x * y, w)
  {
    WrapFits(x * y, w);
    QuotientOfProduct(x, y);
    if TruncDiv(Wrap(x * y, w), y) == x {
      var k := WrapBy(x * y, w);
      QuotientNear(Wrap(x * y, w), y);
      if k != 0 { AtLeastFactor(k, 2 * Half(w)); }
    }
  }

  lemma SmallProduct(x: int, y: int)
    requires Abs(x) < 0x8000 && Abs(y) < 0x8000
    ensures Fits(x * y, W32)
  {
    ProductBound(Abs(x), Abs(y), 0x8000);
    assert Abs(x * y) == Abs(x) * Abs(y);
  }

  lemma ProductBound(p: nat, q: nat, m: nat)
    requires p < m && q < m
    ensures p * q <= m * m
  {
    assert p * q <= m * q <= m * m;
  }

  /** Multiplying throws exactly when the true product does not fit the wider type, and otherwise returns it. */
  lemma MultiplyExact(x: int, a: Width, y: int, b: Width)
    requires NonNull(x, a) && NonNull(y, b)
    ensures Multiply(x, a, y, b) == if Fits(x * y, Wider(a, b)) then Value(Wider(a, b), x * y) else OutOfRange
  {
    if Half(Wider(a, b)) <= 0x8000 { SmallProduct(x, y); }
    if y != 0 { QuotientTest(x, y, Wider(a, b)); } else { ZeroProduct(x, y); }
    CheckedExact(x * y, a, b, prod => BadProduct(x, y, prod));
  }

  lemma ZeroProduct(x: int, y: int)
    requires y == 0
    ensures x * y == 0
  {
  }

  /** A true result equal to the least value of the type comes back as that type's NULL: -64 times 2 in eight bits. */
  lemma ResultCanBeNull()
    ensures Multiply(-64, W8, 2, W8) == Value(W8, -Half(W8)) && !NonNull(-Half(W8), W8)
  {
    MultiplyExact(-64, W8, 2, W8);
  }
}
