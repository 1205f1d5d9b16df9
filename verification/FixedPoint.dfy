/** Rounded fixed-point multiplication and exponentiation by squaring. */
module FixedPoint {
  import opened Machine

  /** `mul_div_round`: (a * b + denom / 2) / denom in u128. */
  function MulDivRound(a: u128, b: u128, denom: u128): Result<u128> {
    var prod :- CheckedMul128(a, b, Overflow);
    var adj :- CheckedAdd128(prod, denom / 2, Overflow);
    if denom == 0 then Err(DivByZero) else Ok(Quotient(adj, denom))
  }

  function Quotient(a: u128, d: u128): (q: u128)
    requires d > 0
    ensures q <= a && q * d <= a < q * d + d
  {
    QuotientBounds(a, d);
    a / d
  }

  lemma QuotientBounds(a: int, d: int)
    requires a >= 0 && d > 0
    ensures 0 <= a / d <= a
    ensures (a / d) * d <= a < (a / d) * d + d
  {
    var q, m := a / d, a % d;
    assert a == q * d + m && 0 <= m < d;
    if q < 0 {
      MulLe(q, -1, d);
      assert false;
    }
    MulLe(1, d, q);
  }

  lemma MulLe(a: int, b: int, c: int)
    requires a <= b && c >= 0
    ensures a * c <= b * c
  {
    var k := b - a;
    assert k * c >= 0;
    assert b * c == a * c + k * c;
  }

  /** What remains to be computed when the loop of `pow_fixed` holds `acc`, `base`, `exp`. */
  function PowFrom(acc: u128, base: u128, exp: nat, scale: u128): Result<u128>
    decreases exp, base
  {
    if exp == 0 then
      Ok(acc)
    else
      var acc' :- if exp % 2 == 1 then MulDivRound(acc, base, scale) else Ok(acc);
      var base' :- if exp / 2 > 0 then MulDivRound(base, base, scale) else Ok(base);
      PowFrom(acc', base', exp / 2, scale)
  }

  /** `pow_fixed`: base^exp in fixed point, by squaring, rounding at every step. */
  method PowFixed(base0: u128, exp0: nat, scale: u128) returns (r: Result<u128>)
    ensures r == PowFrom(scale, base0, exp0, scale)
  {
    var acc, base, exp := scale, base0, exp0;
    while exp > 0
      invariant PowFrom(acc, base, exp, scale) == PowFrom(scale, base0, exp0, scale)
    {
      if exp % 2 == 1 {
        acc :- MulDivRound(acc, base, scale);
      }
      exp := exp / 2;
      if exp > 0 {
        base :- MulDivRound(base, base, scale);
      }
    }
    return Ok(acc);
  }

  // ---------------------------------------------------------------- exact powers

  function Pow(b: nat, n: nat): nat {
    if n == 0 then 1 else b * Pow(b, n - 1)
  }

  lemma {:induction false} PowAdd(b: nat, m: nat, n: nat)
    ensures Pow(b, m + n) == Pow(b, m) * Pow(b, n)
  {
    if m == 0 {
      assert Pow(b, 0) == 1;
    } else {
      PowAdd(b, m - 1, n);
      Assoc(b, Pow(b, m - 1), Pow(b, n));
    }
  }

  lemma Assoc(a: int, b: int, c: int)
    ensures a * (b * c) == (a * b) * c
  {
  }

  lemma MulMono(a: nat, b: nat, c: nat, d: nat)
    requires a <= b && c <= d
    ensures a * c <= b * d
  {
    MulLe(a, b, c);
    MulLe(c, d, b);
  }

  lemma CancelFactor(a: nat, b: nat, p: nat)
    requires p >= 1 && a * p <= b * p
    ensures a <= b
  {
    if b < a {
      MulLe(b + 1, a, p);
      assert false;
    }
  }

  // ---------------------------------------------------------------- error bound

  /** v/s approximates (b/s)^m after m - 1 roundings: the relative error of one
      rounding of a value of at least s is at most 1/(2s). Cleared of fractions. */
  ghost predicate Near(b: nat, s: nat, m: nat, v: nat) {
    && m >= 1 && s >= 1
    && Pow(b, m) * Pow(2 * s - 1, m - 1) <= v * Pow(2 * s * s, m - 1)
    && v * Pow(2 * s * s, m - 1) <= Pow(b, m) * Pow(2 * s + 1, m - 1)
  }

  /** v stands for the m-th power of b at scale s: exact for m = 0, otherwise within
      m - 1 roundings, and never below simple growth. */
  ghost predicate Tracks(b: nat, s: nat, m: nat, v: nat) {
    && s <= b && s <= v
    && s + m * (b - s) <= v
    && if m == 0 then v == s else Near(b, s, m, v)
  }

  lemma RoundingStep(x: nat, y: nat, s: nat, r: nat)
    requires s >= 1 && s <= x && s <= y
    requires r * s <= x * y + s / 2 < r * s + s
    ensures x * y * (2 * s - 1) <= r * (2 * s * s) <= x * y * (2 * s + 1)
  {
    MulMono(s, x, s, y);
    ScaleUp(x * y, r * s, s);
    assert r * (2 * s * s) == 2 * (r * s) * s by { Assoc(2 * r, s, s); }
  }

  /** From |q - p| <= s/2 and p >= s*s to |q - p| * s <= p/2. */
  lemma ScaleUp(p: nat, q: nat, s: nat)
    requires s * s <= p && 2 * p - s <= 2 * q <= 2 * p + s
    ensures p * (2 * s - 1) <= 2 * q * s <= p * (2 * s + 1)
  {
    MulLe(2 * q, 2 * p + s, s);
    MulLe(2 * p - s, 2 * q, s);
    var ps := p * s;
    assert (2 * p + s) * s == 2 * ps + s * s;
    assert (2 * p - s) * s == 2 * ps - s * s;
    assert p * (2 * s + 1) == 2 * ps + p;
    assert p * (2 * s - 1) == 2 * ps - p;
  }

  lemma Shuffle(a: int, b: int, c: int, d: int)
    ensures (a * b) * (c * d) == (a * c) * (b * d)
  {
    Assoc(a * b, c, d);
    Assoc(a, b, c);
    Assoc(a, c, b);
    Assoc(a * c, b, d);
    assert b * c == c * b;
  }

  /** The step of the error bound, on either side of it. */
  lemma ProductBelow(r: nat, scale: nat, growth: nat, v1: nat, a1: nat, c1: nat, v2: nat, a2: nat, c2: nat)
    requires r * scale <= v1 * v2 * growth && v1 * a1 <= c1 && v2 * a2 <= c2
    ensures r * (scale * (a1 * a2)) <= (c1 * c2) * growth
  {
    MulMono(r * scale, v1 * v2 * growth, a1 * a2, a1 * a2);
    Assoc(r, scale, a1 * a2);
    Shuffle(v1 * v2, growth, a1 * a2, 1);
    Shuffle(v1, v2, a1, a2);
    MulMono(v1 * a1, c1, v2 * a2, c2);
    MulMono((v1 * a1) * (v2 * a2), c1 * c2, growth, growth);
  }

  lemma ProductAbove(r: nat, scale: nat, growth: nat, v1: nat, a1: nat, c1: nat, v2: nat, a2: nat, c2: nat)
    requires v1 * v2 * growth <= r * scale && c1 <= v1 * a1 && c2 <= v2 * a2
    ensures (c1 * c2) * growth <= r * (scale * (a1 * a2))
  {
    MulMono(v1 * v2 * growth, r * scale, a1 * a2, a1 * a2);
    Assoc(r, scale, a1 * a2);
    Shuffle(v1 * v2, growth, a1 * a2, 1);
    Shuffle(v1, v2, a1, a2);
    MulMono(c1, v1 * a1, c2, v2 * a2);
    MulMono(c1 * c2, (v1 * a1) * (v2 * a2), growth, growth);
  }

  /** Pow(x, m1 + m2 - 1) in terms of the two factors. */
  lemma PowJoin(x: nat, m1: nat, m2: nat)
    requires m1 >= 1 && m2 >= 1
    ensures Pow(x, m1 + m2 - 1) == x * (Pow(x, m1 - 1) * Pow(x, m2 - 1))
  {
    PowAdd(x, m1 - 1, m2 - 1);
    assert Pow(x, m1 + m2 - 1) == x * Pow(x, m1 + m2 - 2);
  }

  lemma NearProduct(b: nat, s: nat, m1: nat, v1: nat, m2: nat, v2: nat, r: nat)
    requires Near(b, s, m1, v1) && Near(b, s, m2, v2) && s <= v1 && s <= v2
    requires r * s <= v1 * v2 + s / 2 < r * s + s
    ensures Near(b, s, m1 + m2, r)
  {
    RoundingStep(v1, v2, s, r);
    var a1, a2 := Pow(2 * s * s, m1 - 1), Pow(2 * s * s, m2 - 1);
    var h1, h2 := Pow(2 * s + 1, m1 - 1), Pow(2 * s + 1, m2 - 1);
    var l1, l2 := Pow(2 * s - 1, m1 - 1), Pow(2 * s - 1, m2 - 1);
    var p1, p2 := Pow(b, m1), Pow(b, m2);
    ProductBelow(r, 2 * s * s, 2 * s + 1, v1, a1, p1 * h1, v2, a2, p2 * h2);
    ProductAbove(r, 2 * s * s, 2 * s - 1, v1, a1, p1 * l1, v2, a2, p2 * l2);
    Regroup(p1, h1, p2, h2, 2 * s + 1);
    Regroup(p1, l1, p2, l2, 2 * s - 1);
    PowAdd(b, m1, m2);
    PowJoin(2 * s * s, m1, m2);
    PowJoin(2 * s + 1, m1, m2);
    PowJoin(2 * s - 1, m1, m2);
  }

  lemma Regroup(p1: int, h1: int, p2: int, h2: int, h: int)
    ensures ((p1 * h1) * (p2 * h2)) * h == (p1 * p2) * (h * (h1 * h2))
  {
    Shuffle(p1, h1, p2, h2);
    Assoc(p1 * p2, h1 * h2, h);
  }

  /** A rounded product is the nearest one, halves rounded up, and fails only for a zero divisor
      or where the product and half the divisor leave 128 bits. */
  lemma RoundedProduct(a: u128, b: u128, s: u128)
    ensures MulDivRound(a, b, s).Ok? <==> s > 0 && a * b + s / 2 <= U128_MAX
    ensures MulDivRound(a, b, s).Ok? ==>
              var r := MulDivRound(a, b, s).value;
              && r * s <= a * b + s / 2 < r * s + s
              && 2 * a * b - s < 2 * r * s <= 2 * a * b + s
  {
    MulMono(0, a, 0, b);
    if MulDivRound(a, b, s).Ok? {
      NearestMultiple(a * b, s, MulDivRound(a, b, s).value);
    }
  }

  lemma NearestMultiple(p: nat, s: nat, r: nat)
    requires r * s <= p + s / 2 < r * s + s
    ensures 2 * p - s < 2 * (r * s) <= 2 * p + s
  {
  }

  /** One rounded product of two tracked values tracks the product of the powers. */
  lemma TracksProduct(b: nat, s: nat, m1: nat, v1: u128, m2: nat, v2: u128, r: u128)
    requires s >= 1 && m2 >= 1 && s <= U128_MAX
    requires Tracks(b, s, m1, v1) && Tracks(b, s, m2, v2)
    requires MulDivRound(v1, v2, s) == Ok(r)
    ensures Tracks(b, s, m1 + m2, r)
  {
    RoundedProduct(v1, v2, s);
    if m1 == 0 {
      assert v1 == s;
      ExactUnit(v2, s, r);
    } else {
      NearProduct(b, s, m1, v1, m2, v2, r);
      FloorKeepsGrowth(b - s, s, m1, v1, m2, v2, r);
      MulLe(0, m1 + m2, b - s);
    }
  }

  lemma ExactUnit(v: nat, s: nat, r: nat)
    requires s >= 1 && r * s <= s * v + s / 2 < r * s + s
    ensures r == v
  {
    if r < v {
      MulLe(r + 1, v, s);
      assert false;
    } else if r > v {
      MulLe(v + 1, r, s);
      assert false;
    }
  }

  /** The Bernoulli step: (s + m1 x)(s + m2 x) >= s (s + (m1 + m2) x), and rounding
      a value that is at least a multiple of s does not fall below it. */
  lemma FloorKeepsGrowth(x: nat, s: nat, m1: nat, v1: nat, m2: nat, v2: nat, r: nat)
    requires s >= 1 && s + m1 * x <= v1 && s + m2 * x <= v2
    requires v1 * v2 + s / 2 < r * s + s
    ensures s + (m1 + m2) * x <= r
  {
    var g1, g2 := m1 * x, m2 * x;
    assert (m1 + m2) * x == g1 + g2;
    MulMono(s + g1, v1, s + g2, v2);
    Expand(s, g1, g2);
    FloorAbove(s + g1 + g2, v1 * v2, s, r);
  }

  lemma Expand(s: nat, g1: nat, g2: nat)
    ensures (s + g1) * (s + g2) >= (s + g1 + g2) * s
  {
    assert (s + g1) * (s + g2) == (s + g1 + g2) * s + g1 * g2;
  }

  lemma FloorAbove(g: nat, p: nat, s: nat, r: nat)
    requires g * s <= p < r * s + s
    ensures g <= r
  {
    if r < g {
      MulLe(r + 1, g, s);
      assert false;
    }
  }

  /** A property of exponents and values that one rounded product hands on. */
  ghost predicate Multiplicative(p: (nat, u128) -> bool, s: u128) {
    forall m1: nat, v1, m2: nat, v2 :: p(m1, v1) && p(m2, v2) && m2 >= 1 && MulDivRound(v1, v2, s).Ok? ==>
      p(m1 + m2, MulDivRound(v1, v2, s).value)
  }

  /** The loop invariant of `pow_fixed`, run to the end: acc stands for the m-th power, base
      for the k-th, and m + k * exp never changes. */
  lemma {:induction false} PowFromInvariant(
      p: (nat, u128) -> bool, s: u128, m: nat, acc: u128, k: nat, base: u128, exp: nat, n: nat)
    requires Multiplicative(p, s) && p(m, acc) && p(k, base)
    requires k >= 1 && n == m + k * exp && PowFrom(acc, base, exp, s).Ok?
    ensures p(n, PowFrom(acc, base, exp, s).value)
    decreases exp
  {
    if exp > 0 {
      var acc', m' := acc, m;
      if exp % 2 == 1 {
        acc', m' := MulDivRound(acc, base, s).value, m + k;
      }
      HalveExponent(m, k, exp);
      if exp == 1 {
        assert PowFrom(acc', base, 0, s) == Ok(acc');
      } else {
        PowFromInvariant(p, s, m', acc', k + k, MulDivRound(base, base, s).value, exp / 2, n);
      }
    }
  }

  lemma HalveExponent(m: nat, k: nat, exp: nat)
    ensures (if exp % 2 == 1 then m + k else m) + (k + k) * (exp / 2) == m + k * exp
  {
    var h := exp / 2;
    assert exp == 2 * h + exp % 2;
    assert k * exp == k * (2 * h) + k * (exp % 2);
  }

  /** `pow_fixed(base, n, scale)` for base >= scale and n >= 1. The result is at least
      scale + n * (base - scale), and off the exact power by n - 1 roundings, no more. */
  lemma PowFixedBounds(base: u128, n: nat, scale: u128, r: u128)
    requires 1 <= scale <= base && n >= 1
    requires PowFrom(scale, base, n, scale) == Ok(r)
    ensures scale + n * (base - scale) <= r
    ensures Near(base, scale, n, r)
  {
    var p := (m: nat, v: u128) => Tracks(base, scale, m, v);
    assert Pow(base, 1) == base * Pow(base, 0);
    assert p(1, base) && p(0, scale);
    assert Multiplicative(p, scale) by {
      forall m1: nat, v1, m2: nat, v2 | p(m1, v1) && p(m2, v2) && m2 >= 1 && MulDivRound(v1, v2, scale).Ok?
        ensures p(m1 + m2, MulDivRound(v1, v2, scale).value)
      {
        TracksProduct(base, scale, m1, v1, m2, v2, MulDivRound(v1, v2, scale).value);
      }
    }
    PowFromInvariant(p, scale, 0, scale, 1, base, n, n);
  }

  // ---------------------------------------------------------------- monotonicity

  lemma MulDivRoundMonotone(a1: u128, a2: u128, b1: u128, b2: u128, d: u128)
    requires a1 <= a2 && b1 <= b2 && MulDivRound(a2, b2, d).Ok?
    ensures MulDivRound(a1, b1, d).Ok?
    ensures MulDivRound(a1, b1, d).value <= MulDivRound(a2, b2, d).value
  {
    MulMono(a1, a2, b1, b2);
    var x, y := a1 * b1 + d / 2, a2 * b2 + d / 2;
    FloorAbove(Quotient(x, d), y, d, Quotient(y, d));
  }

  /** Smaller inputs never overflow where larger ones do not, and never give more. */
  lemma {:induction false} PowFromMonotone(acc1: u128, acc2: u128, base1: u128, base2: u128, exp: nat, s: u128)
    requires acc1 <= acc2 && base1 <= base2 && PowFrom(acc2, base2, exp, s).Ok?
    ensures PowFrom(acc1, base1, exp, s).Ok?
    ensures PowFrom(acc1, base1, exp, s).value <= PowFrom(acc2, base2, exp, s).value
    decreases exp
  {
    if exp > 0 {
      if exp % 2 == 1 {
        MulDivRoundMonotone(acc1, acc2, base1, base2, s);
      }
      if exp / 2 > 0 {
        MulDivRoundMonotone(base1, base2, base1, base2, s);
      }
      var a1 := if exp % 2 == 1 then MulDivRound(acc1, base1, s).value else acc1;
      var a2 := if exp % 2 == 1 then MulDivRound(acc2, base2, s).value else acc2;
      var b1 := if exp / 2 > 0 then MulDivRound(base1, base1, s).value else base1;
      var b2 := if exp / 2 > 0 then MulDivRound(base2, base2, s).value else base2;
      PowFromMonotone(a1, a2, b1, b2, exp / 2, s);
    }
  }
}
