/** Daily-compounded yield from a simple rate. Both are scaled by 10^6, so 1_000_000
    is 100%; the work is done at 10^18. */
module Apy {
  import opened Machine
  import opened FixedPoint

  const EXT_SCALE: u128 := 1_000_000
  const INT_SCALE: u128 := 1_000_000_000_000_000_000
  const N: nat := 365

  /** The largest rate whose yield fits the 128-bit arithmetic: 587.6581%. */
  const MAX_APR: u64 := 5_876_581

  /** 1 + apr / 365 at scale 10^18, rounded to the nearest. */
  function DailyFactor(apr: u64): Result<u128> {
    var num, den := INT_SCALE * apr, EXT_SCALE * N;
    if num > U128_MAX || num + den / 2 > U128_MAX then
      Err(Overflow)
    else
      CheckedAdd128(INT_SCALE, Quotient(num + den / 2, den), Overflow)
  }

  /** `calculate_apy_from_apr` after the power has been taken. */
  function YieldOf(pow: u128): Result<u64> {
    if pow < INT_SCALE then
      Err(Overflow)
    else
      var apy :- MulDivRound(pow - INT_SCALE, EXT_SCALE, INT_SCALE);
      if apy > U64_MAX then Err(Overflow) else Ok(apy)
  }

  /** What `calculate_apy_from_apr` returns. */
  function Apy(apr: u64): Result<u64> {
    var base :- DailyFactor(apr);
    var pow :- PowFrom(INT_SCALE, base, N, INT_SCALE);
    YieldOf(pow)
  }

  method CalculateApyFromApr(apr: u64) returns (r: Result<u64>)
    ensures r == Apy(apr)
  {
    var base :- DailyFactor(apr);
    var powResult := PowFixed(base, N, INT_SCALE);
    var pow :- powResult;
    return YieldOf(pow);
  }

  function Abs(x: int): nat {
    if x < 0 then -x else x
  }

  /** The rounded daily factor never fails and is the nearest multiple of 10^-18. */
  lemma DailyFactorNearest(apr: u64)
    ensures DailyFactor(apr).Ok?
    ensures var b := DailyFactor(apr).value;
            && INT_SCALE <= b
            && Abs(2 * (b * 365_000_000 - INT_SCALE * (365_000_000 + apr))) <= 365_000_000
  {
  }

  /** The subtraction of 1.0 and the final narrowing never fail: the power is the only limit. */
  lemma YieldNearest(pow: u128)
    requires pow >= INT_SCALE && INT_SCALE * pow <= U128_MAX
    ensures YieldOf(pow).Ok?
    ensures var y := YieldOf(pow).value;
            Abs(2 * (y * INT_SCALE - (pow - INT_SCALE) * EXT_SCALE)) <= INT_SCALE
  {
  }

  // The two evaluations that fix MAX_APR, one loop iteration a line.

  ghost predicate IsRounded(a: u128, b: u128, z: u128) {
    && a * b + INT_SCALE / 2 <= U128_MAX
    && z * INT_SCALE <= a * b + INT_SCALE / 2 < z * INT_SCALE + INT_SCALE
  }

  lemma Rounds(a: u128, b: u128, z: u128)
    requires IsRounded(a, b, z)
    ensures MulDivRound(a, b, INT_SCALE) == Ok(z)
  {
  }

  lemma MultiplyAndSquare(exp: nat, acc: u128, base: u128, acc': u128, base': u128)
    requires exp > 1 && exp % 2 == 1 && IsRounded(acc, base, acc') && IsRounded(base, base, base')
    ensures PowFrom(acc, base, exp, INT_SCALE) == PowFrom(acc', base', exp / 2, INT_SCALE)
  {
    Rounds(acc, base, acc');
    Rounds(base, base, base');
  }

  lemma Square(exp: nat, acc: u128, base: u128, base': u128)
    requires exp > 1 && exp % 2 == 0 && IsRounded(base, base, base')
    ensures PowFrom(acc, base, exp, INT_SCALE) == PowFrom(acc, base', exp / 2, INT_SCALE)
  {
    Rounds(base, base, base');
  }

  lemma LargestRateFits()
    ensures Apy(MAX_APR) == Ok(339_282_307)
  {
    assert DailyFactor(MAX_APR) == Ok(1016100221917808219);
    MultiplyAndSquare(365, INT_SCALE, 1016100221917808219, 1016100221917808219, 1032459660981419110);
    Square(182, 1016100221917808219, 1032459660981419110, 1065972951553866882);
    MultiplyAndSquare(91, 1016100221917808219, 1065972951553866882, 1083135352632265168, 1136298333444462631);
    MultiplyAndSquare(45, 1083135352632265168, 1136298333444462631, 1230764896090823261, 1291173902588663183);
    Square(22, 1230764896090823261, 1291173902588663183, 1667130046726038682);
    MultiplyAndSquare(11, 1230764896090823261, 1667130046726038682, 2051845138728662326, 2779322592696763919);
    MultiplyAndSquare(5, 2051845138728662326, 2779322592696763919, 5702739550783597021, 7724634074274661867);
    Square(2, 5702739550783597021, 7724634074274661867, 59669971581445162309);
    Rounds(5702739550783597021, 59669971581445162309, 340282306931640585230);
  }

  lemma NextRateOverflows()
    ensures Apy(MAX_APR + 1) == Err(Overflow)
  {
    assert DailyFactor(MAX_APR + 1) == Ok(1016100224657534247);
    MultiplyAndSquare(365, INT_SCALE, 1016100224657534247, 1016100224657534247, 1032459666549091568);
    Square(182, 1016100224657534247, 1032459666549091568, 1065972963050661350);
    MultiplyAndSquare(91, 1016100224657534247, 1065972963050661350, 1083135367234634451, 1136298357955006628);
    MultiplyAndSquare(45, 1083135367234634451, 1136298357955006628, 1230764939231708215, 1291173958291244375);
    Square(22, 1230764939231708215, 1291173958291244375, 1667130190569480069);
    MultiplyAndSquare(11, 1230764939231708215, 1667130190569480069, 2051845387687592273, 2779323072308230932);
    MultiplyAndSquare(5, 2051845387687592273, 2779323072308230932, 5702741226809352149, 7724636740264863866);
    Square(2, 5702741226809352149, 7724636740264863866, 59670012769049781901);
  }

  // ---------------------------------------------------------------- main results

  /** What a call computed on the way: it succeeds exactly when the power does. */
  lemma Stages(apr: u64) returns (base: u128, pow: u128)
    ensures DailyFactor(apr) == Ok(base) && INT_SCALE <= base
    ensures Apy(apr).Ok? <==> PowFrom(INT_SCALE, base, N, INT_SCALE).Ok?
    ensures Apy(apr).Ok? ==>
              && PowFrom(INT_SCALE, base, N, INT_SCALE) == Ok(pow)
              && INT_SCALE + N * (base - INT_SCALE) <= pow
              && INT_SCALE * pow <= U128_MAX
              && Apy(apr) == YieldOf(pow)
  {
    DailyFactorNearest(apr);
    base, pow := DailyFactor(apr).value, 0;
    var power := PowFrom(INT_SCALE, base, N, INT_SCALE);
    if power.Ok? {
      pow := power.value;
      PowFixedBounds(base, N, INT_SCALE, pow);
      LastProductFits(INT_SCALE, base, N, INT_SCALE);
      YieldNearest(pow);
    }
  }

  /** The result of a rounded power is a product that fitted u128. */
  lemma {:induction false} LastProductFits(acc: u128, base: u128, exp: nat, s: u128)
    requires exp >= 1 && s >= 1
    ensures PowFrom(acc, base, exp, s).Ok? ==> s * PowFrom(acc, base, exp, s).value <= U128_MAX
    decreases exp
  {
    if PowFrom(acc, base, exp, s).Ok? {
      var acc' := if exp % 2 == 1 then MulDivRound(acc, base, s).value else acc;
      if exp == 1 {
        assert PowFrom(acc', base, 0, s) == Ok(acc');
      } else {
        LastProductFits(acc', MulDivRound(base, base, s).value, exp / 2, s);
      }
    }
  }

  /** A rate below a succeeding one succeeds too, with no larger yield. */
  lemma ApyMonotone(a1: u64, a2: u64)
    requires a1 <= a2
    ensures Apy(a2).Ok? ==> Apy(a1).Ok? && Apy(a1).value <= Apy(a2).value
  {
    if Apy(a2).Ok? {
      DailyFactorMonotone(a1, a2);
      var base1, pow1 := Stages(a1);
      var base2, pow2 := Stages(a2);
      PowFromMonotone(INT_SCALE, INT_SCALE, base1, base2, N, INT_SCALE);
      MulDivRoundMonotone(pow1 - INT_SCALE, pow2 - INT_SCALE, EXT_SCALE, EXT_SCALE, INT_SCALE);
    }
  }

  lemma DailyFactorMonotone(a1: u64, a2: u64)
    requires a1 <= a2
    ensures DailyFactor(a1).Ok? && DailyFactor(a2).Ok?
    ensures DailyFactor(a1).value <= DailyFactor(a2).value
  {
    DailyFactorNearest(a1);
    DailyFactorNearest(a2);
    assert EXT_SCALE * N == 365_000_000;
  }

  lemma {:induction false} PowerOnlyOverflows(acc: u128, base: u128, exp: nat, s: u128)
    requires s >= 1
    ensures PowFrom(acc, base, exp, s).Err? ==> PowFrom(acc, base, exp, s) == Err(Overflow)
    decreases exp
  {
    if exp > 0 {
      var acc' := if exp % 2 == 1 then MulDivRound(acc, base, s) else Ok(acc);
      var base' := if exp / 2 > 0 then MulDivRound(base, base, s) else Ok(base);
      if acc'.Ok? && base'.Ok? {
        PowerOnlyOverflows(acc'.value, base'.value, exp / 2, s);
      }
    }
  }

  lemma OnlyOverflow(apr: u64)
    ensures Apy(apr).Err? ==> Apy(apr) == Err(Overflow)
  {
    var base, pow := Stages(apr);
    PowerOnlyOverflows(INT_SCALE, base, N, INT_SCALE);
  }

  /** The exact domain: the yield is defined for every rate up to 587.6581% and no other,
      and any failure is an overflow. */
  lemma ApyDomain(apr: u64)
    ensures Apy(apr).Ok? <==> apr <= MAX_APR
    ensures Apy(apr).Ok? ==> Apy(apr).value <= 339_282_307
    ensures Apy(apr).Err? ==> Apy(apr) == Err(Overflow)
  {
    OnlyOverflow(apr);
    LargestRateFits();
    NextRateOverflows();
    if apr <= MAX_APR {
      ApyMonotone(apr, MAX_APR);
    } else if Apy(apr).Ok? {
      ApyMonotone(MAX_APR + 1, apr);
      assert false;
    }
  }

  /** Compounding never pays less than the simple rate, rounding included. */
  lemma ApyNotBelowApr(apr: u64)
    ensures Apy(apr).Ok? ==> apr <= Apy(apr).value
  {
    DailyFactorNearest(apr);
    var base, pow := Stages(apr);
    if Apy(apr).Ok? {
      YieldNearest(pow);
    }
  }

  // ---------------------------------------------------------------- accuracy

  /** n downward roundings of relative size 1/c lose at most n/c. */
  lemma {:induction false} LossesAddUp(c: nat, n: nat)
    requires 1 <= n < c
    ensures Pow(c, n - 1) * (c - n) <= Pow(c - 1, n)
  {
    if n == 1 {
      assert Pow(c, 0) == 1;
      assert Pow(c - 1, 1) == (c - 1) * Pow(c - 1, 0);
    } else {
      LossesAddUp(c, n - 1);
      LossStep(c, c - n, Pow(c, n - 2), Pow(c - 1, n - 1));
    }
  }

  lemma LossStep(c: nat, d: nat, p: nat, q: nat)
    requires d < c && p * (d + 1) <= q
    ensures (c * p) * d <= (c - 1) * q
  {
    MulMono(p * (d + 1), q, c - 1, c - 1);
    assert (d + 1) * (c - 1) == c * d + (c - 1 - d);
    MulMono(c * d, (d + 1) * (c - 1), p, p);
    Assoc(p, d + 1, c - 1);
    Assoc(p, c, d);
  }

  /** n upward roundings of relative size 1/c gain at most a factor c/(c - n). */
  lemma {:induction false} GainsAddUp(c: nat, n: nat)
    requires n < c
    ensures Pow(c + 1, n) * (c - n) <= Pow(c, n) * c
  {
    if n == 0 {
      assert Pow(c, 0) == Pow(c + 1, 0) == 1;
    } else {
      GainsAddUp(c, n - 1);
      GainStep(c, c - n, Pow(c, n - 1), Pow(c + 1, n - 1));
    }
  }

  lemma GainStep(c: nat, d: nat, p: nat, o: nat)
    requires d < c && o * (d + 1) <= p * c
    ensures ((c + 1) * o) * d <= (c * p) * c
  {
    MulMono(o * (d + 1), p * c, c, c);
    assert (c + 1) * d == c * (d + 1) - (c - d);
    MulMono((c + 1) * d, c * (d + 1), o, o);
    Assoc(o, c + 1, d);
    Assoc(o, d + 1, c);
  }

  /** (base * 2 den)^n against (den + apr)^n, from the rounding of one daily factor. */
  lemma {:induction false} FactorPower(x: nat, y: nat, g: nat, h: nat, n: nat)
    requires x * y <= g * h
    ensures Pow(x, n) * Pow(y, n) <= Pow(g, n) * Pow(h, n)
  {
    if n > 0 {
      FactorPower(x, y, g, h, n - 1);
      Shuffle(x, Pow(x, n - 1), y, Pow(y, n - 1));
      Shuffle(g, Pow(g, n - 1), h, Pow(h, n - 1));
      MulMono(x * y, g * h, Pow(x, n - 1) * Pow(y, n - 1), Pow(g, n - 1) * Pow(h, n - 1));
    }
  }

  lemma {:induction false} PowProduct(a: nat, b: nat, n: nat)
    ensures Pow(a * b, n) == Pow(a, n) * Pow(b, n)
  {
    if n > 0 {
      PowProduct(a, b, n - 1);
      Shuffle(a, b, Pow(a, n - 1), Pow(b, n - 1));
    }
  }

  lemma {:induction false} PowPositive(b: nat, n: nat)
    requires b >= 1
    ensures Pow(b, n) >= 1
  {
    if n > 0 {
      PowPositive(b, n - 1);
      MulMono(1, b, 1, Pow(b, n - 1));
    }
  }

  /** The denominators of the error bound, gathered: (2s * s)^(n-1) (2 den)^n is
      2 (2s)^(2n-2) den^n. */
  lemma GatherScales(s: nat, den: nat, n: nat)
    requires n >= 1
    ensures Pow(2 * s * s, n - 1) * Pow(2 * den, n) == Pow(2 * s, 2 * n - 2) * (2 * Pow(den, n))
  {
    var c := 2 * s;
    PowProduct(c, s, n - 1);
    PowProduct(2, den, n);
    PowProduct(2, s, n - 1);
    PowAdd(c, n - 1, n - 1);
    var c1, s1, t1, d := Pow(c, n - 1), Pow(s, n - 1), Pow(2, n - 1), Pow(den, n);
    assert Pow(2, n) == 2 * t1;
    assert (c1 * s1) * ((2 * t1) * d) == (c1 * (t1 * s1)) * (2 * d) by {
      Shuffle(c1, s1, 2 * t1, d);
      Shuffle(c1, t1 * s1, 2, d);
      Assoc(c1, 2, t1);
      Shuffle(c1 * 2, t1, s1, d);
      assert c1 * 2 == 2 * c1;
    }
  }

  /** rd / (gn c) is 1 up to m + 1 roundings of relative size 1/c. */
  ghost predicate Drift(c: nat, m: nat, rd: int, gn: int) {
    && c >= 1 && rd >= 0 && gn >= 0
    && gn * Pow(c - 1, m + 1) <= rd * Pow(c, m) <= gn * Pow(c + 1, m + 1)
  }

  lemma BoundDrift(c: nat, m: nat, rd: int, gn: int)
    requires m + 1 < c && Drift(c, m, rd, gn)
    ensures rd * (c - (m + 1)) <= gn * (c * c)
    ensures gn * (c - (m + 1)) <= rd
  {
    GainsAddUp(c, m + 1);
    LossesAddUp(c, m + 1);
    PowPositive(c, m);
    CancelScales(rd, gn, Pow(c, m), Pow(c + 1, m + 1), Pow(c - 1, m + 1), c, c - (m + 1));
  }

  lemma RoundedPower(base: nat, s: nat, den: nat, g: nat, n: nat)
    requires s >= 1 && den <= g && Abs(2 * (base * den - s * g)) <= den
    ensures Pow(g, n) * Pow(2 * s - 1, n) <= Pow(base, n) * Pow(2 * den, n) <= Pow(g, n) * Pow(2 * s + 1, n)
  {
    OneRounding(base, s, den, g);
    FactorPower(base, 2 * den, g, 2 * s + 1, n);
    FactorPower(g, 2 * s - 1, base, 2 * den, n);
  }

  /** r / s against (g / den)^n, where base / s is g / den rounded once and r is the
      power of base rounded n - 1 times: 2n - 1 roundings of relative size 1/(2s). */
  lemma CompoundRoundings(base: nat, s: nat, den: nat, g: nat, n: nat, r: nat)
    requires n >= 1 && s >= 1 && den <= g
    requires Abs(2 * (base * den - s * g)) <= den && Near(base, s, n, r)
    ensures Drift(2 * s, 2 * n - 2, r * (2 * Pow(den, n)), Pow(g, n))
  {
    RoundedPower(base, s, den, g, n);
    GatherRoundings(base, s, den, n, r, Pow(g, n));
  }

  lemma GatherRoundings(base: nat, s: nat, den: nat, n: nat, r: nat, gn: nat)
    requires n >= 1 && Near(base, s, n, r)
    requires gn * Pow(2 * s - 1, n) <= Pow(base, n) * Pow(2 * den, n) <= gn * Pow(2 * s + 1, n)
    ensures Drift(2 * s, 2 * n - 2, r * (2 * Pow(den, n)), gn)
  {
    var a, b, d, dn := Pow(2 * s * s, n - 1), Pow(base, n), Pow(2 * den, n), 2 * Pow(den, n);
    assert a * d == Pow(2 * s, 2 * n - 2) * dn by {
      GatherScales(s, den, n);
    }
    JoinRoundings(r, a, b, d, 2 * s, n, dn, gn);
  }

  lemma JoinRoundings(r: nat, a: nat, b: nat, d: nat, c: nat, n: nat, dn: nat, g: nat)
    requires n >= 1 && c >= 1
    requires b * Pow(c - 1, n - 1) <= r * a <= b * Pow(c + 1, n - 1)
    requires g * Pow(c - 1, n) <= b * d <= g * Pow(c + 1, n)
    requires a * d == Pow(c, 2 * n - 2) * dn
    ensures Drift(c, 2 * n - 2, r * dn, g)
  {
    Combine(r, a, b, Pow(c + 1, n - 1), Pow(c - 1, n - 1), d, g, Pow(c + 1, n), Pow(c - 1, n));
    PowAdd(c + 1, n, n - 1);
    PowAdd(c - 1, n, n - 1);
    Reorder(r, a * d, Pow(c, 2 * n - 2), dn);
  }

  lemma Reorder(r: nat, ad: int, p: nat, dn: nat)
    requires ad == p * dn
    ensures r * ad == (r * dn) * p && r * dn >= 0
  {
    Assoc(r, dn, p);
    MulLe(0, r, dn);
  }

  lemma Spread(g: int, c: int)
    ensures g * (c + 1) == g * c + g && g * (c - 1) == g * c - g
  {
  }

  lemma OneRounding(base: nat, s: nat, den: nat, g: nat)
    requires s >= 1 && den <= g && Abs(2 * (base * den - s * g)) <= den
    ensures g * (2 * s - 1) <= base * (2 * den) <= g * (2 * s + 1)
  {
    Assoc(base, den, 2);
    Assoc(g, s, 2);
    Spread(g, 2 * s);
  }

  lemma Combine(r: nat, a: nat, b: nat, h1: nat, l1: nat, d: nat, g: nat, h: nat, l: nat)
    requires b * l1 <= r * a <= b * h1 && g * l <= b * d <= g * h
    ensures g * (l * l1) <= r * (a * d) <= g * (h * h1)
  {
    MulMono(r * a, b * h1, d, d);
    MulMono(b * d, g * h, h1, h1);
    MulMono(b * l1, r * a, d, d);
    MulMono(g * l, b * d, l1, l1);
    Assoc(r, a, d);
    Assoc(g, h, h1);
    Assoc(g, l, l1);
    Shuffle(b, h1, d, 1);
    Shuffle(b, l1, d, 1);
  }

  lemma CancelScales(rd: nat, gn: nat, p: nat, hi: nat, lo: nat, c: nat, d: nat)
    requires p >= 1 && gn * lo <= rd * p <= gn * hi
    requires p * d <= lo && hi * d <= (c * p) * c
    ensures rd * d <= gn * (c * c) && gn * d <= rd
  {
    MulMono(rd * p, gn * hi, d, d);
    Assoc(gn, hi, d);
    MulMono(gn, gn, hi * d, (c * p) * c);
    assert (c * p) * c == (c * c) * p by { Assoc(c, p, c); Assoc(c, c, p); }
    Assoc(gn, c * c, p);
    Shuffle(rd, p, d, 1);
    CancelFactor(rd * d, gn * (c * c), p);
    MulMono(gn, gn, p * d, lo);
    Assoc(gn, d, p);
    CancelFactor(gn * d, rd, p);
  }

  /** y is 10^6 (g/d - 1) to within half a unit plus 10^-6 / 2 of a unit. */
  ghost predicate NearYield(y: int, d: int, g: int) {
    2_000_000 * Abs(y * d - 1_000_000 * (g - d)) <= 1_000_001 * d
  }

  /** The yield is the exact daily-compounded one, 10^6 ((1 + apr/365)^365 - 1), to within
      half a unit of its last place and a millionth of that; g/d is (1 + apr/365)^365. */
  lemma ApyAccuracy(apr: u64, den: nat, n: nat)
    requires den == EXT_SCALE * N && n == N
    ensures Apy(apr).Ok? ==> NearYield(Apy(apr).value, Pow(den, n), Pow(den + apr, n))
  {
    var base, pow := Stages(apr);
    if Apy(apr).Ok? {
      YieldAccuracy(apr, base, pow, den, n);
    }
  }

  lemma YieldAccuracy(apr: u64, base: u128, pow: u128, den: nat, n: nat)
    requires den == 365_000_000 && n == 365
    requires INT_SCALE <= base && INT_SCALE <= pow && INT_SCALE * pow <= U128_MAX
    ensures YieldOf(pow).Ok?
    ensures DailyFactor(apr) == Ok(base) && PowFrom(INT_SCALE, base, n, INT_SCALE) == Ok(pow) ==>
              NearYield(YieldOf(pow).value, Pow(den, n), Pow(den + apr, n))
  {
    YieldNearest(pow);
    if DailyFactor(apr) == Ok(base) && PowFrom(INT_SCALE, base, n, INT_SCALE) == Ok(pow) {
      var d, g := Pow(den, n), Pow(den + apr, n);
      assert Drift(2 * INT_SCALE, 2 * n - 2, pow * (2 * d), g) by {
        DailyFactorNearest(apr);
        PowFixedBounds(base, n, INT_SCALE, pow);
        CompoundRoundings(base, INT_SCALE, den, den + apr, n, pow);
      }
      BoundDrift(2 * INT_SCALE, 2 * n - 2, pow * (2 * d), g);
      FinalRounding(YieldOf(pow).value, pow, d, g);
    }
  }

  lemma FinalRounding(y: nat, pow: nat, d: nat, g: nat)
    requires INT_SCALE <= pow && INT_SCALE * pow <= U128_MAX
    requires Abs(2 * (y * INT_SCALE - (pow - INT_SCALE) * EXT_SCALE)) <= INT_SCALE
    requires (pow * (2 * d)) * (2 * INT_SCALE - 729) <= g * (2 * INT_SCALE * (2 * INT_SCALE))
    requires g * (2 * INT_SCALE - 729) <= pow * (2 * d)
    ensures NearYield(y, d, g)
  {
    var x, z, e := pow * d, y * d, 2 * (y * INT_SCALE - (pow - INT_SCALE) * EXT_SCALE);
    assert pow * (2 * d) == 2 * x by { Assoc(pow, d, 2); }
    MulLe(pow, 340_282_366_920_938_463_464, d);
    assert e * d == 2 * (z * INT_SCALE - (x - d * INT_SCALE) * EXT_SCALE) by {
      Distribute(y, pow, d);
    }
    MulLe(e, INT_SCALE, d);
    MulLe(0 - INT_SCALE as int, e, d);
    FinalRoundingLinear(x, z, d, g);
  }

  lemma Distribute(y: int, pow: int, d: int)
    ensures 2 * (y * INT_SCALE - (pow - INT_SCALE) * EXT_SCALE) * d
         == 2 * ((y * d) * INT_SCALE - (pow * d - d * INT_SCALE) * EXT_SCALE)
  {
  }

  lemma FinalRoundingLinear(x: int, z: int, d: int, g: int)
    requires 0 <= x <= 340_282_366_920_938_463_464 * d
    requires (2 * x) * (2 * INT_SCALE - 729) <= g * (2 * INT_SCALE * (2 * INT_SCALE))
    requires g * (2 * INT_SCALE - 729) <= 2 * x
    requires Abs(2 * (z * INT_SCALE - (x - d * INT_SCALE) * EXT_SCALE)) <= INT_SCALE * d
    ensures 2_000_000 * Abs(z - 1_000_000 * (g - d)) <= 1_000_001 * d
  {
  }
}
