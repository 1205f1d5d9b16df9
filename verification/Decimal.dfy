/** Printing a 9-decimal fixed-point number. */
module Decimal {
  import opened Machine
  import opened FixedPoint

  const ONE: nat := 1_000_000_000

  function DigitChar(d: nat): char
    requires d < 10
  {
    "0123456789"[d]
  }

  /** `to_string` on an unsigned integer. */
  function Digits(n: nat): string {
    if n < 10 then [DigitChar(n)] else Digits(n / 10) + [DigitChar(n % 10)]
  }

  /** The k last decimal digits of n; `{:09}` prints a number below 10^9 as these with k = 9. */
  function LastDigits(n: nat, k: nat): string
    decreases k, n
  {
    if k == 0 then "" else LastDigits(n / 10, k - 1) + [DigitChar(n % 10)]
  }

  function TrimZeros(s: string): string {
    if s != "" && s[|s| - 1] == '0' then TrimZeros(s[..|s| - 1]) else s
  }

  /** What `u64_to_dec9` returns. */
  function Dec9(n: u64): string {
    if n % ONE == 0 then Digits(n / ONE) else Digits(n / ONE) + "." + TrimZeros(LastDigits(n % ONE, 9))
  }

  /** `u64_to_dec9` */
  method U64ToDec9(n: u64) returns (r: string)
    ensures r == Dec9(n)
  {
    var intPart, fracPart := n / ONE, n % ONE;
    if fracPart == 0 {
      return Digits(intPart);
    }
    var frac := LastDigits(fracPart, 9);
    while frac != "" && frac[|frac| - 1] == '0'
      invariant TrimZeros(frac) == TrimZeros(LastDigits(fracPart, 9))
      decreases |frac|
    {
      frac := frac[..|frac| - 1];
    }
    return Digits(intPart) + "." + frac;
  }

  // ---------------------------------------------------------------- reading it back

  predicate AllDigits(s: string) {
    forall i :: 0 <= i < |s| ==> '0' <= s[i] <= '9'
  }

  function DigitValue(c: char): nat
    requires '0' <= c <= '9'
  {
    c as int - '0' as int
  }

  function NumberOf(s: string): nat
    requires AllDigits(s)
  {
    if s == "" then 0 else NumberOf(s[..|s| - 1]) * 10 + DigitValue(s[|s| - 1])
  }

  /** The position of the first point, or the length. */
  function PointAt(s: string): (i: nat)
    ensures i <= |s| && '.' !in s[..i] && (i < |s| ==> s[i] == '.')
  {
    if s == "" || s[0] == '.' then 0 else 1 + PointAt(s[1..])
  }

  /** Digits, optionally followed by a point and at most nine digits. */
  predicate IsDecimal(s: string) {
    var i := PointAt(s);
    AllDigits(s[..i]) && (i < |s| ==> AllDigits(s[i + 1..]) && |s| - i - 1 <= 9)
  }

  /** The number a decimal string stands for, in units of 10^-9. */
  function Denotes(s: string): nat
    requires IsDecimal(s)
  {
    var i := PointAt(s);
    NumberOf(s[..i]) * ONE + if i < |s| then NumberOf(s[i + 1..]) * Pow(10, 9 - (|s| - i - 1)) else 0
  }

  lemma AppendDigit(s: string, d: nat)
    requires AllDigits(s) && d < 10
    ensures AllDigits(s + [DigitChar(d)])
    ensures NumberOf(s + [DigitChar(d)]) == NumberOf(s) * 10 + d
  {
    assert (s + [DigitChar(d)])[..|s|] == s;
  }

  lemma {:induction false} DigitsRead(n: nat)
    ensures AllDigits(Digits(n)) && NumberOf(Digits(n)) == n && Digits(n) != ""
  {
    if n < 10 {
      AppendDigit("", n);
      assert "" + [DigitChar(n)] == Digits(n);
    } else {
      DigitsRead(n / 10);
      AppendDigit(Digits(n / 10), n % 10);
    }
  }

  /** No leading zero: the digits start with one only where the number is a single digit. */
  lemma {:induction false} DigitsStart(n: nat)
    ensures Digits(n) != "" && (Digits(n)[0] == '0' ==> n == 0 && Digits(n) == "0")
  {
    if n >= 10 {
      DigitsStart(n / 10);
    }
  }

  lemma {:induction false} LastDigitsRead(n: nat, k: nat)
    requires n < Pow(10, k)
    ensures |LastDigits(n, k)| == k && AllDigits(LastDigits(n, k)) && NumberOf(LastDigits(n, k)) == n
    decreases k
  {
    if k > 0 {
      assert Pow(10, k) == 10 * Pow(10, k - 1);
      LastDigitsRead(n / 10, k - 1);
      AppendDigit(LastDigits(n / 10, k - 1), n % 10);
    }
  }

  /** Dropping a trailing fractional zero keeps the value, and the loop stops before the
      fraction is empty. */
  lemma {:induction false} TrimKeepsValue(s: string)
    requires AllDigits(s) && |s| <= 9 && NumberOf(s) > 0
    ensures var t := TrimZeros(s);
            && AllDigits(t) && 0 < |t| <= |s| && t[|t| - 1] != '0'
            && NumberOf(t) * Pow(10, 9 - |t|) == NumberOf(s) * Pow(10, 9 - |s|)
    decreases |s|
  {
    if s[|s| - 1] == '0' {
      var init := s[..|s| - 1];
      assert AllDigits(init) && NumberOf(s) == NumberOf(init) * 10;
      TrimKeepsValue(init);
      assert Pow(10, 9 - |init|) == 10 * Pow(10, 9 - |s|);
      Assoc(NumberOf(init), 10, Pow(10, 9 - |s|));
    }
  }

  lemma {:induction false} PointAfterDigits(a: string, b: string)
    requires AllDigits(a)
    ensures PointAt(a + "." + b) == |a|
    ensures (a + "." + b)[..|a|] == a && (a + "." + b)[|a| + 1..] == b
    ensures PointAt(a) == |a|
  {
    if a != "" {
      assert AllDigits(a[1..]);
      PointAfterDigits(a[1..], b);
      assert (a + "." + b)[1..] == a[1..] + "." + b;
    }
  }

  lemma ReadsBack(a: string, f: string)
    requires AllDigits(a) && AllDigits(f) && |f| <= 9
    ensures IsDecimal(a) && Denotes(a) == NumberOf(a) * ONE
    ensures IsDecimal(a + "." + f)
    ensures Denotes(a + "." + f) == NumberOf(a) * ONE + NumberOf(f) * Pow(10, 9 - |f|)
    ensures '.' in a + "." + f && '.' !in a
  {
    PointAfterDigits(a, f);
    assert a[..|a|] == a;
  }

  lemma FractionRead(frac: nat, k: nat)
    requires 0 < frac < ONE && k == 9
    ensures var t := TrimZeros(LastDigits(frac, k));
            && AllDigits(t) && 0 < |t| <= 9 && t[|t| - 1] != '0'
            && NumberOf(t) * Pow(10, 9 - |t|) == frac
  {
    assert Pow(10, k) == ONE by { assert Pow(10, 4) == 10_000; PowAdd(10, 4, 4); PowAdd(10, 8, 1); }
    LastDigitsRead(frac, k);
    TrimKeepsValue(LastDigits(frac, k));
    assert Pow(10, 9 - k) == 1;
  }

  /** s reads back as n; its integer part is not empty and has no leading zero unless it is
      "0"; it has a point exactly when n has a fraction, which then is neither empty nor ends
      in zero. */
  ghost predicate Canonical(s: string, n: nat) {
    && IsDecimal(s) && Denotes(s) == n
    && PointAt(s) > 0 && (s[0] == '0' ==> PointAt(s) == 1)
    && ('.' in s <==> n % ONE != 0)
    && ('.' in s ==> s[|s| - 1] != '0' && s[|s| - 1] != '.')
  }

  lemma WithFraction(a: string, f: string, n: nat)
    requires AllDigits(a) && NumberOf(a) == n / ONE && a != "" && (a[0] == '0' ==> a == "0")
    requires AllDigits(f) && 0 < |f| <= 9 && f[|f| - 1] != '0'
    requires NumberOf(f) * Pow(10, 9 - |f|) == n % ONE != 0
    ensures Canonical(a + "." + f, n)
  {
    ReadsBack(a, f);
    PointAfterDigits(a, f);
    assert (a + "." + f)[0] == a[0];
    assert (a + "." + f)[|a| + |f|] == f[|f| - 1];
  }

  lemma WithoutFraction(a: string, n: nat)
    requires AllDigits(a) && NumberOf(a) == n / ONE && n % ONE == 0 && a != "" && (a[0] == '0' ==> a == "0")
    ensures Canonical(a, n)
  {
    ReadsBack(a, "");
    PointAfterDigits(a, "");
  }

  /** Lossless and canonical, for every amount. */
  lemma PrintsExactly(n: u64)
    ensures Canonical(Dec9(n), n)
  {
    DigitsRead(n / ONE);
    DigitsStart(n / ONE);
    if n % ONE == 0 {
      WithoutFraction(Digits(n / ONE), n);
    } else {
      FractionRead(n % ONE, 9);
      WithFraction(Digits(n / ONE), TrimZeros(LastDigits(n % ONE, 9)), n);
    }
  }

  /** Two different amounts never print alike. */
  lemma PrintsInjectively(m: u64, n: u64)
    requires Dec9(m) == Dec9(n)
    ensures m == n
  {
    PrintsExactly(m);
    PrintsExactly(n);
  }
}
