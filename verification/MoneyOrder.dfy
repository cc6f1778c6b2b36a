/** Comparing money strings through integers of six decimal places. */
module MoneyOrder {
  import opened DecimalText
  import opened Money

  const COMPARE_SCALE: nat := 6

  function CompareMoney(a: string, b: string): int {
    var left, right := Amount(a, COMPARE_SCALE), Amount(b, COMPARE_SCALE);
    if left < right then -1 else if left > right then 1 else 0
  }

  // The exact value of a money string is Numerator(s) / 10^Places(s).

  function Unsigned(s: string): nat
    requires IsMoney(s)
  {
    NoPointToSplit(AfterPoint(Body(s)));
    Value(Whole(s) + Fraction(s))
  }

  function Numerator(s: string): int
    requires IsMoney(s)
  {
    Signed(Negative(s), Unsigned(s))
  }

  function Places(s: string): nat {
    |Fraction(s)|
  }

  predicate ExactLess(a: string, b: string)
    requires IsMoney(a) && IsMoney(b)
  {
    Numerator(a) * Pow10(Places(b)) < Numerator(b) * Pow10(Places(a))
  }

  // ---------------------------------------------------------------------------
  // Arithmetic of products
  // ---------------------------------------------------------------------------

  lemma MulKeepsOrder(x: int, y: int, m: int)
    requires m > 0
    ensures x < y <==> x * m < y * m
    ensures x <= y <==> x * m <= y * m
  {
  }

  /** va/p <= na/pa and nb/pb < (vb + 1)/p and vb < va give nb/pb < na/pa. */
  lemma Crossed(na: int, nb: int, va: int, vb: int, pa: int, pb: int, p: int)
    requires pa > 0 && pb > 0 && p > 0
    requires va * pa <= na * p && nb * p < (vb + 1) * pb && vb + 1 <= va
    ensures nb * pa < na * pb
  {
    MulKeepsOrder(va * pa, na * p, pb);
    MulKeepsOrder(nb * p, (vb + 1) * pb, pa);
    MulKeepsOrder(vb + 1, va, pa * pb);
    assert (va * pa) * pb == va * (pa * pb);
    assert ((vb + 1) * pb) * pa == (vb + 1) * (pa * pb);
    assert (na * p) * pb == (na * pb) * p && (nb * p) * pa == (nb * pa) * p;
    MulKeepsOrder(nb * pa, na * pb, p);
  }

  // ---------------------------------------------------------------------------
  // What cutting at a scale does
  // ---------------------------------------------------------------------------

  /** Filling with zeros multiplies. */
  lemma FilledValue(whole: string, fraction: string, scale: nat)
    requires Digits(whole) && Digits(fraction) && |fraction| <= scale
    ensures Digits(whole + Padded(fraction, scale)) && Digits(whole + fraction)
    ensures Value(whole + Padded(fraction, scale)) == Value(whole + fraction) * Pow10(scale - |fraction|)
  {
    var gap := scale - |fraction|;
    FillWithZeros(fraction, scale);
    assert whole + (fraction + Zeros(gap)) == (whole + fraction) + Zeros(gap);
    ValueOfConcat(whole + fraction, Zeros(gap));
    ValueOfZeros(gap);
  }

  lemma FilledIsExact(whole: string, fraction: string, scale: nat)
    requires Digits(whole) && Digits(fraction) && |fraction| <= scale
    ensures Digits(whole + Padded(fraction, scale)) && Digits(whole + fraction)
    ensures Value(whole + Padded(fraction, scale)) * Pow10(|fraction|) == Value(whole + fraction) * Pow10(scale)
  {
    FilledValue(whole, fraction, scale);
    Pow10Sum(scale - |fraction|, |fraction|);
    Regroup(Value(whole + fraction), Pow10(scale - |fraction|), Pow10(|fraction|));
  }

  lemma Regroup(n: nat, g: nat, f: nat)
    ensures (n * g) * f == n * (g * f)
  {
  }

  lemma FillWithZeros(fraction: string, scale: nat)
    requires |fraction| <= scale
    ensures Padded(fraction, scale) == fraction + Zeros(scale - |fraction|)
  {
    ZerosAreZero(scale);
    ZerosAreZero(scale - |fraction|);
  }

  lemma {:induction false} ZerosAreZero(k: nat)
    ensures forall i | 0 <= i < k :: Zeros(k)[i] == '0'
  {
    if k > 0 {
      ZerosAreZero(k - 1);
    }
  }

  /** Cutting digits off rounds the magnitude down. */
  lemma CutRoundsDown(whole: string, fraction: string, scale: nat)
    requires Digits(whole) && Digits(fraction) && |fraction| > scale
    ensures Digits(whole + Padded(fraction, scale))
    ensures var v, n := Value(whole + Padded(fraction, scale)), Value(whole + fraction);
            v * Pow10(|fraction|) <= n * Pow10(scale) < (v + 1) * Pow10(|fraction|)
  {
    var kept, lost := fraction[..scale], fraction[scale..];
    assert Padded(fraction, scale) == kept;
    assert whole + fraction == (whole + kept) + lost;
    ValueOfConcat(whole + kept, lost);
    ValueBelowPow10(lost);
    Pow10Sum(|lost|, scale);
    Scaling(Value(whole + kept), Value(lost), Pow10(|lost|), Pow10(scale));
  }

  lemma Scaling(v: nat, t: nat, big: nat, small: nat)
    requires t < big && small > 0
    ensures v * (big * small) <= (v * big + t) * small < (v + 1) * (big * small)
  {
    assert (v * big + t) * small == v * (big * small) + t * small;
    MulKeepsOrder(t, big, small);
    assert (v + 1) * (big * small) == v * (big * small) + big * small;
    assert t * small >= 0;
  }

  /** `v / p` is `n / pe` rounded down, and exactly that if `exact`. */
  ghost predicate RoundsDown(v: nat, n: nat, pe: nat, p: nat, exact: bool) {
    v * pe <= n * p < (v + 1) * pe && (exact ==> v * pe == n * p)
  }

  lemma MagnitudeBracket(whole: string, fraction: string, scale: nat)
    requires Digits(whole) && Digits(fraction)
    ensures Digits(whole + Padded(fraction, scale)) && Digits(whole + fraction)
    ensures var v, n := Value(whole + Padded(fraction, scale)), Value(whole + fraction);
            RoundsDown(v, n, Pow10(|fraction|), Pow10(scale), |fraction| <= scale)
  {
    if |fraction| <= scale {
      FilledIsExact(whole, fraction, scale);
      MulKeepsOrder(Value(whole + Padded(fraction, scale)), Value(whole + Padded(fraction, scale)) + 1,
                    Pow10(|fraction|));
    } else {
      CutRoundsDown(whole, fraction, scale);
    }
  }

  /** At any scale the parsed magnitude is the exact magnitude rounded down, and it is exact
      when the scale has room for every digit. */
  lemma Bracket(s: string, scale: nat) returns (v: nat)
    requires IsMoney(s)
    ensures Amount(s, scale) == Signed(Negative(s), v)
    ensures RoundsDown(v, Unsigned(s), Pow10(Places(s)), Pow10(scale), Places(s) <= scale)
  {
    MoneyParses(s, scale);
    v := Value(Whole(s) + Padded(Fraction(s), scale));
    UnsignedBracket(s, scale, v);
  }

  lemma UnsignedBracket(s: string, scale: nat, v: nat)
    requires IsMoney(s) && Digits(Whole(s) + Padded(Fraction(s), scale))
    requires v == Value(Whole(s) + Padded(Fraction(s), scale))
    ensures RoundsDown(v, Unsigned(s), Pow10(Places(s)), Pow10(scale), Places(s) <= scale)
  {
    UnsignedIs(s);
    MagnitudeBracket(Whole(s), Fraction(s), scale);
  }

  lemma UnsignedIs(s: string)
    requires IsMoney(s)
    ensures Digits(Whole(s)) && Digits(Fraction(s)) && Digits(Whole(s) + Fraction(s))
    ensures Unsigned(s) == Value(Whole(s) + Fraction(s)) && Places(s) == |Fraction(s)|
  {
    NoPointToSplit(AfterPoint(Body(s)));
  }

  /** The same with the sign: the parsed integer is the exact value rounded towards zero. */
  lemma SignedBracket(s: string, scale: nat)
    requires IsMoney(s)
    ensures RoundsToZero(Negative(s), Amount(s, scale), Numerator(s), Pow10(Places(s)), Pow10(scale))
  {
    var v := Bracket(s, scale);
    SignedRounding(Negative(s), v, Unsigned(s), Pow10(Places(s)), Pow10(scale));
  }

  lemma SignedRounding(negative: bool, v: nat, n: nat, pe: nat, p: nat)
    requires v * pe <= n * p < (v + 1) * pe
    ensures RoundsToZero(negative, Signed(negative, v), Signed(negative, n), pe, p)
  {
    NegateProducts(v, n, pe, p);
  }

  lemma NegateProducts(v: nat, n: nat, pe: nat, p: nat)
    ensures (0 - v) * pe == 0 - v * pe && (0 - n) * p == 0 - n * p
    ensures (0 - v - 1) * pe == 0 - (v + 1) * pe
  {
  }

  // ---------------------------------------------------------------------------
  // The order
  // ---------------------------------------------------------------------------

  /** `v / p` is `n / pe` rounded towards zero. */
  ghost predicate RoundsToZero(negative: bool, v: int, n: int, pe: int, p: int) {
    if negative then v <= 0 && n <= 0 && (v - 1) * pe < n * p <= v * pe
    else v >= 0 && n >= 0 && v * pe <= n * p < (v + 1) * pe
  }

  lemma RoundedOrder(na: int, nb: int, va: int, vb: int, pa: int, pb: int, p: int, aNegative: bool, bNegative: bool)
    requires pa > 0 && pb > 0 && p > 0 && vb < va
    requires RoundsToZero(aNegative, va, na, pa, p) && RoundsToZero(bNegative, vb, nb, pb, p)
    ensures nb * pa < na * pb
  {
    if va > 0 {
      PositiveAbove(na, nb, va, vb, pa, pb, p, bNegative);
    } else {
      NegativeBelow(na, nb, va, vb, pa, pb, p, aNegative);
    }
  }

  lemma LargerAmountIsLarger(a: string, b: string, scale: nat)
    requires IsMoney(a) && IsMoney(b) && Amount(b, scale) < Amount(a, scale)
    ensures ExactLess(b, a)
  {
    SignedBracket(a, scale);
    SignedBracket(b, scale);
    RoundedOrder(Numerator(a), Numerator(b), Amount(a, scale), Amount(b, scale),
                 Pow10(Places(a)), Pow10(Places(b)), Pow10(scale), Negative(a), Negative(b));
  }

  /** Whatever the number of digits, the comparison never reverses two amounts. */
  lemma NeverReverses(a: string, b: string)
    requires IsMoney(a) && IsMoney(b) && CompareMoney(a, b) > 0
    ensures ExactLess(b, a)
  {
    LargerAmountIsLarger(a, b, COMPARE_SCALE);
  }

  lemma PositiveAbove(na: int, nb: int, va: int, vb: int, pa: int, pb: int, p: int, bNegative: bool)
    requires pa > 0 && pb > 0 && p > 0 && va > 0 && vb < va
    requires va * pa <= na * p
    requires if bNegative then nb <= 0 else nb * p < (vb + 1) * pb
    ensures nb * pa < na * pb
  {
    if bNegative {
      MulKeepsOrder(0, va, pa);
      MulKeepsOrder(0, na, p);
      MulKeepsOrder(0, na, pb);
      MulKeepsOrder(nb, 0, pa);
    } else {
      Crossed(na, nb, va, vb, pa, pb, p);
    }
  }

  lemma NegativeBelow(na: int, nb: int, va: int, vb: int, pa: int, pb: int, p: int, aNegative: bool)
    requires pa > 0 && pb > 0 && p > 0 && va <= 0 && vb < va
    requires nb * p <= vb * pb
    requires if aNegative then (va - 1) * pa < na * p else na >= 0
    ensures nb * pa < na * pb
  {
    if aNegative {
      assert (-vb) * pb == -(vb * pb) && (-nb) * p == -(nb * p);
      assert (-va + 1) * pa == -((va - 1) * pa) && (-na) * p == -(na * p);
      Crossed(-nb, -na, -vb, -va, pb, pa, p);
      assert (-na) * pb == -(na * pb) && (-nb) * pa == -(nb * pa);
    } else {
      MulKeepsOrder(vb, 0, pb);
      MulKeepsOrder(nb, 0, p);
      MulKeepsOrder(nb, 0, pa);
      MulKeepsOrder(0, na, pb);
    }
  }

  /** With at most six decimal places the comparison is the exact order of the two amounts, and
      texts of different length for one amount compare equal. */
  lemma ComparisonIsExact(a: string, b: string)
    requires IsMoney(a) && IsMoney(b) && Places(a) <= COMPARE_SCALE && Places(b) <= COMPARE_SCALE
    ensures CompareMoney(a, b) < 0 <==> ExactLess(a, b)
    ensures CompareMoney(a, b) > 0 <==> ExactLess(b, a)
  {
    AmountsDecide(a, b);
    AmountsDecide(b, a);
  }

  // ---------------------------------------------------------------------------
  // Exactly when
  // ---------------------------------------------------------------------------

  ghost predicate ComparedExactly(a: string, b: string)
    requires IsMoney(a) && IsMoney(b)
  {
    (CompareMoney(a, b) < 0 <==> ExactLess(a, b)) && (CompareMoney(a, b) > 0 <==> ExactLess(b, a))
  }

  predicate ExactlyEqual(a: string, b: string)
    requires IsMoney(a) && IsMoney(b)
  {
    Numerator(a) * Pow10(Places(b)) == Numerator(b) * Pow10(Places(a))
  }

  /** `v` millionths are left of the exact value of `s` when it is cut after six places. */
  ghost predicate CutTo(s: string, v: int)
    requires IsMoney(s)
  {
    RoundsToZero(Negative(s), v, Numerator(s), Pow10(Places(s)), Pow10(COMPARE_SCALE))
  }

  lemma RoundingIsUnique(negative: bool, v: int, w: int, n: int, pe: int, p: int)
    requires pe > 0 && RoundsToZero(negative, v, n, pe, p) && RoundsToZero(negative, w, n, pe, p)
    ensures v == w
  {
    if negative {
      MulKeepsOrder(v - 1, w, pe);
      MulKeepsOrder(w - 1, v, pe);
    } else {
      MulKeepsOrder(v, w + 1, pe);
      MulKeepsOrder(w, v + 1, pe);
    }
  }

  lemma CutIsAmount(s: string, v: int)
    requires IsMoney(s)
    ensures CutTo(s, v) <==> v == Amount(s, COMPARE_SCALE)
  {
    SignedBracket(s, COMPARE_SCALE);
    if CutTo(s, v) {
      RoundingIsUnique(Negative(s), v, Amount(s, COMPARE_SCALE), Numerator(s), Pow10(Places(s)), Pow10(COMPARE_SCALE));
    }
  }

  lemma SameCutSameAmount(a: string, b: string)
    requires IsMoney(a) && IsMoney(b)
    ensures (exists v :: CutTo(a, v) && CutTo(b, v)) <==> CompareMoney(a, b) == 0
  {
    CutIsAmount(a, Amount(a, COMPARE_SCALE));
    CutIsAmount(b, Amount(a, COMPARE_SCALE));
    if v :| CutTo(a, v) && CutTo(b, v) {
      CutIsAmount(a, v);
      CutIsAmount(b, v);
    }
  }

  /** For money strings of any length, the comparison is the exact order exactly when the two
      amounts are equal or their values differ when cut after six places. */
  lemma ExactIffCutsDiffer(a: string, b: string)
    requires IsMoney(a) && IsMoney(b)
    ensures ComparedExactly(a, b) <==> ExactlyEqual(a, b) || !exists v :: CutTo(a, v) && CutTo(b, v)
  {
    SameCutSameAmount(a, b);
    if CompareMoney(a, b) > 0 {
      NeverReverses(a, b);
    } else if CompareMoney(a, b) < 0 {
      LargerAmountIsLarger(b, a, COMPARE_SCALE);
    }
  }

  lemma ExactAmount(s: string, scale: nat)
    requires IsMoney(s) && Places(s) <= scale
    ensures Amount(s, scale) * Pow10(Places(s)) == Numerator(s) * Pow10(scale)
  {
    var v := Bracket(s, scale);
    SignedProducts(Negative(s), v, Unsigned(s), Pow10(Places(s)), Pow10(scale));
  }

  lemma SignedProducts(negative: bool, v: nat, n: nat, pe: nat, p: nat)
    requires v * pe == n * p
    ensures Signed(negative, v) * pe == Signed(negative, n) * p
  {
    NegateProducts(v, n, pe, p);
  }

  lemma AmountsDecide(a: string, b: string)
    requires IsMoney(a) && IsMoney(b) && Places(a) <= COMPARE_SCALE && Places(b) <= COMPARE_SCALE
    ensures Amount(a, COMPARE_SCALE) < Amount(b, COMPARE_SCALE) <==> ExactLess(a, b)
  {
    ExactAmount(a, COMPARE_SCALE);
    ExactAmount(b, COMPARE_SCALE);
    ScaledOrder(Amount(a, COMPARE_SCALE), Amount(b, COMPARE_SCALE), Numerator(a), Numerator(b),
                Pow10(Places(a)), Pow10(Places(b)), Pow10(COMPARE_SCALE));
  }

  lemma ScaledOrder(va: int, vb: int, na: int, nb: int, pa: int, pb: int, p: int)
    requires pa > 0 && pb > 0 && p > 0 && va * pa == na * p && vb * pb == nb * p
    ensures va < vb <==> na * pb < nb * pa
  {
    MulKeepsOrder(va, vb, pa * pb);
    MulKeepsOrder(na * pb, nb * pa, p);
    assert va * (pa * pb) == (va * pa) * pb == (na * p) * pb == (na * pb) * p;
    assert vb * (pa * pb) == (vb * pb) * pa == (nb * p) * pa == (nb * pa) * p;
  }

  /** Zero, a point, six zeros and one more digit. */
  function Tiny(digit: char): string
    requires IsDigit(digit)
  {
    "0" + "." + (Zeros(COMPARE_SCALE) + [digit])
  }

  lemma TinyParts(digit: char)
    requires IsDigit(digit)
    ensures IsMoney(Tiny(digit)) && !Negative(Tiny(digit))
    ensures Whole(Tiny(digit)) == "0" && Fraction(Tiny(digit)) == Zeros(COMPARE_SCALE) + [digit]
  {
    var s := Tiny(digit);
    assert s[0] == '0' && s[|s| - 1] == digit;
    TrimKeepsBare(s);
    ReadParts(s, "0", Zeros(COMPARE_SCALE) + [digit]);
  }

  lemma TinyValue(digit: char)
    requires IsDigit(digit)
    ensures IsMoney(Tiny(digit)) && Places(Tiny(digit)) == 7
    ensures Numerator(Tiny(digit)) == DigitValue(digit)
    ensures Amount(Tiny(digit), COMPARE_SCALE) == 0
  {
    TinyParts(digit);
    TinyDigits(digit, COMPARE_SCALE);
    MoneyParses(Tiny(digit), COMPARE_SCALE);
  }

  lemma TinyDigits(digit: char, scale: nat)
    requires IsDigit(digit)
    ensures Padded(Zeros(scale) + [digit], scale) == Zeros(scale)
    ensures Digits("0" + Zeros(scale)) && Value("0" + Zeros(scale)) == 0
    ensures Digits("0" + (Zeros(scale) + [digit])) && Value("0" + (Zeros(scale) + [digit])) == DigitValue(digit)
  {
    CutAfterZeros(digit, scale);
    ZeroAndZeros(scale);
    ValueOfAppend("0" + Zeros(scale), digit);
    assert "0" + (Zeros(scale) + [digit]) == ("0" + Zeros(scale)) + [digit];
  }

  lemma CutAfterZeros(digit: char, scale: nat)
    ensures Padded(Zeros(scale) + [digit], scale) == Zeros(scale)
  {
  }

  lemma ZeroAndZeros(scale: nat)
    ensures Digits("0" + Zeros(scale)) && Value("0" + Zeros(scale)) == 0
  {
    assert Zeros(1) == "0" by {
      assert Zeros(0) == "";
    }
    PadStartKeepsValue(Zeros(scale), 1);
    ValueOfZeros(scale);
  }

  lemma ValueOfAppend(s: string, digit: char)
    requires Digits(s) && IsDigit(digit)
    ensures Digits(s + [digit]) && Value(s + [digit]) == 10 * Value(s) + DigitValue(digit)
  {
    assert (s + [digit])[..|s|] == s;
  }

  /** The limit of six is real: from the seventh place on, different amounts may compare equal. */
  lemma SeventhPlaceIsLost(d: char, e: char)
    requires IsDigit(d) && IsDigit(e) && d < e
    ensures IsMoney(Tiny(d)) && IsMoney(Tiny(e))
    ensures ExactLess(Tiny(d), Tiny(e)) && CompareMoney(Tiny(d), Tiny(e)) == 0
  {
    TinyValue(d);
    TinyValue(e);
    MulKeepsOrder(DigitValue(d), DigitValue(e), Pow10(7));
  }
}
