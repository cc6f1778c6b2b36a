/** Exact arithmetic on API money strings: parse to scaled integers, add or compare, print. */
module Money {
  import opened Basics
  import opened DecimalText
  import opened Sums

  // ---------------------------------------------------------------------------
  // Parsing
  // ---------------------------------------------------------------------------

  predicate Negative(s: string) {
    Trim(s) != [] && Trim(s)[0] == '-'
  }

  /** The text without its sign. */
  function Body(s: string): string {
    var t := Trim(s);
    if t != [] && (t[0] == '-' || t[0] == '+') then t[1..] else t
  }

  function Whole(s: string): string {
    BeforePoint(Body(s))
  }

  /** The piece between the first point and the second, as `split('.')[1]` has it. */
  function Fraction(s: string): string {
    BeforePoint(AfterPoint(Body(s)))
  }

  /** The fraction cut or filled to `scale` digits. */
  function Padded(fraction: string, scale: nat): (p: string)
    ensures |p| == scale
  {
    (fraction + Zeros(scale))[..scale]
  }

  function ScaleToInteger(s: string, scale: nat): string {
    (if Negative(s) then "-" else "") + (Whole(s) + Padded(Fraction(s), scale))
  }

  /** The base that a prefix such as "0x" announces, and 10 without one. */
  function Base(t: string): nat {
    if |t| < 2 || t[0] != '0' then 10
    else if t[1] == 'x' || t[1] == 'X' then 16
    else if t[1] == 'o' || t[1] == 'O' then 8
    else if t[1] == 'b' || t[1] == 'B' then 2
    else 10
  }

  /** What a character counts in some base; 16 if it is no digit in any of them. */
  function DigitIn(c: char): nat {
    if IsDigit(c) then DigitValue(c)
    else if 'a' <= c <= 'f' then c as int - 'a' as int + 10
    else if 'A' <= c <= 'F' then c as int - 'A' as int + 10
    else 16
  }

  predicate DigitsIn(base: nat, s: string) {
    forall i | 0 <= i < |s| :: DigitIn(s[i]) < base
  }

  function ValueIn(base: nat, s: string): nat {
    if s == [] then 0 else base * ValueIn(base, s[..|s| - 1]) + DigitIn(s[|s| - 1])
  }

  function Decimals(s: string): Option<nat> {
    if s != [] && Digits(s) then Some(Value(s)) else None
  }

  /** `BigInt` of a text: white space around it is ignored, nothing at all is zero, a sign may
      stand before decimal digits and a base prefix before others. `None` is the syntax error. */
  function BigInt(s: string): Option<int> {
    var t := Trim(s);
    if t == [] then Some(0)
    else if t[0] == '-' then
      var v := Decimals(t[1..]); if v.Some? then Some(0 - v.value) else None
    else if t[0] == '+' then
      var v := Decimals(t[1..]); if v.Some? then Some(v.value) else None
    else if Base(t) != 10 then
      if |t| > 2 && DigitsIn(Base(t), t[2..]) then Some(ValueIn(Base(t), t[2..])) else None
    else
      var v := Decimals(t); if v.Some? then Some(v.value) else None
  }

  predicate Parses(s: string, scale: nat) {
    BigInt(ScaleToInteger(s, scale)).Some?
  }

  /** The scaled integer that a text stands for; texts that do not parse count for nothing. */
  function Amount(s: string, scale: nat): int {
    if Parses(s, scale) then BigInt(ScaleToInteger(s, scale)).value else 0
  }

  /** A signed decimal: digits, and perhaps a point and more digits. */
  predicate IsMoney(s: string) {
    Whole(s) != [] && Digits(Whole(s)) && Digits(AfterPoint(Body(s)))
  }

  function Signed(negative: bool, v: nat): int {
    if negative then 0 - v else v
  }

  lemma PaddedDigits(fraction: string, scale: nat)
    requires Digits(fraction)
    ensures Digits(Padded(fraction, scale))
  {
  }

  lemma DigitsAreBare(digits: string)
    requires digits != [] && Digits(digits)
    ensures Trim(digits) == digits && Base(digits) == 10
    ensures digits[0] != '-' && digits[0] != '+'
  {
    assert IsDigit(digits[0]) && IsDigit(digits[|digits| - 1]);
    TrimKeepsBare(digits);
    assert |digits| >= 2 ==> IsDigit(digits[1]);
  }

  lemma PositiveReads(digits: string)
    requires digits != [] && Digits(digits)
    ensures BigInt(digits) == Some(Value(digits))
  {
    DigitsAreBare(digits);
  }

  lemma UnsignedReads(digits: string)
    requires digits != [] && Digits(digits)
    ensures BigInt("" + digits) == Some(Value(digits))
  {
    assert "" + digits == digits;
    PositiveReads(digits);
  }

  lemma MinusIsBare(digits: string)
    requires digits != [] && Digits(digits)
    ensures Trim("-" + digits) == "-" + digits && ("-" + digits)[1..] == digits
  {
    var s := "-" + digits;
    assert IsDigit(digits[|digits| - 1]);
    assert s[|s| - 1] == digits[|digits| - 1];
    TrimKeepsBare(s);
  }

  lemma NegativeReads(digits: string)
    requires digits != [] && Digits(digits)
    ensures BigInt("-" + digits) == Some(0 - Value(digits))
  {
    MinusIsBare(digits);
  }

  lemma BigIntReads(negative: bool, digits: string)
    requires digits != [] && Digits(digits)
    ensures BigInt((if negative then "-" else "") + digits) == Some(Signed(negative, Value(digits)))
  {
    if negative {
      NegativeReads(digits);
    } else {
      UnsignedReads(digits);
    }
  }

  /** A money string always parses, to its digits cut or filled at the scale. */
  lemma MoneyParses(s: string, scale: nat)
    requires IsMoney(s)
    ensures Fraction(s) == AfterPoint(Body(s))
    ensures Digits(Padded(Fraction(s), scale)) && Digits(Whole(s) + Padded(Fraction(s), scale))
    ensures Parses(s, scale)
    ensures Amount(s, scale) == Signed(Negative(s), Value(Whole(s) + Padded(Fraction(s), scale)))
  {
    NoPointToSplit(AfterPoint(Body(s)));
    PaddedDigits(Fraction(s), scale);
    BigIntReads(Negative(s), Whole(s) + Padded(Fraction(s), scale));
  }

  // ---------------------------------------------------------------------------
  // Printing
  // ---------------------------------------------------------------------------

  function Abs(n: int): nat {
    if n < 0 then -n else n
  }

  /** The digits of a total, filled in front so that the whole part is never empty. */
  function TotalDigits(total: int, scale: nat): (d: string)
    ensures |d| > scale && Digits(d)
  {
    Fill(Print(Abs(total)), scale)
  }

  /** Zeros in front, up to one digit more than the scale. */
  function Fill(p: string, scale: nat): (d: string)
    requires p != [] && Digits(p)
    ensures |d| > scale && Digits(d)
  {
    if |p| > scale then p else Zeros(scale + 1 - |p|) + p
  }

  function WithPoint(d: string, scale: nat): string
    requires |d| > scale
  {
    d[..|d| - scale] + "." + d[|d| - scale..]
  }

  function PrintMoney(total: int, scale: nat): string {
    (if total < 0 then "-" else "") + WithPoint(TotalDigits(total, scale), scale)
  }

  lemma FillKeepsValue(p: string, scale: nat)
    requires p != [] && Digits(p)
    ensures Value(Fill(p, scale)) == Value(p)
  {
    if |p| <= scale {
      PadStartKeepsValue(p, scale + 1 - |p|);
    }
  }

  lemma TotalDigitsValue(total: int, scale: nat)
    ensures Value(TotalDigits(total, scale)) == Abs(total)
  {
    ValueOfPrint(Abs(total));
    FillKeepsValue(Print(Abs(total)), scale);
  }

  lemma TrimKeepsBare(s: string)
    requires s != [] && !IsSpace(s[0]) && !IsSpace(s[|s| - 1])
    ensures Trim(s) == s
  {
  }

  lemma PrintedBody(total: int, scale: nat)
    ensures var s := PrintMoney(total, scale);
            && Body(s) == WithPoint(TotalDigits(total, scale), scale)
            && (Negative(s) <==> total < 0)
  {
    var d := TotalDigits(total, scale);
    var s := PrintMoney(total, scale);
    var body := WithPoint(d, scale);
    assert IsDigit(d[0]) && IsDigit(d[|d| - 1]);
    assert body[0] == d[0];
    assert body[|body| - 1] == if scale == 0 then '.' else d[|d| - 1];
    assert s[|s| - 1] == body[|body| - 1];
    TrimKeepsBare(s);
    if total < 0 {
      assert s[1..] == body;
    }
  }

  lemma ReadParts(s: string, whole: string, fraction: string)
    requires whole != [] && Digits(whole) && Digits(fraction)
    requires Body(s) == whole + "." + fraction
    ensures IsMoney(s) && Whole(s) == whole && Fraction(s) == fraction
  {
    SplitAtPoint(whole, fraction);
    NoPointToSplit(fraction);
  }

  lemma PartsOfText(s: string, d: string, scale: nat)
    requires |d| > scale && Digits(d) && Body(s) == WithPoint(d, scale)
    ensures IsMoney(s) && Whole(s) + Padded(Fraction(s), scale) == d
  {
    var whole, fraction := d[..|d| - scale], d[|d| - scale..];
    ReadParts(s, whole, fraction);
    PaddedExactly(fraction);
    assert whole + fraction == d;
  }

  lemma PrintedParts(total: int, scale: nat)
    ensures var s, d := PrintMoney(total, scale), TotalDigits(total, scale);
            IsMoney(s) && Whole(s) + Padded(Fraction(s), scale) == d
  {
    PrintedBody(total, scale);
    PartsOfText(PrintMoney(total, scale), TotalDigits(total, scale), scale);
  }

  lemma PaddedExactly(fraction: string)
    ensures Padded(fraction, |fraction|) == fraction
  {
  }

  /** Printing and parsing undo each other, at every scale: the text of a total is money, and
      read at that scale it is the total. */
  lemma PrintThenParse(total: int, scale: nat)
    ensures IsMoney(PrintMoney(total, scale))
    ensures Parses(PrintMoney(total, scale), scale) && Amount(PrintMoney(total, scale), scale) == total
  {
    PrintedParts(total, scale);
    MoneyParses(PrintMoney(total, scale), scale);
    PrintedBody(total, scale);
    TotalDigitsValue(total, scale);
  }

  // ---------------------------------------------------------------------------
  // Sums
  // ---------------------------------------------------------------------------

  function Reader(scale: nat): string -> int {
    s => Amount(s, scale)
  }

  function Total(xs: seq<string>, scale: nat): int {
    SumOf(Reader(scale), xs)
  }

  lemma TotalGrows(xs: seq<string>, i: nat, scale: nat)
    requires i < |xs|
    ensures Total(xs[..i + 1], scale) == Total(xs[..i], scale) + Amount(xs[i], scale)
  {
    assert xs[..i + 1][..i] == xs[..i];
  }

  /** What one text adds; `None` is the syntax error of `BigInt`. */
  function Read(s: string, scale: nat): (v: Option<int>)
    ensures v.Some? <==> Parses(s, scale)
    ensures v.Some? ==> v.value == Amount(s, scale)
  {
    BigInt(ScaleToInteger(s, scale))
  }

  function Parser(scale: nat): string -> bool {
    s => Parses(s, scale)
  }

  /** `sumMoney`; `None` exactly when some text does not parse and `BigInt` throws. */
  method SumMoney(xs: seq<string>, scale: nat) returns (r: Option<string>)
    ensures r.Some? <==> All(Parser(scale), xs)
    ensures r.Some? ==> r.value == PrintMoney(Total(xs, scale), scale)
  {
    var total := 0;
    for i := 0 to |xs|
      invariant total == Total(xs[..i], scale)
      invariant All(Parser(scale), xs[..i])
    {
      var v := Read(xs[i], scale);
      if v.None? {
        FailsSomewhere(xs, i, scale);
        return None;
      }
      AllGrows(Parser(scale), xs, i);
      TotalGrows(xs, i, scale);
      total := total + v.value;
    }
    assert xs[..|xs|] == xs;
    r := Some(PrintMoney(total, scale));
  }

  lemma FailsSomewhere(xs: seq<string>, i: nat, scale: nat)
    requires i < |xs| && !Parses(xs[i], scale)
    ensures !All(Parser(scale), xs)
  {
    assert !Parser(scale)(xs[i]);
  }

  /** The text of a sum, read back at its scale, is the integer sum of its parts: no amount is
      lost or invented, however long the list. */
  lemma SumReadsBack(xs: seq<string>, scale: nat)
    ensures Amount(PrintMoney(Total(xs, scale), scale), scale) == SumOf(Reader(scale), xs)
  {
    PrintThenParse(Total(xs, scale), scale);
  }

  /** Subtotals may be printed and summed again: the grouping of a sum does not show. */
  lemma GroupingDoesNotShow(xs: seq<string>, ys: seq<string>, scale: nat)
    ensures var a, b := PrintMoney(Total(xs, scale), scale), PrintMoney(Total(ys, scale), scale);
            Total([a, b], scale) == Total(xs + ys, scale)
  {
    var a, b := PrintMoney(Total(xs, scale), scale), PrintMoney(Total(ys, scale), scale);
    PrintThenParse(Total(xs, scale), scale);
    PrintThenParse(Total(ys, scale), scale);
    SumOfConcat(Reader(scale), xs, ys);
    SumOfOne(Reader(scale), a);
    SumOfOne(Reader(scale), b);
    SumOfConcat(Reader(scale), [a], [b]);
    assert [a] + [b] == [a, b];
  }

  /** Nor does the order: the printed sum is the same text for every order of the list. */
  lemma OrderDoesNotShow(xs: seq<string>, ys: seq<string>, scale: nat)
    requires multiset(xs) == multiset(ys)
    ensures PrintMoney(Total(xs, scale), scale) == PrintMoney(Total(ys, scale), scale)
  {
    SumOfPermutation(Reader(scale), xs, ys);
  }
}
