/** Money as the exporter prints it, and what is left of it when it is pasted into a form. */
module MoneyExport {
  import opened DecimalText
  import DecimalInput
  import Money

  // ---------------------------------------------------------------------------
  // Grouping
  // ---------------------------------------------------------------------------

  /** Groups of two, counted from the right. */
  function Twos(head: string): string {
    if |head| <= 2 then head else Twos(head[..|head| - 2]) + ("," + head[|head| - 2..])
  }

  function GroupIndian(digits: string): string {
    if |digits| <= 3 then digits
    else Twos(digits[..|digits| - 3]) + ("," + digits[|digits| - 3..])
  }

  /** Groups of three throughout, as the format code "," gives them. */
  function GroupThousands(digits: string): string {
    if |digits| <= 3 then digits
    else GroupThousands(digits[..|digits| - 3]) + ("," + digits[|digits| - 3..])
  }

  function Join(parts: seq<string>): string {
    if parts == [] then [] else if |parts| == 1 then parts[0] else parts[0] + ("," + Join(parts[1..]))
  }

  /** What the groups taken off so far look like behind the rest. */
  function Tail(parts: seq<string>): string {
    if parts == [] then [] else "," + Join(parts)
  }

  lemma TailGrows(part: string, parts: seq<string>)
    ensures Join([part] + parts) == part + Tail(parts)
  {
    assert ([part] + parts)[1..] == parts;
  }

  lemma TakePair(head: string, parts: seq<string>)
    requires |head| > 2
    ensures Twos(head) + Tail(parts) == Twos(head[..|head| - 2]) + Tail([head[|head| - 2..]] + parts)
  {
    TailGrows(head[|head| - 2..], parts);
  }

  /** The loop of the source: groups are taken off the end and put in front of the list. */
  method GroupDigits(digits: string) returns (grouped: string)
    ensures grouped == GroupIndian(digits)
  {
    if |digits| <= 3 {
      return digits;
    }
    var head, tail := digits[..|digits| - 3], digits[|digits| - 3..];
    ghost var whole := head;
    var parts: seq<string> := [];
    while |head| > 2
      invariant head != []
      invariant Twos(whole) == Twos(head) + Tail(parts)
      decreases |head|
    {
      TakePair(head, parts);
      parts := [head[|head| - 2..]] + parts;
      head := head[..|head| - 2];
    }
    TailGrows(head, parts);
    parts := [head] + parts;
    grouped := Join(parts) + "," + tail;
    assert grouped == Twos(whole) + ("," + tail);
  }

  /** Position `i` of a text, counted from its end. */
  function FromEnd(s: string, i: nat): nat
    requires i < |s|
  {
    |s| - 1 - i
  }

  /** Groups of two: every third character from the end is a comma, and none comes first. */
  lemma {:induction false} TwosShape(head: string)
    requires head != [] && Digits(head)
    ensures |Twos(head)| % 3 != 0
    ensures forall i | 0 <= i < |Twos(head)| ::
              if FromEnd(Twos(head), i) % 3 == 2 then Twos(head)[i] == ',' else IsDigit(Twos(head)[i])
    decreases |head|
  {
    if |head| > 2 {
      var rest := head[..|head| - 2];
      TwosShape(rest);
      var t, r := Twos(head), Twos(rest);
      assert |t| == |r| + 3;
      forall i | 0 <= i < |t| ensures if FromEnd(t, i) % 3 == 2 then t[i] == ',' else IsDigit(t[i]) {
        if i < |r| {
          assert t[i] == r[i] && FromEnd(t, i) == FromEnd(r, i) + 3;
        }
      }
    }
  }

  /** The Indian shape, for more than three digits: three digits last, groups of two before
      them, and one or two digits first. Counted from the end, the commas stand at 3, 6, 9, ... */
  lemma IndianShape(digits: string)
    requires Digits(digits) && |digits| > 3
    ensures |GroupIndian(digits)| % 3 != 1
    ensures forall i | 0 <= i < |GroupIndian(digits)| ::
              var p := FromEnd(GroupIndian(digits), i);
              if p > 0 && p % 3 == 0 then GroupIndian(digits)[i] == ',' else IsDigit(GroupIndian(digits)[i])
  {
    var head := digits[..|digits| - 3];
    TwosShape(head);
    var t, g := Twos(head), GroupIndian(digits);
    assert |g| == |t| + 4;
    forall i | 0 <= i < |g|
      ensures var p := FromEnd(g, i); if p > 0 && p % 3 == 0 then g[i] == ',' else IsDigit(g[i])
    {
      if i < |t| {
        assert g[i] == t[i] && FromEnd(g, i) == FromEnd(t, i) + 4;
      }
    }
  }

  /** Elsewhere in threes throughout: counted from the end, the commas stand at 3, 7, 11, ... */
  lemma {:induction false} ThousandsShape(digits: string)
    requires digits != [] && Digits(digits)
    ensures |GroupThousands(digits)| % 4 != 0
    ensures forall i | 0 <= i < |GroupThousands(digits)| ::
              if FromEnd(GroupThousands(digits), i) % 4 == 3 then GroupThousands(digits)[i] == ','
              else IsDigit(GroupThousands(digits)[i])
    decreases |digits|
  {
    if |digits| > 3 {
      var rest := digits[..|digits| - 3];
      ThousandsShape(rest);
      var t, r := GroupThousands(digits), GroupThousands(rest);
      assert |t| == |r| + 4;
      forall i | 0 <= i < |t| ensures if FromEnd(t, i) % 4 == 3 then t[i] == ',' else IsDigit(t[i]) {
        if i < |r| {
          assert t[i] == r[i] && FromEnd(t, i) == FromEnd(r, i) + 4;
        }
      }
    }
  }

  lemma KeepOfDigits(s: string)
    requires Digits(s)
    ensures DecimalInput.Keep(s) == s
  {
    DecimalInput.KeepOfKept(s);
  }

  lemma KeepAfterComma(b: string)
    requires Digits(b)
    ensures DecimalInput.Keep("," + b) == b
  {
    DecimalInput.KeepConcat(",", b);
    assert DecimalInput.Keep(",") == [];
    KeepOfDigits(b);
  }

  lemma KeepAround(a: string, b: string)
    requires Digits(b)
    ensures DecimalInput.Keep(a + ("," + b)) == DecimalInput.Keep(a) + b
  {
    DecimalInput.KeepConcat(a, "," + b);
    KeepAfterComma(b);
  }

  /** If the digits before position `n` survive, a comma and the rest behind them do too. */
  lemma KeepGroup(pre: string, digits: string, n: nat)
    requires Digits(digits) && n <= |digits| && DecimalInput.Keep(pre) == digits[..n]
    ensures DecimalInput.Keep(pre + ("," + digits[n..])) == digits
  {
    KeepAround(pre, digits[n..]);
    assert digits[..n] + digits[n..] == digits;
  }

  lemma {:induction false} TwosKeepDigits(head: string)
    requires Digits(head)
    ensures DecimalInput.Keep(Twos(head)) == head
    decreases |head|
  {
    if |head| <= 2 {
      KeepOfDigits(head);
    } else {
      TwosKeepDigits(head[..|head| - 2]);
      KeepGroup(Twos(head[..|head| - 2]), head, |head| - 2);
    }
  }

  lemma IndianKeepsDigits(digits: string)
    requires Digits(digits)
    ensures DecimalInput.Keep(GroupIndian(digits)) == digits
  {
    if |digits| <= 3 {
      KeepOfDigits(digits);
    } else {
      TwosKeepDigits(digits[..|digits| - 3]);
      KeepGroup(Twos(digits[..|digits| - 3]), digits, |digits| - 3);
    }
  }

  lemma {:induction false} ThousandsKeepDigits(digits: string)
    requires Digits(digits)
    ensures DecimalInput.Keep(GroupThousands(digits)) == digits
    decreases |digits|
  {
    if |digits| <= 3 {
      KeepOfDigits(digits);
    } else {
      ThousandsKeepDigits(digits[..|digits| - 3]);
      KeepGroup(GroupThousands(digits[..|digits| - 3]), digits, |digits| - 3);
    }
  }

  /** Grouping only adds commas, in either style. */
  lemma GroupingKeepsDigits(digits: string)
    requires Digits(digits)
    ensures DecimalInput.Keep(GroupIndian(digits)) == digits
    ensures DecimalInput.Keep(GroupThousands(digits)) == digits
  {
    IndianKeepsDigits(digits);
    ThousandsKeepDigits(digits);
  }

  // ---------------------------------------------------------------------------
  // Formatting
  // ---------------------------------------------------------------------------

  /** A finite decimal: coeff / 10^exp. */
  datatype Decimal = Decimal(coeff: int, exp: nat)

  /** n / d to the nearest whole number, a half to the even one. */
  function RoundHalfEven(n: nat, d: nat): nat
    requires d >= 1
  {
    var (q, r) := Divide(n, d);
    if 2 * r > d || (2 * r == d && q % 2 == 1) then q + 1 else q
  }

  /** Rounding is off by at most half a unit, and an exact half goes to the even neighbour. */
  lemma RoundingIsNearest(n: nat, d: nat)
    requires d >= 1
    ensures var e := RoundHalfEven(n, d) * d;
            && 2 * n - d <= 2 * e <= 2 * n + d
            && (2 * e == 2 * n - d || 2 * e == 2 * n + d ==> RoundHalfEven(n, d) % 2 == 0)
  {
    var (q, r) := Divide(n, d);
    var whole := q * d;
    assert n == whole + r;
    assert (q + 1) * d == whole + d;
  }

  /** Quotient and remainder. */
  function Divide(n: nat, d: nat): (qr: (nat, nat))
    requires d >= 1
    ensures n == qr.0 * d + qr.1 && qr.1 < d
    decreases n
  {
    if n < d then (0, n) else var (q, r) := Divide(n - d, d); (q + 1, r)
  }

  /** Hundredths of the magnitude, as the format code ".2f" rounds them. */
  function Cents(amount: Decimal): nat {
    RoundHalfEven(Money.Abs(amount.coeff) * 100, Pow10(amount.exp))
  }

  /** The printed hundredths are the nearest to the amount, a half going to the even neighbour. */
  lemma CentsAreNearest(amount: Decimal)
    ensures var n, d := Money.Abs(amount.coeff) * 100, Pow10(amount.exp);
            var e := Cents(amount) * d;
            && 2 * n - d <= 2 * e <= 2 * n + d
            && (2 * e == 2 * n - d || 2 * e == 2 * n + d ==> Cents(amount) % 2 == 0)
  {
    RoundingIsNearest(Money.Abs(amount.coeff) * 100, Pow10(amount.exp));
  }

  function TwoDigits(n: nat): (s: string)
    requires n < 100
    ensures |s| == 2 && Digits(s)
  {
    [DigitChar(n / 10), DigitChar(n % 10)]
  }

  function Symbol(currency: string): string {
    if currency == "INR" then "\U{20B9}"
    else if currency == "USD" then "$"
    else if currency == "EUR" then "\U{20AC}"
    else if currency == "GBP" then "\U{00A3}"
    else currency + " "
  }

  function Grouped(digits: string, currency: string): string {
    if currency == "INR" then GroupIndian(digits) else GroupThousands(digits)
  }

  function FormatMoney(amount: Decimal, currency: string): string {
    var cents := Cents(amount);
    (if amount.coeff < 0 then "-" else "")
    + (Symbol(currency) + (Grouped(Print(cents / 100), currency) + ("." + TwoDigits(cents % 100))))
  }

  /** Rupees are grouped the Indian way and everything else in thousands; the currency's own sign,
      or its code and a space, stands between the minus and the number. */
  lemma FormattedByCurrency(amount: Decimal)
    ensures var units, frac := Print(Cents(amount) / 100), "." + TwoDigits(Cents(amount) % 100);
            var sign := if amount.coeff < 0 then "-" else "";
            && FormatMoney(amount, "INR") == sign + ("\U{20B9}" + (GroupIndian(units) + frac))
            && FormatMoney(amount, "USD") == sign + ("$" + (GroupThousands(units) + frac))
            && FormatMoney(amount, "EUR") == sign + ("\U{20AC}" + (GroupThousands(units) + frac))
            && FormatMoney(amount, "GBP") == sign + ("\U{00A3}" + (GroupThousands(units) + frac))
            && FormatMoney(amount, "AED") == sign + ("AED " + (GroupThousands(units) + frac))
  {
    Symbols(Print(Cents(amount) / 100));
  }

  lemma Symbols(digits: string)
    ensures Symbol("INR") == "\U{20B9}" && Grouped(digits, "INR") == GroupIndian(digits)
    ensures Symbol("USD") == "$" && Grouped(digits, "USD") == GroupThousands(digits)
    ensures Symbol("EUR") == "\U{20AC}" && Grouped(digits, "EUR") == GroupThousands(digits)
    ensures Symbol("GBP") == "\U{00A3}" && Grouped(digits, "GBP") == GroupThousands(digits)
    ensures Symbol("AED") == "AED " && Grouped(digits, "AED") == GroupThousands(digits)
  {
    assert "INR"[0] != "USD"[0] && "INR"[0] != "EUR"[0] && "INR"[0] != "GBP"[0] && "INR"[0] != "AED"[0];
    assert "AED" + " " == "AED ";
  }

  /** The amount without symbol and commas. */
  function Plain(amount: Decimal): string {
    Print(Cents(amount) / 100) + "." + TwoDigits(Cents(amount) % 100)
  }

  /** A currency code that can be told from a number. */
  predicate PlainCode(currency: string) {
    forall c | c in currency :: !IsDigit(c) && c != '.' && c != '-'
  }

  lemma {:induction false} KeepNothing(s: string)
    requires forall c | c in s :: !IsDigit(c) && c != '.'
    ensures DecimalInput.Keep(s) == []
  {
    if s != [] {
      KeepNothing(s[1..]);
    }
  }

  lemma {:induction false} TrimStartKeepsChars(s: string, c: char)
    requires c !in s
    ensures c !in TrimStart(s)
  {
    if s != [] && IsSpace(s[0]) {
      TrimStartKeepsChars(s[1..], c);
    }
  }

  lemma {:induction false} NoMinusInGroups(digits: string)
    requires Digits(digits)
    ensures '-' !in Twos(digits) && '-' !in GroupIndian(digits) && '-' !in GroupThousands(digits)
    decreases |digits|
  {
    if |digits| > 3 {
      NoMinusInGroups(digits[..|digits| - 3]);
    }
    if |digits| > 2 {
      NoMinusInGroups(digits[..|digits| - 2]);
    }
  }

  lemma SymbolHoldsNoNumber(currency: string)
    requires PlainCode(currency)
    ensures forall c | c in Symbol(currency) :: !IsDigit(c) && c != '.' && c != '-'
  {
  }

  lemma GroupedKeepsDigits(digits: string, currency: string)
    requires Digits(digits)
    ensures DecimalInput.Keep(Grouped(digits, currency)) == digits && '-' !in Grouped(digits, currency)
  {
    GroupingKeepsDigits(digits);
    NoMinusInGroups(digits);
  }

  lemma KeepOfParts(symbol: string, grouped: string, whole: string, frac: string)
    requires DecimalInput.Keep(symbol) == [] && DecimalInput.Keep(grouped) == whole && Digits(frac)
    ensures DecimalInput.Keep(symbol + (grouped + ("." + frac))) == whole + "." + frac
  {
    DecimalInput.KeepOfKept("." + frac);
    DecimalInput.KeepConcat(grouped, "." + frac);
    DecimalInput.KeepConcat(symbol, grouped + ("." + frac));
  }

  /** The formatted text is its sign and a tail without any minus, whose digits are the amount's. */
  lemma TailReads(amount: Decimal, currency: string)
    requires PlainCode(currency)
    ensures var n := Cents(amount);
            var tail := Symbol(currency) + (Grouped(Print(n / 100), currency) + ("." + TwoDigits(n % 100)));
            DecimalInput.Keep(tail) == Plain(amount) && '-' !in tail
  {
    var n := Cents(amount);
    TailOfCents(n / 100, n % 100, currency);
  }

  lemma TailOfCents(units: nat, cents: nat, currency: string)
    requires PlainCode(currency) && cents < 100
    ensures var tail := Symbol(currency) + (Grouped(Print(units), currency) + ("." + TwoDigits(cents)));
            DecimalInput.Keep(tail) == Print(units) + "." + TwoDigits(cents) && '-' !in tail
  {
    SymbolHoldsNoNumber(currency);
    KeepNothing(Symbol(currency));
    GroupedKeepsDigits(Print(units), currency);
    KeepOfParts(Symbol(currency), Grouped(Print(units), currency), Print(units), TwoDigits(cents));
  }

  lemma PlainIsNumber(amount: Decimal)
    ensures DecimalInput.IsNumber(Plain(amount), 4)
  {
    DecimalInput.NumberFromParts(Print(Cents(amount) / 100), TwoDigits(Cents(amount) % 100), 4);
  }

  /** Printed money survives being pasted back, in rupees and in every other currency whose
      code is not itself a number: the field shows the sign and the digits that were printed. */
  lemma PastedMoneySurvives(amount: Decimal, currency: string)
    requires PlainCode(currency)
    ensures DecimalInput.Sanitise(FormatMoney(amount, currency), 4, true)
         == DecimalInput.Sign(amount.coeff < 0) + Plain(amount)
  {
    var n := Cents(amount);
    var tail := Symbol(currency) + (Grouped(Print(n / 100), currency) + ("." + TwoDigits(n % 100)));
    var text := FormatMoney(amount, currency);
    TailReads(amount, currency);
    PlainIsNumber(amount);
    DecimalInput.UnsignedOfNumber(Plain(amount), 4);
    SignOfText(amount.coeff < 0, tail);
  }

  lemma SignOfText(negative: bool, tail: string)
    requires '-' !in tail
    ensures var text := DecimalInput.Sign(negative) + tail;
            && (DecimalInput.StartsWithMinus(text) <==> negative)
            && DecimalInput.Keep(text) == DecimalInput.Keep(tail)
  {
    if negative {
      assert TrimStart("-" + tail) == "-" + tail;
      DecimalInput.KeepConcat("-", tail);
      assert DecimalInput.Keep("-") == [];
    } else {
      assert "" + tail == tail;
      TrimStartKeepsChars(tail, '-');
    }
  }

  /** And it is the same amount: what the field holds, read as money, is the printed number of
      hundredths with its sign. */
  lemma PastedAmountIsPrintedAmount(amount: Decimal, currency: string)
    requires PlainCode(currency)
    ensures var pasted := DecimalInput.Sanitise(FormatMoney(amount, currency), 4, true);
            Money.IsMoney(pasted) && Money.Amount(pasted, 2) == Money.Signed(amount.coeff < 0, Cents(amount))
  {
    var n := Cents(amount);
    PastedMoneySurvives(amount, currency);
    PlainReadsBack(amount.coeff < 0, n);
  }

  lemma PlainReadsBack(negative: bool, n: nat)
    ensures var s := DecimalInput.Sign(negative) + (Print(n / 100) + "." + TwoDigits(n % 100));
            Money.IsMoney(s) && Money.Amount(s, 2) == Money.Signed(negative, n)
  {
    var whole, frac := Print(n / 100), TwoDigits(n % 100);
    var body := whole + "." + frac;
    var s := DecimalInput.Sign(negative) + body;
    assert IsDigit(whole[0]) && IsDigit(frac[1]);
    assert body[0] == whole[0] && s[|s| - 1] == frac[1];
    Money.TrimKeepsBare(s);
    assert negative ==> s[1..] == body;
    Money.ReadParts(s, whole, frac);
    Money.MoneyParses(s, 2);
    assert Money.Padded(frac, 2) == frac;
    CentsValue(n);
  }

  lemma CentsValue(n: nat)
    ensures Digits(Print(n / 100) + TwoDigits(n % 100)) && Value(Print(n / 100) + TwoDigits(n % 100)) == n
  {
    var frac := TwoDigits(n % 100);
    ValueOfPrint(n / 100);
    ValueOfConcat(Print(n / 100), frac);
    assert frac[..1] == [frac[0]] && frac[..1][..0] == [];
    assert Value(frac[..1]) == DigitValue(frac[0]);
    assert Pow10(2) == 100;
  }
}
