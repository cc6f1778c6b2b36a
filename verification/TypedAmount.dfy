/** What a user types is what the field holds and what is read from it. */
module TypedAmount {
  import opened Basics
  import opened DecimalText
  import opened DecimalInput
  import Money

  // ---------------------------------------------------------------------------
  // The amount
  // ---------------------------------------------------------------------------

  lemma ZeroInFront(digits: string)
    requires Digits(digits)
    ensures Digits("0" + digits) && Value("0" + digits) == Value(digits)
  {
    assert Zeros(1) == "0" by {
      assert Zeros(0) == "";
    }
    PadStartKeepsValue(digits, 1);
  }

  lemma CutThenPad(f: string, decimals: nat)
    ensures Money.Padded(Cut(f, decimals), decimals) == Money.Padded(f, decimals)
  {
  }

  function Shown(w: string): string {
    if w == [] then "0" else w
  }

  lemma SanitiseParts(w: string, f: string, decimals: nat)
    requires Digits(w) && Digits(f) && decimals >= 1
    ensures Sanitise(w + "." + f, decimals, false) == Shown(w) + "." + Cut(f, decimals)
  {
    KeepOfKept(w + "." + f);
    SplitAtPoint(w, f);
    NoPointsOfDigits(f);
    assert "" + (Shown(w) + "." + Cut(f, decimals)) == Shown(w) + "." + Cut(f, decimals);
  }

  lemma PlainIsRead(w: string, f: string, scale: nat)
    requires w != [] && Digits(w) && Digits(f)
    ensures var s := w + "." + f;
            && Money.IsMoney(s) && Digits(w + Money.Padded(f, scale))
            && Money.Amount(s, scale) == Value(w + Money.Padded(f, scale))
  {
    var s := w + "." + f;
    assert s[0] == w[0] && IsDigit(w[0]);
    assert s[|s| - 1] == if f == [] then '.' else f[|f| - 1];
    Money.TrimKeepsBare(s);
    Money.ReadParts(s, w, f);
    Money.MoneyParses(s, scale);
  }

  /** Typing digits, a point and digits, with or without digits before the point and with more
      places than the field has, leaves the amount that was typed, cut at those places. */
  lemma TypedNumberIsRead(w: string, f: string, decimals: nat)
    requires Digits(w) && Digits(f) && decimals >= 1
    ensures var s := Sanitise(w + "." + f, decimals, false);
            && Money.IsMoney(s) && Digits(w + Money.Padded(f, decimals))
            && Money.Amount(s, decimals) == Value(w + Money.Padded(f, decimals))
  {
    SanitiseParts(w, f, decimals);
    CutThenPad(f, decimals);
    Money.PaddedDigits(f, decimals);
    PlainIsRead(Shown(w), Cut(f, decimals), decimals);
    if w == [] {
      ZeroInFront(Money.Padded(f, decimals));
      assert w + Money.Padded(f, decimals) == Money.Padded(f, decimals);
    }
  }

  /** A whole number is left as it is, and nothing typed is nothing held. */
  lemma TypedWholeIsKept(w: string, decimals: nat)
    requires Digits(w)
    ensures Sanitise(w, decimals, false) == w
  {
    if w != [] {
      NoPointToSplit(w);
    }
    DecimalIsKept(w, decimals, false);
  }

  // ---------------------------------------------------------------------------
  // The digits
  // ---------------------------------------------------------------------------

  lemma {:induction false} NoPointsConcat(a: string, b: string)
    ensures NoPoints(a + b) == NoPoints(a) + NoPoints(b)
    decreases |a|
  {
    if a == [] {
      assert a + b == b;
    } else {
      var head := if a[0] == '.' then [] else [a[0]];
      assert (a + b)[1..] == a[1..] + b;
      NoPointsConcat(a[1..], b);
      assert head + (NoPoints(a[1..]) + NoPoints(b)) == (head + NoPoints(a[1..])) + NoPoints(b);
    }
  }

  lemma NoPointsOfParts(w: string, rest: string)
    requires Digits(w)
    ensures NoPoints(w + "." + rest) == w + NoPoints(rest)
  {
    NoPointsConcat(w + ".", rest);
    NoPointsConcat(w, ".");
    NoPointsOfDigits(w);
    assert NoPoints(".") == [];
    assert w + [] == w;
  }

  lemma KeepOfOutput(negative: bool, body: string)
    requires forall i | 0 <= i < |body| :: IsDigit(body[i]) || body[i] == '.'
    ensures Keep(Sign(negative) + body) == body
  {
    KeepConcat(Sign(negative), body);
    KeepOfKept(body);
    assert Keep("-") == [] && Keep("") == [];
    assert [] + body == body;
  }

  /** Digits and points. */
  predicate IsKept(kept: string) {
    forall i | 0 <= i < |kept| :: IsDigit(kept[i]) || kept[i] == '.'
  }

  lemma WholeIsDigits(kept: string)
    requires IsKept(kept)
    ensures Digits(BeforePoint(kept))
  {
    var w := BeforePoint(kept);
    forall i | 0 <= i < |w| ensures IsDigit(w[i]) {
      assert w[i] == kept[i] && w[i] in w;
    }
  }

  /** The kept text from its parts. */
  lemma KeptParts(kept: string)
    ensures |BeforePoint(kept)| < |kept| <==> '.' in kept
    ensures '.' in kept ==> kept == BeforePoint(kept) + "." + AfterPoint(kept)
    ensures '.' !in kept ==> BeforePoint(kept) == kept
  {
    var w := BeforePoint(kept);
    PartsMakeBody(kept);
    if |w| < |kept| {
      assert kept[|w|] == '.';
    }
  }

  lemma FractionIsDigits(kept: string)
    requires IsKept(kept)
    ensures Digits(NoPoints(AfterPoint(kept)))
  {
    NoPointsLeavesDigits(AfterPoint(kept));
  }

  lemma CutOfDigits(w: string, rest: string, decimals: nat)
    ensures w + Cut(rest, decimals) == (w + rest)[..Min(|w + rest|, |w| + decimals)]
  {
  }

  /** The digits of `out` are those of `kept`, in order, cut so many places after the first point,
      behind one zero when none stood before it; and the point stands where the first point stood.
      Without a point the digits are left alone. */
  ghost predicate SameDigits(kept: string, out: string, decimals: nat) {
    var w := BeforePoint(kept);
    if '.' !in kept then out == kept
    else
      && |w| <= |NoPoints(kept)|
      && NoPoints(out) == (if w == [] then "0" else "") + NoPoints(kept)[..Min(|NoPoints(kept)|, |w| + decimals)]
      && BeforePoint(out) == (if w == [] then "0" else w)
      && ('.' in out <==> decimals > 0)
  }

  /** Whatever is typed or pasted, with any number of points. */
  lemma DigitsAreThoseTyped(raw: string, decimals: nat, allowNegative: bool)
    ensures SameDigits(Keep(raw), Keep(Sanitise(raw, decimals, allowNegative)), decimals)
  {
    KeptChars(raw);
    OutputIsUnsigned(raw, decimals, allowNegative);
    UnsignedDigits(Keep(raw), decimals);
  }

  function OutputOf(w: string, fraction: string, decimals: nat): string {
    if decimals == 0 then Shown(w) else Shown(w) + "." + fraction
  }

  lemma UnsignedIs(kept: string, decimals: nat)
    ensures Unsigned(kept, decimals)
            == if '.' in kept then OutputOf(BeforePoint(kept), Cut(NoPoints(AfterPoint(kept)), decimals), decimals)
               else kept
  {
    KeptParts(kept);
  }

  lemma PartsGiveDigits(kept: string, w: string, rest: string, decimals: nat)
    requires kept == w + "." + rest && w == BeforePoint(kept) && Digits(w) && Digits(NoPoints(rest)) && '.' in kept
    ensures SameDigits(kept, OutputOf(w, Cut(NoPoints(rest), decimals), decimals), decimals)
  {
    DigitsOfParts(kept, w, rest, decimals);
    OutputParts(w, Cut(NoPoints(rest), decimals), decimals);
  }

  lemma UnsignedDigits(kept: string, decimals: nat)
    requires IsKept(kept)
    ensures SameDigits(kept, Unsigned(kept, decimals), decimals)
  {
    UnsignedIs(kept, decimals);
    if '.' in kept {
      KeptParts(kept);
      WholeIsDigits(kept);
      FractionIsDigits(kept);
      PartsGiveDigits(kept, BeforePoint(kept), AfterPoint(kept), decimals);
    }
  }

  lemma OutputIsUnsigned(raw: string, decimals: nat, allowNegative: bool)
    ensures Keep(Sanitise(raw, decimals, allowNegative)) == Unsigned(Keep(raw), decimals)
  {
    KeptChars(raw);
    UnsignedIsKept(Keep(raw), decimals);
    KeepOfOutput(allowNegative && StartsWithMinus(raw), Unsigned(Keep(raw), decimals));
  }

  lemma UnsignedIsKept(kept: string, decimals: nat)
    requires IsKept(kept)
    ensures IsKept(Unsigned(kept, decimals))
  {
    WholeIsDigits(kept);
    FractionIsDigits(kept);
  }

  lemma DigitsOfParts(kept: string, w: string, rest: string, decimals: nat)
    requires Digits(w) && kept == w + "." + rest
    ensures |w| <= |NoPoints(kept)|
    ensures w + Cut(NoPoints(rest), decimals) == NoPoints(kept)[..Min(|NoPoints(kept)|, |w| + decimals)]
  {
    NoPointsOfParts(w, rest);
    CutOfDigits(w, NoPoints(rest), decimals);
  }

  lemma OutputParts(w: string, fraction: string, decimals: nat)
    requires Digits(w) && Digits(fraction) && |fraction| <= decimals
    ensures var body := OutputOf(w, fraction, decimals);
            && NoPoints(body) == (if w == [] then "0" else "") + (w + fraction)
            && BeforePoint(body) == Shown(w) && ('.' in body <==> decimals > 0)
  {
    NoPointsOfDigits(Shown(w));
    NoPointsOfDigits(fraction);
    NoPointsOfParts(Shown(w), fraction);
    NoPointToSplit(Shown(w));
    SplitAtPoint(Shown(w), fraction);
    assert Shown(w) + fraction == (if w == [] then "0" else "") + (w + fraction);
    if decimals == 0 {
      assert fraction == [] && w + fraction == w;
    } else {
      assert (Shown(w) + "." + fraction)[|Shown(w)|] == '.';
    }
  }

  // ---------------------------------------------------------------------------
  // The sign
  // ---------------------------------------------------------------------------

  predicate AllSpace(s: string) {
    forall i | 0 <= i < |s| :: IsSpace(s[i])
  }

  lemma {:induction false} TrimStartSkips(space: string, s: string)
    requires AllSpace(space)
    ensures TrimStart(space + s) == TrimStart(s)
    decreases |space|
  {
    if space == [] {
      assert space + s == s;
    } else {
      assert (space + s)[1..] == space[1..] + s;
      TrimStartSkips(space[1..], s);
    }
  }

  /** The output is negative exactly when that is allowed and a minus is the first thing typed
      that is not white space. */
  lemma SignIsThatTyped(space: string, rest: string, decimals: nat, allowNegative: bool)
    requires AllSpace(space) && rest != [] && !IsSpace(rest[0])
    ensures var out := Sanitise(space + rest, decimals, allowNegative);
            (out != [] && out[0] == '-') <==> allowNegative && rest[0] == '-'
  {
    TrimStartSkips(space, rest);
    var raw := space + rest;
    var body := Unsigned(Keep(raw), decimals);
    KeptChars(raw);
    UnsignedIsNumber(Keep(raw), decimals);
    if body != [] {
      assert body[0] == BeforePoint(body)[0];
      assert IsDigit(body[0]);
    }
    assert "" + body == body;
  }

  // ---------------------------------------------------------------------------
  // Money strings
  // ---------------------------------------------------------------------------

  lemma {:induction false} TrimEndSkips(s: string, space: string)
    requires AllSpace(space)
    ensures TrimEnd(s + space) == TrimEnd(s)
    decreases |space|
  {
    var n := |space|;
    if n == 0 {
      assert s + space == s;
    } else {
      assert (s + space)[..|s + space| - 1] == s + space[..n - 1];
      TrimEndSkips(s, space[..n - 1]);
    }
  }

  lemma TrimBoth(before: string, core: string, after: string)
    requires AllSpace(before) && AllSpace(after)
    requires core != [] && !IsSpace(core[0]) && !IsSpace(core[|core| - 1])
    ensures Trim(before + (core + after)) == core
  {
    TrimStartSkips(before, core + after);
    assert (core + after)[0] == core[0];
    TrimEndSkips(core, after);
  }

  /** A number as the API or a user may write it, with a sign or none and white space around it,
      is read as that number, cut or filled at the scale. */
  lemma WrittenNumberIsRead(before: string, sign: string, w: string, f: string, after: string, scale: nat)
    requires AllSpace(before) && AllSpace(after) && (sign == "" || sign == "+" || sign == "-")
    requires w != [] && Digits(w) && Digits(f)
    ensures var s := before + ((sign + (w + "." + f)) + after);
            && Money.IsMoney(s) && Digits(w + Money.Padded(f, scale))
            && Money.Amount(s, scale) == Money.Signed(sign == "-", Value(w + Money.Padded(f, scale)))
  {
    var body := w + "." + f;
    var core := sign + body;
    var s := before + (core + after);
    assert body[0] == w[0] && IsDigit(w[0]);
    assert body[|body| - 1] == if f == [] then '.' else f[|f| - 1];
    assert core[0] == if sign == "" then w[0] else sign[0];
    assert core[|core| - 1] == body[|body| - 1];
    TrimBoth(before, core, after);
    BodyOfCore(s, sign, body);
    Money.ReadParts(s, w, f);
    Money.MoneyParses(s, scale);
  }

  lemma BodyOfCore(s: string, sign: string, body: string)
    requires (sign == "" || sign == "+" || sign == "-") && body != [] && IsDigit(body[0])
    requires Trim(s) == sign + body
    ensures Money.Body(s) == body && (Money.Negative(s) <==> sign == "-")
  {
    if sign == "" {
      assert sign + body == body;
    } else {
      assert (sign + body)[1..] == body;
    }
  }

  // ---------------------------------------------------------------------------
  // The printed form
  // ---------------------------------------------------------------------------

  lemma {:induction false} PrintHasNoSpareZero(n: nat)
    ensures |Print(n)| == 1 || Print(n)[0] != '0'
    ensures n > 0 ==> Print(n)[0] != '0'
    decreases n
  {
    if n >= 10 {
      PrintHasNoSpareZero(n / 10);
      assert Print(n)[0] == Print(n / 10)[0];
    }
  }

  /** A sum is printed with exactly `scale` places and no spare zero in front, and with a minus
      exactly when it is negative. */
  lemma SumIsPrintedPlainly(total: int, scale: nat)
    ensures var s := Money.PrintMoney(total, scale);
            && |Money.Fraction(s)| == scale
            && Money.Whole(s) != [] && (|Money.Whole(s)| == 1 || Money.Whole(s)[0] != '0')
            && (Money.Negative(s) <==> total < 0)
  {
    var s, d := Money.PrintMoney(total, scale), Money.TotalDigits(total, scale);
    Money.PrintedBody(total, scale);
    var whole, fraction := d[..|d| - scale], d[|d| - scale..];
    Money.ReadParts(s, whole, fraction);
    PrintHasNoSpareZero(Money.Abs(total));
    assert whole[0] == d[0];
  }

  // ---------------------------------------------------------------------------
  // What else JavaScript reads as a whole number
  // ---------------------------------------------------------------------------

  /** White space, as `trim` understands it, is none of what numbers are made of. */
  lemma SpacesAreNoNumber(c: char)
    ensures c == ' ' || c == '\t' || c == '\n' || c == '\r' || c == '\U{00A0}' || c == '\U{FEFF}' ==> IsSpace(c)
    ensures IsDigit(c) || c == '.' || c == '-' || c == '+' || c == ',' ==> !IsSpace(c)
  {
  }

  lemma BareIsTrimmed(s: string)
    requires s != [] && !IsSpace(s[0]) && !IsSpace(s[|s| - 1])
    ensures Trim(s) == s
  {
    Money.TrimKeepsBare(s);
  }

  /** Nothing is zero, and a plus is allowed. */
  lemma EmptyAndPlusAreRead()
    ensures Money.BigInt("") == Some(0) && Money.BigInt(" ") == Some(0) && Money.BigInt("+7") == Some(7)
  {
    assert TrimStart(" ") == "" by {
      assert " "[1..] == "";
    }
    BareIsTrimmed("+7");
    assert "+7"[1..] == "7" && "7"[..0] == "";
    assert Value("7") == 7;
  }

  /** Base prefixes are read in their base, and take no sign. */
  lemma HexIsRead()
    ensures Money.BigInt("0x1f") == Some(31) && Money.BigInt("-0x1") == None
  {
    BareIsTrimmed("0x1f");
    assert "0x1f"[2..] == "1f" && "1f"[..1] == "1" && "1"[..0] == "";
    assert Money.ValueIn(16, "1") == 1;
    BareIsTrimmed("-0x1");
    assert "-0x1"[1..] == "0x1" && !IsDigit("0x1"[1]);
  }

  lemma OctalAndBinaryAreRead()
    ensures Money.BigInt("0o17") == Some(15) && Money.BigInt("0b11") == Some(3)
  {
    BareIsTrimmed("0o17");
    BareIsTrimmed("0b11");
    assert "0o17"[2..] == "17" && "17"[..1] == "1" && "1"[..0] == "";
    assert "0b11"[2..] == "11" && "11"[..1] == "1";
    assert Money.ValueIn(8, "1") == 1 && Money.ValueIn(2, "1") == 1;
  }
}
