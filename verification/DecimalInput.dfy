/** Reducing typed or pasted text to a decimal number. */
module DecimalInput {
  import opened DecimalText

  /** Everything but digits and points goes. */
  function Keep(s: string): string {
    if s == [] then []
    else (if IsDigit(s[0]) || s[0] == '.' then [s[0]] else []) + Keep(s[1..])
  }

  function NoPoints(s: string): string {
    if s == [] then [] else (if s[0] == '.' then [] else [s[0]]) + NoPoints(s[1..])
  }

  function Cut(s: string, n: nat): (r: string)
    ensures |r| <= n
  {
    if |s| <= n then s else s[..n]
  }

  function Sign(negative: bool): string {
    if negative then "-" else ""
  }

  predicate StartsWithMinus(raw: string) {
    TrimStart(raw) != [] && TrimStart(raw)[0] == '-'
  }

  /** The number in a text of digits and points. */
  function Unsigned(kept: string, decimals: nat): string {
    var whole := BeforePoint(kept);
    var hasPoint := |whole| < |kept|;
    var fraction := Cut(NoPoints(AfterPoint(kept)), decimals);
    if !hasPoint then whole
    else
      var shown := if whole == [] then "0" else whole;
      if decimals == 0 then shown else shown + "." + fraction
  }

  function Sanitise(raw: string, decimals: nat, allowNegative: bool): string {
    Sign(allowNegative && StartsWithMinus(raw)) + Unsigned(Keep(raw), decimals)
  }

  /** What the field may hold: nothing, a lone minus, or a number of at most `decimals` places,
      perhaps still being typed, such as "12." */
  predicate IsDecimal(s: string, decimals: nat, allowNegative: bool) {
    var body := if allowNegative && s != [] && s[0] == '-' then s[1..] else s;
    body == [] || IsNumber(body, decimals)
  }

  predicate IsNumber(body: string, decimals: nat) {
    && BeforePoint(body) != [] && Digits(BeforePoint(body))
    && Digits(AfterPoint(body)) && |AfterPoint(body)| <= decimals
    && (decimals == 0 ==> '.' !in body)
  }

  lemma {:induction false} KeptChars(s: string)
    ensures forall i | 0 <= i < |Keep(s)| :: IsDigit(Keep(s)[i]) || Keep(s)[i] == '.'
  {
    if s != [] {
      KeptChars(s[1..]);
    }
  }

  lemma {:induction false} KeepOfKept(s: string)
    requires forall i | 0 <= i < |s| :: IsDigit(s[i]) || s[i] == '.'
    ensures Keep(s) == s
  {
    if s != [] {
      KeepOfKept(s[1..]);
      assert [s[0]] + s[1..] == s;
    }
  }

  lemma {:induction false} KeepConcat(a: string, b: string)
    ensures Keep(a + b) == Keep(a) + Keep(b)
    decreases |a|
  {
    if a == [] {
      assert a + b == b;
    } else {
      var head := if IsDigit(a[0]) || a[0] == '.' then [a[0]] else [];
      assert (a + b)[1..] == a[1..] + b;
      KeepConcat(a[1..], b);
      assert head + (Keep(a[1..]) + Keep(b)) == (head + Keep(a[1..])) + Keep(b);
    }
  }

  lemma {:induction false} NoPointsLeavesDigits(s: string)
    requires forall i | 0 <= i < |s| :: IsDigit(s[i]) || s[i] == '.'
    ensures Digits(NoPoints(s))
  {
    if s != [] {
      NoPointsLeavesDigits(s[1..]);
    }
  }

  lemma {:induction false} NoPointsOfDigits(s: string)
    requires Digits(s)
    ensures NoPoints(s) == s
  {
    if s != [] {
      NoPointsOfDigits(s[1..]);
      assert [s[0]] + s[1..] == s;
    }
  }

  lemma NumberFromParts(whole: string, fraction: string, decimals: nat)
    requires whole != [] && Digits(whole) && Digits(fraction) && |fraction| <= decimals
    ensures IsNumber(whole, decimals)
    ensures decimals > 0 ==> IsNumber(whole + "." + fraction, decimals)
  {
    NoPointToSplit(whole);
    SplitAtPoint(whole, fraction);
  }

  lemma UnsignedIsNumber(kept: string, decimals: nat)
    requires forall i | 0 <= i < |kept| :: IsDigit(kept[i]) || kept[i] == '.'
    ensures Unsigned(kept, decimals) == [] || IsNumber(Unsigned(kept, decimals), decimals)
  {
    var whole := BeforePoint(kept);
    NoPointsLeavesDigits(AfterPoint(kept));
    var fraction := Cut(NoPoints(AfterPoint(kept)), decimals);
    var shown := if whole == [] then "0" else whole;
    assert Digits(shown);
    NumberFromParts(shown, fraction, decimals);
  }

  /** Whatever is typed or pasted, what is left is a number of the allowed form. */
  lemma OutputIsDecimal(raw: string, decimals: nat, allowNegative: bool)
    ensures IsDecimal(Sanitise(raw, decimals, allowNegative), decimals, allowNegative)
  {
    var body := Unsigned(Keep(raw), decimals);
    var s := Sanitise(raw, decimals, allowNegative);
    KeptChars(raw);
    UnsignedIsNumber(Keep(raw), decimals);
    if body != [] {
      assert body[0] == BeforePoint(body)[0];
    }
    if allowNegative && StartsWithMinus(raw) {
      assert s[1..] == body;
    } else {
      assert s == body;
    }
  }

  lemma UnsignedOfNumber(body: string, decimals: nat)
    requires IsNumber(body, decimals)
    ensures Unsigned(body, decimals) == body && Keep(body) == body
  {
    PartsMakeBody(body);
    NoPointsOfDigits(AfterPoint(body));
    KeepOfKept(body);
  }

  lemma PartsMakeBody(body: string)
    ensures if |BeforePoint(body)| < |body| then body == BeforePoint(body) + "." + AfterPoint(body)
            else body == BeforePoint(body)
  {
  }

  lemma SignIsSeen(sign: bool, body: string)
    requires body == [] || IsDigit(body[0])
    ensures StartsWithMinus(Sign(sign) + body) <==> sign
    ensures Keep(Sign(sign) + body) == Keep(body)
  {
    var s := Sign(sign) + body;
    assert TrimStart(s) == s;
    assert Keep("-") == [] && Keep("") == [];
    KeepConcat(Sign(sign), body);
  }

  lemma SignedNumberIsKept(sign: bool, body: string, decimals: nat, allowNegative: bool)
    requires sign ==> allowNegative
    requires body == [] || IsNumber(body, decimals)
    ensures Sanitise(Sign(sign) + body, decimals, allowNegative) == Sign(sign) + body
  {
    if body != [] {
      assert body[0] == BeforePoint(body)[0];
      UnsignedOfNumber(body, decimals);
    }
    SignIsSeen(sign, body);
  }

  /** A number of the allowed form is left exactly as it is. */
  lemma DecimalIsKept(s: string, decimals: nat, allowNegative: bool)
    requires IsDecimal(s, decimals, allowNegative)
    ensures Sanitise(s, decimals, allowNegative) == s
  {
    var sign := allowNegative && s != [] && s[0] == '-';
    var body := if sign then s[1..] else s;
    SignedNumberIsKept(sign, body, decimals, allowNegative);
    assert s == Sign(sign) + body;
  }

  /** Sanitising twice is sanitising once. */
  lemma SanitiseIsIdempotent(raw: string, decimals: nat, allowNegative: bool)
    ensures Sanitise(Sanitise(raw, decimals, allowNegative), decimals, allowNegative)
         == Sanitise(raw, decimals, allowNegative)
  {
    OutputIsDecimal(raw, decimals, allowNegative);
    DecimalIsKept(Sanitise(raw, decimals, allowNegative), decimals, allowNegative);
  }
}
