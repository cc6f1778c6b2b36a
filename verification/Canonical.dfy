/** The canonical byte form of a journal entry: the input of every leaf hash. The point of the
    encoding is that it can be read in one way only, so that two different entries never
    share a leaf. */
module Canonical {
  import opened Basics
  import opened Bytes
  import BigEndian

  const CANONICAL_VERSION: Byte := 1
  const INT_WIDTH: nat := 16
  const ABSENT: nat := 0xFFFF_FFFF

  /** One millisecond after the last instant a Python `datetime` can hold, the end of 9999. */
  const END_OF_TIME: nat := 253402300800000

  datatype Kind = KU32 | KStr | KUuid | KDate | KInstant | KMoney

  datatype Date = Date(year: nat, month: nat, day: nat)

  /** A field of an entry. Text is its UTF-8 bytes, money is whole minor units and an instant
      is milliseconds since 1970, which may be negative. */
  datatype Value =
    | U32Value(n: nat)
    | StrValue(text: Option<Bytes>)
    | UuidValue(id: Option<Bytes>)
    | DateValue(date: Option<Date>)
    | InstantValue(millis: Option<int>)
    | MoneyValue(minor: int)
  {
    function Kind(): Kind {
      match this
      case U32Value(_) => KU32
      case StrValue(_) => KStr
      case UuidValue(_) => KUuid
      case DateValue(_) => KDate
      case InstantValue(_) => KInstant
      case MoneyValue(_) => KMoney
    }

    /** What the types of the source already guarantee of a value. */
    predicate Typed() {
      match this
      case UuidValue(Some(id)) => |id| == 16
      case DateValue(Some(d)) => 1 <= d.year <= 9999 && 1 <= d.month <= 12 && 1 <= d.day <= 31
      case InstantValue(Some(m)) => m < END_OF_TIME
      case _ => true
    }

    /** What the encoders accept; anything else is a business-rule error. */
    predicate Fits() {
      match this
      case U32Value(n) => n <= U32_MAX
      case StrValue(Some(t)) => |t| <= U32_MAX
      case InstantValue(Some(m)) => 0 <= m <= U64_MAX
      case MoneyValue(v) => -I128_MAX - 1 <= v <= I128_MAX
      case _ => true
    }
  }

  function EncU32(n: nat): (b: Bytes)
    ensures |b| == 4
  {
    BigEndian.Encode(n, 4)
  }

  function EncBytes(b: Option<Bytes>): Bytes {
    match b
    case None => EncU32(ABSENT)
    case Some(bytes) => EncU32(|bytes|) + bytes
  }

  /** Two's complement in 16 bytes. */
  function EncInt(v: int): (b: Bytes)
    requires -I128_MAX - 1 <= v <= I128_MAX
    ensures |b| == INT_WIDTH
  {
    BigEndian.Encode(if v < 0 then v + 2 * (I128_MAX + 1) else v, INT_WIDTH)
  }

  function EncDate(d: Option<Date>): (b: Bytes)
    ensures |b| == 4
  {
    match d
    case None => EncU32(ABSENT)
    case Some(day) => EncU32(day.year * 10_000 + day.month * 100 + day.day)
  }

  /** Eight bytes without a length in front of them; four when there is no instant. */
  function EncInstant(m: Option<int>): Bytes
    requires m.Some? ==> 0 <= m.value
  {
    match m
    case None => EncU32(ABSENT)
    case Some(millis) => BigEndian.Encode(millis, 8)
  }

  function Enc(v: Value): Bytes
    requires v.Fits()
  {
    match v
    case U32Value(n) => EncU32(n)
    case StrValue(t) => EncBytes(t)
    case UuidValue(id) => EncBytes(id)
    case DateValue(d) => EncDate(d)
    case InstantValue(m) => EncInstant(m)
    case MoneyValue(minor) => EncInt(minor)
  }

  // ---------------------------------------------------------------------------
  // One value can be read off the front of any byte string in one way
  // ---------------------------------------------------------------------------

  lemma Cancel(a: Bytes, b: Bytes, x: Bytes, y: Bytes)
    requires |a| == |b| && a + x == b + y
    ensures a == b && x == y
  {
    assert (a + x)[..|a|] == a && (b + y)[..|a|] == b;
    assert (a + x)[|a|..] == x && (b + y)[|a|..] == y;
  }

  lemma Assoc(a: Bytes, b: Bytes, c: Bytes)
    ensures (a + b) + c == a + (b + c)
  {
  }

  lemma U32Unique(m: nat, n: nat, x: Bytes, y: Bytes)
    requires m <= U32_MAX && n <= U32_MAX && EncU32(m) + x == EncU32(n) + y
    ensures m == n && x == y
  {
    Cancel(EncU32(m), EncU32(n), x, y);
    BigEndian.Widths();
    BigEndian.Injective(m, n, 4);
  }

  lemma BytesUnique(a: Option<Bytes>, b: Option<Bytes>, x: Bytes, y: Bytes)
    requires a.Some? ==> |a.value| < ABSENT
    requires b.Some? ==> |b.value| < ABSENT
    requires EncBytes(a) + x == EncBytes(b) + y
    ensures a == b && x == y
  {
    if a.Some? && b.Some? {
      Assoc(EncU32(|a.value|), a.value, x);
      Assoc(EncU32(|b.value|), b.value, y);
      U32Unique(|a.value|, |b.value|, a.value + x, b.value + y);
      Cancel(a.value, b.value, x, y);
    } else if a.Some? {
      Assoc(EncU32(|a.value|), a.value, x);
      U32Unique(|a.value|, ABSENT, a.value + x, y);
    } else if b.Some? {
      Assoc(EncU32(|b.value|), b.value, y);
      U32Unique(ABSENT, |b.value|, x, b.value + y);
    } else {
      U32Unique(ABSENT, ABSENT, x, y);
    }
  }

  lemma IntUnique(v: int, w: int, x: Bytes, y: Bytes)
    requires -I128_MAX - 1 <= v <= I128_MAX && -I128_MAX - 1 <= w <= I128_MAX
    requires EncInt(v) + x == EncInt(w) + y
    ensures v == w && x == y
  {
    Cancel(EncInt(v), EncInt(w), x, y);
    BigEndian.Widths();
    var whole := 2 * (I128_MAX + 1);
    BigEndian.Injective(if v < 0 then v + whole else v, if w < 0 then w + whole else w, 16);
  }

  lemma DateUnique(c: Option<Date>, d: Option<Date>, x: Bytes, y: Bytes)
    requires DateValue(c).Typed() && DateValue(d).Typed()
    requires EncDate(c) + x == EncDate(d) + y
    ensures c == d && x == y
  {
    var m := if c.Some? then c.value.year * 10_000 + c.value.month * 100 + c.value.day else ABSENT;
    var n := if d.Some? then d.value.year * 10_000 + d.value.month * 100 + d.value.day else ABSENT;
    U32Unique(m, n, x, y);
    if c.Some? && d.Some? {
      CalendarUnique(c.value, d.value);
    }
  }

  lemma CalendarUnique(c: Date, d: Date)
    requires DateValue(Some(c)).Typed() && DateValue(Some(d)).Typed()
    requires c.year * 10_000 + c.month * 100 + c.day == d.year * 10_000 + d.month * 100 + d.day
    ensures c == d
  {
    assert (c.year - d.year) * 10_000 == (d.month - c.month) * 100 + (d.day - c.day);
    assert c.year == d.year;
    assert c.month == d.month;
  }

  /** An instant has no length prefix, yet an absent one cannot be mistaken for a present one:
      no instant before the year 10000 starts with the four bytes of the absent mark. */
  lemma InstantUnique(a: Option<int>, b: Option<int>, x: Bytes, y: Bytes)
    requires a.Some? ==> 0 <= a.value < END_OF_TIME
    requires b.Some? ==> 0 <= b.value < END_OF_TIME
    requires EncInstant(a) + x == EncInstant(b) + y
    ensures a == b && x == y
  {
    BigEndian.Widths();
    if a.Some? && b.Some? {
      Cancel(EncInstant(a), EncInstant(b), x, y);
      BigEndian.Injective(a.value, b.value, 8);
    } else if a.Some? {
      PresentIsNotAbsent(a.value, x, y);
    } else if b.Some? {
      PresentIsNotAbsent(b.value, y, x);
    } else {
      Cancel(EncInstant(a), EncInstant(b), x, y);
    }
  }

  lemma PresentIsNotAbsent(millis: nat, x: Bytes, y: Bytes)
    requires millis < END_OF_TIME
    ensures BigEndian.Encode(millis, 8) + x != EncU32(ABSENT) + y
  {
    var high := millis / 256 / 256 / 256 / 256;
    BigEndian.HighHalf(millis);
    BigEndian.Widths();
    if BigEndian.Encode(millis, 8) + x == EncU32(ABSENT) + y {
      assert (BigEndian.Encode(millis, 8) + x)[..4] == BigEndian.Encode(millis, 8)[..4];
      assert (EncU32(ABSENT) + y)[..4] == EncU32(ABSENT);
      BigEndian.Injective(high, ABSENT, 4);
    }
  }

  /** The one text the encoding cannot tell from an absent one is a text of exactly 2^32 - 1
      bytes, whose length is the absent mark. */
  lemma AbsentMarkIsAmbiguousExactlyAtItself(t: Bytes)
    requires |t| <= U32_MAX
    ensures EncBytes(None) <= EncBytes(Some(t)) <==> |t| == ABSENT
  {
    if EncBytes(None) <= EncBytes(Some(t)) {
      assert EncU32(ABSENT) == (EncU32(|t|) + t)[..4] == EncU32(|t|);
      BigEndian.Widths();
      BigEndian.Injective(ABSENT, |t|, 4);
    }
  }

  predicate Clear(v: Value) {
    v.Typed() && v.Fits() && (v.StrValue? && v.text.Some? ==> |v.text.value| != ABSENT)
  }

  lemma ValueUnique(v: Value, w: Value, x: Bytes, y: Bytes)
    requires v.Kind() == w.Kind() && Clear(v) && Clear(w)
    requires Enc(v) + x == Enc(w) + y
    ensures v == w && x == y
  {
    match v
    case U32Value(n) => U32Unique(n, w.n, x, y);
    case StrValue(t) => BytesUnique(t, w.text, x, y);
    case UuidValue(id) => BytesUnique(id, w.id, x, y);
    case DateValue(d) => DateUnique(d, w.date, x, y);
    case InstantValue(m) => InstantUnique(m, w.millis, x, y);
    case MoneyValue(minor) => IntUnique(minor, w.minor, x, y);
  }

  // ---------------------------------------------------------------------------
  // Records of values
  // ---------------------------------------------------------------------------

  type Record = seq<Value>

  predicate RecordOf(r: Record, kinds: seq<Kind>) {
    && |r| == |kinds|
    && forall i | 0 <= i < |r| :: r[i].Kind() == kinds[i] && r[i].Fits()
  }

  predicate ClearRecord(r: Record) {
    forall i | 0 <= i < |r| :: Clear(r[i])
  }

  function EncRecord(r: Record): Bytes
    requires forall i | 0 <= i < |r| :: r[i].Fits()
  {
    if r == [] then [] else Enc(r[0]) + EncRecord(r[1..])
  }

  lemma {:induction false} RecordUnique(r: Record, s: Record, kinds: seq<Kind>, x: Bytes, y: Bytes)
    requires RecordOf(r, kinds) && RecordOf(s, kinds)
    requires ClearRecord(r) && ClearRecord(s)
    requires EncRecord(r) + x == EncRecord(s) + y
    ensures r == s && x == y
    decreases |kinds|
  {
    if kinds == [] {
      assert [] + x == x && [] + y == y;
    } else {
      Assoc(Enc(r[0]), EncRecord(r[1..]), x);
      Assoc(Enc(s[0]), EncRecord(s[1..]), y);
      ValueUnique(r[0], s[0], EncRecord(r[1..]) + x, EncRecord(s[1..]) + y);
      RecordUnique(r[1..], s[1..], kinds[1..], x, y);
      assert r == [r[0]] + r[1..] && s == [s[0]] + s[1..];
    }
  }

  const FIELD_KINDS: seq<Kind> :=
    [KUuid, KUuid, KStr, KDate, KStr, KMoney, KMoney, KStr, KStr, KStr, KStr, KUuid, KUuid, KInstant]

  const LINE_KINDS: seq<Kind> := [KU32, KUuid, KMoney, KMoney, KStr]

  predicate IsLine(line: Record) {
    RecordOf(line, LINE_KINDS)
  }

  predicate AreLines(lines: seq<Record>) {
    forall i | 0 <= i < |lines| :: IsLine(lines[i])
  }

  function EncLines(lines: seq<Record>): Bytes
    requires AreLines(lines)
  {
    if lines == [] then [] else EncRecord(lines[0]) + EncLines(lines[1..])
  }

  lemma {:induction false} LinesUnique(a: seq<Record>, b: seq<Record>)
    requires AreLines(a) && AreLines(b) && |a| == |b|
    requires forall i | 0 <= i < |a| :: ClearRecord(a[i])
    requires forall i | 0 <= i < |b| :: ClearRecord(b[i])
    requires EncLines(a) == EncLines(b)
    ensures a == b
    decreases |a|
  {
    if a != [] {
      assert IsLine(a[0]) && IsLine(b[0]);
      RecordUnique(a[0], b[0], LINE_KINDS, EncLines(a[1..]), EncLines(b[1..]));
      LinesUnique(a[1..], b[1..]);
      assert a == [a[0]] + a[1..] && b == [b[0]] + b[1..];
    }
  }

  // ---------------------------------------------------------------------------
  // Lines are put in order before they are encoded
  // ---------------------------------------------------------------------------

  function LineNumber(line: Record): nat
    requires IsLine(line)
  {
    assert line[0].Kind() == LINE_KINDS[0];
    line[0].n
  }

  /** `line` goes before the first line that is not smaller, which keeps the sort stable. */
  function Insert(line: Record, lines: seq<Record>): (r: seq<Record>)
    requires IsLine(line) && AreLines(lines)
    ensures AreLines(r) && multiset(r) == multiset(lines) + multiset{line}
  {
    if lines == [] || LineNumber(line) <= LineNumber(lines[0]) then
      [line] + lines
    else
      assert lines == [lines[0]] + lines[1..];
      [lines[0]] + Insert(line, lines[1..])
  }

  function Sorted(lines: seq<Record>): (r: seq<Record>)
    requires AreLines(lines)
    ensures AreLines(r) && multiset(r) == multiset(lines)
  {
    if lines == [] then []
    else
      assert lines == [lines[0]] + lines[1..];
      Insert(lines[0], Sorted(lines[1..]))
  }

  ghost predicate StrictlyInOrder(lines: seq<Record>)
    requires AreLines(lines)
  {
    forall i, j | 0 <= i < j < |lines| :: LineNumber(lines[i]) < LineNumber(lines[j])
  }

  lemma FirstIsLeast(a: seq<Record>, line: Record)
    requires AreLines(a) && StrictlyInOrder(a) && line in multiset(a)
    ensures IsLine(line) && LineNumber(a[0]) <= LineNumber(line)
    ensures LineNumber(a[0]) == LineNumber(line) ==> line == a[0]
  {
    var i :| 0 <= i < |a| && a[i] == line;
  }

  lemma SameFirst(a: seq<Record>, b: seq<Record>)
    requires AreLines(a) && AreLines(b) && StrictlyInOrder(a) && StrictlyInOrder(b)
    requires multiset(a) == multiset(b) && a != []
    ensures b != [] && a[0] == b[0]
  {
    assert a[0] in multiset(a);
    FirstIsLeast(b, a[0]);
    assert b[0] in multiset(b);
    FirstIsLeast(a, b[0]);
  }

  /** A set of lines with distinct numbers has one order. */
  lemma {:induction false} OrderIsUnique(a: seq<Record>, b: seq<Record>)
    requires AreLines(a) && AreLines(b) && StrictlyInOrder(a) && StrictlyInOrder(b)
    requires multiset(a) == multiset(b)
    ensures a == b
    decreases |a|
  {
    if a == [] {
      assert |b| == |multiset(b)|;
    } else {
      SameFirst(a, b);
      TailMultiset(a);
      TailMultiset(b);
      OrderIsUnique(a[1..], b[1..]);
    }
  }

  lemma TailMultiset(a: seq<Record>)
    requires a != []
    ensures a == [a[0]] + a[1..]
    ensures multiset(a[1..]) == multiset(a) - multiset{a[0]}
  {
    assert a == [a[0]] + a[1..];
  }

  /** In no line list of `lines` is a number used twice. */
  ghost predicate DistinctNumbers(lines: seq<Record>)
    requires AreLines(lines)
  {
    forall i, j | 0 <= i < j < |lines| :: LineNumber(lines[i]) != LineNumber(lines[j])
  }

  ghost predicate AllAbove(lines: seq<Record>, n: nat)
    requires AreLines(lines)
  {
    forall i | 0 <= i < |lines| :: n < LineNumber(lines[i])
  }

  lemma {:induction false} InsertAbove(line: Record, lines: seq<Record>, n: nat)
    requires IsLine(line) && AreLines(lines) && AllAbove(lines, n) && n < LineNumber(line)
    ensures AllAbove(Insert(line, lines), n)
    decreases |lines|
  {
    if lines != [] && LineNumber(line) > LineNumber(lines[0]) {
      InsertAbove(line, lines[1..], n);
    }
  }

  lemma PrependStrictly(first: Record, rest: seq<Record>)
    requires IsLine(first) && AreLines(rest) && StrictlyInOrder(rest) && AllAbove(rest, LineNumber(first))
    ensures AreLines([first] + rest) && StrictlyInOrder([first] + rest)
  {
  }

  lemma {:induction false} InsertStrictly(line: Record, lines: seq<Record>)
    requires IsLine(line) && AreLines(lines) && StrictlyInOrder(lines)
    requires forall i | 0 <= i < |lines| :: LineNumber(lines[i]) != LineNumber(line)
    ensures StrictlyInOrder(Insert(line, lines))
    decreases |lines|
  {
    if lines == [] {
    } else if LineNumber(line) > LineNumber(lines[0]) {
      InsertStrictly(line, lines[1..]);
      InsertAbove(line, lines[1..], LineNumber(lines[0]));
      PrependStrictly(lines[0], Insert(line, lines[1..]));
    } else {
      PrependStrictly(line, lines);
    }
  }

  lemma {:induction false} SortedStrictly(lines: seq<Record>)
    requires AreLines(lines) && DistinctNumbers(lines)
    ensures StrictlyInOrder(Sorted(lines))
    decreases |lines|
  {
    if lines != [] {
      SortedStrictly(lines[1..]);
      var rest := Sorted(lines[1..]);
      forall i | 0 <= i < |rest| ensures LineNumber(rest[i]) != LineNumber(lines[0]) {
        assert rest[i] in multiset(rest);
        assert rest[i] in lines[1..];
      }
      InsertStrictly(lines[0], rest);
    }
  }

  // ---------------------------------------------------------------------------
  // The entry
  // ---------------------------------------------------------------------------

  datatype Payload = Payload(fields: Record, lines: seq<Record>)

  /** "journal_entry.v1" */
  const KIND: Bytes := [106, 111, 117, 114, 110, 97, 108, 95, 101, 110, 116, 114, 121, 46, 118, 49]

  predicate Encodable(p: Payload) {
    RecordOf(p.fields, FIELD_KINDS) && AreLines(p.lines) && 0 < |p.lines| <= U32_MAX
  }

  ghost predicate ClearPayload(p: Payload) {
    ClearRecord(p.fields) && forall i | 0 <= i < |p.lines| :: ClearRecord(p.lines[i])
  }

  /** `None` where the source raises: a missing or oversized field, or no line at all. */
  function EncodeEntry(p: Payload): Option<Bytes> {
    if !Encodable(p) then None
    else Some([CANONICAL_VERSION] + EncBytes(Some(KIND)) + EncRecord(p.fields)
              + EncU32(|p.lines|) + EncLines(Sorted(p.lines)))
  }

  lemma SortedIsClear(lines: seq<Record>)
    requires AreLines(lines)
    requires forall i | 0 <= i < |lines| :: ClearRecord(lines[i])
    ensures |Sorted(lines)| == |lines|
    ensures forall i | 0 <= i < |lines| :: ClearRecord(Sorted(lines)[i])
  {
    var s := Sorted(lines);
    assert |s| == |multiset(s)| == |multiset(lines)| == |lines|;
    forall i | 0 <= i < |s| ensures ClearRecord(s[i]) {
      assert s[i] in multiset(s);
      assert s[i] in lines;
    }
  }

  lemma EntryBytesSplit(p: Payload)
    requires Encodable(p)
    ensures EncodeEntry(p).value ==
            ([CANONICAL_VERSION] + EncBytes(Some(KIND)))
            + (EncRecord(p.fields) + (EncU32(|p.lines|) + EncLines(Sorted(p.lines))))
  {
    var head := [CANONICAL_VERSION] + EncBytes(Some(KIND));
    var fields, count, lines := EncRecord(p.fields), EncU32(|p.lines|), EncLines(Sorted(p.lines));
    Assoc(head + fields, count, lines);
    Assoc(head, fields, count + lines);
  }

  lemma SameBytesSameEntry(p: Payload, q: Payload)
    requires Encodable(p) && Encodable(q) && ClearPayload(p) && ClearPayload(q)
    requires EncodeEntry(p) == EncodeEntry(q)
    ensures p.fields == q.fields && Sorted(p.lines) == Sorted(q.lines)
  {
    var head := [CANONICAL_VERSION] + EncBytes(Some(KIND));
    var a, b := Sorted(p.lines), Sorted(q.lines);
    var x, y := EncU32(|p.lines|) + EncLines(a), EncU32(|q.lines|) + EncLines(b);
    EntryBytesSplit(p);
    EntryBytesSplit(q);
    Cancel(head, head, EncRecord(p.fields) + x, EncRecord(q.fields) + y);
    RecordUnique(p.fields, q.fields, FIELD_KINDS, x, y);
    U32Unique(|p.lines|, |q.lines|, EncLines(a), EncLines(b));
    SortedIsClear(p.lines);
    SortedIsClear(q.lines);
    LinesUnique(a, b);
  }

  /** The encoding has one reading. Two entries have the same bytes exactly when they agree in
      every field and, taken in line order, in every line. */
  lemma EncodingIsUnambiguous(p: Payload, q: Payload)
    requires Encodable(p) && Encodable(q) && ClearPayload(p) && ClearPayload(q)
    ensures EncodeEntry(p) == EncodeEntry(q) <==>
            p.fields == q.fields && Sorted(p.lines) == Sorted(q.lines)
  {
    if EncodeEntry(p) == EncodeEntry(q) {
      SameBytesSameEntry(p, q);
    }
    SortedIsClear(p.lines);
    SortedIsClear(q.lines);
  }

  /** The order in which a bundle happens to list its lines does not matter. */
  lemma LineOrderDoesNotMatter(p: Payload, q: Payload)
    requires Encodable(p) && Encodable(q)
    requires p.fields == q.fields && multiset(p.lines) == multiset(q.lines)
    requires DistinctNumbers(p.lines) && DistinctNumbers(q.lines)
    ensures EncodeEntry(p) == EncodeEntry(q)
  {
    SortedStrictly(p.lines);
    SortedStrictly(q.lines);
    OrderIsUnique(Sorted(p.lines), Sorted(q.lines));
    assert |p.lines| == |multiset(p.lines)| == |multiset(q.lines)| == |q.lines|;
  }

  // ---------------------------------------------------------------------------
  // What the bytes say
  // ---------------------------------------------------------------------------

  /** A length or a number is four bytes, most significant first. */
  lemma U32ReadsBack(n: nat)
    requires n <= U32_MAX
    ensures |EncU32(n)| == 4 && BigEndian.Decode(EncU32(n)) == n
  {
    BigEndian.Widths();
    BigEndian.RoundTrip(n, 4);
  }

  /** A text is its length and then its bytes; an absent one is four bytes of ones alone. */
  lemma TextReadsBack(t: Bytes)
    requires |t| <= U32_MAX
    ensures var b := EncBytes(Some(t));
            |b| == 4 + |t| && BigEndian.Decode(b[..4]) == |t| && b[4..] == t
    ensures BigEndian.Decode(EncBytes(None)) == 0xFFFF_FFFF && |EncBytes(None)| == 4
  {
    U32ReadsBack(|t|);
    U32ReadsBack(ABSENT);
    assert (EncU32(|t|) + t)[..4] == EncU32(|t|);
  }

  /** An amount is sixteen bytes in two's complement. */
  lemma IntReadsBack(v: int)
    requires -I128_MAX - 1 <= v <= I128_MAX
    ensures var n := BigEndian.Decode(EncInt(v));
            |EncInt(v)| == 16 && v == if n <= I128_MAX then n else n - 2 * (I128_MAX + 1)
  {
    BigEndian.Widths();
    BigEndian.RoundTrip(if v < 0 then v + 2 * (I128_MAX + 1) else v, 16);
  }

  /** A date is the number whose decimal digits are year, month and day. */
  lemma DateReadsBack(d: Date)
    requires DateValue(Some(d)).Typed()
    ensures var n := BigEndian.Decode(EncDate(Some(d)));
            n % 100 == d.day && n / 100 % 100 == d.month && n / 100 / 100 == d.year
    ensures BigEndian.Decode(EncDate(None)) == 0xFFFF_FFFF
  {
    U32ReadsBack(d.year * 10_000 + d.month * 100 + d.day);
    U32ReadsBack(ABSENT);
    LastTwoDigits(d.year * 100 + d.month, d.day);
    LastTwoDigits(d.year, d.month);
  }

  lemma LastTwoDigits(q: nat, r: nat)
    requires r < 100
    ensures (q * 100 + r) % 100 == r && (q * 100 + r) / 100 == q
  {
  }

  /** An instant is its milliseconds in eight bytes. */
  lemma InstantReadsBack(m: nat)
    requires m <= U64_MAX
    ensures |EncInstant(Some(m))| == 8 && BigEndian.Decode(EncInstant(Some(m))) == m
    ensures |EncInstant(None)| == 4 && BigEndian.Decode(EncInstant(None)) == 0xFFFF_FFFF
  {
    BigEndian.Widths();
    BigEndian.RoundTrip(m, 8);
    U32ReadsBack(ABSENT);
  }

  /** The bytes of an entry: version 1, the sixteen letters "journal_entry.v1" behind their length,
      the fields, the number of lines in four bytes, and the lines in the order of their numbers. */
  lemma EntryLayout(p: Payload)
    requires Encodable(p)
    ensures var b, fields := EncodeEntry(p).value, EncRecord(p.fields);
            && |b| >= 25 + |fields|
            && b[0] == 1 && BigEndian.Decode(b[1..5]) == 16 && b[5..21] == KIND
            && b[21..21 + |fields|] == fields
            && BigEndian.Decode(b[21 + |fields|..25 + |fields|]) == |p.lines|
            && b[25 + |fields|..] == EncLines(Sorted(p.lines))
  {
    EntryBytesSplit(p);
    U32ReadsBack(16);
    U32ReadsBack(|p.lines|);
    var head := [CANONICAL_VERSION] + EncBytes(Some(KIND));
    HeadLayout();
    Layout(head, EncRecord(p.fields), EncU32(|p.lines|), EncLines(Sorted(p.lines)));
  }

  lemma HeadLayout()
    ensures var head := [CANONICAL_VERSION] + EncBytes(Some(KIND));
            |head| == 21 && head[0] == 1 && head[1..5] == EncU32(16) && head[5..] == KIND
  {
    assert |KIND| == 16;
    var head := [CANONICAL_VERSION] + EncBytes(Some(KIND));
    assert head == [CANONICAL_VERSION] + (EncU32(16) + KIND);
  }

  lemma Layout(head: Bytes, fields: Bytes, count: Bytes, lines: Bytes)
    requires |head| == 21 && |count| == 4
    ensures var b := head + (fields + (count + lines));
            && |b| >= 25 + |fields| && b[0] == head[0] && b[1..5] == head[1..5] && b[5..21] == head[5..]
            && b[21..21 + |fields|] == fields && b[21 + |fields|..25 + |fields|] == count
            && b[25 + |fields|..] == lines
  {
  }
}
