/** Why the canonical encoding is unambiguous only for texts that are not of the one length that
    stands for an absent text: two different entries with the same bytes. */
module CanonicalLimit {
  import opened Basics
  import opened Bytes
  import opened Canonical
  import BigEndian

  function Zeros(n: nat): (z: Bytes)
    ensures |z| == n && forall i | 0 <= i < n :: z[i] == 0
  {
    seq(n, _ => 0 as Byte)
  }

  lemma ZerosJoin(m: nat, n: nat)
    ensures Zeros(m) + Zeros(n) == Zeros(m + n)
  {
  }

  /** A third of the length that stands for an absent text. */
  const THIRD: nat := 0x5555_5555

  /** The number four letters U stand for. */
  lemma ThirdIsLetters()
    ensures EncU32(THIRD) == [0x55, 0x55, 0x55, 0x55] && 3 * THIRD == ABSENT
  {
    assert BigEndian.Encode(0x55, 1) == [0x55];
    assert BigEndian.Encode(0x5555, 2) == [0x55, 0x55];
    assert BigEndian.Encode(0x55_5555, 3) == [0x55, 0x55, 0x55];
  }

  lemma ZeroIsZeros()
    ensures EncU32(0) == Zeros(4)
  {
    assert BigEndian.Encode(0, 1) == Zeros(1);
    assert BigEndian.Encode(0, 2) == Zeros(2);
    assert BigEndian.Encode(0, 3) == Zeros(3);
  }

  /** A third of the length, and as many zero bytes. */
  function Piece(n: nat): Bytes {
    EncU32(THIRD) + Zeros(n)
  }

  /** An ASCII text of exactly the length that stands for an absent one. It reads as three texts
      of a third of that length, the last one cut short by twelve bytes. */
  function LongText(): Bytes {
    Piece(THIRD) + (Piece(THIRD) + Piece(THIRD - 12))
  }

  lemma LongTextIsAscii()
    ensures |LongText()| == ABSENT
    ensures forall i | 0 <= i < |LongText()| :: LongText()[i] < 0x80
  {
    ThirdIsLetters();
    PieceIsAscii(THIRD);
    PieceIsAscii(THIRD - 12);
  }

  lemma PieceIsAscii(n: nat)
    ensures |Piece(n)| == n + 4 && forall i | 0 <= i < |Piece(n)| :: Piece(n)[i] < 0x80
  {
    ThirdIsLetters();
  }

  /** The twelve bytes that were cut off are those of three empty texts. */
  lemma CutOffIsThreeEmptyTexts()
    ensures LongText() + (EncU32(0) + (EncU32(0) + EncU32(0))) == Piece(THIRD) + (Piece(THIRD) + Piece(THIRD))
  {
    ZeroIsZeros();
    ZerosJoin(4, 4);
    ZerosJoin(4, 8);
    ZerosJoin(THIRD - 12, 12);
    JoinLast(Piece(THIRD), Piece(THIRD), EncU32(THIRD), Zeros(THIRD - 12), Zeros(12));
  }

  lemma JoinLast(a: Bytes, b: Bytes, c: Bytes, d: Bytes, e: Bytes)
    ensures (a + (b + (c + d))) + e == a + (b + (c + (d + e)))
  {
  }

  /** The texts at places 7 to 10 replaced. */
  function WithTexts(p: Payload, texts: seq<Option<Bytes>>): Payload
    requires |p.fields| == |FIELD_KINDS| && |texts| == 4
  {
    p.(fields := p.fields[..7] + (Texts(texts) + p.fields[11..]))
  }

  function Texts(texts: seq<Option<Bytes>>): (r: Record)
    ensures |r| == |texts|
  {
    seq(|texts|, i requires 0 <= i < |texts| => StrValue(texts[i]))
  }

  lemma WithTextsIsEncodable(p: Payload, texts: seq<Option<Bytes>>)
    requires Encodable(p) && |texts| == 4
    requires forall i | 0 <= i < 4 :: texts[i].Some? ==> |texts[i].value| <= U32_MAX
    ensures Encodable(WithTexts(p, texts))
  {
    var fields := WithTexts(p, texts).fields;
    forall i | 0 <= i < |fields| ensures fields[i].Kind() == FIELD_KINDS[i] && fields[i].Fits() {
      if 7 <= i < 11 {
        assert fields[i] == StrValue(texts[i - 7]);
      } else {
        assert fields[i] == p.fields[i];
      }
    }
  }

  lemma EncRecordFirst(v: Value, rest: Record)
    requires v.Fits() && forall i | 0 <= i < |rest| :: rest[i].Fits()
    ensures EncRecord([v] + rest) == Enc(v) + EncRecord(rest)
  {
    assert ([v] + rest)[1..] == rest;
  }

  predicate AllFit(r: Record) {
    forall i | 0 <= i < |r| :: r[i].Fits()
  }

  lemma FirstOfJoined(first: Value, a: Record, b: Record)
    requires first.Fits() && AllFit(a + b)
    ensures AllFit(([first] + a) + b)
    ensures EncRecord(([first] + a) + b) == Enc(first) + EncRecord(a + b)
  {
    assert ([first] + a) + b == [first] + (a + b);
    EncRecordFirst(first, a + b);
  }

  lemma Regroup(whole: Bytes, left: Bytes, e: Bytes, x: Bytes, y: Bytes)
    requires whole == e + (x + y) && left == e + x
    ensures whole == left + y
  {
    Assoc(e, x, y);
  }

  lemma JoinStep(first: Value, a: Record, b: Record)
    requires first.Fits() && AllFit(a) && AllFit(b) && AllFit(a + b)
    requires EncRecord(a + b) == EncRecord(a) + EncRecord(b)
    ensures AllFit([first] + a) && AllFit(([first] + a) + b)
    ensures EncRecord(([first] + a) + b) == EncRecord([first] + a) + EncRecord(b)
  {
    FirstOfJoined(first, a, b);
    EncRecordFirst(first, a);
    Regroup(EncRecord(([first] + a) + b), EncRecord([first] + a), Enc(first), EncRecord(a), EncRecord(b));
  }

  lemma {:induction false} EncRecordJoins(a: Record, b: Record)
    requires AllFit(a) && AllFit(b)
    ensures AllFit(a + b) && EncRecord(a + b) == EncRecord(a) + EncRecord(b)
    decreases |a|
  {
    if a == [] {
      assert a + b == b;
    } else {
      assert AllFit(a[1..]);
      EncRecordJoins(a[1..], b);
      JoinStep(a[0], a[1..], b);
      assert a == [a[0]] + a[1..];
    }
  }

  lemma FourTexts(texts: seq<Option<Bytes>>)
    requires |texts| == 4 && forall i | 0 <= i < 4 :: texts[i].Some? ==> |texts[i].value| <= U32_MAX
    ensures EncRecord(Texts(texts))
            == EncBytes(texts[0]) + (EncBytes(texts[1]) + (EncBytes(texts[2]) + EncBytes(texts[3])))
  {
    var a, b, c, d := StrValue(texts[0]), StrValue(texts[1]), StrValue(texts[2]), StrValue(texts[3]);
    assert a.Fits() && b.Fits() && c.Fits() && d.Fits();
    EncRecordFirst(d, []);
    EncRecordFirst(c, [d] + []);
    EncRecordFirst(b, [c] + ([d] + []));
    EncRecordFirst(a, [b] + ([c] + ([d] + [])));
    assert Texts(texts) == [a] + ([b] + ([c] + ([d] + [])));
    assert Enc(d) + [] == Enc(d);
  }

  lemma EntryWithTexts(p: Payload, texts: seq<Option<Bytes>>)
    requires Encodable(p) && |texts| == 4 && Encodable(WithTexts(p, texts))
    requires forall i | 0 <= i < 4 :: texts[i].Some? ==> |texts[i].value| <= U32_MAX
    ensures EncRecord(WithTexts(p, texts).fields)
            == EncRecord(p.fields[..7]) + (EncRecord(Texts(texts)) + EncRecord(p.fields[11..]))
  {
    EncRecordJoins(Texts(texts), p.fields[11..]);
    EncRecordJoins(p.fields[..7], Texts(texts) + p.fields[11..]);
  }

  const SHORT: seq<Option<Bytes>> := [None, Some(Zeros(THIRD)), Some(Zeros(THIRD)), Some(Zeros(THIRD))]
  const LONG: seq<Option<Bytes>> := [Some(LongText()), Some([]), Some([]), Some([])]

  lemma SameFourTexts()
    ensures |LongText()| == ABSENT
    ensures EncRecord(Texts(LONG)) == EncRecord(Texts(SHORT))
  {
    LongTextIsAscii();
    ThirdIsLetters();
    FourTexts(LONG);
    FourTexts(SHORT);
    CutOffIsThreeEmptyTexts();
    var e := EncU32(0);
    assert e + [] == e;
    Assoc(EncU32(ABSENT), LongText(), e + (e + e));
  }

  /** The condition of `EncodingIsUnambiguous` is needed. Every entry can be given texts so that
      one clear entry and one that is not, both of ASCII texts, have the same bytes. */
  lemma TwoEntriesShareBytes(p: Payload)
    requires Encodable(p) && ClearPayload(p)
    ensures var a, b := WithTexts(p, SHORT), WithTexts(p, LONG);
            && ClearPayload(a) && !ClearPayload(b) && a.fields != b.fields
            && EncodeEntry(a).Some? && EncodeEntry(a) == EncodeEntry(b)
  {
    SameFourTexts();
    ThirdIsLetters();
    WithTextsIsEncodable(p, SHORT);
    WithTextsIsEncodable(p, LONG);
    EntryWithTexts(p, SHORT);
    EntryWithTexts(p, LONG);
    ShortIsClear(p);
    assert WithTexts(p, LONG).fields[7] == StrValue(Some(LongText()));
    assert WithTexts(p, SHORT).fields[7] == StrValue(None);
  }

  lemma ShortIsClear(p: Payload)
    requires Encodable(p) && ClearPayload(p)
    ensures ClearPayload(WithTexts(p, SHORT))
  {
    var fields := WithTexts(p, SHORT).fields;
    forall i | 0 <= i < |fields| ensures Clear(fields[i]) {
      if 7 <= i < 11 {
        assert fields[i] == StrValue(SHORT[i - 7]);
      } else {
        assert fields[i] == p.fields[i];
      }
    }
  }
}
