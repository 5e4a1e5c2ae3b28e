/**
 * The case-base table ACABrd and the native queries of its repository:
 * the active-row lookups by personal id and by card number, and the
 * "greatest suffix + 1, zero padded" generators for new ids and card numbers.
 */
module AcaBrdRepository {
  import opened Wrappers
  import opened Sequences
  import opened Calendar
  import opened SqlText

  /** One ACABrd row, with the columns the core reads (NULL is `None`). */
  datatype AcaBrd = AcaBrd(
    id: string,
    acaCardNo: Option<string>,
    acaIdNo: Option<string>,
    acaName: Option<string>,
    acaBirth: Option<DateTime>,
    createdByBranchId: Option<string>,
    createdOnDate: Option<DateTime>,
    modifiedByUserId: Option<string>,
    isDeleted: Option<int>,
    isErase: Option<int>)

  /** (IsDeleted = 0 OR IsDeleted IS NULL): the notion of "active" these queries use. */
  predicate ActiveOrNull(isDeleted: Option<int>) {
    isDeleted.None? || isDeleted == Some(0)
  }

  /** ACAIDNo = :personalId AND (IsDeleted = 0 OR IsDeleted IS NULL). */
  function WithIdNo(personalId: string): AcaBrd -> bool {
    (r: AcaBrd) => SqlMatch(r.acaIdNo, personalId) && ActiveOrNull(r.isDeleted)
  }

  /** ACACardNo = :cardNo AND (IsDeleted = 0 OR IsDeleted IS NULL). */
  function WithCardNo(cardNo: string): AcaBrd -> bool {
    (r: AcaBrd) => SqlMatch(r.acaCardNo, cardNo) && ActiveOrNull(r.isDeleted)
  }

  /** ORDER BY CreatedOnDate DESC. */
  predicate CreatedDesc(a: AcaBrd, b: AcaBrd) {
    DescNullsLast(a.createdOnDate, b.createdOnDate)
  }

  lemma CreatedDescPreorder()
    ensures TotalPreorder(CreatedDesc)
  {
    forall a: AcaBrd, b: AcaBrd, c: AcaBrd
      ensures CreatedDesc(a, b) || CreatedDesc(b, a)
      ensures CreatedDesc(a, b) && CreatedDesc(b, c) ==> CreatedDesc(a, c)
    {
      DescNullsLastPreorder(a.createdOnDate, b.createdOnDate, c.createdOnDate);
    }
  }

  function CardNoOf(r: AcaBrd): Option<string> {
    r.acaCardNo
  }

  /** The active rows of a personal id, newest first. */
  function ActiveRowsByPersonalId(table: seq<AcaBrd>, personalId: string): (rows: seq<AcaBrd>)
    ensures multiset(rows) == multiset(Filter(table, WithIdNo(personalId)))
    ensures SortedBy(rows, CreatedDesc)
  {
    CreatedDescPreorder();
    SortBy(Filter(table, WithIdNo(personalId)), CreatedDesc)
  }

  /** findActiveCardNosByPersonalId: the card numbers of the active rows of a personal id, newest row first. */
  function FindActiveCardNosByPersonalId(table: seq<AcaBrd>, personalId: string): (cards: seq<Option<string>>)
    ensures multiset(cards) == multiset(MapSeq(Filter(table, WithIdNo(personalId)), CardNoOf))
    ensures exists rows :: cards == MapSeq(rows, CardNoOf) && SortedBy(rows, CreatedDesc)
                            && multiset(rows) == multiset(Filter(table, WithIdNo(personalId)))
  {
    var rows := ActiveRowsByPersonalId(table, personalId);
    MapSeqMultiset(rows, Filter(table, WithIdNo(personalId)), CardNoOf);
    MapSeq(rows, CardNoOf)
  }

  /** A card number comes back exactly when some active row of that personal id carries it. */
  lemma CardNosExactly(table: seq<AcaBrd>, personalId: string, card: Option<string>)
    ensures card in FindActiveCardNosByPersonalId(table, personalId)
        <==> exists r :: r in table && SqlMatch(r.acaIdNo, personalId) && ActiveOrNull(r.isDeleted) && r.acaCardNo == card
  {
    var sel := Filter(table, WithIdNo(personalId));
    var cards := FindActiveCardNosByPersonalId(table, personalId);
    assert card in cards <==> card in MapSeq(sel, CardNoOf) by {
      assert card in cards <==> card in multiset(cards);
      assert card in MapSeq(sel, CardNoOf) <==> card in multiset(MapSeq(sel, CardNoOf));
    }
    InMapSeq(sel, CardNoOf, card);
    InFilter(table, WithIdNo(personalId));
  }

  /** findTopActiveByAcaCardNo: the newest active row of a card number, or empty. */
  function FindTopActiveByAcaCardNo(table: seq<AcaBrd>, cardNo: string): (r: Option<AcaBrd>)
    ensures r.None? <==> forall x :: x in table ==> !(SqlMatch(x.acaCardNo, cardNo) && ActiveOrNull(x.isDeleted))
    ensures r.Some? ==> r.value in table && SqlMatch(r.value.acaCardNo, cardNo) && ActiveOrNull(r.value.isDeleted)
    ensures r.Some? ==> forall x :: x in table && SqlMatch(x.acaCardNo, cardNo) && ActiveOrNull(x.isDeleted)
                                    ==> DescNullsLast(r.value.createdOnDate, x.createdOnDate)
  {
    var sel := Filter(table, WithCardNo(cardNo));
    CreatedDescPreorder();
    InFilter(table, WithCardNo(cardNo));
    if sel == [] then None else Some(Top(sel, CreatedDesc))
  }

  /** findTopActiveByPersonalId: the newest active row of a personal id, or empty. */
  function FindTopActiveByPersonalId(table: seq<AcaBrd>, personalId: string): (r: Option<AcaBrd>)
    ensures r.None? <==> forall x :: x in table ==> !(SqlMatch(x.acaIdNo, personalId) && ActiveOrNull(x.isDeleted))
    ensures r.Some? ==> r.value in table && SqlMatch(r.value.acaIdNo, personalId) && ActiveOrNull(r.value.isDeleted)
    ensures r.Some? ==> forall x :: x in table && SqlMatch(x.acaIdNo, personalId) && ActiveOrNull(x.isDeleted)
                                    ==> DescNullsLast(r.value.createdOnDate, x.createdOnDate)
  {
    var sel := Filter(table, WithIdNo(personalId));
    CreatedDescPreorder();
    InFilter(table, WithIdNo(personalId));
    if sel == [] then None else Some(Top(sel, CreatedDesc))
  }

  /**
   * Two active rows of one person that share a card number list that card
   * twice: the card numbers are not made distinct.
   */
  lemma {:induction false} SameCardListedTwice(r1: AcaBrd, r2: AcaBrd, personalId: string)
    requires WithIdNo(personalId)(r1) && WithIdNo(personalId)(r2) && r1.acaCardNo == r2.acaCardNo
    ensures FindActiveCardNosByPersonalId([r1, r2], personalId) == [r1.acaCardNo, r1.acaCardNo]
  {
    var table := [r1, r2];
    var c := r1.acaCardNo;
    FilterAll(table, WithIdNo(personalId));
    var m := MapSeq(table, CardNoOf);
    assert m[0] == c && m[1] == c;
    assert m == [c, c];
    TwoOfOne(FindActiveCardNosByPersonalId(table, personalId), c);
  }

  /** The newest active row of the only card of a person is that card's newest active row. */
  lemma {:induction false} TopByPersonalIdCard(table: seq<AcaBrd>, personalId: string)
    requires FindTopActiveByPersonalId(table, personalId).Some?
    ensures FindActiveCardNosByPersonalId(table, personalId) != []
    ensures FindTopActiveByPersonalId(table, personalId).value.acaCardNo in FindActiveCardNosByPersonalId(table, personalId)
  {
    var r := FindTopActiveByPersonalId(table, personalId).value;
    CardNosExactly(table, personalId, r.acaCardNo);
  }

  /** The condition of the derived query on ACAIDNo: IS NULL for a NULL argument, = otherwise. */
  predicate IdNoMatches(column: Option<string>, acaIdNo: Option<string>) {
    if acaIdNo.None? then column.None? else SqlMatch(column, acaIdNo.value)
  }

  /**
   * findByAcaIdNo: a row with that personal id, deleted or not; a NULL
   * argument selects the rows whose ACAIDNo IS NULL.
   */
  function FindByAcaIdNo(table: seq<AcaBrd>, acaIdNo: Option<string>): (r: Option<AcaBrd>)
    ensures r.None? <==> forall x :: x in table ==> !IdNoMatches(x.acaIdNo, acaIdNo)
    ensures r.Some? ==> r.value in table && IdNoMatches(r.value.acaIdNo, acaIdNo)
  {
    if table == [] then None
    else if IdNoMatches(table[0].acaIdNo, acaIdNo) then Some(table[0])
    else
      assert forall x :: x in table ==> x == table[0] || x in table[1..];
      FindByAcaIdNo(table[1..], acaIdNo)
  }

  // ---- id generation ----

  /** CAST(i AS VARCHAR(w)): the text of i, or '*' when it does not fit. */
  function CastVarchar(i: int, w: nat): (s: string)
    ensures |s| <= w || s == "*"
  {
    if |IntText(i)| <= w then IntText(i) else "*"
  }

  /**
   * RIGHT(REPLICATE('0', w) + CAST(ISNULL(SUBSTRING(MAX(v), start, w), 0) + 1 AS VARCHAR(w)), w)
   * over the values v the LIKE pattern selects. ISNULL gives the text '0' (the type of its
   * first argument); the text is then converted to int, which fails on a non-numeric suffix.
   */
  function Generate(values: seq<string>, start: nat, w: nat): (r: Result<string, ConversionError>)
    ensures r.Ok? ==> |r.value| == w
  {
    var parsed := ToInt(SuffixText(values, start, w));
    if parsed.Err? then Err(parsed.error) else Ok(PadNumber(parsed.value + 1, w))
  }

  /** RIGHT(REPLICATE('0', w) + CAST(k AS VARCHAR(w)), w). */
  function PadNumber(k: int, w: nat): (s: string)
    ensures |s| == w
  {
    Right(Replicate('0', w) + CastVarchar(k, w), w)
  }

  /** ISNULL(SUBSTRING(MAX(v), start, w), 0): the suffix of the greatest value, '0' on no rows. */
  function SuffixText(values: seq<string>, start: nat, w: nat): string {
    var m := LexMax(values);
    if m.None? then "0" else Substring(m.value, start, w)
  }

  function IdOf(r: AcaBrd): Option<string> {
    Some(r.id)
  }

  /**
   * The values of a column over the rows the LIKE pattern (a predicate here)
   * selects, in table order; NULL is LIKE no pattern, and MAX skips it.
   */
  function Matching(table: seq<AcaBrd>, column: AcaBrd -> Option<string>, like: string -> bool): (vs: seq<string>)
    ensures forall v :: v in vs <==> exists r :: r in table && column(r) == Some(v) && like(v)
    ensures (forall r :: r in table ==> column(r).None? || !like(column(r).value)) ==> vs == []
  {
    if table == [] then []
    else
      var c := column(table[0]);
      var rest := Matching(table[1..], column, like);
      assert forall r :: r in table <==> r == table[0] || r in table[1..];
      if c.Some? && like(c.value) then [c.value] + rest else rest
  }

  /** genNewId: five characters from the number at characters 8-12 of the greatest matching id. */
  function GenNewId(table: seq<AcaBrd>, like: string -> bool): (r: Result<string, ConversionError>)
    ensures r.Ok? ==> |r.value| == 5
  {
    Generate(Matching(table, IdOf, like), 8, 5)
  }

  /** genNewAcaCardNo: four characters from the number at characters 4-7 of the greatest matching card number. */
  function GenNewAcaCardNo(table: seq<AcaBrd>, like: string -> bool): (r: Result<string, ConversionError>)
    ensures r.Ok? ==> |r.value| == 4
  {
    Generate(Matching(table, CardNoOf, like), 4, 4)
  }

  /** genNewId is the greatest matching id's five-digit number plus one, while that still fits in five digits. */
  lemma {:induction false} GenNewIdNext(table: seq<AcaBrd>, like: string -> bool, n: nat)
    requires ToInt(SuffixText(Matching(table, IdOf, like), 8, 5)) == Ok(n)
    requires n + 1 < Pow10(5)
    ensures GenNewId(table, like).Ok? && AllDigits(GenNewId(table, like).value)
    ensures DigitsValue(GenNewId(table, like).value) == n + 1
  {
    GenerateNext(Matching(table, IdOf, like), 8, 5, n);
  }

  /** genNewAcaCardNo is the greatest matching card's four-digit number plus one, while that still fits. */
  lemma {:induction false} GenNewAcaCardNoNext(table: seq<AcaBrd>, like: string -> bool, n: nat)
    requires ToInt(SuffixText(Matching(table, CardNoOf, like), 4, 4)) == Ok(n)
    requires n + 1 < Pow10(4)
    ensures GenNewAcaCardNo(table, like).Ok? && AllDigits(GenNewAcaCardNo(table, like).value)
    ensures DigitsValue(GenNewAcaCardNo(table, like).value) == n + 1
  {
    GenerateNext(Matching(table, CardNoOf, like), 4, 4, n);
  }

  /**
   * When every matching id is a seven-character prefix and five digits, below
   * 99999, genNewId gives a number above, and so different from, that of every
   * matching row.
   */
  lemma {:induction false} GenNewIdFresh(table: seq<AcaBrd>, like: string -> bool, prefix: string)
    requires |prefix| == 7 && FixedWidth(Matching(table, IdOf, like), prefix, 5)
    requires forall k :: 0 <= k < |Matching(table, IdOf, like)| ==>
               DigitsValue(Matching(table, IdOf, like)[k][|prefix|..]) + 1 < Pow10(5)
    ensures GenNewId(table, like).Ok? && AllDigits(GenNewId(table, like).value)
    ensures forall r :: r in table && like(r.id) ==>
              |r.id| == 12 && AllDigits(r.id[7..]) && r.id[7..] != GenNewId(table, like).value
              && DigitsValue(r.id[7..]) < DigitsValue(GenNewId(table, like).value)
  {
    var vs := Matching(table, IdOf, like);
    GenerateFresh(vs, prefix, 5);
    forall r | r in table && like(r.id)
      ensures |r.id| == 12 && AllDigits(r.id[7..]) && r.id[7..] != GenNewId(table, like).value
              && DigitsValue(r.id[7..]) < DigitsValue(GenNewId(table, like).value)
    {
      assert IdOf(r) == Some(r.id);
      assert r.id in vs;
      var k :| 0 <= k < |vs| && vs[k] == r.id;
    }
  }

  /** The same for genNewAcaCardNo: a three-character prefix and four digits, below 9999. */
  lemma {:induction false} GenNewAcaCardNoFresh(table: seq<AcaBrd>, like: string -> bool, prefix: string)
    requires |prefix| == 3 && FixedWidth(Matching(table, CardNoOf, like), prefix, 4)
    requires forall k :: 0 <= k < |Matching(table, CardNoOf, like)| ==>
               DigitsValue(Matching(table, CardNoOf, like)[k][|prefix|..]) + 1 < Pow10(4)
    ensures GenNewAcaCardNo(table, like).Ok? && AllDigits(GenNewAcaCardNo(table, like).value)
    ensures forall r :: r in table && r.acaCardNo.Some? && like(r.acaCardNo.value) ==>
              var c := r.acaCardNo.value;
              |c| == 7 && AllDigits(c[3..]) && c[3..] != GenNewAcaCardNo(table, like).value
              && DigitsValue(c[3..]) < DigitsValue(GenNewAcaCardNo(table, like).value)
  {
    var vs := Matching(table, CardNoOf, like);
    GenerateFresh(vs, prefix, 4);
    forall r | r in table && r.acaCardNo.Some? && like(r.acaCardNo.value)
      ensures var c := r.acaCardNo.value;
              |c| == 7 && AllDigits(c[3..]) && c[3..] != GenNewAcaCardNo(table, like).value
              && DigitsValue(c[3..]) < DigitsValue(GenNewAcaCardNo(table, like).value)
    {
      assert CardNoOf(r) == Some(r.acaCardNo.value);
      assert r.acaCardNo.value in vs;
      var k :| 0 <= k < |vs| && vs[k] == r.acaCardNo.value;
    }
  }

  /** RIGHT(REPLICATE('0', w) + d, w) for a d no longer than w: d with leading zeros. */
  lemma PadRight(d: string, w: nat)
    requires |d| <= w
    ensures Right(Replicate('0', w) + d, w) == Replicate('0', w - |d|) + d
  {
    var t := Replicate('0', w) + d;
    assert t[|t| - w..] == Replicate('0', w - |d|) + d;
  }

  /** When n + 1 fits in w digits the generator returns it zero padded to w digits. */
  lemma {:induction false} GenerateNext(values: seq<string>, start: nat, w: nat, n: nat)
    requires w >= 1
    requires ToInt(SuffixText(values, start, w)) == Ok(n)
    requires n + 1 < Pow10(w)
    ensures Generate(values, start, w).Ok?
    ensures AllDigits(Generate(values, start, w).value)
    ensures DigitsValue(Generate(values, start, w).value) == n + 1
  {
    var d := Decimal(n + 1);
    GenerateUnfold(values, start, w, n);
    PadNumberFits(n + 1, w);
    DigitsValueZeros(Replicate('0', w - |d|), d);
    DecimalValue(n + 1);
  }

  /** With no matching value the generated suffix is 1, zero padded. */
  lemma {:induction false} GenerateEmpty(start: nat, w: nat)
    requires w >= 1
    ensures Generate([], start, w) == Ok(Replicate('0', w - 1) + Decimal(1))
  {
    GenerateOne(start, w);
    PadOne(w);
  }

  lemma GenerateOne(start: nat, w: nat)
    ensures Generate([], start, w) == Ok(PadNumber(1, w))
  {
    SuffixOfNone(start, w);
    GenerateUnfold([], start, w, 0);
  }

  lemma PadOne(w: nat)
    requires w >= 1
    ensures PadNumber(1, w) == Replicate('0', w - 1) + Decimal(1)
  {
    assert Pow10(w) == 10 * Pow10(w - 1);
    PadNumberFits(1, w);
    assert |Decimal(1)| == 1;
  }

  lemma SuffixOfNone(start: nat, w: nat)
    ensures ToInt(SuffixText([], start, w)) == Ok(0)
  {
    ToIntZero();
  }

  /** A number that fits in w digits is padded with zeros on the left. */
  lemma PadNumberFits(k: nat, w: nat)
    requires w >= 1 && k < Pow10(w)
    ensures |Decimal(k)| <= w
    ensures PadNumber(k, w) == Replicate('0', w - |Decimal(k)|) + Decimal(k)
  {
    CastFits(k, w);
    PadRight(Decimal(k), w);
  }

  lemma ZerosOne()
    ensures Replicate('0', 4) + Decimal(1) == "00001"
    ensures Replicate('0', 3) + Decimal(1) == "0001"
  {
    assert Decimal(1) == "1";
    assert Replicate('0', 4) == "0000";
    assert Replicate('0', 3) == "000";
  }

  /** With no matching rows the results are "00001" for ids and "0001" for card numbers. */
  lemma {:induction false} GenerateOnEmpty(table: seq<AcaBrd>, like: string -> bool)
    requires forall r :: r in table ==> !like(r.id) && (r.acaCardNo.None? || !like(r.acaCardNo.value))
    ensures GenNewId(table, like) == Ok("00001")
    ensures GenNewAcaCardNo(table, like) == Ok("0001")
  {
    assert Matching(table, IdOf, like) == [];
    assert Matching(table, CardNoOf, like) == [];
    GenerateEmpty(8, 5);
    GenerateEmpty(4, 4);
    ZerosOne();
  }

  /** Values made of one fixed prefix of start - 1 characters and a suffix of exactly w digits. */
  predicate FixedWidth(values: seq<string>, prefix: string, w: nat) {
    forall k :: 0 <= k < |values| ==>
      |values[k]| == |prefix| + w && values[k][..|prefix|] == prefix && AllDigits(values[k][|prefix|..])
  }

  function Suffix(x: string, prefix: string): string
    requires |prefix| <= |x|
  {
    x[|prefix|..]
  }

  /** The string order of two values with one prefix is that of their suffixes. */
  lemma {:induction false} LexLeCommonPrefix(p: string, a: string, b: string)
    ensures LexLe(p + a, p + b) <==> LexLe(a, b)
    decreases |p|
  {
    if p != [] {
      assert (p + a)[0] == (p + b)[0];
      assert (p + a)[1..] == p[1..] + a && (p + b)[1..] == p[1..] + b;
      LexLeCommonPrefix(p[1..], a, b);
    } else {
      assert p + a == a && p + b == b;
    }
  }

  /**
   * Freshness: when every matching value is the prefix followed by w digits and the greatest
   * suffix + 1 still fits in w digits, the generated suffix is greater than every existing one.
   */
  lemma {:induction false} GenerateFresh(values: seq<string>, prefix: string, w: nat)
    requires w >= 1
    requires FixedWidth(values, prefix, w)
    requires forall k :: 0 <= k < |values| ==> DigitsValue(values[k][|prefix|..]) + 1 < Pow10(w)
    ensures Generate(values, |prefix| + 1, w).Ok?
    ensures AllDigits(Generate(values, |prefix| + 1, w).value)
    ensures forall k :: 0 <= k < |values| ==>
              DigitsValue(values[k][|prefix|..]) < DigitsValue(Generate(values, |prefix| + 1, w).value)
    ensures forall k :: 0 <= k < |values| ==> values[k][|prefix|..] != Generate(values, |prefix| + 1, w).value
  {
    var start := |prefix| + 1;
    var m := LexMax(values);
    if m.None? {
      ToIntZero();
      GenerateNext(values, start, w, 0);
    } else {
      var mk :| 0 <= mk < |values| && values[mk] == m.value;
      var ms := values[mk][|prefix|..];
      MaxSuffixText(values, prefix, w, mk);
      ToIntDigits(ms);
      var n := DigitsValue(ms);
      GenerateNext(values, start, w, n);
      forall k | 0 <= k < |values|
        ensures DigitsValue(values[k][|prefix|..]) <= n
      {
        SuffixAtMostMax(values, prefix, w, k, mk);
      }
    }
  }

  lemma ToIntZero()
    ensures ToInt("0") == Ok(0)
  {
    var z := "0";
    ToIntDigits(z);
    assert DigitsValue(z) == 0;
  }

  /** SUBSTRING of a fixed-width value at the suffix position is its suffix. */
  lemma MaxSuffixText(values: seq<string>, prefix: string, w: nat, mk: nat)
    requires FixedWidth(values, prefix, w) && mk < |values|
    ensures Substring(values[mk], |prefix| + 1, w) == values[mk][|prefix|..]
  {
    SubstringInside(values[mk], |prefix| + 1, w);
  }

  /** A value below the greatest one in string order has a suffix no greater in value. */
  lemma SuffixAtMostMax(values: seq<string>, prefix: string, w: nat, k: nat, mk: nat)
    requires FixedWidth(values, prefix, w) && k < |values| && mk < |values|
    requires LexLe(values[k], values[mk])
    ensures DigitsValue(values[k][|prefix|..]) <= DigitsValue(values[mk][|prefix|..])
  {
    var xs, ms := values[k][|prefix|..], values[mk][|prefix|..];
    assert values[k] == prefix + xs;
    assert values[mk] == prefix + ms;
    LexLeCommonPrefix(prefix, xs, ms);
    LexLeDigits(xs, ms);
  }

  /**
   * The overflow case: when the greatest suffix + 1 needs more than w digits, CAST to VARCHAR(w)
   * gives '*' and the result is w - 1 zeros and '*' (for ids: '0000*' after suffix 99999).
   */
  lemma {:induction false} GenerateOverflow(values: seq<string>, start: nat, w: nat, n: nat)
    requires w >= 1
    requires ToInt(SuffixText(values, start, w)) == Ok(n)
    requires n + 1 >= Pow10(w)
    ensures Generate(values, start, w) == Ok(Replicate('0', w - 1) + "*")
  {
    GenerateUnfold(values, start, w, n);
    CastOverflow(n + 1, w);
    PadStar(w);
  }

  lemma PadStar(w: nat)
    requires w >= 1
    ensures Right(Replicate('0', w) + "*", w) == Replicate('0', w - 1) + "*"
  {
    PadRight("*", w);
  }

  lemma CastOverflow(k: nat, w: nat)
    requires w >= 1 && k >= Pow10(w)
    ensures CastVarchar(k, w) == "*"
  {
    DecimalLength(k, w);
  }

  lemma CastFits(k: nat, w: nat)
    requires w >= 1 && k < Pow10(w)
    ensures CastVarchar(k, w) == Decimal(k) && |Decimal(k)| <= w
  {
    DecimalLength(k, w);
  }

  lemma GenerateUnfold(values: seq<string>, start: nat, w: nat, n: int)
    requires ToInt(SuffixText(values, start, w)) == Ok(n)
    ensures Generate(values, start, w) == Ok(PadNumber(n + 1, w))
  {
  }
}
