/**
 * The read side of the juvenile-record erasure feature: the birth date of a
 * case and the start of its 18th birthday, the counselling (ProRec) and
 * criminal (CrmRec) records made before that day, the hydrators that load
 * records by id and restore the caller's order, the tri-state lookups, the
 * unfiltered id collectors, the counsellor display text and the erasure
 * audit log. Tables are sequences of rows in storage order.
 */
module Aca4001Repository {
  import opened Wrappers
  import opened Sequences
  import opened Calendar
  import opened SqlText
  import opened AcaBrdRepository
  import opened AfterCare
  import opened Aca2003Repository

  // ------------------------------------------------------------------ rows

  /**
   * The counsellor columns a ProRec row is joined with: the area name
   * (Lists ACA_INSTAREA), the InstBrd name and unofficial flag, and the
   * worker the OUTER APPLY finds.
   */
  datatype CounselorJoin = CounselorJoin(
    areaText: Option<string>,
    instName: Option<string>,
    workerId: Option<string>,
    isUnofficial: Option<bool>)

  /** A ProRec row; IsDeleted is a nullable bit. */
  datatype ProRec = ProRec(
    id: string,
    acaCardNo: Option<string>,
    proNoticeDate: Option<DateTime>,
    proDate: Option<DateTime>,
    proCloseDate: Option<DateTime>,
    isDeleted: Option<bool>,
    counselor: CounselorJoin)

  /** A CrmRec row. */
  datatype CrmRec = CrmRec(
    id: string,
    acaCardNo: Option<string>,
    createdOnDate: Option<DateTime>,
    isDeleted: Option<bool>)

  function ProRecId(r: ProRec): string {
    r.id
  }

  function CrmRecId(r: CrmRec): string {
    r.id
  }

  /** CAST(t AS date). */
  function DateOf(t: Option<DateTime>): (d: Option<Date>)
    ensures d.Some? <==> t.Some?
    ensures d.Some? ==> d.value == t.value.date
  {
    if t.None? then None else Some(t.value.date)
  }

  // ------------------------------------------------------ findPersonBirth

  datatype PersonBirth = PersonBirth(birthDate: Option<Date>, eighteenthStart: Option<Date>)

  /**
   * findPersonBirth: the birth date of the first ACABrd row of the card with
   * IsDeleted = 0 and the day it turns 18 (DATEADD(YEAR, 18, ...)); no result
   * when there is no such row.
   */
  function FindPersonBirth(acaBrd: seq<AcaBrd>, cardNo: string): (r: Option<PersonBirth>)
    ensures r.None? <==> forall b :: b in acaBrd ==> !(SqlMatch(b.acaCardNo, cardNo) && b.isDeleted == Some(0))
    ensures r.Some? ==> exists b :: b in acaBrd && SqlMatch(b.acaCardNo, cardNo) && b.isDeleted == Some(0)
                                    && r.value.birthDate == DateOf(b.acaBirth)
    ensures r.Some? ==> (r.value.eighteenthStart.None? <==> r.value.birthDate.None?)
    ensures r.Some? && r.value.birthDate.Some? ==>
              var birth, e := r.value.birthDate.value, r.value.eighteenthStart.value;
              e.year == birth.year + 18 && e.month == birth.month
              && (e.day == birth.day || (birth.month == 2 && birth.day == 29 && e.day == 28))
              && DateLt(birth, e)
  {
    var b := FirstActiveBrd(acaBrd, cardNo);
    if b.None? then None
    else
      var birth := DateOf(b.value.acaBirth);
      if birth.None? then Some(PersonBirth(None, None))
      else
        AddYearsLater(birth.value, 18);
        Some(PersonBirth(birth, Some(AddYears(birth.value, 18))))
  }

  // --------------------------------------------------- before-18 filters

  /**
   * The date conditions both before-18 queries put on their date column d:
   * strictly before the cutoff, and inside the optional inclusive window.
   */
  predicate InBefore18Window(d: Option<DateTime>, eighteenthStart: Option<DateTime>,
                             startTs: Option<DateTime>, endInclusive: Option<DateTime>)
  {
    d.Some? && eighteenthStart.Some? && DateTimeLt(d.value, eighteenthStart.value)
    && (startTs.None? || DateTimeLe(startTs.value, d.value))
    && (endInclusive.None? || DateTimeLe(d.value, endInclusive.value))
  }

  /** The WHERE clause of findProRecIdsBefore18. */
  function ProBefore18(cardNo: string, eighteenthStart: Option<DateTime>,
                       startTs: Option<DateTime>, endInclusive: Option<DateTime>): ProRec -> bool
  {
    (r: ProRec) => r.isDeleted == Some(false) && SqlMatch(r.acaCardNo, cardNo)
                   && InBefore18Window(r.proNoticeDate, eighteenthStart, startTs, endInclusive)
  }

  /** The WHERE clause of findCrmRecIdsBefore18. */
  function CrmBefore18(cardNo: string, eighteenthStart: Option<DateTime>,
                       startTs: Option<DateTime>, endInclusive: Option<DateTime>): CrmRec -> bool
  {
    (r: CrmRec) => r.isDeleted == Some(false) && SqlMatch(r.acaCardNo, cardNo)
                   && InBefore18Window(r.createdOnDate, eighteenthStart, startTs, endInclusive)
  }

  predicate ProNoticeAsc(a: ProRec, b: ProRec) {
    AscNullsFirst(a.proNoticeDate, b.proNoticeDate)
  }

  predicate CrmCreatedAsc(a: CrmRec, b: CrmRec) {
    AscNullsFirst(a.createdOnDate, b.createdOnDate)
  }

  lemma ProNoticeAscPreorder()
    ensures TotalPreorder(ProNoticeAsc)
  {
    forall a: ProRec, b: ProRec, c: ProRec
      ensures ProNoticeAsc(a, b) || ProNoticeAsc(b, a)
      ensures ProNoticeAsc(a, b) && ProNoticeAsc(b, c) ==> ProNoticeAsc(a, c)
    {
      AscNullsFirstPreorder(a.proNoticeDate, b.proNoticeDate, c.proNoticeDate);
    }
  }

  lemma CrmCreatedAscPreorder()
    ensures TotalPreorder(CrmCreatedAsc)
  {
    forall a: CrmRec, b: CrmRec, c: CrmRec
      ensures CrmCreatedAsc(a, b) || CrmCreatedAsc(b, a)
      ensures CrmCreatedAsc(a, b) && CrmCreatedAsc(b, c) ==> CrmCreatedAsc(a, c)
    {
      AscNullsFirstPreorder(a.createdOnDate, b.createdOnDate, c.createdOnDate);
    }
  }

  /**
   * The ProRec rows findProRecIdsBefore18 selects, ORDER BY ProNoticeDate:
   * exactly the non-deleted rows of the card dated strictly before the
   * cutoff and inside the window, earliest first.
   */
  function ProRecsBefore18(table: seq<ProRec>, cardNo: string, eighteenthStart: Option<DateTime>,
                           startTs: Option<DateTime>, endInclusive: Option<DateTime>): (rows: seq<ProRec>)
    ensures multiset(rows) == multiset(Filter(table, ProBefore18(cardNo, eighteenthStart, startTs, endInclusive)))
    ensures forall k :: 0 <= k < |rows| ==>
              rows[k] in table && rows[k].isDeleted == Some(false) && SqlMatch(rows[k].acaCardNo, cardNo)
              && InBefore18Window(rows[k].proNoticeDate, eighteenthStart, startTs, endInclusive)
    ensures forall i, j :: 0 <= i < j < |rows| ==>
              rows[i].proNoticeDate.Some? && rows[j].proNoticeDate.Some?
              && DateTimeLe(rows[i].proNoticeDate.value, rows[j].proNoticeDate.value)
  {
    var sel := ProBefore18(cardNo, eighteenthStart, startTs, endInclusive);
    ProNoticeAscPreorder();
    var rows := SortBy(Filter(table, sel), ProNoticeAsc);
    PermutedFilter(table, sel, rows);
    rows
  }

  /** The CrmRec rows findCrmRecIdsBefore18 selects, ORDER BY CreatedOnDate. */
  function CrmRecsBefore18(table: seq<CrmRec>, cardNo: string, eighteenthStart: Option<DateTime>,
                           startTs: Option<DateTime>, endInclusive: Option<DateTime>): (rows: seq<CrmRec>)
    ensures multiset(rows) == multiset(Filter(table, CrmBefore18(cardNo, eighteenthStart, startTs, endInclusive)))
    ensures forall k :: 0 <= k < |rows| ==>
              rows[k] in table && rows[k].isDeleted == Some(false) && SqlMatch(rows[k].acaCardNo, cardNo)
              && InBefore18Window(rows[k].createdOnDate, eighteenthStart, startTs, endInclusive)
    ensures forall i, j :: 0 <= i < j < |rows| ==>
              rows[i].createdOnDate.Some? && rows[j].createdOnDate.Some?
              && DateTimeLe(rows[i].createdOnDate.value, rows[j].createdOnDate.value)
  {
    var sel := CrmBefore18(cardNo, eighteenthStart, startTs, endInclusive);
    CrmCreatedAscPreorder();
    var rows := SortBy(Filter(table, sel), CrmCreatedAsc);
    PermutedFilter(table, sel, rows);
    rows
  }

  /** findProRecIdsBefore18: the ids of the selected rows, one per row. */
  function FindProRecIdsBefore18(table: seq<ProRec>, cardNo: string, eighteenthStart: Option<DateTime>,
                                 startTs: Option<DateTime>, endInclusive: Option<DateTime>): (ids: seq<string>)
    ensures |ids| == |Filter(table, ProBefore18(cardNo, eighteenthStart, startTs, endInclusive))|
    ensures forall id :: id in ids <==>
              exists r :: r in table && ProBefore18(cardNo, eighteenthStart, startTs, endInclusive)(r) && r.id == id
    ensures var rows := ProRecsBefore18(table, cardNo, eighteenthStart, startTs, endInclusive);
            |ids| == |rows| && forall k :: 0 <= k < |ids| ==> ids[k] == rows[k].id
    ensures eighteenthStart.None? ==> ids == []
  {
    var rows := ProRecsBefore18(table, cardNo, eighteenthStart, startTs, endInclusive);
    SelectedValues(table, ProBefore18(cardNo, eighteenthStart, startTs, endInclusive), rows, ProRecId);
    MapSeq(rows, ProRecId)
  }

  /** findCrmRecIdsBefore18: the ids of the selected rows, one per row. */
  function FindCrmRecIdsBefore18(table: seq<CrmRec>, cardNo: string, eighteenthStart: Option<DateTime>,
                                 startTs: Option<DateTime>, endInclusive: Option<DateTime>): (ids: seq<string>)
    ensures |ids| == |Filter(table, CrmBefore18(cardNo, eighteenthStart, startTs, endInclusive))|
    ensures forall id :: id in ids <==>
              exists r :: r in table && CrmBefore18(cardNo, eighteenthStart, startTs, endInclusive)(r) && r.id == id
    ensures var rows := CrmRecsBefore18(table, cardNo, eighteenthStart, startTs, endInclusive);
            |ids| == |rows| && forall k :: 0 <= k < |ids| ==> ids[k] == rows[k].id
    ensures eighteenthStart.None? ==> ids == []
  {
    var rows := CrmRecsBefore18(table, cardNo, eighteenthStart, startTs, endInclusive);
    SelectedValues(table, CrmBefore18(cardNo, eighteenthStart, startTs, endInclusive), rows, CrmRecId);
    MapSeq(rows, CrmRecId)
  }

  /**
   * The window bounds: a row stamped at the cutoff is left out, one stamped
   * at either bound of the window is kept, and a missing bound admits every
   * date before the cutoff.
   */
  lemma Before18Bounds(d: DateTime, eighteenthStart: DateTime, startTs: Option<DateTime>, endInclusive: Option<DateTime>)
    ensures !InBefore18Window(Some(eighteenthStart), Some(eighteenthStart), startTs, endInclusive)
    ensures DateTimeLt(d, eighteenthStart) ==>
              (InBefore18Window(Some(d), Some(eighteenthStart), None, None)
               && InBefore18Window(Some(d), Some(eighteenthStart), Some(d), Some(d)))
  {
  }

  /**
   * With the start of the 18th birthday as the cutoff, every selected record
   * is dated on a day before that birthday.
   */
  lemma {:induction false} Before18IsBeforeBirthday(table: seq<ProRec>, cardNo: string, birth: Date,
                                                    startTs: Option<DateTime>, endInclusive: Option<DateTime>)
    ensures var rows := ProRecsBefore18(table, cardNo, Some(StartOfDay(AddYears(birth, 18))), startTs, endInclusive);
            forall k :: 0 <= k < |rows| ==> DateLt(rows[k].proNoticeDate.value.date, AddYears(birth, 18))
  {
    var cutoff := StartOfDay(AddYears(birth, 18));
    var rows := ProRecsBefore18(table, cardNo, Some(cutoff), startTs, endInclusive);
    forall k | 0 <= k < |rows|
      ensures DateLt(rows[k].proNoticeDate.value.date, AddYears(birth, 18))
    {
      BeforeStartOfDay(rows[k].proNoticeDate.value, AddYears(birth, 18));
    }
  }

  // ---------------------------------------------- order-restoring hydrators

  const IntegerMaxValue := 2147483647

  /**
   * order.getOrDefault(id, Integer.MAX_VALUE) for the map that puts i for
   * every ids[i] in turn: the last index of id in ids, MAX_VALUE when absent.
   */
  function Position(ids: seq<string>, id: string): (p: int)
    ensures id in ids ==> 0 <= p < |ids| && ids[p] == id && forall j :: p < j < |ids| ==> ids[j] != id
    ensures id !in ids ==> p == IntegerMaxValue
  {
    if ids == [] then IntegerMaxValue
    else if ids[|ids| - 1] == id then |ids| - 1
    else
      assert id in ids ==> id in ids[..|ids| - 1] by {
        if id in ids {
          var k :| 0 <= k < |ids| && ids[k] == id;
          assert ids[..|ids| - 1][k] == id;
        }
      }
      Position(ids[..|ids| - 1], id)
  }

  lemma PositionSnoc(ids: seq<string>, x: string, id: string)
    ensures Position(ids + [x], id) == if id == x then |ids| else Position(ids, id)
  {
    assert (ids + [x])[..|ids|] == ids;
  }

  /** getOrDefault on the order map. */
  function OrderOf(order: map<string, int>, id: string): int {
    if id in order then order[id] else IntegerMaxValue
  }

  /** Comparator.comparingInt(r -> order.getOrDefault(r.getId(), Integer.MAX_VALUE)). */
  function ByOrder<R>(order: map<string, int>, idOf: R -> string): (R, R) -> bool {
    (a: R, b: R) => OrderOf(order, idOf(a)) <= OrderOf(order, idOf(b))
  }

  lemma ByOrderPreorder<R(!new)>(order: map<string, int>, idOf: R -> string)
    ensures TotalPreorder(ByOrder(order, idOf))
  {
  }

  /** Rows in the order of their ids' positions in ids. */
  predicate InInputOrder<R>(rows: seq<R>, idOf: R -> string, ids: seq<string>) {
    forall i, j :: 0 <= i < j < |rows| ==> Position(ids, idOf(rows[i])) <= Position(ids, idOf(rows[j]))
  }

  /**
   * The reordering both hydrators end with: fill the id-to-index map in a
   * loop, then sort the fetched rows by the index of their id.
   */
  method RestoreInputOrder<R(!new)>(rows: seq<R>, idOf: R -> string, ids: seq<string>) returns (sorted: seq<R>)
    ensures multiset(sorted) == multiset(rows)
    ensures InInputOrder(sorted, idOf, ids)
  {
    var order: map<string, int> := map[];
    var i := 0;
    while i < |ids|
      invariant 0 <= i <= |ids|
      invariant forall id :: OrderOf(order, id) == Position(ids[..i], id)
    {
      OrderStep(order, order[ids[i] := i], ids, i);
      order := order[ids[i] := i];
      i := i + 1;
    }
    assert ids[..i] == ids;
    ByOrderPreorder(order, idOf);
    sorted := SortBy(rows, ByOrder(order, idOf));
    assert forall a, b :: ByOrder(order, idOf)(a, b) == (Position(ids, idOf(a)) <= Position(ids, idOf(b)));
  }

  /** Putting ids[i] at index i extends the order map from ids[..i] to ids[..i + 1]. */
  lemma OrderStep(order: map<string, int>, next: map<string, int>, ids: seq<string>, i: nat)
    requires i < |ids| && next == order[ids[i] := i]
    requires forall id :: OrderOf(order, id) == Position(ids[..i], id)
    ensures forall id :: OrderOf(next, id) == Position(ids[..i + 1], id)
  {
    assert ids[..i + 1] == ids[..i] + [ids[i]];
    forall id ensures OrderOf(next, id) == Position(ids[..i + 1], id) {
      PositionSnoc(ids[..i], ids[i], id);
    }
  }

  /** A row whose id is not among the input ids comes after every row whose id is. */
  lemma MissingSortsLast<R>(rows: seq<R>, idOf: R -> string, ids: seq<string>)
    requires InInputOrder(rows, idOf, ids)
    requires |ids| <= IntegerMaxValue
    ensures forall i, j :: 0 <= i < |rows| && 0 <= j < |rows| && idOf(rows[i]) in ids && idOf(rows[j]) !in ids ==> i < j
  {
  }

  /** With no duplicate input ids, rows come in the order their ids are listed. */
  lemma DistinctIdsKeepOrder<R>(rows: seq<R>, idOf: R -> string, ids: seq<string>)
    requires InInputOrder(rows, idOf, ids)
    requires forall p, q :: 0 <= p < q < |ids| ==> ids[p] != ids[q]
    ensures forall i, j, p, q ::
              (0 <= i < |rows| && 0 <= j < |rows| && 0 <= p < q < |ids|
               && ids[p] == idOf(rows[i]) && ids[q] == idOf(rows[j])) ==> i < j
  {
    forall i, j, p, q | 0 <= i < |rows| && 0 <= j < |rows| && 0 <= p < q < |ids|
                        && ids[p] == idOf(rows[i]) && ids[q] == idOf(rows[j])
      ensures i < j
    {
      assert Position(ids, idOf(rows[i])) == p;
    }
  }

  /** For an id listed twice, its last occurrence decides its place. */
  lemma LastOccurrenceWins(x: string, y: string)
    requires x != y
    ensures Position([x, y, x], x) == 2 && Position([x, y, x], y) == 1
  {
    assert [x, y, x][..2] == [x, y];
  }

  /** The CrmRec columns the erasure view shows that the model keeps. */
  datatype CrmRecView = CrmRecView(id: string, recordDate: Option<Date>)

  function CrmView(r: CrmRec): CrmRecView {
    CrmRecView(r.id, DateOf(r.createdOnDate))
  }

  function CrmViewId(v: CrmRecView): string {
    v.id
  }

  /** WHERE IsDeleted = 0 AND ID IN (ids), with the string comparison of SQL Server. */
  function CrmByIds(ids: seq<string>): CrmRec -> bool {
    (r: CrmRec) => r.isDeleted == Some(false) && exists x :: x in ids && SqlEq(r.id, x)
  }

  /** The rows the query of findCrmRecsByIds returns, in no particular order. */
  function FetchedCrmRecs(table: seq<CrmRec>, ids: seq<string>): seq<CrmRecView> {
    MapSeq(Filter(table, CrmByIds(ids)), CrmView)
  }

  /**
   * findCrmRecsByIds: nothing for a null or empty id list; otherwise the
   * fetched rows rearranged into the order of the input ids.
   */
  method FindCrmRecsByIds(table: seq<CrmRec>, ids: Option<seq<string>>) returns (rows: seq<CrmRecView>)
    ensures ids.None? || ids.value == [] ==> rows == []
    ensures ids.Some? && ids.value != [] ==>
              multiset(rows) == multiset(FetchedCrmRecs(table, ids.value))
              && InInputOrder(rows, CrmViewId, ids.value)
  {
    if ids.None? || ids.value == [] {
      return [];
    }
    rows := RestoreInputOrder(FetchedCrmRecs(table, ids.value), CrmViewId, ids.value);
  }

  /**
   * ID IN compares as SQL Server does, so an input id with a trailing space
   * fetches the row, whose id then has no entry in the order map and sorts last.
   */
  lemma {:induction false} PaddedIdFetched(r: CrmRec)
    requires r.isDeleted == Some(false)
    ensures FetchedCrmRecs([r], [r.id + " "]) == [CrmView(r)]
    ensures Position([r.id + " "], r.id) == IntegerMaxValue
  {
    SqlEqPadded(r.id);
    assert r.id + " " in [r.id + " "];
    assert CrmByIds([r.id + " "])(r);
    FilterAll([r], CrmByIds([r.id + " "]));
    assert r.id != r.id + " " by {
      assert |r.id + " "| == |r.id| + 1;
    }
  }

  /** The ProRec columns the erasure view shows that the model keeps. */
  datatype ProRecView = ProRecView(
    id: string,
    closed: Option<bool>,
    counselorInstDisplay: Option<string>,
    proNoticeDate: Option<Date>,
    proDate: Option<Date>)

  /**
   * One row of findProRecsByIds as mapped: Closed is the CASE on ProCloseDate,
   * which is never NULL, and the counsellor text is never NULL either.
   */
  function ProView(r: ProRec): (v: ProRecView)
    ensures v.id == r.id
    ensures v.closed == Some(r.proCloseDate.Some?)
    ensures v.counselorInstDisplay.Some?
  {
    ProRecView(r.id, Some(r.proCloseDate.Some?), Some(CounselorInstDisplay(r.counselor)),
               DateOf(r.proNoticeDate), DateOf(r.proDate))
  }

  function ProViewId(v: ProRecView): string {
    v.id
  }

  /** WHERE PR.IsDeleted = 0 AND PR.ID IN (:ids). */
  function ProByIds(ids: seq<string>): ProRec -> bool {
    (r: ProRec) => r.isDeleted == Some(false) && exists x :: x in ids && SqlEq(r.id, x)
  }

  function FetchedProRecs(table: seq<ProRec>, ids: seq<string>): seq<ProRecView> {
    MapSeq(Filter(table, ProByIds(ids)), ProView)
  }

  /**
   * findProRecsByIds: nothing for a null or empty id list; otherwise the
   * fetched rows rearranged into the order of the input ids.
   */
  method FindProRecsByIds(table: seq<ProRec>, ids: Option<seq<string>>) returns (rows: seq<ProRecView>)
    ensures ids.None? || ids.value == [] ==> rows == []
    ensures ids.Some? && ids.value != [] ==>
              multiset(rows) == multiset(FetchedProRecs(table, ids.value))
              && InInputOrder(rows, ProViewId, ids.value)
  {
    if ids.None? || ids.value == [] {
      return [];
    }
    rows := RestoreInputOrder(FetchedProRecs(table, ids.value), ProViewId, ids.value);
  }

  /** The AcaDrugUse columns the erasure view shows that the model keeps; the id is read back as text. */
  datatype DrugUseView = DrugUseView(id: string, recordDate: Option<Date>, texts: DrugUseTexts)

  /** The (id, dto) entry the row mapper makes of a row. */
  function DrugEntry(r: AcaDrugUse): (e: (string, DrugUseView))
    ensures e.0 == e.1.id == IntText(r.id)
  {
    (IntText(r.id), DrugUseView(IntText(r.id), DateOf(r.createdOnDate), r.texts))
  }

  /**
   * WHERE ADU.IsDeleted = 0 AND ADU.ID IN (:ids): the int column against
   * the nvarchar parameters, each converted to int.
   */
  function DrugByIds(ids: seq<string>): AcaDrugUse -> bool {
    (r: AcaDrugUse) => r.isDeleted == Some(false) && exists x :: x in ids && CastInt(x) == Ok(r.id)
  }

  function FetchedDrugUses(table: seq<AcaDrugUse>, ids: seq<string>): seq<(string, DrugUseView)> {
    MapSeq(Filter(table, DrugByIds(ids)), DrugEntry)
  }

  /** The error of a conversion that failed, if there is one. */
  function FirstError(casts: seq<Result<int, ConversionError>>): (e: Option<ConversionError>)
    ensures e.None? <==> forall k :: 0 <= k < |casts| ==> casts[k].Ok?
    ensures e.Some? ==> exists k :: 0 <= k < |casts| && casts[k] == Err(e.value)
  {
    if casts == [] then None
    else if casts[0].Err? then Some(casts[0].error)
    else
      var e := FirstError(casts[1..]);
      assert forall k :: 1 <= k < |casts| ==> casts[k] == casts[1..][k - 1];
      e
  }

  /** The HashMap the put loop builds. */
  function ToMap<V>(entries: seq<(string, V)>): (m: map<string, V>)
    ensures forall k :: k in m <==> exists e :: e in entries && e.0 == k
    ensures forall k :: k in m ==> (k, m[k]) in entries
  {
    if entries == [] then map[]
    else
      var n := |entries| - 1;
      var front := entries[..n];
      assert entries == front + [entries[n]];
      ToMap(front)[entries[n].0 := entries[n].1]
  }

  /** A later put for the same key replaces an earlier one. */
  lemma {:induction false} LaterEntryWins<V>(front: seq<(string, V)>, k: string, v: V, back: seq<(string, V)>)
    requires forall e :: e in back ==> e.0 != k
    ensures k in ToMap(front + [(k, v)] + back) && ToMap(front + [(k, v)] + back)[k] == v
    decreases |back|
  {
    if back == [] {
      assert front + [(k, v)] + back == front + [(k, v)];
      ToMapSnoc(front, (k, v));
    } else {
      var n := |back| - 1;
      var prefix := front + [(k, v)] + back[..n];
      assert front + [(k, v)] + back == prefix + [back[n]];
      assert back[n] in back;
      assert forall e :: e in back[..n] ==> e in back;
      LaterEntryWins(front, k, v, back[..n]);
      ToMapSnoc(prefix, back[n]);
    }
  }

  /** put(e.0, e.1) after the entries before it. */
  lemma ToMapSnoc<V>(entries: seq<(string, V)>, e: (string, V))
    ensures ToMap(entries + [e]) == ToMap(entries)[e.0 := e.1]
  {
    assert (entries + [e])[..|entries|] == entries;
  }

  /** The re-walk of the input: for each id in turn, its entry if the map has one. */
  function Reassemble<V>(ids: seq<string>, m: map<string, V>): (r: seq<V>)
    ensures |r| <= |ids|
    ensures forall v :: v in r ==> exists id :: id in ids && id in m && m[id] == v
  {
    if ids == [] then []
    else
      var n := |ids| - 1;
      var front := Reassemble(ids[..n], m);
      assert forall id :: id in ids[..n] ==> id in ids;
      front + (if ids[n] in m then [m[ids[n]]] else [])
  }

  /** When every input id has an entry, the output follows the input one for one, repeats included. */
  lemma {:induction false} ReassembleAllFound<V>(ids: seq<string>, m: map<string, V>)
    requires forall k :: 0 <= k < |ids| ==> ids[k] in m
    ensures |Reassemble(ids, m)| == |ids|
    ensures forall k :: 0 <= k < |ids| ==> Reassemble(ids, m)[k] == m[ids[k]]
  {
    if ids != [] {
      var n := |ids| - 1;
      ReassembleAllFound(ids[..n], m);
    }
  }

  /** An input id without an entry contributes nothing. */
  lemma {:induction false} ReassembleSkips<V>(ids: seq<string>, x: string, m: map<string, V>)
    requires x !in m
    ensures Reassemble(ids + [x], m) == Reassemble(ids, m)
  {
    assert (ids + [x])[..|ids|] == ids;
  }

  /** The put loop: for (entry : rows) mapped.put(entry.getKey(), entry.getValue()). */
  method BuildIdMap(rows: seq<(string, DrugUseView)>) returns (mapped: map<string, DrugUseView>)
    ensures mapped == ToMap(rows)
  {
    mapped := map[];
    var i := 0;
    while i < |rows|
      invariant 0 <= i <= |rows|
      invariant mapped == ToMap(rows[..i])
    {
      assert rows[..i + 1][..i] == rows[..i];
      mapped := mapped[rows[i].0 := rows[i].1];
      i := i + 1;
    }
    assert rows[..i] == rows;
  }

  /** The re-walk loop: for (id : drgIds) the mapped dto, when there is one, is appended. */
  method Rewalk(ids: seq<string>, mapped: map<string, DrugUseView>) returns (ordered: seq<DrugUseView>)
    ensures ordered == Reassemble(ids, mapped)
  {
    ordered := [];
    var j := 0;
    while j < |ids|
      invariant 0 <= j <= |ids|
      invariant ordered == Reassemble(ids[..j], mapped)
    {
      assert ids[..j + 1][..j] == ids[..j];
      if ids[j] in mapped {
        ordered := ordered + [mapped[ids[j]]];
      }
      j := j + 1;
    }
    assert ids[..j] == ids;
  }

  /**
   * findAcaDrugUsesByIds: nothing for a null or empty id list; a conversion
   * error when an id is not an int; otherwise the fetched rows keyed by their
   * id text, then the input re-walked through that map.
   */
  method FindAcaDrugUsesByIds(table: seq<AcaDrugUse>, drgIds: Option<seq<string>>)
    returns (r: Result<seq<DrugUseView>, ConversionError>)
    ensures drgIds.None? || drgIds.value == [] ==> r == Ok([])
    ensures drgIds.Some? && drgIds.value != [] ==>
              (r.Err? <==> exists k :: 0 <= k < |drgIds.value| && CastInt(drgIds.value[k]).Err?)
    ensures drgIds.Some? && drgIds.value != [] && r.Ok? ==>
              r.value == Reassemble(drgIds.value, ToMap(FetchedDrugUses(table, drgIds.value)))
  {
    if drgIds.None? || drgIds.value == [] {
      return Ok([]);
    }
    var ids := drgIds.value;
    var failure := FirstError(MapSeq(ids, CastInt));
    if failure.Some? {
      return Err(failure.value);
    }
    var mapped := BuildIdMap(FetchedDrugUses(table, ids));
    var ordered := Rewalk(ids, mapped);
    return Ok(ordered);
  }

  /**
   * A non-deleted record asked for by the text of its id comes back: the
   * output holds a view with that id.
   */
  lemma {:induction false} DrugUseFoundById(table: seq<AcaDrugUse>, ids: seq<string>, d: AcaDrugUse)
    requires d in table && d.isDeleted == Some(false) && 0 <= d.id <= IntMax
    requires IntText(d.id) in ids
    ensures exists v :: v in Reassemble(ids, ToMap(FetchedDrugUses(table, ids))) && v.id == IntText(d.id)
  {
    var key := IntText(d.id);
    CastIntText(d.id);
    assert DrugByIds(ids)(d);
    InFilter(table, DrugByIds(ids));
    var sel := Filter(table, DrugByIds(ids));
    var k :| 0 <= k < |sel| && sel[k] == d;
    var rows := FetchedDrugUses(table, ids);
    assert rows[k] == DrugEntry(d);
    var m := ToMap(rows);
    assert rows[k] in rows;
    assert key in m;
    assert (key, m[key]) in rows;
    InMapSeqAll(sel, DrugEntry);
    assert m[key].id == key;
    ReassembleHas(ids, m, key);
  }

  lemma {:induction false} ReassembleHas<V>(ids: seq<string>, m: map<string, V>, x: string)
    requires x in ids && x in m
    ensures m[x] in Reassemble(ids, m)
  {
    var n := |ids| - 1;
    if ids[n] != x {
      assert x in ids[..n] by {
        var k :| 0 <= k < |ids| && ids[k] == x;
        assert ids[..n][k] == x;
      }
      ReassembleHas(ids[..n], m, x);
    }
  }

  lemma CastZeroPaddedTwelve()
    ensures CastInt("012") == Ok(12)
  {
    assert DigitsValue("012") == 12 by {
      assert "012"[..2] == "01" && "01"[..1] == "0";
    }
    ToIntDigits("012");
  }

  lemma TwelveText()
    ensures IntText(12) == "12"
  {
    assert Decimal(1) == "1";
  }

  /**
   * The SQL side and the Java side match ids differently: '012' fetches
   * record 12, whose entry is keyed '12', so the re-walk drops it.
   */
  lemma {:induction false} ZeroPaddedIdDropped(d: AcaDrugUse)
    requires d.id == 12 && d.isDeleted == Some(false)
    ensures DrugByIds(["012"])(d)
    ensures FetchedDrugUses([d], ["012"]) == [("12", DrugEntry(d).1)]
    ensures Reassemble(["012"], ToMap(FetchedDrugUses([d], ["012"]))) == []
  {
    FetchZeroPaddedTwelve(d);
    var m := ToMap(FetchedDrugUses([d], ["012"]));
    assert "012" !in m;
    ReassembleSkips([], "012", m);
    assert [] + ["012"] == ["012"];
  }

  lemma {:induction false} FetchZeroPaddedTwelve(d: AcaDrugUse)
    requires d.id == 12 && d.isDeleted == Some(false)
    ensures DrugByIds(["012"])(d)
    ensures FetchedDrugUses([d], ["012"]) == [("12", DrugEntry(d).1)]
  {
    CastZeroPaddedTwelve();
    assert "012" in ["012"];
    assert DrugByIds(["012"])(d);
    FetchOne(d, ["012"]);
    TwelveText();
  }

  lemma {:induction false} FetchOne(d: AcaDrugUse, ids: seq<string>)
    requires DrugByIds(ids)(d)
    ensures FetchedDrugUses([d], ids) == [DrugEntry(d)]
  {
    FilterAll([d], DrugByIds(ids));
  }

  // ------------------------------------------------- tri-state lookups

  predicate ActiveProOfCard(r: ProRec, cardNo: string) {
    r.isDeleted == Some(false) && SqlMatch(r.acaCardNo, cardNo)
  }

  function ProOfCard(cardNo: string): ProRec -> bool {
    (r: ProRec) => ActiveProOfCard(r, cardNo)
  }

  predicate ProDateDesc(a: ProRec, b: ProRec) {
    DescNullsLast(a.proDate, b.proDate)
  }

  lemma ProDateDescPreorder()
    ensures TotalPreorder(ProDateDesc)
  {
    forall a: ProRec, b: ProRec, c: ProRec
      ensures ProDateDesc(a, b) || ProDateDesc(b, a)
      ensures ProDateDesc(a, b) && ProDateDesc(b, c) ==> ProDateDesc(a, c)
    {
      DescNullsLastPreorder(a.proDate, b.proDate, c.proDate);
    }
  }

  /**
   * findLatestProRecClosed: no answer when the card has no non-deleted
   * ProRec; otherwise whether the row first by ProDate DESC is closed.
   */
  function FindLatestProRecClosed(table: seq<ProRec>, cardNo: string): (r: Option<bool>)
    ensures r.None? <==> forall p :: p in table ==> !ActiveProOfCard(p, cardNo)
    ensures r.Some? ==> exists p :: p in table && ActiveProOfCard(p, cardNo)
                                    && (forall q :: q in table && ActiveProOfCard(q, cardNo) ==> DescNullsLast(p.proDate, q.proDate))
                                    && (r.value <==> p.proCloseDate.Some?)
  {
    var sel := Filter(table, ProOfCard(cardNo));
    InFilter(table, ProOfCard(cardNo));
    ProDateDescPreorder();
    if sel == [] then None
    else
      var top := Top(sel, ProDateDesc);
      Some(top.proCloseDate.Some?)
  }

  /** When one row has the strictly latest ProDate, the answer is whether that row is closed. */
  lemma {:induction false} LatestClosedOfStrictlyLatest(table: seq<ProRec>, cardNo: string, p: ProRec)
    requires p in table && ActiveProOfCard(p, cardNo) && p.proDate.Some?
    requires forall q :: q in table && ActiveProOfCard(q, cardNo) && q != p ==>
               q.proDate.None? || DateTimeLt(q.proDate.value, p.proDate.value)
    ensures FindLatestProRecClosed(table, cardNo) == Some(p.proCloseDate.Some?)
  {
    var r := FindLatestProRecClosed(table, cardNo);
    var w :| w in table && ActiveProOfCard(w, cardNo)
             && (forall q :: q in table && ActiveProOfCard(q, cardNo) ==> DescNullsLast(w.proDate, q.proDate))
             && (r.value <==> w.proCloseDate.Some?);
    assert DescNullsLast(w.proDate, p.proDate);
    if w != p {
      DateTimeLeTotal(w.proDate.value, p.proDate.value);
    }
  }

  /**
   * findPersonErased: no answer when the card has no ACABrd row with
   * IsDeleted = 0; otherwise whether the first such row has IsErase = 1
   * (0 and NULL both read as not erased).
   */
  function FindPersonErased(acaBrd: seq<AcaBrd>, cardNo: string): (r: Option<bool>)
    ensures r.None? <==> forall b :: b in acaBrd ==> !(SqlMatch(b.acaCardNo, cardNo) && b.isDeleted == Some(0))
    ensures r.Some? ==> exists b :: b in acaBrd && SqlMatch(b.acaCardNo, cardNo) && b.isDeleted == Some(0)
                                    && (r.value <==> b.isErase == Some(1))
  {
    var b := FirstActiveBrd(acaBrd, cardNo);
    if b.None? then None else Some(b.value.isErase == Some(1))
  }

  /** The birth lookup and the erasure lookup read the same row, so they find a case together. */
  lemma BirthAndErasedAgree(acaBrd: seq<AcaBrd>, cardNo: string)
    ensures FindPersonBirth(acaBrd, cardNo).Some? <==> FindPersonErased(acaBrd, cardNo).Some?
  {
  }

  // ------------------------------------------------- unfiltered collectors

  function CrmOfCard(cardNo: string): CrmRec -> bool {
    (r: CrmRec) => SqlMatch(r.acaCardNo, cardNo)
  }

  function DrugUseOfCard(cardNo: string): AcaDrugUse -> bool {
    (r: AcaDrugUse) => SqlMatch(r.acaCardNo, cardNo)
  }

  function AnyProOfCard(cardNo: string): ProRec -> bool {
    (r: ProRec) => SqlMatch(r.acaCardNo, cardNo)
  }

  function DrugUseIdText(r: AcaDrugUse): string {
    IntText(r.id)
  }

  /** findAllCrmRecIdsByAcaCardNo: one id per row of the card, deleted rows included, in no particular order. */
  function FindAllCrmRecIdsByAcaCardNo(table: seq<CrmRec>, cardNo: string): (ids: seq<string>)
    ensures |ids| == |Filter(table, CrmOfCard(cardNo))|
    ensures forall id :: id in ids <==> exists r :: r in table && SqlMatch(r.acaCardNo, cardNo) && r.id == id
  {
    SelectedValues(table, CrmOfCard(cardNo), Filter(table, CrmOfCard(cardNo)), CrmRecId);
    MapSeq(Filter(table, CrmOfCard(cardNo)), CrmRecId)
  }

  /** findAllAcaDrugUseIdsByAcaCardNo: the id text of every row of the card, deleted rows included. */
  function FindAllAcaDrugUseIdsByAcaCardNo(table: seq<AcaDrugUse>, cardNo: string): (ids: seq<string>)
    ensures |ids| == |Filter(table, DrugUseOfCard(cardNo))|
    ensures forall id :: id in ids <==> exists r :: r in table && SqlMatch(r.acaCardNo, cardNo) && IntText(r.id) == id
  {
    SelectedValues(table, DrugUseOfCard(cardNo), Filter(table, DrugUseOfCard(cardNo)), DrugUseIdText);
    MapSeq(Filter(table, DrugUseOfCard(cardNo)), DrugUseIdText)
  }

  /** findAllProRecIdsByAcaCardNo: one id per row of the card, deleted rows included. */
  function FindAllProRecIdsByAcaCardNo(table: seq<ProRec>, cardNo: string): (ids: seq<string>)
    ensures |ids| == |Filter(table, AnyProOfCard(cardNo))|
    ensures forall id :: id in ids <==> exists r :: r in table && SqlMatch(r.acaCardNo, cardNo) && r.id == id
  {
    SelectedValues(table, AnyProOfCard(cardNo), Filter(table, AnyProOfCard(cardNo)), ProRecId);
    MapSeq(Filter(table, AnyProOfCard(cardNo)), ProRecId)
  }

  /**
   * The collectors do not look at IsDeleted: a deleted record is collected
   * although the hydrator leaves it out.
   */
  lemma {:induction false} CollectorKeepsDeleted(r: CrmRec, cardNo: string)
    requires SqlMatch(r.acaCardNo, cardNo) && r.isDeleted == Some(true)
    ensures FindAllCrmRecIdsByAcaCardNo([r], cardNo) == [r.id]
    ensures FetchedCrmRecs([r], [r.id]) == []
  {
    FilterAll([r], CrmOfCard(cardNo));
    FilterNone([r], CrmByIds([r.id]));
  }

  // ------------------------------------------------ counsellor display text

  const Intern := "(實習)"
  const Official := "(正式)"

  /** ISNULL(x, N''). */
  function OrEmpty(x: Option<string>): string {
    if x.None? then "" else x.value
  }

  /**
   * The area and the institution name, with a space between them only when
   * both are present; blank exactly when neither is.
   */
  function AreaAndName(c: CounselorJoin): (t: string)
    ensures SqlPresent(c.areaText) && SqlPresent(c.instName) ==> t == c.areaText.value + " " + c.instName.value
    ensures !(SqlPresent(c.areaText) && SqlPresent(c.instName)) ==> t == OrEmpty(c.areaText) + OrEmpty(c.instName)
    ensures SqlEmpty(t) <==> !SqlPresent(c.areaText) && !SqlPresent(c.instName)
  {
    var area, name := OrEmpty(c.areaText), OrEmpty(c.instName);
    var sep := if SqlPresent(c.areaText) && SqlPresent(c.instName) then " " else "";
    var t := area + sep + name;
    assert SqlPresent(c.areaText) ==> !SqlEmpty(t) by {
      if SqlPresent(c.areaText) {
        var k :| 0 <= k < |area| && area[k] != ' ';
        assert t[k] == area[k];
      }
    }
    assert SqlPresent(c.instName) ==> !SqlEmpty(t) by {
      if SqlPresent(c.instName) {
        var k :| 0 <= k < |name| && name[k] != ' ';
        assert t[|area| + |sep| + k] == name[k];
      }
    }
    assert !SqlPresent(c.areaText) && !SqlPresent(c.instName) ==> SqlEmpty(t) by {
      if !SqlPresent(c.areaText) && !SqlPresent(c.instName) {
        forall k | 0 <= k < |t| ensures t[k] == ' ' {
          if k < |area| { assert t[k] == area[k]; } else { assert t[k] == name[k - |area|]; }
        }
      }
    }
    t
  }

  /** The CASE that appends the kind of institution. */
  function InstKindSuffix(c: CounselorJoin): (k: string)
    ensures k == "" <==> c.workerId.None? || (!SqlPresent(c.areaText) && !SqlPresent(c.instName))
    ensures k == Intern <==> c.workerId.Some? && (SqlPresent(c.areaText) || SqlPresent(c.instName))
                             && c.isUnofficial == Some(true)
    ensures k == "" || k == Intern || k == Official
  {
    if c.workerId.None? || (!SqlPresent(c.areaText) && !SqlPresent(c.instName)) then ""
    else if c.isUnofficial == Some(true) then Intern
    else Official
  }

  /**
   * CounselorInstDisplay: area, name and suffix concatenated, and '' when
   * that is blank (NULLIF then COALESCE); a suffix never stands alone.
   */
  function CounselorInstDisplay(c: CounselorJoin): (s: string)
    ensures SqlEmpty(AreaAndName(c)) ==> s == ""
    ensures !SqlEmpty(AreaAndName(c)) ==> s == AreaAndName(c) + InstKindSuffix(c)
    ensures InstKindSuffix(c) != "" ==> !SqlEmpty(AreaAndName(c)) && s != InstKindSuffix(c)
  {
    var t := AreaAndName(c);
    var joined := t + InstKindSuffix(c);
    if SqlEmpty(joined) then
      assert SqlEmpty(t) by {
        forall k | 0 <= k < |t| ensures t[k] == ' ' { assert joined[k] == t[k]; }
      }
      ""
    else
      assert !SqlEmpty(t) ==> |joined| > |InstKindSuffix(c)| by {
        if !SqlEmpty(t) { assert |t| > 0; }
      }
      joined
  }

  // ------------------------------------------------------- audit log read

  /** An ACA_EraseAudit row; DocNum is text that the query casts to INT. */
  datatype AuditRow = AuditRow(
    auditId: int,
    createdOnDate: Option<DateTime>,
    acaCardNo: Option<string>,
    actionType: Option<string>,
    docNum: Option<string>,
    eraseReason: Option<string>,
    restoreReason: Option<string>,
    createdByUserId: Option<string>,
    userIp: Option<string>)

  datatype AuditView = AuditView(
    auditId: int,
    createdOn: Option<DateTime>,
    acaCardNo: Option<string>,
    action: Option<string>,
    docNum: Option<int>,
    eraseReason: Option<string>,
    restoreReason: Option<string>,
    userId: Option<string>,
    userIp: Option<string>)

  /** CAST(A.DocNum AS INT) succeeds on the row (NULL casts to NULL). */
  predicate DocNumCasts(a: AuditRow) {
    a.docNum.None? || CastInt(a.docNum.value).Ok?
  }

  /**
   * The projection of one audit row: CreatedOnDate cast to DATETIME2(0), so
   * rounded to the whole second, and DocNum cast to INT (NULL stays NULL).
   */
  function AuditViewOf(a: AuditRow): (v: AuditView)
    ensures v.auditId == a.auditId
    ensures v.createdOn.Some? <==> a.createdOnDate.Some?
    ensures v.createdOn.Some? ==> v.createdOn.value == RoundToSecond(a.createdOnDate.value)
    ensures DocNumCasts(a) ==> (v.docNum.Some? <==> a.docNum.Some?)
    ensures v.docNum.Some? ==> CastInt(a.docNum.value) == Ok(v.docNum.value)
  {
    var createdOn := if a.createdOnDate.None? then None else Some(RoundToSecond(a.createdOnDate.value));
    var docNum := if a.docNum.None? then None else TryConvertInt(a.docNum.value);
    AuditView(a.auditId, createdOn, a.acaCardNo, a.actionType, docNum,
              a.eraseReason, a.restoreReason, a.createdByUserId, a.userIp)
  }

  /** ORDER BY A.CreatedOnDate DESC: on the stored, unrounded column. */
  predicate RawCreatedDesc(a: AuditRow, b: AuditRow) {
    DescNullsLast(a.createdOnDate, b.createdOnDate)
  }

  lemma RawCreatedDescPreorder()
    ensures TotalPreorder(RawCreatedDesc)
  {
    forall a: AuditRow, b: AuditRow, c: AuditRow
      ensures RawCreatedDesc(a, b) || RawCreatedDesc(b, a)
      ensures RawCreatedDesc(a, b) && RawCreatedDesc(b, c) ==> RawCreatedDesc(a, c)
    {
      DescNullsLastPreorder(a.createdOnDate, b.createdOnDate, c.createdOnDate);
    }
  }

  /** Rows ordered on the stored timestamp give views ordered on the rounded one. */
  lemma RoundedCreatedStaysDesc(rows: seq<AuditRow>)
    requires SortedBy(rows, RawCreatedDesc)
    ensures forall i, j :: 0 <= i < j < |rows| ==>
      DescNullsLast(AuditViewOf(rows[i]).createdOn, AuditViewOf(rows[j]).createdOn)
  {
    forall i, j | 0 <= i < j < |rows|
      ensures DescNullsLast(AuditViewOf(rows[i]).createdOn, AuditViewOf(rows[j]).createdOn)
    {
      assert RawCreatedDesc(rows[i], rows[j]);
      var a, b := rows[i].createdOnDate, rows[j].createdOnDate;
      if b.Some? {
        RoundToSecondMonotone(b.value, a.value);
      }
    }
  }

  /** The cast error of the first row whose DocNum does not convert, if any. */
  function DocNumError(table: seq<AuditRow>): (e: Option<ConversionError>)
    ensures e.None? <==> forall k :: 0 <= k < |table| ==> DocNumCasts(table[k])
  {
    if table == [] then None
    else if !DocNumCasts(table[0]) then Some(CastInt(table[0].docNum.value).error)
    else
      assert forall k :: 1 <= k < |table| ==> table[k] == table[1..][k - 1];
      DocNumError(table[1..])
  }

  /**
   * findAuditRows: every audit row, newest first (NULL last); the whole query
   * fails when one DocNum is not an int.
   */
  function FindAuditRows(table: seq<AuditRow>): (r: Result<seq<AuditView>, ConversionError>)
    ensures r.Err? <==> exists k :: 0 <= k < |table| && !DocNumCasts(table[k])
    ensures r.Ok? ==> multiset(r.value) == multiset(MapSeq(table, AuditViewOf))
    ensures r.Ok? ==> exists rows :: multiset(rows) == multiset(table) && SortedBy(rows, RawCreatedDesc)
                                     && r.value == MapSeq(rows, AuditViewOf)
    ensures r.Ok? ==> forall i, j :: 0 <= i < j < |r.value| ==> DescNullsLast(r.value[i].createdOn, r.value[j].createdOn)
  {
    var failure := DocNumError(table);
    if failure.Some? then Err(failure.value)
    else
      RawCreatedDescPreorder();
      var rows := SortBy(table, RawCreatedDesc);
      MapSeqMultiset(rows, table, AuditViewOf);
      RoundedCreatedStaysDesc(rows);
      Ok(MapSeq(rows, AuditViewOf))
  }
}
