/**
 * The drug-use record table AcaDrugUse and the queries of its repository:
 * the active-record count and existence checks the save path makes, the
 * ACABrd checks, and the detail lookups by id and by card number. The table
 * is the map from ID to record that the JPA repository reads and writes.
 */
module Aca2003Repository {
  import opened Wrappers
  import opened Calendar
  import opened SqlText
  import opened AcaBrdRepository
  import opened AfterCare

  /** One AcaDrugUse row; IsDeleted is a nullable bit. */
  datatype AcaDrugUse = AcaDrugUse(
    id: int,
    acaCardNo: Option<string>,
    texts: DrugUseTexts,
    createdByUserId: Option<int>,
    createdOnDate: Option<DateTime>,
    createdByBranchId: Option<string>,
    modifiedByUserId: Option<int>,
    modifiedOnDate: Option<DateTime>,
    isDeleted: Option<bool>,
    isErase: Option<int>)

  type Store = map<int, AcaDrugUse>

  /** (IsDeleted = 0 OR IsDeleted IS NULL). */
  predicate ActiveBit(isDeleted: Option<bool>) {
    isDeleted != Some(true)
  }

  /** A record of the card that is not deleted. */
  predicate ActiveOfCard(store: Store, id: int, cardNo: string) {
    id in store && SqlMatch(store[id].acaCardNo, cardNo) && ActiveBit(store[id].isDeleted)
  }

  function ActiveIds(store: Store, cardNo: string): (ids: set<int>)
    ensures forall id :: id in ids <==> ActiveOfCard(store, id, cardNo)
  {
    set id | id in store && ActiveOfCard(store, id, cardNo)
  }

  /** countActive: how many records of the card are not deleted. */
  function CountActive(store: Store, cardNo: string): (n: nat)
    ensures n == |ActiveIds(store, cardNo)|
    ensures n == 0 <==> forall id :: !ActiveOfCard(store, id, cardNo)
  {
    var ids := ActiveIds(store, cardNo);
    if ids == {} then 0
    else
      var id :| id in ids;
      assert id in ids;
      |ids|
  }

  /**
   * SQL Server's = ignores trailing spaces: a live record stored under the card
   * number with a space appended counts as an active record of that card.
   */
  lemma {:induction false} PaddedCardCounted(store: Store, id: int, cardNo: string)
    requires id in store && store[id].acaCardNo == Some(cardNo + " ") && ActiveBit(store[id].isDeleted)
    ensures CountActive(store, cardNo) > 0
  {
    SqlMatchPadded(cardNo);
    assert ActiveOfCard(store, id, cardNo);
  }

  /** (isERASE = 0 OR isERASE IS NULL). */
  predicate NotErased(isErase: Option<int>) {
    isErase.None? || isErase == Some(0)
  }

  /** existsActiveByCardNo: 1 when a record of the card is neither deleted nor erased, else 0. */
  function ExistsActiveByCardNo(store: Store, cardNo: string): (r: int)
    ensures r == 0 || r == 1
    ensures r == 1 <==> exists id :: ActiveOfCard(store, id, cardNo) && NotErased(store[id].isErase)
  {
    if exists id :: id in store && ActiveOfCard(store, id, cardNo) && NotErased(store[id].isErase) then 1 else 0
  }

  /** existsActiveAcaBrd: 1 when an ACABrd row of the card has IsDeleted = 0 (a NULL does not count), else 0. */
  function ExistsActiveAcaBrd(acaBrd: seq<AcaBrd>, cardNo: string): (r: int)
    ensures r == 0 || r == 1
    ensures r == 1 <==> exists b :: b in acaBrd && SqlMatch(b.acaCardNo, cardNo) && b.isDeleted == Some(0)
  {
    if exists b :: b in acaBrd && SqlMatch(b.acaCardNo, cardNo) && b.isDeleted == Some(0) then 1 else 0
  }

  /** The first ACABrd row (in table order) of the card with IsDeleted = 0. */
  function FirstActiveBrd(acaBrd: seq<AcaBrd>, cardNo: string): (r: Option<AcaBrd>)
    ensures r.None? <==> forall b :: b in acaBrd ==> !(SqlMatch(b.acaCardNo, cardNo) && b.isDeleted == Some(0))
    ensures r.Some? ==> r.value in acaBrd && SqlMatch(r.value.acaCardNo, cardNo) && r.value.isDeleted == Some(0)
  {
    if acaBrd == [] then None
    else if SqlMatch(acaBrd[0].acaCardNo, cardNo) && acaBrd[0].isDeleted == Some(0) then Some(acaBrd[0])
    else
      assert forall b :: b in acaBrd ==> b == acaBrd[0] || b in acaBrd[1..];
      FirstActiveBrd(acaBrd[1..], cardNo)
  }

  /** findCreatedByBranchIdByAcaCardNo: the branch of a row of the card with IsDeleted = 0, NULL if there is none. */
  function FindCreatedByBranchIdByAcaCardNo(acaBrd: seq<AcaBrd>, cardNo: string): (r: Option<string>)
    ensures (forall b :: b in acaBrd ==> !(SqlMatch(b.acaCardNo, cardNo) && b.isDeleted == Some(0))) ==> r.None?
    ensures (exists b :: b in acaBrd && SqlMatch(b.acaCardNo, cardNo) && b.isDeleted == Some(0)) ==>
              exists b :: b in acaBrd && SqlMatch(b.acaCardNo, cardNo) && b.isDeleted == Some(0)
                          && b.createdByBranchId == r
  {
    var b := FirstActiveBrd(acaBrd, cardNo);
    if b.None? then None else b.value.createdByBranchId
  }

  /** The detail projection: the record with the name and personal id of its case. */
  datatype DetailView = DetailView(
    id: int,
    createdOnDate: Option<DateTime>,
    createdByBranchName: Option<string>,
    texts: DrugUseTexts,
    acaCardNo: Option<string>,
    acaName: Option<string>,
    acaIdNo: Option<string>)

  /**
   * The row the LEFT JOIN produces: ACABrd columns from a row of the same card
   * with IsDeleted = 0, NULL when there is none; the branch name from the Lists
   * lookup `branchName`.
   */
  function Detail(store: Store, acaBrd: seq<AcaBrd>, branchName: Option<string> -> Option<string>, id: int): (v: DetailView)
    requires id in store
    ensures v.id == id && v.texts == store[id].texts && v.acaCardNo == store[id].acaCardNo
    ensures v.createdOnDate == store[id].createdOnDate
  {
    var d := store[id];
    var b := if d.acaCardNo.None? then None else FirstActiveBrd(acaBrd, d.acaCardNo.value);
    DetailView(id, d.createdOnDate, branchName(d.createdByBranchId), d.texts, d.acaCardNo,
               if b.None? then None else b.value.acaName,
               if b.None? then None else b.value.acaIdNo)
  }

  /** findDetailById: the detail of a record that exists and is not deleted. */
  function FindDetailById(store: Store, acaBrd: seq<AcaBrd>, branchName: Option<string> -> Option<string>, id: int): (r: Option<DetailView>)
    ensures r.None? <==> id !in store || store[id].isDeleted == Some(true)
    ensures r.Some? ==> r.value.id == id && r.value.texts == store[id].texts && r.value.acaCardNo == store[id].acaCardNo
    ensures r.Some? ==> r.value == Detail(store, acaBrd, branchName, id)
  {
    if id in store && ActiveBit(store[id].isDeleted) then Some(Detail(store, acaBrd, branchName, id)) else None
  }

  /** Every non-empty finite set of integers has a greatest element. */
  lemma {:induction false} MaxExists(ids: set<int>)
    ensures ids != {} ==> exists m :: m in ids && forall k :: k in ids ==> k <= m
    decreases |ids|
  {
    if x :| x in ids {
      var rest := ids - {x};
      assert ids == rest + {x};
      MaxExists(rest);
      if rest == {} {
        assert ids == {x};
      } else {
        var m :| m in rest && forall k :: k in rest ==> k <= m;
        var g := if x <= m then m else x;
        assert g in ids && forall k :: k in ids ==> k <= g;
      }
    } else {
      assert forall k :: k !in ids;
      assert ids == {};
    }
  }

  /** The greatest ID of a non-empty set of IDs: ORDER BY ID DESC with TOP 1. */
  function MaxId(ids: set<int>): (m: int)
    requires ids != {}
    ensures m in ids && forall k :: k in ids ==> k <= m
  {
    MaxExists(ids);
    var m :| m in ids && forall k :: k in ids ==> k <= m;
    m
  }

  /** findLatestDetailByCardNo: the detail of the non-deleted record of the card with the greatest ID. */
  function FindLatestDetailByCardNo(store: Store, acaBrd: seq<AcaBrd>, branchName: Option<string> -> Option<string>, cardNo: string): (r: Option<DetailView>)
    ensures r.None? <==> forall id :: !ActiveOfCard(store, id, cardNo)
    ensures r.Some? ==> ActiveOfCard(store, r.value.id, cardNo)
                        && (forall id :: ActiveOfCard(store, id, cardNo) ==> id <= r.value.id)
                        && r.value == Detail(store, acaBrd, branchName, r.value.id)
  {
    var ids := ActiveIds(store, cardNo);
    if ids == {} then None
    else Some(Detail(store, acaBrd, branchName, MaxId(ids)))
  }

  /** The latest lookup finds a record exactly when the count of active records is positive. */
  lemma LatestIffCounted(store: Store, acaBrd: seq<AcaBrd>, branchName: Option<string> -> Option<string>, cardNo: string)
    ensures FindLatestDetailByCardNo(store, acaBrd, branchName, cardNo).Some? <==> CountActive(store, cardNo) > 0
  {
  }

  /** A record that is neither deleted nor erased implies a positive count and a latest record. */
  lemma {:induction false} ExistsActiveImpliesLatest(store: Store, acaBrd: seq<AcaBrd>, branchName: Option<string> -> Option<string>, cardNo: string)
    requires ExistsActiveByCardNo(store, cardNo) == 1
    ensures CountActive(store, cardNo) > 0
    ensures FindLatestDetailByCardNo(store, acaBrd, branchName, cardNo).Some?
  {
    var id :| ActiveOfCard(store, id, cardNo) && NotErased(store[id].isErase);
    assert id in ActiveIds(store, cardNo);
  }

  function NoTexts(): DrugUseTexts {
    DrugUseTexts(None, None, None, None, None, None, None, None)
  }

  function Record(id: int, cardNo: string, isErase: Option<int>): AcaDrugUse {
    AcaDrugUse(id, Some(cardNo), NoTexts(), None, None, None, None, None, Some(false), isErase)
  }

  /**
   * The latest lookup has no isERASE filter: with a plain record 1 and an erased
   * record 2 of one card, the existence check holds and the latest record is the erased one.
   */
  lemma {:induction false} LatestMayBeErased(acaBrd: seq<AcaBrd>, branchName: Option<string> -> Option<string>)
    ensures var store := map[1 := Record(1, "C", None), 2 := Record(2, "C", Some(1))];
            ExistsActiveByCardNo(store, "C") == 1
            && FindLatestDetailByCardNo(store, acaBrd, branchName, "C").Some?
            && FindLatestDetailByCardNo(store, acaBrd, branchName, "C").value.id == 2
            && store[2].isErase == Some(1)
  {
    var store := map[1 := Record(1, "C", None), 2 := Record(2, "C", Some(1))];
    assert ActiveOfCard(store, 1, "C") && NotErased(store[1].isErase);
    assert ActiveOfCard(store, 2, "C");
    var r := FindLatestDetailByCardNo(store, acaBrd, branchName, "C");
    assert r.value.id >= 2;
  }
}
