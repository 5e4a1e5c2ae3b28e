/**
 * The after-care table SUP_AfterCare, which the correction agency fills:
 * one row per released person, with the sign-off status fields the
 * after-care desk updates, and the one derived query of its repository.
 */
module AfterCare {
  import opened Wrappers
  import opened Sequences
  import opened Calendar
  import opened SqlText

  /** The eight free-text columns that the after-care row and the drug-use record share. */
  datatype DrugUseTexts = DrugUseTexts(
    drgUserText: Option<string>,
    oprFamilyText: Option<string>,
    oprFamilyCareText: Option<string>,
    oprSupportText: Option<string>,
    oprContactText: Option<string>,
    oprReferText: Option<string>,
    addr: Option<string>,
    oprAddr: Option<string>)

  /**
   * One SUP_AfterCare row with the columns the core reads or writes.
   * SIGN_STATE and ACA_STATE hold "0" (not signed), "1" (signed) or
   * "3" (case opened).
   */
  datatype SupAfterCare = SupAfterCare(
    id: string,
    orgCode: Option<string>,
    rsDt: Option<Date>,
    protName: Option<string>,
    namIdNo: Option<string>,
    texts: DrugUseTexts,
    signState: Option<string>,
    signProtNo: Option<string>,
    signProtName: Option<string>,
    signDate: Option<Date>,
    signUser: Option<string>,
    acaUser: Option<string>,
    acaReceiptDate: Option<Date>,
    acaState: Option<string>,
    crDateTime: Option<Date>,
    upUser: Option<string>,
    upDateTime: Option<Date>)

  function AtStartOfDay(d: Option<Date>): Option<DateTime> {
    if d.None? then None else Some(StartOfDay(d.value))
  }

  /** ORDER BY CR_DATE_TIME DESC. */
  predicate CrDateTimeDesc(a: SupAfterCare, b: SupAfterCare) {
    DescNullsLast(AtStartOfDay(a.crDateTime), AtStartOfDay(b.crDateTime))
  }

  lemma CrDateTimeDescPreorder()
    ensures TotalPreorder(CrDateTimeDesc)
  {
    forall a: SupAfterCare, b: SupAfterCare, c: SupAfterCare
      ensures CrDateTimeDesc(a, b) || CrDateTimeDesc(b, a)
      ensures CrDateTimeDesc(a, b) && CrDateTimeDesc(b, c) ==> CrDateTimeDesc(a, c)
    {
      DescNullsLastPreorder(AtStartOfDay(a.crDateTime), AtStartOfDay(b.crDateTime), AtStartOfDay(c.crDateTime));
    }
  }

  function WithNamIdNo(namIdNo: string): SupAfterCare -> bool {
    (r: SupAfterCare) => SqlMatch(r.namIdNo, namIdNo)
  }

  /** findTopByNamIdNoOrderByCrDateTimeDesc: the newest row of a personal id, or empty. */
  function FindTopByNamIdNoOrderByCrDateTimeDesc(table: seq<SupAfterCare>, namIdNo: string): (r: Option<SupAfterCare>)
    ensures r.None? <==> forall x :: x in table ==> !SqlMatch(x.namIdNo, namIdNo)
    ensures r.Some? ==> r.value in table && SqlMatch(r.value.namIdNo, namIdNo)
    ensures r.Some? ==> forall x :: x in table && SqlMatch(x.namIdNo, namIdNo) ==> CrDateTimeDesc(r.value, x)
  {
    var sel := Filter(table, WithNamIdNo(namIdNo));
    CrDateTimeDescPreorder();
    InFilter(table, WithNamIdNo(namIdNo));
    if sel == [] then None else Some(Top(sel, CrDateTimeDesc))
  }
}
