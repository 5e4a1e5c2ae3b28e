/**
 * The sign-state report: for every branch in the branch list, one row per
 * (branch, organisation) group of after-care rows dated in the period, with
 * the number of rows not signed (SIGN_STATE 0), signed (1) and opened as a
 * case (3); a branch without rows gets one row of zeros. Branch names and
 * sort orders come from the latest entry of each branch code in Lists,
 * organisation codes and names from Org_Lists.
 */
module Report02Repository {
  import opened Wrappers
  import opened Sequences
  import opened Calendar
  import opened SqlText
  import opened AfterCare

  /** The ParentID of the branch list in Lists. */
  const BranchListParent := 26

  /** One Lists row. */
  datatype ListEntry = ListEntry(
    entryId: int,
    parentId: Option<int>,
    value: Option<string>,
    text: Option<string>,
    sortOrder: Option<int>,
    createdOnDate: Option<DateTime>,
    modifiedOnDate: Option<DateTime>)

  /** One Org_Lists row. */
  datatype OrgEntry = OrgEntry(orgCode: Option<string>, orgName: Option<string>)

  /** One row of the report. */
  datatype FlatRow = FlatRow(
    branchCode: Option<string>,
    branchName: Option<string>,
    sortOrder: Option<int>,
    orgCode: Option<string>,
    orgName: Option<string>,
    pendingCount: nat,
    signedCount: nat,
    caseCount: nat)

  // ------------------------------------------------ agg: the counted rows

  /** RS_DT >= from AND RS_DT <= to: both ends included, a NULL date never. */
  predicate InPeriod(from: Date, to: Date, r: SupAfterCare) {
    r.rsDt.Some? && DateLe(from, r.rsDt.value) && DateLe(r.rsDt.value, to)
  }

  function InPeriodOf(from: Date, to: Date): SupAfterCare -> bool {
    r => InPeriod(from, to, r)
  }

  /**
   * SIGN_STATE as the comparison SIGN_STATE = n sees it: the text converted
   * to int (a text that does not convert fails the query), NULL unknown.
   */
  function StateOf(r: SupAfterCare): (s: Result<Option<int>, ConversionError>)
    ensures s.Ok? && s.value.Some? <==> r.signState.Some? && CastInt(r.signState.value).Ok?
    ensures s.Ok? && s.value.Some? ==> s.value.value == CastInt(r.signState.value).value
    ensures s.Err? <==> r.signState.Some? && CastInt(r.signState.value).Err?
  {
    match r.signState
    case None => Ok(None)
    case Some(t) =>
      match CastInt(t)
      case Err(e) => Err(e)
      case Ok(v) => Ok(Some(v))
  }

  /** The conversion error of the first row whose SIGN_STATE does not convert. */
  function StateFailure(rows: seq<SupAfterCare>): (e: Option<ConversionError>)
    ensures e.None? <==> forall k :: 0 <= k < |rows| ==> StateOf(rows[k]).Ok?
    ensures e.Some? ==> exists k :: 0 <= k < |rows| && StateOf(rows[k]) == Err(e.value)
  {
    if rows == [] then None
    else if StateOf(rows[0]).Err? then Some(StateOf(rows[0]).error)
    else
      var rest := rows[1..];
      var e := StateFailure(rest);
      assert forall k {:trigger rest[k]} :: 0 <= k < |rest| ==> rest[k] == rows[k + 1];
      e
  }

  /** GROUP BY SIGN_PROT_NO, ORG_CODE. */
  datatype GroupKey = GroupKey(branchCode: Option<string>, orgCode: Option<string>)

  function KeyOf(r: SupAfterCare): GroupKey {
    GroupKey(r.signProtNo, r.orgCode)
  }

  /** Some counted row belongs to group g. */
  predicate HasGroup(counted: seq<SupAfterCare>, g: GroupKey) {
    exists r :: r in counted && KeyOf(r) == g
  }

  /** The groups of the counted rows, each once. */
  function GroupKeys(rows: seq<SupAfterCare>): (keys: seq<GroupKey>)
    ensures forall g :: g in keys <==> HasGroup(rows, g)
    ensures forall i, j :: 0 <= i < j < |keys| ==> keys[i] != keys[j]
  {
    InMapSeqAll(rows, KeyOf);
    Distinct(MapSeq(rows, KeyOf))
  }

  function WithState(g: GroupKey, n: int): SupAfterCare -> bool {
    r => KeyOf(r) == g && StateOf(r) == Ok(Some(n))
  }

  /** SUM(CASE WHEN SIGN_STATE = n THEN 1 ELSE 0 END) over the rows of group g. */
  function CountState(rows: seq<SupAfterCare>, g: GroupKey, n: int): (c: nat)
    ensures c <= |rows|
    ensures c == 0 <==> forall k :: 0 <= k < |rows| ==> !WithState(g, n)(rows[k])
  {
    var sel := Filter(rows, WithState(g, n));
    if sel == [] then
      assert forall k :: 0 <= k < |rows| ==> !WithState(g, n)(rows[k]) by { InFilter(rows, WithState(g, n)); }
      0
    else
      assert sel[0] in rows;
      |sel|
  }

  /** A row adds one to the count of its own group and its own state, and to no other count. */
  lemma {:induction false} CountStateSnoc(rows: seq<SupAfterCare>, x: SupAfterCare, g: GroupKey, n: int)
    ensures CountState(rows + [x], g, n) == CountState(rows, g, n) + (if KeyOf(x) == g && StateOf(x) == Ok(Some(n)) then 1 else 0)
  {
    FilterAppend(rows, [x], WithState(g, n));
    assert [x][1..] == [];
  }

  /** A row whose SIGN_STATE is none of 0, 1 and 3 changes none of the three counts. */
  lemma OtherStateCountsNowhere(rows: seq<SupAfterCare>, x: SupAfterCare, g: GroupKey)
    requires StateOf(x).Ok? && (StateOf(x).value.None? || StateOf(x).value.value !in {0, 1, 3})
    ensures CountState(rows + [x], g, 0) == CountState(rows, g, 0)
    ensures CountState(rows + [x], g, 1) == CountState(rows, g, 1)
    ensures CountState(rows + [x], g, 3) == CountState(rows, g, 3)
  {
    CountStateSnoc(rows, x, g, 0);
    CountStateSnoc(rows, x, g, 1);
    CountStateSnoc(rows, x, g, 3);
  }

  // ------------------------------------- lists_clean: the latest branch entries

  predicate IsBranchEntry(e: ListEntry) {
    e.parentId == Some(BranchListParent)
  }

  /** ISNULL(ModifiedOnDate, CreatedOnDate). */
  function Stamp(e: ListEntry): (t: Option<DateTime>)
    ensures e.modifiedOnDate.Some? ==> t == e.modifiedOnDate
    ensures e.modifiedOnDate.None? ==> t == e.createdOnDate
  {
    if e.modifiedOnDate.Some? then e.modifiedOnDate else e.createdOnDate
  }

  /** ORDER BY ISNULL(ModifiedOnDate, CreatedOnDate) DESC, EntryID DESC. */
  predicate LatestFirst(a: ListEntry, b: ListEntry) {
    DescNullsLast(Stamp(a), Stamp(b)) && (DescNullsLast(Stamp(b), Stamp(a)) ==> a.entryId >= b.entryId)
  }

  lemma LatestFirstPreorder()
    ensures TotalPreorder(LatestFirst)
  {
    forall a: ListEntry, b: ListEntry, c: ListEntry
      ensures LatestFirst(a, b) || LatestFirst(b, a)
      ensures LatestFirst(a, b) && LatestFirst(b, c) ==> LatestFirst(a, c)
    {
      DescNullsLastPreorder(Stamp(a), Stamp(b), Stamp(c));
      DescNullsLastPreorder(Stamp(c), Stamp(b), Stamp(a));
      DescNullsLastPreorder(Stamp(b), Stamp(a), Stamp(c));
    }
  }

  /** Two entries that precede each other share the stamp and the EntryID: the pick is the same entry when EntryIDs are keys. */
  lemma LatestTieIsSameEntry(a: ListEntry, b: ListEntry)
    requires LatestFirst(a, b) && LatestFirst(b, a)
    ensures a.entryId == b.entryId && Stamp(a) == Stamp(b)
  {
    if Stamp(a).Some? && Stamp(b).Some? {
      DateTimeLeAntisym(Stamp(a).value, Stamp(b).value);
    }
  }

  lemma DateTimeLeAntisym(a: DateTime, b: DateTime)
    requires DateTimeLe(a, b) && DateTimeLe(b, a)
    ensures a == b
  {
  }

  function ValueOf(e: ListEntry): Option<string> {
    e.value
  }

  /** e is a branch entry of Value v, and no entry of v is later, nor as late with a larger EntryID. */
  predicate IsLatest(lists: seq<ListEntry>, v: Option<string>, e: ListEntry) {
    e in lists && IsBranchEntry(e) && e.value == v
    && forall x {:trigger LatestFirst(e, x)} :: x in lists && IsBranchEntry(x) && x.value == v ==> LatestFirst(e, x)
  }

  /**
   * lists_clean with rn = 1: one entry per Value of the branch list, the
   * latest of that Value.
   */
  function CleanLists(lists: seq<ListEntry>): (clean: seq<ListEntry>)
    ensures forall e :: e in clean ==> IsLatest(lists, e.value, e)
    ensures forall x :: x in lists && IsBranchEntry(x) ==> exists e :: e in clean && e.value == x.value
    ensures forall i, j :: 0 <= i < j < |clean| ==> clean[i].value != clean[j].value
  {
    var branches := Filter(lists, IsBranchEntry);
    LatestFirstPreorder();
    InFilter(lists, IsBranchEntry);
    var clean := GroupTops(branches, ValueOf, LatestFirst);
    forall e | e in clean ensures IsLatest(lists, e.value, e) {
      GroupTopsAreTops(branches, ValueOf, LatestFirst, e);
    }
    forall x | x in lists && IsBranchEntry(x) ensures exists e :: e in clean && e.value == x.value {
      GroupTopsCover(branches, ValueOf, LatestFirst, x);
    }
    GroupTopsKeysDistinct(branches, ValueOf, LatestFirst);
    clean
  }

  // ------------------------------------------------ org_clean: one org per code

  /** UPPER(LTRIM(RTRIM(ORG_CODE))) = UPPER(LTRIM(RTRIM(code))); NULL never matches. */
  predicate OrgMatches(code: string, o: OrgEntry) {
    o.orgCode.Some? && NormCode(o.orgCode.value) == NormCode(code)
  }

  /** ORDER BY ORG_CODE inside an org_clean partition. */
  predicate OrgCodeAsc(a: OrgEntry, b: OrgEntry) {
    LexLe(a.orgCode.GetOr(""), b.orgCode.GetOr(""))
  }

  lemma OrgCodeAscPreorder()
    ensures TotalPreorder(OrgCodeAsc)
  {
    forall a: OrgEntry, b: OrgEntry, c: OrgEntry
      ensures OrgCodeAsc(a, b) || OrgCodeAsc(b, a)
      ensures OrgCodeAsc(a, b) && OrgCodeAsc(b, c) ==> OrgCodeAsc(a, c)
    {
      LexLeTotal(a.orgCode.GetOr(""), b.orgCode.GetOr(""));
      if OrgCodeAsc(a, b) && OrgCodeAsc(b, c) {
        LexLeTrans(a.orgCode.GetOr(""), b.orgCode.GetOr(""), c.orgCode.GetOr(""));
      }
    }
  }

  function OrgOf(code: string): OrgEntry -> bool {
    o => OrgMatches(code, o)
  }

  /** LEFT JOIN org_clean oc ON oc.rn = 1 AND the codes match: the first matching org by ORG_CODE, or none. */
  function OrgFor(orgs: seq<OrgEntry>, code: Option<string>): (o: Option<OrgEntry>)
    ensures o.None? <==> code.None? || forall x :: x in orgs ==> !OrgMatches(code.value, x)
    ensures o.Some? ==> o.value in orgs && OrgMatches(code.value, o.value)
    ensures o.Some? ==> forall x :: x in orgs && OrgMatches(code.value, x) ==> OrgCodeAsc(o.value, x)
  {
    if code.None? then None
    else
      var part := Filter(orgs, OrgOf(code.value));
      InFilter(orgs, OrgOf(code.value));
      if part == [] then None
      else
        OrgCodeAscPreorder();
        Some(Top(part, OrgCodeAsc))
  }

  // ---------------------------------------------------------------- the join

  /** LEFT JOIN agg ON the trimmed, upper-cased branch codes: NULL on either side never matches. */
  predicate BranchMatches(e: ListEntry, g: GroupKey) {
    e.value.Some? && g.branchCode.Some? && NormCode(e.value.value) == NormCode(g.branchCode.value)
  }

  function MatchesBranch(e: ListEntry): GroupKey -> bool {
    g => BranchMatches(e, g)
  }

  /** The row of a branch without groups: ISNULL(count, 0) and no org. */
  function ZeroRow(e: ListEntry): FlatRow {
    FlatRow(e.value, e.text, e.sortOrder, None, None, 0, 0, 0)
  }

  /** The org columns of a row are those of an Org_Lists entry whose code matches. */
  predicate FromOrg(orgs: seq<OrgEntry>, code: string, row: FlatRow) {
    exists o :: o in orgs && OrgMatches(code, o) && o.orgCode == row.orgCode && o.orgName == row.orgName
  }

  /** The row of a branch entry joined with one group and its org. */
  function GroupRow(e: ListEntry, g: GroupKey, counted: seq<SupAfterCare>, orgs: seq<OrgEntry>): (row: FlatRow)
    ensures row.branchCode == e.value && row.branchName == e.text && row.sortOrder == e.sortOrder
    ensures row.pendingCount == CountState(counted, g, 0)
    ensures row.signedCount == CountState(counted, g, 1)
    ensures row.caseCount == CountState(counted, g, 3)
    ensures row.orgCode.None? <==> g.orgCode.None? || forall x :: x in orgs ==> !OrgMatches(g.orgCode.value, x)
    ensures row.orgCode.Some? ==> FromOrg(orgs, g.orgCode.value, row)
  {
    var oc := OrgFor(orgs, g.orgCode);
    FlatRow(e.value, e.text, e.sortOrder,
            if oc.Some? then oc.value.orgCode else None,
            if oc.Some? then oc.value.orgName else None,
            CountState(counted, g, 0), CountState(counted, g, 1), CountState(counted, g, 3))
  }

  function GroupRows(e: ListEntry, groups: seq<GroupKey>, counted: seq<SupAfterCare>, orgs: seq<OrgEntry>): (rows: seq<FlatRow>)
    ensures |rows| == |groups|
    ensures forall k :: 0 <= k < |groups| ==> rows[k] == GroupRow(e, groups[k], counted, orgs)
  {
    if groups == [] then [] else [GroupRow(e, groups[0], counted, orgs)] + GroupRows(e, groups[1..], counted, orgs)
  }

  /** The groups that join with a branch entry, each once. */
  function MatchedGroups(e: ListEntry, counted: seq<SupAfterCare>): (gs: seq<GroupKey>)
    ensures forall g :: g in gs <==> BranchMatches(e, g) && HasGroup(counted, g)
    ensures forall i, j :: 0 <= i < j < |gs| ==> gs[i] != gs[j]
  {
    var keys := GroupKeys(counted);
    InFilter(keys, MatchesBranch(e));
    var gs := Filter(keys, MatchesBranch(e));
    assert forall i, j :: 0 <= i < j < |gs| ==> gs[i] != gs[j] by {
      FilterDistinct(keys, MatchesBranch(e));
    }
    gs
  }

  /** The rows one branch entry contributes: one per joined group, or a single zero row. */
  function BranchRows(e: ListEntry, counted: seq<SupAfterCare>, orgs: seq<OrgEntry>): (rows: seq<FlatRow>)
    ensures |rows| >= 1
    ensures MatchedGroups(e, counted) == [] ==> rows == [ZeroRow(e)]
    ensures MatchedGroups(e, counted) != [] ==>
              |rows| == |MatchedGroups(e, counted)|
              && forall k :: 0 <= k < |rows| ==> rows[k] == GroupRow(e, MatchedGroups(e, counted)[k], counted, orgs)
  {
    var gs := MatchedGroups(e, counted);
    if gs == [] then [ZeroRow(e)] else GroupRows(e, gs, counted, orgs)
  }

  function BranchRowsOf(counted: seq<SupAfterCare>, orgs: seq<OrgEntry>): ListEntry -> seq<FlatRow> {
    e => BranchRows(e, counted, orgs)
  }

  /** lists_clean LEFT JOIN agg LEFT JOIN org_clean, branch by branch. */
  function Joined(clean: seq<ListEntry>, counted: seq<SupAfterCare>, orgs: seq<OrgEntry>): (rows: seq<FlatRow>)
    ensures forall row :: row in rows <==> exists e :: e in clean && row in BranchRows(e, counted, orgs)
  {
    forall row ensures row in FlatMap(clean, BranchRowsOf(counted, orgs)) <==> exists e :: e in clean && row in BranchRows(e, counted, orgs) {
      InFlatMap(clean, BranchRowsOf(counted, orgs), row);
    }
    FlatMap(clean, BranchRowsOf(counted, orgs))
  }

  // --------------------------------------------------------------- the order

  /** ISNULL(ls.SortOrder, 2147483647). */
  function SortKey(r: FlatRow): (k: int)
    ensures r.sortOrder.Some? ==> k == r.sortOrder.value
    ensures r.sortOrder.None? ==> k == IntMax
  {
    r.sortOrder.GetOr(IntMax)
  }

  /** TRY_CONVERT(int, oc.ORG_CODE). */
  function NumericKey(r: FlatRow): (k: Option<int>)
    ensures k.Some? <==> r.orgCode.Some? && CastInt(r.orgCode.value).Ok?
  {
    if r.orgCode.None? then None else TryConvertInt(r.orgCode.value)
  }

  /** ORDER BY TRY_CONVERT(int, code) ASC: NULL first, as SQL Server sorts NULL. */
  predicate NumericNullsFirst(a: Option<int>, b: Option<int>) {
    a.None? || (b.Some? && a.value <= b.value)
  }

  /** The order the comment on the query asks for: codes that are numbers first, in numeric order. */
  predicate NumericNullsLast(a: Option<int>, b: Option<int>) {
    b.None? || (a.Some? && a.value <= b.value)
  }

  /** ORDER BY oc.ORG_CODE ASC: NULL first. */
  predicate CodeNullsFirst(a: Option<string>, b: Option<string>) {
    a.None? || (b.Some? && LexLe(a.value, b.value))
  }

  ghost predicate OptionIntPreorder(numLe: (Option<int>, Option<int>) -> bool) {
    forall a, b, c :: (numLe(a, b) || numLe(b, a)) && (numLe(a, b) && numLe(b, c) ==> numLe(a, c))
  }

  /** The three sort keys in turn, the org code's numeric key compared by numLe. */
  predicate ReportOrder(numLe: (Option<int>, Option<int>) -> bool, a: FlatRow, b: FlatRow) {
    SortKey(a) < SortKey(b)
    || (SortKey(a) == SortKey(b)
        && (!numLe(NumericKey(b), NumericKey(a))
            || (numLe(NumericKey(a), NumericKey(b)) && CodeNullsFirst(a.orgCode, b.orgCode))))
  }

  lemma ReportOrderPreorder(numLe: (Option<int>, Option<int>) -> bool, a: FlatRow, b: FlatRow, c: FlatRow)
    requires OptionIntPreorder(numLe)
    ensures ReportOrder(numLe, a, b) || ReportOrder(numLe, b, a)
    ensures ReportOrder(numLe, a, b) && ReportOrder(numLe, b, c) ==> ReportOrder(numLe, a, c)
  {
    var na, nb, nc := NumericKey(a), NumericKey(b), NumericKey(c);
    assert (numLe(na, nb) || numLe(nb, na)) && (numLe(na, nb) && numLe(nb, nc) ==> numLe(na, nc));
    assert numLe(nb, nc) && numLe(nc, na) ==> numLe(nb, na);
    assert numLe(nc, na) && numLe(na, nb) ==> numLe(nc, nb);
    if a.orgCode.Some? && b.orgCode.Some? {
      LexLeTotal(a.orgCode.value, b.orgCode.value);
    }
    if CodeNullsFirst(a.orgCode, b.orgCode) && CodeNullsFirst(b.orgCode, c.orgCode)
       && a.orgCode.Some? && b.orgCode.Some? && c.orgCode.Some? {
      LexLeTrans(a.orgCode.value, b.orgCode.value, c.orgCode.value);
    }
  }

  lemma NumericKeyOrdersArePreorders()
    ensures OptionIntPreorder(NumericNullsFirst)
    ensures OptionIntPreorder(NumericNullsLast)
  {
  }

  /** The ORDER BY of the query as written. */
  predicate AsWrittenOrder(a: FlatRow, b: FlatRow) {
    ReportOrder(NumericNullsFirst, a, b)
  }

  /** The ORDER BY the query's comment describes. */
  predicate IntendedOrder(a: FlatRow, b: FlatRow) {
    ReportOrder(NumericNullsLast, a, b)
  }

  lemma AsWrittenOrderPreorder()
    ensures TotalPreorder(AsWrittenOrder)
  {
    NumericKeyOrdersArePreorders();
    forall a: FlatRow, b: FlatRow, c: FlatRow
      ensures AsWrittenOrder(a, b) || AsWrittenOrder(b, a)
      ensures AsWrittenOrder(a, b) && AsWrittenOrder(b, c) ==> AsWrittenOrder(a, c)
    {
      ReportOrderPreorder(NumericNullsFirst, a, b, c);
    }
  }

  lemma IntendedOrderPreorder()
    ensures TotalPreorder(IntendedOrder)
  {
    NumericKeyOrdersArePreorders();
    forall a: FlatRow, b: FlatRow, c: FlatRow
      ensures IntendedOrder(a, b) || IntendedOrder(b, a)
      ensures IntendedOrder(a, b) && IntendedOrder(b, c) ==> IntendedOrder(a, c)
    {
      ReportOrderPreorder(NumericNullsLast, a, b, c);
    }
  }

  /** A smaller sort order comes first under either order; a NULL sort order counts as 2147483647. */
  lemma SortOrderFirst(numLe: (Option<int>, Option<int>) -> bool, a: FlatRow, b: FlatRow)
    requires SortKey(a) < SortKey(b)
    ensures ReportOrder(numLe, a, b) && !ReportOrder(numLe, b, a)
  {
  }

  /** A branch without a sort order comes after every branch whose sort order is below 2147483647. */
  lemma NullSortOrderLast(numLe: (Option<int>, Option<int>) -> bool, a: FlatRow, b: FlatRow)
    requires a.sortOrder.Some? && a.sortOrder.value < IntMax && b.sortOrder.None?
    ensures ReportOrder(numLe, a, b) && !ReportOrder(numLe, b, a)
  {
    SortOrderFirst(numLe, a, b);
  }

  /**
   * As written: within one sort order, a row whose org code is not a number,
   * or has no org at all, precedes every row whose code is a number.
   */
  lemma AsWrittenPutsTextFirst(a: FlatRow, b: FlatRow)
    requires SortKey(a) == SortKey(b) && NumericKey(a).None? && NumericKey(b).Some?
    ensures AsWrittenOrder(a, b) && !AsWrittenOrder(b, a)
  {
  }

  /** As intended: within one sort order, every row whose org code is a number comes first. */
  lemma IntendedPutsNumbersFirst(a: FlatRow, b: FlatRow)
    requires SortKey(a) == SortKey(b) && NumericKey(a).Some? && NumericKey(b).None?
    ensures IntendedOrder(a, b) && !IntendedOrder(b, a)
  {
  }

  /** Among numeric codes both orders compare the numbers, so "9" precedes "10". */
  lemma NumbersInNumericOrder(a: FlatRow, b: FlatRow)
    requires SortKey(a) == SortKey(b) && NumericKey(a).Some? && NumericKey(b).Some?
    requires NumericKey(a).value < NumericKey(b).value
    ensures AsWrittenOrder(a, b) && !AsWrittenOrder(b, a)
    ensures IntendedOrder(a, b) && !IntendedOrder(b, a)
  {
  }

  /** In a report sorted as intended, within one sort order every numeric code is listed before every other. */
  lemma {:induction false} IntendedListsNumbersFirst(rows: seq<FlatRow>, i: int, j: int)
    requires SortedBy(rows, IntendedOrder)
    requires 0 <= i < |rows| && 0 <= j < |rows| && SortKey(rows[i]) == SortKey(rows[j])
    requires NumericKey(rows[i]).Some? && NumericKey(rows[j]).None?
    ensures i < j
  {
    IntendedPutsNumbersFirst(rows[i], rows[j]);
  }

  /** A report row of one branch and sort order with org code code. */
  function RowWithCode(code: string): (row: FlatRow)
    ensures row.orgCode == Some(code) && SortKey(row) == 1
  {
    FlatRow(Some("B01"), Some("branch"), Some(1), Some(code), Some("org"), 0, 0, 0)
  }

  /**
   * Org codes "A01" and "5" under one sort order: the query as written lists
   * "A01" first, although only "5" is a number; the intended order lists "5"
   * first.
   */
  lemma NonNumericCodeListedFirst()
    ensures AsWrittenOrder(RowWithCode("A01"), RowWithCode("5")) && !AsWrittenOrder(RowWithCode("5"), RowWithCode("A01"))
    ensures IntendedOrder(RowWithCode("5"), RowWithCode("A01")) && !IntendedOrder(RowWithCode("A01"), RowWithCode("5"))
  {
    var text, number := RowWithCode("A01"), RowWithCode("5");
    assert LTrim("A01") == "A01" && RTrim("A01") == "A01";
    assert !AllDigits("A01");
    assert NumericKey(text).None?;
    ToIntDigits("5");
    assert DigitsValue("5") == 5;
    assert NumericKey(number) == Some(5);
    AsWrittenPutsTextFirst(text, number);
    IntendedPutsNumbersFirst(number, text);
  }

  // ---------------------------------------------------------------- the query

  /**
   * The report under a given ORDER BY: the joined rows, sorted, or the
   * conversion error of a counted row whose SIGN_STATE is not a number.
   */
  function Aggregates(from: Date, to: Date, afterCare: seq<SupAfterCare>, lists: seq<ListEntry>, orgs: seq<OrgEntry>,
                      order: (FlatRow, FlatRow) -> bool): (r: Result<seq<FlatRow>, ConversionError>)
    requires TotalPreorder(order)
    ensures r.Err? <==> exists x :: x in afterCare && InPeriod(from, to, x) && StateOf(x).Err?
    ensures r.Ok? ==> multiset(r.value) == multiset(Joined(CleanLists(lists), Filter(afterCare, InPeriodOf(from, to)), orgs))
    ensures r.Ok? ==> SortedBy(r.value, order)
  {
    var counted := Filter(afterCare, InPeriodOf(from, to));
    InFilter(afterCare, InPeriodOf(from, to));
    var failure := StateFailure(counted);
    if failure.Some? then
      Err(failure.value)
    else
      assert forall x :: x in counted ==> StateOf(x).Ok?;
      Ok(SortBy(Joined(CleanLists(lists), counted, orgs), order))
  }

  /** findAggregates exactly as the query is written. */
  function FindAggregatesAsWritten(from: Date, to: Date, afterCare: seq<SupAfterCare>, lists: seq<ListEntry>,
                                   orgs: seq<OrgEntry>): (r: Result<seq<FlatRow>, ConversionError>)
    ensures r.Err? <==> exists x :: x in afterCare && InPeriod(from, to, x) && StateOf(x).Err?
    ensures r.Ok? ==> multiset(r.value) == multiset(Joined(CleanLists(lists), Filter(afterCare, InPeriodOf(from, to)), orgs))
    ensures r.Ok? ==> SortedBy(r.value, AsWrittenOrder)
  {
    AsWrittenOrderPreorder();
    Aggregates(from, to, afterCare, lists, orgs, AsWrittenOrder)
  }

  /** findAggregates with the org codes that are numbers first, as the query's comment says. */
  function FindAggregates(from: Date, to: Date, afterCare: seq<SupAfterCare>, lists: seq<ListEntry>,
                          orgs: seq<OrgEntry>): (r: Result<seq<FlatRow>, ConversionError>)
    ensures r.Err? <==> exists x :: x in afterCare && InPeriod(from, to, x) && StateOf(x).Err?
    ensures r.Ok? ==> multiset(r.value) == multiset(Joined(CleanLists(lists), Filter(afterCare, InPeriodOf(from, to)), orgs))
    ensures r.Ok? ==> SortedBy(r.value, IntendedOrder)
  {
    IntendedOrderPreorder();
    Aggregates(from, to, afterCare, lists, orgs, IntendedOrder)
  }

  // ------------------------------------------------------ what the report says

  /** A row outside the period changes nothing in the report. */
  lemma {:induction false} OutOfPeriodIgnored(from: Date, to: Date, afterCare: seq<SupAfterCare>, x: SupAfterCare,
                                              lists: seq<ListEntry>, orgs: seq<OrgEntry>, order: (FlatRow, FlatRow) -> bool)
    requires TotalPreorder(order) && !InPeriod(from, to, x)
    ensures Aggregates(from, to, afterCare + [x], lists, orgs, order) == Aggregates(from, to, afterCare, lists, orgs, order)
  {
    FilterAppend(afterCare, [x], InPeriodOf(from, to));
    assert [x][1..] == [];
    assert Filter(afterCare + [x], InPeriodOf(from, to)) == Filter(afterCare, InPeriodOf(from, to));
  }

  /** The report lists branch entry e: a row with its fields, the zero row when no group matches it. */
  predicate ListsBranch(e: ListEntry, counted: seq<SupAfterCare>, report: seq<FlatRow>) {
    (exists row :: row in report && row.branchCode == e.value && row.branchName == e.text && row.sortOrder == e.sortOrder)
    && (MatchedGroups(e, counted) == [] ==> ZeroRow(e) in report)
  }

  lemma JoinedBranchListed(e: ListEntry, clean: seq<ListEntry>, counted: seq<SupAfterCare>, orgs: seq<OrgEntry>,
                           report: seq<FlatRow>)
    requires e in clean && multiset(report) == multiset(Joined(clean, counted, orgs))
    ensures ListsBranch(e, counted, report)
  {
    var rows := BranchRows(e, counted, orgs);
    assert rows[0] in rows;
    assert rows[0] in Joined(clean, counted, orgs);
    assert rows[0] in multiset(report);
    if MatchedGroups(e, counted) == [] {
      assert rows[0] == ZeroRow(e);
    }
  }

  /** Every deduplicated branch is in the report, with zeros and no org when none of its rows is in the period. */
  lemma {:induction false} EveryBranchListed(from: Date, to: Date, afterCare: seq<SupAfterCare>, lists: seq<ListEntry>,
                                             orgs: seq<OrgEntry>, order: (FlatRow, FlatRow) -> bool, x: ListEntry)
    requires TotalPreorder(order) && x in lists && IsBranchEntry(x)
    requires Aggregates(from, to, afterCare, lists, orgs, order).Ok?
    ensures exists e :: IsLatest(lists, x.value, e)
              && ListsBranch(e, Filter(afterCare, InPeriodOf(from, to)), Aggregates(from, to, afterCare, lists, orgs, order).value)
  {
    var counted := Filter(afterCare, InPeriodOf(from, to));
    var report := Aggregates(from, to, afterCare, lists, orgs, order).value;
    var clean := CleanLists(lists);
    var e :| e in clean && e.value == x.value;
    JoinedBranchListed(e, clean, counted, orgs, report);
    assert IsLatest(lists, x.value, e);
  }

  /** A row that a branch entry contributes: its zero row, or its join with one matching group. */
  predicate RowOfBranch(e: ListEntry, counted: seq<SupAfterCare>, orgs: seq<OrgEntry>, row: FlatRow) {
    (MatchedGroups(e, counted) == [] && row == ZeroRow(e))
    || (exists g :: g in MatchedGroups(e, counted) && row == GroupRow(e, g, counted, orgs))
  }

  lemma BranchRowOrigin(e: ListEntry, counted: seq<SupAfterCare>, orgs: seq<OrgEntry>, row: FlatRow)
    requires row in BranchRows(e, counted, orgs)
    ensures RowOfBranch(e, counted, orgs, row)
  {
    var rows := BranchRows(e, counted, orgs);
    var gs := MatchedGroups(e, counted);
    if gs != [] {
      var k :| 0 <= k < |rows| && rows[k] == row;
      assert gs[k] in gs && row == GroupRow(e, gs[k], counted, orgs);
    }
  }

  /**
   * Every report row is a branch's latest entry joined with one group of
   * rows in the period whose branch code matches it (with that group's
   * counts and org), or the zero row of a branch no group matches.
   */
  lemma {:induction false} RowsComeFromLatestEntries(from: Date, to: Date, afterCare: seq<SupAfterCare>, lists: seq<ListEntry>,
                                                     orgs: seq<OrgEntry>, order: (FlatRow, FlatRow) -> bool, row: FlatRow)
    requires TotalPreorder(order)
    requires Aggregates(from, to, afterCare, lists, orgs, order).Ok?
    requires row in Aggregates(from, to, afterCare, lists, orgs, order).value
    ensures exists e: ListEntry :: IsLatest(lists, e.value, e)
                        && RowOfBranch(e, Filter(afterCare, InPeriodOf(from, to)), orgs, row)
  {
    var counted := Filter(afterCare, InPeriodOf(from, to));
    var report := Aggregates(from, to, afterCare, lists, orgs, order).value;
    var clean := CleanLists(lists);
    assert row in multiset(report);
    assert row in Joined(clean, counted, orgs);
    var e :| e in clean && row in BranchRows(e, counted, orgs);
    BranchRowOrigin(e, counted, orgs, row);
  }
}
