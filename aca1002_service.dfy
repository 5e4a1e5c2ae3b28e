/**
 * The after-care sign-off desk: batch status changes on SUP_AfterCare rows
 * (sign, transfer to another office, send back, reassign), opening a case
 * for one row, and the page arithmetic of the list query. ACA_STATE and
 * SIGN_STATE hold "0" (not signed), "1" (signed) or "3" (case opened).
 */
module Aca1002Service {
  import opened Wrappers
  import opened Calendar
  import opened SqlText
  import opened AcaBrdRepository
  import opened AfterCare

  const NotSigned := "0"
  const SignedOff := "1"
  const CaseOpened := "3"

  const MsgSaved := "儲存成功"
  const MsgNotFound := "查不到資料"
  const MsgPageMissing := "請求分頁不存在"
  /** The message of the SQL Server error a non-GUID id text raises. */
  const MsgNotGuid := "Conversion failed when converting from a character string to uniqueidentifier."

  /** DataDto<Void> with its ResponseInfo: code 1 and the message. */
  datatype Reply = Reply(code: int, message: string)

  function Saved(): Reply {
    Reply(1, MsgSaved)
  }

  // ------------------------------------------------- per-row status changes

  /** signList signs a row only while its ACA_STATE is "0" or NULL. */
  predicate Signable(v: SupAfterCare) {
    v.acaState == Some(NotSigned) || v.acaState.None?
  }

  /** The body of the signList loop. */
  function Sign(v: SupAfterCare, acaReceiptDate: Option<Date>, acaUser: Option<string>): (w: SupAfterCare)
    ensures Signable(v) ==> w == v.(acaReceiptDate := acaReceiptDate, acaUser := acaUser, acaState := Some(SignedOff))
    ensures !Signable(v) ==> w == v
    ensures !Signable(w) && w.id == v.id
  {
    if Signable(v) then v.(acaReceiptDate := acaReceiptDate, acaUser := acaUser, acaState := Some(SignedOff)) else v
  }

  /** The body of the transPort loop: the row moves to another office and both states start over. */
  function TransPort(v: SupAfterCare, signProtName: Option<string>, signProtNo: Option<string>): (w: SupAfterCare)
    ensures w == v.(signProtName := signProtName, signProtNo := signProtNo,
                    acaReceiptDate := None, acaUser := None, acaState := Some(NotSigned),
                    signDate := None, signUser := None, signState := Some(NotSigned))
    ensures Signable(w) && w.id == v.id
  {
    v.(signProtName := signProtName, signProtNo := signProtNo,
       acaReceiptDate := None, acaUser := None, acaState := Some(NotSigned),
       signDate := None, signUser := None, signState := Some(NotSigned))
  }

  /** The body of the goBack loop: the receipt is undone, the sign-off fields stay. */
  function GoBack(v: SupAfterCare): (w: SupAfterCare)
    ensures w == v.(acaReceiptDate := None, acaUser := None, acaState := Some(NotSigned))
    ensures Signable(w) && w.id == v.id
    ensures w.signState == v.signState && w.signProtNo == v.signProtNo && w.signProtName == v.signProtName
            && w.signDate == v.signDate && w.signUser == v.signUser
  {
    v.(acaReceiptDate := None, acaUser := None, acaState := Some(NotSigned))
  }

  /** The body of the reassign loop: a new desk user, the receipt undone, the sign-off fields kept. */
  function Reassign(v: SupAfterCare, acaUser: Option<string>): (w: SupAfterCare)
    ensures w == v.(acaReceiptDate := None, acaUser := acaUser, acaState := Some(NotSigned))
    ensures Signable(w) && w.id == v.id
    ensures w.signState == v.signState && w.signProtNo == v.signProtNo && w.signProtName == v.signProtName
            && w.signDate == v.signDate && w.signUser == v.signUser
  {
    v.(acaReceiptDate := None, acaUser := acaUser, acaState := Some(NotSigned))
  }

  /** What save writes on the row once the case exists: both states "3", the case's last editor, today. */
  function OpenCase(v: SupAfterCare, upUser: Option<string>, today: Date): (w: SupAfterCare)
    ensures w == v.(acaState := Some(CaseOpened), signState := Some(CaseOpened), upUser := upUser, upDateTime := Some(today))
    ensures !Signable(w) && w.id == v.id
  {
    v.(acaState := Some(CaseOpened), signState := Some(CaseOpened), upUser := upUser, upDateTime := Some(today))
  }

  /** Signing again, with any payload, changes nothing. */
  lemma SignIdempotent(v: SupAfterCare, d1: Option<Date>, u1: Option<string>, d2: Option<Date>, u2: Option<string>)
    ensures Sign(Sign(v, d1, u1), d2, u2) == Sign(v, d1, u1)
  {
  }

  /** Repeating a transfer, a send-back, a reassignment or a case opening with the same payload changes nothing. */
  lemma RepeatsIdempotent(v: SupAfterCare, name: Option<string>, no: Option<string>, user: Option<string>, today: Date)
    ensures TransPort(TransPort(v, name, no), name, no) == TransPort(v, name, no)
    ensures GoBack(GoBack(v)) == GoBack(v)
    ensures Reassign(Reassign(v, user), user) == Reassign(v, user)
    ensures OpenCase(OpenCase(v, user, today), user, today) == OpenCase(v, user, today)
  {
  }

  /** After a send-back, a reassignment or a transfer, signList signs the row again. */
  lemma SignAfterReset(v: SupAfterCare, d: Option<Date>, u: Option<string>)
    ensures Sign(GoBack(v), d, u).acaState == Some(SignedOff)
    ensures Sign(Reassign(v, u), d, u).acaState == Some(SignedOff)
    ensures Sign(TransPort(v, None, None), d, u).acaState == Some(SignedOff)
  {
  }

  // --------------------------------------------------- the batch operations

  /**
   * The rows are stored under their own ids. ID is a uniqueidentifier column,
   * so every stored id reads back in its canonical text.
   */
  ghost predicate Keyed(rows: map<string, SupAfterCare>) {
    forall k :: k in rows ==> rows[k].id == k && CanonicalGuid(k)
  }

  /** The ids of a list of rows. */
  function IdsOf(s: seq<SupAfterCare>): set<string> {
    set v | v in s :: v.id
  }

  lemma IdsOfSnoc(s: seq<SupAfterCare>, v: SupAfterCare)
    ensures IdsOf(s + [v]) == IdsOf(s) + {v.id}
  {
    assert forall w :: w in s + [v] <==> w in s || w == v;
  }

  /**
   * The listed id texts converted to uniqueidentifier, as the IN list
   * compares them with the column; None when one of them does not convert.
   */
  function GuidsOf(itemIds: seq<string>): (r: Option<seq<string>>)
    ensures r.Some? <==> forall k :: 0 <= k < |itemIds| ==> GuidOf(itemIds[k]).Some?
    ensures r.Some? ==> |r.value| == |itemIds| && forall k :: 0 <= k < |itemIds| ==> GuidOf(itemIds[k]) == Some(r.value[k])
  {
    if itemIds == [] then Some([])
    else
      var g, rest := GuidOf(itemIds[0]), GuidsOf(itemIds[1..]);
      if g.None? || rest.None? then None else Some([g.value] + rest.value)
  }

  /** A converted GUID is listed exactly when some listed text converts to it. */
  lemma GuidsOfMembers(itemIds: seq<string>)
    requires GuidsOf(itemIds).Some?
    ensures forall g :: g in GuidsOf(itemIds).value <==> exists k :: 0 <= k < |itemIds| && GuidOf(itemIds[k]) == Some(g)
  {
    var guids := GuidsOf(itemIds).value;
    forall g | g in guids
      ensures exists k :: 0 <= k < |itemIds| && GuidOf(itemIds[k]) == Some(g)
    {
      var k :| 0 <= k < |guids| && guids[k] == g;
      assert GuidOf(itemIds[k]) == Some(g);
    }
  }

  /**
   * The lookup on converted ids: the stored rows of the listed GUIDs, each
   * once however often it is listed, in the order first listed.
   */
  function FindAllByGuid(rows: map<string, SupAfterCare>, guids: seq<string>): (found: seq<SupAfterCare>)
    requires Keyed(rows)
    ensures IdsOf(found) == set k | k in guids && k in rows
    ensures forall v :: v in found ==> v.id in rows && rows[v.id] == v
    ensures forall i, j :: 0 <= i < j < |found| ==> found[i].id != found[j].id
  {
    if guids == [] then []
    else
      var n := |guids| - 1;
      var last := guids[n];
      var front := FindAllByGuid(rows, guids[..n]);
      assert forall k :: k in guids <==> k in guids[..n] || k == last by {
        assert guids == guids[..n] + [last];
      }
      if last in rows && last !in guids[..n] then
        var found := front + [rows[last]];
        assert forall v :: v in found <==> v in front || v == rows[last];
        assert IdsOf(found) == IdsOf(front) + {last};
        found
      else front
  }

  /**
   * findAllById: the conversion error when an id text is no uniqueidentifier,
   * otherwise the stored rows whose id some listed text converts to.
   */
  function FindAllById(rows: map<string, SupAfterCare>, itemIds: seq<string>): (r: Result<seq<SupAfterCare>, string>)
    requires Keyed(rows)
    ensures r.Err? <==> exists k :: 0 <= k < |itemIds| && GuidOf(itemIds[k]).None?
    ensures r.Err? <==> GuidsOf(itemIds).None?
    ensures r.Err? ==> r.error == MsgNotGuid
    ensures r.Ok? ==> IdsOf(r.value) == set g | g in GuidsOf(itemIds).value && g in rows
    ensures r.Ok? ==> IdsOf(r.value) == set g | g in rows && exists k :: 0 <= k < |itemIds| && GuidOf(itemIds[k]) == Some(g)
    ensures r.Ok? ==> forall v :: v in r.value ==> v.id in rows && rows[v.id] == v
    ensures r.Ok? ==> forall i, j :: 0 <= i < j < |r.value| ==> r.value[i].id != r.value[j].id
  {
    var guids := GuidsOf(itemIds);
    if guids.None? then Err(MsgNotGuid)
    else
      var found := FindAllByGuid(rows, guids.value);
      GuidsOfMembers(itemIds);
      Ok(found)
  }

  /** The table after op is applied to every listed row that exists. */
  function ApplyListed(rows: map<string, SupAfterCare>, itemIds: seq<string>, op: SupAfterCare -> SupAfterCare): map<string, SupAfterCare> {
    map k | k in rows :: if k in itemIds then op(rows[k]) else rows[k]
  }

  /** The loop of every batch operation: each found row, changed by op, keyed by its id. */
  method ChangeEach(rows: map<string, SupAfterCare>, entityList: seq<SupAfterCare>, op: SupAfterCare -> SupAfterCare)
    returns (changed: map<string, SupAfterCare>)
    requires forall v :: v in entityList ==> v.id in rows && rows[v.id] == v
    ensures changed.Keys == IdsOf(entityList)
    ensures forall k :: k in changed ==> k in rows && changed[k] == op(rows[k])
  {
    changed := map[];
    var i := 0;
    while i < |entityList|
      invariant 0 <= i <= |entityList|
      invariant changed.Keys == IdsOf(entityList[..i])
      invariant forall k :: k in changed ==> k in rows && changed[k] == op(rows[k])
    {
      var v := entityList[i];
      assert entityList[..i + 1] == entityList[..i] + [v];
      IdsOfSnoc(entityList[..i], v);
      assert v in entityList;
      changed := changed[v.id := op(v)];
      i := i + 1;
    }
    assert entityList[..i] == entityList;
  }

  /** saveAll of the changed rows yields the table with op applied to every listed row. */
  lemma SaveAllChanged(rows: map<string, SupAfterCare>, itemIds: seq<string>, op: SupAfterCare -> SupAfterCare,
                       changed: map<string, SupAfterCare>)
    requires Keyed(rows) && forall v :: op(v).id == v.id
    requires changed.Keys == set k | k in itemIds && k in rows
    requires forall k :: k in changed ==> k in rows && changed[k] == op(rows[k])
    ensures rows + changed == ApplyListed(rows, itemIds, op)
    ensures Keyed(rows + changed)
  {
    var merged, applied := rows + changed, ApplyListed(rows, itemIds, op);
    assert merged.Keys == applied.Keys;
    forall k | k in merged ensures merged[k] == applied[k] {
      if k in changed {
        assert k in itemIds;
      }
    }
  }

  /** A batch whose row change is idempotent is idempotent. */
  lemma ApplyListedTwice(rows: map<string, SupAfterCare>, itemIds: seq<string>, op1: SupAfterCare -> SupAfterCare,
                         op2: SupAfterCare -> SupAfterCare)
    requires forall v :: op2(op1(v)) == op1(v)
    ensures ApplyListed(ApplyListed(rows, itemIds, op1), itemIds, op2) == ApplyListed(rows, itemIds, op1)
  {
  }

  /** Running signList twice, the second time with any payload, leaves what the first run wrote. */
  lemma SignListIdempotent(rows: map<string, SupAfterCare>, itemIds: seq<string>,
                           d1: Option<Date>, u1: Option<string>, d2: Option<Date>, u2: Option<string>)
    ensures var once := ApplyListed(rows, itemIds, (v: SupAfterCare) => Sign(v, d1, u1));
            ApplyListed(once, itemIds, (v: SupAfterCare) => Sign(v, d2, u2)) == once
  {
    forall v: SupAfterCare ensures Sign(Sign(v, d1, u1), d2, u2) == Sign(v, d1, u1) {
      SignIdempotent(v, d1, u1, d2, u2);
    }
    ApplyListedTwice(rows, itemIds, (v: SupAfterCare) => Sign(v, d1, u1), (v: SupAfterCare) => Sign(v, d2, u2));
  }

  class SignOffService {
    /** The SUP_AfterCare table, keyed by ID. */
    var rows: map<string, SupAfterCare>
    const acaBrd: seq<AcaBrd>

    ghost predicate Valid()
      reads this
    {
      Keyed(rows)
    }

    constructor(rows0: map<string, SupAfterCare>, acaBrd0: seq<AcaBrd>)
      requires Keyed(rows0)
      ensures Valid() && rows == rows0 && acaBrd == acaBrd0
    {
      rows := rows0;
      acaBrd := acaBrd0;
    }

    /**
     * The shape of every batch operation: findAllById, the loop that changes
     * each found row, then saveAll of the changed rows. The conversion error
     * rolls the transaction back.
     */
    method UpdateListed(itemIds: seq<string>, op: SupAfterCare -> SupAfterCare) returns (r: Result<Reply, string>)
      requires Valid()
      requires forall v :: op(v).id == v.id
      modifies this
      ensures Valid()
      ensures GuidsOf(itemIds).None? ==> r == Err(MsgNotGuid) && rows == old(rows)
      ensures GuidsOf(itemIds).Some? ==> r == Ok(Saved()) && rows == ApplyListed(old(rows), GuidsOf(itemIds).value, op)
    {
      var entityList := FindAllById(rows, itemIds);
      if entityList.Err? {
        return Err(entityList.error);
      }
      var changed := ChangeEach(rows, entityList.value, op);
      SaveAllChanged(rows, GuidsOf(itemIds).value, op, changed);
      rows := rows + changed;
      return Ok(Saved());
    }

    /** signList: signs the listed rows that are not signed yet; the others stay as they are. */
    method SignList(itemIds: seq<string>, acaReceiptDate: Option<Date>, acaUser: Option<string>) returns (reply: Result<Reply, string>)
      requires Valid()
      modifies this
      ensures Valid()
      ensures GuidsOf(itemIds).None? ==> reply == Err(MsgNotGuid) && rows == old(rows)
      ensures GuidsOf(itemIds).Some? ==>
                reply == Ok(Saved())
                && rows == ApplyListed(old(rows), GuidsOf(itemIds).value, (v: SupAfterCare) => Sign(v, acaReceiptDate, acaUser))
    {
      reply := UpdateListed(itemIds, (v: SupAfterCare) => Sign(v, acaReceiptDate, acaUser));
    }

    /** transPort: every listed row goes to the named office, unsigned. */
    method TransPortList(itemIds: seq<string>, signProtName: Option<string>, signProtNo: Option<string>) returns (reply: Result<Reply, string>)
      requires Valid()
      modifies this
      ensures Valid()
      ensures GuidsOf(itemIds).None? ==> reply == Err(MsgNotGuid) && rows == old(rows)
      ensures GuidsOf(itemIds).Some? ==>
                reply == Ok(Saved())
                && rows == ApplyListed(old(rows), GuidsOf(itemIds).value, (v: SupAfterCare) => TransPort(v, signProtName, signProtNo))
    {
      reply := UpdateListed(itemIds, (v: SupAfterCare) => TransPort(v, signProtName, signProtNo));
    }

    /** goBack: every listed row loses its receipt. */
    method GoBackList(itemIds: seq<string>) returns (reply: Result<Reply, string>)
      requires Valid()
      modifies this
      ensures Valid()
      ensures GuidsOf(itemIds).None? ==> reply == Err(MsgNotGuid) && rows == old(rows)
      ensures GuidsOf(itemIds).Some? ==> reply == Ok(Saved()) && rows == ApplyListed(old(rows), GuidsOf(itemIds).value, GoBack)
    {
      reply := UpdateListed(itemIds, GoBack);
    }

    /** reassign: every listed row goes to the given desk user, without a receipt. */
    method ReassignList(itemIds: seq<string>, acaUser: Option<string>) returns (reply: Result<Reply, string>)
      requires Valid()
      modifies this
      ensures Valid()
      ensures GuidsOf(itemIds).None? ==> reply == Err(MsgNotGuid) && rows == old(rows)
      ensures GuidsOf(itemIds).Some? ==>
                reply == Ok(Saved())
                && rows == ApplyListed(old(rows), GuidsOf(itemIds).value, (v: SupAfterCare) => Reassign(v, acaUser))
    {
      reply := UpdateListed(itemIds, (v: SupAfterCare) => Reassign(v, acaUser));
    }

    /**
     * save: the conversion error when the id text is no uniqueidentifier;
     * "查不到資料" when the row or the ACABrd record of its personal id is
     * missing; otherwise the row is marked as an opened case.
     */
    method Save(itemId: string, today: Date) returns (r: Result<Reply, string>)
      requires Valid()
      modifies this
      ensures Valid()
      ensures GuidOf(itemId).None? ==> r == Err(MsgNotGuid) && rows == old(rows)
      ensures GuidOf(itemId).Some? ==>
                var g := GuidOf(itemId).value;
                if g !in old(rows) then r == Err(MsgNotFound) && rows == old(rows)
                else
                  var aca := FindByAcaIdNo(acaBrd, old(rows)[g].namIdNo);
                  if aca.None? then r == Err(MsgNotFound) && rows == old(rows)
                  else r == Ok(Saved()) && rows == old(rows)[g := OpenCase(old(rows)[g], aca.value.modifiedByUserId, today)]
    {
      var id := GuidOf(itemId);
      if id.None? {
        return Err(MsgNotGuid);
      }
      if id.value !in rows {
        return Err(MsgNotFound);
      }
      var namData := rows[id.value];
      var acaData := FindByAcaIdNo(acaBrd, namData.namIdNo);
      if acaData.None? {
        return Err(MsgNotFound);
      }
      namData := OpenCase(namData, acaData.value.modifiedByUserId, today);
      rows := rows[id.value := namData];
      return Ok(Saved());
    }
  }

  /**
   * The ids match as uniqueidentifiers: a spelling of a stored id in lower
   * case or in braces selects the same rows as the stored text, and an id
   * text shorter than a GUID makes the whole lookup fail.
   */
  lemma {:induction false} IdSpellings(rows: map<string, SupAfterCare>, t: string)
    requires Keyed(rows) && GuidForm(t)
    ensures GuidsOf([t]) == GuidsOf([Upper(t)]) == GuidsOf(["{" + t + "}"]) == Some([Upper(t)])
    ensures FindAllById(rows, [t]) == FindAllById(rows, [Upper(t)]) == FindAllById(rows, ["{" + t + "}"])
  {
    GuidOfSpellings(t);
    GuidsOfOne(t);
    GuidsOfOne(Upper(t));
    GuidsOfOne("{" + t + "}");
  }

  lemma GuidsOfOne(x: string)
    ensures GuidsOf([x]) == if GuidOf(x).None? then None else Some([GuidOf(x).value])
  {
    assert [x][0] == x && [x][1..] == [];
    assert GuidsOf([]) == Some([]);
    if GuidOf(x).Some? {
      assert [GuidOf(x).value] + [] == [GuidOf(x).value];
    }
  }

  lemma {:induction false} ShortIdFails(rows: map<string, SupAfterCare>, itemIds: seq<string>, t: string)
    requires Keyed(rows) && |t| < 36
    ensures FindAllById(rows, itemIds + [t]) == Err(MsgNotGuid)
  {
    assert (itemIds + [t])[|itemIds|] == t;
  }

  /** A successful save leaves the row with a personal id some ACABrd row carries, and that row's editor. */
  lemma SaveFindsCase(acaBrd: seq<AcaBrd>, v: SupAfterCare, today: Date)
    requires FindByAcaIdNo(acaBrd, v.namIdNo).Some?
    ensures var w := OpenCase(v, FindByAcaIdNo(acaBrd, v.namIdNo).value.modifiedByUserId, today);
            exists b :: b in acaBrd && IdNoMatches(b.acaIdNo, w.namIdNo) && b.modifiedByUserId == w.upUser
  {
    var b := FindByAcaIdNo(acaBrd, v.namIdNo).value;
    assert b in acaBrd;
  }

  // ------------------------------------------------------ queryList paging

  datatype PagePayload = PagePayload(page: int, pageSize: int)

  datatype PageInfo = PageInfo(totalDatas: int, currentPage: Option<int>, pageItems: Option<int>, totalPages: Option<int>)

  datatype QueryError = PageNotFound(message: string) | DivisionByZero

  function Abs(x: int): nat {
    if x < 0 then -x else x
  }

  /**
   * Java's int division, which truncates toward zero: q * b lies between 0
   * and a, less than |b| away from a.
   */
  function JavaDiv(a: int, b: int): (q: int)
    requires b != 0
    ensures 0 <= q * b <= a || a <= q * b <= 0
    ensures Abs(a - q * b) < Abs(b)
    ensures a >= 0 && b > 0 ==> q == a / b
  {
    var m, n := Abs(a), Abs(b);
    var q0 := m / n;
    QuotientBounds(m, n);
    var q: int := if (a < 0) != (b < 0) then -(q0 as int) else q0;
    SignedProduct(q0, n, a < 0, b < 0);
    q
  }

  lemma QuotientBounds(m: nat, n: nat)
    requires n > 0
    ensures 0 <= (m / n) * n <= m < (m / n) * n + n
  {
  }

  /** (±q0) * (±n), with the signs chosen as JavaDiv chooses them, is ±(q0 * n) with the sign of a. */
  lemma SignedProduct(q0: nat, n: nat, aNeg: bool, bNeg: bool)
    ensures var q: int := if aNeg != bNeg then -(q0 as int) else q0;
            var b: int := if bNeg then -(n as int) else n;
            q * b == if aNeg then -(q0 * n) else q0 * n
  {
    var q: int := if aNeg != bNeg then -(q0 as int) else q0;
    var b: int := if bNeg then -(n as int) else n;
    if bNeg {
      assert q * b == -(q * n);
    }
    if aNeg != bNeg {
      assert q * n == -(q0 * n);
    }
  }

  /** Java's %: the sign of the dividend, smaller than the divisor in magnitude. */
  function JavaRem(a: int, b: int): (r: int)
    requires b != 0
    ensures a == JavaDiv(a, b) * b + r
    ensures Abs(r) < Abs(b)
    ensures r == 0 || ((r < 0) <==> (a < 0))
    ensures a >= 0 && b > 0 ==> r == a % b
  {
    a - JavaDiv(a, b) * b
  }

  /**
   * The page information of queryList: the total count always; the page, its
   * size and the page count when paging is requested, after the abstract
   * page-existence check. A page size of 0 that passes the check makes
   * count % 0 throw.
   */
  function QueryListPageInfo(count: nat, page: Option<PagePayload>, pageExists: (PagePayload, int) -> bool): (r: Result<PageInfo, QueryError>)
    ensures page.Some? && !pageExists(page.value, count) ==> r == Err(PageNotFound(MsgPageMissing))
    ensures page.None? ==> r == Ok(PageInfo(count, None, None, None))
    ensures page.Some? && pageExists(page.value, count) && page.value.pageSize == 0 ==> r == Err(DivisionByZero)
    ensures r.Ok? ==> r.value.totalDatas == count
    ensures page.Some? && pageExists(page.value, count) && page.value.pageSize != 0 ==>
              r.Ok? && r.value.currentPage == Some(page.value.page) && r.value.pageItems == Some(page.value.pageSize)
              && r.value.totalPages.Some?
  {
    if page.Some? && !pageExists(page.value, count) then Err(PageNotFound(MsgPageMissing))
    else if page.None? then Ok(PageInfo(count, None, None, None))
    else
      var size := page.value.pageSize;
      if size == 0 then Err(DivisionByZero)
      else
        var i := if JavaRem(count, size) == 0 then 0 else 1;
        Ok(PageInfo(count, Some(page.value.page), Some(size), Some(JavaDiv(count, size) + i)))
  }

  /** With a positive page size the page count is count / pageSize rounded up. */
  lemma {:induction false} TotalPagesIsCeiling(count: nat, page: PagePayload, pageExists: (PagePayload, int) -> bool)
    requires pageExists(page, count) && page.pageSize > 0
    ensures var r := QueryListPageInfo(count, Some(page), pageExists);
            var pages := r.value.totalPages.value;
            pages >= 0 && ((pages - 1) * page.pageSize < count <= pages * page.pageSize || (count == 0 && pages == 0))
  {
    var size := page.pageSize;
    assert QueryListPageInfo(count, Some(page), pageExists).value.totalPages.value
        == JavaDiv(count, size) + if JavaRem(count, size) == 0 then 0 else 1;
    CeilingPages(count, size);
  }

  lemma CeilingPages(count: nat, size: int)
    requires size > 0
    ensures var pages := JavaDiv(count, size) + if JavaRem(count, size) == 0 then 0 else 1;
            pages >= 0 && ((pages - 1) * size < count <= pages * size || (count == 0 && pages == 0))
  {
    var q, m := JavaDiv(count, size), JavaRem(count, size);
    assert q == count / size && m == count % size;
    assert count == q * size + m && 0 <= m < size;
    assert q >= 0;
    assert (q + 1) * size == q * size + size;
    assert (q - 1) * size == q * size - size;
  }
}
