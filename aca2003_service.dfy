/**
 * The drug-use record service: validated create and update of AcaDrugUse
 * records, soft delete, and the lookups by id, by card number and by
 * personal id, including the fallback to the after-care table when a
 * card has no drug-use record yet.
 */
module Aca2003Service {
  import opened Wrappers
  import opened Calendar
  import opened Sequences
  import opened SqlText
  import opened AcaBrdRepository
  import opened AfterCare
  import opened Aca2003Repository

  // ---- String helpers: String.trim, trim, trimToNull, isBlank ----

  /** Every character is one that String.trim strips (code point at most U+0020). */
  predicate AllSpace(s: string) {
    forall k :: 0 <= k < |s| ==> s[k] <= ' '
  }

  function TrimStart(s: string): (t: string)
    ensures |t| <= |s| && t == s[|s| - |t|..]
    ensures AllSpace(s[..|s| - |t|])
    ensures t != [] ==> t[0] > ' '
  {
    if s != [] && s[0] <= ' ' then
      var t := TrimStart(s[1..]);
      assert s[..|s| - |t|] == [s[0]] + s[1..][..|s| - 1 - |t|];
      t
    else s
  }

  function TrimEnd(s: string): (t: string)
    ensures |t| <= |s| && t == s[..|t|]
    ensures AllSpace(s[|t|..])
    ensures t != [] ==> t[|t| - 1] > ' '
  {
    if s != [] && s[|s| - 1] <= ' ' then
      var t := TrimEnd(s[..|s| - 1]);
      assert s[|t|..] == s[..|s| - 1][|t|..] + [s[|s| - 1]];
      t
    else s
  }

  /** String.trim: s without its leading and trailing characters up to U+0020. */
  function JavaTrim(s: string): (t: string)
    ensures t == [] || (t[0] > ' ' && t[|t| - 1] > ' ')
    ensures exists i, j :: 0 <= i <= j <= |s| && t == s[i..j] && AllSpace(s[..i]) && AllSpace(s[j..])
  {
    var a := TrimStart(s);
    var t := TrimEnd(a);
    var i := |s| - |a|;
    assert t == s[i..i + |t|];
    assert AllSpace(s[i + |t|..]) by {
      assert s[i + |t|..] == a[|t|..];
    }
    t
  }

  lemma TrimStartKeeps(s: string)
    requires s == [] || s[0] > ' '
    ensures TrimStart(s) == s
  {
  }

  lemma TrimEndKeeps(s: string)
    requires s == [] || s[|s| - 1] > ' '
    ensures TrimEnd(s) == s
  {
  }

  /** Trimming twice is trimming once. */
  lemma JavaTrimIdempotent(s: string)
    ensures JavaTrim(JavaTrim(s)) == JavaTrim(s)
  {
    var t := JavaTrim(s);
    TrimStartKeeps(t);
    TrimEndKeeps(t);
  }

  lemma {:induction false} TrimStartAllSpace(s: string)
    requires AllSpace(s)
    ensures TrimStart(s) == []
  {
    if s != [] {
      TrimStartAllSpace(s[1..]);
    }
  }

  /** String.trim gives the empty string exactly for the strings made only of characters up to U+0020. */
  lemma JavaTrimEmpty(s: string)
    ensures JavaTrim(s) == [] <==> AllSpace(s)
  {
    if AllSpace(s) {
      TrimStartAllSpace(s);
    }
    if JavaTrim(s) == [] {
      var i, j :| 0 <= i <= j <= |s| && [] == s[i..j] && AllSpace(s[..i]) && AllSpace(s[j..]);
      forall k | 0 <= k < |s| ensures s[k] <= ' ' {
        if k < i {
          assert s[..i][k] == s[k];
        } else {
          assert s[j..][k - j] == s[k];
        }
      }
    }
  }

  /** trim: null stays null, a string is trimmed. */
  function Trim(s: Option<string>): (r: Option<string>)
    ensures r.None? <==> s.None?
    ensures r.Some? ==> r.value == JavaTrim(s.value)
  {
    if s.None? then None else Some(JavaTrim(s.value))
  }

  /** trimToNull: null for null and for blank text, otherwise the trimmed text. */
  function TrimToNull(s: Option<string>): (r: Option<string>)
    ensures r.None? <==> s.None? || AllSpace(s.value)
    ensures r.Some? ==> r.value == JavaTrim(s.value) && r.value[0] > ' ' && r.value[|r.value| - 1] > ' '
  {
    if s.None? then None
    else
      var t := JavaTrim(s.value);
      JavaTrimEmpty(s.value);
      if t == [] then None else Some(t)
  }

  /** isBlank: null, or empty once trimmed. */
  predicate IsBlank(s: Option<string>) {
    s.None? || JavaTrim(s.value) == []
  }

  /** isBlank holds exactly when trimToNull gives null, that is, for null and all-space text. */
  lemma IsBlankIffTrimToNull(s: Option<string>)
    ensures IsBlank(s) <==> TrimToNull(s).None?
    ensures IsBlank(s) <==> s.None? || AllSpace(s.value)
  {
    if s.Some? {
      JavaTrimEmpty(s.value);
    }
  }

  /** trimToNull gives the same after trim: normalising twice changes nothing. */
  lemma TrimToNullAfterTrim(s: Option<string>)
    ensures TrimToNull(Trim(s)) == TrimToNull(s)
  {
    if s.Some? {
      var t := JavaTrim(s.value);
      JavaTrimIdempotent(s.value);
      assert Trim(s) == Some(t);
      assert TrimToNull(Some(t)) == if JavaTrim(t) == [] then None else Some(JavaTrim(t));
    }
  }

  /** trimToNull applied to each of the eight text fields. */
  function CleanTexts(t: DrugUseTexts): DrugUseTexts {
    DrugUseTexts(TrimToNull(t.drgUserText), TrimToNull(t.oprFamilyText), TrimToNull(t.oprFamilyCareText),
                 TrimToNull(t.oprSupportText), TrimToNull(t.oprContactText), TrimToNull(t.oprReferText),
                 TrimToNull(t.addr), TrimToNull(t.oprAddr))
  }

  // ---- isUniqueKeyViolation ----

  /** One link of an exception's cause chain. */
  datatype Cause = Cause(isSqlException: bool, errorCode: int)

  /**
   * A DataIntegrityViolationException and its causes: chain[0] is the
   * exception itself and chain[k + 1] is the cause of chain[k].
   */
  type Chain = c: seq<Cause> | |c| > 0 witness [Cause(false, 0)]

  /**
   * getMostSpecificCause: the root cause, or the exception itself when it has
   * no cause; as an index into the chain, the last one either way.
   */
  function MostSpecificCause(chain: Chain): (k: nat)
    ensures k < |chain| && k + 1 == |chain|
  {
    |chain| - 1
  }

  /** A SQL Server unique-constraint (2627) or duplicate-key (2601) error. */
  predicate IsUniqueKeyError(c: Cause) {
    c.isSqlException && (c.errorCode == 2627 || c.errorCode == 2601)
  }

  /**
   * isUniqueKeyViolation: walks the chain from the most specific cause. As
   * that cause has no cause of its own, only the root cause is examined.
   */
  method IsUniqueKeyViolation(chain: Chain) returns (b: bool)
    ensures b <==> exists k :: MostSpecificCause(chain) <= k < |chain| && IsUniqueKeyError(chain[k])
    ensures b <==> IsUniqueKeyError(chain[|chain| - 1])
  {
    // t is the current throwable; |chain| stands for null, the cause of the root
    var t := MostSpecificCause(chain);
    while t < |chain|
      invariant MostSpecificCause(chain) <= t <= |chain|
      invariant forall k :: MostSpecificCause(chain) <= k < t ==> !IsUniqueKeyError(chain[k])
    {
      var c := chain[t];
      if c.isSqlException {
        var code := c.errorCode;
        if code == 2627 || code == 2601 {
          return true;
        }
      }
      t := t + 1;
    }
    return false;
  }

  // ---- Requests and replies ----

  /** The payload's user id; its Java type is not part of this model. */
  type UserId = int

  /** Aca2003SavePayload; a NULL payload or NULL data is `None` one level up. */
  datatype SavePayload = SavePayload(id: Option<int>, userId: Option<UserId>, acaCardNo: Option<string>, texts: DrugUseTexts)

  /** Aca2003DeletePayload. */
  datatype DeletePayload = DeletePayload(id: Option<int>, userId: Option<UserId>)

  /** DataDto with its ResponseInfo: data (NULL is `None`), code 1 for success and 0 for failure, and the message. */
  datatype Reply<T> = Reply(data: Option<T>, code: int, message: string)

  function Success<T>(data: T, message: string): Reply<T> {
    Reply(Some(data), 1, message)
  }

  function Failure<T>(message: string): Reply<T> {
    Reply(None, 0, message)
  }

  /**
   * What the caller of save receives: the reply; the
   * DataIntegrityViolationException of a failed write (`Thrown`); or the
   * UnexpectedRollbackException that the commit throws after a failed write's
   * exception was caught (`RolledBack`).
   */
  datatype SaveOutcome = Returned(reply: Reply<int>) | Thrown(chain: Chain) | RolledBack

  const MsgPayloadEmpty := "payload 不可為空"
  const MsgIdEmpty := "id 不可為空"
  const MsgUserIdEmpty := "userId「修檔人員ID」不可為空"
  const MsgCardEmpty := "acaCardNo「個案編號」不可為空"
  const MsgDataNotFound := "指定資料不存在"
  const MsgDataDeleted := "指定資料已刪除"
  const MsgDupActive := "相同「個案編號」的有效資料已存在"
  const MsgAcaBrdNotFound := "指定的「個案編號」(ACACardNo) 不存在於有效的 「個案基本資料」ACABrd"
  const MsgPersonalIdEmpty := "personalId「個人身分證號」不可為空"
  const MsgCardByPersonalIdNotFound := "身分證字號 查無對應 有效個案編號"
  const MsgMultipleCardsFound := "查到多筆有效個案編號，請聯絡系統管理員"
  const MsgNamIdNoEmpty := "個案資料 缺少 身分證字號 欄位資料"
  const MsgAfterCareNotFound := "查無矯正署資料"
  const MsgCardNotFound := "個案編號不存在"
  const MsgCreated := "新增成功"
  const MsgUpdated := "更新成功"
  const MsgDeleted := "刪除成功"
  const MsgQueried := "查詢成功"
  const MsgNoData := "查無資料"

  /** The refusal of an update whose card number differs from the stored one. */
  function MsgKeyMismatch(id: int): string {
    "指定資料(id=" + IntText(id) + ") 的 ACACardNo 與輸入不一致；不可修改關聯鍵。"
  }

  /** The entry checks of save pass: a payload, a user id and a non-blank card number. */
  predicate Admitted(payload: Option<SavePayload>) {
    payload.Some? && payload.value.userId.Some? && !IsBlank(payload.value.acaCardNo)
  }

  /** The trimmed card number of an admitted payload. */
  function CardOf(payload: Option<SavePayload>): string
    requires Admitted(payload)
  {
    JavaTrim(payload.value.acaCardNo.value)
  }

  /** The record create writes (copyFieldsForCreate and the creation fields). */
  function NewRecord(id: int, p: SavePayload, card: string, now: DateTime, branch: Option<string>): (e: AcaDrugUse)
    requires p.userId.Some?
    ensures e.id == id && e.acaCardNo == Some(card) && e.isDeleted == Some(false)
    ensures e.createdByUserId == p.userId && e.createdOnDate == Some(now) && e.createdByBranchId == branch
    ensures e.texts == CleanTexts(p.texts)
    ensures e.modifiedByUserId.None? && e.modifiedOnDate.None? && e.isErase.None?
  {
    AcaDrugUse(id, Some(card), CleanTexts(p.texts), p.userId, Some(now), branch, None, None, Some(false), None)
  }

  /** The record update writes: copyFieldsForUpdate and the modification fields, nothing else. */
  function UpdatedRecord(e: AcaDrugUse, p: SavePayload, now: DateTime): (r: AcaDrugUse)
    ensures r.id == e.id && r.acaCardNo == e.acaCardNo && r.isDeleted == e.isDeleted && r.isErase == e.isErase
    ensures r.createdByUserId == e.createdByUserId && r.createdOnDate == e.createdOnDate
    ensures r.createdByBranchId == e.createdByBranchId
    ensures r.texts == CleanTexts(p.texts) && r.modifiedByUserId == p.userId && r.modifiedOnDate == Some(now)
  {
    e.(texts := CleanTexts(p.texts), modifiedByUserId := p.userId, modifiedOnDate := Some(now))
  }

  /** The record softDelete writes. */
  function DeletedRecord(e: AcaDrugUse, userId: UserId, now: DateTime): (r: AcaDrugUse)
    ensures r.isDeleted == Some(true) && r.modifiedByUserId == Some(userId) && r.modifiedOnDate == Some(now)
    ensures r.id == e.id && r.acaCardNo == e.acaCardNo && r.texts == e.texts && r.isErase == e.isErase
    ensures r.createdByUserId == e.createdByUserId && r.createdOnDate == e.createdOnDate
    ensures r.createdByBranchId == e.createdByBranchId
  {
    e.(isDeleted := Some(true), modifiedByUserId := Some(userId), modifiedOnDate := Some(now))
  }

  /**
   * The outcome of a create whose INSERT threw. The INSERT runs inside
   * repo.save, since an IDENTITY key is written at persist. The repository
   * call joins save's transaction and marks it rollback-only as the exception
   * passes. The catch still turns a unique-key violation into
   * fail(MSG_DUP_ACTIVE), but the commit then throws UnexpectedRollbackException
   * in its place. Any other violation is thrown on.
   */
  function InsertFault(chain: Chain): (out: SaveOutcome)
    ensures out == RolledBack <==> IsUniqueKeyError(chain[|chain| - 1])
    ensures out != RolledBack ==> out == Thrown(chain)
    ensures !out.Returned?
  {
    if IsUniqueKeyError(chain[|chain| - 1]) then RolledBack else Thrown(chain)
  }

  /**
   * The outcome the catch is written for: a unique-key violation answered with
   * MSG_DUP_ACTIVE and any other violation thrown on.
   */
  function IntendedFault(chain: Chain): (out: SaveOutcome)
    ensures out == Returned(Failure(MsgDupActive)) <==> IsUniqueKeyError(chain[|chain| - 1])
    ensures out != Returned(Failure(MsgDupActive)) ==> out == Thrown(chain)
  {
    if IsUniqueKeyError(chain[|chain| - 1]) then Returned(Failure(MsgDupActive)) else Thrown(chain)
  }

  /**
   * A unique-key violation of the INSERT: the reply the catch builds is not
   * what the caller receives, and neither a create nor an update fault ever
   * yields MSG_DUP_ACTIVE.
   */
  lemma UniqueFaultNotReported(chain: Chain)
    requires IsUniqueKeyError(chain[|chain| - 1])
    ensures IntendedFault(chain) == Returned(Failure(MsgDupActive))
    ensures InsertFault(chain) == RolledBack && InsertFault(chain) != IntendedFault(chain)
  {
  }

  /** Aca2003QueryDto. */
  datatype QueryDto = QueryDto(
    id: Option<int>,
    createdOnDate: Option<DateTime>,
    createdByBranchName: Option<string>,
    texts: DrugUseTexts,
    acaCardNo: Option<string>,
    acaName: Option<string>,
    acaIdNo: Option<string>)

  function ToDto(v: DetailView): QueryDto {
    QueryDto(Some(v.id), v.createdOnDate, v.createdByBranchName, v.texts, v.acaCardNo, v.acaName, v.acaIdNo)
  }

  /**
   * The service over the AcaDrugUse table. The ACABrd and SUP_AfterCare
   * tables and the Lists lookup of branch names are read only.
   * A write that fails with a DataIntegrityViolationException is rolled
   * back, so it leaves the table as it was.
   */
  class DrugUseService {
    /** The AcaDrugUse table, keyed by ID. */
    var store: Store
    /** The next value of the IDENTITY column ID. */
    var nextId: int
    const acaBrd: seq<AcaBrd>
    const afterCare: seq<SupAfterCare>
    const branchName: Option<string> -> Option<string>

    /** Every record sits under its own ID, below the next identity value. */
    ghost predicate Valid()
      reads this
    {
      forall id :: id in store ==> store[id].id == id && id < nextId
    }

    constructor(store0: Store, nextId0: int, acaBrd0: seq<AcaBrd>, afterCare0: seq<SupAfterCare>,
                branchName0: Option<string> -> Option<string>)
      requires forall id :: id in store0 ==> store0[id].id == id && id < nextId0
      ensures Valid()
      ensures store == store0 && nextId == nextId0
      ensures acaBrd == acaBrd0 && afterCare == afterCare0 && branchName == branchName0
    {
      store := store0;
      nextId := nextId0;
      acaBrd := acaBrd0;
      afterCare := afterCare0;
      branchName := branchName0;
    }

    /**
     * save: the entry checks in their order, the ACABrd check on the trimmed
     * card number, then create (no id) or update (an id).
     */
    method Save(payload: Option<SavePayload>, now: DateTime, fault: Option<Chain>) returns (out: SaveOutcome)
      requires Valid()
      modifies this
      ensures Valid()
      ensures payload.None? ==> out == Returned(Failure(MsgPayloadEmpty))
      ensures payload.Some? && payload.value.userId.None? ==> out == Returned(Failure(MsgUserIdEmpty))
      ensures payload.Some? && payload.value.userId.Some? && IsBlank(payload.value.acaCardNo)
              ==> out == Returned(Failure(MsgCardEmpty))
      ensures Admitted(payload) && ExistsActiveAcaBrd(acaBrd, CardOf(payload)) == 0
              ==> out == Returned(Failure(MsgAcaBrdNotFound))
      ensures !Admitted(payload) || ExistsActiveAcaBrd(acaBrd, CardOf(payload)) == 0
              ==> store == old(store) && nextId == old(nextId)
      // create
      ensures Admitted(payload) && ExistsActiveAcaBrd(acaBrd, CardOf(payload)) == 1 && payload.value.id.None?
              ==> if CountActive(old(store), CardOf(payload)) > 0 then
                    out == Returned(Failure(MsgDupActive)) && store == old(store) && nextId == old(nextId)
                  else if fault.Some? then
                    out == InsertFault(fault.value) && store == old(store) && nextId == old(nextId) + 1
                  else
                    old(nextId) !in old(store)
                    && out == Returned(Success(old(nextId), MsgCreated))
                    && store == old(store)[old(nextId) := NewRecord(old(nextId), payload.value, CardOf(payload), now,
                                                                     FindCreatedByBranchIdByAcaCardNo(acaBrd, CardOf(payload)))]
                    && nextId == old(nextId) + 1
      // update
      ensures Admitted(payload) && ExistsActiveAcaBrd(acaBrd, CardOf(payload)) == 1 && payload.value.id.Some?
              ==> var id := payload.value.id.value;
                  nextId == old(nextId)
                  && if id !in old(store) then
                    out == Returned(Failure(MsgDataNotFound)) && store == old(store)
                  else if old(store)[id].isDeleted == Some(true) then
                    out == Returned(Failure(MsgDataDeleted)) && store == old(store)
                  else if old(store)[id].acaCardNo != Some(CardOf(payload)) then
                    out == Returned(Failure(MsgKeyMismatch(id))) && store == old(store)
                  else if fault.Some? then
                    out == Thrown(fault.value) && store == old(store)
                  else
                    out == Returned(Success(id, MsgUpdated))
                    && store == old(store)[id := UpdatedRecord(old(store)[id], payload.value, now)]
    {
      if payload.None? {
        return Returned(Failure(MsgPayloadEmpty));
      }
      var p := payload.value;
      if p.userId.None? {
        return Returned(Failure(MsgUserIdEmpty));
      }
      if IsBlank(p.acaCardNo) {
        return Returned(Failure(MsgCardEmpty));
      }
      var card := JavaTrim(p.acaCardNo.value);
      if ExistsActiveAcaBrd(acaBrd, card) == 0 {
        return Returned(Failure(MsgAcaBrdNotFound));
      }
      if p.id.None? {
        out := Create(p, card, now, fault);
      } else {
        out := Update(p, card, now, fault);
      }
    }

    /** create: refuses a card that already has an active record, else adds one record. */
    method Create(p: SavePayload, card: string, now: DateTime, fault: Option<Chain>) returns (out: SaveOutcome)
      requires Valid() && p.userId.Some?
      modifies this
      ensures Valid()
      ensures if CountActive(old(store), card) > 0 then
                out == Returned(Failure(MsgDupActive)) && store == old(store) && nextId == old(nextId)
              else if fault.Some? then
                out == InsertFault(fault.value) && store == old(store) && nextId == old(nextId) + 1
              else
                old(nextId) !in old(store)
                && out == Returned(Success(old(nextId), MsgCreated))
                && store == old(store)[old(nextId) := NewRecord(old(nextId), p, card, now,
                                                                 FindCreatedByBranchIdByAcaCardNo(acaBrd, card))]
                && nextId == old(nextId) + 1
    {
      if CountActive(store, card) > 0 {
        return Returned(Failure(MsgDupActive));
      }
      var branch := FindCreatedByBranchIdByAcaCardNo(acaBrd, card);
      var e := NewRecord(nextId, p, card, now, branch);
      if fault.Some? {
        // the INSERT is rolled back, but its IDENTITY value stays spent
        nextId := nextId + 1;
        var unique := IsUniqueKeyViolation(fault.value);
        if unique {
          // fail(MSG_DUP_ACTIVE) is built, and the commit throws in its place
          return RolledBack;
        }
        return Thrown(fault.value);
      }
      store := store[nextId := e];
      nextId := nextId + 1;
      return Returned(Success(e.id, MsgCreated));
    }

    /** update: the record must exist, be live and keep its card number; only the texts and modified* change. */
    method Update(p: SavePayload, card: string, now: DateTime, fault: Option<Chain>) returns (out: SaveOutcome)
      requires Valid() && p.id.Some?
      modifies this
      ensures Valid()
      ensures nextId == old(nextId)
      ensures var id := p.id.value;
              if id !in old(store) then
                out == Returned(Failure(MsgDataNotFound)) && store == old(store)
              else if old(store)[id].isDeleted == Some(true) then
                out == Returned(Failure(MsgDataDeleted)) && store == old(store)
              else if old(store)[id].acaCardNo != Some(card) then
                out == Returned(Failure(MsgKeyMismatch(id))) && store == old(store)
              else if fault.Some? then
                out == Thrown(fault.value) && store == old(store)
              else
                out == Returned(Success(id, MsgUpdated))
                && store == old(store)[id := UpdatedRecord(old(store)[id], p, now)]
    {
      var id := p.id.value;
      if id !in store {
        return Returned(Failure(MsgDataNotFound));
      }
      var exist := store[id];
      if exist.isDeleted == Some(true) {
        return Returned(Failure(MsgDataDeleted));
      }
      if Some(card) != exist.acaCardNo {
        return Returned(Failure(MsgKeyMismatch(id)));
      }
      exist := UpdatedRecord(exist, p, now);
      if fault.Some? {
        // the UPDATE is flushed at commit, after the catch has been left
        return Thrown(fault.value);
      }
      store := store[id := exist];
      return Returned(Success(id, MsgUpdated));
    }

    /**
     * softDelete: marks a live record deleted. A record already deleted is
     * refused with MsgDataDeleted and left as it is, so a second call on the
     * same id changes nothing.
     */
    method SoftDelete(payload: Option<DeletePayload>, now: DateTime) returns (reply: Reply<int>)
      requires Valid()
      modifies this
      ensures Valid()
      ensures nextId == old(nextId)
      ensures payload.None? ==> reply == Failure(MsgPayloadEmpty) && store == old(store)
      ensures payload.Some? && payload.value.id.None? ==> reply == Failure(MsgIdEmpty) && store == old(store)
      ensures payload.Some? && payload.value.id.Some? && payload.value.userId.None?
              ==> reply == Failure(MsgUserIdEmpty) && store == old(store)
      ensures payload.Some? && payload.value.id.Some? && payload.value.userId.Some?
              ==> var id := payload.value.id.value;
                  if id !in old(store) then
                    reply == Failure(MsgDataNotFound) && store == old(store)
                  else if old(store)[id].isDeleted == Some(true) then
                    reply == Failure(MsgDataDeleted) && store == old(store)
                  else
                    reply == Success(id, MsgDeleted)
                    && store == old(store)[id := DeletedRecord(old(store)[id], payload.value.userId.value, now)]
                    && store[id].isDeleted == Some(true)
    {
      if payload.None? {
        return Failure(MsgPayloadEmpty);
      }
      var p := payload.value;
      if p.id.None? {
        return Failure(MsgIdEmpty);
      }
      if p.userId.None? {
        return Failure(MsgUserIdEmpty);
      }
      var id := p.id.value;
      if id !in store {
        return Failure(MsgDataNotFound);
      }
      var exist := store[id];
      if exist.isDeleted == Some(true) {
        return Failure(MsgDataDeleted);
      }
      exist := DeletedRecord(exist, p.userId.value, now);
      store := store[id := exist];
      return Success(exist.id, MsgDeleted);
    }

    /** queryById: the detail of a live record, "no data" otherwise. */
    function QueryById(id: Option<int>): (r: Reply<QueryDto>)
      reads this
      ensures id.None? ==> r == Failure(MsgIdEmpty)
      ensures id.Some? ==> (r.code == 1 <==> id.value in store && store[id.value].isDeleted != Some(true))
      ensures r.code == 1 ==> id.Some? && id.value in store
                              && r == Success(ToDto(Detail(store, acaBrd, branchName, id.value)), MsgQueried)
                              && r.data.value.id == id
      ensures id.Some? && r.code != 1 ==> r == Failure(MsgNoData)
      ensures r.code != 1 ==> r.data.None? && r.code == 0
    {
      if id.None? then Failure(MsgIdEmpty)
      else
        var v := FindDetailById(store, acaBrd, branchName, id.value);
        if v.Some? then Success(ToDto(v.value), MsgQueried) else Failure(MsgNoData)
    }

    /** queryLatestByCardNo: the live record of the trimmed card number with the greatest ID. */
    function QueryLatestByCardNo(cardNo: Option<string>): (r: Reply<QueryDto>)
      reads this
      ensures IsBlank(cardNo) ==> r == Failure(MsgCardEmpty)
      ensures !IsBlank(cardNo) ==>
                (r.code == 1 <==> CountActive(store, JavaTrim(cardNo.value)) > 0)
                && (r.code == 1 ==> r.data.Some? && r.data.value.id.Some?
                                    && ActiveOfCard(store, r.data.value.id.value, JavaTrim(cardNo.value))
                                    && (forall id :: ActiveOfCard(store, id, JavaTrim(cardNo.value)) ==> id <= r.data.value.id.value)
                                    && r == Success(ToDto(Detail(store, acaBrd, branchName, r.data.value.id.value)), MsgQueried))
                && (r.code != 1 ==> r == Failure(MsgNoData))
    {
      if IsBlank(cardNo) then Failure(MsgCardEmpty)
      else
        var card := JavaTrim(cardNo.value);
        var v := FindLatestDetailByCardNo(store, acaBrd, branchName, card);
        if v.Some? then Success(ToDto(v.value), MsgQueried) else Failure(MsgNoData)
    }

    /** queryByPersonalId: resolves the personal id to its one active card number, then the latest record of that card. */
    function QueryByPersonalId(personalId: Option<string>): (r: Reply<QueryDto>)
      reads this
      ensures IsBlank(personalId) ==> r == Failure(MsgPersonalIdEmpty)
      ensures !IsBlank(personalId) ==>
                var cards := FindActiveCardNosByPersonalId(acaBrd, JavaTrim(personalId.value));
                (cards == [] ==> r == Failure(MsgCardByPersonalIdNotFound))
                && (|cards| > 1 ==> r == Failure(MsgMultipleCardsFound))
                && (|cards| == 1 ==> r == QueryLatestByCardNo(cards[0]))
    {
      if IsBlank(personalId) then Failure(MsgPersonalIdEmpty)
      else
        var cards := FindActiveCardNosByPersonalId(acaBrd, JavaTrim(personalId.value));
        if cards == [] then Failure(MsgCardByPersonalIdNotFound)
        else if |cards| > 1 then Failure(MsgMultipleCardsFound)
        else QueryLatestByCardNo(cards[0])
    }

    /** The after-care row's fields cast into the drug-use answer: no id, the input card number, trimmed names. */
    function AfterCareDto(cardNo: string, aca: AcaBrd, care: SupAfterCare): (d: QueryDto)
      ensures d.id.None? && d.acaCardNo == Some(cardNo)
      ensures d.createdOnDate == AtStartOfDay(care.crDateTime)
      ensures d.texts == CleanTexts(care.texts)
      ensures d.acaName == Trim(aca.acaName) && d.acaIdNo == Trim(aca.acaIdNo)
      ensures d.createdByBranchName == Trim(care.protName)
    {
      QueryDto(None, AtStartOfDay(care.crDateTime), Trim(care.protName), CleanTexts(care.texts),
               Some(cardNo), Trim(aca.acaName), Trim(aca.acaIdNo))
    }

    /**
     * queryDrugAfterCareByPersonalId: the latest drug-use record of the card
     * when it has one that is neither deleted nor erased; otherwise the newest
     * after-care row of the person the card belongs to.
     */
    function QueryDrugAfterCareByPersonalId(cardNo: Option<string>): (r: Reply<QueryDto>)
      reads this
      ensures IsBlank(cardNo) ==> r == Failure(MsgCardEmpty)
      ensures !IsBlank(cardNo) && ExistsActiveByCardNo(store, JavaTrim(cardNo.value)) == 1
              ==> r == QueryLatestByCardNo(Some(JavaTrim(cardNo.value)))
      ensures !IsBlank(cardNo) && ExistsActiveByCardNo(store, JavaTrim(cardNo.value)) == 0
              ==> var aca := FindTopActiveByAcaCardNo(acaBrd, JavaTrim(cardNo.value));
                  if aca.None? then r == Failure(MsgCardNotFound)
                  else if IsBlank(aca.value.acaIdNo) then r == Failure(MsgNamIdNoEmpty)
                  else
                    var care := FindTopByNamIdNoOrderByCrDateTimeDesc(afterCare, JavaTrim(aca.value.acaIdNo.value));
                    if care.None? then r == Failure(MsgAfterCareNotFound)
                    else r == Success(AfterCareDto(JavaTrim(cardNo.value), aca.value, care.value), MsgQueried)
    {
      if IsBlank(cardNo) then Failure(MsgCardEmpty)
      else
        var card := JavaTrim(cardNo.value);
        if ExistsActiveByCardNo(store, card) > 0 then QueryLatestByCardNo(Some(card))
        else
          var aca := FindTopActiveByAcaCardNo(acaBrd, card);
          if aca.None? then Failure(MsgCardNotFound)
          else
            var namIdNo := Trim(aca.value.acaIdNo);
            if IsBlank(namIdNo) then Failure(MsgNamIdNoEmpty)
            else
              var care := FindTopByNamIdNoOrderByCrDateTimeDesc(afterCare, namIdNo.value);
              if care.None? then Failure(MsgAfterCareNotFound)
              else Success(AfterCareDto(card, aca.value, care.value), MsgQueried)
    }
  }

  /** A card number padded with spaces finds what the trimmed one finds. */
  lemma LatestIgnoresPadding(svc: DrugUseService, cardNo: string)
    ensures svc.QueryLatestByCardNo(Some(JavaTrim(cardNo))) == svc.QueryLatestByCardNo(Some(cardNo))
  {
    var t := JavaTrim(cardNo);
    JavaTrimIdempotent(cardNo);
    assert IsBlank(Some(t)) == IsBlank(Some(cardNo));
    if !IsBlank(Some(cardNo)) {
      var v := FindLatestDetailByCardNo(svc.store, svc.acaBrd, svc.branchName, t);
      var answer := if v.Some? then Success(ToDto(v.value), MsgQueried) else Failure(MsgNoData);
      assert svc.QueryLatestByCardNo(Some(cardNo)) == answer;
      assert svc.QueryLatestByCardNo(Some(t)) == answer;
    }
  }

  /**
   * When the card has a record that is neither deleted nor erased, the
   * after-care query answers from the drug-use table, and it succeeds.
   */
  lemma AfterCareQueryUsesDrugUse(svc: DrugUseService, cardNo: string)
    requires !IsBlank(Some(cardNo))
    requires ExistsActiveByCardNo(svc.store, JavaTrim(cardNo)) == 1
    ensures svc.QueryDrugAfterCareByPersonalId(Some(cardNo)) == svc.QueryLatestByCardNo(Some(cardNo))
    ensures svc.QueryDrugAfterCareByPersonalId(Some(cardNo)).code == 1
  {
    var card := JavaTrim(cardNo);
    JavaTrimIdempotent(cardNo);
    ExistsActiveImpliesLatest(svc.store, svc.acaBrd, svc.branchName, card);
    LatestIgnoresPadding(svc, cardNo);
  }

  /** An answer from the after-care table carries no record id and the caller's trimmed card number. */
  lemma {:induction false} AfterCareAnswerShape(svc: DrugUseService, cardNo: string)
    requires !IsBlank(Some(cardNo))
    requires ExistsActiveByCardNo(svc.store, JavaTrim(cardNo)) == 0
    requires svc.QueryDrugAfterCareByPersonalId(Some(cardNo)).data.Some?
    ensures var d := svc.QueryDrugAfterCareByPersonalId(Some(cardNo)).data.value;
            d.id.None? && d.acaCardNo == Some(JavaTrim(cardNo))
            && exists care :: care in svc.afterCare && d.texts == CleanTexts(care.texts)
                              && d.createdOnDate == AtStartOfDay(care.crDateTime)
  {
    var card := JavaTrim(cardNo);
    var aca := FindTopActiveByAcaCardNo(svc.acaBrd, card);
    var care := FindTopByNamIdNoOrderByCrDateTimeDesc(svc.afterCare, JavaTrim(aca.value.acaIdNo.value));
    assert care.value in svc.afterCare;
  }

  /**
   * A person with an active ACABrd row is never "not found": the query either
   * reports several card numbers or answers for the card of that row.
   */
  lemma PersonWithCaseIsFound(svc: DrugUseService, personalId: string, row: AcaBrd)
    requires !IsBlank(Some(personalId))
    requires row in svc.acaBrd && SqlMatch(row.acaIdNo, JavaTrim(personalId)) && ActiveOrNull(row.isDeleted)
    ensures var cards := FindActiveCardNosByPersonalId(svc.acaBrd, JavaTrim(personalId));
            var r := svc.QueryByPersonalId(Some(personalId));
            row.acaCardNo in cards
            && ((|cards| > 1 && r == Failure(MsgMultipleCardsFound))
                || (cards == [row.acaCardNo] && r == svc.QueryLatestByCardNo(row.acaCardNo)))
  {
    CardNosExactly(svc.acaBrd, JavaTrim(personalId), row.acaCardNo);
  }

  /**
   * The card numbers are not checked for NULL: a person whose one active
   * ACABrd row has a NULL card number gets the empty-card refusal of the
   * card-number query.
   */
  lemma {:induction false} NullCardOfPerson(svc: DrugUseService, personalId: string, row: AcaBrd)
    requires !IsBlank(Some(personalId))
    requires svc.acaBrd == [row] && SqlMatch(row.acaIdNo, JavaTrim(personalId)) && ActiveOrNull(row.isDeleted)
    requires row.acaCardNo.None?
    ensures FindActiveCardNosByPersonalId(svc.acaBrd, JavaTrim(personalId)) == [None]
    ensures svc.QueryByPersonalId(Some(personalId)) == Failure(MsgCardEmpty)
  {
    var id := JavaTrim(personalId);
    FilterAll([row], WithIdNo(id));
    assert MapSeq([row], CardNoOf) == [None];
    OneOfOne(FindActiveCardNosByPersonalId(svc.acaBrd, id), None);
  }
}
