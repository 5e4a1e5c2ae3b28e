# hnsquare-cms case-management core, modelled in Dafny

This project models the core of the `hnsquare-cms` back end, which an
after-care association uses to follow people released from correction.
It covers five parts:

- **Juvenile-record erasure queries** (`Aca4001RepositoryImpl`), in module
  `Aca4001Repository`:
  - the birth date of a case and the day it turns 18 (`DATEADD(YEAR, 18, …)`);
  - the counselling (ProRec) and criminal (CrmRec) records dated before that
    day, with an optional inclusive window;
  - the hydrators that load records by id and restore the caller's id order;
  - the tri-state "latest closed" and "erased" lookups;
  - the unfiltered id collectors;
  - the counsellor display text and the erasure audit log.
- **Drug-use record service** (`Aca2003ServiceImpl`, over the queries of
  `Aca2003Repository`), in modules `Aca2003Service` and `Aca2003Repository`:
  - validated create and update, soft delete, and the lookups by id, by card
    number and by personal id;
  - the fallback to the after-care table when a card has no drug-use record.

  The service is a class over the record table, a `map` from ID to record.
  Its write methods state the whole new table.
- **Case-base lookups and id generation** (`AcaBrdRepository`), in module
  `AcaBrdRepository`:
  - the active-row lookups;
  - the "greatest suffix + 1, zero padded" generators for new ids and card
    numbers, with the SQL Server string functions they use in module `SqlText`.
- **After-care sign-off desk** (`Aca1002ServiceImpl`), in module
  `Aca1002Service`:
  - the batch status changes of SUP_AfterCare rows: sign, transfer, send back
    and reassign;
  - opening a case;
  - the page arithmetic of the list query.

  The class `SignOffService` holds the table. Each batch is findAllById, a loop
  that changes each found row, then saveAll.
- **Sign-state report** (`Report02RepositoryImpl.findAggregates`), in module
  `Report02Repository`. It is one SQL statement:
  - counts per branch × organisation of SIGN_STATE 0/1/3 in an inclusive
    period;
  - the latest Lists entry of each branch, zero rows for branches without data,
    and the org join;
  - the ORDER BY.

Shared modules:

- `Wrappers` (Option, Result);
- `Sequences` (Filter, a comparator sort, the top of a group);
- `Calendar` (dates as proleptic Gregorian triples, `datetime` as a date and
  a time of day);
- `AfterCare` (the SUP_AfterCare row and its repository's one derived query).

Each SQL query is a pure function over the rows of its tables, held as
sequences in storage order. Its contract states the WHERE clause (each
selected row meets it, and every row meeting it is selected, as a multiset
equality) and the ORDER BY (sortedness under a total preorder whose laws are
proved). Where the code and its comments disagree, the model follows the
code:

- the before-18 window's upper bound is named `endExclusive` in the comments
  but applied with `<=` (`Aca4001RepositoryImpl.java:87`);
- the report's ORDER BY does not put numeric org codes first, as its comment
  says (see Findings).

Some behaviour follows from SQL Server and Spring semantics and is modelled explicitly:

- `=` between strings ignores trailing spaces, so `ID IN (…)` fetches a
  row for an id with a trailing space (`PaddedIdFetched`). The card-number
  and id-number predicates of every query compare this way too (`SqlMatch`,
  `PaddedCardCounted`).
- The Id of SUP_AfterCare is a `uniqueidentifier` (`SupAfterCareEntity.java:28`).
  `findAllById` and `findById` convert each id text to it. The match ignores
  case and braces, and text that does not convert fails the statement, which
  rolls the write back (`GuidOf`, `Aca1002Service.FindAllById`).
- `CAST(int AS VARCHAR(n))` that does not fit gives `*`
  (`GenerateOverflow`).
- `ID IN (…)` against the int column of AcaDrugUse converts each text
  id to int, so `'012'` fetches record 12. The Java re-walk then looks up
  `'012'` in a map keyed `"12"` and drops the row (`ZeroPaddedIdDropped`).
- The unfiltered collectors return deleted records, which the hydrators then
  leave out (`CollectorKeepsDeleted`).
- `save` runs in one `@Transactional` (`Aca2003ServiceImpl.java:85`), and
  `repo.save` joins it. A failed INSERT (an IDENTITY key is written at persist)
  marks the transaction rollback-only as it passes the repository. The catch
  then builds `fail(MSG_DUP_ACTIVE)`, but the commit throws
  UnexpectedRollbackException in its place, and the IDENTITY value stays spent.
  An UPDATE of the managed record is flushed only at commit, outside the catch.
  So no database fault ever yields MSG_DUP_ACTIVE (`InsertFault`,
  `UniqueFaultNotReported`; see Findings).
- `findLatestDetailByCardNo` has no `isERASE` filter, so after
  `existsActiveByCardNo` says 1 the latest record may be an erased one
  (`LatestMayBeErased`).

Clocks (`now()`, `LocalDate.now()`) are parameters. The Lists lookup of a
branch name is a function parameter. A DataIntegrityViolationException that a
write may throw is a parameter too: the fault's cause chain.

## Model

| member | source | states |
|---|---|---|
| Calendar.AddYears | hnsquare-cms/src/main/java/com/hn2/cms/repository/aca4001/Aca4001RepositoryImpl.java:48 | DATEADD(YEAR, n, d) keeps the month. It keeps the day too, except that 29 February lands on 28 February when the target year is common. |
| Calendar.AddYearsLater | hnsquare-cms/src/main/java/com/hn2/cms/repository/aca4001/Aca4001RepositoryImpl.java:48 | The 18th birthday is strictly after the birth date. |
| Calendar.AddYearsMonotone | hnsquare-cms/src/main/java/com/hn2/cms/repository/aca4001/Aca4001RepositoryImpl.java:48 | Adding years keeps the order of dates. |
| Calendar.LeapDayAnniversary | hnsquare-cms/src/main/java/com/hn2/cms/repository/aca4001/Aca4001RepositoryImpl.java:48 | A 2004-02-29 birth turns 18 on 2022-02-28 and 20 on 2024-02-29. |
| Calendar.StartOfDay | hnsquare-cms/src/main/java/com/hn2/cms/service/aca2003/Aca2003ServiceImpl.java:438-440 | atStartOfDay is midnight of the same date. |
| Calendar.BeforeStartOfDay | hnsquare-cms/src/main/java/com/hn2/cms/repository/aca4001/Aca4001RepositoryImpl.java:84 | A timestamp is before midnight of day d exactly when its date is before d. |
| Calendar.AscNullsFirstPreorder | hnsquare-cms/src/main/java/com/hn2/cms/repository/aca4001/Aca4001RepositoryImpl.java:88 | ORDER BY a nullable datetime ASC (NULL first) is total and transitive. |
| Calendar.DescNullsLastPreorder | hnsquare-cms/src/main/java/com/hn2/cms/repository/aca4001/Aca4001RepositoryImpl.java:494 | ORDER BY a nullable datetime DESC (NULL last) is total and transitive. |
| Calendar.NextDay | hnsquare-cms/src/main/java/com/hn2/cms/repository/aca4001/Aca4001RepositoryImpl.java:589-590 | The day after d: later than d, and no date lies strictly between them. |
| Calendar.RoundToSecond | hnsquare-cms/src/main/java/com/hn2/cms/repository/aca4001/Aca4001RepositoryImpl.java:589-590 | CAST AS DATETIME2(0) gives a whole second within half a second of the value, half rounding up. A value that rounds to midnight becomes midnight of the next day. A whole second is unchanged. |
| Calendar.RoundToSecondMonotone | hnsquare-cms/src/main/java/com/hn2/cms/repository/aca4001/Aca4001RepositoryImpl.java:589-590 | Rounding keeps the order of timestamps. |
| Calendar.RoundToSecondExamples | hnsquare-cms/src/main/java/com/hn2/cms/repository/aca4001/Aca4001RepositoryImpl.java:589-590 | 2024-12-31 23:59:59.997 becomes 2025-01-01 00:00:00; 00:16:40.4999999 rounds down. |
| Calendar.DateTimeLeTotal | hnsquare-cms/src/main/java/com/hn2/cms/repository/aca4001/Aca4001RepositoryImpl.java:88 | Timestamps are totally ordered and the order is antisymmetric. |
| SqlText.CastInt | hnsquare-cms/src/main/java/com/hn2/cms/repository/aca4001/Aca4001RepositoryImpl.java:594 | CAST(s AS INT) succeeds exactly when the text converts and lies in the 32-bit range, and then gives that value. |
| SqlText.TryConvertInt | hnsquare-cms/src/main/java/com/hn2/cms/repository/report02/Report02RepositoryImpl.java:148 | TRY_CONVERT(int, s) is NULL exactly where CAST fails, and otherwise the CAST value. |
| SqlText.CastIntText | hnsquare-cms/src/main/java/com/hn2/cms/repository/aca4001/Aca4001RepositoryImpl.java:432-433 | The text of an int converts back to that int. |
| SqlText.ToIntDigits | hnsquare-cms/src/main/java/com/hn2/cms/repository/AcaBrdRepository.java:32 | A digit string converts to the number it denotes; '' converts to 0. |
| SqlText.Decimal | hnsquare-cms/src/main/java/com/hn2/cms/repository/AcaBrdRepository.java:32 | CAST(n AS VARCHAR) is a digit string without leading zeros. |
| SqlText.DecimalValue | hnsquare-cms/src/main/java/com/hn2/cms/repository/AcaBrdRepository.java:32 | The decimal text of n denotes n (round trip). |
| SqlText.DecimalLength | hnsquare-cms/src/main/java/com/hn2/cms/repository/AcaBrdRepository.java:32 | The text of n fits in w characters exactly when n < 10^w. |
| SqlText.DigitsValueZeros | hnsquare-cms/src/main/java/com/hn2/cms/repository/AcaBrdRepository.java:32 | Leading zeros do not change the value of a suffix. |
| SqlText.Replicate | hnsquare-cms/src/main/java/com/hn2/cms/repository/AcaBrdRepository.java:32 | REPLICATE(c, n) is n copies of c. |
| SqlText.Right | hnsquare-cms/src/main/java/com/hn2/cms/repository/AcaBrdRepository.java:32 | RIGHT(s, n) is the last n characters of s, or all of a shorter s. |
| SqlText.Substring | hnsquare-cms/src/main/java/com/hn2/cms/repository/AcaBrdRepository.java:32 | SUBSTRING(s, start, length) is the contiguous slice from 1-based start, cut at the end of s. A start below 1 still counts its positions against length, so only s[..start - 1 + length] is left. |
| SqlText.SubstringInside | hnsquare-cms/src/main/java/com/hn2/cms/repository/AcaBrdRepository.java:32 | Inside the string, SUBSTRING with a 1-based start is the slice. |
| SqlText.LexMax | hnsquare-cms/src/main/java/com/hn2/cms/repository/AcaBrdRepository.java:32 | MAX over strings is NULL on no rows, else a member that no value exceeds in string order. |
| SqlText.LexLeTotal | hnsquare-cms/src/main/java/com/hn2/cms/repository/AcaBrdRepository.java:32 | String order is total. |
| SqlText.LexLeTrans | hnsquare-cms/src/main/java/com/hn2/cms/repository/AcaBrdRepository.java:32 | String order is transitive. |
| SqlText.LexLeAntisym | hnsquare-cms/src/main/java/com/hn2/cms/repository/AcaBrdRepository.java:32 | String order is antisymmetric. |
| SqlText.LexLeDigits | hnsquare-cms/src/main/java/com/hn2/cms/repository/AcaBrdRepository.java:32-36 | On digit strings of one length, MAX's string order is the numeric order. |
| SqlText.LTrim | hnsquare-cms/src/main/java/com/hn2/cms/repository/report02/Report02RepositoryImpl.java:136 | LTRIM removes exactly the leading spaces. |
| SqlText.RTrim | hnsquare-cms/src/main/java/com/hn2/cms/repository/report02/Report02RepositoryImpl.java:136 | RTRIM removes exactly the trailing spaces. |
| SqlText.Upper | hnsquare-cms/src/main/java/com/hn2/cms/repository/report02/Report02RepositoryImpl.java:136 | UPPER keeps the length and maps each a-z to its A-Z, leaving every other character as it is. |
| SqlText.UpperIdempotent | hnsquare-cms/src/main/java/com/hn2/cms/repository/report02/Report02RepositoryImpl.java:136 | UPPER twice is UPPER once. |
| SqlText.SqlEqPadded | hnsquare-cms/src/main/java/com/hn2/cms/repository/aca4001/Aca4001RepositoryImpl.java:184-185 | Under SQL Server string equality an id equals itself with a trailing space. |
| SqlText.SqlMatchPadded | hnsquare-cms/src/main/java/com/hn2/cms/repository/AcaBrdRepository.java:29 | A column `= :v` matches the stored text v and v with a trailing space, and never a NULL column. |
| SqlText.GuidOf | hnsquare-cms/src/main/java/com/hn2/cms/model/SupAfterCareEntity.java:28-29 | Text converts to uniqueidentifier exactly when it is the 36-character hyphenated hex form, that form in braces, or longer text starting with it. The result is the canonical upper-case form. |
| SqlText.GuidOfSpellings | hnsquare-cms/src/main/java/com/hn2/cms/model/SupAfterCareEntity.java:28-29 | Lower case, upper case and braced spellings of one GUID convert to the same value. |
| AfterCare.FindTopByNamIdNoOrderByCrDateTimeDesc | hnsquare-cms/src/main/java/com/hn2/cms/repository/SupAfterCareRepository.java:16 | It is empty exactly when no row has the personal id. Otherwise it is such a row, and no such row is newer. |
| AfterCare.CrDateTimeDescPreorder | hnsquare-cms/src/main/java/com/hn2/cms/repository/SupAfterCareRepository.java:16 | ORDER BY CR_DATE_TIME DESC is a total preorder. |
| AcaBrdRepository.CreatedDescPreorder | hnsquare-cms/src/main/java/com/hn2/cms/repository/AcaBrdRepository.java:17 | ORDER BY CreatedOnDate DESC is a total preorder. |
| AcaBrdRepository.ActiveRowsByPersonalId | hnsquare-cms/src/main/java/com/hn2/cms/repository/AcaBrdRepository.java:17 | It returns exactly the rows with the id number and IsDeleted 0 or NULL, newest first. |
| AcaBrdRepository.FindActiveCardNosByPersonalId | hnsquare-cms/src/main/java/com/hn2/cms/repository/AcaBrdRepository.java:17-18 | The card numbers of exactly those rows, one per row, in newest-first order. |
| AcaBrdRepository.CardNosExactly | hnsquare-cms/src/main/java/com/hn2/cms/repository/AcaBrdRepository.java:17-18 | A card (or NULL) is listed exactly when an active row whose id number equals the personal id, trailing spaces ignored, carries it. |
| AcaBrdRepository.SameCardListedTwice | hnsquare-cms/src/main/java/com/hn2/cms/repository/AcaBrdRepository.java:17 | Card numbers are not made distinct: two rows with one card list it twice. |
| AcaBrdRepository.FindTopActiveByPersonalId | hnsquare-cms/src/main/java/com/hn2/cms/repository/AcaBrdRepository.java:23-24 | It is empty exactly when the person has no active row, id numbers compared with trailing spaces ignored. Otherwise it is such a row, and no such row is newer. |
| AcaBrdRepository.FindTopActiveByAcaCardNo | hnsquare-cms/src/main/java/com/hn2/cms/repository/AcaBrdRepository.java:29-30 | It is empty exactly when no active row has a card equal to the argument, trailing spaces ignored. Otherwise it is such a row, and no such row is newer. |
| AcaBrdRepository.TopByPersonalIdCard | hnsquare-cms/src/main/java/com/hn2/cms/repository/AcaBrdRepository.java:17-24 | The card of the person's newest active row is among the person's listed cards. |
| AcaBrdRepository.FindByAcaIdNo | hnsquare-cms/src/main/java/com/hn2/cms/repository/AcaBrdRepository.java:12 | It is empty exactly when no row, deleted or not, has the id number: trailing spaces are ignored, and a NULL argument matches only a NULL column. Otherwise it is such a row. |
| AcaBrdRepository.CastVarchar | hnsquare-cms/src/main/java/com/hn2/cms/repository/AcaBrdRepository.java:32 | CAST(i AS VARCHAR(w)) is at most w characters, or '*'. |
| AcaBrdRepository.PadNumber | hnsquare-cms/src/main/java/com/hn2/cms/repository/AcaBrdRepository.java:32 | RIGHT(REPLICATE('0', w) + CAST(k AS VARCHAR(w)), w) has exactly w characters. |
| AcaBrdRepository.PadNumberFits | hnsquare-cms/src/main/java/com/hn2/cms/repository/AcaBrdRepository.java:32 | A number that fits is its decimal text with zeros on the left. |
| AcaBrdRepository.PadRight | hnsquare-cms/src/main/java/com/hn2/cms/repository/AcaBrdRepository.java:32 | Padding then taking the right w characters adds exactly the missing zeros. |
| AcaBrdRepository.Generate | hnsquare-cms/src/main/java/com/hn2/cms/repository/AcaBrdRepository.java:32-36 | Either the generated text has the width, or a non-numeric suffix gives the conversion error. |
| AcaBrdRepository.GenNewId | hnsquare-cms/src/main/java/com/hn2/cms/repository/AcaBrdRepository.java:32-33 | genNewId gives five characters (value and freshness in GenNewIdNext and GenNewIdFresh). |
| AcaBrdRepository.GenNewAcaCardNo | hnsquare-cms/src/main/java/com/hn2/cms/repository/AcaBrdRepository.java:35-36 | genNewAcaCardNo gives four characters (value and freshness in GenNewAcaCardNoNext and GenNewAcaCardNoFresh). |
| AcaBrdRepository.Matching | hnsquare-cms/src/main/java/com/hn2/cms/repository/AcaBrdRepository.java:32-36 | The values that `MAX` ranges over: a text is listed exactly when a row carries it in the column and it satisfies LIKE. NULL columns are skipped, and with no such row the list is empty. |
| AcaBrdRepository.GenNewIdNext | hnsquare-cms/src/main/java/com/hn2/cms/repository/AcaBrdRepository.java:32-33 | When characters 8-12 of the greatest matching id are the number n and n + 1 < 100000, genNewId is all digits and denotes n + 1. |
| AcaBrdRepository.GenNewAcaCardNoNext | hnsquare-cms/src/main/java/com/hn2/cms/repository/AcaBrdRepository.java:35-36 | When characters 4-7 of the greatest matching card are n and n + 1 < 10000, genNewAcaCardNo is all digits and denotes n + 1. |
| AcaBrdRepository.GenNewIdFresh | hnsquare-cms/src/main/java/com/hn2/cms/repository/AcaBrdRepository.java:32-33 | When every matching id is a 7-character prefix and five digits below 99999, genNewId is above and so different from the number of every matching row. |
| AcaBrdRepository.GenNewAcaCardNoFresh | hnsquare-cms/src/main/java/com/hn2/cms/repository/AcaBrdRepository.java:35-36 | The same for card numbers: a 3-character prefix and four digits below 9999. |
| AcaBrdRepository.GenerateNext | hnsquare-cms/src/main/java/com/hn2/cms/repository/AcaBrdRepository.java:32-36 | When max suffix n + 1 fits, the result is all digits and denotes n + 1. |
| AcaBrdRepository.GenerateEmpty | hnsquare-cms/src/main/java/com/hn2/cms/repository/AcaBrdRepository.java:32-36 | With no matching value the result is w - 1 zeros and '1'. |
| AcaBrdRepository.GenerateOnEmpty | hnsquare-cms/src/main/java/com/hn2/cms/repository/AcaBrdRepository.java:32-36 | With no matching rows, genNewId is "00001" and genNewAcaCardNo is "0001". |
| AcaBrdRepository.LexLeCommonPrefix | hnsquare-cms/src/main/java/com/hn2/cms/repository/AcaBrdRepository.java:32-36 | Values with one prefix compare as their suffixes do. |
| AcaBrdRepository.SuffixAtMostMax | hnsquare-cms/src/main/java/com/hn2/cms/repository/AcaBrdRepository.java:32-36 | For fixed-width values, the suffix of MAX has the greatest number. |
| AcaBrdRepository.GenerateFresh | hnsquare-cms/src/main/java/com/hn2/cms/repository/AcaBrdRepository.java:32-36 | For fixed-width digit suffixes where max + 1 fits, the generated suffix exceeds every existing one and equals none. |
| AcaBrdRepository.GenerateOverflow | hnsquare-cms/src/main/java/com/hn2/cms/repository/AcaBrdRepository.java:32-36 | When max + 1 does not fit, the result is w - 1 zeros and '*' ('0000*' for ids after 99999). |
| Aca2003Repository.ActiveIds | hnsquare-cms/src/main/java/com/hn2/cms/repository/aca2003/Aca2003Repository.java:44-46 | The ids of the card's records whose isDeleted is false or NULL, and no others. |
| Aca2003Repository.CountActive | hnsquare-cms/src/main/java/com/hn2/cms/repository/aca2003/Aca2003Repository.java:44-47 | countActive is the number of such records; it is 0 exactly when there is none. |
| Aca2003Repository.PaddedCardCounted | hnsquare-cms/src/main/java/com/hn2/cms/repository/aca2003/Aca2003Repository.java:44-47 | A live record stored with card "c " (trailing space) is counted by countActive("c"). |
| Aca2003Repository.ExistsActiveByCardNo | hnsquare-cms/src/main/java/com/hn2/cms/repository/aca2003/Aca2003Repository.java:55-61 | It is 1 when a record of the card has IsDeleted 0/NULL and isERASE 0/NULL, and 0 otherwise. |
| Aca2003Repository.ExistsActiveAcaBrd | hnsquare-cms/src/main/java/com/hn2/cms/repository/aca2003/Aca2003Repository.java:67-74 | It is 1 when an ACABrd row of the card has IsDeleted = 0, and 0 otherwise; NULL does not count. |
| Aca2003Repository.FirstActiveBrd | hnsquare-cms/src/main/java/com/hn2/cms/repository/aca2003/Aca2003Repository.java:35 | TOP 1 without ORDER BY: empty exactly when no row of the card has IsDeleted = 0, else such a row. |
| Aca2003Repository.FindCreatedByBranchIdByAcaCardNo | hnsquare-cms/src/main/java/com/hn2/cms/repository/aca2003/Aca2003Repository.java:35-36 | NULL when no ACABrd row of the card (trailing spaces ignored) has IsDeleted = 0. Otherwise the CreatedByBranchID of such a row. |
| Aca2003Repository.Detail | hnsquare-cms/src/main/java/com/hn2/cms/repository/aca2003/Aca2003Repository.java:89-106 | The projection keeps the record's id, texts, card and creation date. |
| Aca2003Repository.FindDetailById | hnsquare-cms/src/main/java/com/hn2/cms/repository/aca2003/Aca2003Repository.java:89-110 | It is empty exactly when the id is absent or the record is deleted; otherwise it is that record's Detail row (its ACABrd and Lists columns from the joins). |
| Aca2003Repository.MaxExists | hnsquare-cms/src/main/java/com/hn2/cms/repository/aca2003/Aca2003Repository.java:142 | Every non-empty set of IDs has a greatest element. |
| Aca2003Repository.MaxId | hnsquare-cms/src/main/java/com/hn2/cms/repository/aca2003/Aca2003Repository.java:142 | ORDER BY ID DESC with TOP 1 picks the greatest ID. |
| Aca2003Repository.FindLatestDetailByCardNo | hnsquare-cms/src/main/java/com/hn2/cms/repository/aca2003/Aca2003Repository.java:121-144 | It is empty exactly when the card has no non-deleted record. Otherwise it is the detail of the one with the greatest ID. |
| Aca2003Repository.LatestIffCounted | hnsquare-cms/src/main/java/com/hn2/cms/repository/aca2003/Aca2003Repository.java:140-142 | The latest lookup finds a record exactly when countActive is positive. |
| Aca2003Repository.ExistsActiveImpliesLatest | hnsquare-cms/src/main/java/com/hn2/cms/repository/aca2003/Aca2003Repository.java:55-144 | existsActiveByCardNo = 1 implies a positive count and a latest record. |
| Aca2003Repository.LatestMayBeErased | hnsquare-cms/src/main/java/com/hn2/cms/repository/aca2003/Aca2003Repository.java:121-144 | With a plain record 1 and an erased record 2, the existence check holds and the latest record is the erased one. |
| Aca2003Service.TrimStart | hnsquare-cms/src/main/java/com/hn2/cms/service/aca2003/Aca2003ServiceImpl.java:446-448 | It removes exactly the leading characters up to U+0020. |
| Aca2003Service.TrimEnd | hnsquare-cms/src/main/java/com/hn2/cms/service/aca2003/Aca2003ServiceImpl.java:446-448 | It removes exactly the trailing characters up to U+0020. |
| Aca2003Service.JavaTrim | hnsquare-cms/src/main/java/com/hn2/cms/service/aca2003/Aca2003ServiceImpl.java:446-448 | String.trim is a slice of s with only such characters around it, and it neither starts nor ends with one. |
| Aca2003Service.TrimStartKeeps | hnsquare-cms/src/main/java/com/hn2/cms/service/aca2003/Aca2003ServiceImpl.java:446-448 | A string not starting with such a character is kept. |
| Aca2003Service.TrimEndKeeps | hnsquare-cms/src/main/java/com/hn2/cms/service/aca2003/Aca2003ServiceImpl.java:446-448 | A string not ending with such a character is kept. |
| Aca2003Service.TrimStartAllSpace | hnsquare-cms/src/main/java/com/hn2/cms/service/aca2003/Aca2003ServiceImpl.java:446-448 | An all-space string trims to empty. |
| Aca2003Service.JavaTrimIdempotent | hnsquare-cms/src/main/java/com/hn2/cms/service/aca2003/Aca2003ServiceImpl.java:446-448 | Trimming twice is trimming once. |
| Aca2003Service.JavaTrimEmpty | hnsquare-cms/src/main/java/com/hn2/cms/service/aca2003/Aca2003ServiceImpl.java:442-444 | trim gives "" exactly for all-space strings. |
| Aca2003Service.Trim | hnsquare-cms/src/main/java/com/hn2/cms/service/aca2003/Aca2003ServiceImpl.java:446-448 | trim keeps null and trims a string. |
| Aca2003Service.TrimToNull | hnsquare-cms/src/main/java/com/hn2/cms/service/aca2003/Aca2003ServiceImpl.java:450-454 | It is null exactly for null or all-space input; otherwise the trimmed text, which has no blank at either end. |
| Aca2003Service.IsBlankIffTrimToNull | hnsquare-cms/src/main/java/com/hn2/cms/service/aca2003/Aca2003ServiceImpl.java:442-454 | isBlank(s) holds exactly when trimToNull(s) is null, that is, for null or all-space s. |
| Aca2003Service.TrimToNullAfterTrim | hnsquare-cms/src/main/java/com/hn2/cms/service/aca2003/Aca2003ServiceImpl.java:446-454 | trimToNull after trim equals trimToNull. |
| Aca2003Service.MostSpecificCause | hnsquare-cms/src/main/java/com/hn2/cms/service/aca2003/Aca2003ServiceImpl.java:198 | The most specific cause is the last link of the cause chain. |
| Aca2003Service.IsUniqueKeyViolation | hnsquare-cms/src/main/java/com/hn2/cms/service/aca2003/Aca2003ServiceImpl.java:197-210 | The loop finds a SQLException with code 2627 or 2601 from the most specific cause onward, which is exactly when the root cause is one. |
| Aca2003Service.InsertFault | hnsquare-cms/src/main/java/com/hn2/cms/service/aca2003/Aca2003ServiceImpl.java:112-118 | A failed INSERT with a unique-key root cause ends in UnexpectedRollbackException, and any other in its own exception; it never gives a reply. |
| Aca2003Service.IntendedFault | hnsquare-cms/src/main/java/com/hn2/cms/service/aca2003/Aca2003ServiceImpl.java:112-118 | As the catch is written to work: MSG_DUP_ACTIVE exactly for a unique-key root cause, otherwise the exception. |
| Aca2003Service.UniqueFaultNotReported | hnsquare-cms/src/main/java/com/hn2/cms/service/aca2003/Aca2003ServiceImpl.java:112-135 | For a unique-key violation the intended reply is MSG_DUP_ACTIVE, but the outcome is UnexpectedRollbackException. |
| Aca2003Service.NewRecord | hnsquare-cms/src/main/java/com/hn2/cms/service/aca2003/Aca2003ServiceImpl.java:129-153 | The created record: the new ID, trimmed card, isDeleted false, creator and branch, texts through trimToNull, no modified*/isErase. |
| Aca2003Service.UpdatedRecord | hnsquare-cms/src/main/java/com/hn2/cms/service/aca2003/Aca2003ServiceImpl.java:172-192 | Update writes only the eight texts and modified*; id, card, flags and creation fields are kept. |
| Aca2003Service.DeletedRecord | hnsquare-cms/src/main/java/com/hn2/cms/service/aca2003/Aca2003ServiceImpl.java:402-404 | Soft delete sets isDeleted true, modifiedBy and modifiedOn and keeps every other field. |
| Aca2003Service.DrugUseService.constructor | hnsquare-cms/src/main/java/com/hn2/cms/service/aca2003/Aca2003ServiceImpl.java:69-73 | The service starts over the given tables, with every record under its own ID. |
| Aca2003Service.DrugUseService.Save | hnsquare-cms/src/main/java/com/hn2/cms/service/aca2003/Aca2003ServiceImpl.java:85-119 | The checks come in order: payload, userId, blank card, then the ACABrd check on the trimmed card. None of these refusals writes. Then create or update; a write that throws leaves the table unchanged, and the caller receives an exception, never MSG_DUP_ACTIVE. |
| Aca2003Service.DrugUseService.Create | hnsquare-cms/src/main/java/com/hn2/cms/service/aca2003/Aca2003ServiceImpl.java:124-137 | A card with an active record is refused with no write. A failed INSERT writes nothing but spends the IDENTITY value, and ends in InsertFault. Otherwise exactly one record, NewRecord, is added under the next ID. |
| Aca2003Service.DrugUseService.Update | hnsquare-cms/src/main/java/com/hn2/cms/service/aca2003/Aca2003ServiceImpl.java:158-177 | A missing id, a deleted record or a different card is refused with nothing changed. A failed UPDATE, flushed at commit, reaches the caller as its exception. Otherwise only that record changes, to UpdatedRecord. |
| Aca2003Service.DrugUseService.SoftDelete | hnsquare-cms/src/main/java/com/hn2/cms/service/aca2003/Aca2003ServiceImpl.java:383-408 | A null payload, id or userId, a missing record or an already-deleted record is refused with nothing changed. Otherwise only that record changes, to DeletedRecord. |
| Aca2003Service.DrugUseService.QueryById | hnsquare-cms/src/main/java/com/hn2/cms/service/aca2003/Aca2003ServiceImpl.java:220-230 | A null id gives MSG_ID_EMPTY. Success holds exactly for an existing live record; it carries that record's full DTO. Any other id gives MSG_NO_DATA. |
| Aca2003Service.DrugUseService.QueryLatestByCardNo | hnsquare-cms/src/main/java/com/hn2/cms/service/aca2003/Aca2003ServiceImpl.java:236-246 | A blank card is refused. Success holds exactly when the trimmed card has a live record, and carries the full DTO of the one with the greatest ID; otherwise "no data". |
| Aca2003Service.DrugUseService.QueryByPersonalId | hnsquare-cms/src/main/java/com/hn2/cms/service/aca2003/Aca2003ServiceImpl.java:257-284 | A blank id is refused. Zero cards give "not found", more than one gives MSG_MULTIPLE_CARDS_FOUND, a single NULL card gives MSG_CARD_EMPTY, and a single card gives queryLatestByCardNo of it. |
| Aca2003Service.DrugUseService.AfterCareDto | hnsquare-cms/src/main/java/com/hn2/cms/service/aca2003/Aca2003ServiceImpl.java:332-346 | The fallback DTO has no id, carries the input card, and copies the after-care texts through trimToNull and the names through trim. |
| Aca2003Service.DrugUseService.QueryDrugAfterCareByPersonalId | hnsquare-cms/src/main/java/com/hn2/cms/service/aca2003/Aca2003ServiceImpl.java:299-349 | A blank card is refused. An active drug-use record gives queryLatestByCardNo. Otherwise the case, its id number and the newest after-care row are looked up in turn, each with its own failure. |
| Aca2003Service.LatestIgnoresPadding | hnsquare-cms/src/main/java/com/hn2/cms/service/aca2003/Aca2003ServiceImpl.java:236-246 | A card number padded with spaces finds what the trimmed one finds. |
| Aca2003Service.AfterCareQueryUsesDrugUse | hnsquare-cms/src/main/java/com/hn2/cms/service/aca2003/Aca2003ServiceImpl.java:308-310 | With an active record, the after-care query equals the latest-record query and succeeds. |
| Aca2003Service.AfterCareAnswerShape | hnsquare-cms/src/main/java/com/hn2/cms/service/aca2003/Aca2003ServiceImpl.java:325-348 | A fallback answer comes from an after-care row of the table: its texts and its date at midnight. |
| Aca2003Service.PersonWithCaseIsFound | hnsquare-cms/src/main/java/com/hn2/cms/service/aca2003/Aca2003ServiceImpl.java:257-284 | A person with an active ACABrd row is never "not found". |
| Aca2003Service.NullCardOfPerson | hnsquare-cms/src/main/java/com/hn2/cms/service/aca2003/Aca2003ServiceImpl.java:257-284 | A person whose one active ACABrd row has a NULL card is answered with MSG_CARD_EMPTY by the queryLatestByCardNo call. |
| Aca4001Repository.DateOf | hnsquare-cms/src/main/java/com/hn2/cms/repository/aca4001/Aca4001RepositoryImpl.java:46 | CAST(t AS date) is NULL exactly for NULL and is otherwise the date part. |
| Aca4001Repository.FindPersonBirth | hnsquare-cms/src/main/java/com/hn2/cms/repository/aca4001/Aca4001RepositoryImpl.java:44-62 | There is no result exactly when no row of the card has IsDeleted = 0. Otherwise the birth date of such a row, its 18th birthday NULL exactly when the birth is, and else 18 years on (29 February → 28). |
| Aca4001Repository.ProNoticeAscPreorder | hnsquare-cms/src/main/java/com/hn2/cms/repository/aca4001/Aca4001RepositoryImpl.java:88 | ORDER BY ProNoticeDate is a total preorder. |
| Aca4001Repository.CrmCreatedAscPreorder | hnsquare-cms/src/main/java/com/hn2/cms/repository/aca4001/Aca4001RepositoryImpl.java:123 | ORDER BY CreatedOnDate is a total preorder. |
| Aca4001Repository.ProRecsBefore18 | hnsquare-cms/src/main/java/com/hn2/cms/repository/aca4001/Aca4001RepositoryImpl.java:80-88 | Exactly the non-deleted ProRecs of the card before the cutoff and in the inclusive window, earliest first. |
| Aca4001Repository.CrmRecsBefore18 | hnsquare-cms/src/main/java/com/hn2/cms/repository/aca4001/Aca4001RepositoryImpl.java:115-123 | Exactly the non-deleted CrmRecs of the card before the cutoff and in the window, earliest first. |
| Aca4001Repository.FindProRecIdsBefore18 | hnsquare-cms/src/main/java/com/hn2/cms/repository/aca4001/Aca4001RepositoryImpl.java:66-97 | The ids of the selected rows one for one, in their ProNoticeDate order (earliest first); an id is listed exactly when a selected row has it; a NULL cutoff gives []. |
| Aca4001Repository.FindCrmRecIdsBefore18 | hnsquare-cms/src/main/java/com/hn2/cms/repository/aca4001/Aca4001RepositoryImpl.java:102-132 | The same for CrmRec, in CreatedOnDate order. |
| Aca4001Repository.Before18Bounds | hnsquare-cms/src/main/java/com/hn2/cms/repository/aca4001/Aca4001RepositoryImpl.java:84-87 | A row at the cutoff is excluded. A row at either window bound is kept, and a missing bound admits every earlier date. |
| Aca4001Repository.Before18IsBeforeBirthday | hnsquare-cms/src/main/java/com/hn2/cms/repository/aca4001/Aca4001RepositoryImpl.java:80-88 | With the 18th birthday's midnight as cutoff, every selected record is dated before that birthday. |
| Aca4001Repository.Position | hnsquare-cms/src/main/java/com/hn2/cms/repository/aca4001/Aca4001RepositoryImpl.java:222-225 | getOrDefault on the order map is the last index of the id in the input, or Integer.MAX_VALUE when absent. |
| Aca4001Repository.PositionSnoc | hnsquare-cms/src/main/java/com/hn2/cms/repository/aca4001/Aca4001RepositoryImpl.java:223-224 | A later put of the same id overrides. |
| Aca4001Repository.ByOrderPreorder | hnsquare-cms/src/main/java/com/hn2/cms/repository/aca4001/Aca4001RepositoryImpl.java:225 | The comparator by index is a total preorder. |
| Aca4001Repository.RestoreInputOrder | hnsquare-cms/src/main/java/com/hn2/cms/repository/aca4001/Aca4001RepositoryImpl.java:222-225 | The map loop then the sort: a permutation of the fetched rows, ordered by each id's index in the input. |
| Aca4001Repository.OrderStep | hnsquare-cms/src/main/java/com/hn2/cms/repository/aca4001/Aca4001RepositoryImpl.java:223-224 | One put extends the index map from ids[..i] to ids[..i+1]. |
| Aca4001Repository.MissingSortsLast | hnsquare-cms/src/main/java/com/hn2/cms/repository/aca4001/Aca4001RepositoryImpl.java:225 | A row whose id is not in the input sorts after every row whose id is. |
| Aca4001Repository.DistinctIdsKeepOrder | hnsquare-cms/src/main/java/com/hn2/cms/repository/aca4001/Aca4001RepositoryImpl.java:222-225 | With distinct input ids, rows come in input order. |
| Aca4001Repository.LastOccurrenceWins | hnsquare-cms/src/main/java/com/hn2/cms/repository/aca4001/Aca4001RepositoryImpl.java:223-224 | For ids [x, y, x], x takes index 2, after y. |
| Aca4001Repository.FindCrmRecsByIds | hnsquare-cms/src/main/java/com/hn2/cms/repository/aca4001/Aca4001RepositoryImpl.java:141-228 | Null or empty ids give [] without a query. Otherwise a permutation of the fetched rows in input order. |
| Aca4001Repository.PaddedIdFetched | hnsquare-cms/src/main/java/com/hn2/cms/repository/aca4001/Aca4001RepositoryImpl.java:184-185 | An id with a trailing space fetches the row, whose id then has no index and sorts last. |
| Aca4001Repository.ProView | hnsquare-cms/src/main/java/com/hn2/cms/repository/aca4001/Aca4001RepositoryImpl.java:273-291 | Closed is never NULL and is whether ProCloseDate is set; the counsellor text is never NULL. |
| Aca4001Repository.FindProRecsByIds | hnsquare-cms/src/main/java/com/hn2/cms/repository/aca4001/Aca4001RepositoryImpl.java:237-399 | Null or empty ids give []. Otherwise a permutation of the fetched ProRecs in input order. |
| Aca4001Repository.DrugEntry | hnsquare-cms/src/main/java/com/hn2/cms/repository/aca4001/Aca4001RepositoryImpl.java:440-457 | The map key is the id text the dto carries. |
| Aca4001Repository.FirstError | hnsquare-cms/src/main/java/com/hn2/cms/repository/aca4001/Aca4001RepositoryImpl.java:432-433 | It is None exactly when every id converts; otherwise one of the conversion errors. |
| Aca4001Repository.ToMap | hnsquare-cms/src/main/java/com/hn2/cms/repository/aca4001/Aca4001RepositoryImpl.java:459-462 | The map has exactly the keys put, each bound to one of its put values. |
| Aca4001Repository.ToMapSnoc | hnsquare-cms/src/main/java/com/hn2/cms/repository/aca4001/Aca4001RepositoryImpl.java:459-462 | One more put updates one key. |
| Aca4001Repository.LaterEntryWins | hnsquare-cms/src/main/java/com/hn2/cms/repository/aca4001/Aca4001RepositoryImpl.java:459-462 | The last put of a key wins. |
| Aca4001Repository.BuildIdMap | hnsquare-cms/src/main/java/com/hn2/cms/repository/aca4001/Aca4001RepositoryImpl.java:459-462 | The put loop builds ToMap of the rows. |
| Aca4001Repository.Reassemble | hnsquare-cms/src/main/java/com/hn2/cms/repository/aca4001/Aca4001RepositoryImpl.java:466-472 | It is no longer than the input; each element is the map's value for an input id. |
| Aca4001Repository.ReassembleAllFound | hnsquare-cms/src/main/java/com/hn2/cms/repository/aca4001/Aca4001RepositoryImpl.java:466-472 | When every id is mapped, the output follows the input one for one, repeats included. |
| Aca4001Repository.ReassembleSkips | hnsquare-cms/src/main/java/com/hn2/cms/repository/aca4001/Aca4001RepositoryImpl.java:466-472 | An unmapped id contributes nothing. |
| Aca4001Repository.ReassembleHas | hnsquare-cms/src/main/java/com/hn2/cms/repository/aca4001/Aca4001RepositoryImpl.java:466-472 | A mapped input id's value is in the output. |
| Aca4001Repository.Rewalk | hnsquare-cms/src/main/java/com/hn2/cms/repository/aca4001/Aca4001RepositoryImpl.java:466-472 | The append loop computes Reassemble. |
| Aca4001Repository.FindAcaDrugUsesByIds | hnsquare-cms/src/main/java/com/hn2/cms/repository/aca4001/Aca4001RepositoryImpl.java:411-475 | Null or empty ids give []; an id that is not an int gives the conversion error; otherwise the input re-walked through the id-to-row map. |
| Aca4001Repository.DrugUseFoundById | hnsquare-cms/src/main/java/com/hn2/cms/repository/aca4001/Aca4001RepositoryImpl.java:411-475 | A live record asked for by its id text comes back. |
| Aca4001Repository.ZeroPaddedIdDropped | hnsquare-cms/src/main/java/com/hn2/cms/repository/aca4001/Aca4001RepositoryImpl.java:432-472 | '012' fetches record 12, whose entry is keyed '12', so the re-walk drops it. |
| Aca4001Repository.ProDateDescPreorder | hnsquare-cms/src/main/java/com/hn2/cms/repository/aca4001/Aca4001RepositoryImpl.java:494 | ORDER BY ProDate DESC is a total preorder. |
| Aca4001Repository.FindLatestProRecClosed | hnsquare-cms/src/main/java/com/hn2/cms/repository/aca4001/Aca4001RepositoryImpl.java:490-501 | It is null exactly when the card has no live ProRec. Otherwise it is whether a row first by ProDate DESC is closed. |
| Aca4001Repository.LatestClosedOfStrictlyLatest | hnsquare-cms/src/main/java/com/hn2/cms/repository/aca4001/Aca4001RepositoryImpl.java:490-501 | With one strictly latest row, the answer is whether that row is closed. |
| Aca4001Repository.FindPersonErased | hnsquare-cms/src/main/java/com/hn2/cms/repository/aca4001/Aca4001RepositoryImpl.java:520-530 | It is null exactly when no row of the card has IsDeleted = 0. Otherwise it is true exactly when such a row has IsErase = 1; 0 and NULL give false. |
| Aca4001Repository.BirthAndErasedAgree | hnsquare-cms/src/main/java/com/hn2/cms/repository/aca4001/Aca4001RepositoryImpl.java:520-524 | The birth and the erased lookups find a case together. |
| Aca4001Repository.FindAllCrmRecIdsByAcaCardNo | hnsquare-cms/src/main/java/com/hn2/cms/repository/aca4001/Aca4001RepositoryImpl.java:539-544 | One id per row of the card, deleted rows included. |
| Aca4001Repository.FindAllAcaDrugUseIdsByAcaCardNo | hnsquare-cms/src/main/java/com/hn2/cms/repository/aca4001/Aca4001RepositoryImpl.java:553-558 | The id text of every row of the card, deleted included. |
| Aca4001Repository.FindAllProRecIdsByAcaCardNo | hnsquare-cms/src/main/java/com/hn2/cms/repository/aca4001/Aca4001RepositoryImpl.java:569-574 | One id per row of the card, deleted included. |
| Aca4001Repository.CollectorKeepsDeleted | hnsquare-cms/src/main/java/com/hn2/cms/repository/aca4001/Aca4001RepositoryImpl.java:539-544 | A deleted record is collected, although the hydrator does not fetch it. |
| Aca4001Repository.AreaAndName | hnsquare-cms/src/main/java/com/hn2/cms/repository/aca4001/Aca4001RepositoryImpl.java:277-282 | Area and name, with a space only when both are present; blank exactly when neither is. |
| Aca4001Repository.InstKindSuffix | hnsquare-cms/src/main/java/com/hn2/cms/repository/aca4001/Aca4001RepositoryImpl.java:283-288 | The suffix is empty without a worker or text, "(實習)" when unofficial, and "(正式)" otherwise. |
| Aca4001Repository.CounselorInstDisplay | hnsquare-cms/src/main/java/com/hn2/cms/repository/aca4001/Aca4001RepositoryImpl.java:276-291 | It is never NULL: '' when area and name are blank, else area, name and suffix. A suffix never stands alone. |
| Aca4001Repository.AuditViewOf | hnsquare-cms/src/main/java/com/hn2/cms/repository/aca4001/Aca4001RepositoryImpl.java:589-594 | createdOn is CreatedOnDate rounded to the whole second (NULL exactly for NULL). DocNum is the CAST of the text and is NULL exactly for NULL. |
| Aca4001Repository.RawCreatedDescPreorder | hnsquare-cms/src/main/java/com/hn2/cms/repository/aca4001/Aca4001RepositoryImpl.java:605 | ORDER BY the stored CreatedOnDate DESC is a total preorder. |
| Aca4001Repository.RoundedCreatedStaysDesc | hnsquare-cms/src/main/java/com/hn2/cms/repository/aca4001/Aca4001RepositoryImpl.java:589-605 | Rows sorted on the stored CreatedOnDate give views sorted on the rounded createdOn as well. |
| Aca4001Repository.DocNumError | hnsquare-cms/src/main/java/com/hn2/cms/repository/aca4001/Aca4001RepositoryImpl.java:594 | It is None exactly when every DocNum casts. |
| Aca4001Repository.FindAuditRows | hnsquare-cms/src/main/java/com/hn2/cms/repository/aca4001/Aca4001RepositoryImpl.java:585-610 | It fails exactly when some DocNum fails to cast. Otherwise it is the projection of a permutation of all rows sorted on the stored CreatedOnDate, newest first with NULL last. So it is a permutation of the views, and they are ordered on the rounded createdOn too. |
| Aca1002Service.Sign | hnsquare-cms/src/main/java/com/hn2/cms/service/aca1002/Aca1002ServiceImpl.java:68-72 | A row with ACA_STATE "0"/NULL gets "1", the receipt date and user. Any other row is unchanged, and the result is no longer signable. |
| Aca1002Service.TransPort | hnsquare-cms/src/main/java/com/hn2/cms/service/aca1002/Aca1002ServiceImpl.java:91-99 | The new office; receipt and sign fields nulled; both states "0". |
| Aca1002Service.GoBack | hnsquare-cms/src/main/java/com/hn2/cms/service/aca1002/Aca1002ServiceImpl.java:115-117 | Receipt and desk user nulled, ACA_STATE "0"; every sign* field kept. |
| Aca1002Service.Reassign | hnsquare-cms/src/main/java/com/hn2/cms/service/aca1002/Aca1002ServiceImpl.java:132-134 | The new desk user, receipt nulled, ACA_STATE "0"; sign* kept. |
| Aca1002Service.OpenCase | hnsquare-cms/src/main/java/com/hn2/cms/service/aca1002/Aca1002ServiceImpl.java:180-183 | Both states "3", upUser and today; the row is no longer signable. |
| Aca1002Service.SignIdempotent | hnsquare-cms/src/main/java/com/hn2/cms/service/aca1002/Aca1002ServiceImpl.java:68-72 | Signing again, with any payload, changes nothing. |
| Aca1002Service.RepeatsIdempotent | hnsquare-cms/src/main/java/com/hn2/cms/service/aca1002/Aca1002ServiceImpl.java:90-183 | Transfer, send-back, reassign and case opening are idempotent with the same payload. |
| Aca1002Service.SignAfterReset | hnsquare-cms/src/main/java/com/hn2/cms/service/aca1002/Aca1002ServiceImpl.java:68-136 | After a send-back, reassignment or transfer, a row can be signed again. |
| Aca1002Service.FindAllById | hnsquare-cms/src/main/java/com/hn2/cms/service/aca1002/Aca1002ServiceImpl.java:65 | An id text that does not convert to uniqueidentifier gives the conversion error, exactly when some listed text fails. Otherwise the stored rows whose GUID some listed text converts to, each once, whatever its case or braces. |
| Aca1002Service.GuidsOf | hnsquare-cms/src/main/java/com/hn2/cms/service/aca1002/Aca1002ServiceImpl.java:65 | The IN list converted to uniqueidentifier: None exactly when one text fails to convert, else each text's GUID in place. |
| Aca1002Service.FindAllByGuid | hnsquare-cms/src/main/java/com/hn2/cms/service/aca1002/Aca1002ServiceImpl.java:65 | On converted GUIDs: the stored rows of exactly the listed GUIDs that exist, each once. |
| Aca1002Service.IdSpellings | hnsquare-cms/src/main/java/com/hn2/cms/service/aca1002/Aca1002ServiceImpl.java:65 | A GUID listed in lower case, upper case or in braces finds the same rows. |
| Aca1002Service.ShortIdFails | hnsquare-cms/src/main/java/com/hn2/cms/service/aca1002/Aca1002ServiceImpl.java:65 | A listed text shorter than a GUID makes the whole lookup fail with the conversion error. |
| Aca1002Service.ChangeEach | hnsquare-cms/src/main/java/com/hn2/cms/service/aca1002/Aca1002ServiceImpl.java:67-77 | The loop changes every found row by op and no other. |
| Aca1002Service.SaveAllChanged | hnsquare-cms/src/main/java/com/hn2/cms/service/aca1002/Aca1002ServiceImpl.java:79 | saveAll of the changed rows is op applied to the listed rows. |
| Aca1002Service.ApplyListedTwice | hnsquare-cms/src/main/java/com/hn2/cms/service/aca1002/Aca1002ServiceImpl.java:67-79 | A batch of an idempotent change is idempotent. |
| Aca1002Service.SignListIdempotent | hnsquare-cms/src/main/java/com/hn2/cms/service/aca1002/Aca1002ServiceImpl.java:63-82 | signList twice, the second time with any payload, equals signList once. |
| Aca1002Service.SignOffService.constructor | hnsquare-cms/src/main/java/com/hn2/cms/service/aca1002/Aca1002ServiceImpl.java:29-36 | The service over the given after-care and ACABrd tables. |
| Aca1002Service.SignOffService.UpdateListed | hnsquare-cms/src/main/java/com/hn2/cms/service/aca1002/Aca1002ServiceImpl.java:65-79 | A text that is no GUID gives the conversion error and no write (the transaction rolls back). Otherwise the rows whose GUID is listed, in any spelling, are changed by op and no other row. |
| Aca1002Service.SignOffService.SignList | hnsquare-cms/src/main/java/com/hn2/cms/service/aca1002/Aca1002ServiceImpl.java:63-82 | The conversion error with no write, or "儲存成功" with Sign applied to the rows of the listed GUIDs only. |
| Aca1002Service.SignOffService.TransPortList | hnsquare-cms/src/main/java/com/hn2/cms/service/aca1002/Aca1002ServiceImpl.java:86-106 | The conversion error with no write, or TransPort applied to the rows of the listed GUIDs only. |
| Aca1002Service.SignOffService.GoBackList | hnsquare-cms/src/main/java/com/hn2/cms/service/aca1002/Aca1002ServiceImpl.java:110-123 | The conversion error with no write, or GoBack applied to the rows of the listed GUIDs only. |
| Aca1002Service.SignOffService.ReassignList | hnsquare-cms/src/main/java/com/hn2/cms/service/aca1002/Aca1002ServiceImpl.java:127-141 | The conversion error with no write, or Reassign applied to the rows of the listed GUIDs only. |
| Aca1002Service.SignOffService.Save | hnsquare-cms/src/main/java/com/hn2/cms/service/aca1002/Aca1002ServiceImpl.java:169-196 | An id text that is no GUID gives the conversion error; a missing row or ACABrd record gives "查不到資料"; neither writes. Otherwise only the row of that GUID changes, to OpenCase, with the case's modifiedByUserId. |
| Aca1002Service.SaveFindsCase | hnsquare-cms/src/main/java/com/hn2/cms/service/aca1002/Aca1002ServiceImpl.java:176-183 | The opened row's editor is that of an ACABrd row with its personal id. |
| Aca1002Service.JavaDiv | hnsquare-cms/src/main/java/com/hn2/cms/service/aca1002/Aca1002ServiceImpl.java:55 | Java's int division truncates toward zero: q * b lies between 0 and a, and a - q * b is smaller than b in absolute value. On non-negative operands it is Euclidean division. |
| Aca1002Service.JavaRem | hnsquare-cms/src/main/java/com/hn2/cms/service/aca1002/Aca1002ServiceImpl.java:54 | Java's %: a == (a / b) * b + a % b, the remainder is smaller than b in absolute value and is 0 or has the sign of a. |
| Aca1002Service.QueryListPageInfo | hnsquare-cms/src/main/java/com/hn2/cms/service/aca1002/Aca1002ServiceImpl.java:39-59 | totalDatas = count. A missing page gives "請求分頁不存在", and a page size of 0 divides by zero. With paging, the page, its size and the page count are set. |
| Aca1002Service.TotalPagesIsCeiling | hnsquare-cms/src/main/java/com/hn2/cms/service/aca1002/Aca1002ServiceImpl.java:54-55 | totalPages is the least number of pages that hold count rows. |
| Aca1002Service.CeilingPages | hnsquare-cms/src/main/java/com/hn2/cms/service/aca1002/Aca1002ServiceImpl.java:54-55 | count / size plus one for a remainder is the ceiling. |
| Report02Repository.StateOf | hnsquare-cms/src/main/java/com/hn2/cms/repository/report02/Report02RepositoryImpl.java:88-90 | SIGN_STATE = n compares the converted text; NULL is unknown; text that does not convert fails. |
| Report02Repository.StateFailure | hnsquare-cms/src/main/java/com/hn2/cms/repository/report02/Report02RepositoryImpl.java:88-92 | It is None exactly when every counted state converts. |
| Report02Repository.GroupKeys | hnsquare-cms/src/main/java/com/hn2/cms/repository/report02/Report02RepositoryImpl.java:93 | GROUP BY gives exactly the groups present, each once. |
| Report02Repository.CountState | hnsquare-cms/src/main/java/com/hn2/cms/repository/report02/Report02RepositoryImpl.java:88-90 | The SUM is 0 exactly when no row of the group has the state. |
| Report02Repository.CountStateSnoc | hnsquare-cms/src/main/java/com/hn2/cms/repository/report02/Report02RepositoryImpl.java:88-90 | A row adds one to its own group and state's count and to no other. |
| Report02Repository.OtherStateCountsNowhere | hnsquare-cms/src/main/java/com/hn2/cms/repository/report02/Report02RepositoryImpl.java:88-90 | A state other than 0, 1 and 3 changes none of the counts. |
| Report02Repository.Stamp | hnsquare-cms/src/main/java/com/hn2/cms/repository/report02/Report02RepositoryImpl.java:104 | ISNULL(ModifiedOnDate, CreatedOnDate). |
| Report02Repository.LatestFirstPreorder | hnsquare-cms/src/main/java/com/hn2/cms/repository/report02/Report02RepositoryImpl.java:103-104 | The ROW_NUMBER order is a total preorder. |
| Report02Repository.LatestTieIsSameEntry | hnsquare-cms/src/main/java/com/hn2/cms/repository/report02/Report02RepositoryImpl.java:104 | Only entries with one stamp and one EntryID tie. |
| Report02Repository.CleanLists | hnsquare-cms/src/main/java/com/hn2/cms/repository/report02/Report02RepositoryImpl.java:100-106 | One entry per branch Value, the latest (ties to the larger EntryID), and every branch Value gets one. |
| Report02Repository.OrgCodeAscPreorder | hnsquare-cms/src/main/java/com/hn2/cms/repository/report02/Report02RepositoryImpl.java:115-116 | ORDER BY ORG_CODE is a total preorder. |
| Report02Repository.OrgFor | hnsquare-cms/src/main/java/com/hn2/cms/repository/report02/Report02RepositoryImpl.java:137-139 | The org join: none exactly when no org code matches after trim and upper-case, else the first matching org by ORG_CODE. |
| Report02Repository.GroupRow | hnsquare-cms/src/main/java/com/hn2/cms/repository/report02/Report02RepositoryImpl.java:125-139 | The branch fields, the group's three counts, and the org code NULL exactly when no org matches. |
| Report02Repository.GroupRows | hnsquare-cms/src/main/java/com/hn2/cms/repository/report02/Report02RepositoryImpl.java:125-139 | One row per group. |
| Report02Repository.MatchedGroups | hnsquare-cms/src/main/java/com/hn2/cms/repository/report02/Report02RepositoryImpl.java:135-136 | Exactly the groups whose branch code matches, each once. |
| Report02Repository.BranchRows | hnsquare-cms/src/main/java/com/hn2/cms/repository/report02/Report02RepositoryImpl.java:131-136 | One row per joined group, or the single zero row. |
| Report02Repository.Joined | hnsquare-cms/src/main/java/com/hn2/cms/repository/report02/Report02RepositoryImpl.java:125-140 | Exactly the rows of the clean branch entries. |
| Report02Repository.SortKey | hnsquare-cms/src/main/java/com/hn2/cms/repository/report02/Report02RepositoryImpl.java:147 | ISNULL(SortOrder, 2147483647). |
| Report02Repository.NumericKey | hnsquare-cms/src/main/java/com/hn2/cms/repository/report02/Report02RepositoryImpl.java:148 | TRY_CONVERT(int, ORG_CODE) is set exactly for a code that converts. |
| Report02Repository.ReportOrderPreorder | hnsquare-cms/src/main/java/com/hn2/cms/repository/report02/Report02RepositoryImpl.java:146-148 | The three-key ORDER BY is total and transitive. |
| Report02Repository.NumericKeyOrdersArePreorders | hnsquare-cms/src/main/java/com/hn2/cms/repository/report02/Report02RepositoryImpl.java:148 | NULL-first and NULL-last numeric orders are preorders. |
| Report02Repository.AsWrittenOrderPreorder | hnsquare-cms/src/main/java/com/hn2/cms/repository/report02/Report02RepositoryImpl.java:146-148 | The order as written is a total preorder. |
| Report02Repository.IntendedOrderPreorder | hnsquare-cms/src/main/java/com/hn2/cms/repository/report02/Report02RepositoryImpl.java:143-148 | The order as commented is a total preorder. |
| Report02Repository.SortOrderFirst | hnsquare-cms/src/main/java/com/hn2/cms/repository/report02/Report02RepositoryImpl.java:147 | A smaller SortOrder comes first. |
| Report02Repository.NullSortOrderLast | hnsquare-cms/src/main/java/com/hn2/cms/repository/report02/Report02RepositoryImpl.java:147 | A NULL SortOrder comes after any below 2147483647. |
| Report02Repository.AsWrittenPutsTextFirst | hnsquare-cms/src/main/java/com/hn2/cms/repository/report02/Report02RepositoryImpl.java:148 | As written, a non-numeric or missing code precedes a numeric one. |
| Report02Repository.IntendedPutsNumbersFirst | hnsquare-cms/src/main/java/com/hn2/cms/repository/report02/Report02RepositoryImpl.java:144 | As intended, numeric codes come first. |
| Report02Repository.NumbersInNumericOrder | hnsquare-cms/src/main/java/com/hn2/cms/repository/report02/Report02RepositoryImpl.java:148 | Numeric codes compare by value ("9" before "10") in both orders. |
| Report02Repository.IntendedListsNumbersFirst | hnsquare-cms/src/main/java/com/hn2/cms/repository/report02/Report02RepositoryImpl.java:144 | In a report sorted as intended, numeric codes are listed before the others of a sort order. |
| Report02Repository.NonNumericCodeListedFirst | hnsquare-cms/src/main/java/com/hn2/cms/repository/report02/Report02RepositoryImpl.java:144-148 | "A01" precedes "5" as written; "5" precedes "A01" as intended. |
| Report02Repository.Aggregates | hnsquare-cms/src/main/java/com/hn2/cms/repository/report02/Report02RepositoryImpl.java:84-148 | It fails exactly when an in-period row's state does not convert. Otherwise it is a permutation of the joined rows, sorted by the given order. |
| Report02Repository.FindAggregatesAsWritten | hnsquare-cms/src/main/java/com/hn2/cms/repository/report02/Report02RepositoryImpl.java:84-148 | The same under the ORDER BY as written. |
| Report02Repository.FindAggregates | hnsquare-cms/src/main/java/com/hn2/cms/repository/report02/Report02RepositoryImpl.java:84-148 | The same under the ORDER BY the comment describes. |
| Report02Repository.OutOfPeriodIgnored | hnsquare-cms/src/main/java/com/hn2/cms/repository/report02/Report02RepositoryImpl.java:92 | A row outside [from, to] changes nothing in the report. |
| Report02Repository.JoinedBranchListed | hnsquare-cms/src/main/java/com/hn2/cms/repository/report02/Report02RepositoryImpl.java:131-140 | A clean branch entry has a row in the report, and the zero row when no group matches. |
| Report02Repository.EveryBranchListed | hnsquare-cms/src/main/java/com/hn2/cms/repository/report02/Report02RepositoryImpl.java:131-140 | Every branch entry's latest entry is listed, with zeros and no org when nothing of it is in the period. |
| Report02Repository.BranchRowOrigin | hnsquare-cms/src/main/java/com/hn2/cms/repository/report02/Report02RepositoryImpl.java:125-140 | A branch's row is its zero row or its join with one matching group. |
| Report02Repository.RowsComeFromLatestEntries | hnsquare-cms/src/main/java/com/hn2/cms/repository/report02/Report02RepositoryImpl.java:100-140 | Every report row comes from a latest branch entry: it is a join with a matching in-period group, or that branch's zero row. |

## Left out

- Database plumbing (JDBC, JPA, row mappers, parameter binding), `@Transactional` and `WITH (NOLOCK)`. Each query is modelled by its WHERE, join and ORDER BY semantics, and a write that throws leaves the table as it was.
- Clocks: `now()` and `LocalDate.now()` are parameters.
- Aca4001Repository.FindCrmRecsByIds: the model gives one view per fetched CrmRec. The LEFT JOINs on Lists (ParentID 26 with Value equal to the branch id, and each ListName/Value pair) repeat a record once per matching Lists row. So the contract holds only when those lookup keys are unique in Lists.
- Aca4001Repository.FindProRecsByIds: the model gives one view per fetched ProRec. The LEFT JOINs on Lists (ParentID 26, ACA_SOURCE, PROJ_DRUG, ACA_INSTAREA) and on InstBrd (InstCardNo = the counselor WorkerID, IsDeleted = 0) repeat a record once per matching row. So the contract holds only when those lookup keys are unique.
- Display-only lookups woven into the queries are left out: the Lists/Users/InstBrd joins of the hydrators, the OUTER APPLY picks, the ROC date formatting (`DateUtil.date2Roc`) and the ProHealth label CASE. The rows keep the columns the model reasons about. The branch-name lookup of the drug-use detail is a function parameter.
- The seal/restore mutation and the audit-row insertion are not part of this model; only the audit read is.
- `compareAca` and the controller layer are not modelled, nor are the `Aca2003Service` interface and its unimplemented `queryAfterCareAutoFallbackByCardNo`.
- `PagePayloadValidator.checkPageExist` is an abstract predicate. The database `countSearch` and `queryList` are not part of this model: the count is a parameter.
- Aca2003Repository.FirstActiveBrd: `TOP 1` without ORDER BY picks the first row in storage order. Other contracts only say that some matching row is taken.
- Ties in ORDER BY keys are broken by a stable insertion sort. Every contract and lemma uses only sortedness and the permutation, so any tie order satisfies them.
- Aca4001Repository.RestoreInputOrder: `List.sort` is modelled as a sort of a `seq` returning a new sequence, not in place on the Java list.
- AcaBrdRepository.FindByAcaIdNo: when several rows share the id number, Spring Data throws. The model returns one of them instead.
- Aca2003Repository.FindDetailById: the native query has no TOP 1. Two IsDeleted = 0 ACABrd rows of the card, or two ParentID 26 Lists entries for the branch, give several rows, and Spring Data throws IncorrectResultSizeDataAccessException. The model joins the first such ACABrd row and takes the branch name as a single-valued function. DrugUseService.QueryById inherits the exception. FindLatestDetailByCardNo has TOP 1 ORDER BY d.ID DESC, so it never throws; it inherits only the first-row choice among the joined rows of the greatest ID.
- AcaBrdRepository.Generate: the LIKE pattern is a predicate parameter. SQL Server LIKE wildcard matching is not modelled.
- Report02Repository.GroupKeys: GROUP BY and PARTITION BY compare codes by exact equality. SQL Server also puts codes that differ only in trailing spaces into one group, and under a case-insensitive collation codes that differ only in case; neither merge is modelled. The string order used by MAX and ORDER BY is code-point order, not a collation.
- Report02Repository.CountState: counts are unbounded. SUM never exceeds the 32-bit range on realistic tables, and its overflow is not modelled.
- Report02Repository.StateFailure: the SIGN_STATE conversion is modelled only on rows in the period. The model treats the WHERE of the `agg` CTE as applied before the SUM's comparison is evaluated.
- Aca1002Service.SignOffService.SignList: a NULL payload or id list throws a NullPointerException in Java. The model takes the id list as given.
- Aca1002Service.FindAllById: a NULL id in the list makes Spring Data throw; the model has no NULL ids. The rows come in first-listed order, which no contract relies on, since SQL Server returns `IN` matches in no promised order.
- SqlText.Upper: only a-z are folded. SQL Server's UPPER on nvarchar also folds other letters (accented Latin, full-width forms); the model's inputs are codes and ids, where these do not occur.
- SqlText.SqlMatch: string `=` is modelled with its trailing-space padding only. A case-insensitive or accent-insensitive collation's equality is not modelled.
- SqlText.GuidOf: the conversion is modelled for the hyphenated 36-character form, braced or not, and longer text that starts with it. Leading spaces and a braced GUID followed by more text are taken as conversion errors, as is every form without hyphens.
- Aca2003Service.DrugUseService.Save: the payload's user id is an `int`. Its Java type is not among the files modelled.

## Findings

| source | as written | input that shows it | evidently intended | confidence | as-written member | corrected member |
|---|---|---|---|---|---|---|
| hnsquare-cms/src/main/java/com/hn2/cms/repository/report02/Report02RepositoryImpl.java:144-148 | `ORDER BY …, TRY_CONVERT(int, oc.ORG_CODE) ASC, oc.ORG_CODE ASC`. SQL Server sorts NULL first in ascending order, so codes that are not numbers (and rows without an org) come before numeric codes. | Two rows of one branch (SortOrder 1) with org codes "A01" and "5": "A01" is listed first. | The comment at line 144 says codes that convert to numbers come first: "5" before "A01". | medium, not executed | Report02Repository.NonNumericCodeListedFirst | Report02Repository.FindAggregates |
| hnsquare-cms/src/main/java/com/hn2/cms/service/aca2003/Aca2003ServiceImpl.java:112-118 | The catch turns a unique-key DataIntegrityViolationException into `fail(MSG_DUP_ACTIVE)`. But the INSERT at :135 fails inside `repo.save`, which marks the `@Transactional` of :85 rollback-only, so the commit throws UnexpectedRollbackException. The UPDATE of :175 is flushed only at commit, after the catch. | A create for a card whose active record another request inserted between `countActive` and `repo.save`: the unique index the catch is written for rejects the INSERT with 2601, and the caller receives UnexpectedRollbackException. | The caller receives MSG_DUP_ACTIVE, as the catch's comment says. | medium, not executed | Aca2003Service.UniqueFaultNotReported | Aca2003Service.IntendedFault |
