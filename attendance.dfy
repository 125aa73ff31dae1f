/**
 * The attendance tracker: the list of attendance entries that the add form, the
 * edit dialog and the delete buttons change, the search/status/date filter over
 * it, the ten-per-page paging of the filtered list and the day's status counts.
 */
module Attendance {
  import opened Wrappers
  import opened JsString
  import opened JsArray
  import opened Storage

  const RecordsPerPage: nat := 10

  /** One stored entry; `updatedAt` is absent until the entry is first edited. */
  datatype AttendanceRecord = AttendanceRecord(
    id: int,
    studentName: string,
    studentId: string,
    date: string,
    status: string,
    remarks: string,
    createdAt: string,
    updatedAt: Option<string>)

  /** The fields of the add form or of the edit dialog, as typed. */
  datatype Form = Form(studentName: string, studentId: string, date: string, status: string, remarks: string)

  /** The search box, the status select and the date picker ("" means "any"). */
  datatype Criteria = Criteria(search: string, status: string, date: string)

  // ---------------------------------------------------------------------------
  // Normalisation of form input
  // ---------------------------------------------------------------------------

  /** How a stored entry looks after normalisation: names and remarks trimmed, ids trimmed and upper-case. */
  predicate IsNormalized(r: AttendanceRecord) {
    IsTrimmed(r.studentName) && IsTrimmed(r.remarks) && IsTrimmed(r.studentId) && Upper(r.studentId) == r.studentId
  }

  /** The entry the add handler builds from the form, with the clock's id and timestamp. */
  function NewRecord(id: int, form: Form, createdAt: string): (r: AttendanceRecord)
    ensures r.id == id && r.createdAt == createdAt && r.updatedAt == None
    ensures r.date == form.date && r.status == form.status
    ensures r.studentName == Trim(form.studentName) && r.remarks == Trim(form.remarks)
    ensures r.studentId == Upper(Trim(form.studentId))
    ensures IsNormalized(r)
  {
    var studentId := Trim(form.studentId);
    UpperKeepsTrimmed(studentId);
    UpperIdempotent(studentId);
    AttendanceRecord(id, Trim(form.studentName), Upper(studentId), form.date, form.status,
                     Trim(form.remarks), createdAt, None)
  }

  /** The entry the edit handler writes back: the form's fields over the old entry, same id and creation time. */
  function EditedRecord(old_: AttendanceRecord, form: Form, updatedAt: string): (r: AttendanceRecord)
    ensures r.id == old_.id && r.createdAt == old_.createdAt && r.updatedAt == Some(updatedAt)
    ensures r.date == form.date && r.status == form.status
    ensures r.studentName == Trim(form.studentName) && r.remarks == Trim(form.remarks)
    ensures r.studentId == Upper(Trim(form.studentId))
    ensures IsNormalized(r)
  {
    NewRecord(old_.id, form, old_.createdAt).(updatedAt := Some(updatedAt))
  }

  /** What the edit dialog shows for an entry. */
  function FormOf(r: AttendanceRecord): Form {
    Form(r.studentName, r.studentId, r.date, r.status, r.remarks)
  }

  /** Saving the edit dialog unchanged only stamps `updatedAt`: normalisation is idempotent. */
  lemma ResubmitUnchanged(r: AttendanceRecord, updatedAt: string)
    requires IsNormalized(r)
    ensures EditedRecord(r, FormOf(r), updatedAt) == r.(updatedAt := Some(updatedAt))
  {
    TrimOfTrimmed(r.studentName);
    TrimOfTrimmed(r.studentId);
    TrimOfTrimmed(r.remarks);
  }

  // ---------------------------------------------------------------------------
  // Validation
  // ---------------------------------------------------------------------------

  datatype ValidationError = NameTooShort | IdTooShort | DuplicateEntry

  /** `r` is another entry for the same student on the same day. */
  predicate SameEntry(r: AttendanceRecord, rec: AttendanceRecord) {
    r.studentId == rec.studentId && r.date == rec.date && r.id != rec.id
  }

  /** The messages `validateRecord` raises; all three checks run, none short-circuits. */
  function ValidationErrors(records: seq<AttendanceRecord>, rec: AttendanceRecord): (errors: seq<ValidationError>)
    ensures NameTooShort in errors <==> |rec.studentName| < 2
    ensures IdTooShort in errors <==> |rec.studentId| < 3
    ensures DuplicateEntry in errors <==> exists i :: 0 <= i < |records| && SameEntry(records[i], rec)
  {
    var duplicate := FindIndex(records, (r: AttendanceRecord) => SameEntry(r, rec));
    (if |rec.studentName| < 2 then [NameTooShort] else [])
    + (if |rec.studentId| < 3 then [IdTooShort] else [])
    + (if duplicate != -1 then [DuplicateEntry] else [])
  }

  /** `validateRecord`: accepted exactly when the name and id are long enough and no other entry has the pair. */
  predicate ValidateRecord(records: seq<AttendanceRecord>, rec: AttendanceRecord)
    ensures ValidateRecord(records, rec) <==>
      && |rec.studentName| >= 2
      && |rec.studentId| >= 3
      && forall i :: 0 <= i < |records| ==> !SameEntry(records[i], rec)
  {
    ValidationErrors(records, rec) == []
  }

  // ---------------------------------------------------------------------------
  // Invariants of the list
  // ---------------------------------------------------------------------------

  ghost predicate UniqueIds(records: seq<AttendanceRecord>) {
    forall i, j :: 0 <= i < j < |records| ==> records[i].id != records[j].id
  }

  /** At most one entry per student and day. */
  ghost predicate UniqueEntries(records: seq<AttendanceRecord>) {
    forall i, j :: 0 <= i < j < |records| ==>
      !(records[i].studentId == records[j].studentId && records[i].date == records[j].date)
  }

  predicate IdIsFresh(records: seq<AttendanceRecord>, id: int) {
    forall i :: 0 <= i < |records| ==> records[i].id != id
  }

  /** An accepted add with a fresh id keeps both invariants. */
  lemma AddKeepsInvariants(records: seq<AttendanceRecord>, rec: AttendanceRecord)
    requires UniqueIds(records) && UniqueEntries(records)
    requires IdIsFresh(records, rec.id) && ValidateRecord(records, rec)
    ensures UniqueIds([rec] + records) && UniqueEntries([rec] + records)
  {
    var s := [rec] + records;
    forall i, j | 0 <= i < j < |s|
      ensures s[i].id != s[j].id
      ensures !(s[i].studentId == s[j].studentId && s[i].date == s[j].date)
    {
      assert s[j] == records[j - 1];
      if i > 0 {
        assert s[i] == records[i - 1];
      } else {
        assert !SameEntry(records[j - 1], rec);
      }
    }
  }

  // ---------------------------------------------------------------------------
  // Edit and delete on the list
  // ---------------------------------------------------------------------------

  /** `attendanceRecords.findIndex(r => r.id === id)` */
  function IndexOfId(records: seq<AttendanceRecord>, id: int): (i: int)
    ensures -1 <= i < |records|
    ensures i == -1 <==> IdIsFresh(records, id)
    ensures i >= 0 ==> records[i].id == id && IdIsFresh(records[..i], id)
  {
    FindIndex(records, (r: AttendanceRecord) => r.id == id)
  }

  /** The list after `handleEditRecord`: the first entry with the id is rewritten, nothing else moves. */
  function EditRecords(records: seq<AttendanceRecord>, id: int, form: Form, updatedAt: string): (r: seq<AttendanceRecord>)
    ensures |r| == |records|
    ensures IdIsFresh(records, id) ==> r == records
    ensures forall j :: 0 <= j < |records| && j != IndexOfId(records, id) ==> r[j] == records[j]
    ensures forall j :: 0 <= j < |records| ==> r[j].id == records[j].id && r[j].createdAt == records[j].createdAt
    ensures IndexOfId(records, id) >= 0 ==>
              r[IndexOfId(records, id)] == EditedRecord(records[IndexOfId(records, id)], form, updatedAt)
  {
    var i := IndexOfId(records, id);
    if i == -1 then records else records[i := EditedRecord(records[i], form, updatedAt)]
  }

  /** Ids do not change on edit, so an edit keeps them unique. */
  lemma EditKeepsUniqueIds(records: seq<AttendanceRecord>, id: int, form: Form, updatedAt: string)
    requires UniqueIds(records)
    ensures UniqueIds(EditRecords(records, id, form, updatedAt))
  {
  }

  /**
   * `handleEditRecord` never calls `validateRecord`: saving the edit dialog can give
   * a student two entries on one day. Here the second entry is moved onto the first
   * one's student.
   */
  lemma EditCanDuplicateEntry()
    ensures var before := [
              AttendanceRecord(1, "Ann", "S001", "2024-01-01", "Present", "", "t0", None),
              AttendanceRecord(2, "Bob", "S002", "2024-01-01", "Absent", "", "t0", None)];
            && UniqueIds(before) && UniqueEntries(before)
            && !UniqueEntries(EditRecords(before, 2, Form("Bob", "S001", "2024-01-01", "Absent", ""), "t1"))
  {
    assert IsTrimmed("S001");
    TrimOfTrimmed("S001");
    assert Upper("S001") == "S001";
  }

  /**
   * The edit the source evidently intends: the edited entry goes through the same
   * checks as an added one, `validateRecord`'s `r.id !== record.id` clause keeping it
   * from clashing with itself. A rejected edit leaves the list as it was.
   */
  function CheckedEditRecords(records: seq<AttendanceRecord>, id: int, form: Form, updatedAt: string): (r: seq<AttendanceRecord>)
    ensures |r| == |records|
    ensures r == records || r == EditRecords(records, id, form, updatedAt)
    ensures IndexOfId(records, id) >= 0 ==>
              var edited := EditedRecord(records[IndexOfId(records, id)], form, updatedAt);
              r == if ValidateRecord(records, edited) then EditRecords(records, id, form, updatedAt) else records
    ensures UniqueIds(records) && UniqueEntries(records) ==> UniqueEntries(r)
  {
    var i := IndexOfId(records, id);
    if i == -1 then records
    else
      var edited := EditedRecord(records[i], form, updatedAt);
      if !ValidateRecord(records, edited) then records
      else
        CheckedEditKeepsEntries(records, i, edited);
        records[i := edited]
  }

  lemma CheckedEditKeepsEntries(records: seq<AttendanceRecord>, i: nat, edited: AttendanceRecord)
    requires i < |records| && edited.id == records[i].id
    requires ValidateRecord(records, edited)
    ensures UniqueIds(records) && UniqueEntries(records) ==> UniqueEntries(records[i := edited])
  {
    if UniqueIds(records) && UniqueEntries(records) {
      var s := records[i := edited];
      forall a, b | 0 <= a < b < |s|
        ensures !(s[a].studentId == s[b].studentId && s[a].date == s[b].date)
      {
        if a == i {
          assert !SameEntry(records[b], edited);
        } else if b == i {
          assert !SameEntry(records[a], edited);
        }
      }
    }
  }

  /** `attendanceRecords.filter(r => r.id !== id)` */
  function RemoveId(records: seq<AttendanceRecord>, id: int): (r: seq<AttendanceRecord>)
    ensures IdIsFresh(r, id)
    ensures IsSubsequence(r, records)
    ensures forall x :: multiset(r)[x] == if x.id != id then multiset(records)[x] else 0
    ensures IdIsFresh(records, id) ==> r == records
  {
    var other := (x: AttendanceRecord) => x.id != id;
    FilterSpec(records, other);
    if IdIsFresh(records, id) then FilterKeepsAll(records, other); Filter(records, other)
    else Filter(records, other)
  }

  /** Deleting keeps both invariants. */
  lemma DeleteKeepsInvariants(records: seq<AttendanceRecord>, id: int)
    requires UniqueIds(records) && UniqueEntries(records)
    ensures UniqueIds(RemoveId(records, id)) && UniqueEntries(RemoveId(records, id))
  {
    var other := (x: AttendanceRecord) => x.id != id;
    FilterKeepsPairwise(records, other, (a: AttendanceRecord, b: AttendanceRecord) => a.id != b.id);
    FilterKeepsPairwise(records, other,
      (a: AttendanceRecord, b: AttendanceRecord) => !(a.studentId == b.studentId && a.date == b.date));
  }

  // ---------------------------------------------------------------------------
  // Search and filters
  // ---------------------------------------------------------------------------

  /** The test inside `applyFilters`: search term, status and date, all three required. */
  predicate KeepRecord(r: AttendanceRecord, c: Criteria) {
    var term := Lower(c.search);
    && (term == "" || Includes(Lower(r.studentName), term) || Includes(Lower(r.studentId), term))
    && (c.status == "" || r.status == c.status)
    && (c.date == "" || r.date == c.date)
  }

  /** `KeepRecord` with the criteria fixed, as the callback `filter` takes. */
  function Keeper(c: Criteria): AttendanceRecord -> bool {
    (x: AttendanceRecord) => KeepRecord(x, c)
  }

  /** `filteredRecords`: the entries passing all three filters, in list order. */
  function FilterRecords(records: seq<AttendanceRecord>, c: Criteria): (r: seq<AttendanceRecord>)
    ensures IsSubsequence(r, records)
    ensures forall x :: multiset(r)[x] == if KeepRecord(x, c) then multiset(records)[x] else 0
  {
    FilterSpec(records, Keeper(c));
    Filter(records, Keeper(c))
  }

  /** With every control empty (`clearAllFilters`) the whole list is shown. */
  lemma ClearedFiltersShowAll(records: seq<AttendanceRecord>)
    ensures FilterRecords(records, Criteria("", "", "")) == records
  {
    FilterKeepsAll(records, Keeper(Criteria("", "", "")));
  }

  /** The search box ignores case: typing the term in capitals finds the same entries. */
  lemma SearchIgnoresCase(records: seq<AttendanceRecord>, c: Criteria)
    ensures FilterRecords(records, c) == FilterRecords(records, c.(search := Upper(c.search)))
  {
    var c' := c.(search := Upper(c.search));
    LowerOfUpper(c.search);
    assert forall x :: KeepRecord(x, c) == KeepRecord(x, c');
    FilterAgree(records, Keeper(c), Keeper(c'));
  }

  // ---------------------------------------------------------------------------
  // Paging
  // ---------------------------------------------------------------------------

  /** `Math.ceil(n / recordsPerPage)` */
  function TotalPages(n: nat): (t: nat)
    ensures n <= t * RecordsPerPage
    ensures t > 0 ==> (t - 1) * RecordsPerPage < n
    ensures t == 0 <==> n == 0
  {
    (n + RecordsPerPage - 1) / RecordsPerPage
  }

  /** The entries `renderRecords` shows on `page`. */
  function PageOf(filtered: seq<AttendanceRecord>, page: int): (r: seq<AttendanceRecord>)
    ensures |r| <= RecordsPerPage
    ensures page >= 1 ==> r == filtered[SliceBound((page - 1) * RecordsPerPage, |filtered|)..SliceBound(page * RecordsPerPage, |filtered|)]
  {
    var start := (page - 1) * RecordsPerPage;
    Slice(filtered, start, start + RecordsPerPage)
  }

  /** Every filtered entry is shown on exactly the page its position gives, at the matching row. */
  lemma PageHoldsEntry(filtered: seq<AttendanceRecord>, i: nat)
    requires i < |filtered|
    ensures 1 <= i / RecordsPerPage + 1 <= TotalPages(|filtered|)
    ensures i % RecordsPerPage < |PageOf(filtered, i / RecordsPerPage + 1)|
    ensures PageOf(filtered, i / RecordsPerPage + 1)[i % RecordsPerPage] == filtered[i]
  {
    var p := i / RecordsPerPage + 1;
    var start := (p - 1) * RecordsPerPage;
    assert start == i - i % RecordsPerPage;
    assert start <= i < start + RecordsPerPage;
  }

  /** Every page before the last is full; the last holds the rest; later pages are empty. */
  lemma PageSizes(filtered: seq<AttendanceRecord>, page: int)
    requires page >= 1
    ensures page < TotalPages(|filtered|) ==> |PageOf(filtered, page)| == RecordsPerPage
    ensures page == TotalPages(|filtered|) ==> |PageOf(filtered, page)| == |filtered| - (page - 1) * RecordsPerPage
    ensures page > TotalPages(|filtered|) ==> PageOf(filtered, page) == []
  {
    var t := TotalPages(|filtered|);
    if page < t {
      assert page * RecordsPerPage <= (t - 1) * RecordsPerPage;
    } else if page > t {
      assert (page - 1) * RecordsPerPage >= t * RecordsPerPage;
    }
  }

  /** `changePage`: step by `direction`, then clamp to the first and the last page. */
  function ClampPage(current: int, direction: int, n: nat): (p: int)
    ensures n > 0 ==> 1 <= p <= TotalPages(n)
    ensures n > 0 && 1 <= current + direction <= TotalPages(n) ==> p == current + direction
    ensures n > 0 && current + direction < 1 ==> p == 1
    ensures current + direction > TotalPages(n) ==> p == TotalPages(n)
    ensures n == 0 ==> p == 0
  {
    var stepped := current + direction;
    var atLeastOne := if stepped < 1 then 1 else stepped;
    if atLeastOne > TotalPages(n) then TotalPages(n) else atLeastOne
  }

  // ---------------------------------------------------------------------------
  // Statistics
  // ---------------------------------------------------------------------------

  /** The numbers `updateStats` writes: the list's size, and today's entries by status. */
  datatype Stats = Stats(total: nat, totalToday: nat, present: nat, absent: nat, late: nat)

  predicate MarkedOn(r: AttendanceRecord, day: string, status: string) {
    r.date == day && r.status == status
  }

  function TodayStats(records: seq<AttendanceRecord>, today: string): (st: Stats)
    ensures st.total == |records|
    ensures st.totalToday == Count(records, (r: AttendanceRecord) => r.date == today)
    ensures st.present == Count(records, (r: AttendanceRecord) => MarkedOn(r, today, "Present"))
    ensures st.absent == Count(records, (r: AttendanceRecord) => MarkedOn(r, today, "Absent"))
    ensures st.late == Count(records, (r: AttendanceRecord) => MarkedOn(r, today, "Late"))
    ensures st.present + st.absent + st.late <= st.totalToday <= st.total
  {
    var isToday := (r: AttendanceRecord) => r.date == today;
    var present := (r: AttendanceRecord) => r.status == "Present";
    var absent := (r: AttendanceRecord) => r.status == "Absent";
    var late := (r: AttendanceRecord) => r.status == "Late";
    var todays := Filter(records, isToday);
    FilterTwice(records, isToday, present, (r: AttendanceRecord) => MarkedOn(r, today, "Present"));
    FilterTwice(records, isToday, absent, (r: AttendanceRecord) => MarkedOn(r, today, "Absent"));
    FilterTwice(records, isToday, late, (r: AttendanceRecord) => MarkedOn(r, today, "Late"));
    CountsOfExclusive(todays, present, absent, late);
    Stats(|records|, |todays|, Count(todays, present), Count(todays, absent), Count(todays, late))
  }

  // ---------------------------------------------------------------------------
  // The page's state and its handlers
  // ---------------------------------------------------------------------------

  /**
   * The module-level state of the attendance page: the list, the filtered view of it,
   * the filter values last applied, the current page, and the localStorage snapshot.
   */
  class AttendanceApp {
    var records: seq<AttendanceRecord>
    var filtered: seq<AttendanceRecord>
    var criteria: Criteria
    var currentPage: int
    ghost var stored: Option<seq<AttendanceRecord>>

    ghost predicate Valid()
      reads this
    {
      && Mirrors(stored, records)
      && filtered == FilterRecords(records, criteria)
      && (|filtered| > 0 ==> 1 <= currentPage <= TotalPages(|filtered|))
    }

    /** Page load: read the saved list, then the first `applyFilters` with the controls' values. */
    constructor (saved: Option<seq<AttendanceRecord>>, view: Criteria)
      ensures Valid()
      ensures stored == saved && records == Load(saved)
      ensures criteria == view && filtered == FilterRecords(records, view) && currentPage == 1
    {
      records := Load(saved);
      stored := saved;
      criteria := view;
      filtered := FilterRecords(Load(saved), view);
      currentPage := 1;
    }

    /** `applyFilters`: recompute the filtered view from the controls and go back to page 1. */
    method ApplyFilters(view: Criteria)
      requires Mirrors(stored, records)
      modifies this
      ensures Valid()
      ensures records == old(records) && stored == old(stored)
      ensures criteria == view && filtered == FilterRecords(records, view) && currentPage == 1
    {
      criteria := view;
      filtered := FilterRecords(records, view);
      currentPage := 1;
    }

    /** `clearAllFilters`: empty the three controls, which shows every entry. */
    method ClearAllFilters()
      requires Valid()
      modifies this
      ensures Valid()
      ensures records == old(records) && stored == old(stored)
      ensures criteria == Criteria("", "", "") && filtered == records && currentPage == 1
    {
      ApplyFilters(Criteria("", "", ""));
      ClearedFiltersShowAll(records);
    }

    /**
     * `handleAddRecord`: build the normalised entry; if validation fails nothing
     * changes, otherwise it goes in front, the list is saved and the view refreshed.
     */
    method HandleAddRecord(form: Form, id: int, createdAt: string, view: Criteria) returns (added: bool)
      requires Valid()
      modifies this
      ensures Valid()
      ensures added == ValidateRecord(old(records), NewRecord(id, form, createdAt))
      ensures !added ==> unchanged(this)
      ensures added ==> records == [NewRecord(id, form, createdAt)] + old(records) && stored == Some(records)
      ensures added ==> criteria == view && filtered == FilterRecords(records, view) && currentPage == 1
      ensures added && UniqueIds(old(records)) && UniqueEntries(old(records)) && IdIsFresh(old(records), id) ==>
                UniqueIds(records) && UniqueEntries(records)
    {
      var rec := NewRecord(id, form, createdAt);
      if !ValidateRecord(records, rec) {
        return false;
      }
      ghost var before := records;
      records := [rec] + records;
      stored := Some(records);
      ApplyFilters(view);
      added := true;
      if UniqueIds(before) && UniqueEntries(before) && IdIsFresh(before, id) {
        AddKeepsInvariants(before, rec);
      }
    }

    /**
     * `handleEditRecord`: an absent id changes nothing; otherwise the entry is
     * rewritten in place, the list is saved and the view refreshed.
     */
    method HandleEditRecord(id: int, form: Form, updatedAt: string, view: Criteria) returns (found: bool)
      requires Valid()
      modifies this
      ensures Valid()
      ensures found == !IdIsFresh(old(records), id)
      ensures !found ==> unchanged(this)
      ensures found ==> records == EditRecords(old(records), id, form, updatedAt) && stored == Some(records)
      ensures found ==> criteria == view && filtered == FilterRecords(records, view) && currentPage == 1
      ensures UniqueIds(old(records)) ==> UniqueIds(records)
    {
      var index := IndexOfId(records, id);
      if index == -1 {
        return false;
      }
      if UniqueIds(records) {
        EditKeepsUniqueIds(records, id, form, updatedAt);
      }
      records := records[index := EditedRecord(records[index], form, updatedAt)];
      stored := Some(records);
      ApplyFilters(view);
      found := true;
    }

    /** `deleteRecord`: once confirmed, every entry with the id goes, the list is saved and the view refreshed. */
    method DeleteRecord(id: int, confirmed: bool, view: Criteria)
      requires Valid()
      modifies this
      ensures Valid()
      ensures !confirmed ==> unchanged(this)
      ensures confirmed ==> records == RemoveId(old(records), id) && stored == Some(records)
      ensures confirmed ==> criteria == view && filtered == FilterRecords(records, view) && currentPage == 1
      ensures UniqueIds(old(records)) && UniqueEntries(old(records)) ==> UniqueIds(records) && UniqueEntries(records)
    {
      if !confirmed {
        return;
      }
      if UniqueIds(records) && UniqueEntries(records) {
        DeleteKeepsInvariants(records, id);
      }
      records := RemoveId(records, id);
      stored := Some(records);
      ApplyFilters(view);
    }

    /** `changePage`: move by `direction` and stay within the pages of the filtered list. */
    method ChangePage(direction: int)
      requires Valid()
      modifies this
      ensures Valid()
      ensures records == old(records) && stored == old(stored) && filtered == old(filtered) && criteria == old(criteria)
      ensures currentPage == ClampPage(old(currentPage), direction, |filtered|)
    {
      currentPage := ClampPage(currentPage, direction, |filtered|);
    }
  }
}
