/** The spreadsheet exports: which rows and statistics each export sheet holds, and how a
    record's fields are written into cells. The Excel styling is not modelled. */
module Export {
  import opened Common
  import opened Models

  // ---------------------------------------------------------------------
  // Access
  // ---------------------------------------------------------------------

  const AuthenticationRequired: Error := Unauthorized("Authentication required")

  /** `require_admin` (and `require_authenticated_user`, which has the same body): only a
      missing user is refused. A user row is always truthy, so no admin flag is consulted. */
  function RequireAdmin(current: Option<User>): (r: Result<User>)
    ensures r.Ok? <==> current.Some?
    ensures r.Ok? ==> r.value == current.value
    ensures r.Err? ==> r.error == AuthenticationRequired
  {
    match current
    case None => Err(AuthenticationRequired)
    case Some(u) => Ok(u)
  }

  // ---------------------------------------------------------------------
  // Cells, records and sheets
  // ---------------------------------------------------------------------

  /** A value written to a sheet cell. */
  datatype Cell = Num(n: int) | Str(text: string)

  const NotAvailable: Cell := Str("N/A")

  /** `value if value else "N/A"` for an optional text column. */
  function TextOrNA(v: Option<string>): Cell {
    if v.Some? && v.value != "" then Str(v.value) else NotAvailable
  }

  /** `value if value else "N/A"` for an optional integer column. */
  function IntOrNA(v: Option<int>): Cell {
    if v.Some? && v.value != 0 then Num(v.value) else NotAvailable
  }

  function YesNo(b: bool): Cell { if b then Str("Yes") else Str("No") }

  function ActiveInactive(b: bool): Cell { if b then Str("Active") else Str("Inactive") }

  /** Falsy values print as "N/A": a missing value, the empty string and zero alike. Truthy values
      are written unchanged. */
  lemma FalsyFieldsPrintNA(t: string, n: int)
    ensures TextOrNA(None) == NotAvailable && TextOrNA(Some("")) == NotAvailable
    ensures IntOrNA(None) == NotAvailable && IntOrNA(Some(0)) == NotAvailable
    ensures t != "" ==> TextOrNA(Some(t)) == Str(t)
    ensures n != 0 ==> IntOrNA(Some(n)) == Num(n)
  {
  }

  /** Flags print as "Yes"/"No" and account status as "Active"/"Inactive"; each is one-to-one. */
  lemma FlagsPrintAsWords(a: bool, b: bool)
    ensures YesNo(a) == Str("Yes") <==> a
    ensures YesNo(a) == YesNo(b) <==> a == b
    ensures ActiveInactive(a) == Str("Active") <==> a
    ensures ActiveInactive(a) == ActiveInactive(b) <==> a == b
  {
  }

  /** One row as a dict: column names and cells in insertion order. */
  type Record = seq<(string, Cell)>

  function Keys(r: Record): seq<string> {
    seq(|r|, i requires 0 <= i < |r| => r[i].0)
  }

  function Values(r: Record): seq<Cell> {
    seq(|r|, i requires 0 <= i < |r| => r[i].1)
  }

  /** A written sheet: the header row and the data rows. */
  datatype Sheet = Sheet(header: seq<string>, rows: seq<seq<Cell>>)

  /** `pd.DataFrame(records)`, or `pd.DataFrame(columns=empty)` when there are no records. All the
      records an export builds share one key list, which becomes the header. */
  function Frame(records: seq<Record>, empty: seq<string>): (r: Sheet)
    ensures |r.rows| == |records|
    ensures forall i :: 0 <= i < |records| ==> r.rows[i] == Values(records[i])
  {
    if records == [] then Sheet(empty, [])
    else Sheet(Keys(records[0]), seq(|records|, i requires 0 <= i < |records| => Values(records[i])))
  }

  /** `created_at.strftime(...)`: the formatting of a timestamp is opaque here. */
  datatype Formats = Formats(stamp: nat -> string, day: nat -> string)

  // ---------------------------------------------------------------------
  // Admin exports
  // ---------------------------------------------------------------------

  const AdminBookColumns: seq<string> :=
    ["Book ID", "Title", "Author", "ISBN", "Published Year", "Description", "Owner ID", "Created At"]

  function AdminBookRecord(b: Book, f: Formats): Record {
    [("Book ID", Num(b.id)), ("Title", Str(b.title)), ("Author", Str(b.author)),
     ("ISBN", TextOrNA(b.isbn)), ("Published Year", IntOrNA(b.publishedYear)),
     ("Description", TextOrNA(b.description)), ("Owner ID", IntOrNA(b.userId)),
     ("Created At", Str(f.stamp(b.createdAt)))]
  }

  function AdminBooksSheet(s: Store, f: Formats): Sheet {
    Frame(seq(|s.books|, i requires 0 <= i < |s.books| => AdminBookRecord(s.books[i], f)), AdminBookColumns)
  }

  const AdminLibraryColumns: seq<string> :=
    ["Library ID", "Name", "Location", "Description", "Owner ID", "Created At"]

  function AdminLibraryRecord(l: Library, f: Formats): Record {
    [("Library ID", Num(l.id)), ("Name", Str(l.name)), ("Location", TextOrNA(l.location)),
     ("Description", TextOrNA(l.description)), ("Owner ID", IntOrNA(l.userId)),
     ("Created At", Str(f.stamp(l.createdAt)))]
  }

  function AdminLibrariesSheet(s: Store, f: Formats): Sheet {
    Frame(seq(|s.libraries|, i requires 0 <= i < |s.libraries| => AdminLibraryRecord(s.libraries[i], f)),
          AdminLibraryColumns)
  }

  const AdminUserColumns: seq<string> :=
    ["User ID", "Username", "Email", "Full Name", "Is Active", "Is Verified", "Created At"]

  function AdminUserRecord(u: User, f: Formats): Record {
    [("User ID", Num(u.id)), ("Username", Str(u.username)), ("Email", TextOrNA(Some(u.email))),
     ("Full Name", TextOrNA(u.fullName)), ("Is Active", YesNo(u.isActive)),
     ("Is Verified", YesNo(u.isVerified)), ("Created At", Str(f.stamp(u.createdAt)))]
  }

  function AdminUsersSheet(s: Store, f: Formats): Sheet {
    Frame(seq(|s.users|, i requires 0 <= i < |s.users| => AdminUserRecord(s.users[i], f)), AdminUserColumns)
  }

  /** Each admin export has one row per stored record, in table order, under the same header
      whether or not the table is empty. */
  lemma AdminSheetsShape(s: Store, f: Formats)
    ensures var sheet := AdminBooksSheet(s, f);
      sheet.header == AdminBookColumns && |sheet.rows| == |s.books| &&
      forall i :: 0 <= i < |s.books| ==> sheet.rows[i][0] == Num(s.books[i].id) && sheet.rows[i][3] == TextOrNA(s.books[i].isbn)
    ensures var sheet := AdminLibrariesSheet(s, f);
      sheet.header == AdminLibraryColumns && |sheet.rows| == |s.libraries| &&
      forall i :: 0 <= i < |s.libraries| ==> sheet.rows[i][0] == Num(s.libraries[i].id)
    ensures var sheet := AdminUsersSheet(s, f);
      sheet.header == AdminUserColumns && |sheet.rows| == |s.users| &&
      forall i :: 0 <= i < |s.users| ==> sheet.rows[i][0] == Num(s.users[i].id) && sheet.rows[i][4] == YesNo(s.users[i].isActive)
  {
    if s.books != [] {
      assert Keys(AdminBookRecord(s.books[0], f)) == AdminBookColumns;
    }
    if s.libraries != [] {
      assert Keys(AdminLibraryRecord(s.libraries[0], f)) == AdminLibraryColumns;
    }
    if s.users != [] {
      assert Keys(AdminUserRecord(s.users[0], f)) == AdminUserColumns;
    }
  }

  // ---------------------------------------------------------------------
  // The complete report
  // ---------------------------------------------------------------------

  const IsActiveUser: User -> bool := (u: User) => u.isActive
  const IsVerifiedUser: User -> bool := (u: User) => u.isVerified

  function Metric(name: string, value: int): Record {
    [("Metric", Str(name)), ("Value", Num(value))]
  }

  /** A metric record is written as the row [name, value]. */
  lemma MetricValues(name: string, value: int)
    ensures Values(Metric(name, value)) == [Str(name), Num(value)]
  {
  }

  /** The "Statistics" sheet of the complete report. */
  function ReportStatistics(s: Store): Sheet {
    Frame([Metric("Total Books", |s.books|), Metric("Total Libraries", |s.libraries|),
           Metric("Total Users", |s.users|), Metric("Active Users", Count(s.users, IsActiveUser)),
           Metric("Verified Users", Count(s.users, IsVerifiedUser))], ["Metric", "Value"])
  }

  function ReportBookRecord(b: Book): Record {
    [("ID", Num(b.id)), ("Title", Str(b.title)), ("Author", Str(b.author)), ("ISBN", TextOrNA(b.isbn)),
     ("Published Year", IntOrNA(b.publishedYear)), ("Owner ID", IntOrNA(b.userId))]
  }

  function ReportLibraryRecord(l: Library): Record {
    [("ID", Num(l.id)), ("Name", Str(l.name)), ("Location", TextOrNA(l.location)),
     ("Description", TextOrNA(l.description)), ("Owner ID", IntOrNA(l.userId))]
  }

  function ReportUserRecord(u: User): Record {
    [("ID", Num(u.id)), ("Username", Str(u.username)), ("Email", TextOrNA(Some(u.email))),
     ("Full Name", TextOrNA(u.fullName)), ("Active", YesNo(u.isActive)), ("Verified", YesNo(u.isVerified))]
  }

  /** The complete report: four sheets in this order. */
  function CompleteReport(s: Store): seq<(string, Sheet)> {
    [("Statistics", ReportStatistics(s)),
     ("Books", Frame(seq(|s.books|, i requires 0 <= i < |s.books| => ReportBookRecord(s.books[i])),
                     ["ID", "Title", "Author", "ISBN", "Published Year", "Owner ID"])),
     ("Libraries", Frame(seq(|s.libraries|, i requires 0 <= i < |s.libraries| => ReportLibraryRecord(s.libraries[i])),
                         ["ID", "Name", "Location", "Description", "Owner ID"])),
     ("Users", Frame(seq(|s.users|, i requires 0 <= i < |s.users| => ReportUserRecord(s.users[i])),
                     ["ID", "Username", "Email", "Full Name", "Active", "Verified"]))]
  }

  /** The totals are the table sizes; "Active Users" and "Verified Users" are the numbers of
      distinct users with that flag set, never more than "Total Users". */
  lemma ReportStatisticsCount(s: Store)
    requires Valid(s)
    ensures var rows := CompleteReport(s)[0].1.rows;
      |rows| == 5 &&
      rows[0] == [Str("Total Books"), Num(|s.books|)] &&
      rows[1] == [Str("Total Libraries"), Num(|s.libraries|)] &&
      rows[2] == [Str("Total Users"), Num(|s.users|)] &&
      rows[3] == [Str("Active Users"), Num(|UserIdsWhere(s.users, IsActiveUser)|)] &&
      rows[4] == [Str("Verified Users"), Num(|UserIdsWhere(s.users, IsVerifiedUser)|)] &&
      Count(s.users, IsActiveUser) <= |s.users| && Count(s.users, IsVerifiedUser) <= |s.users|
  {
    CountDistinctUsers(s.users, IsActiveUser);
    CountDistinctUsers(s.users, IsVerifiedUser);
    assert CompleteReport(s)[0].1 == ReportStatistics(s);
    MetricValues("Total Books", |s.books|);
    MetricValues("Total Libraries", |s.libraries|);
    MetricValues("Total Users", |s.users|);
    MetricValues("Active Users", Count(s.users, IsActiveUser));
    MetricValues("Verified Users", Count(s.users, IsVerifiedUser));
  }

  /** Active and inactive users together are all users. */
  lemma ActiveAndInactiveAreAll(s: Store)
    ensures Count(s.users, IsActiveUser) + Count(s.users, (u: User) => !u.isActive) == |s.users|
  {
    CountComplement(s.users, IsActiveUser, (u: User) => !u.isActive);
  }

  // ---------------------------------------------------------------------
  // Personal exports
  // ---------------------------------------------------------------------

  function MyBookRecord(b: Book, f: Formats): Record {
    [("Book ID", Num(b.id)), ("Title", Str(b.title)), ("Author", Str(b.author)), ("ISBN", TextOrNA(b.isbn)),
     ("Published Year", IntOrNA(b.publishedYear)), ("Description", TextOrNA(b.description)),
     ("Created At", Str(f.stamp(b.createdAt)))]
  }

  /** The "My Books" export of the current user. */
  function MyBooksSheet(s: Store, me: User, f: Formats): Sheet {
    var mine := BooksOwnedBy(s.books, me.id);
    Frame(seq(|mine|, i requires 0 <= i < |mine| => MyBookRecord(mine[i], f)),
          ["Book ID", "Title", "Author", "ISBN", "Published Year", "Description", "Created At"])
  }

  function MyLibraryRecord(l: Library, f: Formats): Record {
    [("Library ID", Num(l.id)), ("Name", Str(l.name)), ("Location", TextOrNA(l.location)),
     ("Description", TextOrNA(l.description)), ("Created At", Str(f.stamp(l.createdAt)))]
  }

  /** The "My Libraries" export of the current user. */
  function MyLibrariesSheet(s: Store, me: User, f: Formats): Sheet {
    var mine := LibrariesOwnedBy(s.libraries, me.id);
    Frame(seq(|mine|, i requires 0 <= i < |mine| => MyLibraryRecord(mine[i], f)),
          ["Library ID", "Name", "Location", "Description", "Created At"])
  }

  /** Rows whose first cells are the ids of a selection, in order, show the ids of exactly the
      selected records. */
  lemma FirstColumnIsSelection<T>(all: seq<T>, mine: seq<T>, rows: seq<seq<Cell>>, keep: T -> bool, id: T -> int)
    requires forall x :: x in mine <==> x in all && keep(x)
    requires |rows| == |mine| && forall i :: 0 <= i < |rows| ==> |rows[i]| > 0 && rows[i][0] == Num(id(mine[i]))
    ensures (set i | 0 <= i < |rows| :: rows[i][0]) == (set x | x in all && keep(x) :: Num(id(x)))
  {
    var shown := set i | 0 <= i < |rows| :: rows[i][0];
    var selected := set x | x in all && keep(x) :: Num(id(x));
    forall c | c in selected ensures c in shown {
      var x :| x in mine && c == Num(id(x));
      var i :| 0 <= i < |mine| && mine[i] == x;
      assert rows[i][0] == c;
    }
  }

  /** The "My Books" export shows the ids of exactly the current user's books, under the same
      header whether or not there are any. */
  lemma MyBooksHoldOnlyMine(s: Store, me: User, f: Formats)
    ensures MyBooksSheet(s, me, f).header ==
      ["Book ID", "Title", "Author", "ISBN", "Published Year", "Description", "Created At"]
    ensures var rows := MyBooksSheet(s, me, f).rows;
      (set i | 0 <= i < |rows| :: rows[i][0]) == (set b | b in s.books && b.userId == Some(me.id) :: Num(b.id))
  {
    var books := BooksOwnedBy(s.books, me.id);
    var rows := MyBooksSheet(s, me, f).rows;
    if books != [] {
      assert Keys(MyBookRecord(books[0], f)) ==
        ["Book ID", "Title", "Author", "ISBN", "Published Year", "Description", "Created At"];
    }
    assert forall i :: 0 <= i < |rows| ==> rows[i][0] == Num(books[i].id);
    FirstColumnIsSelection(s.books, books, rows, (b: Book) => b.userId == Some(me.id), (b: Book) => b.id);
  }

  /** The "My Libraries" export shows the ids of exactly the current user's libraries, under the
      same header whether or not there are any. */
  lemma MyLibrariesHoldOnlyMine(s: Store, me: User, f: Formats)
    ensures MyLibrariesSheet(s, me, f).header == ["Library ID", "Name", "Location", "Description", "Created At"]
    ensures var rows := MyLibrariesSheet(s, me, f).rows;
      (set i | 0 <= i < |rows| :: rows[i][0]) == (set l | l in s.libraries && l.userId == Some(me.id) :: Num(l.id))
  {
    var libraries := LibrariesOwnedBy(s.libraries, me.id);
    var rows := MyLibrariesSheet(s, me, f).rows;
    if libraries != [] {
      assert Keys(MyLibraryRecord(libraries[0], f)) == ["Library ID", "Name", "Location", "Description", "Created At"];
    }
    assert forall i :: 0 <= i < |rows| ==> rows[i][0] == Num(libraries[i].id);
    FirstColumnIsSelection(s.libraries, libraries, rows, (l: Library) => l.userId == Some(me.id), (l: Library) => l.id);
  }

  function ProfileRecord(u: User, f: Formats): Record {
    [("Username", Str(u.username)), ("Email", TextOrNA(Some(u.email))), ("Full Name", TextOrNA(u.fullName)),
     ("Account Status", ActiveInactive(u.isActive)), ("Verified", YesNo(u.isVerified)),
     ("Member Since", Str(f.day(u.createdAt)))]
  }

  /** The "My Profile" sheet: the current user's row as stored, if the lookup finds it. */
  function ProfileSheet(s: Store, me: User, f: Formats): Sheet {
    var records := match UserWithId(s, me.id) case Some(k) => [ProfileRecord(s.users[k], f)] case None => [];
    Frame(records, ["Username", "Email", "Full Name", "Account Status", "Verified", "Member Since"])
  }

  function SummarySheet(books: seq<Book>, libraries: seq<Library>): Sheet {
    Frame([Metric("Total Books", |books|), Metric("Total Libraries", |libraries|)], ["Metric", "Value"])
  }

  function BriefBookRecord(b: Book): Record {
    [("ID", Num(b.id)), ("Title", Str(b.title)), ("Author", Str(b.author)),
     ("ISBN", TextOrNA(b.isbn)), ("Published Year", IntOrNA(b.publishedYear))]
  }

  function BriefBooksSheet(books: seq<Book>): Sheet {
    Frame(seq(|books|, i requires 0 <= i < |books| => BriefBookRecord(books[i])),
          ["ID", "Title", "Author", "ISBN", "Published Year"])
  }

  function BriefLibraryRecord(l: Library): Record {
    [("ID", Num(l.id)), ("Name", Str(l.name)), ("Location", TextOrNA(l.location)),
     ("Description", TextOrNA(l.description))]
  }

  function BriefLibrariesSheet(libraries: seq<Library>): Sheet {
    Frame(seq(|libraries|, i requires 0 <= i < |libraries| => BriefLibraryRecord(libraries[i])),
          ["ID", "Name", "Location", "Description"])
  }

  /** The complete personal export: four sheets in this order. */
  function MyCompleteData(s: Store, me: User, f: Formats): seq<(string, Sheet)> {
    var books := BooksOwnedBy(s.books, me.id);
    var libraries := LibrariesOwnedBy(s.libraries, me.id);
    [("My Profile", ProfileSheet(s, me, f)),
     ("Summary", SummarySheet(books, libraries)),
     ("My Books", BriefBooksSheet(books)),
     ("My Libraries", BriefLibrariesSheet(libraries))]
  }

  /** The profile sheet is empty exactly when no stored user has the current user's id; otherwise
      it is that user's single row, under the same header either way. */
  lemma ProfileEmptyIffNoUser(s: Store, me: User, f: Formats)
    ensures var sheet := MyCompleteData(s, me, f)[0].1;
      sheet.header == ["Username", "Email", "Full Name", "Account Status", "Verified", "Member Since"] &&
      (|sheet.rows| == 0 <==> forall i :: 0 <= i < |s.users| ==> s.users[i].id != me.id) &&
      (|sheet.rows| == 1 ==> exists i :: 0 <= i < |s.users| && s.users[i].id == me.id &&
                               sheet.rows[0][3] == ActiveInactive(s.users[i].isActive))
  {
    match UserWithId(s, me.id) {
      case None =>
      case Some(k) =>
        assert Keys(ProfileRecord(s.users[k], f)) == ["Username", "Email", "Full Name", "Account Status", "Verified", "Member Since"];
    }
  }

  /** The summary counts are the numbers of rows in the "My Books" and "My Libraries" sheets of the
      same export, and a count is zero exactly when the user owns no such record. */
  lemma SummaryCountsMine(s: Store, me: User, f: Formats)
    ensures var data := MyCompleteData(s, me, f);
      var rows := data[1].1.rows;
      |rows| == 2 &&
      rows[0] == [Str("Total Books"), Num(|data[2].1.rows|)] &&
      rows[1] == [Str("Total Libraries"), Num(|data[3].1.rows|)] &&
      (rows[0][1] == Num(0) <==> forall b :: b in s.books ==> b.userId != Some(me.id)) &&
      (rows[1][1] == Num(0) <==> forall l :: l in s.libraries ==> l.userId != Some(me.id))
  {
    var books := BooksOwnedBy(s.books, me.id);
    var libraries := LibrariesOwnedBy(s.libraries, me.id);
    var data := MyCompleteData(s, me, f);
    assert data[1].1 == SummarySheet(books, libraries);
    assert |data[2].1.rows| == |books| && |data[3].1.rows| == |libraries|;
    MetricValues("Total Books", |books|);
    MetricValues("Total Libraries", |libraries|);
    if books != [] {
      assert books[0] in books;
    }
    if libraries != [] {
      assert libraries[0] in libraries;
    }
  }

  // ---------------------------------------------------------------------
  // Endpoints
  // ---------------------------------------------------------------------

  datatype Endpoint =
    | AllBooks | AllLibraries | AllUsers | FullReport   // under /api/admin/export
    | MyBooks | MyLibraries | MyData                    // under /api/user/export

  function IsAdminEndpoint(e: Endpoint): bool {
    e in {AllBooks, AllLibraries, AllUsers, FullReport}
  }

  /** The sheets of an export, in workbook order, as named sheets. */
  function Workbook(e: Endpoint, me: User, s: Store, f: Formats): seq<(string, Sheet)> {
    match e
    case AllBooks => [("All Books", AdminBooksSheet(s, f))]
    case AllLibraries => [("All Libraries", AdminLibrariesSheet(s, f))]
    case AllUsers => [("All Users", AdminUsersSheet(s, f))]
    case FullReport => CompleteReport(s)
    case MyBooks => [("My Books", MyBooksSheet(s, me, f))]
    case MyLibraries => [("My Libraries", MyLibrariesSheet(s, me, f))]
    case MyData => MyCompleteData(s, me, f)
  }

  function SheetNames(book: seq<(string, Sheet)>): seq<string> {
    seq(|book|, i requires 0 <= i < |book| => book[i].0)
  }

  /** An export request: the user dependency first, then the workbook. */
  function HandleExport(e: Endpoint, current: Option<User>, s: Store, f: Formats): Result<seq<(string, Sheet)>> {
    match RequireAdmin(current)
    case Err(error) => Err(error)
    case Ok(me) => Ok(Workbook(e, me, s, f))
  }

  /** Every export fails with 401 exactly when there is no user, and otherwise answers the
      endpoint's workbook. */
  lemma ExportAccess(e: Endpoint, s: Store, f: Formats, u: User)
    ensures HandleExport(e, None, s, f) == Err(AuthenticationRequired)
    ensures HandleExport(e, Some(u), s, f) == Ok(Workbook(e, u, s, f))
  {
  }

  /** The admin exports show the same workbook to every authenticated user, and the personal
      ones depend only on the user's id. */
  lemma ExportSameWorkbook(e: Endpoint, s: Store, f: Formats, u: User, v: User)
    ensures IsAdminEndpoint(e) ==> Workbook(e, u, s, f) == Workbook(e, v, s, f)
    ensures u.id == v.id ==> Workbook(e, u, s, f) == Workbook(e, v, s, f)
  {
  }

  /** The sheet names of the single-sheet workbooks. */
  lemma SingleSheetNames(me: User, s: Store, f: Formats)
    ensures SheetNames(Workbook(AllBooks, me, s, f)) == ["All Books"]
    ensures SheetNames(Workbook(AllLibraries, me, s, f)) == ["All Libraries"]
    ensures SheetNames(Workbook(AllUsers, me, s, f)) == ["All Users"]
    ensures SheetNames(Workbook(MyBooks, me, s, f)) == ["My Books"]
    ensures SheetNames(Workbook(MyLibraries, me, s, f)) == ["My Libraries"]
  {
  }

  /** The sheet names of the complete report, in order. */
  lemma ReportSheetNames(me: User, s: Store, f: Formats)
    ensures SheetNames(Workbook(FullReport, me, s, f)) == ["Statistics", "Books", "Libraries", "Users"]
  {
  }

  /** The sheet names of a user's complete data, in order. */
  lemma MyDataSheetNames(me: User, s: Store, f: Formats)
    ensures SheetNames(Workbook(MyData, me, s, f)) == ["My Profile", "Summary", "My Books", "My Libraries"]
  {
  }
}
