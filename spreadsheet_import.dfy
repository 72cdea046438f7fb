/** The admin spreadsheet import: a file of books, libraries or users is checked, read into
    a sheet, and its rows are inserted one commit at a time. Each row ends up successful,
    failed or skipped as a duplicate. */
module SpreadsheetImport {
  import opened Common
  import opened Models
  import opened Db

  // ---------------------------------------------------------------------
  // File type and reader choice
  // ---------------------------------------------------------------------

  const AllowedTypes: seq<string> := [".xlsx", ".xls", ".csv"]
  const InvalidFileType: Error := BadRequest("Invalid file type. Please upload .xlsx, .xls, or .csv file")

  /** `any(name.endswith(ext) for ext in allowed)`. */
  function AnyEndsWith(name: string, allowed: seq<string>): (r: bool)
    ensures r <==> exists k :: 0 <= k < |allowed| && EndsWith(name, allowed[k])
  {
    if allowed == [] then false
    else EndsWith(name, allowed[0]) || AnyEndsWith(name, allowed[1..])
  }

  /** `validate_file_type`: the lower-cased file name ends with one of the extensions. */
  function ValidateFileType(filename: string, allowed: seq<string>): bool {
    AnyEndsWith(Lower(filename), allowed)
  }

  /** The extension check does not see letter case. */
  lemma FileTypeIgnoresCase(filename: string, allowed: seq<string>)
    ensures ValidateFileType(filename, allowed) == ValidateFileType(Lower(filename), allowed)
  {
    LowerIdempotent(filename);
  }

  datatype Reader = CsvReader | ExcelReader

  /** The parser is chosen by a case-sensitive `endswith('.csv')`. */
  function ReaderFor(filename: string): Reader {
    if EndsWith(filename, ".csv") then CsvReader else ExcelReader
  }

  /** An upper-case extension passes the check, whatever the name before it. */
  lemma UpperCaseExtensionPasses(stem: string)
    ensures ValidateFileType(stem + ".XLSX", AllowedTypes)
  {
    var name := stem + ".XLSX";
    var lower := Lower(name);
    assert |lower| == |stem| + 5;
    var tail := lower[|stem|..];
    forall k | 0 <= k < 5 ensures tail[k] == ".xlsx"[k] {
      assert tail[k] == lower[|stem| + k] == LowerChar(name[|stem| + k]);
      assert name[|stem| + k] == ".XLSX"[k];
    }
    assert tail == ".xlsx";
    assert AllowedTypes[0] == ".xlsx";
    assert EndsWith(lower, AllowedTypes[0]);
  }

  /** A name ending in ".CSV" passes the check but is handed to the Excel reader; a name ending
      in ".csv" goes to the CSV reader. */
  lemma UpperCaseCsvReadAsExcel(stem: string)
    ensures ValidateFileType(stem + ".CSV", AllowedTypes) && ReaderFor(stem + ".CSV") == ExcelReader
    ensures ReaderFor(stem + ".csv") == CsvReader
  {
    var name := stem + ".CSV";
    var lower := Lower(name);
    assert |lower| == |stem| + 4;
    var tail := lower[|stem|..];
    forall k | 0 <= k < 4 ensures tail[k] == ".csv"[k] {
      assert tail[k] == lower[|stem| + k] == LowerChar(name[|stem| + k]);
      assert name[|stem| + k] == ".CSV"[k];
    }
    assert tail == ".csv";
    assert AllowedTypes[2] == ".csv";
    assert EndsWith(lower, AllowedTypes[2]);
    assert name[|stem|..][3] == 'V';
    assert (stem + ".csv")[|stem|..] == ".csv";
  }

  /** Any other extension is refused. */
  lemma OtherExtensionRefused()
    ensures !ValidateFileType("books.txt", AllowedTypes)
  {
    assert Lower("books.txt") == "books.txt";
    assert !EndsWith("books.txt", AllowedTypes[0]) && !EndsWith("books.txt", AllowedTypes[1]);
    assert !EndsWith("books.txt", AllowedTypes[2]);
  }

  // ---------------------------------------------------------------------
  // Cells and the conversions the loop applies to them
  // ---------------------------------------------------------------------

  /** A spreadsheet cell as pandas hands it over: a missing value (NaN), text, an integer or a boolean. */
  datatype Cell = Blank | Text(text: string) | Int(n: int) | Flag(b: bool)

  /** `pd.isna(cell)`. */
  predicate IsNa(c: Cell) { c.Blank? }

  /** Python truthiness of a cell: NaN is truthy, empty text and zero are not. */
  predicate Truthy(c: Cell) {
    match c
    case Blank => true
    case Text(t) => t != ""
    case Int(n) => n != 0
    case Flag(b) => b
  }

  /** `str(cell)`. */
  function CellText(c: Cell): string {
    match c
    case Blank => "nan"
    case Text(t) => t
    case Int(n) => IntToString(n)
    case Flag(b) => if b then "True" else "False"
  }

  /** A conversion that either gives a value or raises with a message. */
  datatype Attempt<T> = Value(v: T) | Raises(message: string)

  /** `int(cell)`: text is parsed, NaN and unparsable text raise. */
  function IntOf(c: Cell): (r: Attempt<int>)
    ensures c.Int? ==> r == Value(c.n)
    ensures IsNa(c) ==> r.Raises?
  {
    match c
    case Blank => Raises("cannot convert float NaN to integer")
    case Text(t) =>
      (match ParseInt(t)
       case Some(n) => Value(n)
       case None => Raises("invalid literal for int() with base 10: '" + t + "'"))
    case Int(n) => Value(n)
    case Flag(b) => Value(if b then 1 else 0)
  }

  // ---------------------------------------------------------------------
  // The sheet and its columns
  // ---------------------------------------------------------------------

  /** A parsed sheet: the header and the data rows (cells in header order; a short row is padded with NaN). */
  datatype Sheet = Sheet(columns: seq<string>, rows: seq<seq<Cell>>)

  datatype ReadResult = Parsed(sheet: Sheet) | Unreadable(message: string)

  /** A header name as the handlers compare it: lower-cased, then stripped. */
  function NormalizeName(column: string): string {
    Strip(Lower(column))
  }

  /** `df.columns.str.lower().str.strip()`. */
  function Normalize(columns: seq<string>): (r: seq<string>)
    ensures |r| == |columns|
    ensures forall i :: 0 <= i < |columns| ==> r[i] == NormalizeName(columns[i])
  {
    if columns == [] then [] else [NormalizeName(columns[0])] + Normalize(columns[1..])
  }

  /** `row.get(name)`: the cell under the first column called `name`, `None` when there is no such column. */
  function Lookup(cols: seq<string>, row: seq<Cell>, name: string): (r: Option<Cell>)
    ensures r.Some? <==> name in cols
  {
    match FindIndex(cols, (c: string) => c == name)
    case None => None
    case Some(i) => Some(if i < |row| then row[i] else Blank)
  }

  /** `row[name]` for a column known to exist. */
  function At(cols: seq<string>, row: seq<Cell>, name: string): Cell {
    match Lookup(cols, row, name)
    case None => Blank
    case Some(c) => c
  }

  /** `name in row and not pd.isna(row[name])`. */
  predicate Present(cols: seq<string>, row: seq<Cell>, name: string) {
    Lookup(cols, row, name).Some? && !IsNa(Lookup(cols, row, name).value)
  }

  /** An optional text field: stripped when present, `None` otherwise. */
  function OptionalText(cols: seq<string>, row: seq<Cell>, name: string): (r: Option<string>)
    ensures r.Some? <==> Present(cols, row, name)
  {
    if Present(cols, row, name) then Some(Strip(CellText(At(cols, row, name)))) else None
  }

  /** An optional integer field: `int(row[name])` when present, `None` when absent. */
  function OptionalInt(cols: seq<string>, row: seq<Cell>, name: string): (r: Attempt<Option<int>>)
    ensures !Present(cols, row, name) ==> r == Value(None)
    ensures r.Value? && r.v.Some? ==> IntOf(At(cols, row, name)) == Value(r.v.value)
  {
    if !Present(cols, row, name) then Value(None)
    else match IntOf(At(cols, row, name))
      case Value(n) => Value(Some(n))
      case Raises(m) => Raises(m)
  }

  /** An optional flag: `bool(row[name])` when present, `otherwise` when absent. */
  function OptionalFlag(cols: seq<string>, row: seq<Cell>, name: string, otherwise: bool): bool {
    if Present(cols, row, name) then Truthy(At(cols, row, name)) else otherwise
  }

  datatype Kind = BookRows | LibraryRows | UserRows

  function RequiredColumns(kind: Kind): seq<string> {
    match kind
    case BookRows => ["title", "author"]
    case LibraryRows => ["name"]
    case UserRows => ["username", "email", "password"]
  }

  /** `[col for col in required if col not in columns]`, in the order of `required`. */
  function MissingColumns(required: seq<string>, cols: seq<string>): (r: seq<string>)
    ensures forall c :: c in r <==> c in required && c !in cols
    ensures |r| <= |required|
  {
    if required == [] then []
    else (if required[0] in cols then [] else [required[0]]) + MissingColumns(required[1..], cols)
  }

  function MissingColumnsError(missing: seq<string>): Error {
    BadRequest("Missing required columns: " + Join(missing, ", "))
  }

  /** A header is compared after lower-casing and stripping, so " Title " is the "title" column. */
  lemma PaddedHeaderIsNormalized()
    ensures NormalizeName(" Title ") == "title"
  {
    var padded := " title ";
    assert Lower(" Title ") == padded by {
      assert forall i :: 0 <= i < 7 ==> LowerChar(" Title "[i]) == padded[i];
    }
    assert padded[1..] == "title " && StripLeft("title ") == "title ";
    assert "title "[..5] == "title" && StripRight("title") == "title";
  }

  /** An upper-case header is the lower-case column. */
  lemma UpperCaseHeaderIsNormalized()
    ensures NormalizeName("AUTHOR") == "author"
  {
    assert Lower("AUTHOR") == "author";
    assert Strip("author") == "author";
  }

  /** A header whose normalised name is a required column satisfies that requirement. */
  lemma NormalizedHeaderCounts(columns: seq<string>, i: nat, required: seq<string>)
    requires i < |columns|
    ensures NormalizeName(columns[i]) !in MissingColumns(required, Normalize(columns))
  {
    assert Normalize(columns)[i] == NormalizeName(columns[i]);
  }

  /** A user sheet with only a "password" column misses "username" and "email", in required order. */
  lemma MissingColumnsInOrder()
    ensures MissingColumns(RequiredColumns(UserRows), ["password"]) == ["username", "email"]
  {
    var required: seq<string> := ["username", "email", "password"];
    var cols: seq<string> := ["password"];
    assert "username" !in cols by { assert "username"[0] != "password"[0]; }
    assert "email" !in cols by { assert |"email"| != |"password"|; }
    assert required[2..] == ["password"] && required[2..][1..] == [];
    assert MissingColumns(required[2..], cols) == [];
    assert required[1..][1..] == required[2..];
    assert MissingColumns(required[1..], cols) == ["email"];
  }

  /** The 400 names the missing columns joined by ", ". */
  lemma MissingColumnsMessage()
    ensures MissingColumnsError(MissingColumns(RequiredColumns(UserRows), ["password"])) ==
      BadRequest("Missing required columns: username, email")
  {
    MissingColumnsInOrder();
    var missing: seq<string> := ["username", "email"];
    assert missing[1..] == ["email"];
    var joined := "username, email";
    assert Join(missing, ", ") == joined by {
      assert Join(missing[1..], ", ") == "email";
      assert "username" + ", " + "email" == joined;
    }
    assert "Missing required columns: " + joined == "Missing required columns: username, email";
  }

  // ---------------------------------------------------------------------
  // The default owner of imported rows
  // ---------------------------------------------------------------------

  /** A value in a claims dictionary. */
  datatype ClaimValue = Str(text: string) | Num(n: int) | NoneValue

  /** What the admin dependency hands the handler: a user row, or a claims dictionary. */
  datatype Principal = UserObject(user: User) | ClaimsDict(claims: map<string, ClaimValue>)

  /** `int(value)` for a claim. */
  function IntOfClaim(v: ClaimValue): (r: Attempt<int>)
    ensures v.Num? ==> r == Value(v.n)
    ensures v.NoneValue? ==> r.Raises?
  {
    match v
    case Str(t) =>
      (match ParseInt(t)
       case Some(n) => Value(n)
       case None => Raises("invalid literal for int() with base 10: '" + t + "'"))
    case Num(n) => Value(n)
    case NoneValue => Raises("int() argument must be a string, a bytes-like object or a real number, not 'NoneType'")
  }

  /** The first user whose email or username equals the claim (a text column compared with a number
      compares its decimal text; `== None` matches no row). */
  function SubjectUser(s: Store, v: ClaimValue): (r: Option<nat>)
    ensures r.Some? ==> r.value < |s.users| && v != NoneValue
    ensures r.Some? && v.Str? ==> s.users[r.value].email == v.text || s.users[r.value].username == v.text
    ensures r.Some? && v.Num? ==>
      s.users[r.value].email == IntToString(v.n) || s.users[r.value].username == IntToString(v.n)
    ensures r.Some? && v.Str? ==>
      forall j :: 0 <= j < r.value ==> s.users[j].email != v.text && s.users[j].username != v.text
    ensures r.Some? && v.Num? ==>
      forall j :: 0 <= j < r.value ==> s.users[j].email != IntToString(v.n) && s.users[j].username != IntToString(v.n)
    ensures v.Str? ==>
      (r.None? <==> forall i :: 0 <= i < |s.users| ==> s.users[i].email != v.text && s.users[i].username != v.text)
    ensures v.Num? ==>
      (r.None? <==> forall i :: 0 <= i < |s.users| ==>
         s.users[i].email != IntToString(v.n) && s.users[i].username != IntToString(v.n))
  {
    match v
    case NoneValue => None
    case Str(t) => FindIndex(s.users, (u: User) => u.email == t || u.username == t)
    case Num(n) => FindIndex(s.users, (u: User) => u.email == IntToString(n) || u.username == IntToString(n))
  }

  /** `get_user_id_safely`. */
  function GetUserIdSafely(current: Principal, s: Store): Attempt<int> {
    match current
    case UserObject(u) => Value(u.id)
    case ClaimsDict(d) =>
      if "user_id" in d then IntOfClaim(d["user_id"])
      else if "id" in d then IntOfClaim(d["id"])
      else
        var bySub := if "sub" in d then SubjectUser(s, d["sub"]) else None;
        if bySub.Some? then Value(s.users[bySub.value].id)
        else if |s.users| > 0 then Value(s.users[0].id)
        else Value(1)
  }

  /** A user object gives its own id; a dictionary's "user_id" beats its "id". */
  lemma UserIdPrecedence(current: Principal, s: Store)
    ensures current.UserObject? ==> GetUserIdSafely(current, s) == Value(current.user.id)
    ensures current.ClaimsDict? && "user_id" in current.claims ==>
      GetUserIdSafely(current, s) == IntOfClaim(current.claims["user_id"])
    ensures current.ClaimsDict? && "user_id" !in current.claims && "id" in current.claims ==>
      GetUserIdSafely(current, s) == IntOfClaim(current.claims["id"])
  {
  }

  /** Without "user_id" and "id" the lookup never raises: it names a stored user (the subject's
      account when the subject matches one, else the first user), or is 1 when there are no users. */
  lemma UserIdFallback(d: map<string, ClaimValue>, s: Store)
    requires "user_id" !in d && "id" !in d
    ensures GetUserIdSafely(ClaimsDict(d), s).Value?
    ensures "sub" in d && SubjectUser(s, d["sub"]).Some? ==>
      GetUserIdSafely(ClaimsDict(d), s) == Value(s.users[SubjectUser(s, d["sub"]).value].id)
    ensures ("sub" !in d || SubjectUser(s, d["sub"]).None?) && |s.users| > 0 ==>
      GetUserIdSafely(ClaimsDict(d), s) == Value(s.users[0].id)
    ensures ("sub" !in d || SubjectUser(s, d["sub"]).None?) && |s.users| == 0 ==>
      GetUserIdSafely(ClaimsDict(d), s) == Value(1)
    ensures var id := GetUserIdSafely(ClaimsDict(d), s).v;
      (|s.users| == 0 && id == 1) || (exists i :: 0 <= i < |s.users| && s.users[i].id == id)
    ensures "sub" in d && d["sub"].Str? && (exists i :: 0 <= i < |s.users| && s.users[i].email == d["sub"].text) ==>
      exists i :: 0 <= i < |s.users| && s.users[i].id == GetUserIdSafely(ClaimsDict(d), s).v &&
        (s.users[i].email == d["sub"].text || s.users[i].username == d["sub"].text)
  {
    if "sub" in d && d["sub"].Str? && (exists i :: 0 <= i < |s.users| && s.users[i].email == d["sub"].text) {
      var k :| 0 <= k < |s.users| && s.users[k].email == d["sub"].text;
      var t := d["sub"].text;
      assert SubjectUser(s, d["sub"]).Some? by {
        var f := (u: User) => u.email == t || u.username == t;
        assert f(s.users[k]);
      }
    }
  }

  // ---------------------------------------------------------------------
  // One row
  // ---------------------------------------------------------------------

  /** The outcome of one row: the new id, or the reason it failed or was skipped. */
  datatype RowResult = Succeeded(id: nat) | Failed(reason: string) | Skipped(reason: string)

  /** One entry of a result list: the spreadsheet row number (`index + 2`), the row's label
      (title, name or username), an extra field (ISBN or email) and the outcome. */
  datatype Line = Line(row: nat, name: Option<string>, extra: Option<string>, result: RowResult)

  const IsSuccess: Line -> bool := (l: Line) => l.result.Succeeded?
  const IsFailure: Line -> bool := (l: Line) => l.result.Failed?
  const IsSkip: Line -> bool := (l: Line) => l.result.Skipped?

  const MissingTitleOrAuthor := "Missing title or author"
  const MissingLibraryName := "Missing library name"
  const MissingUserFields := "Missing username, email, or password"
  const IsbnExists := "ISBN already exists"
  const LibraryNameExists := "Library name already exists"
  const UserExists := "Username or email already exists"
  const ConstraintViolation := "Database constraint violation"

  /** What the loop body decides before it touches the database: a finished line, or a row to
      add together with the labels of the success and of the constraint-failure line. */
  datatype Plan =
    | Reject(line: Line)
    | Create(newRow: NewRow, name: Option<string>, extra: Option<string>, failLabel: Option<string>)

  /** What every row of one import shares: the kind of rows, the normalised header, the default
      owner, the password hash and the clock. */
  datatype Context = Context(kind: Kind, cols: seq<string>, defaultUserId: int, hash: string -> string, now: nat)

  /** The ISBN cell when it passes `if isbn and not pd.isna(isbn)`. */
  function CheckedIsbn(cols: seq<string>, row: seq<Cell>): Option<Cell> {
    var isbn := Lookup(cols, row, "isbn");
    if isbn.Some? && Truthy(isbn.value) && !IsNa(isbn.value) then isbn else None
  }

  function BookPlan(ctx: Context, s: Store, row: seq<Cell>, index: nat): Plan {
    var n := index + 2;
    var title := At(ctx.cols, row, "title");
    var author := At(ctx.cols, row, "author");
    if IsNa(title) || IsNa(author) then Reject(Line(n, None, None, Failed(MissingTitleOrAuthor)))
    else
      var isbn := CheckedIsbn(ctx.cols, row);
      if isbn.Some? && BookWithIsbn(s, CellText(isbn.value)).Some? then
        Reject(Line(n, Some(CellText(title)), Some(CellText(isbn.value)), Skipped(IsbnExists)))
      else
        var year := OptionalInt(ctx.cols, row, "published_year");
        var owner := OptionalInt(ctx.cols, row, "user_id");
        if year.Raises? then Reject(Line(n, Some(CellText(title)), None, Failed(year.message)))
        else if owner.Raises? then Reject(Line(n, Some(CellText(title)), None, Failed(owner.message)))
        else
          var book := NewBook(Strip(CellText(title)), Strip(CellText(author)),
                              if isbn.Some? then Some(Strip(CellText(isbn.value))) else None,
                              OptionalText(ctx.cols, row, "description"), year.v,
                              Some(if owner.v.Some? then owner.v.value else ctx.defaultUserId));
          Create(book, Some(book.title), None, Some(CellText(title)))
  }

  function LibraryPlan(ctx: Context, s: Store, row: seq<Cell>, index: nat): Plan {
    var n := index + 2;
    var name := At(ctx.cols, row, "name");
    if IsNa(name) then Reject(Line(n, None, None, Failed(MissingLibraryName)))
    else
      var libraryName := Strip(CellText(name));
      if LibraryWithName(s, libraryName).Some? then
        Reject(Line(n, Some(libraryName), None, Skipped(LibraryNameExists)))
      else
        var owner := OptionalInt(ctx.cols, row, "user_id");
        if owner.Raises? then Reject(Line(n, Some(CellText(name)), None, Failed(owner.message)))
        else
          var library := NewLibrary(libraryName, OptionalText(ctx.cols, row, "location"),
                                    OptionalText(ctx.cols, row, "description"),
                                    Some(if owner.v.Some? then owner.v.value else ctx.defaultUserId));
          Create(library, Some(libraryName), None, Some(CellText(name)))
  }

  /** The first user with this username or this email. */
  function UserWithNameOrEmail(s: Store, username: string, email: string): (r: Option<nat>)
    ensures r.None? <==> UserWithUsername(s, username).None? && UserWithEmail(s, email).None?
  {
    FindIndex(s.users, (u: User) => u.username == username || u.email == email)
  }

  function UserPlan(ctx: Context, s: Store, row: seq<Cell>, index: nat): Plan {
    var n := index + 2;
    var username := At(ctx.cols, row, "username");
    var email := At(ctx.cols, row, "email");
    var password := At(ctx.cols, row, "password");
    if IsNa(username) || IsNa(email) || IsNa(password) then Reject(Line(n, None, None, Failed(MissingUserFields)))
    else
      var u := Strip(CellText(username));
      var e := Strip(CellText(email));
      if UserWithNameOrEmail(s, u, e).Some? then Reject(Line(n, Some(u), Some(e), Skipped(UserExists)))
      else
        var account := NewAccount(e, u, ctx.hash(CellText(password)), OptionalText(ctx.cols, row, "full_name"),
                                  OptionalFlag(ctx.cols, row, "is_active", true),
                                  OptionalFlag(ctx.cols, row, "is_verified", false));
        Create(account, Some(u), Some(e), Some(CellText(username)))
  }

  /** The loop body's decision for row `index` against the store as it stands. */
  function PlanRow(ctx: Context, s: Store, row: seq<Cell>, index: nat): (p: Plan)
    ensures p.Reject? ==> p.line.row == index + 2
  {
    match ctx.kind
    case BookRows => BookPlan(ctx, s, row, index)
    case LibraryRows => LibraryPlan(ctx, s, row, index)
    case UserRows => UserPlan(ctx, s, row, index)
  }

  /** One iteration: the plan, then `db.add; db.commit` for a row to create, with an
      IntegrityError reported as a constraint violation. */
  function Step(ctx: Context, s: Store, row: seq<Cell>, index: nat): (r: (Store, Line))
    ensures r.1.row == index + 2
    ensures !r.1.result.Succeeded? ==> r.0 == s
  {
    match PlanRow(ctx, s, row, index)
    case Reject(line) => (s, line)
    case Create(newRow, name, extra, failLabel) =>
      var (t, id) := Insert(s, newRow, ctx.now);
      if id.Some? then (t, Line(index + 2, name, extra, Succeeded(id.value)))
      else (s, Line(index + 2, failLabel, None, Failed(ConstraintViolation)))
  }

  /** A loop body as a value: from the store and one row (with its index) to the new store and the row's line. */
  type RowStep = (Store, seq<Cell>, nat) -> (Store, Line)

  /** A row loop over any body: rows are taken in order, each against the store the rows before it left. */
  function Fold(step: RowStep, s: Store, rows: seq<seq<Cell>>): (r: (Store, seq<Line>))
    ensures |r.1| == |rows|
    decreases |rows|
  {
    if rows == [] then (s, [])
    else
      var (mid, lines) := Fold(step, s, rows[..|rows| - 1]);
      var (t, line) := step(mid, rows[|rows| - 1], |rows| - 1);
      (t, lines + [line])
  }

  /** The import's loop body as a value. */
  function StepOf(ctx: Context): RowStep {
    (s: Store, row: seq<Cell>, index: nat) => Step(ctx, s, row, index)
  }

  /** When every step numbers its line `index + 2`, so does the whole loop. */
  lemma {:induction false} FoldNumbersRows(step: RowStep, s: Store, rows: seq<seq<Cell>>)
    requires forall t: Store, row: seq<Cell>, index: nat :: step(t, row, index).1.row == index + 2
    ensures forall i :: 0 <= i < |rows| ==> Fold(step, s, rows).1[i].row == i + 2
    decreases |rows|
  {
    if rows != [] {
      FoldNumbersRows(step, s, rows[..|rows| - 1]);
    }
  }

  lemma StepOfNumbersRows(ctx: Context)
    ensures forall t: Store, row: seq<Cell>, index: nat :: StepOf(ctx)(t, row, index).1.row == index + 2
  {
    forall t: Store, row: seq<Cell>, index: nat ensures StepOf(ctx)(t, row, index).1.row == index + 2 {
      assert StepOf(ctx)(t, row, index) == Step(ctx, t, row, index);
    }
  }

  /** One more row extends the loop by that row's step. */
  lemma FoldAppend(step: RowStep, s: Store, rows: seq<seq<Cell>>, i: nat)
    requires i < |rows|
    ensures var (mid, lines) := Fold(step, s, rows[..i]);
      Fold(step, s, rows[..i + 1]) == (step(mid, rows[i], i).0, lines + [step(mid, rows[i], i).1])
  {
    assert rows[..i + 1][..i] == rows[..i];
  }

  /** The whole row loop: the store after it, and the line of every row, numbered from 2 in sheet order. */
  function ImportRowsSpec(ctx: Context, s: Store, rows: seq<seq<Cell>>): (r: (Store, seq<Line>))
    ensures |r.1| == |rows|
    ensures forall i :: 0 <= i < |rows| ==> r.1[i].row == i + 2
  {
    StepOfNumbersRows(ctx);
    FoldNumbersRows(StepOf(ctx), s, rows);
    Fold(StepOf(ctx), s, rows)
  }

  /** The loop body: plan the row against the session as it stands, and insert it with its own commit. */
  method ImportRow(db: Session, ctx: Context, row: seq<Cell>, index: nat) returns (line: Line)
    modifies db
    ensures (db.State(), line) == Step(ctx, old(db.State()), row, index)
  {
    match PlanRow(ctx, db.State(), row, index) {
      case Reject(l) =>
        line := l;
      case Create(newRow, name, extra, failLabel) =>
        var id := db.Add(newRow, ctx.now);
        if id.Some? {
          line := Line(index + 2, name, extra, Succeeded(id.value));
        } else {
          line := Line(index + 2, failLabel, None, Failed(ConstraintViolation));
        }
    }
  }

  /** The loop: every row goes through the body in order and its line is appended to the list of its kind. */
  method ImportRows(db: Session, ctx: Context, rows: seq<seq<Cell>>)
    returns (successful: seq<Line>, failed: seq<Line>, skipped: seq<Line>)
    modifies db
    ensures var (t, lines) := ImportRowsSpec(ctx, old(db.State()), rows);
      db.State() == t && successful == Filter(lines, IsSuccess) &&
      failed == Filter(lines, IsFailure) && skipped == Filter(lines, IsSkip)
  {
    ghost var start := db.State();
    ghost var lines: seq<Line> := [];
    successful, failed, skipped := [], [], [];
    var i := 0;
    while i < |rows|
      invariant 0 <= i <= |rows|
      invariant (db.State(), lines) == Fold(StepOf(ctx), start, rows[..i])
      invariant successful == Filter(lines, IsSuccess)
      invariant failed == Filter(lines, IsFailure)
      invariant skipped == Filter(lines, IsSkip)
    {
      ghost var before := db.State();
      var line := ImportRow(db, ctx, rows[i], i);
      FoldAppend(StepOf(ctx), start, rows, i);
      if line.result.Succeeded? {
        successful := successful + [line];
      } else if line.result.Failed? {
        failed := failed + [line];
      } else {
        skipped := skipped + [line];
      }
      assert (lines + [line])[..|lines|] == lines;
      lines := lines + [line];
      i := i + 1;
    }
    assert rows[..i] == rows;
  }

  // ---------------------------------------------------------------------
  // The handlers
  // ---------------------------------------------------------------------

  /** The handler's answer: `total_rows` and the three lists (their lengths are the counts). */
  datatype Response = Response(totalRows: nat, successful: seq<Line>, failed: seq<Line>, skipped: seq<Line>)

  /** Any other exception inside the handler's `try` becomes a 500. */
  function ProcessingError(message: string): Error {
    ServerError("Error processing file: " + message)
  }

  /** `import_books_from_excel`, `import_libraries_from_excel` and `import_users_from_excel`:
      the file name check, the read, the column check, the default owner (not looked up for
      users) and the row loop. */
  function ImportSpec(kind: Kind, s: Store, current: Principal, filename: string, read: Reader -> ReadResult,
                      hash: string -> string, now: nat): (r: (Store, Result<Response>))
  {
    if !ValidateFileType(filename, AllowedTypes) then (s, Err(InvalidFileType))
    else match read(ReaderFor(filename))
      case Unreadable(m) => (s, Err(ProcessingError(m)))
      case Parsed(sheet) =>
        var cols := Normalize(sheet.columns);
        var missing := MissingColumns(RequiredColumns(kind), cols);
        if missing != [] then (s, Err(MissingColumnsError(missing)))
        else
          // The user import never asks for a default owner; 0 stands in and is never read.
          var owner := if kind == UserRows then Value(0) else GetUserIdSafely(current, s);
          match owner
          case Raises(m) => (s, Err(ProcessingError(m)))
          case Value(d) =>
            var (t, lines) := ImportRowsSpec(Context(kind, cols, d, hash, now), s, sheet.rows);
            (t, Ok(Response(|sheet.rows|, Filter(lines, IsSuccess), Filter(lines, IsFailure), Filter(lines, IsSkip))))
  }

  method ImportFromSpreadsheet(db: Session, kind: Kind, current: Principal, filename: string,
                               read: Reader -> ReadResult, hash: string -> string, now: nat)
    returns (r: Result<Response>)
    modifies db
    ensures (db.State(), r) == ImportSpec(kind, old(db.State()), current, filename, read, hash, now)
  {
    if !ValidateFileType(filename, AllowedTypes) {
      return Err(InvalidFileType);
    }
    match read(ReaderFor(filename)) {
      case Unreadable(m) =>
        return Err(ProcessingError(m));
      case Parsed(sheet) =>
        var cols := Normalize(sheet.columns);
        var missing := MissingColumns(RequiredColumns(kind), cols);
        if missing != [] {
          return Err(MissingColumnsError(missing));
        }
        var owner := if kind == UserRows then Value(0) else GetUserIdSafely(current, db.State());
        match owner {
          case Raises(m) =>
            return Err(ProcessingError(m));
          case Value(d) =>
            var successful, failed, skipped := ImportRows(db, Context(kind, cols, d, hash, now), sheet.rows);
            return Ok(Response(|sheet.rows|, successful, failed, skipped));
        }
    }
  }

  // ---------------------------------------------------------------------
  // Properties
  // ---------------------------------------------------------------------

  /** Every line is exactly one of successful, failed and skipped. */
  lemma {:induction false} ThreeWayCount(lines: seq<Line>)
    ensures Count(lines, IsSuccess) + Count(lines, IsFailure) + Count(lines, IsSkip) == |lines|
    decreases |lines|
  {
    if lines != [] {
      ThreeWayCount(lines[..|lines| - 1]);
    }
  }

  /** A file that is accepted gives one line per data row, numbered from 2 in sheet order, and
      the three lists together hold every row exactly once. */
  lemma ResponseAccountsForEveryRow(kind: Kind, s: Store, current: Principal, filename: string,
                                    read: Reader -> ReadResult, hash: string -> string, now: nat)
    requires ImportSpec(kind, s, current, filename, read, hash, now).1.Ok?
    ensures var resp := ImportSpec(kind, s, current, filename, read, hash, now).1.value;
      read(ReaderFor(filename)).Parsed? && resp.totalRows == |read(ReaderFor(filename)).sheet.rows| &&
      |resp.successful| + |resp.failed| + |resp.skipped| == resp.totalRows &&
      (forall l :: l in resp.successful ==> l.result.Succeeded? && 2 <= l.row < resp.totalRows + 2) &&
      (forall l :: l in resp.failed ==> l.result.Failed? && 2 <= l.row < resp.totalRows + 2) &&
      (forall l :: l in resp.skipped ==> l.result.Skipped? && 2 <= l.row < resp.totalRows + 2)
  {
    var sheet := read(ReaderFor(filename)).sheet;
    var cols := Normalize(sheet.columns);
    var d := (if kind == UserRows then Value(0) else GetUserIdSafely(current, s)).v;
    var lines := ImportRowsSpec(Context(kind, cols, d, hash, now), s, sheet.rows).1;
    FilterLength(lines, IsSuccess);
    FilterLength(lines, IsFailure);
    FilterLength(lines, IsSkip);
    ThreeWayCount(lines);
    forall l | l in lines ensures 2 <= l.row < |sheet.rows| + 2 {
      var i :| 0 <= i < |lines| && lines[i] == l;
    }
  }

  /** A rejected file name, an unreadable file or a missing required column leaves the store
      untouched and processes no row. */
  lemma RejectedFileChangesNothing(kind: Kind, s: Store, current: Principal, filename: string,
                                   read: Reader -> ReadResult, hash: string -> string, now: nat)
    ensures var (t, r) := ImportSpec(kind, s, current, filename, read, hash, now);
      (!ValidateFileType(filename, AllowedTypes) ==> r == Err(InvalidFileType)) &&
      (r.Err? ==> t == s) &&
      (ValidateFileType(filename, AllowedTypes) && read(ReaderFor(filename)).Parsed? &&
       MissingColumns(RequiredColumns(kind), Normalize(read(ReaderFor(filename)).sheet.columns)) != [] ==>
         r == Err(MissingColumnsError(MissingColumns(RequiredColumns(kind), Normalize(read(ReaderFor(filename)).sheet.columns)))))
  {
  }

  /** A book row without a title or an author is failed and inserts nothing. */
  lemma MissingTitleOrAuthorFails(ctx: Context, s: Store, row: seq<Cell>, index: nat)
    requires ctx.kind == BookRows
    requires IsNa(At(ctx.cols, row, "title")) || IsNa(At(ctx.cols, row, "author"))
    ensures Step(ctx, s, row, index) == (s, Line(index + 2, None, None, Failed(MissingTitleOrAuthor)))
  {
  }

  /** Line `i` of the loop is the step for row `i` taken against the store left by the rows before it. */
  lemma {:induction false} FoldLine(step: RowStep, s: Store, rows: seq<seq<Cell>>, i: nat)
    requires i < |rows|
    ensures var mid := Fold(step, s, rows[..i]).0;
      Fold(step, s, rows).1[i] == step(mid, rows[i], i).1 &&
      Fold(step, s, rows[..i + 1]).0 == step(mid, rows[i], i).0
    decreases |rows|
  {
    var n := |rows|;
    if i == n - 1 {
      assert rows[..i + 1] == rows;
    } else {
      FoldLine(step, s, rows[..n - 1], i);
      assert rows[..n - 1][..i] == rows[..i];
      assert rows[..n - 1][..i + 1] == rows[..i + 1];
    }
  }

  /** The tables only grow by appending as rows are processed. */
  predicate Grows(s: Store, t: Store) {
    |s.books| <= |t.books| && t.books[..|s.books|] == s.books &&
    |s.libraries| <= |t.libraries| && t.libraries[..|s.libraries|] == s.libraries &&
    |s.users| <= |t.users| && t.users[..|s.users|] == s.users
  }

  lemma StepGrows(ctx: Context, s: Store, row: seq<Cell>, index: nat)
    ensures Grows(s, Step(ctx, s, row, index).0)
  {
    match PlanRow(ctx, s, row, index) {
      case Reject(_) =>
      case Create(newRow, _, _, _) =>
        var t := Insert(s, newRow, ctx.now).0;
        if Insert(s, newRow, ctx.now).1.Some? {
          assert t == Added(s, newRow, ctx.now);
          match newRow {
            case NewBook(_, _, _, _, _, _) => assert t.books[..|s.books|] == s.books;
            case NewLibrary(_, _, _, _) => assert t.libraries[..|s.libraries|] == s.libraries;
            case NewAccount(_, _, _, _, _, _) => assert t.users[..|s.users|] == s.users;
          }
        }
    }
  }

  /** When every step only appends, so does the loop: the store after `i` rows is a prefix of the final one. */
  lemma {:induction false} FoldGrows(step: RowStep, s: Store, rows: seq<seq<Cell>>, i: nat)
    requires forall t: Store, row: seq<Cell>, index: nat :: Grows(t, step(t, row, index).0)
    requires i <= |rows|
    ensures Grows(Fold(step, s, rows[..i]).0, Fold(step, s, rows).0)
    decreases |rows|
  {
    var n := |rows|;
    if i == n {
      assert rows[..i] == rows;
    } else {
      FoldGrows(step, s, rows[..n - 1], i);
      assert rows[..n - 1][..i] == rows[..i];
      var mid := Fold(step, s, rows[..n - 1]).0;
      assert Grows(mid, step(mid, rows[n - 1], n - 1).0);
      var a := Fold(step, s, rows[..i]).0;
      var t := Fold(step, s, rows).0;
      assert t.books[..|a.books|] == mid.books[..|a.books|];
      assert t.libraries[..|a.libraries|] == mid.libraries[..|a.libraries|];
      assert t.users[..|a.users|] == mid.users[..|a.users|];
    }
  }

  /** The import's loop body only appends. */
  lemma ImportStepGrows(ctx: Context)
    ensures forall t: Store, row: seq<Cell>, index: nat :: Grows(t, StepOf(ctx)(t, row, index).0)
  {
    forall t: Store, row: seq<Cell>, index: nat ensures Grows(t, StepOf(ctx)(t, row, index).0) {
      StepGrows(ctx, t, row, index);
    }
  }

  /** A book row that succeeds stores its stripped ISBN in the new last book. */
  lemma CommittedIsbn(ctx: Context, s: Store, row: seq<Cell>, index: nat)
    requires ctx.kind == BookRows && CheckedIsbn(ctx.cols, row).Some?
    requires Step(ctx, s, row, index).1.result.Succeeded?
    ensures var t := Step(ctx, s, row, index).0;
      |s.books| < |t.books| && t.books[|s.books|].isbn == Some(Strip(CellText(CheckedIsbn(ctx.cols, row).value)))
  {
    var p := PlanRow(ctx, s, row, index);
    assert p.Create?;
    assert Insert(s, p.newRow, ctx.now).1.Some?;
  }

  /** A book row whose ISBN, as written, is stored already is skipped. */
  lemma StoredIsbnSkips(ctx: Context, s: Store, row: seq<Cell>, index: nat, k: nat)
    requires ctx.kind == BookRows && CheckedIsbn(ctx.cols, row).Some?
    requires !IsNa(At(ctx.cols, row, "title")) && !IsNa(At(ctx.cols, row, "author"))
    requires k < |s.books| && s.books[k].isbn == Some(CellText(CheckedIsbn(ctx.cols, row).value))
    ensures Step(ctx, s, row, index).1.result == Skipped(IsbnExists)
  {
    assert BookWithIsbn(s, CellText(CheckedIsbn(ctx.cols, row).value)).Some?;
  }

  /** An ISBN committed by an earlier row of the same file makes a later row with that ISBN a
      skipped duplicate. */
  lemma EarlierRowIsbnIsDuplicate(ctx: Context, s: Store, rows: seq<seq<Cell>>, i: nat, j: nat)
    requires ctx.kind == BookRows && i < j < |rows|
    requires ImportRowsSpec(ctx, s, rows).1[i].result.Succeeded?
    requires var isbnI := CheckedIsbn(ctx.cols, rows[i]); var isbnJ := CheckedIsbn(ctx.cols, rows[j]);
      isbnI.Some? && isbnJ.Some? && CellText(isbnJ.value) == Strip(CellText(isbnI.value))
    requires !IsNa(At(ctx.cols, rows[j], "title")) && !IsNa(At(ctx.cols, rows[j], "author"))
    ensures ImportRowsSpec(ctx, s, rows).1[j].result == Skipped(IsbnExists)
  {
    var step := StepOf(ctx);
    var before := Fold(step, s, rows[..i]).0;
    FoldLine(step, s, rows, i);
    CommittedIsbn(ctx, before, rows[i], i);
    var after := Fold(step, s, rows[..i + 1]).0;
    var upto := Fold(step, s, rows[..j]).0;
    ImportStepGrows(ctx);
    FoldGrows(step, s, rows[..j], i + 1);
    assert rows[..j][..i + 1] == rows[..i + 1];
    assert upto.books[|before.books|] == after.books[|before.books|];
    FoldLine(step, s, rows, j);
    StoredIsbnSkips(ctx, upto, rows[j], j, |before.books|);
  }

  /** A library row that succeeds stores its stripped name in the new last library. */
  lemma CommittedLibraryName(ctx: Context, s: Store, row: seq<Cell>, index: nat)
    requires ctx.kind == LibraryRows
    requires Step(ctx, s, row, index).1.result.Succeeded?
    ensures var t := Step(ctx, s, row, index).0;
      |s.libraries| < |t.libraries| && t.libraries[|s.libraries|].name == Strip(CellText(At(ctx.cols, row, "name")))
  {
    var p := PlanRow(ctx, s, row, index);
    assert p.Create?;
    assert Insert(s, p.newRow, ctx.now).1.Some?;
  }

  /** A library row whose stripped name is stored already is skipped. */
  lemma StoredNameSkips(ctx: Context, s: Store, row: seq<Cell>, index: nat, k: nat)
    requires ctx.kind == LibraryRows && !IsNa(At(ctx.cols, row, "name"))
    requires k < |s.libraries| && s.libraries[k].name == Strip(CellText(At(ctx.cols, row, "name")))
    ensures Step(ctx, s, row, index).1.result == Skipped(LibraryNameExists)
  {
    assert LibraryWithName(s, Strip(CellText(At(ctx.cols, row, "name")))).Some?;
  }

  /** A library name committed by an earlier row makes a later row with the same stripped name a
      skipped duplicate. */
  lemma EarlierRowLibraryIsDuplicate(ctx: Context, s: Store, rows: seq<seq<Cell>>, i: nat, j: nat)
    requires ctx.kind == LibraryRows && i < j < |rows|
    requires ImportRowsSpec(ctx, s, rows).1[i].result.Succeeded?
    requires !IsNa(At(ctx.cols, rows[j], "name"))
    requires Strip(CellText(At(ctx.cols, rows[j], "name"))) == Strip(CellText(At(ctx.cols, rows[i], "name")))
    ensures ImportRowsSpec(ctx, s, rows).1[j].result == Skipped(LibraryNameExists)
  {
    var step := StepOf(ctx);
    var before := Fold(step, s, rows[..i]).0;
    FoldLine(step, s, rows, i);
    CommittedLibraryName(ctx, before, rows[i], i);
    var after := Fold(step, s, rows[..i + 1]).0;
    var upto := Fold(step, s, rows[..j]).0;
    ImportStepGrows(ctx);
    FoldGrows(step, s, rows[..j], i + 1);
    assert rows[..j][..i + 1] == rows[..i + 1];
    assert upto.libraries[|before.libraries|] == after.libraries[|before.libraries|];
    FoldLine(step, s, rows, j);
    StoredNameSkips(ctx, upto, rows[j], j, |before.libraries|);
  }

  /** A user row whose stripped username or email is taken is skipped and inserts nothing. */
  lemma TakenUserIsSkipped(ctx: Context, s: Store, row: seq<Cell>, index: nat)
    requires ctx.kind == UserRows
    requires !IsNa(At(ctx.cols, row, "username")) && !IsNa(At(ctx.cols, row, "email")) && !IsNa(At(ctx.cols, row, "password"))
    requires var u := Strip(CellText(At(ctx.cols, row, "username")));
      var e := Strip(CellText(At(ctx.cols, row, "email")));
      UserWithUsername(s, u).Some? || UserWithEmail(s, e).Some?
    ensures Step(ctx, s, row, index).0 == s
    ensures Step(ctx, s, row, index).1.result == Skipped(UserExists)
  {
  }

  /** A book row with only its title and author: no ISBN, description or year, owned by the
      default user, and it is committed. */
  lemma BookDefaults(ctx: Context, s: Store, row: seq<Cell>, index: nat)
    requires Valid(s) && ctx.kind == BookRows
    requires !IsNa(At(ctx.cols, row, "title")) && !IsNa(At(ctx.cols, row, "author"))
    requires "isbn" !in ctx.cols && "description" !in ctx.cols && "published_year" !in ctx.cols && "user_id" !in ctx.cols
    ensures var (t, line) := Step(ctx, s, row, index);
      line.result == Succeeded(s.nextBookId) &&
      t.books == s.books + [Book(s.nextBookId, Strip(CellText(At(ctx.cols, row, "title"))),
                                 Strip(CellText(At(ctx.cols, row, "author"))), None, None, None, ctx.now,
                                 Some(ctx.defaultUserId))]
  {
    var p := PlanRow(ctx, s, row, index);
    InsertCommitsIff(s, p.newRow, ctx.now);
  }

  /** A user row with only the required columns is an active, unverified account without a full
      name, stored with the hash of the password text. */
  lemma UserDefaults(ctx: Context, s: Store, row: seq<Cell>, index: nat)
    requires Valid(s) && ctx.kind == UserRows
    requires !IsNa(At(ctx.cols, row, "username")) && !IsNa(At(ctx.cols, row, "email")) && !IsNa(At(ctx.cols, row, "password"))
    requires "full_name" !in ctx.cols && "is_active" !in ctx.cols && "is_verified" !in ctx.cols
    requires var u := Strip(CellText(At(ctx.cols, row, "username")));
      var e := Strip(CellText(At(ctx.cols, row, "email")));
      UserWithUsername(s, u).None? && UserWithEmail(s, e).None?
    ensures var (t, line) := Step(ctx, s, row, index);
      line.result == Succeeded(s.nextUserId) &&
      t.users == s.users + [User(s.nextUserId, Strip(CellText(At(ctx.cols, row, "email"))),
                                 Strip(CellText(At(ctx.cols, row, "username"))),
                                 ctx.hash(CellText(At(ctx.cols, row, "password"))), None, true, false, ctx.now, None, None)]
  {
    var p := PlanRow(ctx, s, row, index);
    InsertCommitsIff(s, p.newRow, ctx.now);
  }

  /** The duplicate check compares the ISBN as written but the row stores it stripped: an ISBN
      with a leading blank that matches a stored one after stripping passes the check and then
      fails at commit, as a constraint violation. */
  lemma PaddedIsbnIsConstraintViolation(ctx: Context, s: Store, row: seq<Cell>, index: nat, k: nat, isbn: string)
    requires ctx.kind == BookRows
    requires !IsNa(At(ctx.cols, row, "title")) && !IsNa(At(ctx.cols, row, "author"))
    requires !Present(ctx.cols, row, "published_year") && !Present(ctx.cols, row, "user_id")
    requires Lookup(ctx.cols, row, "isbn") == Some(Text(" " + isbn))
    requires isbn != [] && !IsSpace(isbn[0]) && !IsSpace(isbn[|isbn| - 1])
    requires k < |s.books| && s.books[k].isbn == Some(isbn)
    requires BookWithIsbn(s, " " + isbn).None?
    ensures Step(ctx, s, row, index) == (s, Line(index + 2, Some(CellText(At(ctx.cols, row, "title"))), None, Failed(ConstraintViolation)))
  {
    StripPadded(isbn);
    var p := PlanRow(ctx, s, row, index);
    assert p.Create? && p.newRow.isbn == Some(isbn);
    var after := Added(s, p.newRow, ctx.now);
    assert after.books[k].isbn == after.books[|s.books|].isbn;
    assert !Constraints(after);
  }

  /** A library or user row the loop decides to create always commits: libraries have no
      unique column, and a user row is created only when its username and email are free. */
  lemma PlanOutsideBooksCommits(ctx: Context, s: Store, row: seq<Cell>, index: nat)
    requires Valid(s) && ctx.kind != BookRows && PlanRow(ctx, s, row, index).Create?
    ensures Insert(s, PlanRow(ctx, s, row, index).newRow, ctx.now).1.Some?
  {
    var p := PlanRow(ctx, s, row, index);
    InsertCommitsIff(s, p.newRow, ctx.now);
  }

  /** A library or user row keeps the store valid and is never a constraint violation. */
  lemma StepOutsideBooks(ctx: Context, s: Store, row: seq<Cell>, index: nat)
    requires Valid(s) && ctx.kind != BookRows
    ensures Valid(Step(ctx, s, row, index).0)
    ensures Step(ctx, s, row, index).1.result != Failed(ConstraintViolation)
  {
    var p := PlanRow(ctx, s, row, index);
    if p.Create? {
      PlanOutsideBooksCommits(ctx, s, row, index);
      InsertKeepsValid(s, p.newRow, ctx.now);
    }
  }

  /** Library and user rows never hit a constraint violation: the store stays valid and every
      row is inserted, skipped or failed for a reason of its own. */
  lemma {:induction false} NoConstraintViolationOutsideBooks(ctx: Context, s: Store, rows: seq<seq<Cell>>)
    requires Valid(s) && ctx.kind != BookRows
    ensures Valid(ImportRowsSpec(ctx, s, rows).0)
    ensures forall l :: l in ImportRowsSpec(ctx, s, rows).1 ==> l.result != Failed(ConstraintViolation)
    decreases |rows|
  {
    if rows != [] {
      var n := |rows|;
      NoConstraintViolationOutsideBooks(ctx, s, rows[..n - 1]);
      var mid := Fold(StepOf(ctx), s, rows[..n - 1]).0;
      StepOutsideBooks(ctx, mid, rows[n - 1], n - 1);
    }
  }

  /** Every row, of any kind, keeps the store valid: a commit that would break a unique column
      leaves the store as it was. */
  lemma StepKeepsValid(ctx: Context, s: Store, row: seq<Cell>, index: nat)
    requires Valid(s)
    ensures Valid(Step(ctx, s, row, index).0)
  {
    var p := PlanRow(ctx, s, row, index);
    if p.Create? {
      InsertKeepsValid(s, p.newRow, ctx.now);
    }
  }

  /** The whole row loop keeps the store valid. */
  lemma {:induction false} ImportRowsKeepValid(ctx: Context, s: Store, rows: seq<seq<Cell>>)
    requires Valid(s)
    ensures Valid(ImportRowsSpec(ctx, s, rows).0)
    decreases |rows|
  {
    if rows != [] {
      var n := |rows|;
      ImportRowsKeepValid(ctx, s, rows[..n - 1]);
      var mid := Fold(StepOf(ctx), s, rows[..n - 1]).0;
      StepKeepsValid(ctx, mid, rows[n - 1], n - 1);
    }
  }

  /** Each of the three import handlers keeps the store valid, whatever the file holds. */
  lemma ImportKeepsValid(kind: Kind, s: Store, current: Principal, filename: string, read: Reader -> ReadResult,
                         hash: string -> string, now: nat)
    requires Valid(s)
    ensures Valid(ImportSpec(kind, s, current, filename, read, hash, now).0)
  {
    if ValidateFileType(filename, AllowedTypes) && read(ReaderFor(filename)).Parsed? {
      var sheet := read(ReaderFor(filename)).sheet;
      var cols := Normalize(sheet.columns);
      var owner := if kind == UserRows then Value(0) else GetUserIdSafely(current, s);
      if MissingColumns(RequiredColumns(kind), cols) == [] && owner.Value? {
        ImportRowsKeepValid(Context(kind, cols, owner.v, hash, now), s, sheet.rows);
      }
    }
  }

  // ---------------------------------------------------------------------
  // The response body
  // ---------------------------------------------------------------------

  datatype JsonValue = JText(text: string) | JCount(n: nat) | JRows(rows: seq<Line>)

  /** The keys of the response body. */
  datatype Key = Message | TotalRows | SuccessfulKey | FailedKey | SkippedDuplicates
               | SuccessfulImports | FailedImports

  function KeyName(k: Key): string {
    match k
    case Message => "message"
    case TotalRows => "total_rows"
    case SuccessfulKey => "successful"
    case FailedKey => "failed"
    case SkippedDuplicates => "skipped_duplicates"
    case SuccessfulImports => "successful_imports"
    case FailedImports => "failed_imports"
  }

  /** The dict display the handlers return, entry by entry as written: "skipped_duplicates" appears twice. */
  function ResponseDisplay(r: Response): seq<(Key, JsonValue)> {
    [(Message, JText("Import process completed")),
     (TotalRows, JCount(r.totalRows)),
     (SuccessfulKey, JCount(|r.successful|)),
     (FailedKey, JCount(|r.failed|)),
     (SkippedDuplicates, JCount(|r.skipped|)),
     (SuccessfulImports, JRows(r.successful)),
     (FailedImports, JRows(r.failed)),
     (SkippedDuplicates, JRows(r.skipped))]
  }

  /** Position of `key` in a dict's entries. */
  function KeyIndex(d: seq<(Key, JsonValue)>, key: Key): (r: Option<nat>)
    ensures r.Some? ==> r.value < |d| && d[r.value].0 == key
    ensures r.Some? ==> forall i :: 0 <= i < r.value ==> d[i].0 != key
    ensures r.None? ==> forall i :: 0 <= i < |d| ==> d[i].0 != key
  {
    FindIndex(d, (e: (Key, JsonValue)) => e.0 == key)
  }

  /** Python's dict display: a repeated key keeps its first position and takes its last value. */
  function DictOf(pairs: seq<(Key, JsonValue)>): (d: seq<(Key, JsonValue)>)
    ensures |d| <= |pairs|
    ensures forall i :: 0 <= i < |pairs| ==> exists j :: 0 <= j < |d| && d[j].0 == pairs[i].0
    ensures forall i, j :: 0 <= i < j < |d| ==> d[i].0 != d[j].0
    decreases |pairs|
  {
    if pairs == [] then []
    else
      var d := DictOf(pairs[..|pairs| - 1]);
      var (k, v) := pairs[|pairs| - 1];
      assert forall i :: 0 <= i < |pairs| - 1 ==> pairs[..|pairs| - 1][i] == pairs[i];
      match KeyIndex(d, k)
      case Some(i) =>
        var r := d[i := (k, v)];
        assert forall j :: 0 <= j < |d| ==> r[j].0 == d[j].0;
        r
      case None =>
        var r := d + [(k, v)];
        assert forall j :: 0 <= j < |d| ==> r[j] == d[j];
        assert r[|d|] == (k, v);
        r
  }

  /** The last value written for a key is the one the dict keeps, and the key is in the dict. */
  lemma LastValueWins(pairs: seq<(Key, JsonValue)>)
    requires pairs != []
    ensures var d := DictOf(pairs); var last := pairs[|pairs| - 1];
      (exists j :: 0 <= j < |d| && d[j] == last) &&
      forall j :: 0 <= j < |d| && d[j].0 == last.0 ==> d[j].1 == last.1
  {
    var d := DictOf(pairs[..|pairs| - 1]);
    var last := pairs[|pairs| - 1];
    match KeyIndex(d, last.0) {
      case Some(i) =>
        assert DictOf(pairs) == d[i := last];
        assert DictOf(pairs)[i] == last;
      case None =>
        assert DictOf(pairs) == d + [last];
        assert DictOf(pairs)[|d|] == last;
    }
  }

  /** In the response body "skipped_duplicates" holds the list of skipped rows, not their count. */
  lemma SkippedKeyHoldsList(r: Response)
    ensures var d := DictOf(ResponseDisplay(r));
      (exists j :: 0 <= j < |d| && d[j] == (SkippedDuplicates, JRows(r.skipped))) &&
      forall j :: 0 <= j < |d| && d[j].0 == SkippedDuplicates ==> d[j].1 == JRows(r.skipped)
  {
    LastValueWins(ResponseDisplay(r));
  }
}
