/** The Celery task bodies that read or change the store: notification and report
    counts over a snapshot, the monthly reset-token cleanup and the bulk book import. */
module Tasks {
  import opened Common
  import opened Models
  import opened Db
  import Books
  import Users
  import Auth

  /** What a task returns: its result dict, the `{"status": "error", "message": ...}` dict,
      or an exception that escapes the task (the Celery state FAILURE). */
  datatype Outcome<T> = Done(value: T) | Failed(message: string) | Raised

  const LibraryMissing: string := "Library not found"
  const UserMissing: string := "User not found"

  // ---------------------------------------------------------------------
  // send_bulk_notification
  // ---------------------------------------------------------------------

  function Listed(ids: seq<int>): User -> bool {
    (u: User) => u.id in ids
  }

  /** `User.id.in_(user_ids)`: the existing users whose id is listed. */
  function Recipients(s: Store, ids: seq<int>): (r: seq<User>)
    ensures forall u :: u in r <==> u in s.users && u.id in ids
  {
    Filter(s.users, Listed(ids))
  }

  /** `sent_to`. */
  function SendBulkNotification(s: Store, ids: seq<int>): nat {
    |Recipients(s, ids)|
  }

  ghost function UserIds(s: Store): set<int> {
    set u | u in s.users :: u.id as int
  }

  /** `sent_to` is the number of existing users whose id is listed: ids that name no user
      add nothing, and an id listed twice is counted once. */
  lemma {:induction false} BulkNotificationCountsListedUsers(s: Store, ids: seq<int>)
    requires Valid(s)
    ensures SendBulkNotification(s, ids) == |UserIds(s) * (set x | x in ids)|
  {
    FilterLength(s.users, Listed(ids));
    CountDistinctUsers(s.users, Listed(ids));
    assert UserIdsWhere(s.users, Listed(ids)) == UserIds(s) * (set x | x in ids);
  }

  // ---------------------------------------------------------------------
  // generate_library_report
  // ---------------------------------------------------------------------

  datatype BookEntry = BookEntry(id: nat, title: string, author: string)

  datatype LibraryReport = LibraryReport(libraryId: int, libraryName: string, totalBooks: nat,
                                         location: Option<string>, createdAt: nat, books: seq<BookEntry>)

  function Entry(b: Book): BookEntry {
    BookEntry(b.id, b.title, b.author)
  }

  function Entries(books: seq<Book>): (r: seq<BookEntry>)
    ensures |r| == |books|
    ensures forall k :: 0 <= k < |books| ==> r[k] == Entry(books[k])
  {
    seq(|books|, k requires 0 <= k < |books| => Entry(books[k]))
  }

  function GenerateLibraryReport(s: Store, libraryId: int): (r: Outcome<LibraryReport>)
    ensures !r.Raised?
    ensures r.Failed? <==> forall i :: 0 <= i < |s.libraries| ==> s.libraries[i].id != libraryId
    ensures r.Failed? ==> r.message == LibraryMissing
    ensures r.Done? ==> r.value.libraryId == libraryId && r.value.totalBooks == |r.value.books|
  {
    match LibraryWithId(s, libraryId)
    case None => Failed(LibraryMissing)
    case Some(i) =>
      var library := s.libraries[i];
      var books := BooksIn(s, library.id);
      Done(LibraryReport(libraryId, library.name, |books|, library.location, library.createdAt, Entries(books)))
  }

  /** The report has an entry for a book exactly when the book is assigned to the library. */
  lemma {:induction false} LibraryReportListsAssignedBooks(s: Store, libraryId: int, b: Book)
    requires Valid(s)
    requires GenerateLibraryReport(s, libraryId).Done?
    ensures b in s.books && (b.id, libraryId) in s.links ==> Entry(b) in GenerateLibraryReport(s, libraryId).value.books
    ensures forall e :: e in GenerateLibraryReport(s, libraryId).value.books ==>
      exists c :: c in s.books && (c.id, libraryId) in s.links && e == Entry(c)
  {
    var i := LibraryWithId(s, libraryId).value;
    var books := BooksIn(s, s.libraries[i].id);
    if b in s.books && (b.id, libraryId) in s.links {
      var k :| 0 <= k < |books| && books[k] == b;
      assert Entries(books)[k] == Entry(b);
    }
    forall e | e in Entries(books)
      ensures exists c :: c in s.books && (c.id, libraryId) in s.links && e == Entry(c)
    {
      var k :| 0 <= k < |books| && Entries(books)[k] == e;
      assert books[k] in books;
    }
  }

  /** After a successful assign, every library in the request reports the book. */
  lemma {:induction false} AssignedBookIsReported(s: Store, me: nat, bookId: int, ids: seq<int>, libraryId: int)
    requires Valid(s)
    requires Books.AssignSpec(s, me, bookId, ids).1.Ok? && libraryId in ids
    ensures var (t, r) := Books.AssignSpec(s, me, bookId, ids);
      GenerateLibraryReport(t, libraryId).Done? && Entry(r.value.book) in GenerateLibraryReport(t, libraryId).value.books
  {
    var (t, r) := Books.AssignSpec(s, me, bookId, ids);
    Books.AssignReplacesLibraries(s, me, bookId, ids);
    var k :| 0 <= k < |ids| && ids[k] == libraryId;
    assert Books.MissingLibrary(s, ids).None?;
    var j := LibraryWithId(s, ids[k]).value;
    assert t.libraries[j].id == libraryId;
    LibraryReportListsAssignedBooks(t, libraryId, r.value.book);
  }

  // ---------------------------------------------------------------------
  // generate_user_statistics
  // ---------------------------------------------------------------------

  datatype UserStats = UserStats(userId: int, username: string, totalBooks: nat, totalLibraries: nat,
                                 accountCreated: nat)

  function GenerateUserStatistics(s: Store, userId: int): (r: Outcome<UserStats>)
    ensures !r.Raised?
    ensures r.Failed? <==> forall i :: 0 <= i < |s.users| ==> s.users[i].id != userId
    ensures r.Failed? ==> r.message == UserMissing
    ensures r.Done? ==> r.value.userId == userId
    ensures r.Done? ==> exists i :: (0 <= i < |s.users| && s.users[i].id == userId &&
                                     r.value.username == s.users[i].username && r.value.accountCreated == s.users[i].createdAt)
    ensures r.Done? ==> r.value.totalBooks == Count(s.books, (b: Book) => b.userId == Some(userId))
    ensures r.Done? ==> r.value.totalLibraries == Count(s.libraries, (l: Library) => l.userId == Some(userId))
  {
    match UserWithId(s, userId)
    case None => Failed(UserMissing)
    case Some(i) =>
      var u := s.users[i];
      FilterLength(s.books, (b: Book) => b.userId == Some(u.id));
      FilterLength(s.libraries, (l: Library) => l.userId == Some(u.id));
      Done(UserStats(userId, u.username, |BooksOwnedBy(s.books, u.id)|, |LibrariesOwnedBy(s.libraries, u.id)|,
                     u.createdAt))
  }

  /** Creating a book adds one to its owner's `total_books` and leaves `total_libraries` alone. */
  lemma {:induction false} NewBookIsCounted(s: Store, me: nat, req: Books.BookCreate, now: nat)
    requires Valid(s) && UserWithId(s, me).Some?
    requires Books.CreateBookSpec(s, me, req, now).1.Ok?
    ensures var t := Books.CreateBookSpec(s, me, req, now).0;
      && GenerateUserStatistics(t, me).Done?
      && GenerateUserStatistics(t, me).value.totalBooks == GenerateUserStatistics(s, me).value.totalBooks + 1
      && GenerateUserStatistics(t, me).value.totalLibraries == GenerateUserStatistics(s, me).value.totalLibraries
  {
    Books.CreateBookOwnedByCaller(s, me, req, now);
    var (t, r) := Books.CreateBookSpec(s, me, req, now);
    assert t.books[..|t.books| - 1] == s.books;
    var i := UserWithId(s, me).value;
    assert UserWithId(t, me) == UserWithId(s, me);
  }

  // ---------------------------------------------------------------------
  // send_daily_reminders
  // ---------------------------------------------------------------------

  const Active: User -> bool := (u: User) => u.isActive

  function OwnsBooks(s: Store): User -> bool {
    (u: User) => |BooksOwnedBy(s.books, u.id)| > 0
  }

  /** Who gets a reminder: an active user with at least one book. */
  function Reminded(s: Store): User -> bool {
    (u: User) => u.isActive && |BooksOwnedBy(s.books, u.id)| > 0
  }

  /** The query keeps the active users; the loop counts those that own a book. */
  method SendDailyReminders(s: Store) returns (sent: nat)
    ensures sent == Count(s.users, Reminded(s))
  {
    var users := Filter(s.users, Active);
    sent := 0;
    var k := 0;
    while k < |users|
      invariant 0 <= k <= |users|
      invariant sent == Count(users[..k], OwnsBooks(s))
    {
      assert users[..k + 1][..k] == users[..k];
      if |BooksOwnedBy(s.books, users[k].id)| > 0 {
        sent := sent + 1;
      }
      k := k + 1;
    }
    assert users[..k] == users;
    CountOfFilter(s.users, Active, OwnsBooks(s), Reminded(s));
  }

  /** `reminders_sent` is the number of distinct active users owning a book, and is zero
      exactly when no active user owns one. */
  lemma {:induction false} RemindersCountActiveOwners(s: Store)
    requires Valid(s)
    ensures Count(s.users, Reminded(s)) ==
      |set u | u in s.users && u.isActive && |BooksOwnedBy(s.books, u.id)| > 0 :: u.id|
    ensures Count(s.users, Reminded(s)) == 0 <==>
      forall i :: 0 <= i < |s.users| && s.users[i].isActive ==> BooksOwnedBy(s.books, s.users[i].id) == []
  {
    CountDistinctUsers(s.users, Reminded(s));
    assert UserIdsWhere(s.users, Reminded(s)) ==
      set u | u in s.users && u.isActive && |BooksOwnedBy(s.books, u.id)| > 0 :: u.id;
    CountZeroIff(s.users, Reminded(s));
  }

  // ---------------------------------------------------------------------
  // cleanup_expired_tokens
  // ---------------------------------------------------------------------

  /** `reset_token_expires < now AND reset_token IS NOT NULL` (a NULL expiry never compares). */
  function ExpiredAt(now: nat): User -> bool {
    (u: User) => u.resetToken.Some? && u.resetTokenExpires.Some? && u.resetTokenExpires.value < now
  }

  function Cleared(u: User): User {
    u.(resetToken := None, resetTokenExpires := None)
  }

  function CleanedUsers(users: seq<User>, now: nat): (r: seq<User>)
    ensures |r| == |users|
    ensures forall i :: 0 <= i < |users| ==> r[i] == if ExpiredAt(now)(users[i]) then Cleared(users[i]) else users[i]
  {
    seq(|users|, i requires 0 <= i < |users| => if ExpiredAt(now)(users[i]) then Cleared(users[i]) else users[i])
  }

  /** The store after the commit and `tokens_cleaned`. */
  function CleanupSpec(s: Store, now: nat): (Store, nat) {
    (s.(users := CleanedUsers(s.users, now)), Count(s.users, ExpiredAt(now)))
  }

  method CleanupExpiredTokens(db: Session, now: nat) returns (cleaned: nat)
    modifies db
    ensures (db.State(), cleaned) == CleanupSpec(old(db.State()), now)
  {
    ghost var before := db.users;
    cleaned := 0;
    var k := 0;
    while k < |db.users|
      invariant |db.users| == |before| && 0 <= k <= |before|
      invariant forall i :: 0 <= i < k ==>
        db.users[i] == if ExpiredAt(now)(before[i]) then Cleared(before[i]) else before[i]
      invariant forall i :: k <= i < |before| ==> db.users[i] == before[i]
      invariant cleaned == Count(before[..k], ExpiredAt(now))
      invariant db.State() == old(db.State()).(users := db.users)
    {
      assert before[..k + 1][..k] == before[..k];
      if ExpiredAt(now)(db.users[k]) {
        db.users := db.users[k := Cleared(db.users[k])];
        cleaned := cleaned + 1;
      }
      k := k + 1;
    }
    assert before[..k] == before;
    assert db.users == CleanedUsers(before, now);
  }

  /** Cleanup clears both token columns of exactly the users whose token has expired,
      `tokens_cleaned` is their number, live tokens and everything else stay, and the
      invariants hold. */
  lemma {:induction false} CleanupClearsExactlyExpired(s: Store, now: nat)
    requires Valid(s)
    ensures var (t, cleaned) := CleanupSpec(s, now);
      && |t.users| == |s.users|
      && (forall i :: 0 <= i < |s.users| ==>
            && t.users[i].resetToken.None? == (s.users[i].resetToken.None? || ExpiredAt(now)(s.users[i]))
            && t.users[i].resetToken.None? == t.users[i].resetTokenExpires.None?
            && t.users[i].(resetToken := None, resetTokenExpires := None) == Cleared(s.users[i]))
      && (forall i :: 0 <= i < |s.users| && !ExpiredAt(now)(s.users[i]) ==> t.users[i] == s.users[i])
      && cleaned == |set u | u in s.users && ExpiredAt(now)(u) :: u.id|
      && t.books == s.books && t.libraries == s.libraries && t.links == s.links
      && Valid(t)
  {
    CountDistinctUsers(s.users, ExpiredAt(now));
    CleanupKeepsValid(s, now);
  }

  /** Cleanup leaves ids, emails and usernames alone and clears the token columns together. */
  lemma CleanupKeepsValid(s: Store, now: nat)
    requires Valid(s)
    ensures Valid(CleanupSpec(s, now).0)
  {
    var t := CleanupSpec(s, now).0;
    assert forall i :: 0 <= i < |t.users| ==>
      t.users[i].id == s.users[i].id && t.users[i].email == s.users[i].email && t.users[i].username == s.users[i].username;
  }

  /** A second cleanup with the same clock cleans nothing and changes nothing. */
  lemma {:induction false} CleanupIdempotent(s: Store, now: nat)
    ensures var t := CleanupSpec(s, now).0;
      CleanupSpec(t, now) == (t, 0)
  {
    var t := CleanupSpec(s, now).0;
    assert forall i :: 0 <= i < |t.users| ==> !ExpiredAt(now)(t.users[i]);
    CountZeroIff(t.users, ExpiredAt(now));
    assert CleanedUsers(t.users, now) == t.users;
  }

  /** The token lifecycle end to end: a token that has expired by the time cleanup runs is
      gone, so reset-password with it is refused as "Invalid token" rather than "Token has
      expired", and nothing changes. */
  lemma {:induction false} CleanedTokenCannotReset(s: Store, now: nat, i: nat, token: string, newPassword: string,
                                                   hash: string -> string, later: nat)
    requires Valid(s) && i < |s.users| && ExpiredAt(now)(s.users[i])
    ensures var t := CleanupSpec(s, now).0;
      var decoded := Some(Auth.Claims(Some(s.users[i].email), Some("reset")));
      Users.ResetPasswordSpec(t, token, newPassword, decoded, hash, later) == (t, Err(Users.WrongToken))
  {
    CleanupClearsExactlyExpired(s, now);
    var t := CleanupSpec(s, now).0;
    var k := UserWithEmail(t, s.users[i].email).value;
    assert t.users[i].email == s.users[i].email;
    assert k == i;
  }

  // ---------------------------------------------------------------------
  // import_books_bulk
  // ---------------------------------------------------------------------

  /** A JSON value of a record. */
  datatype Field = Null | Text(string) | Number(int)

  /** One element of `books_data`. */
  type BookRecord = map<string, Field>

  datatype BulkResult = BulkResult(imported: nat, failed: nat)

  /** `book_data.get(key)`. */
  function Get(rec: BookRecord, key: string): Field {
    if key in rec then rec[key] else Null
  }

  /** A value stored in a TEXT column (SQLite turns a number into its decimal text). */
  function AsText(f: Field): Option<string> {
    match f
    case Null => None
    case Text(t) => Some(t)
    case Number(n) => Some(IntToString(n))
  }

  /** A value stored in an INTEGER column (SQLite turns integer-looking text into a number). */
  function AsYear(f: Field): Option<int> {
    match f
    case Null => None
    case Text(t) => ParseInt(t)
    case Number(n) => Some(n)
  }

  /** `book_data["title"]` and `book_data["author"]` do not raise KeyError. */
  const HasRequiredKeys: BookRecord -> bool := (rec: BookRecord) => "title" in rec && "author" in rec

  const LacksRequiredKey: BookRecord -> bool := (rec: BookRecord) => !("title" in rec && "author" in rec)

  /** A title or author that is JSON null, which the NOT NULL columns refuse at commit. */
  predicate NullRequired(rec: BookRecord) {
    Get(rec, "title") == Null || Get(rec, "author") == Null
  }

  function RowOf(rec: BookRecord, userId: int): NewRow {
    var title := AsText(Get(rec, "title"));
    var author := AsText(Get(rec, "author"));
    NewBook(if title.Some? then title.value else "", if author.Some? then author.value else "",
            AsText(Get(rec, "isbn")), AsText(Get(rec, "description")), AsYear(Get(rec, "published_year")),
            Some(userId))
  }

  function Rows(accepted: seq<BookRecord>, userId: int): (r: seq<NewRow>)
    ensures |r| == |accepted|
    ensures forall k :: 0 <= k < |r| ==> r[k] == RowOf(accepted[k], userId)
  {
    seq(|accepted|, k requires 0 <= k < |accepted| => RowOf(accepted[k], userId))
  }

  /** `db.add(...)` of each row, before the commit. */
  function AddAll(s: Store, rows: seq<NewRow>, now: nat): Store {
    if rows == [] then s else Added(AddAll(s, rows[..|rows| - 1], now), rows[|rows| - 1], now)
  }

  /** Adding book rows appends one book per row, under consecutive fresh ids. */
  lemma {:induction false} AddAllBooks(s: Store, rows: seq<NewRow>, now: nat)
    requires forall k :: 0 <= k < |rows| ==> rows[k].NewBook?
    ensures var t := AddAll(s, rows, now);
      && |t.books| == |s.books| + |rows|
      && t.books[..|s.books|] == s.books
      && (forall k :: 0 <= k < |rows| ==>
            t.books[|s.books| + k] == Book(s.nextBookId + k, rows[k].title, rows[k].author, rows[k].isbn,
                                           rows[k].description, rows[k].publishedYear, now, rows[k].owner))
      && t.nextBookId == s.nextBookId + |rows|
      && t.users == s.users && t.libraries == s.libraries && t.links == s.links
      && t.nextUserId == s.nextUserId && t.nextLibraryId == s.nextLibraryId
  {
    if rows != [] {
      AddAllBooks(s, rows[..|rows| - 1], now);
    }
  }

  function ImportBooksBulkSpec(s: Store, records: seq<BookRecord>, userId: int, now: nat): (Store, Outcome<BulkResult>) {
    var accepted := Filter(records, HasRequiredKeys);
    var after := AddAll(s, Rows(accepted, userId), now);
    if AnyNullRequired(accepted) || !Constraints(after) then (s, Raised)
    else (after, Done(BulkResult(|accepted|, |records| - |accepted|)))
  }

  predicate AnyNullRequired(accepted: seq<BookRecord>) {
    exists k :: 0 <= k < |accepted| && NullRequired(accepted[k])
  }

  /** One more record: the accepted records, their rows and the pending store grow by at most one. */
  lemma {:induction false} BulkStep(s: Store, records: seq<BookRecord>, k: nat, userId: int, now: nat)
    requires k < |records|
    ensures var accepted := Filter(records[..k], HasRequiredKeys);
      var rec := records[k];
      && Filter(records[..k + 1], HasRequiredKeys) == accepted + (if HasRequiredKeys(rec) then [rec] else [])
      && (HasRequiredKeys(rec) ==>
            && AddAll(s, Rows(accepted + [rec], userId), now) == Added(AddAll(s, Rows(accepted, userId), now), RowOf(rec, userId), now)
            && (AnyNullRequired(accepted + [rec]) <==> AnyNullRequired(accepted) || NullRequired(rec)))
  {
    assert records[..k + 1][..k] == records[..k];
    var accepted := Filter(records[..k], HasRequiredKeys);
    var rec := records[k];
    if HasRequiredKeys(rec) {
      var rows := Rows(accepted + [rec], userId);
      assert rows[..|rows| - 1] == Rows(accepted, userId);
      assert (accepted + [rec])[|accepted|] == rec;
      if AnyNullRequired(accepted) {
        var j :| 0 <= j < |accepted| && NullRequired(accepted[j]);
        assert (accepted + [rec])[j] == accepted[j];
      }
    }
  }

  /** What the loop of `import_books_bulk` has done after the first `k` records: the rows
      it staged on the pending store, how many records it took and skipped, and whether a
      taken record has a null title or author. */
  predicate Tallied(s: Store, records: seq<BookRecord>, k: nat, userId: int, now: nat,
                    pending: Store, imported: nat, failed: nat, nullSeen: bool)
    requires k <= |records|
  {
    var accepted := Filter(records[..k], HasRequiredKeys);
    && pending == AddAll(s, Rows(accepted, userId), now)
    && imported == |accepted| && imported + failed == k
    && nullSeen == AnyNullRequired(accepted)
  }

  /** One more record keeps the tally. */
  lemma TallyStep(s: Store, records: seq<BookRecord>, k: nat, userId: int, now: nat,
                  pending: Store, imported: nat, failed: nat, nullSeen: bool)
    requires k < |records|
    requires Tallied(s, records, k, userId, now, pending, imported, failed, nullSeen)
    ensures var rec := records[k];
      if HasRequiredKeys(rec) then
        Tallied(s, records, k + 1, userId, now, Added(pending, RowOf(rec, userId), now),
                imported + 1, failed, nullSeen || NullRequired(rec))
      else Tallied(s, records, k + 1, userId, now, pending, imported, failed + 1, nullSeen)
  {
    BulkStep(s, records, k, userId, now);
    var accepted := Filter(records[..k], HasRequiredKeys);
    var rec := records[k];
    if HasRequiredKeys(rec) {
      var more := accepted + [rec];
      assert Filter(records[..k + 1], HasRequiredKeys) == more;
      assert |more| == |accepted| + 1;
    } else {
      assert accepted + [] == accepted;
      assert Filter(records[..k + 1], HasRequiredKeys) == accepted;
    }
  }

  /** The loop of `import_books_bulk`, run on the session's state before the commit. */
  method BulkTally(s: Store, records: seq<BookRecord>, userId: int, now: nat)
    returns (pending: Store, imported: nat, failed: nat, nullSeen: bool)
    ensures var accepted := Filter(records, HasRequiredKeys);
      && pending == AddAll(s, Rows(accepted, userId), now)
      && imported == |accepted| && failed == |records| - |accepted|
      && nullSeen == AnyNullRequired(accepted)
  {
    imported, failed := 0, 0;
    pending := s;
    nullSeen := false;
    var k := 0;
    while k < |records|
      invariant k <= |records|
      invariant Tallied(s, records, k, userId, now, pending, imported, failed, nullSeen)
    {
      var rec := records[k];
      TallyStep(s, records, k, userId, now, pending, imported, failed, nullSeen);
      if HasRequiredKeys(rec) {
        pending := Added(pending, RowOf(rec, userId), now);
        nullSeen := nullSeen || NullRequired(rec);
        imported := imported + 1;
      } else {
        failed := failed + 1;
      }
      k := k + 1;
    }
    assert records[..k] == records;
  }

  method ImportBooksBulk(db: Session, records: seq<BookRecord>, userId: int, now: nat) returns (r: Outcome<BulkResult>)
    modifies db
    ensures (db.State(), r) == ImportBooksBulkSpec(old(db.State()), records, userId, now)
  {
    var pending, imported, failed, nullSeen := BulkTally(db.State(), records, userId, now);
    if nullSeen || !Constraints(pending) {
      return Raised;
    }
    db.Save(pending);
    r := Done(BulkResult(imported, failed));
  }

  /** Every record is counted once: `imported + failed == len(books_data)`, and the failed
      ones are exactly the records lacking a "title" or "author" key. */
  lemma {:induction false} BulkCountsEveryRecord(s: Store, records: seq<BookRecord>, userId: int, now: nat)
    requires ImportBooksBulkSpec(s, records, userId, now).1.Done?
    ensures var res := ImportBooksBulkSpec(s, records, userId, now).1.value;
      res.imported + res.failed == |records| && res.failed == Count(records, LacksRequiredKey)
  {
    FilterLength(records, HasRequiredKeys);
    CountComplement(records, HasRequiredKeys, LacksRequiredKey);
  }

  /** A book built from a record of `books_data` by the task called with `userId`: it belongs to
      `userId`, takes title and author from the record, and has no ISBN, description or year
      when the record lacks that key. */
  predicate FromRecord(b: Book, rec: BookRecord, userId: int) {
    && b.userId == Some(userId)
    && "title" in rec && "author" in rec
    && Some(b.title) == AsText(rec["title"]) && Some(b.author) == AsText(rec["author"])
    && ("isbn" !in rec ==> b.isbn.None?)
    && ("description" !in rec ==> b.description.None?)
    && ("published_year" !in rec ==> b.publishedYear.None?)
  }

  /** The books a successful import appends are one per accepted record, in order, each built
      from its record under a fresh id; nothing else changes. */
  lemma {:induction false} BulkBooksBelongToUser(s: Store, records: seq<BookRecord>, userId: int, now: nat)
    requires Valid(s)
    requires ImportBooksBulkSpec(s, records, userId, now).1.Done?
    ensures var (t, r) := ImportBooksBulkSpec(s, records, userId, now);
      var accepted := Filter(records, HasRequiredKeys);
      && |t.books| == |s.books| + r.value.imported
      && t.books[..|s.books|] == s.books
      && (var added := t.books[|s.books|..];
          forall k :: 0 <= k < |added| ==> FromRecord(added[k], accepted[k], userId) && !HasBook(s, added[k].id))
      && t.users == s.users && t.libraries == s.libraries && t.links == s.links
  {
    var accepted := Filter(records, HasRequiredKeys);
    var rows := Rows(accepted, userId);
    AddAllBooks(s, rows, now);
    var t := AddAll(s, rows, now);
    assert ImportBooksBulkSpec(s, records, userId, now) == (t, Done(BulkResult(|accepted|, |records| - |accepted|)));
    var added := t.books[|s.books|..];
    forall k | 0 <= k < |added|
      ensures FromRecord(added[k], accepted[k], userId) && !HasBook(s, added[k].id)
    {
      assert rows[k] == RowOf(accepted[k], userId);
      assert added[k] == t.books[|s.books| + k];
      assert accepted[k] in accepted;
      assert !NullRequired(accepted[k]);
    }
  }

  /** A successful bulk import keeps the invariants: the new ids follow the old ones and the
      association rows are untouched. */
  lemma BulkKeepsValid(s: Store, records: seq<BookRecord>, userId: int, now: nat)
    requires Valid(s)
    requires ImportBooksBulkSpec(s, records, userId, now).1.Done?
    ensures Valid(ImportBooksBulkSpec(s, records, userId, now).0)
  {
    AddedBooksKeepValid(s, Rows(Filter(records, HasRequiredKeys), userId), now);
  }

  /** Book rows added and committed together keep the invariants when the commit succeeds. */
  lemma AddedBooksKeepValid(s: Store, rows: seq<NewRow>, now: nat)
    requires Valid(s) && Constraints(AddAll(s, rows, now))
    requires forall k :: 0 <= k < |rows| ==> rows[k].NewBook?
    ensures Valid(AddAll(s, rows, now))
  {
    AddAllBooks(s, rows, now);
    var t := AddAll(s, rows, now);
    forall a | |s.books| <= a < |t.books| ensures t.books[a].id == s.nextBookId + (a - |s.books|) {
      var k := a - |s.books|;
      assert k < |rows| && rows[k].NewBook?;
      assert t.books[|s.books| + k] == Book(s.nextBookId + k, rows[k].title, rows[k].author, rows[k].isbn,
                                            rows[k].description, rows[k].publishedYear, now, rows[k].owner);
    }
    forall a | 0 <= a < |s.books| ensures t.books[a] == s.books[a] {
      assert t.books[..|s.books|][a] == t.books[a];
    }
    forall l | l in t.links ensures HasBook(t, l.0) {
      var j :| 0 <= j < |s.books| && s.books[j].id == l.0;
      assert t.books[j] == s.books[j];
    }
  }

  /** The whole batch is one commit: two accepted records with the same ISBN abort the task
      and not even the first of them is kept. */
  lemma {:induction false} BulkDuplicateIsbnAbortsAll(s: Store, records: seq<BookRecord>, userId: int, now: nat,
                                                      i: nat, j: nat)
    requires var accepted := Filter(records, HasRequiredKeys);
      i < j < |accepted| && AsText(Get(accepted[i], "isbn")).Some?
      && AsText(Get(accepted[i], "isbn")) == AsText(Get(accepted[j], "isbn"))
    ensures ImportBooksBulkSpec(s, records, userId, now) == (s, Raised)
  {
    var accepted := Filter(records, HasRequiredKeys);
    var rows := Rows(accepted, userId);
    AddAllBooks(s, rows, now);
    var t := AddAll(s, rows, now);
    assert t.books[|s.books| + i].isbn == t.books[|s.books| + j].isbn;
  }
}
