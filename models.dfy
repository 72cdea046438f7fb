/** The relational store behind the API: the `users`, `libraries` and `books`
    tables and the `book_libraries` association, with the constraints the
    schema declares and the queries the handlers issue. */
module Models {
  import opened Common

  /** A row of `users`. Timestamps are seconds; a missing reset token is `None`. */
  datatype User = User(
    id: nat,
    email: string,
    username: string,
    hashedPassword: string,
    fullName: Option<string>,
    isActive: bool,
    isVerified: bool,
    createdAt: nat,
    resetToken: Option<string>,
    resetTokenExpires: Option<nat>)

  /** A row of `libraries`. `userId` is a foreign key SQLite does not enforce. */
  datatype Library = Library(
    id: nat,
    name: string,
    location: Option<string>,
    description: Option<string>,
    createdAt: nat,
    userId: Option<int>)

  /** A row of `books`. */
  datatype Book = Book(
    id: nat,
    title: string,
    author: string,
    isbn: Option<string>,
    description: Option<string>,
    publishedYear: Option<int>,
    createdAt: nat,
    userId: Option<int>)

  /** A row of `book_libraries`, keyed by the pair (book id, library id). */
  type Link = (nat, nat)

  /** The whole database. Tables are kept in row order, which is id order. */
  datatype Store = Store(
    users: seq<User>,
    books: seq<Book>,
    libraries: seq<Library>,
    links: set<Link>,
    nextUserId: nat,
    nextBookId: nat,
    nextLibraryId: nat)

  const EmptyStore: Store := Store([], [], [], {}, 1, 1, 1)

  // ---------------------------------------------------------------------
  // Constraints the database enforces at commit (UNIQUE columns)
  // ---------------------------------------------------------------------

  predicate UniqueEmails(users: seq<User>) {
    forall i, j :: 0 <= i < j < |users| ==> users[i].email != users[j].email
  }

  predicate UniqueUsernames(users: seq<User>) {
    forall i, j :: 0 <= i < j < |users| ==> users[i].username != users[j].username
  }

  /** `isbn` is UNIQUE but nullable: only present ISBNs must differ. */
  predicate UniqueIsbns(books: seq<Book>) {
    forall i, j :: 0 <= i < j < |books| && books[i].isbn.Some? ==> books[i].isbn != books[j].isbn
  }

  /** What a commit checks; a commit that would break it raises IntegrityError. */
  predicate Constraints(s: Store) {
    UniqueEmails(s.users) && UniqueUsernames(s.users) && UniqueIsbns(s.books)
  }

  // ---------------------------------------------------------------------
  // Invariants the application keeps on top of the declared constraints
  // ---------------------------------------------------------------------

  ghost predicate UserIdsBelow(users: seq<User>, next: nat) {
    (forall i, j :: 0 <= i < j < |users| ==> users[i].id < users[j].id) &&
    (forall i :: 0 <= i < |users| ==> users[i].id < next)
  }

  ghost predicate BookIdsBelow(books: seq<Book>, next: nat) {
    (forall i, j :: 0 <= i < j < |books| ==> books[i].id < books[j].id) &&
    (forall i :: 0 <= i < |books| ==> books[i].id < next)
  }

  ghost predicate LibraryIdsBelow(libraries: seq<Library>, next: nat) {
    (forall i, j :: 0 <= i < j < |libraries| ==> libraries[i].id < libraries[j].id) &&
    (forall i :: 0 <= i < |libraries| ==> libraries[i].id < next)
  }

  predicate HasBook(s: Store, id: nat) {
    exists i :: 0 <= i < |s.books| && s.books[i].id == id
  }

  predicate HasLibrary(s: Store, id: nat) {
    exists i :: 0 <= i < |s.libraries| && s.libraries[i].id == id
  }

  /** Every association row names an existing book and library. */
  ghost predicate LinksResolve(s: Store) {
    forall l :: l in s.links ==> HasBook(s, l.0) && HasLibrary(s, l.1)
  }

  /** The two reset-token columns are set together and cleared together. */
  ghost predicate TokensPaired(users: seq<User>) {
    forall i :: 0 <= i < |users| ==> (users[i].resetToken.Some? <==> users[i].resetTokenExpires.Some?)
  }

  ghost predicate Valid(s: Store) {
    && Constraints(s)
    && UserIdsBelow(s.users, s.nextUserId)
    && BookIdsBelow(s.books, s.nextBookId)
    && LibraryIdsBelow(s.libraries, s.nextLibraryId)
    && LinksResolve(s)
    && TokensPaired(s.users)
  }

  // ---------------------------------------------------------------------
  // Queries (`db.query(...).filter(...).first()`), as row indices
  // ---------------------------------------------------------------------

  function UserWithEmail(s: Store, email: string): (r: Option<nat>)
    ensures r.Some? ==> r.value < |s.users| && s.users[r.value].email == email
    ensures r.None? <==> forall i :: 0 <= i < |s.users| ==> s.users[i].email != email
  {
    FindIndex(s.users, (u: User) => u.email == email)
  }

  function UserWithUsername(s: Store, username: string): (r: Option<nat>)
    ensures r.Some? ==> r.value < |s.users| && s.users[r.value].username == username
    ensures r.None? <==> forall i :: 0 <= i < |s.users| ==> s.users[i].username != username
  {
    FindIndex(s.users, (u: User) => u.username == username)
  }

  function UserWithId(s: Store, id: int): (r: Option<nat>)
    ensures r.Some? ==> r.value < |s.users| && s.users[r.value].id == id
    ensures r.None? <==> forall i :: 0 <= i < |s.users| ==> s.users[i].id != id
  {
    FindIndex(s.users, (u: User) => u.id == id)
  }

  function BookWithIsbn(s: Store, isbn: string): (r: Option<nat>)
    ensures r.Some? ==> r.value < |s.books| && s.books[r.value].isbn == Some(isbn)
    ensures r.None? <==> forall i :: 0 <= i < |s.books| ==> s.books[i].isbn != Some(isbn)
  {
    FindIndex(s.books, (b: Book) => b.isbn == Some(isbn))
  }

  /** The book lookup every book handler uses: by id AND owned by the caller. */
  function OwnedBook(s: Store, id: int, owner: nat): (r: Option<nat>)
    ensures r.Some? ==> r.value < |s.books| && s.books[r.value].id == id && s.books[r.value].userId == Some(owner)
    ensures r.None? <==> forall i :: 0 <= i < |s.books| ==> !(s.books[i].id == id && s.books[i].userId == Some(owner))
  {
    FindIndex(s.books, (b: Book) => b.id == id && b.userId == Some(owner))
  }

  function LibraryWithId(s: Store, id: int): (r: Option<nat>)
    ensures r.Some? ==> r.value < |s.libraries| && s.libraries[r.value].id == id
    ensures r.None? <==> forall i :: 0 <= i < |s.libraries| ==> s.libraries[i].id != id
  {
    FindIndex(s.libraries, (l: Library) => l.id == id)
  }

  function LibraryWithName(s: Store, name: string): (r: Option<nat>)
    ensures r.Some? ==> r.value < |s.libraries| && s.libraries[r.value].name == name
    ensures r.None? <==> forall i :: 0 <= i < |s.libraries| ==> s.libraries[i].name != name
  {
    FindIndex(s.libraries, (l: Library) => l.name == name)
  }

  /** The books assigned to a library (`library.books`), in table order. */
  function BooksIn(s: Store, libraryId: nat): (r: seq<Book>)
    ensures forall b :: b in r <==> b in s.books && (b.id, libraryId) in s.links
  {
    Filter(s.books, (b: Book) => (b.id, libraryId) in s.links)
  }

  /** The libraries a book is assigned to (`book.libraries`), in table order. */
  function LibrariesOf(s: Store, bookId: nat): (r: seq<Library>)
    ensures forall l :: l in r <==> l in s.libraries && (bookId, l.id) in s.links
  {
    Filter(s.libraries, (l: Library) => (bookId, l.id) in s.links)
  }

  /** `user.books`: the books whose owner column is this user. */
  function BooksOwnedBy(books: seq<Book>, userId: nat): (r: seq<Book>)
    ensures forall b :: b in r <==> b in books && b.userId == Some(userId)
  {
    Filter(books, (b: Book) => b.userId == Some(userId))
  }

  /** `user.libraries`: the libraries whose owner column is this user. */
  function LibrariesOwnedBy(libraries: seq<Library>, userId: nat): (r: seq<Library>)
    ensures forall l :: l in r <==> l in libraries && l.userId == Some(userId)
  {
    Filter(libraries, (l: Library) => l.userId == Some(userId))
  }

  /** The ids of the users that satisfy `p`. */
  ghost function UserIdsWhere(users: seq<User>, p: User -> bool): set<nat> {
    set u | u in users && p(u) :: u.id
  }

  /** Appending one user adds its id when it satisfies `p`, and nothing else. */
  lemma UserIdsWhereSnoc(rest: seq<User>, last: User, p: User -> bool)
    ensures UserIdsWhere(rest + [last], p) == UserIdsWhere(rest, p) + (if p(last) then {last.id} else {})
  {
    var before, after := UserIdsWhere(rest, p), UserIdsWhere(rest + [last], p);
    forall x | x in before ensures x in after {
      var u :| u in rest && p(u) && u.id == x;
      assert u in rest + [last];
    }
    forall x | x in after ensures x in before || (p(last) && x == last.id) {
      var u :| u in rest + [last] && p(u) && u.id == x;
      if u != last {
        assert u in rest;
      }
    }
    if p(last) {
      assert last in rest + [last];
    }
  }

  /** Since ids are unique, counting the rows that satisfy `p` counts distinct users. */
  lemma {:induction false} CountDistinctUsers(users: seq<User>, p: User -> bool)
    requires forall i, j :: 0 <= i < j < |users| ==> users[i].id < users[j].id
    ensures Count(users, p) == |UserIdsWhere(users, p)|
  {
    if users != [] {
      var rest, last := users[..|users| - 1], users[|users| - 1];
      CountDistinctUsers(rest, p);
      assert users == rest + [last];
      UserIdsWhereSnoc(rest, last, p);
      LastIdIsNew(users, p);
    }
  }

  /** With ascending ids, the last user's id is not among the ids of the users before it. */
  lemma LastIdIsNew(users: seq<User>, p: User -> bool)
    requires users != []
    requires forall i, j :: 0 <= i < j < |users| ==> users[i].id < users[j].id
    ensures users[|users| - 1].id !in UserIdsWhere(users[..|users| - 1], p)
  {
    var rest := users[..|users| - 1];
    forall x | x in UserIdsWhere(rest, p) ensures x < users[|users| - 1].id {
      var u :| u in rest && p(u) && u.id == x;
      var k :| 0 <= k < |rest| && rest[k] == u;
      assert users[k] == u;
    }
  }



  // ---------------------------------------------------------------------
  // Inserting a row: `db.add(row); db.commit()`
  // ---------------------------------------------------------------------

  /** A row about to be added, before the database gives it an id. */
  datatype NewRow =
    | NewBook(title: string, author: string, isbn: Option<string>, description: Option<string>,
              publishedYear: Option<int>, owner: Option<int>)
    | NewLibrary(name: string, location: Option<string>, description: Option<string>, owner: Option<int>)
    | NewAccount(email: string, username: string, hashedPassword: string, fullName: Option<string>,
                 isActive: bool, isVerified: bool)

  /** The store with `row` appended under the next id (before the commit's check). */
  function Added(s: Store, row: NewRow, now: nat): Store {
    match row
    case NewBook(t, a, i, d, y, o) =>
      s.(books := s.books + [Book(s.nextBookId, t, a, i, d, y, now, o)], nextBookId := s.nextBookId + 1)
    case NewLibrary(n, l, d, o) =>
      s.(libraries := s.libraries + [Library(s.nextLibraryId, n, l, d, now, o)], nextLibraryId := s.nextLibraryId + 1)
    case NewAccount(e, u, h, f, act, ver) =>
      s.(users := s.users + [User(s.nextUserId, e, u, h, f, act, ver, now, None, None)], nextUserId := s.nextUserId + 1)
  }

  /** The id the database assigns to `row`. */
  function NextId(s: Store, row: NewRow): nat {
    match row
    case NewBook(_, _, _, _, _, _) => s.nextBookId
    case NewLibrary(_, _, _, _) => s.nextLibraryId
    case NewAccount(_, _, _, _, _, _) => s.nextUserId
  }

  /** Add and commit: the new id, or `None` (IntegrityError, rolled back, nothing changed). */
  function Insert(s: Store, row: NewRow, now: nat): (r: (Store, Option<nat>))
    ensures r.1.Some? ==> r.0 == Added(s, row, now) && r.1.value == NextId(s, row)
    ensures r.1.None? ==> r.0 == s
  {
    var after := Added(s, row, now);
    if Constraints(after) then (after, Some(NextId(s, row))) else (s, None)
  }

  /** An insert commits exactly when the new row breaks no UNIQUE constraint. */
  lemma InsertCommitsIff(s: Store, row: NewRow, now: nat)
    requires Valid(s)
    ensures Insert(s, row, now).1.Some? <==>
      match row
      case NewBook(_, _, isbn, _, _, _) => isbn.None? || BookWithIsbn(s, isbn.value).None?
      case NewLibrary(_, _, _, _) => true
      case NewAccount(e, u, _, _, _, _) => UserWithEmail(s, e).None? && UserWithUsername(s, u).None?
  {
    var after := Added(s, row, now);
    match row {
      case NewBook(_, _, isbn, _, _, _) =>
        if isbn.Some? && BookWithIsbn(s, isbn.value).Some? {
          var k := BookWithIsbn(s, isbn.value).value;
          assert after.books[k].isbn == after.books[|s.books|].isbn;
        }
      case NewLibrary(_, _, _, _) =>
      case NewAccount(e, u, _, _, _, _) =>
        if UserWithEmail(s, e).Some? {
          var k := UserWithEmail(s, e).value;
          assert after.users[k].email == after.users[|s.users|].email;
        } else if UserWithUsername(s, u).Some? {
          var k := UserWithUsername(s, u).value;
          assert after.users[k].username == after.users[|s.users|].username;
        }
    }
  }

  /** Inserting never breaks the store's invariants. */
  lemma InsertKeepsValid(s: Store, row: NewRow, now: nat)
    requires Valid(s)
    ensures Valid(Insert(s, row, now).0)
  {
    if Insert(s, row, now).1.Some? {
      AddedKeepsRows(s, row, now);
    }
  }

  /** Adding a row keeps every existing book and library. */
  lemma AddedKeepsRows(s: Store, row: NewRow, now: nat)
    ensures var t := Added(s, row, now);
      && (forall b :: HasBook(s, b) ==> HasBook(t, b))
      && (forall l :: HasLibrary(s, l) ==> HasLibrary(t, l))
  {
    var t := Added(s, row, now);
    forall b | HasBook(s, b) ensures HasBook(t, b) {
      var i :| 0 <= i < |s.books| && s.books[i].id == b;
      assert t.books[i].id == b;
    }
    forall l | HasLibrary(s, l) ensures HasLibrary(t, l) {
      var i :| 0 <= i < |s.libraries| && s.libraries[i].id == l;
      assert t.libraries[i].id == l;
    }
  }

  // ---------------------------------------------------------------------
  // Deleting a row; SQLAlchemy also deletes its `book_libraries` rows
  // ---------------------------------------------------------------------

  function RemoveAt<T>(s: seq<T>, i: nat): (r: seq<T>)
    requires i < |s|
    ensures |r| == |s| - 1
    ensures forall k :: 0 <= k < i ==> r[k] == s[k]
    ensures forall k :: i <= k < |r| ==> r[k] == s[k + 1]
  {
    s[..i] + s[i + 1..]
  }

  /** Removing one book row keeps the ids ascending and the ISBNs unique, and removes
      exactly the rows with that row's id. */
  lemma RemoveBookRow(books: seq<Book>, i: nat, next: nat)
    requires i < |books| && BookIdsBelow(books, next) && UniqueIsbns(books)
    ensures var r := RemoveAt(books, i);
      && BookIdsBelow(r, next) && UniqueIsbns(r)
      && (forall b :: b in r <==> b in books && b.id != books[i].id)
  {
    var r := RemoveAt(books, i);
    forall a, c | 0 <= a < c < |r| && r[a].isbn.Some? ensures r[a].isbn != r[c].isbn {
      var a', c' := if a < i then a else a + 1, if c < i then c else c + 1;
      assert r[a] == books[a'] && r[c] == books[c'];
    }
    forall b ensures b in r <==> b in books && b.id != books[i].id {
      if b in books && b.id != books[i].id {
        var j :| 0 <= j < |books| && books[j] == b;
        if j < i { assert r[j] == b; } else { assert j != i; assert r[j - 1] == b; }
      }
    }
  }

  /** Removing one library row keeps the ids ascending, and removes exactly the rows with
      that row's id. */
  lemma RemoveLibraryRow(libraries: seq<Library>, i: nat, next: nat)
    requires i < |libraries| && LibraryIdsBelow(libraries, next)
    ensures var r := RemoveAt(libraries, i);
      && LibraryIdsBelow(r, next)
      && (forall l :: l in r <==> l in libraries && l.id != libraries[i].id)
  {
    var r := RemoveAt(libraries, i);
    forall l ensures l in r <==> l in libraries && l.id != libraries[i].id {
      if l in libraries && l.id != libraries[i].id {
        var j :| 0 <= j < |libraries| && libraries[j] == l;
        if j < i { assert r[j] == l; } else { assert j != i; assert r[j - 1] == l; }
      }
    }
  }

  /** Deleting a book row together with its association rows keeps the store valid. */
  lemma RemoveBookKeepsValid(s: Store, i: nat)
    requires Valid(s) && i < |s.books|
    ensures var t := s.(books := RemoveAt(s.books, i), links := UnlinkBook(s.links, s.books[i].id));
      && (forall b :: b in t.books <==> b in s.books && b.id != s.books[i].id)
      && Valid(t)
  {
    RemoveBookRow(s.books, i, s.nextBookId);
    var t := s.(books := RemoveAt(s.books, i), links := UnlinkBook(s.links, s.books[i].id));
    forall l | l in t.links ensures HasBook(t, l.0) {
      var j :| 0 <= j < |s.books| && s.books[j].id == l.0;
      assert s.books[j] in t.books;
    }
  }

  /** Deleting a library row together with its association rows keeps the store valid. */
  lemma RemoveLibraryKeepsValid(s: Store, i: nat)
    requires Valid(s) && i < |s.libraries|
    ensures var t := s.(libraries := RemoveAt(s.libraries, i), links := UnlinkLibrary(s.links, s.libraries[i].id));
      && (forall l :: l in t.libraries <==> l in s.libraries && l.id != s.libraries[i].id)
      && Valid(t)
  {
    RemoveLibraryRow(s.libraries, i, s.nextLibraryId);
    var t := s.(libraries := RemoveAt(s.libraries, i), links := UnlinkLibrary(s.links, s.libraries[i].id));
    forall l | l in t.links ensures HasLibrary(t, l.1) {
      var j :| 0 <= j < |s.libraries| && s.libraries[j].id == l.1;
      assert s.libraries[j] in t.libraries;
    }
  }

  /** Links that do not mention the given book. */
  function UnlinkBook(links: set<Link>, bookId: nat): (r: set<Link>)
    ensures forall l :: l in r <==> l in links && l.0 != bookId
  {
    set l | l in links && l.0 != bookId
  }

  /** Links that do not mention the given library. */
  function UnlinkLibrary(links: set<Link>, libraryId: nat): (r: set<Link>)
    ensures forall l :: l in r <==> l in links && l.1 != libraryId
  {
    set l | l in links && l.1 != libraryId
  }
}
