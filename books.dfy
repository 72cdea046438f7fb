/** The book handlers. Every lookup is by (id, owner = caller), so a book of
    someone else is indistinguishable from a missing one. */
module Books {
  import opened Common
  import opened Models
  import opened Db

  datatype BookCreate = BookCreate(title: string, author: string, isbn: Option<string>,
                                   description: Option<string>, publishedYear: Option<int>)

  /** A partial update: `None` leaves the field as it is. */
  datatype BookUpdate = BookUpdate(title: Option<string>, author: Option<string>, isbn: Option<string>,
                                   description: Option<string>, publishedYear: Option<int>)

  /** `BookWithLibraries`: the book and the libraries it is assigned to. */
  datatype BookView = BookView(book: Book, libraries: seq<Library>)

  const IsbnExists: Error := BadRequest("Book with this ISBN already exists")
  const BookNotFound: Error := NotFound("Book not found")
  const LibraryNotFound: Error := NotFound("Library not found")
  const NotAssigned: Error := BadRequest("Book is not assigned to this library")
  const BookDeleted: string := "Book deleted successfully"
  const BookUnassigned: string := "Book removed from library successfully"

  function MissingLibraryError(id: int): Error {
    NotFound("Library with id " + IntToString(id) + " not found")
  }

  function View(s: Store, b: Book): BookView {
    BookView(b, LibrariesOf(s, b.id))
  }

  // ---------------------------------------------------------------------
  // create_book
  // ---------------------------------------------------------------------

  /** The ISBN check runs only for a truthy ISBN: `None` and `""` skip it. */
  predicate IsbnChecked(isbn: Option<string>) {
    isbn.Some? && isbn.value != ""
  }

  function CreateBookSpec(s: Store, me: nat, req: BookCreate, now: nat): (Store, Result<Book>) {
    if IsbnChecked(req.isbn) && BookWithIsbn(s, req.isbn.value).Some? then (s, Err(IsbnExists))
    else
      var (t, id) := Insert(s, NewBook(req.title, req.author, req.isbn, req.description, req.publishedYear, Some(me)), now);
      if id.None? then (s, Err(InternalError)) else (t, Ok(t.books[|t.books| - 1]))
  }

  method CreateBook(db: Session, me: nat, req: BookCreate, now: nat) returns (r: Result<Book>)
    modifies db
    ensures (db.State(), r) == CreateBookSpec(old(db.State()), me, req, now)
  {
    if IsbnChecked(req.isbn) && BookWithIsbn(db.State(), req.isbn.value).Some? {
      return Err(IsbnExists);
    }
    var id := db.Add(NewBook(req.title, req.author, req.isbn, req.description, req.publishedYear, Some(me)), now);
    if id.None? {
      return Err(InternalError);
    }
    r := Ok(db.books[|db.books| - 1]);
  }

  /** A non-empty ISBN already present is refused with 400 and nothing is created. */
  lemma CreateBookDuplicateIsbn(s: Store, me: nat, req: BookCreate, now: nat, j: nat)
    requires IsbnChecked(req.isbn) && j < |s.books| && s.books[j].isbn == req.isbn
    ensures CreateBookSpec(s, me, req, now) == (s, Err(IsbnExists))
  {
  }

  /** A created book is owned by the caller, carries the request's fields, and is the only change.
      The commit fails (500) exactly when the ISBN is `""` and another book already stores `""`:
      the empty string skips the 400 check but still meets the UNIQUE constraint. */
  lemma {:induction false} CreateBookOwnedByCaller(s: Store, me: nat, req: BookCreate, now: nat)
    requires Valid(s)
    requires !(IsbnChecked(req.isbn) && BookWithIsbn(s, req.isbn.value).Some?)
    ensures var (t, r) := CreateBookSpec(s, me, req, now);
      && (r.Err? <==> req.isbn == Some("") && BookWithIsbn(s, "").Some?)
      && (r.Err? ==> t == s && r.error == InternalError)
      && (r.Ok? ==>
            && r.value.userId == Some(me)
            && r.value.title == req.title && r.value.author == req.author && r.value.isbn == req.isbn
            && r.value.description == req.description && r.value.publishedYear == req.publishedYear
            && t.books == s.books + [r.value]
            && t.users == s.users && t.libraries == s.libraries && t.links == s.links)
      && Valid(t)
  {
    var row := NewBook(req.title, req.author, req.isbn, req.description, req.publishedYear, Some(me));
    InsertCommitsIff(s, row, now);
    InsertKeepsValid(s, row, now);
  }

  // ---------------------------------------------------------------------
  // get_my_books / get_book
  // ---------------------------------------------------------------------

  /** get_my_books: every book whose owner is the caller, with its libraries. */
  function MyBooks(s: Store, me: nat): (r: seq<BookView>)
    ensures |r| == Count(s.books, (b: Book) => b.userId == Some(me))
    ensures forall k :: 0 <= k < |r| ==> r[k].book in s.books && r[k].book.userId == Some(me)
    ensures forall b :: b in s.books && b.userId == Some(me) ==> exists k :: 0 <= k < |r| && r[k].book == b
    ensures forall k :: 0 <= k < |r| ==>
      forall l :: l in r[k].libraries <==> l in s.libraries && (r[k].book.id, l.id) in s.links
  {
    var owned := BooksOwnedBy(s.books, me);
    FilterLength(s.books, (b: Book) => b.userId == Some(me));
    var r := seq(|owned|, k requires 0 <= k < |owned| => View(s, owned[k]));
    assert forall b :: b in owned ==> exists k :: 0 <= k < |r| && r[k].book == b by {
      forall b | b in owned ensures exists k :: 0 <= k < |r| && r[k].book == b {
        var k :| 0 <= k < |owned| && owned[k] == b;
        assert r[k].book == b;
      }
    }
    r
  }

  /** With ids ascending in the table, the caller's books come in ascending id order, so none
      is listed twice. */
  lemma MyBooksInIdOrder(s: Store, me: nat)
    requires forall i, j :: 0 <= i < j < |s.books| ==> s.books[i].id < s.books[j].id
    ensures var r := MyBooks(s, me);
      forall j, k :: 0 <= j < k < |r| ==> r[j].book.id < r[k].book.id
  {
    var owned := BooksOwnedBy(s.books, me);
    FilterAscending(s.books, (b: Book) => b.userId == Some(me));
    assert owned == Filter(s.books, (b: Book) => b.userId == Some(me));
    var r := MyBooks(s, me);
    forall j, k | 0 <= j < k < |r| ensures r[j].book.id < r[k].book.id {
      assert r[j].book == owned[j] && r[k].book == owned[k];
    }
  }

  /** Filtering a table with ascending ids keeps them ascending. */
  lemma {:induction false} FilterAscending(books: seq<Book>, p: Book -> bool)
    requires forall i, j :: 0 <= i < j < |books| ==> books[i].id < books[j].id
    ensures forall i, j :: 0 <= i < j < |Filter(books, p)| ==> Filter(books, p)[i].id < Filter(books, p)[j].id
  {
    if books != [] {
      var rest, last := books[..|books| - 1], books[|books| - 1];
      var before := Filter(rest, p);
      FilterAscending(rest, p);
      assert forall a, c :: 0 <= a < c < |before| ==> before[a].id < before[c].id;
      forall i | 0 <= i < |before| ensures before[i].id < last.id {
        assert before[i] in rest;
        var k :| 0 <= k < |rest| && rest[k] == before[i];
        assert books[k] == rest[k];
      }
      var r := Filter(books, p);
      assert r == before + (if p(last) then [last] else []);
      forall i, j | 0 <= i < j < |r| ensures r[i].id < r[j].id {
        if j < |before| {
          assert r[i] == before[i] && r[j] == before[j];
          assert before[i].id < before[j].id;
        } else {
          assert p(last) && j == |before|;
          assert r[i] == before[i] && r[j] == last;
        }
      }
    }
  }

  function GetBook(s: Store, me: nat, id: int): (r: Result<BookView>)
    ensures r.Ok? <==> exists i :: 0 <= i < |s.books| && s.books[i].id == id && s.books[i].userId == Some(me)
    ensures r.Ok? ==> r.value.book in s.books && r.value.book.id == id && r.value.book.userId == Some(me)
    ensures r.Ok? ==> forall l :: l in r.value.libraries <==> l in s.libraries && (r.value.book.id, l.id) in s.links
    ensures r.Err? ==> r.error == BookNotFound
  {
    match OwnedBook(s, id, me)
    case None => Err(BookNotFound)
    case Some(i) => Ok(View(s, s.books[i]))
  }

  // ---------------------------------------------------------------------
  // update_book
  // ---------------------------------------------------------------------

  function Or<T>(o: Option<T>, default: T): T {
    if o.Some? then o.value else default
  }

  /** The book after applying the fields that are not `None`. */
  function PatchBook(b: Book, upd: BookUpdate): Book {
    b.(title := Or(upd.title, b.title),
       author := Or(upd.author, b.author),
       isbn := if upd.isbn.Some? then upd.isbn else b.isbn,
       description := if upd.description.Some? then upd.description else b.description,
       publishedYear := if upd.publishedYear.Some? then upd.publishedYear else b.publishedYear)
  }

  function UpdateBookSpec(s: Store, me: nat, id: int, upd: BookUpdate): (Store, Result<Book>) {
    match OwnedBook(s, id, me)
    case None => (s, Err(BookNotFound))
    case Some(i) =>
      var b := PatchBook(s.books[i], upd);
      var t := s.(books := s.books[i := b]);
      if Constraints(t) then (t, Ok(b)) else (s, Err(InternalError))
  }

  method UpdateBook(db: Session, me: nat, id: int, upd: BookUpdate) returns (r: Result<Book>)
    modifies db
    ensures (db.State(), r) == UpdateBookSpec(old(db.State()), me, id, upd)
  {
    var found := OwnedBook(db.State(), id, me);
    if found.None? {
      return Err(BookNotFound);
    }
    var i := found.value;
    var book := db.books[i];
    if upd.title.Some? { book := book.(title := upd.title.value); }
    if upd.author.Some? { book := book.(author := upd.author.value); }
    if upd.isbn.Some? { book := book.(isbn := upd.isbn); }
    if upd.description.Some? { book := book.(description := upd.description); }
    if upd.publishedYear.Some? { book := book.(publishedYear := upd.publishedYear); }
    var after := db.State().(books := db.books[i := book]);
    if !Constraints(after) {
      return Err(InternalError);
    }
    db.books := after.books;
    r := Ok(book);
  }

  /** A successful update changes only the fields given, of that one book, and keeps the invariants. */
  lemma {:induction false} UpdateBookChangesOnlyGiven(s: Store, me: nat, id: int, upd: BookUpdate)
    requires Valid(s)
    ensures var (t, r) := UpdateBookSpec(s, me, id, upd);
      && (r.Ok? ==>
            var i := OwnedBook(s, id, me).value;
            var prior := s.books[i];
            && r.value.id == prior.id && r.value.userId == prior.userId && r.value.createdAt == prior.createdAt
            && (upd.title.None? ==> r.value.title == prior.title)
            && (upd.title.Some? ==> r.value.title == upd.title.value)
            && (upd.author.None? ==> r.value.author == prior.author)
            && (upd.author.Some? ==> r.value.author == upd.author.value)
            && (upd.isbn.None? ==> r.value.isbn == prior.isbn)
            && (upd.isbn.Some? ==> r.value.isbn == upd.isbn)
            && (upd.description.None? ==> r.value.description == prior.description)
            && (upd.description.Some? ==> r.value.description == upd.description)
            && (upd.publishedYear.None? ==> r.value.publishedYear == prior.publishedYear)
            && (upd.publishedYear.Some? ==> r.value.publishedYear == upd.publishedYear)
            && t == s.(books := s.books[i := r.value]))
      && (r.Err? ==> t == s)
      && Valid(t)
  {
    var (t, r) := UpdateBookSpec(s, me, id, upd);
    if r.Ok? {
      var i := OwnedBook(s, id, me).value;
      assert forall j :: 0 <= j < |t.books| ==> t.books[j].id == s.books[j].id;
      forall l | l in t.links ensures HasBook(t, l.0) {
        var j :| 0 <= j < |s.books| && s.books[j].id == l.0;
        assert t.books[j].id == l.0;
      }
    }
  }

  /** Updating a book to an ISBN another book already has is not checked by the handler:
      the commit fails and the answer is a 500, with nothing changed. */
  lemma UpdateBookIsbnCollision(s: Store, me: nat, id: int, upd: BookUpdate, j: nat)
    requires OwnedBook(s, id, me).Some? && j < |s.books| && j != OwnedBook(s, id, me).value
    requires upd.isbn.Some? && s.books[j].isbn == upd.isbn
    ensures UpdateBookSpec(s, me, id, upd) == (s, Err(InternalError))
  {
    var i := OwnedBook(s, id, me).value;
    var t := s.(books := s.books[i := PatchBook(s.books[i], upd)]);
    if i < j {
      assert t.books[i].isbn == t.books[j].isbn;
    } else {
      assert t.books[j].isbn == t.books[i].isbn;
    }
  }

  // ---------------------------------------------------------------------
  // delete_book
  // ---------------------------------------------------------------------

  function DeleteBookSpec(s: Store, me: nat, id: int): (Store, Result<string>) {
    match OwnedBook(s, id, me)
    case None => (s, Err(BookNotFound))
    case Some(i) =>
      (s.(books := RemoveAt(s.books, i), links := UnlinkBook(s.links, s.books[i].id)), Ok(BookDeleted))
  }

  method DeleteBook(db: Session, me: nat, id: int) returns (r: Result<string>)
    modifies db
    ensures (db.State(), r) == DeleteBookSpec(old(db.State()), me, id)
  {
    var found := OwnedBook(db.State(), id, me);
    if found.None? {
      return Err(BookNotFound);
    }
    var i := found.value;
    db.links := UnlinkBook(db.links, db.books[i].id);
    db.books := RemoveAt(db.books, i);
    r := Ok(BookDeleted);
  }

  /** Deleting removes exactly the named book and its assignment rows, and keeps the invariants. */
  lemma {:induction false} DeleteBookRemovesOnlyIt(s: Store, me: nat, id: int)
    requires Valid(s)
    ensures var (t, r) := DeleteBookSpec(s, me, id);
      && (r.Ok? ==>
            && (forall b :: b in t.books <==> b in s.books && b.id != id)
            && (forall l :: l in t.links <==> l in s.links && l.0 != id)
            && t.users == s.users && t.libraries == s.libraries)
      && (r.Err? ==> t == s)
      && Valid(t)
  {
    if OwnedBook(s, id, me).Some? {
      RemoveBookKeepsValid(s, OwnedBook(s, id, me).value);
    }
  }

  // ---------------------------------------------------------------------
  // assign_book_to_libraries
  // ---------------------------------------------------------------------

  /** Index of the first requested library id that names no library. */
  function MissingLibrary(s: Store, ids: seq<int>): (r: Option<nat>)
    ensures r.Some? ==> r.value < |ids| && LibraryWithId(s, ids[r.value]).None?
    ensures r.Some? ==> forall k :: 0 <= k < r.value ==> LibraryWithId(s, ids[k]).Some?
    ensures r.None? <==> forall k :: 0 <= k < |ids| ==> LibraryWithId(s, ids[k]).Some?
  {
    FindIndex(ids, (x: int) => LibraryWithId(s, x).None?)
  }

  /** The assignment rows (book, l) for the non-negative ids l of the request. */
  function Targets(book: nat, ids: seq<int>): (r: set<Link>)
    ensures forall l :: l in r ==> l.0 == book
  {
    if ids == [] then {}
    else
      var last := ids[|ids| - 1];
      Targets(book, ids[..|ids| - 1]) + (if last >= 0 then {(book, last as nat)} else {})
  }

  lemma {:induction false} TargetsExactly(book: nat, ids: seq<int>, l: nat)
    ensures (book, l) in Targets(book, ids) <==> (l as int) in ids
  {
    if ids != [] {
      TargetsExactly(book, ids[..|ids| - 1], l);
      assert ids == ids[..|ids| - 1] + [ids[|ids| - 1]];
    }
  }

  function AssignSpec(s: Store, me: nat, id: int, ids: seq<int>): (Store, Result<BookView>) {
    match OwnedBook(s, id, me)
    case None => (s, Err(BookNotFound))
    case Some(i) =>
      match MissingLibrary(s, ids)
      case Some(k) => (s, Err(MissingLibraryError(ids[k])))
      case None =>
        var b := s.books[i];
        var t := s.(links := UnlinkBook(s.links, b.id) + Targets(b.id, ids));
        (t, Ok(View(t, b)))
  }

  /** The loop of `assign_book_to_libraries` over the requested ids, on the state after the
      `clear()`: the index of the first unknown library, or the new association rows. */
  method GatherLinks(s: Store, bookId: nat, ids: seq<int>) returns (missing: Option<nat>, links: set<Link>)
    ensures missing == MissingLibrary(s, ids)
    ensures missing.None? ==> links == UnlinkBook(s.links, bookId) + Targets(bookId, ids)
  {
    links := UnlinkBook(s.links, bookId);
    var k := 0;
    while k < |ids|
      invariant 0 <= k <= |ids|
      invariant forall j :: 0 <= j < k ==> LibraryWithId(s, ids[j]).Some?
      invariant links == UnlinkBook(s.links, bookId) + Targets(bookId, ids[..k])
    {
      var library := LibraryWithId(s, ids[k]);
      if library.None? {
        return Some(k), links;
      }
      assert ids[..k + 1][..k] == ids[..k];
      links := links + {(bookId, s.libraries[library.value].id)};
      k := k + 1;
    }
    assert ids[..k] == ids;
    missing := None;
  }

  method AssignBookToLibraries(db: Session, me: nat, id: int, ids: seq<int>) returns (r: Result<BookView>)
    modifies db
    ensures (db.State(), r) == AssignSpec(old(db.State()), me, id, ids)
  {
    var found := OwnedBook(db.State(), id, me);
    if found.None? {
      return Err(BookNotFound);
    }
    var book := db.books[found.value];
    var missing, links := GatherLinks(db.State(), book.id, ids);
    if missing.Some? {
      return Err(MissingLibraryError(ids[missing.value]));
    }
    db.links := links;
    r := Ok(View(db.State(), book));
  }

  /** After a successful assign the book's library set is exactly the requested ids (earlier
      assignments are gone), other books keep theirs, and the invariants hold. */
  lemma {:induction false} AssignReplacesLibraries(s: Store, me: nat, id: int, ids: seq<int>)
    requires Valid(s)
    requires AssignSpec(s, me, id, ids).1.Ok?
    ensures var (t, r) := AssignSpec(s, me, id, ids);
      && (forall l: int :: (id, l) in t.links <==> l in ids)
      && (forall b: int, l: int :: b != id ==> ((b, l) in t.links <==> (b, l) in s.links))
      && (forall lib :: lib in r.value.libraries <==> lib in s.libraries && lib.id in ids)
      && t.users == s.users && t.books == s.books && t.libraries == s.libraries
      && Valid(t)
  {
    var (t, r) := AssignSpec(s, me, id, ids);
    var b := id as nat;
    forall l: int ensures (id, l) in t.links <==> l in ids {
      if l >= 0 { TargetsExactly(b, ids, l); }
    }
    forall lnk | lnk in t.links ensures HasBook(t, lnk.0) && HasLibrary(t, lnk.1) {
      if lnk !in s.links {
        TargetsExactly(b, ids, lnk.1);
        var k :| 0 <= k < |ids| && ids[k] == lnk.1 as int;
        var j := LibraryWithId(s, ids[k]).value;
        assert s.libraries[j].id == lnk.1;
      }
    }
  }

  /** An unknown library id anywhere in the request is a 404 raised before the commit: the
      earlier `clear()` is rolled back and the old assignments remain. */
  lemma AssignUnknownLibraryChangesNothing(s: Store, me: nat, id: int, ids: seq<int>, k: nat)
    requires OwnedBook(s, id, me).Some?
    requires k < |ids| && forall j :: 0 <= j < |s.libraries| ==> s.libraries[j].id != ids[k]
    ensures AssignSpec(s, me, id, ids).0 == s && AssignSpec(s, me, id, ids).1.Err?
  {
    assert LibraryWithId(s, ids[k]).None?;
  }

  // ---------------------------------------------------------------------
  // remove_book_from_library
  // ---------------------------------------------------------------------

  function RemoveFromLibrarySpec(s: Store, me: nat, id: int, libraryId: int): (Store, Result<string>) {
    match OwnedBook(s, id, me)
    case None => (s, Err(BookNotFound))
    case Some(i) =>
      match LibraryWithId(s, libraryId)
      case None => (s, Err(LibraryNotFound))
      case Some(j) =>
        var pair := (s.books[i].id, s.libraries[j].id);
        if pair in s.links then (s.(links := s.links - {pair}), Ok(BookUnassigned))
        else (s, Err(NotAssigned))
  }

  method RemoveBookFromLibrary(db: Session, me: nat, id: int, libraryId: int) returns (r: Result<string>)
    modifies db
    ensures (db.State(), r) == RemoveFromLibrarySpec(old(db.State()), me, id, libraryId)
  {
    var book := OwnedBook(db.State(), id, me);
    if book.None? {
      return Err(BookNotFound);
    }
    var library := LibraryWithId(db.State(), libraryId);
    if library.None? {
      return Err(LibraryNotFound);
    }
    var pair := (db.books[book.value].id, db.libraries[library.value].id);
    if pair in db.links {
      db.links := db.links - {pair};
      r := Ok(BookUnassigned);
    } else {
      r := Err(NotAssigned);
    }
  }

  /** Checks come in order book (404), library (404), membership (400); success removes just that pair. */
  lemma {:induction false} RemoveFromLibraryOrder(s: Store, me: nat, id: int, libraryId: int)
    requires Valid(s)
    ensures var (t, r) := RemoveFromLibrarySpec(s, me, id, libraryId);
      && (OwnedBook(s, id, me).None? ==> r == Err(BookNotFound))
      && (OwnedBook(s, id, me).Some? && LibraryWithId(s, libraryId).None? ==> r == Err(LibraryNotFound))
      && (OwnedBook(s, id, me).Some? && LibraryWithId(s, libraryId).Some? ==>
            (r.Ok? <==> (id, libraryId) in s.links))
      && (r.Ok? ==> t == s.(links := t.links) && forall l :: l in t.links <==> l in s.links && l != (id, libraryId))
      && (r.Err? ==> t == s)
      && Valid(t)
  {
  }

  // ---------------------------------------------------------------------
  // ownership
  // ---------------------------------------------------------------------

  /** A caller who does not own book `id` gets the same 404 from every book handler as for a
      book that does not exist, and nothing changes. */
  lemma NotOwnedIsNotFound(s: Store, me: nat, id: int, req: BookUpdate, ids: seq<int>, libraryId: int)
    requires forall i :: 0 <= i < |s.books| && s.books[i].id == id ==> s.books[i].userId != Some(me)
    ensures GetBook(s, me, id) == Err(BookNotFound)
    ensures UpdateBookSpec(s, me, id, req) == (s, Err(BookNotFound))
    ensures DeleteBookSpec(s, me, id) == (s, Err(BookNotFound))
    ensures AssignSpec(s, me, id, ids) == (s, Err(BookNotFound))
    ensures RemoveFromLibrarySpec(s, me, id, libraryId) == (s, Err(BookNotFound))
  {
  }
}
