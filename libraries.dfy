/** The library handlers. Unlike books, libraries are visible to everyone; only their
    creator may change or delete them, and a missing library (404) is reported before a
    foreign one (403). */
module Libraries {
  import opened Common
  import opened Models
  import opened Db

  datatype LibraryCreate = LibraryCreate(name: string, location: Option<string>, description: Option<string>)

  /** A partial update: `None` leaves the field as it is. */
  datatype LibraryUpdate = LibraryUpdate(name: Option<string>, location: Option<string>, description: Option<string>)

  /** `LibraryWithBooks`: the library and the books assigned to it. */
  datatype LibraryView = LibraryView(library: Library, books: seq<Book>)

  const LibraryNotFound: Error := NotFound("Library not found")
  const UpdateForbidden: Error := Forbidden("Not authorized to update this library")
  const DeleteForbidden: Error := Forbidden("Not authorized to delete this library")
  const LibraryDeleted: string := "Library deleted successfully"
  const DefaultSkip: int := 0
  const DefaultLimit: int := 100

  // ---------------------------------------------------------------------
  // create_library
  // ---------------------------------------------------------------------

  function CreateLibrarySpec(s: Store, me: nat, req: LibraryCreate, now: nat): (Store, Result<Library>) {
    var (t, id) := Insert(s, NewLibrary(req.name, req.location, req.description, Some(me)), now);
    if id.None? then (s, Err(InternalError)) else (t, Ok(t.libraries[|t.libraries| - 1]))
  }

  method CreateLibrary(db: Session, me: nat, req: LibraryCreate, now: nat) returns (r: Result<Library>)
    modifies db
    ensures (db.State(), r) == CreateLibrarySpec(old(db.State()), me, req, now)
  {
    var id := db.Add(NewLibrary(req.name, req.location, req.description, Some(me)), now);
    if id.None? {
      return Err(InternalError);
    }
    r := Ok(db.libraries[|db.libraries| - 1]);
  }

  /** Libraries carry no UNIQUE column, so creation always succeeds: the new library is owned by
      the caller, carries the request's fields, and is appended without touching anything else. */
  lemma {:induction false} CreateLibraryAlwaysSucceeds(s: Store, me: nat, req: LibraryCreate, now: nat)
    requires Valid(s)
    ensures var (t, r) := CreateLibrarySpec(s, me, req, now);
      && r.Ok?
      && r.value.userId == Some(me) && r.value.name == req.name
      && r.value.location == req.location && r.value.description == req.description
      && !HasLibrary(s, r.value.id)
      && t.libraries == s.libraries + [r.value]
      && t.users == s.users && t.books == s.books && t.links == s.links
      && Valid(t)
  {
    var row := NewLibrary(req.name, req.location, req.description, Some(me));
    InsertCommitsIff(s, row, now);
    InsertKeepsValid(s, row, now);
  }

  // ---------------------------------------------------------------------
  // get_libraries: `.offset(skip).limit(limit)`
  // ---------------------------------------------------------------------

  /** SQLite's OFFSET/LIMIT: a negative offset counts as 0 and a negative limit means no limit. */
  function Page<T>(rows: seq<T>, skip: int, limit: int): (r: seq<T>)
  {
    var start := if skip <= 0 then 0 else if skip < |rows| then skip else |rows|;
    var stop := if limit < 0 || start + limit > |rows| then |rows| else start + limit;
    rows[start..stop]
  }

  function GetLibraries(s: Store, skip: int, limit: int): seq<Library> {
    Page(s.libraries, skip, limit)
  }

  /** A page is the window of rows starting at `skip`, at most `limit` long, and as long as possible. */
  lemma {:induction false} PageIsWindow<T>(rows: seq<T>, skip: nat, limit: nat)
    ensures |Page(rows, skip, limit)| <= limit
    ensures skip + limit <= |rows| ==> |Page(rows, skip, limit)| == limit
    ensures skip >= |rows| ==> Page(rows, skip, limit) == []
    ensures forall k :: 0 <= k < |Page(rows, skip, limit)| ==> Page(rows, skip, limit)[k] == rows[skip + k]
  {
  }

  /** Two consecutive pages are the page that spans both: paging never skips or repeats a row. */
  lemma {:induction false} PagesConcatenate<T>(rows: seq<T>, skip: nat, a: nat, b: nat)
    ensures Page(rows, skip, a) + Page(rows, skip + a, b) == Page(rows, skip, a + b)
  {
    var n := |rows|;
    var s1 := if skip < n then skip else n;
    var s2 := if skip + a < n then skip + a else n;
    var e2 := if s2 + b > n then n else s2 + b;
    assert Page(rows, skip, a) == rows[s1..s2];
    assert Page(rows, skip + a, b) == rows[s2..e2];
    assert Page(rows, skip, a + b) == rows[s1..e2];
    assert rows[s1..s2] + rows[s2..e2] == rows[s1..e2];
  }

  /** With the query's defaults the answer is the first hundred libraries; with no limit, all of them. */
  lemma DefaultPage(s: Store)
    ensures |s.libraries| <= 100 ==> GetLibraries(s, DefaultSkip, DefaultLimit) == s.libraries
    ensures |s.libraries| > 100 ==> GetLibraries(s, DefaultSkip, DefaultLimit) == s.libraries[..100]
    ensures GetLibraries(s, -5, -1) == s.libraries
  {
    assert s.libraries[0..|s.libraries|] == s.libraries;
  }

  // ---------------------------------------------------------------------
  // get_my_libraries / get_library
  // ---------------------------------------------------------------------

  function MyLibraries(s: Store, me: nat): (r: seq<Library>)
    ensures forall l :: l in r <==> l in s.libraries && l.userId == Some(me)
  {
    LibrariesOwnedBy(s.libraries, me)
  }

  /** Any signed-in user may read any library; the books listed are exactly those assigned to it. */
  function GetLibrary(s: Store, id: int): (r: Result<LibraryView>)
    ensures r.Ok? <==> exists i :: 0 <= i < |s.libraries| && s.libraries[i].id == id
    ensures r.Ok? ==> r.value.library in s.libraries && r.value.library.id == id
    ensures r.Ok? ==> forall b :: b in r.value.books <==> b in s.books && (b.id, r.value.library.id) in s.links
    ensures r.Err? ==> r.error == LibraryNotFound
  {
    match LibraryWithId(s, id)
    case None => Err(LibraryNotFound)
    case Some(i) => Ok(LibraryView(s.libraries[i], BooksIn(s, s.libraries[i].id)))
  }

  // ---------------------------------------------------------------------
  // update_library / delete_library
  // ---------------------------------------------------------------------

  /** The library after applying the fields that are not `None`. */
  function PatchLibrary(l: Library, upd: LibraryUpdate): Library {
    l.(name := if upd.name.Some? then upd.name.value else l.name,
       location := if upd.location.Some? then upd.location else l.location,
       description := if upd.description.Some? then upd.description else l.description)
  }

  function UpdateLibrarySpec(s: Store, me: nat, id: int, upd: LibraryUpdate): (Store, Result<Library>) {
    match LibraryWithId(s, id)
    case None => (s, Err(LibraryNotFound))
    case Some(i) =>
      if s.libraries[i].userId != Some(me) then (s, Err(UpdateForbidden))
      else
        var l := PatchLibrary(s.libraries[i], upd);
        (s.(libraries := s.libraries[i := l]), Ok(l))
  }

  method UpdateLibrary(db: Session, me: nat, id: int, upd: LibraryUpdate) returns (r: Result<Library>)
    modifies db
    ensures (db.State(), r) == UpdateLibrarySpec(old(db.State()), me, id, upd)
  {
    var found := LibraryWithId(db.State(), id);
    if found.None? {
      return Err(LibraryNotFound);
    }
    var i := found.value;
    var library := db.libraries[i];
    if library.userId != Some(me) {
      return Err(UpdateForbidden);
    }
    if upd.name.Some? { library := library.(name := upd.name.value); }
    if upd.location.Some? { library := library.(location := upd.location); }
    if upd.description.Some? { library := library.(description := upd.description); }
    db.libraries := db.libraries[i := library];
    r := Ok(library);
  }

  function DeleteLibrarySpec(s: Store, me: nat, id: int): (Store, Result<string>) {
    match LibraryWithId(s, id)
    case None => (s, Err(LibraryNotFound))
    case Some(i) =>
      if s.libraries[i].userId != Some(me) then (s, Err(DeleteForbidden))
      else (s.(libraries := RemoveAt(s.libraries, i), links := UnlinkLibrary(s.links, s.libraries[i].id)),
            Ok(LibraryDeleted))
  }

  method DeleteLibrary(db: Session, me: nat, id: int) returns (r: Result<string>)
    modifies db
    ensures (db.State(), r) == DeleteLibrarySpec(old(db.State()), me, id)
  {
    var found := LibraryWithId(db.State(), id);
    if found.None? {
      return Err(LibraryNotFound);
    }
    var i := found.value;
    if db.libraries[i].userId != Some(me) {
      return Err(DeleteForbidden);
    }
    db.links := UnlinkLibrary(db.links, db.libraries[i].id);
    db.libraries := RemoveAt(db.libraries, i);
    r := Ok(LibraryDeleted);
  }

  /** Update and delete report a missing library (404) before checking ownership (403), and
      change nothing unless the caller is the library's creator. */
  lemma {:induction false} OnlyCreatorChanges(s: Store, me: nat, id: int, upd: LibraryUpdate)
    requires Valid(s)
    ensures var (t, r) := UpdateLibrarySpec(s, me, id, upd);
      && (!HasLibraryId(s, id) <==> r == Err(LibraryNotFound))
      && (r == Err(UpdateForbidden) <==> HasLibraryId(s, id) && LibraryOwner(s, id) != Some(me))
      && (r.Err? ==> t == s)
    ensures var (t, r) := DeleteLibrarySpec(s, me, id);
      && (!HasLibraryId(s, id) <==> r == Err(LibraryNotFound))
      && (r == Err(DeleteForbidden) <==> HasLibraryId(s, id) && LibraryOwner(s, id) != Some(me))
      && (r.Err? ==> t == s)
  {
    if HasLibraryId(s, id) {
      var j :| 0 <= j < |s.libraries| && s.libraries[j].id == id;
      var i := LibraryWithId(s, id).value;
      assert s.libraries[i].id == s.libraries[j].id;
    }
  }

  predicate HasLibraryId(s: Store, id: int) {
    exists i :: 0 <= i < |s.libraries| && s.libraries[i].id == id
  }

  /** The creator of the library with that id (the first such row; ids are unique in a valid store). */
  function LibraryOwner(s: Store, id: int): Option<int>
    requires HasLibraryId(s, id)
  {
    s.libraries[LibraryWithId(s, id).value].userId
  }

  /** A successful update changes only the given fields of that one library and keeps the invariants. */
  lemma {:induction false} UpdateLibraryChangesOnlyGiven(s: Store, me: nat, id: int, upd: LibraryUpdate)
    requires Valid(s)
    ensures var (t, r) := UpdateLibrarySpec(s, me, id, upd);
      && (r.Ok? ==>
            var i := LibraryWithId(s, id).value;
            var prior := s.libraries[i];
            && r.value.id == prior.id && r.value.userId == Some(me) && r.value.createdAt == prior.createdAt
            && r.value.name == (if upd.name.Some? then upd.name.value else prior.name)
            && r.value.location == (if upd.location.Some? then upd.location else prior.location)
            && r.value.description == (if upd.description.Some? then upd.description else prior.description)
            && t == s.(libraries := s.libraries[i := r.value]))
      && Valid(t)
  {
    var (t, r) := UpdateLibrarySpec(s, me, id, upd);
    if r.Ok? {
      assert forall j :: 0 <= j < |t.libraries| ==> t.libraries[j].id == s.libraries[j].id;
      forall l | l in t.links ensures HasLibrary(t, l.1) {
        var j :| 0 <= j < |s.libraries| && s.libraries[j].id == l.1;
        assert t.libraries[j].id == l.1;
      }
    }
  }

  /** Deleting a library removes it and its assignment rows; the books themselves stay. */
  lemma {:induction false} DeleteLibraryKeepsBooks(s: Store, me: nat, id: int)
    requires Valid(s)
    ensures var (t, r) := DeleteLibrarySpec(s, me, id);
      && (r.Ok? ==>
            && (forall l :: l in t.libraries <==> l in s.libraries && l.id != id)
            && (forall l :: l in t.links <==> l in s.links && l.1 != id)
            && t.books == s.books && t.users == s.users)
      && Valid(t)
  {
    if LibraryWithId(s, id).Some? {
      RemoveLibraryKeepsValid(s, LibraryWithId(s, id).value);
    }
  }
}
