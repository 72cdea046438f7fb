/** The database session the handlers mutate, and the broker that `.delay(...)`
    appends task calls to. */
module Db {
  import opened Common
  import opened Models

  /** A Celery task call: the registered task name and its positional arguments. */
  datatype TaskCall = TaskCall(name: string, args: seq<string>)

  /** An open session: the tables it reads and writes, plus the id counters. */
  class Session {
    var users: seq<User>
    var books: seq<Book>
    var libraries: seq<Library>
    var links: set<Link>
    var nextUserId: nat
    var nextBookId: nat
    var nextLibraryId: nat

    /** The store this session currently holds. */
    function State(): Store
      reads this
    {
      Store(users, books, libraries, links, nextUserId, nextBookId, nextLibraryId)
    }

    /** A session over an existing store. */
    constructor (s: Store)
      ensures State() == s
    {
      users, books, libraries, links := s.users, s.books, s.libraries, s.links;
      nextUserId, nextBookId, nextLibraryId := s.nextUserId, s.nextBookId, s.nextLibraryId;
    }

    /** Replace the whole state (a commit of a batch of changes). */
    method Save(s: Store)
      modifies this
      ensures State() == s
    {
      users, books, libraries, links := s.users, s.books, s.libraries, s.links;
      nextUserId, nextBookId, nextLibraryId := s.nextUserId, s.nextBookId, s.nextLibraryId;
    }

    /** `db.add(row); db.commit()`, rolled back when a UNIQUE constraint fails. */
    method Add(row: NewRow, now: nat) returns (id: Option<nat>)
      modifies this
      ensures (State(), id) == Insert(old(State()), row, now)
    {
      var after := Added(State(), row, now);
      if Constraints(after) {
        id := Some(NextId(State(), row));
        Save(after);
      } else {
        id := None;
      }
    }
  }

  /** The broker queue that `.delay(...)` appends to. */
  class Broker {
    var pending: seq<TaskCall>

    constructor ()
      ensures pending == []
    {
      pending := [];
    }

    method Delay(call: TaskCall)
      modifies this
      ensures pending == old(pending) + [call]
    {
      pending := pending + [call];
    }
  }
}
