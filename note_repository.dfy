/** The `notes` table (repository/note_repository.go over the schema of
    main.go): rows keyed by an INTEGER PRIMARY KEY AUTOINCREMENT id, reached
    through five statements: INSERT, SELECT by id, SELECT of every row,
    UPDATE of four columns by id, and DELETE by id. */
module Repository {
  import opened Wrappers
  import opened Notes

  /** The largest row id SQLite can issue (a signed 64-bit integer). */
  const MaxRowId: int := 0x7FFF_FFFF_FFFF_FFFF

  /** What the database driver answers to one statement: success, or a failure
      with its message (a closed connection, a locked or corrupt file, ...).
      Which of the two happens is not under the program's control, so every
      operation takes it as an input. */
  datatype Driver = Healthy | Broken(msg: string)

  /** How the row-by-row iteration of a full-table SELECT goes: every row is
      read; or the Scan of the row at position `at` fails; or rows.Next()
      reports no further row before position `at` because iterating failed,
      an error that GetAll never asks rows.Err() about. */
  datatype Iteration = Complete | ScanFails(at: nat, msg: string) | StopsEarly(at: nat)

  /** The iteration goes wrong before all `n` rows of the table are read. */
  predicate Interrupted(iteration: Iteration, n: nat)
  {
    !iteration.Complete? && iteration.at < n
  }

  // ---------------------------------------------------------------------
  // The effect of each statement on the table, as functions of its rows

  /** SELECT ... WHERE id = ?: the row with that key, or sql.ErrNoRows. */
  function Lookup(rows: map<int, Note>, id: int): (r: Result<Note, Error>)
    ensures r.Success? <==> id in rows
    ensures r.Success? ==> r.value == rows[id]
    ensures r.Failure? ==> r.error == NoRows
  {
    if id in rows then Success(rows[id]) else Failure(NoRows)
  }

  /** INSERT (img, title, content, created_time, updated_time) under the key
      `id`. The id column is not in the statement, so `note.id` is ignored
      and the stored row carries the key it was filed under. */
  function Insert(rows: map<int, Note>, id: int, note: Note): (r: map<int, Note>)
    ensures r.Keys == rows.Keys + {id}
    ensures Lookup(r, id) == Success(note.(id := id))
    ensures forall k :: k in rows && k != id ==> r[k] == rows[k]
  {
    rows[id := note.(id := id)]
  }

  /** UPDATE notes SET img, title, content, updated_time WHERE id = note.id.
      When no row has that key, nothing changes (and nothing says so). */
  function Overwrite(rows: map<int, Note>, note: Note): (r: map<int, Note>)
    ensures r.Keys == rows.Keys
    ensures forall k :: k in rows && k != note.id ==> r[k] == rows[k]
    ensures note.id !in rows ==> r == rows
    ensures note.id in rows ==>
      && r[note.id].img == note.img
      && r[note.id].title == note.title
      && r[note.id].content == note.content
      && r[note.id].updatedTime == note.updatedTime
      && r[note.id].id == rows[note.id].id
      && r[note.id].createdTime == rows[note.id].createdTime
  {
    if note.id in rows then
      rows[note.id := rows[note.id].(img := note.img, title := note.title,
                                     content := note.content, updatedTime := note.updatedTime)]
    else
      rows
  }

  /** DELETE FROM notes WHERE id = ?: the row goes, the others stay. */
  function Remove(rows: map<int, Note>, id: int): (r: map<int, Note>)
    ensures r.Keys == rows.Keys - {id}
    ensures forall k :: k in r ==> r[k] == rows[k]
    ensures Lookup(r, id) == Failure(NoRows)
    ensures id !in rows ==> r == rows
  {
    rows - {id}
  }

  /** Every entry of `notes` is a stored row, and no row comes twice. */
  ghost predicate IsPartialScan(rows: map<int, Note>, notes: seq<Note>)
  {
    && (forall i :: 0 <= i < |notes| ==> notes[i].id in rows && rows[notes[i].id] == notes[i])
    && (forall i, j :: 0 <= i < j < |notes| ==> notes[i].id != notes[j].id)
  }

  /** `notes` is what a full-table SELECT may return for `rows`: every stored
      note exactly once and nothing else, in an order the engine chooses. */
  ghost predicate IsScan(rows: map<int, Note>, notes: seq<Note>)
  {
    && IsPartialScan(rows, notes)
    && (forall id :: id in rows ==> rows[id] in notes)
  }

  /** Rows are filed under their own id. */
  ghost predicate KeyedById(rows: map<int, Note>)
  {
    forall id :: id in rows ==> rows[id].id == id
  }

  // ---------------------------------------------------------------------
  // Properties of a full-table scan

  /** A scan returns as many notes as the table holds rows. */
  lemma {:induction false} ScanLength(rows: map<int, Note>, notes: seq<Note>)
    requires KeyedById(rows) && IsScan(rows, notes)
    ensures |notes| == |rows|
  {
    if notes != [] {
      var n := |notes| - 1;
      var last := notes[n];
      var rest := rows - {last.id};
      forall id | id in rest ensures rows[id] in notes[..n] {
        var i :| 0 <= i < |notes| && notes[i] == rows[id];
        assert notes[i].id == id;
        assert i != n;
      }
      ScanLength(rest, notes[..n]);
      assert rows.Keys == rest.Keys + {last.id};
    } else if |rows| != 0 {
      if forall id :: id !in rows.Keys {
        assert false;
      }
    }
  }

  /** In a scan no note occurs twice. */
  lemma {:induction false} ScanOccurrences(rows: map<int, Note>, notes: seq<Note>, x: Note)
    requires KeyedById(rows) && IsScan(rows, notes)
    ensures multiset(notes)[x] == if x in notes then 1 else 0
  {
    if notes != [] {
      var n := |notes| - 1;
      var rest := rows - {notes[n].id};
      assert notes == notes[..n] + [notes[n]];
      forall id | id in rest ensures rows[id] in notes[..n] {
        var i :| 0 <= i < |notes| && notes[i] == rows[id];
        assert notes[i].id == id;
      }
      ScanOccurrences(rest, notes[..n], x);
      if x == notes[n] {
        assert x !in notes[..n];
      }
    }
  }

  /** Two scans of the same table hold the same notes, each once: they
      differ at most in order. */
  lemma ScanIsUniqueUpToOrder(rows: map<int, Note>, a: seq<Note>, b: seq<Note>)
    requires KeyedById(rows) && IsScan(rows, a) && IsScan(rows, b)
    ensures multiset(a) == multiset(b)
  {
    forall x ensures multiset(a)[x] == multiset(b)[x] {
      ScanOccurrences(rows, a, x);
      ScanOccurrences(rows, b, x);
      if x in a {
        assert rows[x.id] == x;
      }
      if x in b {
        assert rows[x.id] == x;
      }
    }
  }

  /** A scan of an empty table is empty, and an empty scan means an empty table. */
  lemma ScanOfEmptyTable(rows: map<int, Note>, notes: seq<Note>)
    requires KeyedById(rows) && IsScan(rows, notes)
    ensures notes == [] <==> rows == map[]
  {
    ScanLength(rows, notes);
  }

  // ---------------------------------------------------------------------
  // The table itself

  /** The database behind NoteRepository, reduced to its `notes` table. */
  class NoteRepository {
    /** The rows of the table, by primary key. */
    var notes: map<int, Note>
    /** The table's entry in sqlite_sequence: the largest id ever handed out. */
    var lastId: int
    /** Every id ever handed out, including those of deleted rows. */
    ghost var issued: set<int>

    ghost predicate Valid()
      reads this
    {
      && KeyedById(notes)
      && notes.Keys <= issued
      && 0 <= lastId <= MaxRowId
      && (forall id :: id in issued ==> 0 < id <= lastId)
    }

    /** A freshly created table (initializeSchema on a new database file). */
    constructor ()
      ensures Valid()
      ensures notes == map[] && lastId == 0 && issued == {}
    {
      notes := map[];
      lastId := 0;
      issued := {};
    }

    /** Create: INSERT the note, then ask the driver for the new row's id.
        Either failure makes it return 0 with the error; a failure of the
        second step comes after the row is already stored. */
    method Create(note: Note, insert: Driver, lastInsertId: Driver) returns (id: int, err: Option<Error>)
      requires Valid()
      modifies this
      ensures Valid()
      ensures err.Some? <==> id == 0
      ensures old(lastId) == MaxRowId ==>
        err == Some(Full) && notes == old(notes) && lastId == old(lastId) && issued == old(issued)
      ensures old(lastId) < MaxRowId && insert.Broken? ==>
        err == Some(Driver(insert.msg)) && notes == old(notes) && lastId == old(lastId) && issued == old(issued)
      ensures old(lastId) < MaxRowId && insert.Healthy? ==>
        && lastId == old(lastId) + 1
        && lastId !in old(issued)
        && (forall k :: k in old(issued) ==> k < lastId)
        && issued == old(issued) + {lastId}
        && notes == Insert(old(notes), lastId, note)
        && (lastInsertId.Broken? ==> err == Some(Driver(lastInsertId.msg)))
        && (lastInsertId.Healthy? ==> err == None && id == lastId)
    {
      if lastId == MaxRowId {
        return 0, Some(Full);
      }
      if insert.Broken? {
        return 0, Some(Driver(insert.msg));
      }
      lastId := lastId + 1;
      notes := Insert(notes, lastId, note);
      issued := issued + {lastId};
      if lastInsertId.Broken? {
        return 0, Some(Driver(lastInsertId.msg));
      }
      return lastId, None;
    }

    /** GetByID: the stored note with that id, or sql.ErrNoRows. */
    method GetByID(id: int, query: Driver) returns (r: Result<Note, Error>)
      requires Valid()
      ensures query.Broken? ==> r == Failure(Driver(query.msg))
      ensures query.Healthy? ==> r == Lookup(notes, id)
      ensures r.Success? ==> id in notes && r.value == notes[id] && r.value.id == id
    {
      if query.Broken? {
        return Failure(Driver(query.msg));
      }
      if id in notes {
        return Success(notes[id]);
      }
      return Failure(NoRows);
    }

    /** GetAll: read every row of the table into a list, one row at a time,
        in whatever order the engine yields them (there is no ORDER BY). A
        failed Scan discards what was read; an iteration that stops early
        hands back the rows read so far as a success. */
    method GetAll(query: Driver, iteration: Iteration) returns (r: Result<seq<Note>, Error>)
      requires Valid()
      ensures query.Broken? ==> r == Failure(Driver(query.msg))
      ensures query.Healthy? && iteration.ScanFails? && Interrupted(iteration, |notes|) ==>
        r == Failure(Driver(iteration.msg))
      ensures query.Healthy? && iteration.StopsEarly? && Interrupted(iteration, |notes|) ==>
        r.Success? && IsPartialScan(notes, r.value) && |r.value| == iteration.at
      ensures query.Healthy? && !Interrupted(iteration, |notes|) ==>
        r.Success? && IsScan(notes, r.value)
    {
      if query.Broken? {
        return Failure(Driver(query.msg));
      }
      var found: seq<Note> := [];
      var pending := notes.Keys;
      while pending != {}
        invariant pending <= notes.Keys
        invariant |found| + |pending| == |notes|
        invariant forall i :: 0 <= i < |found| ==>
          found[i].id in notes && notes[found[i].id] == found[i] && found[i].id !in pending
        invariant forall i, j :: 0 <= i < j < |found| ==> found[i].id != found[j].id
        invariant forall id :: id in notes && id !in pending ==> notes[id] in found
        invariant !iteration.Complete? ==> |found| <= iteration.at
        decreases pending
      {
        if iteration.StopsEarly? && |found| == iteration.at {
          return Success(found);
        }
        if forall id :: id !in pending {
          assert false;
        }
        var key :| key in pending;
        if iteration.ScanFails? && |found| == iteration.at {
          return Failure(Driver(iteration.msg));
        }
        found := found + [notes[key]];
        pending := pending - {key};
      }
      return Success(found);
    }

    /** Update: overwrite img, title, content and updated_time of the row
        whose id is note.id. The number of affected rows is not looked at, so
        an absent id is a silent success. */
    method Update(note: Note, exec: Driver) returns (err: Option<Error>)
      requires Valid()
      modifies this
      ensures Valid()
      ensures lastId == old(lastId) && issued == old(issued)
      ensures exec.Broken? ==> err == Some(Driver(exec.msg)) && notes == old(notes)
      ensures exec.Healthy? ==> err == None && notes == Overwrite(old(notes), note)
    {
      if exec.Broken? {
        return Some(Driver(exec.msg));
      }
      notes := Overwrite(notes, note);
      return None;
    }

    /** Delete: remove the row with that id. Deleting an absent id is a
        success that changes nothing. */
    method Delete(id: int, exec: Driver) returns (err: Option<Error>)
      requires Valid()
      modifies this
      ensures Valid()
      ensures lastId == old(lastId) && issued == old(issued)
      ensures exec.Broken? ==> err == Some(Driver(exec.msg)) && notes == old(notes)
      ensures exec.Healthy? ==> err == None && notes == Remove(old(notes), id)
    {
      if exec.Broken? {
        return Some(Driver(exec.msg));
      }
      notes := Remove(notes, id);
      return None;
    }
  }
}
