/** The note lifecycle (service/note_service.go): the timestamp policy laid
    over the table. Creating stamps created_time with the current time and
    leaves updated_time null; updating stamps updated_time and reads the row
    back. The current time is a parameter of each operation. */
module Service {
  import opened Wrappers
  import opened Notes
  import opened Repository

  class NoteService {
    const repo: NoteRepository

    /** The created_time each id was stamped with when its note was created. */
    ghost var createdAt: map<int, Time>
    /** The ids whose note at least one UpdateNote has overwritten. */
    ghost var updatedIds: set<int>

    /** The lifecycle invariant: a stored note keeps the created_time it was
        created with, and its updated_time is set exactly when the note has
        been updated. */
    ghost predicate Valid()
      reads this, repo
    {
      && repo.Valid()
      && updatedIds <= repo.issued
      && (forall id :: id in repo.notes ==>
            id in createdAt && repo.notes[id].createdTime == createdAt[id])
      && (forall id :: id in repo.notes ==>
            (repo.notes[id].updatedTime.Some? <==> id in updatedIds))
    }

    /** NewNoteService. Rows already in the table count as updated exactly
        when their updated_time is set. */
    constructor (repo: NoteRepository)
      requires repo.Valid()
      ensures this.repo == repo && Valid()
    {
      this.repo := repo;
      createdAt := map id | id in repo.notes :: repo.notes[id].createdTime;
      updatedIds := set id | id in repo.notes && repo.notes[id].updatedTime.Some?;
    }

    /** CreateNote: build the note stamped `now` with no update time, insert
        it, and return it with the id the table assigned. */
    method CreateNote(title: string, content: string, img: string, now: Time,
                      insert: Driver, lastInsertId: Driver)
      returns (r: Result<Note, Error>)
      requires Valid()
      modifies this, repo
      ensures Valid()
      ensures r.Success? <==>
        old(repo.lastId) < MaxRowId && insert.Healthy? && lastInsertId.Healthy?
      ensures r.Success? ==>
        && r.value == Note(r.value.id, img, title, content, now, None)
        && r.value.id == old(repo.lastId) + 1 == repo.lastId
        && r.value.id !in old(repo.issued)
        && (forall k :: k in old(repo.issued) ==> k < r.value.id)
        && repo.notes == old(repo.notes)[r.value.id := r.value]
        && Lookup(repo.notes, r.value.id) == Success(r.value)
      ensures old(repo.lastId) == MaxRowId ==>
        && r == Failure(Full) && repo.notes == old(repo.notes)
        && repo.lastId == old(repo.lastId) && repo.issued == old(repo.issued)
      ensures old(repo.lastId) < MaxRowId && insert.Broken? ==>
        && r == Failure(Driver(insert.msg)) && repo.notes == old(repo.notes)
        && repo.lastId == old(repo.lastId) && repo.issued == old(repo.issued)
      ensures old(repo.lastId) < MaxRowId && insert.Healthy? ==>
        && repo.lastId == old(repo.lastId) + 1
        && repo.issued == old(repo.issued) + {repo.lastId}
      ensures old(repo.lastId) < MaxRowId && insert.Healthy? && lastInsertId.Broken? ==>
        && r == Failure(Driver(lastInsertId.msg))
        && repo.notes == old(repo.notes)[repo.lastId := Note(repo.lastId, img, title, content, now, None)]
      ensures createdAt == if repo.lastId == old(repo.lastId) then old(createdAt)
                           else old(createdAt)[repo.lastId := now]
      ensures updatedIds == old(updatedIds)
    {
      var note := Note(0, img, title, content, now, None);
      ghost var before := repo.lastId;
      var id, err := repo.Create(note, insert, lastInsertId);
      if repo.lastId != before {
        createdAt := createdAt[repo.lastId := now];
      }
      if err.Some? {
        return Failure(err.value);
      }
      note := note.(id := id);
      return Success(note);
    }

    /** GetAllNotes: the stored notes, as the table returns them. */
    method GetAllNotes(query: Driver, iteration: Iteration) returns (r: Result<seq<Note>, Error>)
      requires Valid()
      ensures query.Broken? ==> r == Failure(Driver(query.msg))
      ensures query.Healthy? && iteration.ScanFails? && Interrupted(iteration, |repo.notes|) ==>
        r == Failure(Driver(iteration.msg))
      ensures query.Healthy? && iteration.StopsEarly? && Interrupted(iteration, |repo.notes|) ==>
        r.Success? && IsPartialScan(repo.notes, r.value) && |r.value| == iteration.at
      ensures query.Healthy? && !Interrupted(iteration, |repo.notes|) ==>
        r.Success? && IsScan(repo.notes, r.value)
    {
      r := repo.GetAll(query, iteration);
    }

    /** GetNoteByID: the stored note with that id, as the table returns it. */
    method GetNoteByID(id: int, query: Driver) returns (r: Result<Note, Error>)
      requires Valid()
      ensures query.Broken? ==> r == Failure(Driver(query.msg))
      ensures query.Healthy? ==> r == Lookup(repo.notes, id)
    {
      r := repo.GetByID(id, query);
    }

    /** UpdateNote: overwrite the note's img, title and content, stamp
        updated_time with `now`, then read the row back. The note handed to
        the table carries no created_time; the UPDATE does not write it. */
    method UpdateNote(id: int, title: string, content: string, img: string, now: Time,
                      exec: Driver, query: Driver)
      returns (r: Result<Note, Error>)
      requires Valid()
      modifies this, repo
      ensures Valid()
      ensures repo.lastId == old(repo.lastId) && repo.issued == old(repo.issued)
      ensures exec.Broken? ==> r == Failure(Driver(exec.msg)) && repo.notes == old(repo.notes)
      ensures exec.Healthy? ==>
        repo.notes == Overwrite(old(repo.notes), Note(id, img, title, content, ZeroTime, Some(now)))
      ensures exec.Healthy? && query.Broken? ==> r == Failure(Driver(query.msg))
      ensures r.Success? <==> exec.Healthy? && query.Healthy? && id in old(repo.notes)
      ensures r.Success? ==>
        && r.value.id == id
        && r.value.createdTime == old(repo.notes)[id].createdTime
        && r.value.img == img && r.value.title == title && r.value.content == content
        && r.value.updatedTime == Some(now)
        && Lookup(repo.notes, id) == r
      ensures id !in old(repo.notes) ==> r.Failure? && repo.notes == old(repo.notes)
      ensures exec.Healthy? && query.Healthy? && id !in old(repo.notes) ==> r == Failure(NoRows)
      ensures createdAt == old(createdAt)
      ensures updatedIds == old(updatedIds) + if exec.Healthy? && id in old(repo.notes) then {id} else {}
    {
      var note := Note(id, img, title, content, ZeroTime, Some(now));
      var err := repo.Update(note, exec);
      if err.Some? {
        return Failure(err.value);
      }
      if id in repo.notes {
        updatedIds := updatedIds + {id};
      }
      r := repo.GetByID(id, query);
    }

    /** DeleteNote: remove the note, as the table does. */
    method DeleteNote(id: int, exec: Driver) returns (err: Option<Error>)
      requires Valid()
      modifies this, repo
      ensures Valid()
      ensures repo.lastId == old(repo.lastId) && repo.issued == old(repo.issued)
      ensures exec.Broken? ==> err == Some(Driver(exec.msg)) && repo.notes == old(repo.notes)
      ensures exec.Healthy? ==> err == None && repo.notes == Remove(old(repo.notes), id)
      ensures createdAt == old(createdAt) && updatedIds == old(updatedIds)
    {
      err := repo.Delete(id, exec);
    }
  }

  /** A note's life on a new database: created as the first note, updated,
      deleted, and then no longer found. */
  method CreateUpdateDeleteWalkthrough(t0: Time, t1: Time)
  {
    var repo := new NoteRepository();
    var service := new NoteService(repo);

    var created := service.CreateNote("A", "B", "", t0, Healthy, Healthy);
    assert created == Success(Note(1, "", "A", "B", t0, None));

    var again := service.GetNoteByID(1, Healthy);
    assert again == created;

    var updated := service.UpdateNote(1, "A2", "B2", "x.png", t1, Healthy, Healthy);
    assert updated == Success(Note(1, "x.png", "A2", "B2", t0, Some(t1)));

    var err := service.DeleteNote(1, Healthy);
    assert err == None;
    var gone := service.GetNoteByID(1, Healthy);
    assert gone == Failure(NoRows);

    var next := service.CreateNote("C", "D", "", t1, Healthy, Healthy);
    assert next.Success? && next.value.id == 2;
  }
}
