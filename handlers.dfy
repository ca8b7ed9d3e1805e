/** The HTTP layer (api/handlers.go): each handler turns a request into a
    status code and a JSON body. What the web framework hands a handler (the
    parsed `:id` path parameter, the bound JSON body, the `request` form
    value) comes in as parameters, already decoded; the database faults of
    each statement come in as `Driver` values, as in the layers below. */
module Api {
  import opened Wrappers
  import opened Notes
  import opened Repository
  import opened Service
  import opened Gemini

  const StatusOK := 200
  const StatusCreated := 201
  const StatusBadRequest := 400
  const StatusNotFound := 404
  const StatusInternalServerError := 500

  /** A note as the API shows it: times rendered as text, and an
      updated_time that is null until the note is first updated. */
  datatype NoteResponse = NoteResponse(
    id: int,
    img: string,
    title: string,
    content: string,
    createdTime: string,
    updatedTime: Option<string>)

  /** The JSON bodies the handlers answer with. */
  datatype Body =
    | ErrorMessage(text: string)                           // {"error message": text}
    | NoteInfo(message: string, noteInfo: NoteResponse)    // {"message", "note_info"}
    | NoteList(message: string, notes: seq<NoteResponse>)  // {"message", "notes"}
    | Message(message: string)                             // {"message"}
    | AnalysisResult(message: string, result: string)      // {"message", "result"}

  /** The JSON body of a create request. The two time fields are accepted
      and not used. */
  datatype CreateNoteRequest = CreateNoteRequest(
    title: string, content: string, img: string, createdAt: string, updatedAt: string)

  /** The JSON body of an update request. */
  datatype UpdateNoteRequest = UpdateNoteRequest(title: string, content: string, img: string)

  /** formatOptionalTime: null stays null, a time is rendered with
      `formatTime`. */
  function FormatOptionalTime(t: Option<Time>, formatTime: Time -> string): (r: Option<string>)
    ensures r.None? <==> t.None?
    ensures t.Some? ==> r.value == formatTime(t.value)
  {
    match t
    case None => None
    case Some(v) => Some(formatTime(v))
  }

  /** The NoteResponse built for a note (the same literal in every handler
      and in notesToResponse). */
  function ToResponse(note: Note, formatTime: Time -> string): (r: NoteResponse)
    ensures r.id == note.id && r.img == note.img && r.title == note.title
    ensures r.content == note.content
    ensures r.createdTime == formatTime(note.createdTime)
    ensures r.updatedTime.None? <==> note.updatedTime.None?
  {
    NoteResponse(note.id, note.img, note.title, note.content,
                 formatTime(note.createdTime), FormatOptionalTime(note.updatedTime, formatTime))
  }

  /** notesToResponse: a response slice of the same length, filled in order,
      entry i built from note i. */
  method NotesToResponse(notes: seq<Note>, formatTime: Time -> string)
    returns (responses: seq<NoteResponse>)
    ensures |responses| == |notes|
    ensures forall i :: 0 <= i < |notes| ==> responses[i] == ToResponse(notes[i], formatTime)
  {
    var buffer := new NoteResponse[|notes|];
    for i := 0 to |notes|
      invariant forall k :: 0 <= k < i ==> buffer[k] == ToResponse(notes[k], formatTime)
    {
      buffer[i] := ToResponse(notes[i], formatTime);
    }
    responses := buffer[..];
  }

  /** Every entry of the list response answers a different note, and the
      list says which notes the table holds: a note is listed exactly when it
      is stored. */
  lemma ListedExactlyTheStoredNotes(rows: map<int, Note>, scanned: seq<Note>,
                                    responses: seq<NoteResponse>, formatTime: Time -> string)
    requires KeyedById(rows) && IsScan(rows, scanned)
    requires |responses| == |scanned|
    requires forall i :: 0 <= i < |scanned| ==> responses[i] == ToResponse(scanned[i], formatTime)
    ensures |responses| == |rows|
    ensures forall id :: id in rows <==> exists i :: 0 <= i < |responses| && responses[i].id == id
    ensures forall i, j :: 0 <= i < j < |responses| ==> responses[i].id != responses[j].id
  {
    ScanLength(rows, scanned);
    forall id | id in rows
      ensures exists i :: 0 <= i < |responses| && responses[i].id == id
    {
      var i :| 0 <= i < |scanned| && scanned[i] == rows[id];
      assert responses[i].id == id;
    }
  }

  /** NoteHandler: the service the handlers call, and how they render a time
      (Go's layout "2006-01-02 15:04:05"). */
  class NoteHandler {
    const noteService: NoteService
    const formatTime: Time -> string

    ghost predicate Valid()
      reads this, noteService, noteService.repo
    {
      noteService.Valid()
    }

    /** NewNoteHandler. The Gemini service is not held: its model call is a
        parameter of AnalyzeNoteHandler. */
    constructor (noteService: NoteService, formatTime: Time -> string)
      requires noteService.Valid()
      ensures this.noteService == noteService && this.formatTime == formatTime
      ensures Valid()
    {
      this.noteService := noteService;
      this.formatTime := formatTime;
    }

    /** POST /notes. A body that does not bind is a 400; a failed insert is a
        500 with the database's message; otherwise 201 with the new note,
        whose img is the requested one (an empty img stays empty). */
    method CreateNoteHandler(request: Option<CreateNoteRequest>, now: Time,
                             insert: Driver, lastInsertId: Driver)
      returns (status: int, body: Body)
      requires Valid()
      modifies noteService, noteService.repo
      ensures Valid()
      ensures request.None? ==>
        && status == StatusBadRequest && body == ErrorMessage("Invalid request format")
        && noteService.repo.notes == old(noteService.repo.notes)
        && noteService.repo.lastId == old(noteService.repo.lastId)
        && noteService.repo.issued == old(noteService.repo.issued)
      ensures request.Some? ==>
        (status == StatusCreated <==>
           old(noteService.repo.lastId) < MaxRowId && insert.Healthy? && lastInsertId.Healthy?)
      ensures status == StatusCreated ==>
        var note := Note(noteService.repo.lastId, request.value.img, request.value.title,
                         request.value.content, now, None);
        && noteService.repo.lastId == old(noteService.repo.lastId) + 1
        && noteService.repo.notes == old(noteService.repo.notes)[note.id := note]
        && body == NoteInfo("Note created successfully", ToResponse(note, formatTime))
      ensures request.Some? && old(noteService.repo.lastId) == MaxRowId ==>
        && status == StatusInternalServerError && body == ErrorMessage(ErrorText(Full))
        && noteService.repo.notes == old(noteService.repo.notes)
        && noteService.repo.lastId == old(noteService.repo.lastId)
        && noteService.repo.issued == old(noteService.repo.issued)
      ensures request.Some? && old(noteService.repo.lastId) < MaxRowId && insert.Broken? ==>
        && status == StatusInternalServerError && body == ErrorMessage(insert.msg)
        && noteService.repo.notes == old(noteService.repo.notes)
        && noteService.repo.lastId == old(noteService.repo.lastId)
        && noteService.repo.issued == old(noteService.repo.issued)
      ensures request.Some? && old(noteService.repo.lastId) < MaxRowId && insert.Healthy? ==>
        && noteService.repo.lastId == old(noteService.repo.lastId) + 1
        && noteService.repo.issued == old(noteService.repo.issued) + {noteService.repo.lastId}
        && noteService.repo.lastId !in old(noteService.repo.issued)
      ensures request.Some? && old(noteService.repo.lastId) < MaxRowId && insert.Healthy?
              && lastInsertId.Broken? ==>
        && status == StatusInternalServerError && body == ErrorMessage(lastInsertId.msg)
        && noteService.repo.notes == old(noteService.repo.notes)[noteService.repo.lastId :=
             Note(noteService.repo.lastId, request.value.img, request.value.title,
                  request.value.content, now, None)]
    {
      if request.None? {
        return StatusBadRequest, ErrorMessage("Invalid request format");
      }
      var req := request.value;
      var img := req.img;
      if img == "" {
        img := "";
      }
      var result := noteService.CreateNote(req.title, req.content, img, now, insert, lastInsertId);
      if result.Failure? {
        return StatusInternalServerError, ErrorMessage(ErrorText(result.error));
      }
      return StatusCreated, NoteInfo("Note created successfully", ToResponse(result.value, formatTime));
    }

    /** PUT /notes/:id. A malformed id or body is a 400 and changes nothing;
        every failure of the service, an absent id included, is a 500;
        otherwise 200 with the note as read back after the update. */
    method UpdateNoteHandler(idParam: Result<int, string>, request: Option<UpdateNoteRequest>,
                             now: Time, exec: Driver, query: Driver)
      returns (status: int, body: Body)
      requires Valid()
      modifies noteService, noteService.repo
      ensures Valid()
      ensures idParam.Failure? ==>
        status == StatusBadRequest && body == ErrorMessage("Invalid ID format")
        && noteService.repo.notes == old(noteService.repo.notes)
      ensures idParam.Success? && request.None? ==>
        status == StatusBadRequest && body == ErrorMessage("Invalid request format")
        && noteService.repo.notes == old(noteService.repo.notes)
      ensures idParam.Success? && request.Some? ==>
        && (status == StatusOK <==>
              exec.Healthy? && query.Healthy? && idParam.value in old(noteService.repo.notes))
        && (status != StatusOK ==> status == StatusInternalServerError && body.ErrorMessage?)
      ensures status == StatusOK ==>
        var updated := old(noteService.repo.notes)[idParam.value].(
          img := request.value.img, title := request.value.title,
          content := request.value.content, updatedTime := Some(now));
        && noteService.repo.notes == old(noteService.repo.notes)[idParam.value := updated]
        && body == NoteInfo("Note updated successfully", ToResponse(updated, formatTime))
      ensures idParam.Success? && request.Some? && idParam.value !in old(noteService.repo.notes) ==>
        noteService.repo.notes == old(noteService.repo.notes)
      ensures idParam.Success? && request.Some? && exec.Healthy? && query.Healthy?
              && idParam.value !in old(noteService.repo.notes) ==>
        body == ErrorMessage(ErrorText(NoRows))
      ensures idParam.Success? && request.Some? && exec.Broken? ==>
        && status == StatusInternalServerError && body == ErrorMessage(exec.msg)
        && noteService.repo.notes == old(noteService.repo.notes)
      ensures idParam.Success? && request.Some? && exec.Healthy? ==>
        noteService.repo.notes == Overwrite(old(noteService.repo.notes),
          Note(idParam.value, request.value.img, request.value.title, request.value.content,
               ZeroTime, Some(now)))
      ensures idParam.Success? && request.Some? && exec.Healthy? && query.Broken? ==>
        status == StatusInternalServerError && body == ErrorMessage(query.msg)
      ensures noteService.repo.lastId == old(noteService.repo.lastId)
      ensures noteService.repo.issued == old(noteService.repo.issued)
    {
      if idParam.Failure? {
        return StatusBadRequest, ErrorMessage("Invalid ID format");
      }
      var id := idParam.value;
      if request.None? {
        return StatusBadRequest, ErrorMessage("Invalid request format");
      }
      var req := request.value;
      var result := noteService.UpdateNote(id, req.title, req.content, req.img, now, exec, query);
      if result.Failure? {
        return StatusInternalServerError, ErrorMessage(ErrorText(result.error));
      }
      return StatusOK, NoteInfo("Note updated successfully", ToResponse(result.value, formatTime));
    }

    /** GET /notes: the stored notes, in the order the table yields them
      (`scanned`), or a 500 with the database's message. An iteration that
      stops early still answers 200, with the notes read until then. */
    method GetAllNotesHandler(query: Driver, iteration: Iteration)
      returns (status: int, body: Body, ghost scanned: seq<Note>)
      requires Valid()
      ensures query.Broken? ==> status == StatusInternalServerError && body == ErrorMessage(query.msg)
      ensures query.Healthy? && iteration.ScanFails? && Interrupted(iteration, |noteService.repo.notes|) ==>
        status == StatusInternalServerError && body == ErrorMessage(iteration.msg)
      ensures status == StatusOK <==>
        query.Healthy? && !(iteration.ScanFails? && Interrupted(iteration, |noteService.repo.notes|))
      ensures status == StatusOK ==>
        && IsPartialScan(noteService.repo.notes, scanned)
        && body.NoteList? && body.message == "Notes retrieved successfully"
        && |body.notes| == |scanned|
        && (forall i :: 0 <= i < |scanned| ==> body.notes[i] == ToResponse(scanned[i], formatTime))
      ensures status == StatusOK && iteration.StopsEarly? && Interrupted(iteration, |noteService.repo.notes|) ==>
        |scanned| == iteration.at
      ensures status == StatusOK && !Interrupted(iteration, |noteService.repo.notes|) ==>
        IsScan(noteService.repo.notes, scanned) && |body.notes| == |noteService.repo.notes|
    {
      var result := noteService.GetAllNotes(query, iteration);
      if result.Failure? {
        return StatusInternalServerError, ErrorMessage(ErrorText(result.error)), [];
      }
      scanned := result.value;
      var responses := NotesToResponse(result.value, formatTime);
      if !Interrupted(iteration, |noteService.repo.notes|) {
        ListedExactlyTheStoredNotes(noteService.repo.notes, scanned, responses, formatTime);
      }
      return StatusOK, NoteList("Notes retrieved successfully", responses), scanned;
    }

    /** GET /notes/:id. A malformed id is a 400 carrying the parser's own
        message; every failure of the lookup, an absent id or a database
        fault, is a 404. */
    method GetNoteByIDHandler(idParam: Result<int, string>, query: Driver)
      returns (status: int, body: Body)
      requires Valid()
      ensures idParam.Failure? ==> status == StatusBadRequest && body == ErrorMessage(idParam.error)
      ensures idParam.Success? && query.Broken? ==>
        status == StatusNotFound && body == ErrorMessage(query.msg)
      ensures idParam.Success? && query.Healthy? && idParam.value !in noteService.repo.notes ==>
        status == StatusNotFound && body == ErrorMessage(ErrorText(NoRows))
      ensures idParam.Success? && query.Healthy? && idParam.value in noteService.repo.notes ==>
        status == StatusOK
        && body == NoteInfo("Note retrieved successfully",
                            ToResponse(noteService.repo.notes[idParam.value], formatTime))
        && body.noteInfo.id == idParam.value
    {
      if idParam.Failure? {
        return StatusBadRequest, ErrorMessage(idParam.error);
      }
      var result := noteService.GetNoteByID(idParam.value, query);
      if result.Failure? {
        return StatusNotFound, ErrorMessage(ErrorText(result.error));
      }
      return StatusOK, NoteInfo("Note retrieved successfully", ToResponse(result.value, formatTime));
    }

    /** DELETE /notes/:id: look the note up first, so an absent id is a 404
        (and deletes nothing), then delete it; a failed delete is a 500. */
    method DeleteNoteHandler(idParam: Result<int, string>, query: Driver, exec: Driver)
      returns (status: int, body: Body)
      requires Valid()
      modifies noteService, noteService.repo
      ensures Valid()
      ensures status != StatusOK ==> noteService.repo.notes == old(noteService.repo.notes)
      ensures noteService.repo.lastId == old(noteService.repo.lastId)
      ensures noteService.repo.issued == old(noteService.repo.issued)
      ensures idParam.Failure? ==> status == StatusBadRequest && body == ErrorMessage("Invalid ID format")
      ensures idParam.Success? && query.Broken? ==>
        status == StatusNotFound && body == ErrorMessage(query.msg)
      ensures idParam.Success? && query.Healthy? && idParam.value !in old(noteService.repo.notes) ==>
        status == StatusNotFound && body == ErrorMessage(ErrorText(NoRows))
      ensures idParam.Success? && query.Healthy? && idParam.value in old(noteService.repo.notes)
              && exec.Broken? ==>
        status == StatusInternalServerError && body == ErrorMessage(exec.msg)
      ensures status == StatusOK <==>
        idParam.Success? && query.Healthy? && idParam.value in old(noteService.repo.notes) && exec.Healthy?
      ensures status == StatusOK ==>
        && body == Message("Note deleted successfully")
        && noteService.repo.notes == Remove(old(noteService.repo.notes), idParam.value)
        && idParam.value !in noteService.repo.notes
        && |noteService.repo.notes| == |old(noteService.repo.notes)| - 1
    {
      if idParam.Failure? {
        return StatusBadRequest, ErrorMessage("Invalid ID format");
      }
      var id := idParam.value;
      var found := noteService.GetNoteByID(id, query);
      if found.Failure? {
        return StatusNotFound, ErrorMessage(ErrorText(found.error));
      }
      var err := noteService.DeleteNote(id, exec);
      if err.Some? {
        return StatusInternalServerError, ErrorMessage(ErrorText(err.value));
      }
      return StatusOK, Message("Note deleted successfully");
    }

    /** POST /notes/:id/analyze: the note is looked up before the request
        text is checked, so an absent note is a 404 even without a request
        text; a failed model call is a 500. */
    method AnalyzeNoteHandler(idParam: Result<int, string>, query: Driver, requestText: string,
                              generate: string -> Result<string, string>)
      returns (status: int, body: Body)
      requires Valid()
      ensures idParam.Failure? ==> status == StatusBadRequest && body == ErrorMessage("Invalid ID format")
      ensures idParam.Success? && query.Broken? ==>
        status == StatusNotFound && body == ErrorMessage(query.msg)
      ensures idParam.Success? && query.Healthy? && idParam.value !in noteService.repo.notes ==>
        status == StatusNotFound && body == ErrorMessage(ErrorText(NoRows))
      ensures idParam.Success? && query.Healthy? && idParam.value in noteService.repo.notes
              && requestText == "" ==>
        status == StatusBadRequest && body == ErrorMessage("Request text is required")
      ensures status == StatusOK ==>
        && idParam.Success? && query.Healthy? && idParam.value in noteService.repo.notes
        && requestText != ""
        && var note := noteService.repo.notes[idParam.value];
           && body.AnalysisResult? && body.message == "Note analyzed successfully"
           && generate(AnalysisPrompt(requestText, note)) == Success(body.result)
      ensures idParam.Success? && query.Healthy? && idParam.value in noteService.repo.notes
              && requestText != "" ==>
        var answer := generate(AnalysisPrompt(requestText, noteService.repo.notes[idParam.value]));
        (status == StatusOK <==> answer.Success?)
        && (answer.Failure? ==> status == StatusInternalServerError && body == ErrorMessage(answer.error))
    {
      if idParam.Failure? {
        return StatusBadRequest, ErrorMessage("Invalid ID format");
      }
      var found := noteService.GetNoteByID(idParam.value, query);
      if found.Failure? {
        return StatusNotFound, ErrorMessage(ErrorText(found.error));
      }
      var note := found.value;
      if requestText == "" {
        return StatusBadRequest, ErrorMessage("Request text is required");
      }
      var answer := AnalyzeNoteContentAndImage(note, requestText, generate);
      if answer.Failure? {
        return StatusInternalServerError, ErrorMessage(answer.error);
      }
      return StatusOK, AnalysisResult("Note analyzed successfully", answer.value);
    }
  }
}
