# Notes backend, modelled in Dafny

A model of a small note-taking backend written in Go. The backend keeps notes in one
SQLite table, `notes`. A note has a title, a content, an image path, a creation time and
an optional update time. The backend puts a lifecycle service over that table, which stamps
the times. An Echo HTTP layer sits on top and answers each request with a status code and a
JSON envelope. A Gemini adapter checks image file names and builds the prompt that asks the
model to analyse a note.

The project has one module per layer:

- `Wrappers` (`wrappers.dfy`): `Option` and `Result`. These are Go's nil pointer and its
  `(value, error)` pair.
- `Notes` (`notes.dfy`): the `Note` record (model/note.go) and the errors the store reports.
- `Repository` (`note_repository.dfy`): the table as a class `NoteRepository` holding:
  - a map from id to row;
  - the AUTOINCREMENT counter;
  - a ghost set of every id ever issued.

  Each of the five statements is a method. Each method is tied to a pure function that gives
  its effect on the rows: `Lookup`, `Insert`, `Overwrite` or `Remove`. For the full-table
  SELECT, `IsScan` says what it may return, in any order. Lemmas prove that any two scans are
  permutations of each other and that a scan holds exactly the stored rows.
- `Service` (`note_service.dfy`): class `NoteService`. Its invariant is the lifecycle the
  timestamps promise:
  - a stored note keeps the created_time it was created with;
  - its updated_time is set exactly when the note has been updated.

  The ghost record behind it (each id's creation time, and the set of updated ids) changes
  only as each operation's contract says.
- `Gemini` (`gemini_service.dfy`): the pure parts of service/gemini_service.go:
  - `detectImageFormat`, over `filepath.Ext` and `strings.ToLower`;
  - the format check of `HandleRequest`;
  - the analysis prompt, with a proof that the prompt can be read back into request, content
    and image path.
- `Api` (`handlers.dfy`): class `NoteHandler` with the six handlers. Each one returns
  `(status, body)`. Its contract gives every branch: 400, 404, 500 and the success status.
  `notesToResponse` is a loop over an array.

Anything the program cannot control is an input of the operation that meets it:

- Each SQL statement takes a `Driver` (`Healthy` or `Broken(msg)`), which stands for a
  database fault.
- The current time is `now`.
- The Gemini model call is `generate`.
- The time layout is `formatTime`.
- The framework's decoding of the `:id` parameter and of the JSON body has already happened:
  the handlers get a `Result` or an `Option`.

The model follows the code, including three behaviours a reader might not expect:

- An UPDATE of an absent id succeeds silently in the repository (`Repository.Overwrite`
  leaves the rows alone). The failure is only seen when the service reads the row back, so
  the handler answers 500, not 404.
- GetAll never calls `rows.Err()`. When iterating the rows fails, `rows.Next()` just
  returns false, and GetAll answers with the rows read so far and no error. The model
  gives this silent, truncated success (the `StopsEarly` outcome of an `Iteration`).
- A failed LastInsertId after a successful INSERT leaves the new row stored, although the
  client gets a 500.

## Model

| member | source | states |
|---|---|---|
| Notes.ErrorText | api/handlers.go:194-196 | the text of `err.Error()`: a driver's message is passed on unchanged; sql.ErrNoRows and SQLite's "disk full" have fixed texts, each belonging to that error alone |
| Repository.Lookup | repository/note_repository.go:33-39 | the SELECT by key succeeds exactly when a row has the key, and then gives that row; otherwise it fails with sql.ErrNoRows |
| Repository.Insert | repository/note_repository.go:19-23 | the INSERT adds exactly the new key; the row stored under it carries that key as its id; every other row is unchanged |
| Repository.Overwrite | repository/note_repository.go:63-67 | the UPDATE keeps the set of keys and every other row. On the matching row it replaces img, title, content and updated_time and keeps id and created_time. An absent id changes nothing |
| Repository.Remove | repository/note_repository.go:70-73 | the DELETE removes exactly that key and keeps every other row; the id is no longer found afterwards; an absent id changes nothing |
| Repository.ScanLength | repository/note_repository.go:43-60 | a full-table scan returns as many notes as the table holds rows |
| Repository.ScanOccurrences | repository/note_repository.go:43-60 | no note occurs twice in a scan |
| Repository.ScanIsUniqueUpToOrder | repository/note_repository.go:43-60 | any two scans of the same table are permutations of each other: the missing ORDER BY only affects order |
| Repository.ScanOfEmptyTable | repository/note_repository.go:43-60 | a scan is empty exactly when the table is empty |
| Repository.NoteRepository.constructor | main.go:66-73 | a new table has no rows and has issued no id |
| Repository.NoteRepository.Create | repository/note_repository.go:19-28 | Once the counter is at the largest row id, the insert fails with SQLITE_FULL. A failed insert changes nothing. Otherwise the new id is one past every id ever issued, so ids are never reused, and the row is stored. A failed LastInsertId returns 0 and the error, with the row already stored |
| Repository.NoteRepository.GetByID | repository/note_repository.go:32-40 | a fault is returned as is; otherwise the result is the row with that key (its id is the key) or sql.ErrNoRows when there is none |
| Repository.NoteRepository.GetAll | repository/note_repository.go:43-60 | A failed query returns its error. A Scan that fails before the end returns its error and no notes. An iteration that stops early returns that many distinct stored rows as a success. Otherwise the loop collects each stored row once and nothing else (`IsScan`) |
| Repository.NoteRepository.Update | repository/note_repository.go:63-67 | a failed statement changes nothing; otherwise the rows become `Overwrite` of the old rows; the counter and issued ids are unchanged |
| Repository.NoteRepository.Delete | repository/note_repository.go:70-73 | a failed statement changes nothing; otherwise the rows become `Remove` of the old rows; ids are not reissued |
| Service.NoteService.constructor | service/note_service.go:15-17 | the service wraps the given repository and its lifecycle invariant holds |
| Service.NoteService.CreateNote | service/note_service.go:20-35 | Succeeds exactly when the counter has room and both statements succeed. The note returned has the new id, the given img, title and content, created_time `now` and a null updated_time, and it is what the table now holds under that id. Each failure gives its cause, the rows, the counter and the issued ids. A failed LastInsertId leaves the row stored. The record of creation times gains exactly the new id with `now` |
| Service.NoteService.GetAllNotes | service/note_service.go:38-40 | the repository's outcome passed on: every stored note once in table order, the notes read before an early stop, or the fault |
| Service.NoteService.GetNoteByID | service/note_service.go:43-45 | the stored note with that id, sql.ErrNoRows when there is none, or the fault |
| Service.NoteService.UpdateNote | service/note_service.go:48-70 | Succeeds exactly when both statements succeed and the id is stored. The note read back has the same id and created_time, the new img, title and content, and updated_time `now`. An absent id leaves the table unchanged and fails with sql.ErrNoRows at the read-back. Creation times never change, and the id joins the updated set exactly when the UPDATE ran on a stored row |
| Service.NoteService.DeleteNote | service/note_service.go:73-75 | the stored row is removed, or on a fault nothing changes; the counter, the issued ids and the lifecycle record stay the same |
| Gemini.Ext | service/gemini_service.go:116 | the extension is a suffix of the path |
| Gemini.ExtIsLastDotSuffix | service/gemini_service.go:116 | filepath.Ext returns "" or a dot followed by neither dot nor '/'. It returns "" only when every dot in the path is followed by a separator |
| Gemini.ToLower | service/gemini_service.go:116 | lower-casing keeps the length of the text |
| Gemini.FormatOfExtension | service/gemini_service.go:117-124 | "jpeg" exactly for ".jpg" and ".jpeg", "png" exactly for ".png", "" for every other extension |
| Gemini.ToLowerAt | service/gemini_service.go:116 | lower-casing works character by character |
| Gemini.DetectImageFormat | service/gemini_service.go:115-125 | the format is always "jpeg", "png" or "" |
| Gemini.ExtOfSuffix | service/gemini_service.go:115-125 | whatever precedes a final ".xyz" with no further dot or separator, the extension is ".xyz" |
| Gemini.ExtOfLower | service/gemini_service.go:116 | lower-casing the path lower-cases its extension and does not move it |
| Gemini.ToLowerIdempotent | service/gemini_service.go:116 | lower-casing twice is lower-casing once |
| Gemini.DetectIgnoresCase | service/gemini_service.go:115-125 | the detected format does not depend on the letter case of the file name |
| Gemini.DetectBySuffix | service/gemini_service.go:117-124 | A name whose last extension is .jpg or .jpeg, in any case, is "jpeg". One whose last extension is .png is "png". Every other extension gives "" |
| Gemini.NoDotNoFormat | service/gemini_service.go:115-125 | a file name without a dot has no format |
| Gemini.ExtOfLastElement | service/gemini_service.go:116 | only the last path element counts for the extension |
| Gemini.DetectUpperCase | service/gemini_service.go:115-125 | "A.PNG" is "png" |
| Gemini.DetectDoubleExtension | service/gemini_service.go:115-125 | "x.png.jpg" is "jpeg" and "x.jpg.txt" has no format: only the last extension counts |
| Gemini.DetectWithoutExtension | service/gemini_service.go:115-125 | "photo" and "dir.png/photo" have no format |
| Gemini.CheckImageFormats | service/gemini_service.go:79-85 | generation goes ahead exactly when both files have a supported format, and with those two formats; otherwise the answer is 400 |
| Gemini.AnalysisPrompt | service/gemini_service.go:131-133 | the prompt starts with the request label, ends with the image path, and is as long as its six parts |
| Gemini.PromptIgnoresTitle | service/gemini_service.go:132 | the prompt depends only on the request text, the content and the image path; title, id and times are not sent |
| Gemini.ParseAnalysisPrompt | service/gemini_service.go:132 | when request and content are single lines, the prompt can be read back into exactly the request, the content and the image path |
| Gemini.AnalyzeNoteContentAndImage | service/gemini_service.go:127-146 | the answer is the model's answer to the analysis prompt, and it is the same for any note with the same content and image path: id, title and times are not sent |
| Api.FormatOptionalTime | api/handlers.go:43-49 | null exactly when the time is nil; otherwise the formatted time |
| Api.ToResponse | api/handlers.go:88-95 | the response copies id, img, title and content, formats created_time, and has a null updated_time exactly when the note has none |
| Api.NotesToResponse | api/handlers.go:166-179 | the response list has one entry per note, in the same order, entry i built from note i |
| Api.ListedExactlyTheStoredNotes | api/handlers.go:148-179 | the list response names each stored note exactly once and nothing else, and is as long as the table |
| Api.NoteHandler.constructor | api/handlers.go:22-27 | the handler holds the given service and time layout |
| Api.NoteHandler.CreateNoteHandler | api/handlers.go:60-99 | An unbindable body gives 400 "Invalid request format" and changes nothing. It is 201 exactly when the insert goes through: the note with the next id, the requested img (an empty img stays empty), created_time `now` and a null updated_time is stored and returned. Otherwise 500 with the error text of each cause. Each branch gives the rows, the counter and the issued ids: a failed LastInsertId leaves the new row stored behind the 500 |
| Api.NoteHandler.UpdateNoteHandler | api/handlers.go:102-145 | A malformed id or body gives 400 and changes nothing. It is 200 exactly when both statements succeed and the id is stored, and the answer is the overwritten note. Every other case is 500. A failed UPDATE is a 500 with its message that changes nothing. A failed read-back is a 500 with the row already overwritten. An absent id is a 500 with sql.ErrNoRows that changes nothing. The counter and issued ids never change |
| Api.NoteHandler.GetAllNotesHandler | api/handlers.go:148-163 | A failed query or Scan is 500 with its message. Otherwise 200, with one response per note read, in scan order. After an early stop that is the notes read until then. Otherwise it is every stored note once |
| Api.NoteHandler.GetNoteByIDHandler | api/handlers.go:182-213 | A malformed id is 400 with the parser's message. A fault or an absent id is 404. Otherwise 200 with the stored note, whose id is the requested one |
| Api.NoteHandler.DeleteNoteHandler | api/handlers.go:216-244 | A malformed id is 400. A failed lookup or an absent id is 404. A failed delete is 500. In each of these nothing changes. It is 200 exactly when the note was stored and the delete succeeded, and then exactly that note is gone. The counter and issued ids never change, so a deleted id is never handed out again |
| Api.NoteHandler.AnalyzeNoteHandler | api/handlers.go:247-288 | A malformed id is 400. A failed lookup or an absent note is 404, checked before the request text. An empty request text is 400. Otherwise the model's answer to the note's prompt: 200 with its text, or 500 with its error |

## Left out

- HTTP routing and CORS (api/routes.go, main.go).
- Echo's binding of JSON, form and path values, and `strconv.Atoi` (api/handlers.go): their
  outcome is an input of each handler.
- JSON serialisation of the response envelopes, and `log.Printf`.
- The network calls to the generative model (`GenerateContent`) and `json.Marshal` of its
  answer. In `AnalyzeNoteContentAndImage` both are the parameter `generate`.
- HandleRequest beyond its format check: multipart parsing, file reading, the two-image
  model call and the error replies that follow. The format check is `CheckImageFormats`.
- gemini/gemini.go (client construction), config/config.go, utils/utils.go (image saving)
  and the wiring in main.go: setup and I/O, outside the core.
- `time.Now` and the "2006-01-02 15:04:05" layout: `now` and `formatTime` are parameters,
  and a time is an abstract instant. So nothing says that a later update has a later
  updated_time: the clock is not modelled. Times are assumed to survive the round trip
  through the DATETIME columns unchanged.
- Gemini.ToLower: lower-cases ASCII letters only. Go's `strings.ToLower` also maps other
  Unicode letters. The format switch only compares against ASCII extensions.
- Gemini.Ext: '/' is the only path separator, as on Unix.
- Repository.NoteRepository.GetAll: an `Iteration` value says where the row loop goes
  wrong, at most once per call. Several faults in one call are not modelled.
- Go's `int` is 64 bits; ids are unbounded integers here, bounded by SQLite's largest row
  id in `Repository.NoteRepository.Create`.
- NULL title or img columns, which the Go scan into `string` would reject: the program
  never writes them.
