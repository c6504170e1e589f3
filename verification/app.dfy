/**
 * The request handlers of the HTTP API (backend/app.py), as pure functions
 * from the store and a parsed request to a response and, for the handlers
 * that write, the new store. Routing, body parsing and serialization are
 * the framework's and are not modelled.
 */
module App {
  import opened Wrappers
  import opened Models
  import opened Store
  import opened AiService

  const StatusOk: nat := 200
  const StatusCreated: nat := 201
  const StatusNoContent: nat := 204
  const StatusNotFound: nat := 404

  /** What a response carries. */
  datatype Body =
    | NoteView(note: NoteOut)
    | NoteViews(notes: seq<NoteOut>)
    | AiView(ai: AIResult)
    | Status(status: string, aiEnabled: bool)
    | Detail(message: string)
    | NoBody

  datatype Response = Response(status: nat, body: Body)

  /** The error every handler answers with when the note does not exist. */
  const NotFound: Response := Response(StatusNotFound, Detail("Note not found"))

  /** `GET /api/health`: the service is up, and whether a provider is configured. */
  function Health(cfg: Config): (r: Response)
    ensures r.status == StatusOk && r.body.Status? && r.body.status == "ok"
    ensures r.body.aiEnabled <==> (cfg.endpoint.Some? && cfg.endpoint.value != ""
                                   && cfg.apiKey.Some? && cfg.apiKey.value != "")
  {
    Response(StatusOk, Status("ok", IsAiEnabled(cfg)))
  }

  /** `POST /api/notes`: stores a new note and answers 201 with its view. */
  function CreateNote(s: NoteStore, data: NoteCreate, id: string, now: Timestamp): (r: Step<Response>)
    requires IsNoteId(id)
    ensures r.value.status == StatusCreated && r.value.body.NoteView?
    ensures id in r.store.notes && FromOut(r.value.body.note) == r.store.notes[id]
    ensures var out := r.value.body.note;
            out.id == id && out.title == data.title && out.content == data.content
            && out.createdAt == out.updatedAt == now
    ensures r.store == Create(s, data, id, now).store
  {
    var created := Create(s, data, id, now);
    Step(created.store, Response(StatusCreated, NoteView(ToOut(created.value))))
  }

  /** `GET /api/notes`: the views of every note, in the order the store lists them. */
  function ListNotes(s: NoteStore): (r: Response)
    ensures r.status == StatusOk && r.body.NoteViews?
    ensures |r.body.notes| == |ListAll(s)|
    ensures forall i :: 0 <= i < |ListAll(s)| ==> FromOut(r.body.notes[i]) == ListAll(s)[i]
  {
    Response(StatusOk, NoteViews(Views(ListAll(s))))
  }

  /** `GET /api/notes/{id}`: the note's view, or 404. */
  function GetNote(s: NoteStore, id: string): (r: Response)
    ensures r == NotFound <==> id !in s.notes
    ensures id in s.notes ==> r.status == StatusOk && r.body.NoteView?
                              && FromOut(r.body.note) == s.notes[id]
  {
    match Get(s, id)
    case None => NotFound
    case Some(rec) => Response(StatusOk, NoteView(ToOut(rec)))
  }

  /** `PUT /api/notes/{id}`: applies the partial update and answers with the new view, or 404. */
  function UpdateNote(s: NoteStore, id: string, data: NoteUpdate, now: Timestamp): (r: Step<Response>)
    ensures id !in s.notes ==> r == Step(s, NotFound)
    ensures id in s.notes ==>
              && r.value.status == StatusOk && r.value.body.NoteView?
              && id in r.store.notes && FromOut(r.value.body.note) == r.store.notes[id]
              && r.value.body.note.title == data.title.GetOr(s.notes[id].title)
              && r.value.body.note.content == data.content.GetOr(s.notes[id].content)
              && r.value.body.note.updatedAt == now
    ensures r.store == Update(s, id, data, now).store
  {
    var updated := Update(s, id, data, now);
    match updated.value
    case None => Step(updated.store, NotFound)
    case Some(rec) => Step(updated.store, Response(StatusOk, NoteView(ToOut(rec))))
  }

  /** `DELETE /api/notes/{id}`: 204 with no body when a note was removed, 404 otherwise. */
  function DeleteNote(s: NoteStore, id: string): (r: Step<Response>)
    ensures r.value == Response(StatusNoContent, NoBody) <==> id in s.notes
    ensures r.value == NotFound <==> id !in s.notes
    ensures id !in r.store.notes
    ensures r.store == Delete(s, id).store
  {
    var deleted := Delete(s, id);
    if !deleted.value then Step(deleted.store, NotFound)
    else Step(deleted.store, Response(StatusNoContent, NoBody))
  }

  /**
   * `POST /api/notes/{id}/ai/{action}`: 404 when the note is missing;
   * otherwise the dispatcher's answer on the note's content, tagged with
   * the path id and the action's value.
   */
  function AiAction(s: NoteStore, id: string, action: AIAction, cfg: Config): (r: Response)
    ensures r == NotFound <==> id !in s.notes
    ensures id in s.notes ==>
              && r.status == StatusOk && r.body.AiView?
              && r.body.ai.noteId == id
              && FromValue(r.body.ai.action) == Some(action)
              && r.body.ai.result == RunAiAction(action, s.notes[id].content, cfg)
    ensures id in s.notes && !IsAiEnabled(cfg) ==> r.body.ai.result == MockResponse(action)
  {
    match Get(s, id)
    case None => NotFound
    case Some(rec) =>
      ValueRoundTrip(action);
      var result := RunAiAction(action, rec.content, cfg);
      Response(StatusOk, AiView(AIResult(id, Value(action), result)))
  }

  /** On a valid store, listing answers one view per stored note. */
  lemma ListNotesSize(s: NoteStore)
    requires Valid(s)
    ensures |ListNotes(s).body.notes| == |s.notes|
  {
    ListAllSize(s);
  }

  /** Listing answers the views newest first. */
  lemma ListNotesNewestFirst(s: NoteStore)
    ensures var views := ListNotes(s).body.notes;
            forall i, j :: 0 <= i < j < |views| ==> views[i].createdAt >= views[j].createdAt
  {
  }

  /** On a valid store, listing answers the view of every stored note. */
  lemma ListNotesHoldsStore(s: NoteStore)
    requires Valid(s)
    ensures forall k :: k in s.notes ==> ToOut(s.notes[k]) in ListNotes(s).body.notes
  {
    ListAllHoldsStore(s);
    var all := ListAll(s);
    var views := ListNotes(s).body.notes;
    forall k | k in s.notes
      ensures ToOut(s.notes[k]) in views
    {
      assert s.notes[k] in all;
      var i :| 0 <= i < |all| && all[i] == s.notes[k];
      assert ToOut(FromOut(views[i])) == views[i];
    }
  }

  /**
   * A session with the provider unconfigured: creating the note
   * "Meeting" answers 201 with equal timestamps; asking for a summary
   * answers the placeholder summary; deleting answers 204, after which
   * reading it answers 404.
   */
  lemma MeetingSession(cfg: Config, now: Timestamp)
    requires !IsAiEnabled(cfg)
    ensures var id := "3f2a9c0d1b7e";
            var created := CreateNote(Empty, NoteCreate("Meeting", "Discuss Q3 plan"), id, now);
            && created.value.status == StatusCreated
            && created.value.body.note.createdAt == created.value.body.note.updatedAt
            && AiAction(created.store, id, Summarize, cfg)
               == Response(StatusOk, AiView(AIResult(id, "summarize", MockResponse(Summarize))))
            && var deleted := DeleteNote(created.store, id);
               && deleted.value.status == StatusNoContent
               && GetNote(deleted.store, id) == NotFound
  {
    var id := "3f2a9c0d1b7e";
    assert IsNoteId(id);
  }
}
