# Smart Notes: a Dafny model of the note service core

Smart Notes is a small note-taking web service. Its logic is:

- an in-memory **note store**: a map from note id to note record, with create, list, get, partial
  update and delete;
- the **note entity**: id, title, content, and creation and update timestamps, plus the request and
  response shapes;
- an **AI dispatcher**: three actions (summarize, action items, sentiment), a placeholder text for
  each, and a check of whether a provider is configured;
- the **request handlers**, which turn store and dispatcher results into HTTP statuses and bodies.

The model is functional. The store is a value, `NoteStore(notes, order)`. `notes` is a
`map<string, NoteRecord>`. `order` lists the ids in insertion order, which is the order a Python
dict yields its values in. Each operation returns the new store together with its result. The
inputs the service takes from its environment are parameters:

- the fresh id (a uuid4 prefix);
- the clock reading (`Timestamp`, an integer instant);
- the provider configuration (`Config`, each variable `None` when unset).

Files, one module each:

- `wrappers.dfy`: `Option`.
- `models.dfy`: the note entity and the request/response shapes.
- `ordering.dfy`: the stable newest-first sort behind `list_all`.
- `store.dfy`: the note store.
- `ai_service.dfy`: the AI dispatcher.
- `app.dfy`: the handlers.

Three behaviours of the code are worth knowing:

- The docstring of `run_ai_action` (backend/ai_service.py:38) promises mock data only while no
  provider is configured. But the enabled path (backend/ai_service.py:65) returns the placeholder
  too, because the provider call is commented out. So no provider error can occur.
- Notes created at the same instant are listed in insertion order. The sort is stable over dict
  order, not "arbitrary".
- Ids are not guaranteed unique. Creating under an id that is already present replaces that note,
  and the note keeps its place in insertion order.

## Model

| member | source | states |
|---|---|---|
| Models.NewRecord | backend/models.py:44-51 | a new note carries the given title and content, the supplied 12-hex-digit id, and one clock reading as both its creation and update time |
| Models.ToOut | backend/models.py:53-60 | the public view reads back as exactly the record it was made from, so no field is dropped or altered |
| Models.ToOutInjective | backend/models.py:53-60 | distinct records have distinct public views |
| Models.FromOutRoundTrip | backend/models.py:53-60 | every public view is the view of the record it reads back as, so view and record correspond one to one |
| Models.Views | backend/app.py:29-31 | the list of views has one view per record, position by position, each reading back as that record |
| Store.Get | backend/store.py:27-28 | lookup answers absent exactly when the id is not a key, and otherwise the stored note |
| Store.Create | backend/store.py:19-22 | the new note is found under its id with the given title and content and equal timestamps; every other id is unaffected; the store grows by one only for a fresh id, and an existing id is overwritten in place; validity is preserved |
| Store.Apply | backend/store.py:34-38 | a supplied title or content (even empty) replaces the stored one and an omitted one is kept; the update time is always the current reading; id and creation time never change |
| Store.Update | backend/store.py:30-39 | an absent id answers absent with the store unchanged; a present id answers the updated note, which is what the store now holds; no other id, key or insertion position changes |
| Store.Without | backend/store.py:41-42 | removing an id from the insertion order keeps every other id and keeps them distinct, and shortens the order by one exactly when the id was there |
| Store.WithoutKeepsOrder | backend/store.py:41-42 | removing an id that occurs once in the insertion order leaves exactly the ids before it followed by the ids after it |
| Store.Delete | backend/store.py:41-42 | the answer is true exactly when the id was present; afterwards the id is absent, every other id is unaffected, and the size drops by one only if something was removed; a valid store with nothing to remove is returned unchanged |
| Store.OrderCoversStore | backend/store.py:17-21 | in a valid store the insertion order lists as many ids as the store holds notes |
| Store.InsertionOrderExact | backend/store.py:24-25 | in a valid store the dict-order listing holds the note of each key, position by position in insertion order |
| Store.InsertionOrderDistinctIds | backend/store.py:24-25 | no two notes of the dict-order listing of a valid store share an id |
| Store.ListAll | backend/store.py:24-25 | the listing is a rearrangement of the notes in dict order, newest first |
| Store.ListAllSize | backend/store.py:24-25 | the listing is as long as the store is large |
| Store.ListAllHoldsStore | backend/store.py:24-25 | the listing holds every stored note and nothing else |
| Store.ListAllOnceEach | backend/store.py:24-25 | the listing holds each note once: no two listed notes share an id |
| Store.ListAllOrdered | backend/store.py:24-25 | the listing is newest first, and notes created at the same instant keep insertion order |
| Store.ListAllUnique | backend/store.py:24-25 | any newest-first arrangement that keeps same-instant notes in insertion order is exactly the listing |
| Store.CreateListedFirst | backend/store.py:19-25 | a note created under a fresh id after every stored note is listed first |
| Store.StoreStaysChronological | backend/store.py:19-42 | creation time at or before update time survives create and delete, and survives update when the clock has not gone back |
| Store.IdsStayWellShaped | backend/store.py:19-42 | keys only ever come from generated ids: create with a well-shaped id, update and delete keep every key 12 lowercase hex digits |
| Store.EmptyUpdateOnlyTouches | backend/models.py:23-25 | an update request with both fields left at their default changes only the note's update time, and still refreshes it |
| Store.UpdateIdempotent | backend/store.py:30-39 | repeating an update at the same instant changes nothing further |
| Store.DeleteIsFinal | backend/store.py:41-42 | after a delete the id is absent, and a second delete answers false and leaves a valid store as it was |
| Store.EmptyIsValid | backend/store.py:16-17 | the initial store satisfies the store invariant, has only well-shaped keys, and lists nothing |
| Ordering.Insert | backend/store.py:24-25 | inserting a note keeps the other notes, adds it once, and keeps a newest-first list newest first |
| Ordering.SortNewestFirst | backend/store.py:24-25 | the sort is a permutation of its input and orders creation times from newest to oldest |
| Ordering.InsertStable | backend/store.py:24-25 | inserting a note puts it ahead of the notes created at its instant and keeps their order |
| Ordering.SortStable | backend/store.py:24-25 | the sort is stable: notes created at one instant keep their input order |
| Ordering.SortIsTheStableNewestFirst | backend/store.py:24-25 | the stable newest-first order of a list is unique, so the sort's result is the only one |
| AiService.Value | backend/ai_service.py:18-21 | the string values are summarize, action_items and sentiment, one per action |
| AiService.FromValue | backend/ai_service.py:18-21 | looking an action up by its string value returns only the action with that value |
| AiService.ValueRoundTrip | backend/ai_service.py:18-21 | each action's string value looks up as that action |
| AiService.ExactlyThreeActions | backend/ai_service.py:18-21 | exactly the strings summarize, action_items and sentiment name an action, and no two actions share one |
| AiService.MockResponse | backend/ai_service.py:24-28 | every action has a non-empty placeholder |
| AiService.MockResponsesDistinct | backend/ai_service.py:24-28 | different actions have different placeholders |
| AiService.IsAiEnabled | backend/ai_service.py:31-32 | a provider counts as configured exactly when both the endpoint and the API key are set and non-empty |
| AiService.DeploymentIrrelevant | backend/ai_service.py:31-32 | the deployment name plays no part in the capability flag |
| AiService.RunAiAction | backend/ai_service.py:35-65 | without a provider the answer is the action's placeholder, and the answer is never empty |
| AiService.RunDependsOnActionOnly | backend/ai_service.py:40-65 | as written, the answer is the placeholder on both paths, whatever the content and configuration |
| App.Health | backend/app.py:19-21 | health always answers 200 with status "ok" and the capability flag |
| App.CreateNote | backend/app.py:24-26 | create answers 201 with the view of the note now stored under the new id, carrying the given title and content and equal timestamps |
| App.ListNotes | backend/app.py:29-31 | list answers 200 with the views of the notes in exactly the order the store lists them |
| App.ListNotesSize | backend/app.py:29-31 | on a valid store, list answers as many views as there are notes |
| App.ListNotesNewestFirst | backend/app.py:29-31 | list answers the views newest first |
| App.ListNotesHoldsStore | backend/app.py:29-31 | on a valid store, list answers the view of every stored note |
| App.GetNote | backend/app.py:34-39 | get answers 404 "Note not found" exactly when the id is absent, and otherwise 200 with the stored note's view |
| App.UpdateNote | backend/app.py:42-47 | update answers 404 with the store unchanged for an absent id, and otherwise 200 with the view of the updated note (supplied fields replaced, update time refreshed) |
| App.DeleteNote | backend/app.py:50-53 | delete answers 204 with no body exactly when a note was removed, and 404 exactly when there was none; afterwards the id is absent |
| App.AiAction | backend/app.py:56-62 | an AI request on a missing note answers 404; otherwise 200 with the path id, the action's string value, and the dispatcher's answer on the note's content, which is the placeholder when no provider is configured |
| App.MeetingSession | backend/app.py:24-62 | a concrete session: create answers 201 with equal timestamps, a summary answers the placeholder summary, and after a 204 delete a get answers 404 |

## Left out

- HTTP routing, body parsing and validation are the framework's (backend/app.py:5-13). So is the
  rejection of an unknown action path segment (backend/app.py:57). The handlers take a parsed
  request and a typed `AIAction`. A create request missing a field cannot be written, because
  `NoteCreate` has both fields.
- Serving the static frontend and favicon (backend/app.py:67-74) is file I/O.
- The process environment (backend/ai_service.py:32) is not read. The model takes the values as
  the `Config` parameter.
- Id generation (`uuid.uuid4().hex[:12]`, backend/models.py:46) is random. The id is a parameter,
  and `IsNoteId` (12 lowercase hex digits) is a precondition. Nothing guarantees uniqueness, so
  freshness is a precondition of the lemmas that need it.
- The wall clock and ISO-8601 formatting (backend/models.py:49, backend/store.py:38) are not
  modelled. Timestamps are integer instants. The source sorts the ISO strings, and for these
  strings string order agrees with time order. That creation time is at or before update time
  holds only when the clock does not go back, which `Store.StoreStaysChronological` takes as a
  precondition.
- The commented-out Azure OpenAI call, its prompts and errors, and async/await
  (backend/ai_service.py:43-63) are not live code.
- The module-level singleton store (backend/store.py:46) and concurrent request handling are not
  modelled. The store is an explicit value threaded through the handlers.
- App.AiAction: does not state that the dispatcher is skipped for a missing note. The dispatcher
  is a pure function here, so whether it is called is not observable.
