/**
 * The note entity and the request/response shapes exchanged with clients
 * (backend/models.py).
 */
module Models {
  import opened Wrappers

  /**
   * A reading of the UTC wall clock. The service stores it as an ISO-8601
   * string; here it is the instant itself, ordered as integers.
   */
  type Timestamp = int

  /** The characters of a lowercase hexadecimal string. */
  const HexDigits: string := "0123456789abcdef"

  /** A note id is the first 12 characters of a uuid4 hex string. */
  const IdLength: nat := 12

  /** The shape every generated note id has: 12 lowercase hex digits. */
  predicate IsNoteId(id: string)
  {
    |id| == IdLength && forall i :: 0 <= i < |id| ==> id[i] in HexDigits
  }

  /** Body of a create request: both fields are required. */
  datatype NoteCreate = NoteCreate(title: string, content: string)

  /** Body of an update request: either field may be omitted. */
  datatype NoteUpdate = NoteUpdate(title: Option<string>, content: Option<string>)

  /** The update request with every field left at its default. */
  const EmptyUpdate: NoteUpdate := NoteUpdate(None, None)

  /** The public view of a note returned to clients. */
  datatype NoteOut = NoteOut(
    id: string,
    title: string,
    content: string,
    createdAt: Timestamp,
    updatedAt: Timestamp)

  /** The answer to an AI request. */
  datatype AIResult = AIResult(noteId: string, action: string, result: string)

  /** A stored note. */
  datatype NoteRecord = NoteRecord(
    id: string,
    title: string,
    content: string,
    createdAt: Timestamp,
    updatedAt: Timestamp)

  /** True of a record whose two timestamps come from one clock reading. */
  predicate Untouched(rec: NoteRecord)
  {
    rec.createdAt == rec.updatedAt
  }

  /**
   * Builds a note. The uuid and the clock reading are supplied by the
   * caller; one reading stamps both timestamps.
   */
  function NewRecord(id: string, title: string, content: string, now: Timestamp): (rec: NoteRecord)
    requires IsNoteId(id)
    ensures rec.id == id && rec.title == title && rec.content == content
    ensures rec.createdAt == now && Untouched(rec)
  {
    NoteRecord(id, title, content, now, now)
  }

  /** The public view of a record. */
  function ToOut(rec: NoteRecord): (out: NoteOut)
    ensures FromOut(out) == rec
  {
    NoteOut(rec.id, rec.title, rec.content, rec.createdAt, rec.updatedAt)
  }

  /** Reads a record back from its public view. */
  function FromOut(out: NoteOut): NoteRecord
  {
    NoteRecord(out.id, out.title, out.content, out.createdAt, out.updatedAt)
  }

  /** The public view loses nothing: distinct records have distinct views. */
  lemma ToOutInjective(a: NoteRecord, b: NoteRecord)
    requires ToOut(a) == ToOut(b)
    ensures a == b
  {
    assert FromOut(ToOut(a)) == a;
  }

  /** Every public view is the view of exactly the record it is read back as. */
  lemma FromOutRoundTrip(out: NoteOut)
    ensures ToOut(FromOut(out)) == out
  {
  }

  /** Views of a list of records, in the same order. */
  function Views(recs: seq<NoteRecord>): (outs: seq<NoteOut>)
    ensures |outs| == |recs|
    ensures forall i :: 0 <= i < |recs| ==> FromOut(outs[i]) == recs[i]
  {
    seq(|recs|, i requires 0 <= i < |recs| => ToOut(recs[i]))
  }
}
