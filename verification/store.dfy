/**
 * The in-memory note store (backend/store.py) as an explicit value: every
 * operation takes the store and returns the new store together with its
 * result. The fresh id and the clock reading are parameters.
 */
module Store {
  import opened Wrappers
  import opened Models
  import opened Ordering

  /**
   * The notes by id. `order` lists the ids in the order they were first
   * inserted, which is the order a Python dict yields its values in.
   */
  datatype NoteStore = NoteStore(notes: map<string, NoteRecord>, order: seq<string>)

  /** The store after an operation, together with what the operation returned. */
  datatype Step<T> = Step(store: NoteStore, value: T)

  /** The store the service starts with. */
  const Empty: NoteStore := NoteStore(map[], [])

  /** No id occurs twice in `ids`. */
  predicate Distinct(ids: seq<string>)
  {
    forall i, j :: 0 <= i < j < |ids| ==> ids[i] != ids[j]
  }

  /**
   * The representation invariant: `order` lists each key exactly once,
   * and every note is filed under its own id.
   */
  ghost predicate Valid(s: NoteStore)
  {
    && Distinct(s.order)
    && (forall k :: k in s.notes <==> k in s.order)
    && (forall k :: k in s.notes ==> s.notes[k].id == k)
  }

  /** Looks a note up by id. */
  function Get(s: NoteStore, id: string): (r: Option<NoteRecord>)
    ensures r.None? <==> id !in s.notes
    ensures r.Some? ==> r.value == s.notes[id]
  {
    if id in s.notes then Some(s.notes[id]) else None
  }

  /** Every id other than `id` finds the same note (or none) in `s` and `s'`. */
  ghost predicate SameElsewhere(s: NoteStore, s': NoteStore, id: string)
  {
    forall k :: k != id ==> Get(s', k) == Get(s, k)
  }

  /**
   * Stores a new note under the supplied id. The assignment is
   * unconditional: a note already filed under `id` is replaced, and keeps
   * its place in insertion order.
   */
  function Create(s: NoteStore, data: NoteCreate, id: string, now: Timestamp): (r: Step<NoteRecord>)
    requires IsNoteId(id)
    ensures r.value.id == id && r.value.title == data.title && r.value.content == data.content
    ensures r.value.createdAt == now && Untouched(r.value)
    ensures Get(r.store, id) == Some(r.value)
    ensures SameElsewhere(s, r.store, id)
    ensures id !in s.notes ==> |r.store.notes| == |s.notes| + 1 && r.store.order == s.order + [id]
    ensures id in s.notes ==> |r.store.notes| == |s.notes| && r.store.order == s.order
    ensures Valid(s) ==> Valid(r.store)
  {
    var rec := NewRecord(id, data.title, data.content, now);
    var order := if id in s.notes then s.order else s.order + [id];
    var s' := NoteStore(s.notes[id := rec], order);
    assert Valid(s) ==> Valid(s') by {
      if Valid(s) && id !in s.notes {
        forall i, j | 0 <= i < j < |order|
          ensures order[i] != order[j]
        {
          if j == |s.order| {
            assert order[i] == s.order[i];
          }
        }
      }
    }
    Step(s', rec)
  }

  /**
   * The note with `data` applied: a supplied field (even an empty string)
   * replaces the stored one, an omitted field is kept, and the update time
   * is always refreshed.
   */
  function Apply(rec: NoteRecord, data: NoteUpdate, now: Timestamp): (r: NoteRecord)
    ensures r.id == rec.id && r.createdAt == rec.createdAt
    ensures r.title == data.title.GetOr(rec.title)
    ensures r.content == data.content.GetOr(rec.content)
    ensures r.updatedAt == now
  {
    var title := if data.title.Some? then data.title.value else rec.title;
    var content := if data.content.Some? then data.content.value else rec.content;
    NoteRecord(rec.id, title, content, rec.createdAt, now)
  }

  /** Applies `data` to the note filed under `id`, if there is one. */
  function Update(s: NoteStore, id: string, data: NoteUpdate, now: Timestamp): (r: Step<Option<NoteRecord>>)
    ensures id !in s.notes ==> r == Step(s, None)
    ensures id in s.notes ==> r.value == Some(Apply(s.notes[id], data, now))
    ensures Get(r.store, id) == r.value
    ensures SameElsewhere(s, r.store, id)
    ensures r.store.order == s.order && r.store.notes.Keys == s.notes.Keys
    ensures Valid(s) ==> Valid(r.store)
  {
    if id !in s.notes then Step(s, None)
    else
      var rec := Apply(s.notes[id], data, now);
      Step(NoteStore(s.notes[id := rec], s.order), Some(rec))
  }

  /** `ids` without `id`, the others in their order. */
  function Without(ids: seq<string>, id: string): (r: seq<string>)
    ensures forall k :: k in r <==> k in ids && k != id
    ensures Distinct(ids) ==> Distinct(r)
    ensures id !in ids ==> r == ids
    ensures Distinct(ids) && id in ids ==> |r| == |ids| - 1
  {
    if ids == [] then []
    else if ids[0] == id then Without(ids[1..], id)
    else
      var rest := Without(ids[1..], id);
      assert Distinct(ids) ==> Distinct([ids[0]] + rest) by {
        if Distinct(ids) {
          assert ids[0] !in ids[1..];
          PrependDistinct(ids[0], rest);
        }
      }
      [ids[0]] + rest
  }

  /** A new id in front of a list of distinct ids keeps them distinct. */
  lemma PrependDistinct(k: string, ids: seq<string>)
    requires Distinct(ids) && k !in ids
    ensures Distinct([k] + ids)
  {
    var r := [k] + ids;
    forall i, j | 0 <= i < j < |r|
      ensures r[i] != r[j]
    {
      assert r[j] == ids[j - 1];
    }
  }

  /**
   * Removing an id that occurs once, at position `p`, keeps the ids before
   * and after it in their order: the remaining keys of the dict keep their
   * insertion order.
   */
  lemma {:induction false} WithoutKeepsOrder(ids: seq<string>, id: string, p: nat)
    requires p < |ids| && ids[p] == id
    requires id !in ids[..p] && id !in ids[p + 1..]
    ensures Without(ids, id) == ids[..p] + ids[p + 1..]
    decreases p
  {
    if p == 0 {
      assert ids[p + 1..] == ids[1..];
    } else {
      var rest := ids[1..];
      assert ids[..p] == [ids[0]] + rest[..p - 1];
      assert rest[p..] == ids[p + 1..];
      assert ids[0] != id;
      WithoutKeepsOrder(rest, id, p - 1);
      assert Without(ids, id) == [ids[0]] + Without(rest, id);
    }
  }

  /** Removes the note filed under `id`, reporting whether there was one. */
  function Delete(s: NoteStore, id: string): (r: Step<bool>)
    ensures r.value <==> id in s.notes
    ensures Get(r.store, id) == None
    ensures SameElsewhere(s, r.store, id)
    ensures |r.store.notes| == if id in s.notes then |s.notes| - 1 else |s.notes|
    ensures Valid(s) ==> Valid(r.store)
    ensures Valid(s) && !r.value ==> r.store == s
  {
    var s' := NoteStore(s.notes - {id}, Without(s.order, id));
    assert |s'.notes| == if id in s.notes then |s.notes| - 1 else |s.notes| by {
      if id in s.notes {
        assert s.notes.Keys == s'.notes.Keys + {id};
      } else {
        assert s'.notes == s.notes;
      }
    }
    assert Valid(s) ==> Valid(s') && (id !in s.notes ==> s' == s) by {
      if Valid(s) {
        RemoveKeepsValid(s, id);
      }
    }
    assert forall k :: k != id ==> Get(s', k) == Get(s, k);
    Step(s', id in s.notes)
  }

  /** Removing a key keeps the invariant, and removing an absent key changes nothing. */
  lemma RemoveKeepsValid(s: NoteStore, id: string)
    requires Valid(s)
    ensures Valid(NoteStore(s.notes - {id}, Without(s.order, id)))
    ensures id !in s.notes ==> NoteStore(s.notes - {id}, Without(s.order, id)) == s
  {
    if id !in s.notes {
      assert s.notes - {id} == s.notes;
    }
  }

  /** The notes filed under `ids`, in that order, skipping ids with no note. */
  function Listed(notes: map<string, NoteRecord>, ids: seq<string>): seq<NoteRecord>
  {
    if ids == [] then []
    else (if ids[0] in notes then [notes[ids[0]]] else []) + Listed(notes, ids[1..])
  }

  /** The stored notes in insertion order: the order a Python dict yields its values in. */
  function InsertionOrder(s: NoteStore): seq<NoteRecord>
  {
    Listed(s.notes, s.order)
  }

  /** Every note, newest first; notes created at the same instant keep insertion order. */
  function ListAll(s: NoteStore): (r: seq<NoteRecord>)
    ensures multiset(r) == multiset(InsertionOrder(s))
    ensures NewestFirst(r)
  {
    SortNewestFirst(InsertionOrder(s))
  }

  /** A list of distinct ids has as many elements as it has distinct members. */
  lemma {:induction false} DistinctCard(ids: seq<string>)
    requires Distinct(ids)
    ensures |set k | k in ids| == |ids|
    decreases |ids|
  {
    if ids != [] {
      var rest := ids[1..];
      assert Distinct(rest) by {
        forall i, j | 0 <= i < j < |rest|
          ensures rest[i] != rest[j]
        {
          assert rest[i] == ids[i + 1] && rest[j] == ids[j + 1];
        }
      }
      DistinctCard(rest);
      assert ids[0] !in rest by {
        forall j | 0 <= j < |rest|
          ensures rest[j] != ids[0]
        {
          assert rest[j] == ids[j + 1];
        }
      }
      assert (set k | k in ids) == (set k | k in rest) + {ids[0]};
    }
  }

  /** When every id has a note, `Listed` holds exactly one note per id, position by position. */
  lemma {:induction false} ListedExact(notes: map<string, NoteRecord>, ids: seq<string>)
    requires forall k :: k in ids ==> k in notes
    ensures |Listed(notes, ids)| == |ids|
    ensures forall i :: 0 <= i < |ids| ==> Listed(notes, ids)[i] == notes[ids[i]]
    decreases |ids|
  {
    if ids != [] {
      assert forall k :: k in ids[1..] ==> k in ids;
      ListedExact(notes, ids[1..]);
      forall i | 0 < i < |ids|
        ensures Listed(notes, ids)[i] == notes[ids[i]]
      {
        assert ids[i] == ids[1..][i - 1];
      }
    }
  }

  /** In a valid store `order` lists as many ids as the store holds notes. */
  lemma OrderCoversStore(s: NoteStore)
    requires Valid(s)
    ensures |s.order| == |s.notes|
  {
    DistinctCard(s.order);
    assert s.notes.Keys == set k | k in s.order;
  }

  /**
   * In a valid store the insertion-order listing holds the note of each
   * key, in the order the keys were inserted.
   */
  lemma InsertionOrderExact(s: NoteStore)
    requires Valid(s)
    ensures |InsertionOrder(s)| == |s.order|
    ensures forall i :: 0 <= i < |s.order| ==> InsertionOrder(s)[i] == s.notes[s.order[i]]
  {
    ListedExact(s.notes, s.order);
  }

  /** No two notes of the insertion-order listing of a valid store share an id. */
  lemma InsertionOrderDistinctIds(s: NoteStore)
    requires Valid(s)
    ensures DistinctIds(InsertionOrder(s))
  {
    InsertionOrderExact(s);
    var recs := InsertionOrder(s);
    forall i, j | 0 <= i < j < |recs|
      ensures recs[i].id != recs[j].id
    {
      assert recs[i].id == s.order[i] && recs[j].id == s.order[j];
    }
  }

  /** `list_all` returns as many notes as the store holds. */
  lemma ListAllSize(s: NoteStore)
    requires Valid(s)
    ensures |ListAll(s)| == |s.notes|
  {
    InsertionOrderExact(s);
    OrderCoversStore(s);
  }

  /** `list_all` returns every stored note and nothing else. */
  lemma ListAllHoldsStore(s: NoteStore)
    requires Valid(s)
    ensures forall x :: x in ListAll(s) <==> x in s.notes.Values
  {
    var ins := InsertionOrder(s);
    InsertionOrderExact(s);
    forall x
      ensures x in ListAll(s) <==> x in s.notes.Values
    {
      assert x in ListAll(s) <==> x in multiset(ListAll(s));
      assert x in ins <==> x in multiset(ins);
      if x in ins {
        var i :| 0 <= i < |ins| && ins[i] == x;
        assert s.notes[s.order[i]] == x;
      }
      if x in s.notes.Values {
        var k :| k in s.notes && s.notes[k] == x;
        var i :| 0 <= i < |s.order| && s.order[i] == k;
        assert ins[i] == x;
      }
    }
  }

  /** `list_all` returns each note once: no two listed notes share an id. */
  lemma ListAllOnceEach(s: NoteStore)
    requires Valid(s)
    ensures DistinctIds(ListAll(s))
  {
    InsertionOrderDistinctIds(s);
    PermutationKeepsDistinctIds(InsertionOrder(s), ListAll(s));
  }

  /**
   * `list_all` returns the notes newest first, and notes created at the
   * same instant in the order they were inserted.
   */
  lemma ListAllOrdered(s: NoteStore)
    ensures NewestFirst(ListAll(s))
    ensures forall t :: CreatedAt(ListAll(s), t) == CreatedAt(InsertionOrder(s), t)
  {
    SortStable(InsertionOrder(s));
  }

  /**
   * The listing is the only stable newest-first arrangement of the store:
   * a list ordered newest first that keeps same-instant notes in insertion
   * order is exactly what `list_all` returns.
   */
  lemma ListAllUnique(s: NoteStore, other: seq<NoteRecord>)
    requires NewestFirst(other)
    requires forall t :: CreatedAt(other, t) == CreatedAt(InsertionOrder(s), t)
    ensures other == ListAll(s)
  {
    SortIsTheStableNewestFirst(InsertionOrder(s), other);
  }

  /**
   * A note created under a fresh id strictly after every stored note was
   * created is listed first.
   */
  lemma CreateListedFirst(s: NoteStore, data: NoteCreate, id: string, now: Timestamp)
    requires Valid(s) && IsNoteId(id) && id !in s.notes
    requires forall k :: k in s.notes ==> s.notes[k].createdAt < now
    ensures ListAll(Create(s, data, id, now).store)[0] == Create(s, data, id, now).value
  {
    var r := Create(s, data, id, now);
    ListAllHoldsStore(r.store);
    var all := ListAll(r.store);
    assert r.value in r.store.notes.Values by {
      assert r.store.notes[id] == r.value;
    }
    HeadIsNewest(all);
    assert all[0] in r.store.notes.Values;
  }

  /** Every key has the shape of a generated id. */
  ghost predicate WellShapedIds(s: NoteStore)
  {
    forall k :: k in s.notes ==> IsNoteId(k)
  }

  /** Only generated ids are ever stored: every operation keeps the keys well shaped. */
  lemma IdsStayWellShaped(s: NoteStore, id: string, create: NoteCreate, update: NoteUpdate, now: Timestamp)
    requires WellShapedIds(s)
    ensures IsNoteId(id) ==> WellShapedIds(Create(s, create, id, now).store)
    ensures WellShapedIds(Update(s, id, update, now).store)
    ensures WellShapedIds(Delete(s, id).store)
  {
    if IsNoteId(id) {
      var s' := Create(s, create, id, now).store;
      assert s'.notes.Keys == s.notes.Keys + {id};
    }
  }

  /** Every stored note was last updated no earlier than it was created. */
  ghost predicate Chronological(s: NoteStore)
  {
    forall k :: k in s.notes ==> s.notes[k].createdAt <= s.notes[k].updatedAt
  }

  /** The clock reading `now` is no earlier than any timestamp in the store. */
  ghost predicate ClockNotBehind(s: NoteStore, now: Timestamp)
  {
    forall k :: k in s.notes ==> s.notes[k].updatedAt <= now
  }

  /**
   * Creating and deleting keep every note's creation time at or before its
   * update time; updating does so only when the clock has not gone back.
   */
  lemma StoreStaysChronological(s: NoteStore, id: string, create: NoteCreate, update: NoteUpdate, now: Timestamp)
    requires Chronological(s)
    ensures IsNoteId(id) ==> Chronological(Create(s, create, id, now).store)
    ensures ClockNotBehind(s, now) ==> Chronological(Update(s, id, update, now).store)
    ensures Chronological(Delete(s, id).store)
  {
    if IsNoteId(id) {
      var s' := Create(s, create, id, now).store;
      forall k | k in s'.notes
        ensures s'.notes[k].createdAt <= s'.notes[k].updatedAt
      {
        assert Get(s', k) == if k == id then Some(Create(s, create, id, now).value) else Get(s, k);
      }
    }
    if ClockNotBehind(s, now) {
      var s' := Update(s, id, update, now).store;
      forall k | k in s'.notes
        ensures s'.notes[k].createdAt <= s'.notes[k].updatedAt
      {
        assert Get(s', k) == if k == id then Update(s, id, update, now).value else Get(s, k);
      }
    }
    var s' := Delete(s, id).store;
    forall k | k in s'.notes
      ensures s'.notes[k].createdAt <= s'.notes[k].updatedAt
    {
      assert Get(s', k) == Get(s, k);
    }
  }

  /**
   * An update naming neither field changes nothing but the update time of
   * the note, which it still refreshes.
   */
  lemma EmptyUpdateOnlyTouches(s: NoteStore, id: string, now: Timestamp)
    requires id in s.notes
    ensures Update(s, id, EmptyUpdate, now).value
         == Some(s.notes[id].(updatedAt := now))
  {
  }

  /** Repeating an update at the same instant changes nothing further. */
  lemma UpdateIdempotent(s: NoteStore, id: string, data: NoteUpdate, now: Timestamp)
    ensures var once := Update(s, id, data, now);
            Update(once.store, id, data, now) == once
  {
  }

  /**
   * After a delete the id finds nothing, and a second delete of it reports
   * that nothing was removed and leaves a valid store as it was.
   */
  lemma DeleteIsFinal(s: NoteStore, id: string)
    ensures var once := Delete(s, id).store;
            && Get(once, id) == None
            && !Delete(once, id).value
            && (Valid(s) ==> Delete(once, id).store == once)
  {
  }

  /** The empty store is valid and lists nothing. */
  lemma EmptyIsValid()
    ensures Valid(Empty) && WellShapedIds(Empty) && ListAll(Empty) == []
  {
  }
}
