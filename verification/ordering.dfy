/**
 * The order `list_all` returns notes in: Python's `sorted(..., key=created_at,
 * reverse=True)`, a stable sort, so notes created at the same instant keep
 * the order they were inserted in (backend/store.py).
 */
module Ordering {
  import opened Models

  /** Creation times never increase along `recs`. */
  predicate NewestFirst(recs: seq<NoteRecord>)
  {
    forall i, j :: 0 <= i < j < |recs| ==> recs[i].createdAt >= recs[j].createdAt
  }

  /** The records of `recs` created at instant `t`, in their order in `recs`. */
  function CreatedAt(recs: seq<NoteRecord>, t: Timestamp): seq<NoteRecord>
  {
    if recs == [] then []
    else (if recs[0].createdAt == t then [recs[0]] else []) + CreatedAt(recs[1..], t)
  }

  /** `CreatedAt` holds only records created at `t`. */
  lemma {:induction false} CreatedAtOnly(recs: seq<NoteRecord>, t: Timestamp, x: NoteRecord)
    requires x in CreatedAt(recs, t)
    ensures x.createdAt == t
    decreases |recs|
  {
    if recs[0] != x || recs[0].createdAt != t {
      CreatedAtOnly(recs[1..], t, x);
    }
  }

  /** `CreatedAt` keeps every record of `recs` created at `t`. */
  lemma {:induction false} CreatedAtKeeps(recs: seq<NoteRecord>, t: Timestamp, x: NoteRecord)
    requires x in recs && x.createdAt == t
    ensures x in CreatedAt(recs, t)
    decreases |recs|
  {
    if recs[0] != x {
      CreatedAtKeeps(recs[1..], t, x);
    }
  }

  /** What a one-record list holds at instant `t`. */
  lemma CreatedAtSingle(x: NoteRecord, t: Timestamp)
    ensures CreatedAt([x], t) == if x.createdAt == t then [x] else []
  {
    assert [x][1..] == [];
  }

  /** Dropping the head of `recs` drops it from its own instant only. */
  lemma CreatedAtTail(recs: seq<NoteRecord>, t: Timestamp)
    requires recs != []
    ensures recs[0].createdAt == t ==> CreatedAt(recs, t) == [recs[0]] + CreatedAt(recs[1..], t)
    ensures recs[0].createdAt != t ==> CreatedAt(recs, t) == CreatedAt(recs[1..], t)
  {
  }

  /** Puts `h` in front of a newest-first list none of whose records is newer than `h`. */
  lemma PrependNewest(h: NoteRecord, recs: seq<NoteRecord>)
    requires NewestFirst(recs)
    requires forall y :: y in recs ==> y.createdAt <= h.createdAt
    ensures NewestFirst([h] + recs)
  {
    var r := [h] + recs;
    forall i, j | 0 <= i < j < |r|
      ensures r[i].createdAt >= r[j].createdAt
    {
      assert r[j] == recs[j - 1];
      if i > 0 {
        assert r[i] == recs[i - 1];
      }
    }
  }

  /**
   * Places `x` before the first record of `recs` created no later than it.
   * As `x` came earlier than every record of `recs`, it goes ahead of the
   * records created at the same instant.
   */
  function Insert(x: NoteRecord, recs: seq<NoteRecord>): (r: seq<NoteRecord>)
    ensures |r| == |recs| + 1
    ensures multiset(r) == multiset(recs) + multiset{x}
    ensures forall y :: y in r <==> y == x || y in recs
    ensures NewestFirst(recs) ==> NewestFirst(r)
  {
    if recs == [] || recs[0].createdAt <= x.createdAt then
      [x] + recs
    else
      var rest := Insert(x, recs[1..]);
      assert recs == [recs[0]] + recs[1..];
      assert NewestFirst(recs) ==> NewestFirst([recs[0]] + rest) by {
        if NewestFirst(recs) {
          HeadIsNewest(recs);
          PrependNewest(recs[0], rest);
        }
      }
      [recs[0]] + rest
  }

  /** The head of a newest-first list was created no earlier than any of its records. */
  lemma HeadIsNewest(recs: seq<NoteRecord>)
    requires recs != [] && NewestFirst(recs)
    ensures forall y :: y in recs ==> y.createdAt <= recs[0].createdAt
  {
    forall y | y in recs
      ensures y.createdAt <= recs[0].createdAt
    {
      var k :| 0 <= k < |recs| && recs[k] == y;
      if k > 0 {
        assert recs[0].createdAt >= recs[k].createdAt;
      }
    }
  }

  /** The records of `recs`, newest first, ties in their order in `recs`. */
  function SortNewestFirst(recs: seq<NoteRecord>): (r: seq<NoteRecord>)
    ensures |r| == |recs|
    ensures multiset(r) == multiset(recs)
    ensures forall y :: y in r <==> y in recs
    ensures NewestFirst(r)
  {
    if recs == [] then []
    else
      assert recs == [recs[0]] + recs[1..];
      Insert(recs[0], SortNewestFirst(recs[1..]))
  }

  lemma {:induction false} CreatedAtAppend(a: seq<NoteRecord>, b: seq<NoteRecord>, t: Timestamp)
    ensures CreatedAt(a + b, t) == CreatedAt(a, t) + CreatedAt(b, t)
    decreases |a|
  {
    if a == [] {
      assert a + b == b;
    } else {
      assert (a + b)[1..] == a[1..] + b;
      CreatedAtAppend(a[1..], b, t);
    }
  }

  /** Inserting `x` keeps records created at the same instant in order, `x` first. */
  lemma {:induction false} InsertStable(x: NoteRecord, recs: seq<NoteRecord>, t: Timestamp)
    ensures CreatedAt(Insert(x, recs), t) == CreatedAt([x] + recs, t)
    decreases |recs|
  {
    if recs != [] && recs[0].createdAt > x.createdAt {
      var rest := recs[1..];
      InsertStable(x, rest, t);
      PassNewer(recs[0], x, rest, Insert(x, rest), t);
      assert recs == [recs[0]] + rest;
    }
  }

  /**
   * One step of `InsertStable`: when `x` passes a newer `h`, the two cannot
   * both be created at `t`, so passing it keeps `t`'s records in order.
   */
  lemma PassNewer(h: NoteRecord, x: NoteRecord, rest: seq<NoteRecord>, ins: seq<NoteRecord>, t: Timestamp)
    requires h.createdAt > x.createdAt
    requires CreatedAt(ins, t) == CreatedAt([x] + rest, t)
    ensures CreatedAt([h] + ins, t) == CreatedAt([x] + ([h] + rest), t)
  {
    var one, other, tail := CreatedAt([h], t), CreatedAt([x], t), CreatedAt(rest, t);
    assert one == [] || other == [] by {
      CreatedAtSingle(h, t);
      CreatedAtSingle(x, t);
    }
    assert CreatedAt([h] + ins, t) == one + (other + tail) by {
      CreatedAtAppend([h], ins, t);
      CreatedAtAppend([x], rest, t);
    }
    assert CreatedAt([x] + ([h] + rest), t) == other + (one + tail) by {
      CreatedAtAppend([h], rest, t);
      CreatedAtAppend([x], [h] + rest, t);
    }
    SwapPastEmpty(one, other, tail);
  }

  /** When one of `a` and `b` is empty, the two may be placed before `c` in either order. */
  lemma SwapPastEmpty(a: seq<NoteRecord>, b: seq<NoteRecord>, c: seq<NoteRecord>)
    requires a == [] || b == []
    ensures a + (b + c) == b + (a + c)
  {
    if a == [] {
      assert a + (b + c) == b + c == b + (a + c);
    } else {
      assert a + (b + c) == a + c == b + (a + c);
    }
  }

  /** The sort is stable: records created at one instant keep their relative order. */
  lemma {:induction false} SortStable(recs: seq<NoteRecord>)
    ensures forall t :: CreatedAt(SortNewestFirst(recs), t) == CreatedAt(recs, t)
    decreases |recs|
  {
    if recs != [] {
      var rest := recs[1..];
      SortStable(rest);
      assert recs == [recs[0]] + rest;
      forall t
        ensures CreatedAt(SortNewestFirst(recs), t) == CreatedAt(recs, t)
      {
        InsertStable(recs[0], SortNewestFirst(rest), t);
        CreatedAtAppend([recs[0]], SortNewestFirst(rest), t);
        CreatedAtAppend([recs[0]], rest, t);
      }
    }
  }


  /**
   * A newest-first list is determined by what it holds at each instant:
   * two such lists agreeing on every `CreatedAt` are equal.
   */
  lemma {:induction false} NewestFirstUnique(a: seq<NoteRecord>, b: seq<NoteRecord>)
    requires NewestFirst(a) && NewestFirst(b)
    requires forall t :: CreatedAt(a, t) == CreatedAt(b, t)
    ensures a == b
    decreases |a|
  {
    if a == [] && b == [] {
    } else if a == [] {
      CreatedAtKeeps(b, b[0].createdAt, b[0]);
    } else if b == [] {
      CreatedAtKeeps(a, a[0].createdAt, a[0]);
    } else {
      HeadsAgree(a, b);
      forall t
        ensures CreatedAt(a[1..], t) == CreatedAt(b[1..], t)
      {
        CreatedAtTail(a, t);
        CreatedAtTail(b, t);
        if a[0].createdAt == t {
          var sa, sb := CreatedAt(a, t), CreatedAt(b, t);
          assert sa == sb;
          assert CreatedAt(a[1..], t) == sa[1..];
          assert CreatedAt(b[1..], t) == sb[1..];
        }
      }
      NewestFirstUnique(a[1..], b[1..]);
      assert a == [a[0]] + a[1..];
      assert b == [b[0]] + b[1..];
    }
  }

  /** Two newest-first lists agreeing on every instant start with the same record. */
  lemma HeadsAgree(a: seq<NoteRecord>, b: seq<NoteRecord>)
    requires a != [] && b != []
    requires NewestFirst(a) && NewestFirst(b)
    requires forall t :: CreatedAt(a, t) == CreatedAt(b, t)
    ensures a[0] == b[0]
  {
    var ta, tb := a[0].createdAt, b[0].createdAt;
    assert ta == tb by {
      CreatedAtKeeps(a, ta, a[0]);
      CreatedAtKeeps(b, tb, b[0]);
      assert a[0] in CreatedAt(b, ta);
      assert b[0] in CreatedAt(a, tb);
      CreatedAtFrom(b, ta, a[0]);
      CreatedAtFrom(a, tb, b[0]);
      CreatedAtOnly(b, ta, a[0]);
      CreatedAtOnly(a, tb, b[0]);
      HeadIsNewest(a);
      HeadIsNewest(b);
    }
    // Each list's head is the first record created at the common instant.
    CreatedAtTail(a, ta);
    CreatedAtTail(b, ta);
    assert CreatedAt(a, ta)[0] == CreatedAt(b, ta)[0];
  }

  /** `CreatedAt` holds only records of `recs`. */
  lemma {:induction false} CreatedAtFrom(recs: seq<NoteRecord>, t: Timestamp, x: NoteRecord)
    requires x in CreatedAt(recs, t)
    ensures x in recs
    decreases |recs|
  {
    if recs[0] != x {
      CreatedAtFrom(recs[1..], t, x);
    }
  }

  /**
   * `SortNewestFirst` is the only stable newest-first arrangement: any list
   * that orders `recs` newest first and keeps same-instant records in their
   * order in `recs` is exactly the sort's result.
   */
  lemma SortIsTheStableNewestFirst(recs: seq<NoteRecord>, other: seq<NoteRecord>)
    requires NewestFirst(other)
    requires forall t :: CreatedAt(other, t) == CreatedAt(recs, t)
    ensures other == SortNewestFirst(recs)
  {
    SortStable(recs);
    NewestFirstUnique(other, SortNewestFirst(recs));
  }

  /** No two records of `recs` share an id. */
  predicate DistinctIds(recs: seq<NoteRecord>)
  {
    forall i, j :: 0 <= i < j < |recs| ==> recs[i].id != recs[j].id
  }

  /** A record occurs at most once in a list whose ids are distinct. */
  lemma {:induction false} OnceCounted(recs: seq<NoteRecord>, x: NoteRecord)
    requires DistinctIds(recs)
    ensures multiset(recs)[x] <= 1
    decreases |recs|
  {
    if recs != [] {
      var rest := recs[1..];
      assert recs == [recs[0]] + rest;
      assert DistinctIds(rest) by {
        forall i, j | 0 <= i < j < |rest|
          ensures rest[i].id != rest[j].id
        {
          assert rest[i] == recs[i + 1] && rest[j] == recs[j + 1];
        }
      }
      OnceCounted(rest, x);
      if x == recs[0] {
        assert x !in rest by {
          forall j | 0 <= j < |rest|
            ensures rest[j] != x
          {
            assert rest[j] == recs[j + 1];
          }
        }
      }
    }
  }

  /** A record found at two positions is counted at least twice. */
  lemma TwiceCounted(recs: seq<NoteRecord>, i: nat, j: nat)
    requires i < j < |recs| && recs[i] == recs[j]
    ensures multiset(recs)[recs[i]] >= 2
  {
    assert recs == recs[..j] + recs[j..];
    assert recs[i] in recs[..j];
    assert recs[j] in recs[j..];
  }

  /** Rearranging a list whose ids are distinct keeps them distinct. */
  lemma PermutationKeepsDistinctIds(a: seq<NoteRecord>, b: seq<NoteRecord>)
    requires multiset(a) == multiset(b)
    requires DistinctIds(a)
    ensures DistinctIds(b)
  {
    forall i, j | 0 <= i < j < |b|
      ensures b[i].id != b[j].id
    {
      if b[i].id == b[j].id {
        assert b[i] in multiset(a) && b[j] in multiset(a);
        var p :| 0 <= p < |a| && a[p] == b[i];
        var q :| 0 <= q < |a| && a[q] == b[j];
        assert p == q;
        TwiceCounted(b, i, j);
        OnceCounted(a, b[i]);
        assert false;
      }
    }
  }
}
