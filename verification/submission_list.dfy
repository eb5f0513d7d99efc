/** Pure operations on the list of submissions that the viewer displays:
    the newest-first sort of loadSubmissions, the filter of
    handleDeleteSubmission and the map of handleEditSubmit
    (src/client/SubmittedDetails.tsx). */
module SubmissionList {
  import opened Records

  /** No record is older than one that follows it. */
  ghost predicate NewestFirst(s: seq<Submission>)
  {
    forall i, j :: 0 <= i < j < |s| ==> s[i].submittedAt >= s[j].submittedAt
  }

  /** No two records share an identifier. */
  ghost predicate UniqueIds(s: seq<Submission>)
  {
    forall i, j :: 0 <= i < j < |s| ==> s[i].id != s[j].id
  }

  /** The records created at time `t`, in list order. */
  ghost function AtTime(s: seq<Submission>, t: int): (r: seq<Submission>)
  {
    if s == [] then []
    else (if s[0].submittedAt == t then [s[0]] else []) + AtTime(s[1..], t)
  }

  /** How many records carry identifier `id`. */
  ghost function CountId(s: seq<Submission>, id: int): (n: nat)
  {
    if s == [] then 0
    else (if s[0].id == id then 1 else 0) + CountId(s[1..], id)
  }

  // ---------------------------------------------------------------------
  // Sorting newest first: `sort((a, b) => b.submittedAt - a.submittedAt)`.
  // The array sort of ECMAScript 2019 and later is stable, so records with
  // equal times keep their stored order; an insertion sort has that shape.

  /** Places `x` before the first record that is not newer than it. */
  function Insert(x: Submission, s: seq<Submission>): (r: seq<Submission>)
    ensures multiset(r) == multiset(s) + multiset{x}
  {
    if s == [] || x.submittedAt >= s[0].submittedAt then [x] + s
    else
      assert s == [s[0]] + s[1..];
      [s[0]] + Insert(x, s[1..])
  }

  function SortNewestFirst(s: seq<Submission>): (r: seq<Submission>)
    ensures multiset(r) == multiset(s)
  {
    if s == [] then []
    else
      assert s == [s[0]] + s[1..];
      Insert(s[0], SortNewestFirst(s[1..]))
  }

  lemma {:induction false} InsertNewestFirst(x: Submission, s: seq<Submission>)
    requires NewestFirst(s)
    ensures NewestFirst(Insert(x, s))
  {
    if s == [] || x.submittedAt >= s[0].submittedAt {
    } else {
      var rest := Insert(x, s[1..]);
      InsertNewestFirst(x, s[1..]);
      forall k | 0 <= k < |rest|
        ensures s[0].submittedAt >= rest[k].submittedAt
      {
        assert rest[k] in multiset(rest);
        if rest[k] != x {
          assert rest[k] in multiset(s[1..]);
          assert rest[k] in s[1..];
        }
      }
    }
  }

  /** The sorted list is ordered newest first. */
  lemma {:induction false} SortIsNewestFirst(s: seq<Submission>)
    ensures NewestFirst(SortNewestFirst(s))
  {
    if s != [] {
      SortIsNewestFirst(s[1..]);
      InsertNewestFirst(s[0], SortNewestFirst(s[1..]));
    }
  }

  lemma {:induction false} InsertAtTime(x: Submission, s: seq<Submission>, t: int)
    ensures AtTime(Insert(x, s), t) == (if x.submittedAt == t then [x] else []) + AtTime(s, t)
  {
    if s == [] || x.submittedAt >= s[0].submittedAt {
      assert ([x] + s)[1..] == s;
    } else {
      var rest := Insert(x, s[1..]);
      assert ([s[0]] + rest)[1..] == rest;
      InsertAtTime(x, s[1..], t);
    }
  }

  /** The sort is stable: for every time `t`, the records created at `t`
      appear in the same relative order before and after sorting. */
  lemma {:induction false} SortIsStable(s: seq<Submission>, t: int)
    ensures AtTime(SortNewestFirst(s), t) == AtTime(s, t)
  {
    if s != [] {
      SortIsStable(s[1..], t);
      InsertAtTime(s[0], SortNewestFirst(s[1..]), t);
    }
  }

  /** Sorting a list that is already newest first changes nothing; in
      particular sorting twice is sorting once. */
  lemma {:induction false} SortKeepsNewestFirst(s: seq<Submission>)
    requires NewestFirst(s)
    ensures SortNewestFirst(s) == s
  {
    if s != [] {
      SortKeepsNewestFirst(s[1..]);
    }
  }

  lemma SortIdempotent(s: seq<Submission>)
    ensures SortNewestFirst(SortNewestFirst(s)) == SortNewestFirst(s)
  {
    SortIsNewestFirst(s);
    SortKeepsNewestFirst(SortNewestFirst(s));
  }

  // ---------------------------------------------------------------------
  // Deleting: `submissions.filter(submission => submission.id !== id)`.

  function RemoveId(s: seq<Submission>, id: int): (r: seq<Submission>)
    ensures forall x :: x in r <==> x in s && x.id != id
    ensures |r| <= |s|
  {
    if s == [] then []
    else if s[0].id != id then [s[0]] + RemoveId(s[1..], id)
    else RemoveId(s[1..], id)
  }

  /** The filter keeps relative order: it distributes over concatenation. */
  lemma {:induction false} RemoveIdAppend(a: seq<Submission>, b: seq<Submission>, id: int)
    ensures RemoveId(a + b, id) == RemoveId(a, id) + RemoveId(b, id)
  {
    if a == [] {
      assert a + b == b;
    } else {
      assert (a + b)[1..] == a[1..] + b;
      RemoveIdAppend(a[1..], b, id);
    }
  }

  /** Deleting an identifier no record carries changes nothing. */
  lemma {:induction false} RemoveAbsentId(s: seq<Submission>, id: int)
    requires forall x :: x in s ==> x.id != id
    ensures RemoveId(s, id) == s
  {
    if s != [] {
      assert s[0] in s;
      RemoveAbsentId(s[1..], id);
    }
  }

  /** Exactly the records carrying `id` are removed. */
  lemma {:induction false} RemoveIdLength(s: seq<Submission>, id: int)
    ensures |RemoveId(s, id)| == |s| - CountId(s, id)
  {
    if s != [] {
      RemoveIdLength(s[1..], id);
    }
  }

  lemma {:induction false} UniqueCountAtMostOne(s: seq<Submission>, id: int)
    requires UniqueIds(s)
    ensures CountId(s, id) <= 1
    ensures CountId(s, id) == 1 <==> exists i :: 0 <= i < |s| && s[i].id == id
  {
    if s != [] {
      assert UniqueIds(s[1..]) by {
        forall i, j | 0 <= i < j < |s[1..]| ensures s[1..][i].id != s[1..][j].id {
          assert s[1..][i] == s[i + 1] && s[1..][j] == s[j + 1];
        }
      }
      UniqueCountAtMostOne(s[1..], id);
      if s[0].id == id {
        forall k | 0 <= k < |s[1..]| ensures s[1..][k].id != id {
          assert s[1..][k] == s[k + 1];
        }
      } else {
        if exists i :: 0 <= i < |s| && s[i].id == id {
          var i :| 0 <= i < |s| && s[i].id == id;
          assert s[1..][i - 1].id == id;
        }
      }
    }
  }

  /** With unique identifiers, deleting a present identifier removes exactly
      one record. */
  lemma DeleteRemovesOne(s: seq<Submission>, id: int)
    requires UniqueIds(s)
    requires exists i :: 0 <= i < |s| && s[i].id == id
    ensures |RemoveId(s, id)| == |s| - 1
  {
    RemoveIdLength(s, id);
    UniqueCountAtMostOne(s, id);
  }

  /** Deleting keeps a newest-first list newest first. */
  lemma {:induction false} RemoveIdNewestFirst(s: seq<Submission>, id: int)
    requires NewestFirst(s)
    ensures NewestFirst(RemoveId(s, id))
  {
    if s != [] {
      var rest := RemoveId(s[1..], id);
      RemoveIdNewestFirst(s[1..], id);
      forall k | 0 <= k < |rest|
        ensures s[0].submittedAt >= rest[k].submittedAt
      {
        assert rest[k] in rest;
        assert rest[k] in s[1..];
      }
    }
  }

  // ---------------------------------------------------------------------
  // Saving an edit: `submissions.map(s => s.id === id ? editFormData : s)`.

  function ReplaceId(s: seq<Submission>, id: int, b: Submission): (r: seq<Submission>)
    ensures |r| == |s|
    ensures forall i :: 0 <= i < |s| ==> r[i] == (if s[i].id == id then b else s[i])
  {
    if s == [] then []
    else [if s[0].id == id then b else s[0]] + ReplaceId(s[1..], id, b)
  }

  /** Saving an edit for an identifier no record carries changes nothing. */
  lemma ReplaceAbsentId(s: seq<Submission>, id: int, b: Submission)
    requires forall x :: x in s ==> x.id != id
    ensures ReplaceId(s, id, b) == s
  {
  }

  /** Only the records carrying `id` change: once they are filtered out, the
      edited list and the original agree. */
  lemma {:induction false} ReplaceOnlyTouchesId(s: seq<Submission>, id: int, b: Submission)
    requires b.id == id
    ensures RemoveId(ReplaceId(s, id, b), id) == RemoveId(s, id)
  {
    if s != [] {
      var r := ReplaceId(s, id, b);
      assert r[1..] == ReplaceId(s[1..], id, b);
      ReplaceOnlyTouchesId(s[1..], id, b);
    }
  }

  /** Saving an edit keeps a newest-first list newest first when the buffer
      has the creation time of every record it replaces, as a buffer taken
      from a record and changed only in its text fields has. */
  lemma ReplaceIdNewestFirst(s: seq<Submission>, id: int, b: Submission)
    requires NewestFirst(s)
    requires forall x :: x in s && x.id == id ==> x.submittedAt == b.submittedAt
    ensures NewestFirst(ReplaceId(s, id, b))
  {
    var r := ReplaceId(s, id, b);
    forall k | 0 <= k < |r| ensures r[k].submittedAt == s[k].submittedAt {
      assert s[k] in s;
    }
  }

  /** With unique identifiers and a replacement that keeps its identifier,
      the edited list has exactly one record with `id`, and it is `b`. */
  lemma ReplaceKeepsUnique(s: seq<Submission>, id: int, b: Submission)
    requires UniqueIds(s) && b.id == id
    requires exists i :: 0 <= i < |s| && s[i].id == id
    ensures UniqueIds(ReplaceId(s, id, b))
    ensures b in ReplaceId(s, id, b)
    ensures forall x :: x in ReplaceId(s, id, b) && x.id == id ==> x == b
  {
  }
}
