/** The remote bookmarks table as the client sees it. The hosted service is
    modelled as an in-memory table of rows plus a map of stored objects; every
    remote call takes a `fails` flag, which is the network's answer, so a
    failure can happen on any call. The pure functions here are the views
    the client's queries and local filters compute. */
module Store {
  import opened Types

  /** The `{ data, error }` pair a remote call answers with. */
  datatype Reply<T> = Reply(data: Option<T>, error: bool)

  /** No two rows share an id: the store never reuses one. */
  ghost predicate DistinctIds(s: seq<Bookmark>) {
    forall i, j :: 0 <= i < j < |s| ==> s[i].id != s[j].id
  }

  predicate HasId(s: seq<Bookmark>, id: string) {
    exists i :: 0 <= i < |s| && s[i].id == id
  }

  /** Newest first: `createdAt` never increases along the sequence. */
  ghost predicate NewestFirstOrder(s: seq<Bookmark>) {
    forall i, j :: 0 <= i < j < |s| ==> s[i].createdAt >= s[j].createdAt
  }

  /** The rows owned by `userId`, in table order (the `userId` equality
      filter of the fetch). */
  function OwnedBy(s: seq<Bookmark>, userId: string): (r: seq<Bookmark>)
    ensures forall b :: b in r <==> b in s && b.userId == userId
    ensures forall b :: multiset(r)[b] == if b.userId == userId then multiset(s)[b] else 0
    ensures |r| <= |s|
  {
    if s == [] then []
    else
      assert s == [s[0]] + s[1..];
      (if s[0].userId == userId then [s[0]] else []) + OwnedBy(s[1..], userId)
  }

  /** The rows whose id is not `id`, in their original order: both the
      remote delete's effect and the local filter after a delete. */
  function Without(s: seq<Bookmark>, id: string): (r: seq<Bookmark>)
    ensures forall b :: b in r <==> b in s && b.id != id
    ensures |r| <= |s|
  {
    if s == [] then []
    else (if s[0].id == id then [] else [s[0]]) + Without(s[1..], id)
  }

  /** Deleting an id no row has changes nothing. */
  lemma {:induction false} WithoutAbsent(s: seq<Bookmark>, id: string)
    requires !HasId(s, id)
    ensures Without(s, id) == s
  {
    if s != [] {
      assert s[0].id != id;
      assert !HasId(s[1..], id) by {
        forall k | 0 <= k < |s[1..]| ensures s[1..][k].id != id {
          assert s[1..][k] == s[k + 1];
        }
      }
      WithoutAbsent(s[1..], id);
      assert s == [s[0]] + s[1..];
    }
  }

  /** Places `b` in front of the first row that is not newer than it. */
  function InsertNewest(b: Bookmark, s: seq<Bookmark>): seq<Bookmark>
  {
    if s == [] then [b]
    else if b.createdAt >= s[0].createdAt then [b] + s
    else [s[0]] + InsertNewest(b, s[1..])
  }

  lemma {:induction false} InsertNewestPermutes(b: Bookmark, s: seq<Bookmark>)
    ensures multiset(InsertNewest(b, s)) == multiset(s) + multiset{b}
  {
    if s != [] && b.createdAt < s[0].createdAt {
      InsertNewestPermutes(b, s[1..]);
      MultisetOfCons(s);
    }
  }

  /** A row no older than every row of a newest-first sequence can head it. */
  lemma ConsOrdered(h: Bookmark, t: seq<Bookmark>)
    requires NewestFirstOrder(t)
    requires forall x :: x in t ==> h.createdAt >= x.createdAt
    ensures NewestFirstOrder([h] + t)
  {
    var r := [h] + t;
    forall i, j | 0 <= i < j < |r| ensures r[i].createdAt >= r[j].createdAt {
      assert r[j] == t[j - 1];
      if i == 0 {
        assert t[j - 1] in t;
      } else {
        assert r[i] == t[i - 1];
      }
    }
  }

  /** The tail of a newest-first sequence is newest first, and its head is
      no older than any row of the tail. */
  lemma TailOrdered(s: seq<Bookmark>)
    requires NewestFirstOrder(s) && s != []
    ensures NewestFirstOrder(s[1..])
    ensures forall x :: x in s[1..] ==> s[0].createdAt >= x.createdAt
  {
    var tail := s[1..];
    forall i, j | 0 <= i < j < |tail| ensures tail[i].createdAt >= tail[j].createdAt {
      assert tail[i] == s[i + 1] && tail[j] == s[j + 1];
    }
    forall x | x in tail ensures s[0].createdAt >= x.createdAt {
      var k :| 0 <= k < |tail| && tail[k] == x;
      assert s[k + 1] == x;
    }
  }

  lemma {:induction false} InsertNewestOrdered(b: Bookmark, s: seq<Bookmark>)
    requires NewestFirstOrder(s)
    ensures NewestFirstOrder(InsertNewest(b, s))
  {
    if s == [] {
    } else if b.createdAt >= s[0].createdAt {
      forall x | x in s ensures b.createdAt >= x.createdAt {
        if x != s[0] {
          assert x in s[1..] by {
            var k :| 0 <= k < |s| && s[k] == x;
            assert s[1..][k - 1] == x;
          }
          TailOrdered(s);
        }
      }
      ConsOrdered(b, s);
    } else {
      var tail := s[1..];
      TailOrdered(s);
      InsertNewestOrdered(b, tail);
      InsertNewestPermutes(b, tail);
      var rest := InsertNewest(b, tail);
      forall x | x in rest ensures s[0].createdAt >= x.createdAt {
        assert x in multiset(rest);
        assert x == b || x in multiset(tail);
      }
      ConsOrdered(s[0], rest);
    }
  }

  lemma MultisetOfCons(s: seq<Bookmark>)
    requires s != []
    ensures multiset(s) == multiset(s[1..]) + multiset{s[0]}
  {
    assert s == [s[0]] + s[1..];
  }

  /** The rows sorted by `createdAt`, descending (an insertion sort). */
  function NewestFirst(s: seq<Bookmark>): (r: seq<Bookmark>)
    ensures NewestFirstOrder(r)
    ensures multiset(r) == multiset(s)
  {
    if s == [] then []
    else
      var t := NewestFirst(s[1..]);
      InsertNewestOrdered(s[0], t);
      InsertNewestPermutes(s[0], t);
      MultisetOfCons(s);
      InsertNewest(s[0], t)
  }

  /** What the fetch asks for: the user's rows, newest first. */
  function Query(rows: seq<Bookmark>, userId: string): (r: seq<Bookmark>)
    ensures NewestFirstOrder(r)
    ensures multiset(r) == multiset(OwnedBy(rows, userId))
  {
    NewestFirst(OwnedBy(rows, userId))
  }

  /** A fetch returns exactly the user's rows (with their multiplicities),
      newest first. */
  lemma QueryIsOwnRowsNewestFirst(rows: seq<Bookmark>, userId: string)
    ensures forall b :: b in Query(rows, userId) <==> b in rows && b.userId == userId
    ensures multiset(Query(rows, userId)) == multiset(OwnedBy(rows, userId))
    ensures NewestFirstOrder(Query(rows, userId))
  {
    var r := NewestFirst(OwnedBy(rows, userId));
    assert forall b :: b in r <==> b in multiset(OwnedBy(rows, userId));
  }

  /** A row just appended for a user is part of that user's next fetch. */
  lemma QueryShowsLastRow(rows: seq<Bookmark>, row: Bookmark)
    ensures row in Query(rows + [row], row.userId)
  {
    QueryIsOwnRowsNewestFirst(rows + [row], row.userId);
    assert row in rows + [row];
  }

  /** Filtering keeps the survivors in their original order: it distributes
      over concatenation. */
  lemma {:induction false} WithoutAppend(a: seq<Bookmark>, b: seq<Bookmark>, id: string)
    ensures Without(a + b, id) == Without(a, id) + Without(b, id)
  {
    if a == [] {
      assert a + b == b;
    } else {
      assert (a + b)[1..] == a[1..] + b;
      WithoutAppend(a[1..], b, id);
    }
  }

  /** Removing an id twice is removing it once. */
  lemma {:induction false} WithoutIdempotent(s: seq<Bookmark>, id: string)
    ensures Without(Without(s, id), id) == Without(s, id)
  {
    var r := Without(s, id);
    forall i | 0 <= i < |r| ensures r[i].id != id {
      assert r[i] in r;
    }
    WithoutAbsent(r, id);
  }

  lemma {:induction false} WithoutDistinct(s: seq<Bookmark>, id: string)
    requires DistinctIds(s)
    ensures DistinctIds(Without(s, id))
  {
    if s != [] {
      WithoutDistinct(s[1..], id);
      var rest := Without(s[1..], id);
      forall x | x in rest ensures x.id != s[0].id {
        var k :| 0 <= k < |s[1..]| && s[1..][k] == x;
        assert s[k + 1] == x;
      }
    }
  }

  /** With distinct ids, deleting a present id removes exactly one row. */
  lemma {:induction false} WithoutRemovesOne(s: seq<Bookmark>, id: string)
    requires DistinctIds(s)
    ensures |Without(s, id)| == if HasId(s, id) then |s| - 1 else |s|
  {
    if s != [] {
      WithoutRemovesOne(s[1..], id);
      if s[0].id == id {
        forall k | 0 <= k < |s[1..]| ensures s[1..][k].id != id {
          assert s[1..][k] == s[k + 1];
        }
      } else {
        if HasId(s, id) {
          var k :| 0 <= k < |s| && s[k].id == id;
          assert s[1..][k - 1].id == id;
        }
      }
    }
  }

  /** The owner filter and the id filter commute. */
  lemma {:induction false} OwnedByWithout(s: seq<Bookmark>, userId: string, id: string)
    ensures Without(OwnedBy(s, userId), id) == OwnedBy(Without(s, id), userId)
  {
    if s != [] {
      OwnedByWithout(s[1..], userId, id);
      var o := OwnedBy(s[1..], userId);
      var h := if s[0].userId == userId then [s[0]] else [];
      assert OwnedBy(s, userId) == h + o;
      WithoutAppend(h, o, id);
      var w := Without(s[1..], id);
      var g := if s[0].id == id then [] else [s[0]];
      assert Without(s, id) == g + w;
      if g == [] {
        assert g + w == w;
      } else {
        assert (g + w)[1..] == w;
      }
    }
  }

  lemma WithoutCons(x: Bookmark, t: seq<Bookmark>, id: string)
    ensures Without([x] + t, id) == (if x.id == id then [] else [x]) + Without(t, id)
  {
    assert ([x] + t)[1..] == t;
  }

  /** Inserting a row that the filter drops, then filtering, is filtering. */
  lemma {:induction false} WithoutInsertDropped(b: Bookmark, s: seq<Bookmark>, id: string)
    requires b.id == id
    ensures Without(InsertNewest(b, s), id) == Without(s, id)
  {
    if s == [] {
      WithoutCons(b, [], id);
    } else if b.createdAt >= s[0].createdAt {
      WithoutCons(b, s, id);
    } else {
      WithoutInsertDropped(b, s[1..], id);
      WithoutCons(s[0], InsertNewest(b, s[1..]), id);
      WithoutCons(s[0], s[1..], id);
      assert s == [s[0]] + s[1..];
    }
  }

  /** Inserting a row that the filter keeps commutes with the filter. */
  lemma {:induction false} WithoutInsertKept(b: Bookmark, s: seq<Bookmark>, id: string)
    requires NewestFirstOrder(s) && b.id != id
    ensures Without(InsertNewest(b, s), id) == InsertNewest(b, Without(s, id))
  {
    if s == [] {
      WithoutCons(b, [], id);
    } else if b.createdAt >= s[0].createdAt {
      InsertAheadKept(b, s, id);
    } else {
      TailOrdered(s);
      WithoutInsertKept(b, s[1..], id);
      InsertBehindKept(b, s, id);
    }
  }

  lemma InsertAheadKept(b: Bookmark, s: seq<Bookmark>, id: string)
    requires NewestFirstOrder(s) && b.id != id && s != [] && b.createdAt >= s[0].createdAt
    ensures Without(InsertNewest(b, s), id) == InsertNewest(b, Without(s, id))
  {
    WithoutCons(b, s, id);
    var w := Without(s, id);
    if w != [] {
      assert w[0] in s;
      TailOrdered(s);
      assert w[0] == s[0] || w[0] in s[1..] by {
        var k :| 0 <= k < |s| && s[k] == w[0];
        if k > 0 {
          assert s[1..][k - 1] == w[0];
        }
      }
    }
  }

  lemma InsertBehindKept(b: Bookmark, s: seq<Bookmark>, id: string)
    requires s != [] && b.createdAt < s[0].createdAt
    requires Without(InsertNewest(b, s[1..]), id) == InsertNewest(b, Without(s[1..], id))
    ensures Without(InsertNewest(b, s), id) == InsertNewest(b, Without(s, id))
  {
    var t := s[1..];
    var w := Without(t, id);
    assert InsertNewest(b, s) == [s[0]] + InsertNewest(b, t);
    WithoutCons(s[0], InsertNewest(b, t), id);
    if s[0].id == id {
      assert Without(s, id) == w;
    } else {
      var v := [s[0]] + w;
      assert Without(s, id) == v;
      assert v[0] == s[0] && v[1..] == w;
      assert InsertNewest(b, v) == [s[0]] + InsertNewest(b, w);
    }
  }

  /** Dropping rows keeps the newest-first order. */
  lemma {:induction false} NewestFirstSub(s: seq<Bookmark>, id: string)
    requires NewestFirstOrder(s)
    ensures NewestFirstOrder(Without(s, id))
  {
    if s != [] {
      TailOrdered(s);
      NewestFirstSub(s[1..], id);
      var w := Without(s[1..], id);
      if s[0].id != id {
        assert forall x :: x in w ==> x in s[1..];
        ConsOrdered(s[0], w);
      }
    }
  }

  /** Sorting then filtering is filtering then sorting. */
  lemma {:induction false} WithoutNewestFirst(s: seq<Bookmark>, id: string)
    ensures Without(NewestFirst(s), id) == NewestFirst(Without(s, id))
  {
    if s != [] {
      var t := NewestFirst(s[1..]);
      var w := Without(s[1..], id);
      WithoutNewestFirst(s[1..], id);
      assert NewestFirst(s) == InsertNewest(s[0], t);
      if s[0].id == id {
        assert Without(s, id) == w;
        WithoutInsertDropped(s[0], t, id);
      } else {
        var v := [s[0]] + w;
        assert Without(s, id) == v;
        assert v[0] == s[0] && v[1..] == w;
        assert NewestFirst(v) == InsertNewest(s[0], NewestFirst(w));
        WithoutInsertKept(s[0], t, id);
      }
    }
  }

  /** The local filter after a delete yields what a fresh fetch would: the
      user's view of the table with the id removed. */
  lemma QueryWithout(rows: seq<Bookmark>, userId: string, id: string)
    ensures Without(Query(rows, userId), id) == Query(Without(rows, id), userId)
  {
    WithoutNewestFirst(OwnedBy(rows, userId), id);
    OwnedByWithout(rows, userId, id);
  }

  /** A row whose id no row of `t` has can head a sequence of distinct ids. */
  lemma ConsDistinct(h: Bookmark, t: seq<Bookmark>)
    requires DistinctIds(t)
    requires forall x :: x in t ==> x.id != h.id
    ensures DistinctIds([h] + t)
  {
    var r := [h] + t;
    forall i, j | 0 <= i < j < |r| ensures r[i].id != r[j].id {
      assert r[j] == t[j - 1];
      if i == 0 {
        assert t[j - 1] in t;
      } else {
        assert r[i] == t[i - 1];
      }
    }
  }

  /** The tail of a sequence of distinct ids has distinct ids, none of them
      the head's. */
  lemma TailDistinct(s: seq<Bookmark>)
    requires DistinctIds(s) && s != []
    ensures DistinctIds(s[1..])
    ensures forall x :: x in s[1..] ==> x.id != s[0].id
  {
    var tail := s[1..];
    forall i, j | 0 <= i < j < |tail| ensures tail[i].id != tail[j].id {
      assert tail[i] == s[i + 1] && tail[j] == s[j + 1];
    }
    forall x | x in tail ensures x.id != s[0].id {
      var k :| 0 <= k < |tail| && tail[k] == x;
      assert s[k + 1] == x;
    }
  }

  lemma {:induction false} OwnedByDistinct(s: seq<Bookmark>, userId: string)
    requires DistinctIds(s)
    ensures DistinctIds(OwnedBy(s, userId))
  {
    if s != [] {
      TailDistinct(s);
      OwnedByDistinct(s[1..], userId);
      if s[0].userId == userId {
        ConsDistinct(s[0], OwnedBy(s[1..], userId));
      }
    }
  }

  lemma {:induction false} InsertNewestDistinct(b: Bookmark, s: seq<Bookmark>)
    requires DistinctIds(s)
    requires forall x :: x in s ==> x.id != b.id
    ensures DistinctIds(InsertNewest(b, s))
  {
    if s == [] {
    } else if b.createdAt >= s[0].createdAt {
      ConsDistinct(b, s);
    } else {
      var tail := s[1..];
      TailDistinct(s);
      forall x | x in tail ensures x.id != b.id {
        var k :| 0 <= k < |tail| && tail[k] == x;
        assert s[k + 1] == x;
      }
      InsertNewestDistinct(b, tail);
      InsertNewestPermutes(b, tail);
      var rest := InsertNewest(b, tail);
      forall x | x in rest ensures x.id != s[0].id {
        assert x in multiset(rest);
        assert x == b || x in multiset(tail);
      }
      ConsDistinct(s[0], rest);
    }
  }

  lemma {:induction false} NewestFirstDistinct(s: seq<Bookmark>)
    requires DistinctIds(s)
    ensures DistinctIds(NewestFirst(s))
  {
    if s != [] {
      TailDistinct(s);
      NewestFirstDistinct(s[1..]);
      var t := NewestFirst(s[1..]);
      forall x | x in t ensures x.id != s[0].id {
        assert x in multiset(t);
        assert x in multiset(s[1..]);
      }
      InsertNewestDistinct(s[0], t);
    }
  }

  /** A fetch from a table with distinct ids lists distinct ids. */
  lemma QueryDistinct(rows: seq<Bookmark>, userId: string)
    requires DistinctIds(rows)
    ensures DistinctIds(Query(rows, userId))
  {
    OwnedByDistinct(rows, userId);
    NewestFirstDistinct(OwnedBy(rows, userId));
  }

  /** The remote store: the bookmarks table and the storage bucket. */
  class Backend {
    var rows: seq<Bookmark>
    var objects: map<string, seq<bv8>>
    const projectUrl: string

    ghost predicate Valid()
      reads this
    {
      DistinctIds(rows)
    }

    constructor (projectUrl: string)
      ensures Valid() && rows == [] && objects == map[] && this.projectUrl == projectUrl
    {
      rows := [];
      objects := map[];
      this.projectUrl := projectUrl;
    }

    /** The user's rows, newest first, unless the call fails. */
    method Select(userId: string, fails: bool) returns (reply: Reply<seq<Bookmark>>)
      ensures reply.error == fails
      ensures !fails ==> reply.data == Some(Query(rows, userId))
    {
      if fails {
        reply := Reply(None, true);
      } else {
        reply := Reply(Some(Query(rows, userId)), false);
      }
    }

    /** Stores `rec` under the id the store draws; a clash with an existing id
        is a constraint violation and fails like a network error. */
    method Insert(rec: NewBookmark, id: string, fails: bool) returns (error: bool)
      requires Valid()
      modifies this`rows
      ensures Valid()
      ensures error == (fails || HasId(old(rows), id))
      ensures objects == old(objects)
      ensures rows == if error then old(rows) else old(rows) + [rec.WithId(id)]
    {
      error := fails || HasId(rows, id);
      if !error {
        rows := rows + [rec.WithId(id)];
      }
    }

    /** Deletes every row whose id is `id`. */
    method Delete(id: string, fails: bool) returns (error: bool)
      requires Valid()
      modifies this`rows
      ensures Valid()
      ensures error == fails
      ensures rows == if error then old(rows) else Without(old(rows), id)
      ensures objects == old(objects)
    {
      error := fails;
      if !error {
        WithoutDistinct(rows, id);
        rows := Without(rows, id);
      }
    }

    /** Puts `bytes` in the bucket under `path`. */
    method Upload(path: string, bytes: seq<bv8>, fails: bool) returns (error: bool)
      requires Valid()
      modifies this`objects
      ensures Valid() && rows == old(rows)
      ensures error == fails
      ensures objects == if error then old(objects) else old(objects)[path := bytes]
    {
      error := fails;
      if !error {
        objects := objects[path := bytes];
      }
    }

    /** The public URL the bucket serves `path` under. */
    function PublicUrl(path: string): (url: string)
      ensures |url| >= |projectUrl| + |path| && url[..|projectUrl|] == projectUrl
      ensures url[|url| - |path|..] == path
    {
      projectUrl + "/storage/v1/object/public/bookmarks/" + path
    }
  }
}
