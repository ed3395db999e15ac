/**
  The part of MongoDB's collection semantics that the server uses, over a
  collection held as a sequence of documents in natural (insertion) order:
  equality filters and `$in` (`Filter`), `findOne` (`FindFirst`),
  `countDocuments` (`Count`), `skip`/`limit` (`SkipLimit`), `deleteMany`,
  `deleteOne` and `updateOne` keyed by `_id`.
 */
module Documents {
  import opened Wrappers

  /** An opaque document identifier, MongoDB's `_id`. */
  type Id = nat

  /** A stored document: its `_id` and the fields the client sent. */
  datatype Doc<T> = Doc(id: Id, body: T)

  /** The driver's `InsertOneResult` (`acknowledged` is always true here). */
  datatype InsertResult = InsertResult(insertedId: Id)

  /** The driver's `DeleteResult`. */
  datatype DeleteResult = DeleteResult(deletedCount: nat)

  /** The driver's `UpdateResult`. */
  datatype UpdateResult = UpdateResult(matchedCount: nat, modifiedCount: nat)

  /** `find(filter).toArray()`: the matching documents, in collection order. */
  function Filter<T(!new)>(s: seq<T>, p: T -> bool): (r: seq<T>)
    ensures |r| <= |s|
    ensures forall x :: x in r <==> x in s && p(x)
  {
    if s == [] then [] else (if p(s[0]) then [s[0]] else []) + Filter(s[1..], p)
  }

  /** `countDocuments(filter)`, counted one document at a time. */
  function Count<T>(s: seq<T>, p: T -> bool): (n: nat)
    ensures n <= |s|
  {
    if s == [] then 0 else (if p(s[0]) then 1 else 0) + Count(s[1..], p)
  }

  /** `findOne(filter)`: the first matching document, or `null`. */
  function FindFirst<T(!new)>(s: seq<T>, p: T -> bool): (r: Option<T>)
    ensures r.None? <==> forall i :: 0 <= i < |s| ==> !p(s[i])
    ensures r.Some? ==> r.value in s && p(r.value)
    ensures r.Some? ==> exists i :: 0 <= i < |s| && s[i] == r.value && forall j :: 0 <= j < i ==> !p(s[j])
  {
    if s == [] then None else if p(s[0]) then Some(s[0]) else FindFirst(s[1..], p)
  }

  /**
    `find().skip(skip).limit(limit)`: the window of `s` that starts at
    position `skip`; a `limit` of 0 means no limit.
   */
  function SkipLimit<T>(s: seq<T>, skip: nat, limit: nat): (r: seq<T>)
    ensures skip >= |s| ==> r == []
    ensures skip < |s| ==> |r| == if limit == 0 || skip + limit > |s| then |s| - skip else limit
    ensures forall i :: 0 <= i < |r| ==> skip + i < |s| && r[i] == s[skip + i]
  {
    var rest := if skip < |s| then s[skip..] else [];
    if limit == 0 || limit >= |rest| then rest else rest[..limit]
  }

  /** A window holds only documents of the collection. */
  lemma SkipLimitWithin<T>(s: seq<T>, skip: nat, limit: nat)
    ensures forall x :: x in SkipLimit(s, skip, limit) ==> x in s
  {
    var r := SkipLimit(s, skip, limit);
    forall x | x in r ensures x in s {
      var i :| 0 <= i < |r| && r[i] == x;
      assert r[i] == s[skip + i];
    }
  }

  /**
    With unique `_id`s, a window that starts at `skip` holds none of the
    `skip` documents before it.
   */
  lemma SkipLimitAvoidsSkipped<T>(s: seq<Doc<T>>, skip: nat, limit: nat)
    requires UniqueBy(s, (d: Doc<T>) => d.id)
    ensures forall i, k :: 0 <= i < |SkipLimit(s, skip, limit)| && 0 <= k < skip && k < |s| ==>
      SkipLimit(s, skip, limit)[i] != s[k]
  {
    var r := SkipLimit(s, skip, limit);
    forall i, k | 0 <= i < |r| && 0 <= k < skip && k < |s| ensures r[i] != s[k] {
      assert r[i] == s[skip + i];
      assert s[k].id != s[skip + i].id;
    }
  }

  /** No two elements of `s` share a key. */
  ghost predicate UniqueBy<T, K>(s: seq<T>, key: T -> K)
  {
    forall i, j :: 0 <= i < j < |s| ==> key(s[i]) != key(s[j])
  }

  /** Filtering distributes over concatenation: survivors keep their order. */
  lemma {:induction false} FilterConcat<T(!new)>(a: seq<T>, b: seq<T>, p: T -> bool)
    ensures Filter(a + b, p) == Filter(a, p) + Filter(b, p)
  {
    if a == [] {
      assert a + b == b;
    } else {
      FilterConcat(a[1..], b, p);
      FilterCons(a, b, p);
    }
  }

  lemma FilterCons<T(!new)>(a: seq<T>, b: seq<T>, p: T -> bool)
    requires a != []
    ensures Filter(a + b, p) == (if p(a[0]) then [a[0]] else []) + Filter(a[1..] + b, p)
  {
    assert (a + b)[1..] == a[1..] + b;
  }

  /** Dropping the head of a sequence keeps its keys unique. */
  lemma UniqueByTail<T, K>(s: seq<T>, key: T -> K)
    requires s != [] && UniqueBy(s, key)
    ensures UniqueBy(s[1..], key)
  {
    forall i, j | 0 <= i < j < |s[1..]| ensures key(s[1..][i]) != key(s[1..][j]) {
      assert s[1..][i] == s[i + 1] && s[1..][j] == s[j + 1];
    }
  }

  /** Every `_id` in `s` is below `n`: `n` is a fresh identifier. */
  ghost predicate IdsBelow<T>(s: seq<Doc<T>>, n: Id)
  {
    forall i :: 0 <= i < |s| ==> s[i].id < n
  }

  /** The invariant MongoDB keeps for `_id`: unique and, here, below the next fresh one. */
  ghost predicate WellKeyed<T>(s: seq<Doc<T>>, n: Id)
  {
    UniqueBy(s, (d: Doc<T>) => d.id) && IdsBelow(s, n)
  }

  /** `insertOne(body)`: the document is appended under a fresh `_id`. */
  function Insert<T>(s: seq<Doc<T>>, id: Id, body: T): (r: seq<Doc<T>>)
    requires IdsBelow(s, id)
    ensures |r| == |s| + 1 && r[..|s|] == s && r[|s|] == Doc(id, body)
    ensures WellKeyed(s, id) ==> WellKeyed(r, id + 1)
  {
    s + [Doc(id, body)]
  }

  /** `deleteMany({_id: {$in: ids}})`: what remains of the collection. */
  function DeleteMany<T(!new)>(s: seq<Doc<T>>, ids: set<Id>): (r: seq<Doc<T>>)
    ensures forall d :: d in r <==> d in s && d.id !in ids
  {
    Filter(s, (d: Doc<T>) => d.id !in ids)
  }

  /** The documents `deleteMany({_id: {$in: ids}})` removes. */
  function Selected<T(!new)>(s: seq<Doc<T>>, ids: set<Id>): (r: seq<Doc<T>>)
    ensures forall d :: d in r <==> d in s && d.id in ids
  {
    Filter(s, (d: Doc<T>) => d.id in ids)
  }

  /** `deleteOne({_id: id})`: the first document with that `_id` is removed. */
  function DeleteOne<T>(s: seq<Doc<T>>, id: Id): (r: seq<Doc<T>>)
    ensures |r| == if exists i :: 0 <= i < |s| && s[i].id == id then |s| - 1 else |s|
  {
    if s == [] then []
    else if s[0].id == id then s[1..]
    else [s[0]] + DeleteOne(s[1..], id)
  }

  /** `updateOne({_id: id}, update)`: the first document with that `_id` becomes `f` of itself. */
  function UpdateOne<T>(s: seq<Doc<T>>, id: Id, f: T -> T): (r: seq<Doc<T>>)
    ensures |r| == |s|
    ensures forall i :: 0 <= i < |s| ==> r[i].id == s[i].id
    ensures forall i :: 0 <= i < |s| && s[i].id != id ==> r[i] == s[i]
    ensures forall i :: 0 <= i < |s| && r[i] != s[i] ==> r[i].body == f(s[i].body)
  {
    if s == [] then []
    else if s[0].id == id then [Doc(id, f(s[0].body))] + s[1..]
    else [s[0]] + UpdateOne(s[1..], id, f)
  }

  /**
    What `updateOne({_id: id}, update)` reports: a document matched when one
    has that `_id`, and it counts as modified only when the update changed it.
   */
  function UpdateOneResult<T(==)>(s: seq<Doc<T>>, id: Id, f: T -> T): (r: UpdateResult)
    ensures r.matchedCount == if exists i :: 0 <= i < |s| && s[i].id == id then 1 else 0
    ensures r.modifiedCount <= r.matchedCount
    ensures r.modifiedCount == 0 <==> UpdateOne(s, id, f) == s
  {
    if s == [] then UpdateResult(0, 0)
    else if s[0].id == id then UpdateResult(1, if f(s[0].body) == s[0].body then 0 else 1)
    else
      var r := UpdateOneResult(s[1..], id, f);
      assert UpdateOne(s, id, f) == s <==> UpdateOne(s[1..], id, f) == s[1..] by {
        assert UpdateOne(s, id, f) == [s[0]] + UpdateOne(s[1..], id, f);
        assert s == [s[0]] + s[1..];
      }
      r
  }

  // ---------------------------------------------------------------------------
  // Lemmas about filtering

  lemma {:induction false} CountIsFilterLength<T(!new)>(s: seq<T>, p: T -> bool)
    ensures Count(s, p) == |Filter(s, p)|
  {
    if s != [] {
      CountIsFilterLength(s[1..], p);
    }
  }

  /** Filtering twice with the same predicate removes nothing more. */
  lemma {:induction false} FilterIdempotent<T(!new)>(s: seq<T>, p: T -> bool)
    ensures Filter(Filter(s, p), p) == Filter(s, p)
  {
    if s != [] {
      FilterIdempotent(s[1..], p);
      var f := Filter(s, p);
      if p(s[0]) {
        assert f == [s[0]] + Filter(s[1..], p);
        assert f[0] == s[0] && f[1..] == Filter(s[1..], p);
        assert Filter(f, p) == [s[0]] + Filter(f[1..], p);
      } else {
        assert f == Filter(s[1..], p);
      }
    }
  }

  /** A filter every element passes keeps the whole sequence. */
  lemma {:induction false} FilterAll<T(!new)>(s: seq<T>, p: T -> bool)
    requires forall i :: 0 <= i < |s| ==> p(s[i])
    ensures Filter(s, p) == s
  {
    if s != [] {
      FilterAll(s[1..], p);
    }
  }

  /** A filter no element passes keeps nothing. */
  lemma {:induction false} FilterNone<T(!new)>(s: seq<T>, p: T -> bool)
    requires forall i :: 0 <= i < |s| ==> !p(s[i])
    ensures Filter(s, p) == []
  {
    if s != [] {
      FilterNone(s[1..], p);
    }
  }

  /** A filter and its complement split the sequence's length. */
  lemma {:induction false} FilterPartition<T(!new)>(s: seq<T>, p: T -> bool, q: T -> bool)
    requires forall x :: q(x) == !p(x)
    ensures |Filter(s, p)| + |Filter(s, q)| == |s|
  {
    if s != [] {
      FilterPartition(s[1..], p, q);
    }
  }

  /** Filtering keeps any key unique that was unique before. */
  lemma {:induction false} FilterKeepsUniqueBy<T(!new), K>(s: seq<T>, p: T -> bool, key: T -> K)
    requires UniqueBy(s, key)
    ensures UniqueBy(Filter(s, p), key)
  {
    if s != [] {
      FilterKeepsUniqueBy(s[1..], p, key);
      var rest := Filter(s[1..], p);
      if p(s[0]) {
        var f := Filter(s, p);
        assert f == [s[0]] + rest;
        forall i, j | 0 <= i < j < |f| ensures key(f[i]) != key(f[j]) {
          if i == 0 {
            assert f[j] == rest[j - 1] && rest[j - 1] in s[1..];
            var k :| 0 <= k < |s[1..]| && s[1..][k] == f[j];
            assert s[k + 1] == f[j];
          } else {
            assert f[i] == rest[i - 1] && f[j] == rest[j - 1];
          }
        }
      }
    }
  }

  /** Removing elements keeps every `_id` below the same bound. */
  lemma FilterKeepsIdsBelow<T(!new)>(s: seq<Doc<T>>, p: Doc<T> -> bool, n: Id)
    requires IdsBelow(s, n)
    ensures IdsBelow(Filter(s, p), n)
  {
    var f := Filter(s, p);
    forall i | 0 <= i < |f| ensures f[i].id < n {
      assert f[i] in s;
    }
  }

  // ---------------------------------------------------------------------------
  // Lemmas about deleteMany

  /** After `deleteMany`, no remaining document has an `_id` from `ids`. */
  lemma DeleteManyRemovesAll<T(!new)>(s: seq<Doc<T>>, ids: set<Id>)
    ensures forall i :: 0 <= i < |DeleteMany(s, ids)| ==> DeleteMany(s, ids)[i].id !in ids
  {
    var r := DeleteMany(s, ids);
    forall i | 0 <= i < |r| ensures r[i].id !in ids {
      assert r[i] in r;
    }
  }

  /** The number of documents `deleteMany` removes is the number that match. */
  lemma DeletedCount<T(!new)>(s: seq<Doc<T>>, ids: set<Id>)
    ensures |s| - |DeleteMany(s, ids)| == |Selected(s, ids)|
  {
    FilterPartition(s, (d: Doc<T>) => d.id in ids, (d: Doc<T>) => d.id !in ids);
  }

  /** A second `deleteMany` with the same identifiers removes nothing. */
  lemma DeleteManyIdempotent<T(!new)>(s: seq<Doc<T>>, ids: set<Id>)
    ensures DeleteMany(DeleteMany(s, ids), ids) == DeleteMany(s, ids)
    ensures Selected(DeleteMany(s, ids), ids) == []
  {
    FilterIdempotent(s, (d: Doc<T>) => d.id !in ids);
    DeleteManyRemovesAll(s, ids);
    FilterNone(DeleteMany(s, ids), (d: Doc<T>) => d.id in ids);
  }

  /** `deleteMany` keeps the collection's `_id` invariant. */
  lemma DeleteManyKeepsWellKeyed<T(!new)>(s: seq<Doc<T>>, ids: set<Id>, n: Id)
    requires WellKeyed(s, n)
    ensures WellKeyed(DeleteMany(s, ids), n)
  {
    FilterKeepsUniqueBy(s, (d: Doc<T>) => d.id !in ids, (d: Doc<T>) => d.id);
    FilterKeepsIdsBelow(s, (d: Doc<T>) => d.id !in ids, n);
  }

  // ---------------------------------------------------------------------------
  // Lemmas about deleteOne and updateOne

  /** With unique `_id`s, `deleteOne` removes exactly the document with that `_id`. */
  lemma {:induction false} DeleteOneIsFilter<T(!new)>(s: seq<Doc<T>>, id: Id)
    requires UniqueBy(s, (d: Doc<T>) => d.id)
    ensures DeleteOne(s, id) == Filter(s, (d: Doc<T>) => d.id != id)
  {
    if s != [] {
      UniqueByTail(s, (d: Doc<T>) => d.id);
      if s[0].id == id {
        forall i | 0 <= i < |s[1..]| ensures s[1..][i].id != id {
          assert s[1..][i] == s[i + 1];
        }
        FilterAll(s[1..], (d: Doc<T>) => d.id != id);
      } else {
        DeleteOneIsFilter(s[1..], id);
      }
    }
  }

  /** `deleteOne` keeps the collection's `_id` invariant. */
  lemma DeleteOneKeepsWellKeyed<T(!new)>(s: seq<Doc<T>>, id: Id, n: Id)
    requires WellKeyed(s, n)
    ensures WellKeyed(DeleteOne(s, id), n)
  {
    DeleteOneIsFilter(s, id);
    FilterKeepsUniqueBy(s, (d: Doc<T>) => d.id != id, (d: Doc<T>) => d.id);
    FilterKeepsIdsBelow(s, (d: Doc<T>) => d.id != id, n);
  }

  /**
    With unique `_id`s, `updateOne` rewrites exactly the document with that
    `_id` and leaves every other document as it was.
   */
  lemma UpdateOneExact<T>(s: seq<Doc<T>>, id: Id, f: T -> T)
    requires UniqueBy(s, (d: Doc<T>) => d.id)
    ensures forall i :: 0 <= i < |s| ==>
      UpdateOne(s, id, f)[i] == if s[i].id == id then Doc(id, f(s[i].body)) else s[i]
  {
    var r := UpdateOne(s, id, f);
    forall i | 0 <= i < |s| && s[i].id == id ensures r[i] == Doc(id, f(s[i].body)) {
      UpdateOneAt(s, id, f, i);
    }
  }

  lemma {:induction false} UpdateOneAt<T>(s: seq<Doc<T>>, id: Id, f: T -> T, i: nat)
    requires UniqueBy(s, (d: Doc<T>) => d.id)
    requires i < |s| && s[i].id == id
    ensures UpdateOne(s, id, f)[i] == Doc(id, f(s[i].body))
  {
    if i > 0 {
      assert s[0].id != id by { assert s[0].id != s[i].id; }
      UniqueByTail(s, (d: Doc<T>) => d.id);
      UpdateOneAt(s[1..], id, f, i - 1);
    }
  }

  /** Applying an idempotent update twice is the same as applying it once. */
  lemma {:induction false} UpdateOneIdempotent<T>(s: seq<Doc<T>>, id: Id, f: T -> T)
    requires forall x :: f(f(x)) == f(x)
    ensures UpdateOne(UpdateOne(s, id, f), id, f) == UpdateOne(s, id, f)
  {
    if s != [] && s[0].id != id {
      UpdateOneIdempotent(s[1..], id, f);
    }
  }

  /** `updateOne` keeps the collection's `_id` invariant and any key its update preserves. */
  lemma UpdateOneKeepsUniqueBy<T, K>(s: seq<Doc<T>>, id: Id, f: T -> T, key: Doc<T> -> K)
    requires forall i :: 0 <= i < |s| ==> key(Doc(s[i].id, f(s[i].body))) == key(s[i])
    requires UniqueBy(s, key)
    ensures UniqueBy(UpdateOne(s, id, f), key)
  {
    var r := UpdateOne(s, id, f);
    forall i | 0 <= i < |s| ensures key(r[i]) == key(s[i]) {
      if r[i] != s[i] {
        assert r[i] == Doc(s[i].id, f(s[i].body));
      }
    }
  }

  /** An update keeps every `_id`, so it keeps the collection well keyed. */
  lemma UpdateOneKeepsWellKeyed<T>(s: seq<Doc<T>>, n: Id, id: Id, f: T -> T)
    requires WellKeyed(s, n)
    ensures WellKeyed(UpdateOne(s, id, f), n)
  {
    UpdateOneKeepsUniqueBy(s, id, f, (d: Doc<T>) => d.id);
  }
}
