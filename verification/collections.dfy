/** A Mongo collection as the model sees it: a sequence of documents in
    natural order. `findOne` is the first match, `find` keeps every match in
    order, and a unique index forbids two documents with the same key. */
module Collections {
  import opened Base

  /** `findOne(filter)`: the position of the first document the filter
      accepts. */
  function FindFirst<T>(s: seq<T>, p: T -> bool): (r: Option<nat>)
    ensures r.Some? ==> r.value < |s| && p(s[r.value])
    ensures r.Some? ==> forall j :: 0 <= j < r.value ==> !p(s[j])
    ensures r.None? <==> forall j :: 0 <= j < |s| ==> !p(s[j])
  {
    if s == [] then None
    else if p(s[0]) then Some(0)
    else
      match FindFirst(s[1..], p)
      case None => None
      case Some(k) => Some(k + 1)
  }

  /** `find(filter)`: every document the filter accepts, in order. */
  function Filter<T>(s: seq<T>, p: T -> bool): (r: seq<T>)
    ensures |r| <= |s|
    ensures forall i :: 0 <= i < |r| ==> r[i] in s && p(r[i])
    ensures forall i :: 0 <= i < |s| && p(s[i]) ==> s[i] in r
  {
    if s == [] then []
    else if p(s[0]) then [s[0]] + Filter(s[1..], p)
    else Filter(s[1..], p)
  }

  /** Filtering keeps every accepted document as often as it occurs and
      drops every other one, so the result is as long as the number of
      matches `countDocuments` reports. */
  lemma {:induction false} FilterCounts<T(!new)>(s: seq<T>, p: T -> bool)
    ensures forall x :: multiset(Filter(s, p))[x] == if p(x) then multiset(s)[x] else 0
  {
    if s != [] {
      assert s == [s[0]] + s[1..];
      FilterCounts(s[1..], p);
    }
  }

  /** Filtering splits over concatenation. */
  lemma {:induction false} FilterConcat<T>(s: seq<T>, t: seq<T>, p: T -> bool)
    ensures Filter(s + t, p) == Filter(s, p) + Filter(t, p)
  {
    if s != [] {
      var u := s + t;
      assert u[0] == s[0] && u[1..] == s[1..] + t;
      FilterConcat(s[1..], t, p);
      if p(s[0]) {
        assert Filter(u, p) == [s[0]] + Filter(s[1..] + t, p);
        assert Filter(s, p) == [s[0]] + Filter(s[1..], p);
      } else {
        assert Filter(u, p) == Filter(s[1..] + t, p);
        assert Filter(s, p) == Filter(s[1..], p);
      }
    } else {
      assert s + t == t;
    }
  }

  /** Writing a document back to position `at`, or appending it when `at`
      is `None` (a new document). */
  function Put<T>(s: seq<T>, at: Option<nat>, x: T): (r: seq<T>)
    requires at.Some? ==> at.value < |s|
  {
    if at.Some? then s[at.value := x] else s + [x]
  }

  /** A unique index on `key` holds. */
  predicate Unique<T, K(==)>(s: seq<T>, key: T -> K)
  {
    forall i, j :: 0 <= i < j < |s| ==> key(s[i]) != key(s[j])
  }

  /** Writing `x` at `at` would violate the unique index on `key`: some other
      document already has `x`'s key. */
  predicate Clashes<T, K(==)>(s: seq<T>, at: Option<nat>, x: T, key: T -> K)
  {
    exists i :: 0 <= i < |s| && (at.None? || at.value != i) && key(s[i]) == key(x)
  }

  /** A write the unique index admits keeps the index intact. */
  lemma PutKeepsUnique<T, K>(s: seq<T>, at: Option<nat>, x: T, key: T -> K)
    requires at.Some? ==> at.value < |s|
    requires Unique(s, key) && !Clashes(s, at, x, key)
    ensures Unique(Put(s, at, x), key)
  {
    var r := Put(s, at, x);
    forall i, j | 0 <= i < j < |r|
      ensures key(r[i]) != key(r[j])
    {
      if at.None? {
        if j == |s| {
          assert r[i] == s[i];
        } else {
          assert r[i] == s[i] && r[j] == s[j];
        }
      } else if i == at.value {
        assert r[j] == s[j];
      } else if j == at.value {
        assert r[i] == s[i];
      } else {
        assert r[i] == s[i] && r[j] == s[j];
      }
    }
  }

  /** Under a unique index, a key names one position. */
  lemma SameKeySamePlace<T, K>(s: seq<T>, key: T -> K, i: nat, j: nat)
    requires Unique(s, key) && i < |s| && j < |s| && key(s[i]) == key(s[j])
    ensures i == j
  {
  }

  /** Rewriting a document without changing its key keeps a unique index. */
  lemma RewriteKeepsUnique<T, K>(s: seq<T>, i: nat, x: T, key: T -> K)
    requires Unique(s, key) && i < |s| && key(x) == key(s[i])
    ensures Unique(s[i := x], key)
  {
    RewriteNoClash(s, i, x, key);
    PutKeepsUnique(s, Some(i), x, key);
  }

  /** Rewriting a document without changing its key never clashes under a
      unique index. */
  lemma RewriteNoClash<T, K>(s: seq<T>, i: nat, x: T, key: T -> K)
    requires Unique(s, key) && i < |s| && key(x) == key(s[i])
    ensures !Clashes(s, Some(i), x, key)
  {
  }

  /** Under a unique index, the first document with a key is the only one. */
  lemma FindUnique<T, K>(s: seq<T>, key: T -> K, k: K, i: nat)
    requires Unique(s, key)
    requires i < |s| && key(s[i]) == k
    ensures FindFirst(s, x => key(x) == k) == Some(i)
  {
    var r := FindFirst(s, x => key(x) == k);
    assert r.Some?;
  }

  /** The documents from `skip` on, at most `limit` of them: `.skip(skip)`
      then `.limit(limit)`. */
  function Window<T>(s: seq<T>, skip: nat, limit: nat): (r: seq<T>)
    ensures |r| <= limit
    ensures skip >= |s| ==> r == []
    ensures skip < |s| ==> r == s[skip..if skip + limit <= |s| then skip + limit else |s|]
    ensures |r| < limit ==> skip + |r| >= |s|
    ensures forall k :: 0 <= k < |r| ==> skip + k < |s| && r[k] == s[skip + k]
  {
    if skip >= |s| then []
    else if skip + limit <= |s| then s[skip..skip + limit]
    else s[skip..]
  }
}
