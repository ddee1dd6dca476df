/** Sequence operations the handlers lean on: JavaScript's Array.prototype.filter,
    the first-match lookup of a query (findOne) and skip/limit paging. */
module Seqs {
  import opened Wrappers

  /** The elements of s that satisfy keep, in their original order. */
  function Filter<T(!new)>(keep: T -> bool, s: seq<T>): (r: seq<T>)
    ensures |r| <= |s|
    ensures forall x :: multiset(r)[x] == if keep(x) then multiset(s)[x] else 0
    ensures forall x :: x in r <==> x in s && keep(x)
    decreases |s|
  {
    if s == [] then []
    else
      assert s == [s[0]] + s[1..];
      (if keep(s[0]) then [s[0]] else []) + Filter(keep, s[1..])
  }

  /** No two positions of s carry the same key. */
  ghost predicate DistinctKeys<T, K>(key: T -> K, s: seq<T>) {
    forall i, j :: 0 <= i < j < |s| ==> key(s[i]) != key(s[j])
  }

  /** The first element's key is held by nothing after it. */
  lemma HeadKeyUnique<T, K>(key: T -> K, s: seq<T>)
    requires s != [] && DistinctKeys(key, s)
    ensures DistinctKeys(key, s[1..])
    ensures forall y :: y in s[1..] ==> key(y) != key(s[0])
  {
    forall y | y in s[1..] ensures key(y) != key(s[0]) {
      var m :| 0 <= m < |s[1..]| && s[1..][m] == y;
      assert s[m + 1] == y;
    }
  }

  /** Prepending an element whose key is new keeps keys distinct. */
  lemma ConsDistinct<T, K>(key: T -> K, x: T, t: seq<T>)
    requires DistinctKeys(key, t) && forall y :: y in t ==> key(y) != key(x)
    ensures DistinctKeys(key, [x] + t)
  {
    var r := [x] + t;
    forall i, j | 0 <= i < j < |r| ensures key(r[i]) != key(r[j]) {
      assert r[j] == t[j - 1];
      if i == 0 {
        assert r[j] in t;
      } else {
        assert r[i] == t[i - 1];
      }
    }
  }

  /** Filtering keeps keys distinct: a sub-sequence of a sequence without repeated keys has none. */
  lemma {:induction false} FilterKeepsDistinct<T(!new), K>(keep: T -> bool, key: T -> K, s: seq<T>)
    requires DistinctKeys(key, s)
    ensures DistinctKeys(key, Filter(keep, s))
    decreases |s|
  {
    if s != [] {
      HeadKeyUnique(key, s);
      FilterKeepsDistinct(keep, key, s[1..]);
      if keep(s[0]) {
        ConsDistinct(key, s[0], Filter(keep, s[1..]));
      }
    }
  }

  /** Filtering distributes over concatenation: the kept elements keep their relative order. */
  lemma {:induction false} FilterAppend<T(!new)>(keep: T -> bool, a: seq<T>, b: seq<T>)
    ensures Filter(keep, a + b) == Filter(keep, a) + Filter(keep, b)
    decreases |a|
  {
    if a == [] {
      assert a + b == b;
    } else {
      var head := if keep(a[0]) then [a[0]] else [];
      assert (a + b)[0] == a[0] && (a + b)[1..] == a[1..] + b;
      calc {
        Filter(keep, a + b);
        head + Filter(keep, a[1..] + b);
        { FilterAppend(keep, a[1..], b); }
        head + (Filter(keep, a[1..]) + Filter(keep, b));
        (head + Filter(keep, a[1..])) + Filter(keep, b);
        Filter(keep, a) + Filter(keep, b);
      }
    }
  }

  /** The index of the first element satisfying p, as a query for one document returns it. */
  function FirstIndex<T>(s: seq<T>, p: T -> bool): (r: Option<nat>)
    ensures r.Some? ==> r.value < |s| && p(s[r.value]) && forall j :: 0 <= j < r.value ==> !p(s[j])
    ensures r.None? <==> forall j :: 0 <= j < |s| ==> !p(s[j])
    decreases |s|
  {
    if s == [] then None
    else if p(s[0]) then Some(0)
    else
      match FirstIndex(s[1..], p)
      case None => None
      case Some(k) => Some(k + 1)
  }

  /** s with its first skip elements dropped and then cut to at most limit elements;
      a limit of 0 means no limit, as in a database cursor. */
  function Page<T>(s: seq<T>, skip: nat, limit: nat): (r: seq<T>)
    ensures skip >= |s| ==> r == []
    ensures skip < |s| ==> |r| == if limit == 0 || |s| - skip <= limit then |s| - skip else limit
    ensures forall i :: 0 <= i < |r| ==> skip + i < |s| && r[i] == s[skip + i]
  {
    var rest := if skip >= |s| then [] else s[skip..];
    if limit == 0 || |rest| <= limit then rest else rest[..limit]
  }
}
