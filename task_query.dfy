/** GET /tasks: the `completed` filter, the `sortBy` field and direction, and skip/limit
    paging over the caller's tasks. */
module TaskQuery {
  import opened Wrappers
  import opened Text
  import opened Seqs
  import opened Json
  import opened TaskModel

  /** The query string; limit and skip already parsed as numbers. */
  datatype Query = Query(completed: Option<string>, sortBy: Option<string>, limit: Option<nat>, skip: Option<nat>)

  /** A sort direction: 1 ascending, -1 descending. */
  datatype Direction = Ascending | Descending {
    function Sign(): int {
      if Ascending? then 1 else -1
    }
  }

  datatype SortSpec = SortSpec(field: string, dir: Direction)

  /** Whether a query parameter is present and not empty (a truthy string). */
  predicate Given(p: Option<string>) {
    p.Some? && p.value != ""
  }

  /** The `match` object: a required value of completed, or None for no filter. */
  function CompletedFilter(q: Query): (r: Option<bool>)
    ensures r.Some? <==> q.completed.Some? && q.completed.value != ""
    ensures r.Some? ==> (r.value <==> q.completed.value == "true")
  {
    if Given(q.completed) then Some(q.completed.value == "true") else None
  }

  /** `sort[parts[0]] = parts[1] === 'desc' ? -1 : 1` for `parts = sortBy.split(':')`. */
  function ParseSortBy(s: string): (r: SortSpec)
    ensures ':' !in r.field && |r.field| <= |s| && r.field == s[..|r.field|]
    ensures |r.field| < |s| ==> s[|r.field|] == ':'
    ensures r.dir == Descending <==> SecondPart(s, ':') == Some("desc")
  {
    SortSpec(Before(s, ':'), if SecondPart(s, ':') == Some("desc") then Descending else Ascending)
  }

  /** "f:d" sorts on field f, descending exactly when d is "desc". */
  lemma {:induction false} SortByFieldAndDirection(f: string, d: string)
    requires ':' !in f && ':' !in d
    ensures ParseSortBy(f + ":" + d).field == f
    ensures ParseSortBy(f + ":" + d).dir.Sign() == if d == "desc" then -1 else 1
  {
    assert f + ":" + d == f + [':'] + d;
    SplitJoin(f, ':', d);
    BeforeWithoutSep(d, ':');
  }

  /** A value without ':' names the field and sorts ascending. */
  lemma {:induction false} SortByFieldOnly(f: string)
    requires ':' !in f
    ensures ParseSortBy(f) == SortSpec(f, Ascending)
  {
    BeforeWithoutSep(f, ':');
  }

  /** A task's value for a sort field. Ids are handed out in creation order, so createdAt sorts
      as the id does; updatedAt and fields a task does not have are missing. */
  datatype Key = Missing | KStr(s: string) | KId(id: Id) | KBool(b: bool)

  function KeyOf(t: Task, field: string): Key {
    if field == "description" then KStr(t.description)
    else if field == "completed" then KBool(t.completed)
    else if field == "_id" || field == "createdAt" then KId(t.id)
    else if field == "userId" then KId(t.userId)
    else Missing
  }

  /** Code-point lexicographic order, which is byte order on the UTF-8 encoding. */
  predicate StrLe(a: string, b: string)
    decreases |a|
  {
    a == [] || (b != [] && (a[0] < b[0] || (a[0] == b[0] && StrLe(a[1..], b[1..]))))
  }

  lemma {:induction false} StrLeTotal(a: string, b: string)
    ensures StrLe(a, b) || StrLe(b, a)
    decreases |a|
  {
    if a != [] && b != [] && a[0] == b[0] {
      StrLeTotal(a[1..], b[1..]);
    }
  }

  lemma {:induction false} StrLeTransitive(a: string, b: string, c: string)
    requires StrLe(a, b) && StrLe(b, c)
    ensures StrLe(a, c)
    decreases |a|
  {
    if a != [] && b != [] && c != [] && a[0] == b[0] == c[0] {
      StrLeTransitive(a[1..], b[1..], c[1..]);
    }
  }

  /** The rank of a key's type in the database's comparison order. */
  function Rank(k: Key): nat {
    match k
    case Missing => 0
    case KStr(_) => 1
    case KId(_) => 2
    case KBool(_) => 3
  }

  predicate KeyLe(a: Key, b: Key) {
    if Rank(a) != Rank(b) then Rank(a) < Rank(b)
    else match (a, b)
      case (KStr(x), KStr(y)) => StrLe(x, y)
      case (KId(x), KId(y)) => x <= y
      case (KBool(x), KBool(y)) => !x || y
      case _ => true
  }

  lemma KeyLeTotal(a: Key, b: Key)
    ensures KeyLe(a, b) || KeyLe(b, a)
  {
    if a.KStr? && b.KStr? {
      StrLeTotal(a.s, b.s);
    }
  }

  lemma KeyLeTransitive(a: Key, b: Key, c: Key)
    requires KeyLe(a, b) && KeyLe(b, c)
    ensures KeyLe(a, c)
  {
    if a.KStr? && b.KStr? && c.KStr? {
      StrLeTransitive(a.s, b.s, c.s);
    }
  }

  /** x may come before y under the sort. */
  predicate InOrder(spec: SortSpec, x: Task, y: Task) {
    if spec.dir == Ascending then KeyLe(KeyOf(x, spec.field), KeyOf(y, spec.field))
    else KeyLe(KeyOf(y, spec.field), KeyOf(x, spec.field))
  }

  lemma InOrderTotal(spec: SortSpec, x: Task, y: Task)
    ensures InOrder(spec, x, y) || InOrder(spec, y, x)
  {
    KeyLeTotal(KeyOf(x, spec.field), KeyOf(y, spec.field));
  }

  lemma InOrderTransitive(spec: SortSpec, x: Task, y: Task, z: Task)
    requires InOrder(spec, x, y) && InOrder(spec, y, z)
    ensures InOrder(spec, x, z)
  {
    if spec.dir == Ascending {
      KeyLeTransitive(KeyOf(x, spec.field), KeyOf(y, spec.field), KeyOf(z, spec.field));
    } else {
      KeyLeTransitive(KeyOf(z, spec.field), KeyOf(y, spec.field), KeyOf(x, spec.field));
    }
  }

  predicate Sorted(spec: SortSpec, s: seq<Task>) {
    forall i, j :: 0 <= i < j < |s| ==> InOrder(spec, s[i], s[j])
  }

  /** y may come before every element of s. */
  predicate Precedes(spec: SortSpec, y: Task, s: seq<Task>) {
    forall j :: 0 <= j < |s| ==> InOrder(spec, y, s[j])
  }

  /** x placed before the first element it may precede, so equal keys keep their order. */
  function Insert(spec: SortSpec, x: Task, s: seq<Task>): (r: seq<Task>)
    ensures multiset(r) == multiset(s) + multiset{x}
    decreases |s|
  {
    if s == [] then [x]
    else if InOrder(spec, x, s[0]) then [x] + s
    else
      assert s == [s[0]] + s[1..];
      [s[0]] + Insert(spec, x, s[1..])
  }

  /** Inserting into a sorted list keeps it sorted, and whatever preceded the list and the new
      element precedes the result. */
  lemma {:induction false} InsertSorted(spec: SortSpec, x: Task, s: seq<Task>)
    requires Sorted(spec, s)
    ensures Sorted(spec, Insert(spec, x, s))
    ensures forall y :: InOrder(spec, y, x) && Precedes(spec, y, s) ==> Precedes(spec, y, Insert(spec, x, s))
    decreases |s|
  {
    if s == [] {
    } else if InOrder(spec, x, s[0]) {
      assert Precedes(spec, x, s) by {
        forall j | 0 < j < |s| ensures InOrder(spec, x, s[j]) {
          InOrderTransitive(spec, x, s[0], s[j]);
        }
      }
      assert Sorted(spec, [x] + s);
    } else {
      InOrderTotal(spec, x, s[0]);
      var rest := Insert(spec, x, s[1..]);
      InsertSorted(spec, x, s[1..]);
      assert Precedes(spec, s[0], s[1..]);
      assert Sorted(spec, [s[0]] + rest);
      forall y | InOrder(spec, y, x) && Precedes(spec, y, s)
        ensures Precedes(spec, y, [s[0]] + rest)
      {
        assert Precedes(spec, y, s[1..]);
      }
    }
  }

  /** A stable insertion sort on the chosen field and direction. */
  function Sort(spec: SortSpec, s: seq<Task>): (r: seq<Task>)
    ensures multiset(r) == multiset(s)
    ensures Sorted(spec, r)
    decreases |s|
  {
    if s == [] then []
    else
      assert s == [s[0]] + s[1..];
      var rest := Sort(spec, s[1..]);
      InsertSorted(spec, s[0], rest);
      Insert(spec, s[0], rest)
  }

  /** The caller's tasks that pass the completed filter, in stored order. */
  function Matching(tasks: seq<Task>, owner: Id, q: Query): (r: seq<Task>)
    ensures forall t :: t in r <==> t in tasks && Passes(t, owner, q)
  {
    var filter := CompletedFilter(q);
    Filter((t: Task) => t.userId == owner && (filter.None? || t.completed == filter.value), tasks)
  }

  /** The populated task list: matching tasks, sorted when sortBy is given, then paged. */
  function ListTasks(tasks: seq<Task>, owner: Id, q: Query): (r: seq<Task>)
    ensures |r| <= |Matching(tasks, owner, q)|
  {
    var mine := Matching(tasks, owner, q);
    var ordered := if Given(q.sortBy) then Sort(ParseSortBy(q.sortBy.value), mine) else mine;
    Page(ordered, q.skip.GetOr(0), q.limit.GetOr(0))
  }

  /** The matching tasks are the caller's tasks that pass the filter, each as often as stored. */
  lemma MatchingSpec(tasks: seq<Task>, owner: Id, q: Query)
    ensures forall t :: multiset(Matching(tasks, owner, q))[t]
                        == if Passes(t, owner, q) then multiset(tasks)[t] else 0
  {
  }

  /** t is the caller's and passes the completed filter. */
  predicate Passes(t: Task, owner: Id, q: Query) {
    t.userId == owner && (Given(q.completed) ==> t.completed == (q.completed.value == "true"))
  }

  /** A window of a sorted list is sorted. */
  lemma PageSorted(spec: SortSpec, s: seq<Task>, skip: nat, limit: nat)
    requires Sorted(spec, s)
    ensures Sorted(spec, Page(s, skip, limit))
  {
    var r := Page(s, skip, limit);
    forall i, j | 0 <= i < j < |r| ensures InOrder(spec, r[i], r[j]) {
      assert r[i] == s[skip + i] && r[j] == s[skip + j];
    }
  }

  /** Sorting on createdAt, descending (what `sortBy=createdAt:desc` parses to, by
      SortByFieldAndDirection), lists the newest tasks first: ids, handed out in creation
      order, descend along the list. */
  lemma NewestFirst(spec: SortSpec, s: seq<Task>)
    requires spec == SortSpec("createdAt", Descending) && Sorted(spec, s)
    ensures forall i, j :: 0 <= i < j < |s| ==> s[i].id >= s[j].id
  {
    forall i, j | 0 <= i < j < |s| ensures s[i].id >= s[j].id {
      assert InOrder(spec, s[i], s[j]);
    }
  }

  /** Every listed task is a stored task of the caller that passes the filter; with sortBy the
      list is in order; a positive limit bounds its length; without skip and limit it holds
      every such task exactly as often as the store does. */
  lemma {:induction false} ListTasksSpec(tasks: seq<Task>, owner: Id, q: Query)
    ensures forall t :: t in ListTasks(tasks, owner, q) ==> t in tasks && Passes(t, owner, q)
    ensures Given(q.sortBy) ==> Sorted(ParseSortBy(q.sortBy.value), ListTasks(tasks, owner, q))
    ensures q.limit.Some? && q.limit.value > 0 ==> |ListTasks(tasks, owner, q)| <= q.limit.value
    ensures q.skip.GetOr(0) == 0 && q.limit.GetOr(0) == 0 ==>
              forall t :: multiset(ListTasks(tasks, owner, q))[t]
                          == if Passes(t, owner, q) then multiset(tasks)[t] else 0
  {
    var mine := Matching(tasks, owner, q);
    var ordered := if Given(q.sortBy) then Sort(ParseSortBy(q.sortBy.value), mine) else mine;
    var skip, limit := q.skip.GetOr(0), q.limit.GetOr(0);
    var r := Page(ordered, skip, limit);
    assert r == ListTasks(tasks, owner, q);
    MatchingSpec(tasks, owner, q);
    assert multiset(ordered) == multiset(mine);
    forall t | t in r
      ensures t in tasks && Passes(t, owner, q)
    {
      var i :| 0 <= i < |r| && r[i] == t;
      assert ordered[skip + i] == t;
      assert t in multiset(ordered);
    }
    if Given(q.sortBy) {
      PageSorted(ParseSortBy(q.sortBy.value), ordered, skip, limit);
    }
    if skip == 0 && limit == 0 {
      assert r == ordered;
    }
  }
}
