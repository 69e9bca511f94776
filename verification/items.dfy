/**
 * The todo record and the two ways the store's callers describe records:
 * a query object (every key it names must match) and an update object
 * (every key it names is overwritten).
 */
module Items {
  import opened Wrappers

  /** One stored todo, `{id, title, completed}`. */
  datatype Item = Item(id: int, title: string, completed: bool)

  /**
   * A plain object over the record's keys, used both as a query (`{completed: true}`)
   * and as an update (`{title: 'x'}`); a key that is absent is `None`.
   */
  datatype Fields = Fields(id: Option<int>, title: Option<string>, completed: Option<bool>)

  /** The empty object `{}`. */
  const NoFields: Fields := Fields(None, None, None)

  function IdIs(id: int): Fields {
    Fields(Some(id), None, None)
  }

  function TitleIs(title: string): Fields {
    Fields(None, Some(title), None)
  }

  function CompletedIs(completed: bool): Fields {
    Fields(None, None, Some(completed))
  }

  /** Every key present in the query strictly equals the record's value for that key. */
  predicate Matches(q: Fields, t: Item) {
    && (q.id.Some? ==> q.id.value == t.id)
    && (q.title.Some? ==> q.title.value == t.title)
    && (q.completed.Some? ==> q.completed.value == t.completed)
  }

  /** Taking one more element of a sequence appends that element. */
  lemma TakeOneMore<T>(s: seq<T>, i: nat)
    requires i < |s|
    ensures s[..i + 1] == s[..i] + [s[i]]
  {
  }

  /**
   * Copies every key of the update object onto the record: afterwards the record
   * matches the update, and every key the update does not name is unchanged.
   */
  function Merge(t: Item, p: Fields): (r: Item)
    ensures Matches(p, r)
    ensures p.id.None? ==> r.id == t.id
    ensures p.title.None? ==> r.title == t.title
    ensures p.completed.None? ==> r.completed == t.completed
  {
    Item(p.id.GetOr(t.id), p.title.GetOr(t.title), p.completed.GetOr(t.completed))
  }

  // ---------------------------------------------------------------------------
  // filtering by a query
  // ---------------------------------------------------------------------------

  /** `todos.filter(todo => every key q of query has query[q] === todo[q])`. */
  function Filter(s: seq<Item>, q: Fields): (r: seq<Item>)
    ensures |r| <= |s|
    ensures forall t :: t in r <==> t in s && Matches(q, t)
  {
    if s == [] then []
    else
      assert s == [s[0]] + s[1..];
      (if Matches(q, s[0]) then [s[0]] else []) + Filter(s[1..], q)
  }

  /** Filtering keeps the stored order: it distributes over concatenation. */
  lemma {:induction false} FilterConcat(a: seq<Item>, b: seq<Item>, q: Fields)
    ensures Filter(a + b, q) == Filter(a, q) + Filter(b, q)
  {
    if a == [] {
      assert a + b == b;
    } else {
      assert (a + b)[0] == a[0];
      assert (a + b)[1..] == a[1..] + b;
      FilterConcat(a[1..], b, q);
    }
  }

  /** A query that every record matches (the empty query `{}` among them) returns the whole list. */
  lemma {:induction false} FilterKeepsAll(s: seq<Item>, q: Fields)
    requires forall t :: t in s ==> Matches(q, t)
    ensures Filter(s, q) == s
  {
    if s != [] {
      FilterKeepsAll(s[1..], q);
    }
  }

  /** A filter returns as many records as it is given exactly when all of them match. */
  lemma {:induction false} FilterLengthFull(s: seq<Item>, q: Fields)
    ensures |Filter(s, q)| == |s| <==> forall t :: t in s ==> Matches(q, t)
  {
    if s != [] {
      FilterLengthFull(s[1..], q);
      assert s == [s[0]] + s[1..];
    }
  }

  /** Filtering a list with a head: the head when it matches, then the filtered tail. */
  lemma FilterCons(x: Item, rest: seq<Item>, q: Fields)
    ensures Filter([x] + rest, q) == (if Matches(q, x) then [x] else []) + Filter(rest, q)
  {
    assert ([x] + rest)[1..] == rest;
  }

  /** The completed records and the open records together are the list's records. */
  lemma {:induction false} CompletedSplit(s: seq<Item>)
    ensures multiset(Filter(s, CompletedIs(true))) + multiset(Filter(s, CompletedIs(false))) == multiset(s)
  {
    if s != [] {
      var x, rest := s[0], s[1..];
      assert s == [x] + rest;
      CompletedSplit(rest);
      FilterCons(x, rest, CompletedIs(true));
      FilterCons(x, rest, CompletedIs(false));
    }
  }

  /**
   * `{completed: true}` and `{completed: false}` split the list: no record is in
   * both, and together they hold every record exactly once.
   */
  lemma CompletedPartition(s: seq<Item>)
    ensures multiset(Filter(s, CompletedIs(true))) + multiset(Filter(s, CompletedIs(false))) == multiset(s)
    ensures |Filter(s, CompletedIs(true))| + |Filter(s, CompletedIs(false))| == |s|
    ensures forall t :: t in Filter(s, CompletedIs(true)) ==> t !in Filter(s, CompletedIs(false))
  {
    CompletedSplit(s);
    assert |multiset(s)| == |s|;
  }

  // ---------------------------------------------------------------------------
  // ids
  // ---------------------------------------------------------------------------

  /** The ids present in a list. */
  function IdsOf(s: seq<Item>): set<int> {
    set t | t in s :: t.id
  }

  /** No two records share an id. */
  predicate UniqueIds(s: seq<Item>) {
    forall i, j :: 0 <= i < j < |s| ==> s[i].id != s[j].id
  }

  lemma IdsOfConcat(a: seq<Item>, b: seq<Item>)
    ensures IdsOf(a + b) == IdsOf(a) + IdsOf(b)
  {
    forall id | id in IdsOf(a + b) ensures id in IdsOf(a) + IdsOf(b) {
      var t :| t in a + b && t.id == id;
    }
  }

  /** A list with a head is id-unique exactly when its tail is and the head's id is not in the tail. */
  lemma UniqueCons(x: Item, r: seq<Item>)
    ensures UniqueIds([x] + r) <==> x.id !in IdsOf(r) && UniqueIds(r)
  {
    var s := [x] + r;
    if UniqueIds(s) {
      forall t | t in r ensures t.id != x.id {
        var k :| 0 <= k < |r| && r[k] == t;
        assert s[0] == x && s[k + 1] == t;
      }
      forall i, j | 0 <= i < j < |r| ensures r[i].id != r[j].id {
        assert s[i + 1] == r[i] && s[j + 1] == r[j];
      }
    }
    if x.id !in IdsOf(r) && UniqueIds(r) {
      forall i, j | 0 <= i < j < |s| ensures s[i].id != s[j].id {
        if i == 0 {
          assert s[j] in r;
        } else {
          assert s[i] == r[i - 1] && s[j] == r[j - 1];
        }
      }
    }
  }

  /** Appending a record whose id is new keeps the ids unique. */
  lemma UniqueAppend(s: seq<Item>, x: Item)
    requires UniqueIds(s) && x.id !in IdsOf(s)
    ensures UniqueIds(s + [x])
  {
    var u := s + [x];
    forall i, j | 0 <= i < j < |u| ensures u[i].id != u[j].id {
      if j == |s| {
        assert u[i] in s;
      }
    }
  }

  /** In an id-unique list, the query `{id: id}` finds one record when the id is present, none otherwise. */
  lemma {:induction false} FilterByUniqueId(s: seq<Item>, id: int)
    requires UniqueIds(s)
    ensures |Filter(s, IdIs(id))| == if id in IdsOf(s) then 1 else 0
  {
    if s != [] {
      assert s == [s[0]] + s[1..];
      UniqueCons(s[0], s[1..]);
      FilterByUniqueId(s[1..], id);
      assert IdsOf(s) == {s[0].id} + IdsOf(s[1..]) by {
        IdsOfConcat([s[0]], s[1..]);
      }
    }
  }

  // ---------------------------------------------------------------------------
  // removing by id, updating by id
  // ---------------------------------------------------------------------------

  /** The list without the records whose id is in `ids`, in the same order. */
  function Except(s: seq<Item>, ids: set<int>): (r: seq<Item>)
    ensures |r| <= |s|
    ensures forall t :: t in r <==> t in s && t.id !in ids
  {
    if s == [] then []
    else
      assert s == [s[0]] + s[1..];
      (if s[0].id in ids then [] else [s[0]]) + Except(s[1..], ids)
  }

  /** Removing records keeps the remaining ids unique and removes exactly the given ids. */
  lemma {:induction false} ExceptUnique(s: seq<Item>, ids: set<int>)
    requires UniqueIds(s)
    ensures UniqueIds(Except(s, ids))
    ensures IdsOf(Except(s, ids)) == IdsOf(s) - ids
  {
    if s != [] {
      assert s == [s[0]] + s[1..];
      UniqueCons(s[0], s[1..]);
      ExceptUnique(s[1..], ids);
      if s[0].id !in ids {
        UniqueCons(s[0], Except(s[1..], ids));
      }
    }
  }

  /** Removing `a` and then `b` is removing `a + b`. */
  lemma {:induction false} ExceptExcept(s: seq<Item>, a: set<int>, b: set<int>)
    ensures Except(Except(s, a), b) == Except(s, a + b)
  {
    if s != [] {
      ExceptExcept(s[1..], a, b);
      var rest := Except(s[1..], a);
      if s[0].id in a {
        assert Except(s, a) == rest;
      } else {
        assert Except(s, a) == [s[0]] + rest;
        assert ([s[0]] + rest)[0] == s[0];
        assert ([s[0]] + rest)[1..] == rest;
      }
    }
  }

  /** Removing ids that are not present changes nothing. */
  lemma {:induction false} ExceptAbsent(s: seq<Item>, ids: set<int>)
    requires IdsOf(s) !! ids
    ensures Except(s, ids) == s
  {
    if s != [] {
      assert s[0] in s;
      assert IdsOf(s[1..]) <= IdsOf(s) by {
        forall id | id in IdsOf(s[1..]) ensures id in IdsOf(s) {
          var t :| t in s[1..] && t.id == id;
        }
      }
      ExceptAbsent(s[1..], ids);
    }
  }

  /** In an id-unique list, removing the ids of the completed records leaves exactly the active ones. */
  lemma {:induction false} ExceptCompleted(s: seq<Item>)
    requires UniqueIds(s)
    ensures Except(s, IdsOf(Filter(s, CompletedIs(true)))) == Filter(s, CompletedIs(false))
  {
    var ids := IdsOf(Filter(s, CompletedIs(true)));
    forall t | t in s ensures (t.id in ids) == t.completed {
      if t.id in ids {
        var u :| u in Filter(s, CompletedIs(true)) && u.id == t.id;
        var i :| 0 <= i < |s| && s[i] == t;
        var j :| 0 <= j < |s| && s[j] == u;
        assert i == j;
      }
    }
    ExceptIsFilter(s, ids);
  }

  /** Where membership in `ids` coincides with being completed, removing `ids` is keeping the active records. */
  lemma {:induction false} ExceptIsFilter(s: seq<Item>, ids: set<int>)
    requires forall t :: t in s ==> (t.id in ids) == t.completed
    ensures Except(s, ids) == Filter(s, CompletedIs(false))
  {
    if s != [] {
      assert s[0] in s;
      ExceptIsFilter(s[1..], ids);
    }
  }

  /** The list with every record whose id is in `ids` merged with the update `p`. */
  function MergeWhere(s: seq<Item>, ids: set<int>, p: Fields): (r: seq<Item>)
    ensures |r| == |s|
  {
    seq(|s|, k requires 0 <= k < |s| => if s[k].id in ids then Merge(s[k], p) else s[k])
  }

  /** An update that leaves ids alone keeps the list's ids, and their uniqueness. */
  lemma MergeWhereIds(s: seq<Item>, ids: set<int>, p: Fields)
    requires p.id.None?
    ensures IdsOf(MergeWhere(s, ids, p)) == IdsOf(s)
    ensures UniqueIds(s) ==> UniqueIds(MergeWhere(s, ids, p))
  {
    var r := MergeWhere(s, ids, p);
    forall id | id in IdsOf(r) ensures id in IdsOf(s) {
      var t :| t in r && t.id == id;
      var k :| 0 <= k < |r| && r[k] == t;
      assert s[k].id == id;
    }
    forall id | id in IdsOf(s) ensures id in IdsOf(r) {
      var t :| t in s && t.id == id;
      var k :| 0 <= k < |s| && s[k] == t;
      assert r[k].id == id;
    }
  }

  /** Applying the same update to `a` and then to `b` is applying it to `a + b`. */
  lemma MergeWhereTwice(s: seq<Item>, a: set<int>, b: set<int>, p: Fields)
    requires p.id.None?
    ensures MergeWhere(MergeWhere(s, a, p), b, p) == MergeWhere(s, a + b, p)
  {
  }
}
