/**
 * The persisted todo document. The browser's localStorage entry, read and
 * re-serialised on every call, is modelled as one in-memory list field that
 * every operation reads and rewrites.
 */
module TodoStore {
  import opened Wrappers
  import opened Items

  /** `if (id)` on an optional numeric id: absent and `0` are falsy. */
  predicate Truthy(id: Option<int>) {
    id.Some? && id.value != 0
  }

  // ---------------------------------------------------------------------------
  // save with an id: merge into the first record carrying it
  // ---------------------------------------------------------------------------

  /** The list after merging `p` into the first record whose id is `id`; later duplicates are not visited. */
  function UpdateFirst(s: seq<Item>, id: int, p: Fields): (r: seq<Item>)
    ensures |r| == |s|
  {
    if s == [] then []
    else if s[0].id == id then [Merge(s[0], p)] + s[1..]
    else [s[0]] + UpdateFirst(s[1..], id, p)
  }

  /** When `i` is the first index carrying `id`, the update changes that record and nothing else. */
  lemma {:induction false} UpdateFirstAt(s: seq<Item>, i: nat, id: int, p: Fields)
    requires i < |s| && s[i].id == id
    requires forall j :: 0 <= j < i ==> s[j].id != id
    ensures UpdateFirst(s, id, p) == s[i := Merge(s[i], p)]
  {
    if i > 0 {
      UpdateFirstAt(s[1..], i - 1, id, p);
      assert s[i := Merge(s[i], p)] == [s[0]] + s[1..][i - 1 := Merge(s[i], p)];
    }
  }

  /** An id that no record carries leaves the list as it was. */
  lemma {:induction false} UpdateFirstAbsent(s: seq<Item>, id: int, p: Fields)
    requires forall j :: 0 <= j < |s| ==> s[j].id != id
    ensures UpdateFirst(s, id, p) == s
  {
    if s != [] {
      UpdateFirstAbsent(s[1..], id, p);
    }
  }

  /** With unique ids, updating the first record with `id` is updating every record with `id`. */
  lemma UpdateFirstUnique(s: seq<Item>, id: int, p: Fields)
    requires UniqueIds(s)
    ensures UpdateFirst(s, id, p) == MergeWhere(s, {id}, p)
  {
    if k :| 0 <= k < |s| && s[k].id == id {
      UpdateFirstAt(s, k, id, p);
    } else {
      UpdateFirstAbsent(s, id, p);
    }
  }

  // ---------------------------------------------------------------------------
  // remove: splice while iterating
  // ---------------------------------------------------------------------------

  /**
   * The list after the removal loop: each record with `id` is spliced out, and the
   * record that slides into its slot is passed over unexamined.
   */
  function SkipRemove(s: seq<Item>, id: int): seq<Item>
    decreases |s|
  {
    if s == [] then []
    else if s[0].id == id then (if |s| == 1 then [] else [s[1]] + SkipRemove(s[2..], id))
    else [s[0]] + SkipRemove(s[1..], id)
  }

  /** Removing an id that no record carries changes nothing. */
  lemma {:induction false} SkipRemoveAbsent(s: seq<Item>, id: int)
    requires id !in IdsOf(s)
    ensures SkipRemove(s, id) == s
  {
    if s != [] {
      assert s[0] in s;
      assert IdsOf(s[1..]) <= IdsOf(s) by {
        IdsOfConcat([s[0]], s[1..]);
        assert [s[0]] + s[1..] == s;
      }
      SkipRemoveAbsent(s[1..], id);
    }
  }

  /**
   * Whatever the ids, the removal loop only drops records: it keeps a sub-multiset of
   * the list and never drops a record without `id`.
   */
  lemma {:induction false} SkipRemoveKeepsOthers(s: seq<Item>, id: int)
    ensures multiset(SkipRemove(s, id)) <= multiset(s)
    ensures forall x :: x in s && x.id != id ==> x in SkipRemove(s, id)
  {
    if s != [] {
      assert s == [s[0]] + s[1..];
      if s[0].id == id {
        if |s| > 1 {
          assert s[1..] == [s[1]] + s[2..];
          SkipRemoveKeepsOthers(s[2..], id);
        }
      } else {
        SkipRemoveKeepsOthers(s[1..], id);
      }
    }
  }

  /** With unique ids, the removal loop removes exactly the record with `id` and keeps the order. */
  lemma {:induction false} SkipRemoveUnique(s: seq<Item>, id: int)
    requires UniqueIds(s)
    ensures SkipRemove(s, id) == Except(s, {id})
  {
    if s != [] {
      assert s == [s[0]] + s[1..];
      UniqueCons(s[0], s[1..]);
      if s[0].id == id {
        ExceptAbsent(s[1..], {id});
        if |s| > 1 {
          assert s[1..] == [s[1]] + s[2..];
          IdsOfConcat([s[1]], s[2..]);
          SkipRemoveAbsent(s[2..], id);
        }
      } else {
        SkipRemoveUnique(s[1..], id);
      }
    }
  }

  /** Two adjacent records sharing an id: the loop removes the first and passes over the second. */
  lemma SkipRemoveMissesAdjacentDuplicate()
    ensures var s := [Item(7, "a", false), Item(7, "b", false)];
      SkipRemove(s, 7) == [Item(7, "b", false)] && Except(s, {7}) == []
  {
    var s := [Item(7, "a", false), Item(7, "b", false)];
    assert s[2..] == [];
    assert s[1..] == [Item(7, "b", false)];
  }

  /** The list as the second removal loop leaves it after examining index `i` of the current list. */
  ghost function Swept(s: seq<Item>, i: nat, id: int): seq<Item> {
    if i <= |s| then s[..i] + SkipRemove(s[i..], id) else s
  }

  class Store {
    /** The localStorage key of the document. */
    const dbName: string
    /** The document's `todos` list. */
    var todos: seq<Item>

    /**
     * Opens the document `name`: a document already persisted under that name is
     * kept as it is; otherwise an empty list is created.
     */
    constructor(name: string, persisted: Option<seq<Item>>)
      ensures dbName == name
      ensures persisted.None? ==> todos == []
      ensures persisted.Some? ==> todos == persisted.value
    {
      dbName := name;
      todos := persisted.GetOr([]);
    }

    /** The records matching every key of the query, in stored order. */
    function Find(query: Fields): (r: seq<Item>)
      reads this
      ensures |r| <= |todos|
      ensures forall t :: t in r <==> t in todos && Matches(query, t)
      ensures forall k :: 0 <= k < |r| ==> Matches(query, r[k])
    {
      Filter(todos, query)
    }

    /** Every stored record in insertion order: the same as the empty query. */
    function FindAll(): (r: seq<Item>)
      reads this
      ensures r == Find(NoFields)
    {
      FilterKeepsAll(todos, NoFields);
      todos
    }

    /**
     * With a truthy id: merges `data` into the first record with that id (nothing
     * when there is none) and hands back the whole list. Otherwise: stores `data`
     * as a new record under the fresh id, appended last, and hands back that record.
     */
    method Save(data: Fields, id: Option<int>, freshId: int) returns (result: seq<Item>)
      requires !Truthy(id) ==> data.title.Some? && data.completed.Some? && freshId !in IdsOf(todos)
      modifies this
      ensures Truthy(id) ==> todos == UpdateFirst(old(todos), id.value, data) && result == todos
      ensures Truthy(id) && id.value !in IdsOf(old(todos)) ==> todos == old(todos)
      ensures !Truthy(id) ==>
        var item := Item(freshId, data.title.value, data.completed.value);
        todos == old(todos) + [item] && result == [item]
    {
      if Truthy(id) {
        ghost var found := false;
        var i := 0;
        while i < |todos|
          invariant 0 <= i <= |todos|
          invariant todos == old(todos)
          invariant forall j :: 0 <= j < i ==> todos[j].id != id.value
        {
          if todos[i].id == id.value {
            UpdateFirstAt(todos, i, id.value, data);
            todos := todos[i := Merge(todos[i], data)];
            found := true;
            break;
          }
          i := i + 1;
        }
        if !found {
          UpdateFirstAbsent(todos, id.value, data);
        }
        result := todos;
      } else {
        var item := Item(freshId, data.title.value, data.completed.value);
        todos := todos + [item];
        result := [item];
      }
    }

    /**
     * Looks the id up, then splices out every record carrying it while walking
     * the list; hands back the remaining list.
     */
    method Remove(id: int) returns (result: seq<Item>)
      modifies this
      ensures todos == SkipRemove(old(todos), id) && result == todos
      ensures id !in IdsOf(old(todos)) ==> todos == old(todos)
      ensures UniqueIds(old(todos)) ==> todos == Except(old(todos), {id})
    {
      var todoId: Option<int> := None;
      var i := 0;
      while i < |todos|
        invariant 0 <= i <= |todos|
        invariant todos == old(todos)
        invariant todoId.Some? ==> todoId.value == id
        invariant todoId.None? ==> forall j :: 0 <= j < i ==> todos[j].id != id
      {
        if todos[i].id == id {
          todoId := Some(todos[i].id);
        }
        i := i + 1;
      }
      if todoId.None? {
        SkipRemoveAbsentByIndex(todos, id);
      }
      ghost var orig := todos;
      i := 0;
      while i < |todos|
        invariant i <= |todos| + 1
        invariant Swept(todos, i, id) == SkipRemove(orig, id)
        invariant todoId.Some? ==> todoId.value == id
        invariant todoId.None? ==> forall j :: 0 <= j < |todos| ==> todos[j].id != id
      {
        if todoId == Some(todos[i].id) {
          SweptSplice(todos, i, id);
          todos := todos[..i] + todos[i + 1..];
        } else {
          SweptPass(todos, i, id);
        }
        i := i + 1;
      }
      assert Swept(todos, i, id) == todos by {
        if i == |todos| {
          assert todos[..i] == todos && todos[i..] == [];
        }
      }
      result := todos;
      if id !in IdsOf(orig) {
        SkipRemoveAbsent(orig, id);
      }
      if UniqueIds(orig) {
        SkipRemoveUnique(orig, id);
      }
    }

    /** Replaces the document with an empty list and hands back that empty list. */
    method Drop() returns (result: seq<Item>)
      modifies this
      ensures todos == [] && result == []
    {
      todos := [];
      result := todos;
    }
  }

  /** One step of the removal loop on a record with `id`: splice it out, then pass over its successor. */
  lemma SweptSplice(s: seq<Item>, i: nat, id: int)
    requires i < |s| && s[i].id == id
    ensures Swept(s[..i] + s[i + 1..], i + 1, id) == Swept(s, i, id)
  {
    assert s[i..] == [s[i]] + s[i + 1..];
    var t := s[..i] + s[i + 1..];
    if i + 1 < |s| {
      assert s[i + 1..] == [s[i + 1]] + s[i + 2..];
      assert t[..i + 1] == s[..i] + [s[i + 1]];
      assert t[i + 1..] == s[i + 2..];
    } else {
      assert t == s[..i];
    }
  }

  /** One step of the removal loop on a record without `id`: keep it. */
  lemma SweptPass(s: seq<Item>, i: nat, id: int)
    requires i < |s| && s[i].id != id
    ensures Swept(s, i + 1, id) == Swept(s, i, id)
  {
    assert s[i..] == [s[i]] + s[i + 1..];
    assert s[..i + 1] == s[..i] + [s[i]];
  }

  /** Index form of `SkipRemoveAbsent`. */
  lemma SkipRemoveAbsentByIndex(s: seq<Item>, id: int)
    requires forall j :: 0 <= j < |s| ==> s[j].id != id
    ensures SkipRemove(s, id) == s
  {
    SkipRemoveAbsent(s, id);
  }
}
