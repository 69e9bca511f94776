/**
 * The domain layer over the store: creating a todo from a raw title, the
 * three ways of reading, update/remove/remove-all by delegation, and the
 * active/completed/total counter.
 */
module TodoModel {
  import opened Wrappers
  import opened Items
  import opened JsStrings
  import opened TodoStore

  /**
   * What `read` is given: nothing but a callback (every record), a string or
   * number (an id), or an object to compare against.
   */
  datatype Query = All | ById(id: int) | ByFields(fields: Fields)

  /** Whether a record belongs in the answer to a query, stated without the store. */
  predicate Admits(q: Query, t: Item) {
    match q
    case All => true
    case ById(id) => t.id == id
    case ByFields(f) => Matches(f, t)
  }

  /** The three counters `getCount` hands to its callback. */
  datatype Count = Count(active: nat, completed: nat, total: nat)

  /** The counters of a list: open records, completed records, all records. */
  function CountOf(s: seq<Item>): Count {
    Count(|Filter(s, CompletedIs(false))|, |Filter(s, CompletedIs(true))|, |s|)
  }

  /** Every record is either open or completed, so the two counters add up to the total. */
  lemma CountAddsUp(s: seq<Item>)
    ensures CountOf(s).active + CountOf(s).completed == CountOf(s).total
  {
    CompletedPartition(s);
  }

  class Model {
    const storage: Store

    constructor(storage: Store)
      ensures this.storage == storage
    {
      this.storage := storage;
    }

    /**
     * Stores a new open record under the fresh id; its title is the given title
     * (the empty string when absent) with surrounding whitespace trimmed. An empty
     * title is not rejected here.
     */
    method Create(title: Option<string>, freshId: int) returns (created: seq<Item>)
      requires freshId !in IdsOf(storage.todos)
      modifies storage
      ensures var item := Item(freshId, Trim(title.GetOr("")), false);
        storage.todos == old(storage.todos) + [item] && created == [item]
    {
      var raw := title.GetOr("");
      created := storage.Save(Fields(None, Some(Trim(raw)), Some(false)), None, freshId);
    }

    /**
     * The stored records the query admits, in stored order: all of them, those
     * with the id, or those matching every key of the object.
     */
    function Read(q: Query): (r: seq<Item>)
      reads storage
      ensures |r| <= |storage.todos|
      ensures forall t :: t in r <==> t in storage.todos && Admits(q, t)
      ensures q.All? ==> r == storage.todos
    {
      match q
      case All => storage.FindAll()
      case ById(id) => storage.Find(IdIs(id))
      case ByFields(f) => storage.Find(f)
    }

    /** Merges `data` into the first record with `id`; an id no record carries changes nothing. */
    method Update(id: int, data: Fields) returns (result: seq<Item>)
      requires id != 0
      modifies storage
      ensures storage.todos == UpdateFirst(old(storage.todos), id, data) && result == storage.todos
      ensures id !in IdsOf(old(storage.todos)) ==> storage.todos == old(storage.todos)
      ensures UniqueIds(old(storage.todos)) ==> storage.todos == MergeWhere(old(storage.todos), {id}, data)
    {
      result := storage.Save(data, Some(id), 0);
      if UniqueIds(old(storage.todos)) {
        UpdateFirstUnique(old(storage.todos), id, data);
      }
    }

    /** Removes the records with `id` as the store's removal loop does. */
    method Remove(id: int) returns (result: seq<Item>)
      modifies storage
      ensures storage.todos == SkipRemove(old(storage.todos), id) && result == storage.todos
      ensures id !in IdsOf(old(storage.todos)) ==> storage.todos == old(storage.todos)
      ensures UniqueIds(old(storage.todos)) ==> storage.todos == Except(old(storage.todos), {id})
    {
      result := storage.Remove(id);
    }

    /** Empties the store. */
    method RemoveAll() returns (result: seq<Item>)
      modifies storage
      ensures storage.todos == [] && result == []
    {
      result := storage.Drop();
    }

    /**
     * Walks every record once, counting the completed ones, the open ones and
     * all of them.
     */
    method GetCount() returns (c: Count)
      ensures c.total == |storage.todos|
      ensures c.completed == |Filter(storage.todos, CompletedIs(true))|
      ensures c.active == |Filter(storage.todos, CompletedIs(false))|
      ensures c.active + c.completed == c.total
    {
      var data := storage.FindAll();
      var active, completed, total := 0, 0, 0;
      var i := 0;
      while i < |data|
        invariant i <= |data|
        invariant total == i
        invariant completed == |Filter(data[..i], CompletedIs(true))|
        invariant active == |Filter(data[..i], CompletedIs(false))|
      {
        TakeOneMore(data, i);
        CountStep(data[..i], data[i]);
        if data[i].completed {
          completed := completed + 1;
        } else {
          active := active + 1;
        }
        total := total + 1;
        i := i + 1;
      }
      assert data[..i] == data;
      c := Count(active, completed, total);
      CountAddsUp(data);
    }
  }

  /** One more record adds one to exactly the count its completion selects. */
  lemma CountStep(pre: seq<Item>, x: Item)
    ensures |Filter(pre + [x], CompletedIs(true))| == |Filter(pre, CompletedIs(true))| + (if x.completed then 1 else 0)
    ensures |Filter(pre + [x], CompletedIs(false))| == |Filter(pre, CompletedIs(false))| + (if x.completed then 0 else 1)
  {
    FilterConcat(pre, [x], CompletedIs(true));
    FilterConcat(pre, [x], CompletedIs(false));
  }

  /** Reading by id from an id-unique store finds one record when the id is present and none otherwise. */
  lemma ReadById(m: Model, id: int)
    requires UniqueIds(m.storage.todos)
    ensures |m.Read(ById(id))| == if id in IdsOf(m.storage.todos) then 1 else 0
  {
    FilterByUniqueId(m.storage.todos, id);
  }

  /**
   * Reading `{completed: true}` and `{completed: false}` splits the store: no
   * record is in both answers, and together they hold every record exactly once.
   */
  lemma ReadCompletedPartition(m: Model)
    ensures forall t :: t in m.Read(ByFields(CompletedIs(true))) ==> t !in m.Read(ByFields(CompletedIs(false)))
    ensures multiset(m.Read(ByFields(CompletedIs(true)))) + multiset(m.Read(ByFields(CompletedIs(false))))
      == multiset(m.Read(All))
  {
    CompletedPartition(m.storage.todos);
  }
}
