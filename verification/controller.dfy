/**
 * The controller: it keeps the active route and the route last shown, turns
 * user actions into store changes through the model, and tells the view what
 * to redraw. The view is an append-only log of the render commands it is sent.
 */
module TodoController {
  import opened Wrappers
  import opened Items
  import opened JsStrings
  import opened TodoStore
  import M = TodoModel

  // ---------------------------------------------------------------------------
  // the view, as the commands it receives
  // ---------------------------------------------------------------------------

  /** One `view.render(name, parameter)` call. */
  datatype Command =
    | ShowEntries(items: seq<Item>)
    | RemoveItem(id: int)
    | UpdateElementCount(activeCount: nat)
    | ClearCompletedButton(completedCount: nat, visible: bool)
    | ToggleAll(checked: bool)
    | ContentBlockVisibility(visible: bool)
    | SetFilter(page: string)
    | ClearNewTodo
    | ElementComplete(id: int, completed: bool)
    | EditItem(id: int, title: string)
    | EditItemDone(id: int, title: string)

  /** The view, reduced to the commands rendered so far, oldest first. */
  class View {
    var log: seq<Command>

    constructor()
      ensures log == []
    {
      log := [];
    }

    method Render(c: Command)
      modifies this
      ensures log == old(log) + [c]
    {
      log := log + [c];
    }
  }

  // ---------------------------------------------------------------------------
  // routes
  // ---------------------------------------------------------------------------

  /** The three list views there is a `show` method for. */
  datatype Route = All | Active | Completed

  function RouteName(r: Route): string {
    match r
    case All => "All"
    case Active => "Active"
    case Completed => "Completed"
  }

  /** The view `'show' + name` selects; none for a name without a `show` method. */
  function RouteOf(name: string): (r: Option<Route>)
    ensures r.Some? <==> name == "All" || name == "Active" || name == "Completed"
    ensures r.Some? ==> RouteName(r.value) == name
  {
    if name == "All" then Some(All)
    else if name == "Active" then Some(Active)
    else if name == "Completed" then Some(Completed)
    else None
  }

  /** The page a location hash names: its second `/`-separated segment, or the empty string. */
  function PageOf(locationHash: string): (page: string)
    ensures '/' !in page
  {
    var parts := Split(locationHash, '/');
    if |parts| >= 2 then parts[1] else ""
  }

  /** A hash `q/p...`, with no slash in `q`, names the part of `p` before its next slash. */
  lemma PageOfSlash(q: string, p: string)
    requires '/' !in q
    ensures PageOf(q + ['/'] + p) == Split(p, '/')[0]
  {
    SplitAfterFirst(q, p, '/');
  }

  /** `#/active` names `active`; a hash without a slash, the empty one included, names the empty page. */
  lemma PageOfExamples(hash: string)
    ensures PageOf("#/active") == "active" && PageOf("#/") == ""
    ensures '/' !in hash ==> PageOf(hash) == ""
  {
    PageOfSlash("#", "active");
    SplitWithout("active", '/');
    PageOfSlash("#", "");
    SplitWithout("", '/');
    assert "#/active" == "#" + ['/'] + "active";
    assert "#/" == "#" + ['/'] + "";
    if '/' !in hash {
      SplitWithout(hash, '/');
    }
  }

  /** The route `_updateFilterState` stores for a page: the empty page is `All`. */
  function StoredRoute(page: string): (route: string)
    ensures route != ""
    ensures page != "" ==> route == page
  {
    if page == "" then "All" else page
  }

  /** The empty page and the two lower-case page names select the three views. */
  lemma KnownPages()
    ensures RouteOf(UpperFirst(StoredRoute(""))) == Some(All)
    ensures RouteOf(UpperFirst(StoredRoute("active"))) == Some(Active)
    ensures RouteOf(UpperFirst(StoredRoute("completed"))) == Some(Completed)
  {
    assert UpperFirst("All") == "All";
    assert UpperFirst("active") == "Active";
    assert UpperFirst("completed") == "Completed";
  }

  // ---------------------------------------------------------------------------
  // what the render commands carry
  // ---------------------------------------------------------------------------

  /** The records a view lists: all of them, the open ones, or the completed ones. */
  function Entries(s: seq<Item>, route: Route): seq<Item> {
    match route
    case All => s
    case Active => Filter(s, CompletedIs(false))
    case Completed => Filter(s, CompletedIs(true))
  }

  /** The four commands `_updateCount` renders from the counters, in order. */
  function CountLog(c: M.Count): (log: seq<Command>)
    ensures |log| == 4
  {
    [ UpdateElementCount(c.active), ClearCompletedButton(c.completed, c.completed > 0)
    , ToggleAll(c.completed == c.total), ContentBlockVisibility(c.total > 0) ]
  }

  /**
   * What the footer commands say about the list: the counter is the number of open
   * records, the clear button shows exactly when some record is completed, the
   * toggle-all box is checked exactly when every record is completed, and the main
   * block shows exactly when there is a record.
   */
  lemma {:induction false} CountLogMeaning(s: seq<Item>)
    ensures CountLog(M.CountOf(s)) ==
      [ UpdateElementCount(|Filter(s, CompletedIs(false))|)
      , ClearCompletedButton(|Filter(s, CompletedIs(true))|, exists t :: t in s && t.completed)
      , ToggleAll(forall t :: t in s ==> t.completed)
      , ContentBlockVisibility(s != []) ]
  {
    var done := Filter(s, CompletedIs(true));
    FilterLengthFull(s, CompletedIs(true));
    assert (|done| > 0) == (exists t :: t in s && t.completed) by {
      if exists t :: t in s && t.completed {
        var t :| t in s && t.completed;
        assert t in done;
      }
      if |done| > 0 {
        assert done[0] in done;
      }
    }
    assert (|done| == |s|) == (forall t :: t in s ==> t.completed) by {
      assert forall t :: Matches(CompletedIs(true), t) == t.completed;
    }
  }

  /**
   * The show/skip rule of `_filter`: the list is redrawn unless the call is not
   * forced and both the route last shown and the current route are `All`.
   */
  predicate ShowsEntries(force: bool, last: Option<string>, route: string)
    ensures ShowsEntries(force, last, route) <==> force || route != "All" || last != Some("All")
  {
    force || last != Some("All") || last != Some(route)
  }

  /** Everything one `_filter(force)` call renders for the list `s`. */
  function FilterLog(force: bool, last: Option<string>, route: string, s: seq<Item>): (log: seq<Command>)
    requires RouteOf(route).Some?
    ensures |log| == if ShowsEntries(force, last, route) then 5 else 4
    ensures log[..4] == CountLog(M.CountOf(s))
    ensures ShowsEntries(force, last, route) ==> log[4] == ShowEntries(Entries(s, RouteOf(route).value))
  {
    CountLog(M.CountOf(s)) + (if ShowsEntries(force, last, route) then [ShowEntries(Entries(s, RouteOf(route).value))] else [])
  }

  /** The title of the first record with `id`. */
  function TitleOf(s: seq<Item>, id: int): (r: string)
    requires id in IdsOf(s)
    ensures exists k :: 0 <= k < |s| && s[k].id == id && s[k].title == r && forall j :: 0 <= j < k ==> s[j].id != id
  {
    var t :| t in s && t.id == id;
    if s[0].id == id then s[0].title
    else
      assert t in s[1..] by {
        assert s == [s[0]] + s[1..];
      }
      var r := TitleOf(s[1..], id);
      var k :| 0 <= k < |s[1..]| && s[1..][k].id == id && s[1..][k].title == r && forall j :: 0 <= j < k ==> s[1..][j].id != id;
      assert s[k + 1].id == id && s[k + 1].title == r;
      r
  }

  /** The first record the query `{id: id}` finds is the one `TitleOf` reads. */
  lemma {:induction false} FirstById(s: seq<Item>, id: int)
    requires id in IdsOf(s)
    ensures |Filter(s, IdIs(id))| > 0 && Filter(s, IdIs(id))[0].title == TitleOf(s, id)
  {
    var t :| t in s && t.id == id;
    if s[0].id != id {
      assert t in s[1..] by {
        assert s == [s[0]] + s[1..];
      }
      FirstById(s[1..], id);
    }
  }

  // ---------------------------------------------------------------------------
  // specifications of the per-item loops
  // ---------------------------------------------------------------------------

  /** The store after removing, one at a time and in order, the ids of `gone`. */
  function RemoveEach(s: seq<Item>, gone: seq<Item>): seq<Item>
    decreases |gone|
  {
    if gone == [] then s else SkipRemove(RemoveEach(s, gone[..|gone| - 1]), gone[|gone| - 1].id)
  }

  /** With unique ids, removing the records of `gone` one by one removes exactly their ids. */
  lemma {:induction false} RemoveEachUnique(s: seq<Item>, gone: seq<Item>)
    requires UniqueIds(s)
    ensures RemoveEach(s, gone) == Except(s, IdsOf(gone))
    ensures UniqueIds(RemoveEach(s, gone))
    decreases |gone|
  {
    if gone == [] {
      assert IdsOf(gone) == {};
      ExceptAbsent(s, {});
    } else {
      var prev := gone[..|gone| - 1];
      var x := gone[|gone| - 1];
      RemoveEachUnique(s, prev);
      var mid := Except(s, IdsOf(prev));
      SkipRemoveUnique(mid, x.id);
      ExceptExcept(s, IdsOf(prev), {x.id});
      ExceptUnique(mid, {x.id});
      assert gone == prev + [x];
      IdsOfConcat(prev, [x]);
      assert IdsOf([x]) == {x.id};
    }
  }

  lemma Assoc(a: seq<Command>, b: seq<Command>, c: seq<Command>)
    ensures a + b + c == a + (b + c)
  {
  }

  /**
   * Clearing the completed records of an id-unique store whose ids are non-zero
   * leaves exactly the open records, in order, and keeps the ids unique and non-zero.
   */
  lemma RemoveCompletedResult(s: seq<Item>)
    requires UniqueIds(s) && 0 !in IdsOf(s)
    ensures var r := RemoveEach(s, Filter(s, CompletedIs(true)));
      && r == Filter(s, CompletedIs(false))
      && (forall t :: t in r ==> !t.completed)
      && UniqueIds(r) && 0 !in IdsOf(r)
  {
    var done := Filter(s, CompletedIs(true));
    RemoveEachUnique(s, done);
    ExceptCompleted(s);
    ExceptUnique(s, IdsOf(done));
  }

  /** The commands rendered while the records of `gone` are removed one at a time. */
  function RemovalsLog(s: seq<Item>, gone: seq<Item>, last: Option<string>, route: string): seq<Command>
    requires RouteOf(route).Some?
    decreases |gone|
  {
    if gone == [] then []
    else
      var prev := gone[..|gone| - 1];
      RemovalsLog(s, prev, last, route)
      + ([RemoveItem(gone[|gone| - 1].id)] + FilterLog(false, if prev == [] then last else Some(route), route, RemoveEach(s, gone)))
  }

  /** One more removal: the store loses the last id, and the log grows by its removal and refilter. */
  lemma RemoveStep(s: seq<Item>, gone: seq<Item>, x: Item, last: Option<string>, route: string)
    requires RouteOf(route).Some?
    ensures RemoveEach(s, gone + [x]) == SkipRemove(RemoveEach(s, gone), x.id)
    ensures RemovalsLog(s, gone + [x], last, route)
      == RemovalsLog(s, gone, last, route)
        + ([RemoveItem(x.id)] + FilterLog(false, if gone == [] then last else Some(route), route, RemoveEach(s, gone + [x])))
  {
    var g := gone + [x];
    assert g[..|g| - 1] == gone;
    assert g[|g| - 1] == x;
  }

  /** A log that held the removals of `gone` and then got one more removal and refilter holds the removals of `gone + [x]`. */
  lemma RemovalsLogStep(s: seq<Item>, gone: seq<Item>, x: Item, last: Option<string>, route: string,
                        log0: seq<Command>, before: seq<Command>, after: seq<Command>)
    requires RouteOf(route).Some?
    requires before == log0 + RemovalsLog(s, gone, last, route)
    requires after == before + [RemoveItem(x.id)] + FilterLog(false, if gone == [] then last else Some(route), route, RemoveEach(s, gone + [x]))
    ensures after == log0 + RemovalsLog(s, gone + [x], last, route)
  {
    RemoveStep(s, gone, x, last, route);
    var step := [RemoveItem(x.id)] + FilterLog(false, if gone == [] then last else Some(route), route, RemoveEach(s, gone + [x]));
    Assoc(before, [RemoveItem(x.id)], FilterLog(false, if gone == [] then last else Some(route), route, RemoveEach(s, gone + [x])));
    Assoc(log0, RemovalsLog(s, gone, last, route), step);
  }

  /** The store after merging `p`, one record at a time and in order, into the ids of `items`. */
  function UpdateEach(s: seq<Item>, items: seq<Item>, p: Fields): seq<Item>
    decreases |items|
  {
    if items == [] then s else UpdateFirst(UpdateEach(s, items[..|items| - 1], p), items[|items| - 1].id, p)
  }

  /** With unique ids, merging one record at a time is merging every record whose id is listed. */
  lemma {:induction false} UpdateEachUnique(s: seq<Item>, items: seq<Item>, p: Fields)
    requires UniqueIds(s) && p.id.None?
    ensures UpdateEach(s, items, p) == MergeWhere(s, IdsOf(items), p)
    decreases |items|
  {
    if items == [] {
      assert MergeWhere(s, {}, p) == s;
    } else {
      var prev := items[..|items| - 1];
      var x := items[|items| - 1];
      UpdateEachUnique(s, prev, p);
      var mid := MergeWhere(s, IdsOf(prev), p);
      MergeWhereIds(s, IdsOf(prev), p);
      UpdateFirstUnique(mid, x.id, p);
      MergeWhereTwice(s, IdsOf(prev), {x.id}, p);
      assert items == prev + [x];
      IdsOfConcat(prev, [x]);
      assert IdsOf([x]) == {x.id};
    }
  }

  /**
   * Marking every record whose completion differs from `c` leaves every record
   * with completion `c`, and every id and title where it was.
   */
  lemma ToggleAllResult(s: seq<Item>, c: bool)
    ensures var r := MergeWhere(s, IdsOf(Filter(s, CompletedIs(!c))), CompletedIs(c));
      && |r| == |s|
      && (forall k :: 0 <= k < |r| ==> r[k].completed == c)
      && (forall k :: 0 <= k < |r| ==> r[k].id == s[k].id && r[k].title == s[k].title)
  {
    var ids := IdsOf(Filter(s, CompletedIs(!c)));
    forall k | 0 <= k < |s| && s[k].id !in ids ensures s[k].completed == c {
      assert s[k] in s;
    }
  }

  /** One more toggle: the store merges the last id, and one more `elementComplete` is rendered. */
  lemma UpdateStep(s: seq<Item>, items: seq<Item>, x: Item, c: bool)
    ensures UpdateEach(s, items + [x], CompletedIs(c)) == UpdateFirst(UpdateEach(s, items, CompletedIs(c)), x.id, CompletedIs(c))
    ensures Completions(items + [x], c) == Completions(items, c) + [ElementComplete(x.id, c)]
  {
    var g := items + [x];
    assert g[..|g| - 1] == items;
    assert g[|g| - 1] == x;
    var l, r := Completions(g, c), Completions(items, c) + [ElementComplete(x.id, c)];
    forall k | 0 <= k < |g| ensures l[k] == r[k] {
      if k < |items| {
        assert g[k] == items[k];
      }
    }
  }

  /**
   * Toggling, one at a time, every record whose completion differs from `c` in an
   * id-unique store with non-zero ids leaves every record with completion `c`, ids
   * and titles in place, and the ids unique and non-zero.
   */
  lemma ToggleAllEach(s: seq<Item>, c: bool)
    requires UniqueIds(s) && 0 !in IdsOf(s)
    ensures var r := UpdateEach(s, Filter(s, CompletedIs(!c)), CompletedIs(c));
      && |r| == |s|
      && (forall k :: 0 <= k < |r| ==> r[k].completed == c)
      && (forall k :: 0 <= k < |r| ==> r[k].id == s[k].id && r[k].title == s[k].title)
      && UniqueIds(r) && 0 !in IdsOf(r)
  {
    var flipped := Filter(s, CompletedIs(!c));
    UpdateEachUnique(s, flipped, CompletedIs(c));
    MergeWhereIds(s, IdsOf(flipped), CompletedIs(c));
    ToggleAllResult(s, c);
  }

  /** The `elementComplete` commands of a toggle-all pass, one per record, in order. */
  function Completions(items: seq<Item>, c: bool): (log: seq<Command>)
    ensures |log| == |items|
    ensures forall k :: 0 <= k < |items| ==> log[k] == ElementComplete(items[k].id, c)
  {
    seq(|items|, k requires 0 <= k < |items| => ElementComplete(items[k].id, c))
  }

  // ---------------------------------------------------------------------------
  // the controller
  // ---------------------------------------------------------------------------

  class Controller {
    const model: M.Model
    const view: View
    /** The route as stored from the page: `All` for the empty page, otherwise the page itself. */
    var activeRoute: Option<string>
    /** The upper-cased route `_filter` last worked on. */
    var lastActiveRoute: Option<string>

    /** Wires the controller to its model and view; no route is set until the first `SetView`. */
    constructor(model: M.Model, view: View)
      ensures this.model == model && this.view == view
      ensures activeRoute == None && lastActiveRoute == None
    {
      this.model := model;
      this.view := view;
      activeRoute := None;
      lastActiveRoute := None;
    }

    function Todos(): seq<Item>
      reads model.storage
    {
      model.storage.todos
    }

    /** Ids are unique and none is zero, as fresh timestamps make them. */
    predicate Valid()
      reads model.storage
    {
      UniqueIds(Todos()) && 0 !in IdsOf(Todos())
    }

    /** A route has been set, and with its first character upper-cased it names a view. */
    predicate Routed()
      reads this
    {
      activeRoute.Some? && RouteOf(UpperFirst(activeRoute.value)).Some?
    }

    /** The name `_filter` builds: the stored route with its first character upper-cased. */
    function CurrentRoute(): string
      requires activeRoute.Some?
      reads this
    {
      UpperFirst(activeRoute.value)
    }

    /** Loads the view for a location hash: the page it names becomes the route. */
    method SetView(locationHash: string)
      requires RouteOf(UpperFirst(StoredRoute(PageOf(locationHash)))).Some?
      modifies this, view
      ensures var page := PageOf(locationHash);
        && activeRoute == Some(StoredRoute(page))
        && lastActiveRoute == Some(UpperFirst(StoredRoute(page)))
        && view.log == old(view.log) + FilterLog(false, old(lastActiveRoute), UpperFirst(StoredRoute(page)), Todos())
          + [SetFilter(page)]
    {
      var page := PageOf(locationHash);
      UpdateFilterState(page);
    }

    /**
     * Stores the page as the route (the empty page as `All`), refilters, then tells
     * the view the raw page so it can highlight its link.
     */
    method UpdateFilterState(currentPage: string)
      requires RouteOf(UpperFirst(StoredRoute(currentPage))).Some?
      modifies this, view
      ensures activeRoute == Some(StoredRoute(currentPage))
      ensures lastActiveRoute == Some(UpperFirst(StoredRoute(currentPage)))
      ensures view.log == old(view.log) + FilterLog(false, old(lastActiveRoute), UpperFirst(StoredRoute(currentPage)), Todos())
        + [SetFilter(currentPage)]
    {
      activeRoute := Some(currentPage);
      if currentPage == "" {
        activeRoute := Some("All");
      }
      ApplyFilter(false);
      view.Render(SetFilter(currentPage));
    }

    /** Renders every record. */
    method ShowAll()
      modifies view
      ensures view.log == old(view.log) + [ShowEntries(Todos())]
    {
      var data := model.Read(M.Query.All);
      view.Render(ShowEntries(data));
    }

    /** Renders the open records, in stored order. */
    method ShowActive()
      modifies view
      ensures view.log == old(view.log) + [ShowEntries(Filter(Todos(), CompletedIs(false)))]
    {
      var data := model.Read(M.Query.ByFields(CompletedIs(false)));
      view.Render(ShowEntries(data));
    }

    /** Renders the completed records, in stored order. */
    method ShowCompleted()
      modifies view
      ensures view.log == old(view.log) + [ShowEntries(Filter(Todos(), CompletedIs(true)))]
    {
      var data := model.Read(M.Query.ByFields(CompletedIs(true)));
      view.Render(ShowEntries(data));
    }

    /** Renders the four footer commands from the current counters. */
    method UpdateCount()
      modifies view
      ensures view.log == old(view.log) + CountLog(M.CountOf(Todos()))
    {
      var todos := model.GetCount();
      view.Render(UpdateElementCount(todos.active));
      view.Render(ClearCompletedButton(todos.completed, todos.completed > 0));
      view.Render(Command.ToggleAll(todos.completed == todos.total));
      view.Render(ContentBlockVisibility(todos.total > 0));
    }

    /**
     * `_filter(force)`: updates the footer, redraws the list for the current route
     * unless the show/skip rule says otherwise, and remembers the route.
     */
    method ApplyFilter(force: bool)
      requires Routed()
      modifies this, view
      ensures activeRoute == old(activeRoute) && lastActiveRoute == Some(CurrentRoute())
      ensures view.log == old(view.log) + FilterLog(force, old(lastActiveRoute), CurrentRoute(), Todos())
    {
      var route := UpperFirst(activeRoute.value);
      UpdateCount();
      if force || lastActiveRoute != Some("All") || lastActiveRoute != Some(route) {
        match RouteOf(route).value
        case All => ShowAll();
        case Active => ShowActive();
        case Completed => ShowCompleted();
      }
      lastActiveRoute := Some(route);
    }

    /**
     * Adds a todo unless the title is blank: the trimmed title is stored as a new
     * open record under the fresh id, the input is cleared and the list is redrawn.
     */
    method AddItem(title: string, freshId: int)
      requires Trim(title) != "" ==> Routed() && freshId > 0 && freshId !in IdsOf(Todos())
      modifies this, view, model.storage
      ensures activeRoute == old(activeRoute)
      ensures Trim(title) == "" ==>
        Todos() == old(Todos()) && view.log == old(view.log) && lastActiveRoute == old(lastActiveRoute)
      ensures Trim(title) != "" ==>
        && Todos() == old(Todos()) + [Item(freshId, Trim(title), false)]
        && view.log == old(view.log) + [ClearNewTodo] + FilterLog(true, old(lastActiveRoute), CurrentRoute(), Todos())
        && lastActiveRoute == Some(CurrentRoute())
      ensures old(Valid()) ==> Valid()
    {
      if Trim(title) != "" {
        ghost var item := Item(freshId, Trim(title), false);
        assert Some(title).GetOr("") == title;
        var _ := model.Create(Some(title), freshId);
        assert Todos() == old(Todos()) + [item];
        if old(Valid()) {
          UniqueAppend(old(Todos()), item);
          IdsOfConcat(old(Todos()), [item]);
        }
        view.Render(ClearNewTodo);
        ApplyFilter(true);
      }
    }

    /** Opens the editor on the record with `id`, showing its stored title. */
    method EditItem(id: int)
      requires id in IdsOf(Todos())
      modifies view
      ensures view.log == old(view.log) + [Command.EditItem(id, TitleOf(Todos(), id))]
    {
      var data := model.Read(M.Query.ById(id));
      FirstById(Todos(), id);
      view.Render(Command.EditItem(id, data[0].title));
    }

    /**
     * Saves an edit: a title that is not the empty string is trimmed (a blank one
     * becomes empty) and stored; the empty string removes the record instead.
     */
    method EditItemSave(id: int, title: string)
      requires |title| != 0 ==> id != 0
      requires |title| == 0 ==> Routed()
      modifies this, view, model.storage
      ensures activeRoute == old(activeRoute)
      ensures |title| != 0 ==>
        && Todos() == UpdateFirst(old(Todos()), id, TitleIs(Trim(title)))
        && view.log == old(view.log) + [EditItemDone(id, Trim(title))]
        && lastActiveRoute == old(lastActiveRoute)
      ensures |title| == 0 ==>
        && Todos() == SkipRemove(old(Todos()), id)
        && view.log == old(view.log) + [Command.RemoveItem(id)] + FilterLog(false, old(lastActiveRoute), CurrentRoute(), Todos())
        && lastActiveRoute == Some(CurrentRoute())
      ensures old(Valid()) ==> Valid()
    {
      if |title| != 0 {
        var trimmed := Trim(title);
        var _ := model.Update(id, TitleIs(trimmed));
        if old(Valid()) {
          MergeWhereIds(old(Todos()), {id}, TitleIs(trimmed));
        }
        view.Render(EditItemDone(id, trimmed));
      } else {
        RemoveItem(id);
      }
    }

    /** Abandons an edit: the store is untouched and the stored title is shown again. */
    method EditItemCancel(id: int)
      requires id in IdsOf(Todos())
      modifies view
      ensures view.log == old(view.log) + [EditItemDone(id, TitleOf(Todos(), id))]
    {
      var data := model.Read(M.Query.ById(id));
      FirstById(Todos(), id);
      view.Render(EditItemDone(id, data[0].title));
    }

    /** Removes the records with `id` from the store and the view, then refilters. */
    method RemoveItem(id: int)
      requires Routed()
      modifies this, view, model.storage
      ensures activeRoute == old(activeRoute) && lastActiveRoute == Some(CurrentRoute())
      ensures Todos() == SkipRemove(old(Todos()), id)
      ensures old(Valid()) ==> Todos() == Except(old(Todos()), {id}) && Valid()
      ensures view.log == old(view.log) + [Command.RemoveItem(id)] + FilterLog(false, old(lastActiveRoute), CurrentRoute(), Todos())
    {
      var _ := model.Remove(id);
      if old(Valid()) {
        ExceptUnique(old(Todos()), {id});
      }
      view.Render(Command.RemoveItem(id));
      ApplyFilter(false);
    }

    /**
     * Removes the completed records one at a time, each removal refiltering, then
     * refilters once more. With unique ids exactly the open records remain, in order.
     */
    method RemoveCompletedItems()
      requires Routed()
      modifies this, view, model.storage
      ensures activeRoute == old(activeRoute) && lastActiveRoute == Some(CurrentRoute())
      ensures var done := Filter(old(Todos()), CompletedIs(true));
        && Todos() == RemoveEach(old(Todos()), done)
        && view.log == old(view.log) + RemovalsLog(old(Todos()), done, old(lastActiveRoute), CurrentRoute())
          + FilterLog(false, if done == [] then old(lastActiveRoute) else Some(CurrentRoute()), CurrentRoute(), Todos())
      ensures old(Valid()) ==> Todos() == Filter(old(Todos()), CompletedIs(false)) && Valid()
      ensures old(Valid()) ==> forall t :: t in Todos() ==> !t.completed
    {
      var data := model.Read(M.Query.ByFields(CompletedIs(true)));
      RemoveEachItem(data);
      if old(Valid()) {
        RemoveCompletedResult(old(Todos()));
      }
      ApplyFilter(false);
    }

    /** The per-record pass of `removeCompletedItems`: removes the listed records in order, each removal refiltering. */
    method RemoveEachItem(data: seq<Item>)
      requires Routed()
      modifies this, view, model.storage
      ensures activeRoute == old(activeRoute)
      ensures Todos() == RemoveEach(old(Todos()), data)
      ensures view.log == old(view.log) + RemovalsLog(old(Todos()), data, old(lastActiveRoute), CurrentRoute())
      ensures lastActiveRoute == if data == [] then old(lastActiveRoute) else Some(CurrentRoute())
    {
      ghost var s0, log0, last0, route := Todos(), view.log, lastActiveRoute, CurrentRoute();
      ghost var done: seq<Item> := [];
      var i := 0;
      while i < |data|
        invariant i <= |data| && done == data[..i]
        invariant activeRoute == old(activeRoute)
        invariant Todos() == RemoveEach(s0, done)
        invariant view.log == log0 + RemovalsLog(s0, done, last0, route)
        invariant lastActiveRoute == if done == [] then last0 else Some(route)
      {
        ghost var logBefore := view.log;
        var x := data[i];
        TakeOneMore(data, i);
        RemoveStep(s0, done, x, last0, route);
        RemoveItem(x.id);
        RemovalsLogStep(s0, done, x, last0, route, log0, logBefore, view.log);
        done := done + [x];
        i := i + 1;
      }
      assert done == data by {
        assert data[..|data|] == data;
      }
    }

    /**
     * Marks one record completed or open and tells the view; unless silent, the
     * list is then refiltered.
     */
    method ToggleComplete(id: int, completed: bool, silent: bool)
      requires id != 0
      requires !silent ==> Routed()
      modifies this, view, model.storage
      ensures activeRoute == old(activeRoute)
      ensures Todos() == UpdateFirst(old(Todos()), id, CompletedIs(completed))
      ensures silent ==>
        view.log == old(view.log) + [ElementComplete(id, completed)] && lastActiveRoute == old(lastActiveRoute)
      ensures !silent ==>
        && view.log == old(view.log) + [ElementComplete(id, completed)]
          + FilterLog(false, old(lastActiveRoute), CurrentRoute(), Todos())
        && lastActiveRoute == Some(CurrentRoute())
      ensures old(Valid()) ==> Valid()
    {
      var _ := model.Update(id, CompletedIs(completed));
      if old(Valid()) {
        MergeWhereIds(old(Todos()), {id}, CompletedIs(completed));
      }
      view.Render(ElementComplete(id, completed));
      if !silent {
        ApplyFilter(false);
      }
    }

    /**
     * Gives every record whose completion differs from `completed` that completion,
     * silently and one at a time, then refilters once. With unique ids every record
     * ends with that completion and keeps its id and title.
     */
    method ToggleAll(completed: bool)
      requires Routed()
      requires 0 !in IdsOf(Todos())
      modifies this, view, model.storage
      ensures activeRoute == old(activeRoute) && lastActiveRoute == Some(CurrentRoute())
      ensures var flipped := Filter(old(Todos()), CompletedIs(!completed));
        && Todos() == UpdateEach(old(Todos()), flipped, CompletedIs(completed))
        && view.log == old(view.log) + Completions(flipped, completed)
          + FilterLog(false, old(lastActiveRoute), CurrentRoute(), Todos())
      ensures old(Valid()) ==>
        && Valid()
        && |Todos()| == |old(Todos())|
        && (forall k :: 0 <= k < |Todos()| ==> Todos()[k].completed == completed)
        && (forall k :: 0 <= k < |Todos()| ==> Todos()[k].id == old(Todos())[k].id && Todos()[k].title == old(Todos())[k].title)
    {
      var data := model.Read(M.Query.ByFields(CompletedIs(!completed)));
      ToggleEachItem(data, completed);
      if old(Valid()) {
        ToggleAllEach(old(Todos()), completed);
      }
      ApplyFilter(false);
    }

    /** The per-record pass of `toggleAll`: silently gives each listed record the completion, in order. */
    method ToggleEachItem(data: seq<Item>, completed: bool)
      requires forall t :: t in data ==> t.id != 0
      modifies this, view, model.storage
      ensures activeRoute == old(activeRoute) && lastActiveRoute == old(lastActiveRoute)
      ensures Todos() == UpdateEach(old(Todos()), data, CompletedIs(completed))
      ensures view.log == old(view.log) + Completions(data, completed)
    {
      ghost var done: seq<Item> := [];
      var i := 0;
      while i < |data|
        invariant i <= |data| && done == data[..i]
        invariant activeRoute == old(activeRoute) && lastActiveRoute == old(lastActiveRoute)
        invariant Todos() == UpdateEach(old(Todos()), done, CompletedIs(completed))
        invariant view.log == old(view.log) + Completions(done, completed)
      {
        var x := data[i];
        assert x in data;
        TakeOneMore(data, i);
        ToggleComplete(x.id, completed, true);
        UpdateStep(old(Todos()), done, x, completed);
        Assoc(old(view.log), Completions(done, completed), [ElementComplete(x.id, completed)]);
        done := done + [x];
        i := i + 1;
      }
      assert done == data by {
        assert data[..|data|] == data;
      }
    }
  }
}
