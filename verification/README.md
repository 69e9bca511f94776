# A verified model of the vanilla-JS todo list core

The application keeps a list of todos. Each todo is a record `{id, title, completed}`, and the list lives in a browser
`localStorage` document. The core has four layers:

- **Store** (`js/store.js`): the persisted list. It can find records by a query object, save, remove and drop.
- **Model** (`js/model.js`): the domain layer over the store.
  - `create` trims the title and makes an open record.
  - `read` takes nothing, an id or a query object.
  - `update` and `remove` act by id; `removeAll` empties the list.
  - `getCount` counts open, completed and all records.
- **Controller** (`js/controller.js`): turns user actions into model calls and view render commands. It keeps the
  active route (`All`, `Active`, `Completed`) and the route it last showed.
- **Template** (`js/template.js`): builds the HTML.
  - One `<li>` fragment per todo, by placeholder substitution and with HTML escaping of the title.
  - The "n items left" counter and the "Clear completed" label.

The Dafny project models these four files, one module each, plus three supporting modules:

| file | module | form |
|---|---|---|
| `store.dfy` | `TodoStore` | class `Store` with a `todos: seq<Item>` field that every operation reads and rewrites. The loops of `save` and `remove` are kept as loops. |
| `model.dfy` | `TodoModel` | class `Model` over a `Store`. `getCount` is a loop. |
| `controller.dfy` | `TodoController` | class `Controller` with the two route fields. The view is class `View`, an append-only log of render commands. |
| `template.dfy` | `TodoTemplate` | pure functions for escaping, substitution and the footer texts. Class `Template` with the `show` loop. |
| `items.dfy` | `Items` | the record, query/update objects, filtering, and the reference definitions `Except` and `MergeWhere`. |
| `strings.dfy` | `JsStrings` | the JavaScript string built-ins the core relies on: `trim`, `split`, first-letter upper-casing and `String(n)`. |
| `wrappers.dfy` | `Wrappers` | `Option`. |

Callbacks are modelled as synchronous sequencing. Every callback in the core runs before the call that takes it
returns, because the store is `localStorage`. The view is the list of `render(name, parameter)` commands sent to it.
The controller's properties are therefore statements about what is stored and exactly which commands are rendered,
in order.

Three behaviours that are easy to misread are modelled as written:

- **Show/skip rule.** `_filter` shows the list when `force || last !== 'All' || last !== route`. `ShowsEntries`
  proves this equals "forced, or not both the last and the current route are `All`".
- **Removal loop.** The store's removal loop splices while iterating, so the record that slides into a removed slot
  is never examined. `SkipRemove` models that exactly.
  - `SkipRemoveMissesAdjacentDuplicate` exhibits the consequence: a second, adjacent record with the same id survives.
  - `SkipRemoveUnique` shows it removes exactly the record with the id when ids are unique. That holds for the
    timestamp ids the store hands out, as long as no two records are created in the same millisecond.
- **Save by id.** `save` with an id merges into the *first* record with that id only (`UpdateFirst`). With unique ids
  this is the same as merging into every record with it (`UpdateFirstUnique`).

## Model

| member | source | states |
|---|---|---|
| `TodoStore.Store.constructor` | js/store.js:12-22 | An existing document under the name is kept as it is; otherwise the list starts empty. |
| `TodoStore.Store.Find` | js/store.js:36-55 | The answer holds exactly the stored records matching every key of the query, and is never longer than the list. |
| `TodoStore.Store.FindAll` | js/store.js:61-64 | Every record, in order; the same answer as the empty query `{}`. |
| `TodoStore.Store.Save` | js/store.js:72-96 | With a truthy id, the loop merges the update into the first record with that id and stops (an absent id changes nothing); the whole list is handed back. Otherwise a new record under the fresh id is appended last and handed back alone. |
| `TodoStore.Truthy` | js/store.js:78 | The `if (id)` test: a predicate with no contract of its own. An absent id and `0` are falsy; `Store.Save` branches on it. |
| `TodoStore.UpdateFirst` | js/store.js:79-86 | The first-match merge keeps the list's length. What it changes is stated by `UpdateFirstAt`, `UpdateFirstAbsent` and `UpdateFirstUnique`. |
| `TodoStore.UpdateFirstAt` | js/store.js:79-86 | When `i` is the first index with the id, the update changes record `i` and no other. |
| `TodoStore.UpdateFirstAbsent` | js/store.js:78-88 | An id no record carries leaves the list unchanged. |
| `TodoStore.UpdateFirstUnique` | js/store.js:79-86 | With unique ids, the first-match update equals the reference `MergeWhere` on that one id. |
| `TodoStore.Store.Remove` | js/store.js:104-120 | After the look-up loop and the splicing loop, the list is `SkipRemove` of the old list. An absent id changes nothing; with unique ids exactly that record goes and the order is kept. |
| `TodoStore.SkipRemove` | js/store.js:113-117 | The splice-while-iterating loop as a function, with no contract of its own. Its meaning is stated by `SkipRemoveKeepsOthers`, `SkipRemoveAbsent`, `SkipRemoveUnique` and `SkipRemoveMissesAdjacentDuplicate`. |
| `TodoStore.SkipRemoveKeepsOthers` | js/store.js:113-117 | For any ids, the loop keeps a sub-multiset of the list and never drops a record with another id. |
| `TodoStore.SkipRemoveAbsent` | js/store.js:108-117 | Removing an id no record carries leaves the list unchanged. |
| `TodoStore.SkipRemoveUnique` | js/store.js:113-117 | With unique ids, the splice-while-iterating loop equals the reference `Except` for that id. |
| `TodoStore.SkipRemoveMissesAdjacentDuplicate` | js/store.js:113-117 | For `[{7,a},{7,b}]` the loop leaves `[{7,b}]`, while removing every record with id 7 leaves `[]`. |
| `TodoStore.SweptSplice` | js/store.js:114-115 | Splicing at `i` and then moving past `i` is the removal loop's own step: the slid-in record is passed over. |
| `TodoStore.SweptPass` | js/store.js:113-114 | A record without the id is kept and the loop moves on. |
| `TodoStore.Store.Drop` | js/store.js:127-131 | The list becomes empty and the empty list is handed back. |
| `Items.Merge` | js/store.js:81-83 | Afterwards the record matches the update object, and every key the update does not name is unchanged. |
| `Items.Matches` | js/store.js:46-51 | The per-record test of `find`, with no contract of its own: every key present in the query strictly equals the record's value. `Items.Filter` states its use. |
| `Items.Filter` | js/store.js:45-52 | A record is in the result if and only if it is in the list and matches every key of the query. |
| `Items.FilterConcat` | js/store.js:45-52 | Filtering keeps stored order: it distributes over concatenation. |
| `Items.FilterKeepsAll` | js/store.js:45-52 | A query every record matches (`{}` among them) returns the whole list. |
| `Items.FilterLengthFull` | js/store.js:45-52 | The filter keeps as many records as it is given exactly when all of them match. |
| `Items.CompletedSplit` | js/store.js:45-52 | `{completed: true}` and `{completed: false}` together return every record exactly once (multiset union). |
| `Items.CompletedPartition` | js/model.js:101-109 | The completed and open records partition the list: disjoint, their counts add up to the length, and their multisets add up to the list's. |
| `Items.FilterByUniqueId` | js/model.js:53-56 | In an id-unique list, the query `{id}` finds one record if the id is present and none otherwise. |
| `Items.UniqueAppend` | js/store.js:90-92 | Appending a record with a new id keeps ids unique. |
| `Items.UniqueCons` | js/store.js:90-92 | A list with a head is id-unique if and only if its tail is and the head's id is not in the tail. |
| `Items.Except` | js/store.js:104-120 | Reference removal: a record is kept if and only if its id is not among those removed. |
| `Items.ExceptUnique` | js/store.js:104-120 | Removal keeps ids unique and removes exactly the given ids from the id set. |
| `Items.ExceptExcept` | js/controller.js:182-186 | Removing one id set and then another is removing their union. |
| `Items.ExceptAbsent` | js/store.js:108-117 | Removing ids that are not present changes nothing. |
| `Items.ExceptCompleted` | js/controller.js:180-188 | In an id-unique list, removing the ids of the completed records leaves exactly the open records, in order. |
| `Items.ExceptIsFilter` | js/controller.js:180-188 | Where membership in the id set coincides with being completed, removing the ids is keeping the open records. |
| `Items.MergeWhereIds` | js/store.js:81-83 | An update without an `id` key keeps the id set and its uniqueness. |
| `TodoModel.Model.constructor` | js/model.js:11-13 | The model holds the given store. |
| `TodoModel.Model.Create` | js/model.js:21-29 | Appends one open record under the fresh id whose title is the given title trimmed (`''` when absent), and hands back that record. |
| `TodoModel.Model.Read` | js/model.js:47-60 | With no query, every record; otherwise a record is in the answer if and only if it is stored and has the id or matches the object. Never longer than the list. |
| `TodoModel.ReadById` | js/model.js:53-56 | In an id-unique store, reading by id yields one record if the id is stored and none otherwise. |
| `TodoModel.ReadCompletedPartition` | js/model.js:47-60 | Reading `{completed: true}` and `{completed: false}` splits the store: no record in both, every record once. |
| `TodoModel.Model.Update` | js/model.js:69-71 | The store is the first-match merge. An absent id changes nothing; with unique ids exactly the record with the id is updated. |
| `TodoModel.Model.Remove` | js/model.js:79-81 | The store is the removal loop's result. An absent id changes nothing; with unique ids exactly that record goes. |
| `TodoModel.Model.RemoveAll` | js/model.js:88-90 | The store becomes empty. |
| `TodoModel.Model.GetCount` | js/model.js:95-112 | The loop counts all records, the completed ones (`completed` field) and the open ones, and open plus completed equals the total. |
| `TodoModel.CountStep` | js/model.js:102-108 | One more record adds one to the completed count or to the open count, as its `completed` field says, and nothing to the other. |
| `TodoModel.CountAddsUp` | js/model.js:102-108 | Every record is counted as exactly one of open and completed. |
| `TodoController.View.Render` | js/view.js:80-120 | The command is appended to what the view has been told. |
| `TodoController.RouteOf` | js/controller.js:256 | `'show' + route` names a method exactly for `All`, `Active` and `Completed`, and the chosen view's name is the route. |
| `TodoController.PageOf` | js/controller.js:47-48 | The page taken from the hash never holds a slash. |
| `TodoController.PageOfSlash` | js/controller.js:47-48 | For a hash `q/p` with no slash in `q`, the page is the part of `p` before its next slash. |
| `TodoController.PageOfExamples` | js/controller.js:44-48 | `#/active` names `active`; `#/` and any hash without a slash name the empty page. |
| `TodoController.StoredRoute` | js/controller.js:266-269 | The stored route is never empty, and a non-empty page is stored as it is. |
| `TodoController.KnownPages` | js/controller.js:264-270 | The empty page, `active` and `completed` become `All`, `Active` and `Completed` once stored and upper-cased. |
| `TodoController.CountLog` | js/controller.js:230-237 | `_updateCount` renders exactly four commands. |
| `TodoController.CountLogMeaning` | js/controller.js:228-239 | The counter shows the number of open records. The clear button is visible exactly when some record is completed. Toggle-all is checked exactly when every record is completed. The main block is visible exactly when there is a record. |
| `TodoController.ShowsEntries` | js/controller.js:255 | The show condition as written holds exactly when forced, when the route is not `All`, or when the last route was not `All`. |
| `TodoController.FilterLog` | js/controller.js:245-259 | `_filter` renders the four footer commands, then the list for the route exactly when the show rule holds: 5 commands or 4. |
| `TodoController.TitleOf` | js/controller.js:110-111 | The title of the first record carrying the id. |
| `TodoController.FirstById` | js/controller.js:110-111 | Reading by a stored id returns at least one record, and the first one's title is `TitleOf`. |
| `TodoController.RemoveEachUnique` | js/controller.js:182-186 | With unique ids, removing the listed records one at a time removes exactly their ids and keeps ids unique. |
| `TodoController.RemoveCompletedResult` | js/controller.js:180-188 | In an id-unique store with non-zero ids, clearing the completed records leaves exactly the open records, in order, still unique and non-zero. |
| `TodoController.RemoveStep` | js/controller.js:183-185 | One more removal removes the next id and appends its `removeItem` command and its refilter to the log. |
| `TodoController.UpdateEachUnique` | js/controller.js:217-221 | With unique ids, merging one listed record at a time equals merging every listed id at once. |
| `TodoController.ToggleAllResult` | js/controller.js:214-223 | Marking the records whose completion differs from `c` leaves every record with completion `c`, and ids and titles in place. |
| `TodoController.ToggleAllEach` | js/controller.js:214-223 | The same for the one-at-a-time pass, in an id-unique store with non-zero ids; ids stay unique and non-zero. |
| `TodoController.UpdateStep` | js/controller.js:218-220 | One more toggle merges the next id and appends one `elementComplete` command. |
| `TodoController.Completions` | js/controller.js:218-220 | One `elementComplete` per listed record, in order, each with its id and the target completion. |
| `TodoController.Controller.constructor` | js/controller.js:12-15 | The controller holds the model and the view, and no route is set yet. |
| `TodoController.Controller.SetView` | js/controller.js:46-50 | The hash's page is stored as the route (`All` for the empty page); the list is refiltered, then `setFilter(page)` is rendered. |
| `TodoController.Controller.UpdateFilterState` | js/controller.js:264-272 | The stored route is the page, or `All` for the empty page; the refilter's commands come before `setFilter`. |
| `TodoController.Controller.ShowAll` | js/controller.js:55-60 | Renders every record. |
| `TodoController.Controller.ShowActive` | js/controller.js:65-70 | Renders exactly the open records, in order. |
| `TodoController.Controller.ShowCompleted` | js/controller.js:75-80 | Renders exactly the completed records, in order. |
| `TodoController.Controller.UpdateCount` | js/controller.js:228-239 | Renders the four footer commands computed from the store's counters. |
| `TodoController.Controller.ApplyFilter` | js/controller.js:245-259 | Renders the footer commands, then the list for the upper-cased route when the show rule holds, and remembers that route as last shown. |
| `TodoController.Controller.AddItem` | js/controller.js:86-94 | A blank title changes nothing. Otherwise the trimmed title is appended as an open record under the fresh id, `clearNewTodo` is rendered and a forced refilter follows. Unique non-zero ids stay so. |
| `TodoController.Controller.EditItem` | js/controller.js:108-113 | Renders `editItem` with the id and the stored title of the first record carrying it. |
| `TodoController.Controller.EditItemSave` | js/controller.js:120-137 | A non-empty title is trimmed and merged into the record, then `editItemDone` is rendered with it. An empty title removes the record as `removeItem` does. Unique non-zero ids stay so. |
| `TodoController.Controller.EditItemCancel` | js/controller.js:143-148 | Nothing is stored; `editItemDone` is rendered with the stored title. |
| `TodoController.Controller.RemoveItem` | js/controller.js:155-175 | The store loses the id as the store's loop removes it (with unique ids, exactly that record). `removeItem` is rendered, then the refilter. |
| `TodoController.Controller.RemoveCompletedItems` | js/controller.js:180-188 | Each completed record is removed in turn, each with its own `removeItem` and refilter, then one more refilter follows. With unique non-zero ids, exactly the open records remain, in order, and none is completed. |
| `TodoController.Controller.RemoveEachItem` | js/controller.js:182-186 | The loop removes the listed records in order; the store and the log are `RemoveEach` and `RemovalsLog`. |
| `TodoController.Controller.ToggleComplete` | js/controller.js:197-208 | The completion is merged into the first record with the id and `elementComplete` is rendered; a refilter follows unless silent. |
| `TodoController.Controller.ToggleAll` | js/controller.js:214-223 | Every record whose completion differs gets the target completion, one at a time and silently, then one refilter. With unique ids, every record ends with that completion and keeps its id, title and position. |
| `TodoController.Controller.ToggleEachItem` | js/controller.js:217-221 | The loop toggles the listed records in order, rendering one `elementComplete` each. |
| `TodoTemplate.EscapeHtmlChar` | js/template.js:5-16 | Each special character maps to an entity of 4 to 6 characters, `&` to `;`, with no other special character inside. |
| `TodoTemplate.EscapeAll` | js/template.js:18-23 | The global replace never shortens the text and leaves no `<`, `>`, `"`, `'` or backquote. |
| `TodoTemplate.EscapeAllPlain` | js/template.js:21-24 | Text without special characters comes through the replace unchanged. |
| `TodoTemplate.Escape` | js/template.js:21-25 | `escape` always equals the global replace, and hands text without special characters back as it is. |
| `TodoTemplate.EscapeAllAmpersands` | js/template.js:5-23 | In escaped text every `&` starts one of the table's entities. |
| `TodoTemplate.EscapeOne` | js/template.js:14-23 | The replacement for one character: a special character becomes an entity of more than one character starting with `&`, and any other character stays one character, itself. |
| `TodoTemplate.UnescapeOne` | js/template.js:5-16 | Decoding an escaped character in front of any text yields that character first. |
| `TodoTemplate.EscapeRoundTrip` | js/template.js:21-25 | Escaping loses nothing: decoding the entities gives the original title back. |
| `TodoTemplate.EscapeAllRoundTrip` | js/template.js:18-23 | The same for the global replace on any text. |
| `TodoTemplate.ReplaceFirst` | js/template.js:72-75 | `replace` with a string pattern changes at most one occurrence: the length is either kept or loses one pattern and gains one replacement. Which occurrence is replaced is stated by `ReplaceFirstAt` and `ReplaceFirstAbsent`. |
| `TodoTemplate.ReplaceFirstAbsent` | js/template.js:72-75 | Text in which the pattern occurs nowhere comes back unchanged. |
| `TodoTemplate.ReplaceFirstAt` | js/template.js:72-75 | When the first occurrence of the pattern is at `i`, the result is the text before `i`, the replacement, then the text after that occurrence. |
| `TodoTemplate.ReplaceFirstPass` | js/template.js:72-75 | Without an occurrence at the front, the first character is kept and the search goes on in the rest. |
| `TodoTemplate.ReplaceFirstSkip` | js/template.js:72-75 | Text without the pattern's first character is passed over unchanged by `replace`. |
| `TodoTemplate.ReplaceFirstHere` | js/template.js:72-75 | A pattern at the front is the first occurrence, and only it is replaced. |
| `TodoTemplate.ReplaceFirstSkipSlot` | js/template.js:72-75 | Another `{{name}}` placeholder is not mistaken for the one being replaced. |
| `TodoTemplate.ReplaceId` | js/template.js:72 | Replacing `{{id}}` in the default template puts the id text in the `data-id` attribute. |
| `TodoTemplate.ReplaceTitle` | js/template.js:73 | Then `{{title}}` becomes the escaped title in the label, even if the id text is present. |
| `TodoTemplate.ReplaceCompleted` | js/template.js:74 | Then `{{completed}}` becomes the class text, even if the title holds braces. |
| `TodoTemplate.ReplaceChecked` | js/template.js:75 | Then `{{checked}}` becomes the checkbox attribute. |
| `TodoTemplate.Fragment` | js/template.js:66-75 | The four substitutions for one todo, with no contract of their own. Their meaning is stated by `FragmentLayout`. |
| `TodoTemplate.FragmentLayout` | js/template.js:65-75 | A todo's fragment is the template's layout with the decimal id, the class `completed` and the attribute `checked` exactly when completed, and the escaped title, whatever the title holds. |
| `TodoTemplate.ConcatAppend` | js/template.js:76 | Joining two runs of pieces is placing their joins side by side. |
| `TodoTemplate.RenderListConcat` | js/template.js:64-77 | Rendering a concatenated list is concatenating the renderings: fragments follow list order. |
| `TodoTemplate.RenderListOne` | js/template.js:65-76 | A one-todo list renders as that todo's fragment. |
| `TodoTemplate.RenderListSnoc` | js/template.js:76 | One more todo appends its fragment. |
| `TodoTemplate.Template.constructor` | js/template.js:33-42 | The template holds the default `<li>` layout with its four placeholders. |
| `TodoTemplate.Template.Show` | js/template.js:61-79 | The loop's result is the fragments of the todos, in order, concatenated; no todos give `''`. |
| `TodoTemplate.ItemCounter` | js/template.js:87-90 | `<strong>`, the decimal number, `</strong>`, then ` item left` exactly when the number is 1 and ` items left` exactly otherwise (0 included). The length is exactly that of these pieces. |
| `TodoTemplate.ClearCompletedButton` | js/template.js:99-105 | `Clear completed` exactly when the count is positive, `''` otherwise. |
| `JsStrings.Trim` | js/model.js:25 | `String.prototype.trim`, with no contract of its own. Its meaning is stated by `TrimMiddle`, `TrimEmpty` and `TrimIdempotent`. |
| `JsStrings.TrimMiddle` | js/model.js:25 | `trim` leaves the middle of the text between a whitespace prefix and a whitespace suffix, beginning and ending with non-whitespace. |
| `JsStrings.TrimEmpty` | js/controller.js:89 | The trimmed title is empty exactly when the title is all whitespace: the blank-title test of `addItem`. |
| `JsStrings.TrimIdempotent` | js/controller.js:130 | Trimming an already trimmed title changes nothing. |
| `JsStrings.LeadingSpaceIsWhitespace` | js/model.js:25 | What `trim` drops in front is whitespace. |
| `JsStrings.TrailingStartIsWhitespace` | js/model.js:25 | What `trim` drops at the end is whitespace. |
| `JsStrings.UpperFirst` | js/controller.js:247 | `charAt(0).toUpperCase() + substr(1)`, with no contract of its own. Its meaning is stated by `UpperFirstShape`. |
| `JsStrings.UpperFirstShape` | js/controller.js:247 | The length and every character after the first are kept, and the first character is not a lower-case ASCII letter. |
| `JsStrings.Split` | js/controller.js:47 | `split('/')` yields at least one part, and no part holds a slash. |
| `JsStrings.JoinSplit` | js/controller.js:47 | Joining the parts with the separator gives the hash back. |
| `JsStrings.SplitWithout` | js/controller.js:47 | Text without the separator splits into itself alone. |
| `JsStrings.SplitAfterFirst` | js/controller.js:47 | Splitting `q/p` with no slash in `q` gives `q`, then the parts of `p`. |
| `JsStrings.IntToString` | js/template.js:72 | `String(id)`: a minus sign exactly for negative numbers, decimal digits otherwise. |
| `JsStrings.NatToString` | js/template.js:89 | The decimal text of a count: digits only, no leading zero. |
| `JsStrings.NatToStringRoundTrip` | js/template.js:89 | Reading the digits back gives the number. |

## Left out

- `js/view.js`, `js/helpers.js` and `js/app.js` are not part of this model. These are DOM querying, event binding and
  the page-load wiring. The view appears only as the log of render commands it receives, and the controller's event
  bindings (js/controller.js:16-39) are not modelled.
- `compiler/config.js` and `webpack.config.serve.js` are build configuration and are not part of this model.
- `localStorage` and JSON are not modelled. The persisted document is a `seq` field, parsed and re-serialised on
  every call in the JavaScript. Serialisation is assumed to round-trip records.
- `Date.now()` for new ids is a `freshId` parameter of `Store.Save`, `Model.Create` and `Controller.AddItem`.
- The `console.log` calls (js/controller.js:172, 215) are not modelled.
- Callbacks are not modelled. Each asynchronous-looking callback is a statement that runs before the call returns.
  Omitted callbacks (`callback || function() {}`) have no effect to model.
- `find` without a callback does nothing observable and is not modelled.
- `remove`, `drop` and `getCount` call their callback with no default (js/store.js:119, js/store.js:130,
  js/model.js:110). Called without one, they throw a `TypeError`; `remove` and `drop` throw after the document is
  written. The model's methods never fail.
- JavaScript numbers are doubles. `String(id)` switches to exponent notation from 1e21, and ids above 2^53 lose
  precision. `int` and `IntToString` do not capture this. The `Date.now()` ids the store hands out stay far below
  both bounds.
- The unused `read` at the start of `removeItem` (js/controller.js:157-160) is not modelled; it stores into a local
  variable nobody reads.
- Ids are integers only. `read` with a string id, and the loose `==` of `remove` between a string and a number, are
  not modelled. Query values of other types (`typeof` dispatch beyond function, number and object) are not modelled.
- The replacement text of `String.prototype.replace` is taken literally. JavaScript interprets `$&`, `` $` ``, `$'`
  and `$$` in it, so a title containing one of these renders differently in the JavaScript.
- JsStrings.UpperFirst: upper-cases ASCII letters only; JavaScript's full Unicode case mapping is not modelled.
- TodoStore.Store.Save: requires the creating path to be given both a `title` and a `completed` key. The only
  caller, `create`, always gives both; a partial record stored by other callers is not modelled.
- TodoModel.Model.Update: requires a non-zero id. With id `0` the JavaScript's `if (id)` would take the create path;
  stored ids are timestamps and are never `0`.
- TodoController.Controller.ToggleComplete: requires a non-zero id, for the same reason.
- TodoController.Controller.EditItemSave: requires a non-zero id when the title is not empty, for the same reason.
- TodoController.Controller.ToggleAll: requires every stored id to be non-zero, for the same reason.
- TodoController.Controller.AddItem: requires the fresh id to be positive and not yet stored, as a timestamp taken
  after every earlier one is.
- TodoController.Controller.EditItem: requires the id to be stored. The JavaScript reads `data[0].title`, which throws
  on an empty answer.
- TodoController.Controller.EditItemCancel: requires the id to be stored, for the same reason.
- TodoController.Controller.SetView: requires the page, upper-cased, to name a view. For any other page the JavaScript
  calls a `show` method that does not exist and throws.
- TodoController.Controller.RemoveItem: requires a route to be set. The same holds for the other methods that call
  `_filter`, which reads `_activeRoute` and fails before the first `setView`.
- TodoController.Controller.RemoveCompletedItems: states its exact final list only for id-unique stores. Otherwise
  the result is stated as the removal loop applied once per completed record.
- TodoController.Controller.ToggleAll: states "every record ends with the target completion" only for id-unique
  stores. Otherwise it is stated as the first-match update applied once per record.
