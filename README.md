# Route normaliser and navigation guards of the vue-router setup

This project models `src/packages/vue-router/index.ts` of the admin template and proves its properties. The file does two things.

1. **Route-tree normaliser.**
   - `initRoute` runs the nested function `setRoutes` over the children of the first declared route.
   - At every level, `setRoutes` does four things in order:
     - it sorts the siblings in place, in descending order of `meta.sort || 1`;
     - it takes a shallow copy of the level;
     - it walks the sorted level by index, pushing each truthy `meta.keepAliveName` onto one shared list;
     - it replaces the `children` of every node that has any with the normalised children.
   - The tree goes to the routes store and the names go to the global keep-alive list.
2. **Navigation guards.**
   - The module keeps one timer slot, `timer`, where 0 means no timer.
   - `beforeEach` does four things:
     - it builds the tree if the store is empty;
     - it sets the document title;
     - it stores a fresh handle for a 500 ms callback, which shows the loading indicator when `timer` is non-zero in a dev build;
     - it calls `next()`.
   - `afterEach` does three things:
     - it cancels and zeroes the slot if the slot is non-zero;
     - it hides the indicator;
     - it records a nav tag.

The model is organised by module:

- **`Routes`**: the route records, plus the comparator key `EffectiveSort`, which is `meta.sort || 1`.
- **`StableSort`**: the descending order.
  - `SortDesc` is a stable insertion sort that serves as the reference.
  - The module proves that *every* stable descending sort equals `SortDesc`.
  - So whichever stable algorithm `Array.prototype.sort` uses, the result is the same. ECMA-262 requires that sort to be stable since its 2019 edition (section 23.1.3.30 in the 2023 edition).
- **`RouteTree`**: `setRoutes` as a function on values (`SetRoutes`, `Process`), the preorder keep-alive list `KeepAliveNames`, and the lemmas about them.
- **`RouteBuilder`**: the code as it runs.
  - `SortInPlace` does an in-place insertion sort on the level's array.
  - `Builder` holds the shared accumulator.
  - `Builder.SetRoutes` sorts, copies, then runs the index loop. That loop is `VisitLevel` with body `VisitAt`, and it recurses into non-empty children.
  - Each method is proved equal to the `StableSort` and `RouteTree` functions.
- **`Navigation`**: the guards as a state machine over `GuardState`.
  - The steps are `Before`, `After`, `Reveal` (the timer callback) and `Advance` (the clock). `Run` executes event sequences.
  - `Valid` is the invariant of reachable states.
  - `NavigationController` is the module state as a class. `BeforeEach`, `AfterEach`, `Fire` and `Tick` each perform one `Step`, so what is proved about `Step` and `Run`, validity included, carries over to them. `SetTimeout`, `ClearTimeout` and `BuildIfEmpty` are not steps: they are the host timer calls and the build that `BeforeEach` and `AfterEach` make, and on their own they need not keep `Valid`.
  - Timers are a logical clock plus a map from live handles to deadlines. Handles come from a counter that starts at 1, so every handle is greater than zero, as section 8.6 of the HTML Living Standard requires.
- **`Examples`**: concrete tables. Among them are the `/dev` children of `src/config/router/dev.ts`, which have sort 9 and 8, with their titles as declared.

Three behaviours of the code are easy to misread; the model follows the code:

- **`sort: 0`.** The fallback is a falsy check (index.ts:23), so `sort: 0` ranks like a missing `sort`, that is as 1, and ties with it. A presence check (`sort ?? 1`) would rank it below every positive sort; the code does not. `Routes.EffectiveSortKey` and `Examples.ZeroSortCountsAsOne` state the code's behaviour.
- **Order of keep-alive names.** The loop (index.ts:26-29) runs after the sort, so the names come out in *sorted* preorder, parent before descendants, not in declaration order. `Examples.NamesFollowSortedOrder` shows a table where the two orders differ. Only the multiset of names is independent of the sort order (`RouteTree.SetRoutesKeepAlive`).
- **The declared input is changed.** The sort works in place (index.ts:23) and the copy is shallow (index.ts:25, 31), so the declared array ends up sorted and its nodes end up with normalised children; the builder is not a pure function of a separate copy. `RouteBuilder.InitRoute` and `Navigation.BeforeBuildsOnce` both state the mutation: the declared array becomes the normalised tree.

## Model

| member | source | states |
|---|---|---|
| Routes.EffectiveSort | src/packages/vue-router/index.ts:23 | the comparator key `meta?.sort \|\| 1`: the declared sort when it is present and non-zero, otherwise 1 |
| Routes.EffectiveSortKey | src/packages/vue-router/index.ts:23 | the key is never 0; it is either 1 or the declared sort; `sort: 0` gets the same key as a missing sort |
| Routes.HasKeepAlive | src/packages/vue-router/index.ts:27 | `meta?.keepAliveName` is truthy: present and not the empty string |
| Routes.OwnKeepAlive | src/packages/vue-router/index.ts:27-28 | the node's own `keepAliveName` when it is truthy, otherwise nothing |
| Routes.HasChildren | src/packages/vue-router/index.ts:30 | the children list is present and non-empty; absent children are the empty sequence |
| Routes.TitleOf | src/packages/vue-router/index.ts:47 | the title is `meta.title` when present, and otherwise the empty string |
| StableSort.Insert | src/packages/vue-router/index.ts:23 | puts a route after every sibling whose key is at least its own; the result is one longer |
| StableSort.SortDesc | src/packages/vue-router/index.ts:23 | the reference stable descending insertion sort; it returns a level of the same length |
| StableSort.SortDescIsStableSort | src/packages/vue-router/index.ts:23 | the reference sort orders a level by non-increasing `meta.sort \|\| 1` and keeps, for every key, the input order of the siblings with that key |
| StableSort.SortDescPerm | src/packages/vue-router/index.ts:23 | the sorted level holds exactly the input siblings, as a multiset |
| StableSort.StableSortUnique | src/packages/vue-router/index.ts:23 | two stable descending sorts of the same level are equal |
| StableSort.StableSortIsSortDesc | src/packages/vue-router/index.ts:23 | any stable descending sort, such as the engine's `Array.prototype.sort`, yields the reference order |
| StableSort.SortDescOfSorted | src/packages/vue-router/index.ts:23 | a level that is already in descending order is left as it is |
| StableSort.InsertSorted | src/packages/vue-router/index.ts:23 | inserting one route behind the siblings of key at least its own keeps a level sorted |
| StableSort.InsertWithKey | src/packages/vue-router/index.ts:23 | inserting a route appends it to the routes of its key and leaves the other keys' subsequences alone |
| StableSort.SortedSameKeysEqual | src/packages/vue-router/index.ts:23 | two sorted levels with the same subsequence for every key are equal |
| RouteTree.SetRoutes | src/packages/vue-router/index.ts:21-35 | one output node per input sibling |
| RouteTree.Process | src/packages/vue-router/index.ts:30-32 | a node with non-empty children gets its children normalised; any other node is returned as it is (stated by `RouteTree.SetRoutesShape`) |
| RouteTree.KeepAliveNames | src/packages/vue-router/index.ts:26-29 | the names the loop pushes for a level: each sibling's names in order, left to right |
| RouteTree.NodeKeepAlive | src/packages/vue-router/index.ts:27-31 | a node's own truthy name, then the names of its subtree, which the recursive call pushes |
| RouteTree.KeepAliveTruthy | src/packages/vue-router/index.ts:27-28 | no collected name is the empty string |
| RouteTree.NodeKeepAliveTruthy | src/packages/vue-router/index.ts:27-28 | no name collected from a subtree is the empty string |
| RouteTree.SetRoutesShape | src/packages/vue-router/index.ts:25-33 | position i of the result is position i of the sorted level with path, name and meta unchanged; its children are the normalised children when it had some, and otherwise the node is untouched |
| RouteTree.SetRoutesIsProcessedStableSort | src/packages/vue-router/index.ts:23-33 | for every stable descending sort of the level, the result is that sort with each node processed |
| RouteTree.SetRoutesSorted | src/packages/vue-router/index.ts:23 | the top level of the result is in non-increasing key order |
| RouteTree.SetRoutesNormalized | src/packages/vue-router/index.ts:21-35 | every level of the returned tree, at any depth, is in non-increasing key order |
| RouteTree.ProcessNormalized | src/packages/vue-router/index.ts:30-32 | a processed node's subtree is sorted at every level |
| RouteTree.NormalizedFixpoint | src/packages/vue-router/index.ts:21-35 | a tree sorted at every level is returned unchanged |
| RouteTree.ProcessFixpoint | src/packages/vue-router/index.ts:30-32 | a node whose subtree is sorted at every level is returned unchanged |
| RouteTree.SetRoutesIdempotent | src/packages/vue-router/index.ts:21-35 | normalising twice gives the same tree as normalising once |
| RouteTree.SetRoutesNodeCount | src/packages/vue-router/index.ts:30-32 | the total number of nodes is preserved |
| RouteTree.ProcessNodeSize | src/packages/vue-router/index.ts:30-32 | processing a node preserves the size of its subtree |
| RouteTree.SetRoutesHeight | src/packages/vue-router/index.ts:30-32 | the depth of the tree is preserved |
| RouteTree.ProcessNodeHeight | src/packages/vue-router/index.ts:30-32 | processing a node preserves the depth of its subtree |
| RouteTree.ChildHeight | src/packages/vue-router/index.ts:30-31 | the children a recursive call works on are strictly shallower than their level, so the recursion ends |
| RouteTree.SetRoutesKeepAlive | src/packages/vue-router/index.ts:26-29 | the collected names are, as a multiset, the truthy names of the declared tree, so sorting only reorders them |
| RouteTree.ProcessKeepAlive | src/packages/vue-router/index.ts:27-32 | processing a node keeps the multiset of names in its subtree |
| RouteTree.KeepAliveCount | src/packages/vue-router/index.ts:27-28 | one name per node with a non-empty `keepAliveName`, with no de-duplication |
| RouteTree.NodeKeepAliveCount | src/packages/vue-router/index.ts:27-28 | one name per named node of a subtree |
| RouteTree.SetRoutesKeepAliveCount | src/packages/vue-router/index.ts:20-29 | the list built for a declared tree has as many entries as the tree has named nodes |
| RouteBuilder.InsertInto | src/packages/vue-router/index.ts:23 | one pass of the in-place insertion sort: the prefix becomes the reference insertion and the rest of the array is unchanged |
| RouteBuilder.SortInPlace | src/packages/vue-router/index.ts:23 | the array is sorted in place into the reference stable order |
| RouteBuilder.KeepAlivePrefixStep | src/packages/vue-router/index.ts:26-32 | the loop's list grows by each visited node's own name followed by its subtree's names |
| RouteBuilder.Builder.constructor | src/packages/vue-router/index.ts:20 | the accumulator starts empty |
| RouteBuilder.Builder.SetRoutes | src/packages/vue-router/index.ts:21-35 | the caller's array ends up holding the normalised level; the returned copy holds the same nodes; the accumulator grows by the preorder names of the normalised level |
| RouteBuilder.Builder.VisitLevel | src/packages/vue-router/index.ts:26-33 | the index loop processes every position of the sorted level in order, writes each node to both arrays and appends the names of that position's subtree |
| RouteBuilder.Builder.VisitAt | src/packages/vue-router/index.ts:27-32 | one loop body: the node's truthy name is pushed, then its non-empty children are normalised; only this position of the two arrays changes |
| RouteBuilder.InitRoute | src/packages/vue-router/index.ts:19-39 | the published tree is the normalised declared tree, the declared array is left normalised, and the published names are that tree's preorder keep-alive names |
| Navigation.Valid | src/packages/vue-router/index.ts:13-14 | the invariant of reachable guard states: handles are non-zero and below the counter, deadlines are at most 500 ahead, and the store is empty or the normalised declared tree with its names |
| Navigation.Rebuild | src/packages/vue-router/index.ts:43-45 | a non-empty store is left alone; an empty one is built, leaving the store equal to the declared array, normalised, with one node per declared child |
| Navigation.Before | src/packages/vue-router/index.ts:42-60 | `beforeEach`: the slot holds the counter's handle, which goes live with deadline now + 500; the title is set; `next()` is counted; the indicator, tags and clock are unchanged |
| Navigation.After | src/packages/vue-router/index.ts:62-75 | `afterEach`: the slot is 0, the slot's handle is no longer live, the indicator is hidden and one tag for `to` is appended |
| Navigation.Due | src/packages/vue-router/index.ts:50-57 | the host may run a timer's callback once its handle is live and its deadline has been reached |
| Navigation.Reveal | src/packages/vue-router/index.ts:50-57 | the callback of a due timer: its handle is no longer live, and the slot and clock are unchanged |
| Navigation.Advance | src/packages/vue-router/index.ts:50-57 | the clock moves on; timers and the slot are unchanged |
| Navigation.Step | src/packages/vue-router/index.ts:42-75 | one event never changes the dev flag, never moves the clock or the handle counter back, and makes at most the counter's next handle live |
| Navigation.Run | src/packages/vue-router/index.ts:42-75 | over any run, the clock and the handle counter never go back, and no handle that existed before the run becomes live again |
| Navigation.Init | src/packages/vue-router/index.ts:13-14 | the initial state has an empty store, timer 0 and no live timers, and satisfies the invariant |
| Navigation.BeforeValid | src/packages/vue-router/index.ts:42-60 | `beforeEach` keeps handles non-zero and below the counter, deadlines within 500 of now, and the store normalised with its names |
| Navigation.StepValid | src/packages/vue-router/index.ts:42-75 | every guard, timer callback and clock step keeps the invariant |
| Navigation.RunValid | src/packages/vue-router/index.ts:42-75 | every event sequence keeps the invariant |
| Navigation.BeforeArmsTimer | src/packages/vue-router/index.ts:47-59 | `beforeEach` stores a non-zero handle that was not live before, with deadline now + 500, leaves other timers alone, sets the title to `meta.title` or "" and calls `next()` once |
| Navigation.BeforeBuildsOnce | src/packages/vue-router/index.ts:43-45 | the tree is built only when the store is empty, and then the store and the declared array hold the normalised tree and the keep-alive list holds its names |
| Navigation.AfterCancels | src/packages/vue-router/index.ts:66-74 | `afterEach` cancels exactly the handle in the slot (when non-zero), zeroes the slot, hides the indicator and appends one nav tag for `to` |
| Navigation.AfterIdempotentOnTimers | src/packages/vue-router/index.ts:66-73 | a second `afterEach` cancels nothing more and the indicator stays hidden |
| Navigation.RevealGate | src/packages/vue-router/index.ts:54-56 | the callback removes its handle and turns the indicator on exactly when the slot is non-zero in a dev build |
| Navigation.ProductionNeverReveals | src/packages/vue-router/index.ts:51-56 | without the dev flag, no sequence of events ever shows the indicator |
| Navigation.CancelledStaysCancelled | src/packages/vue-router/index.ts:70 | a handle that was cancelled or has fired never becomes live again |
| Navigation.StoreWrittenOnce | src/packages/vue-router/index.ts:43-45 | once the store is non-empty, no later event changes the store, the keep-alive list or the declared routes |
| Navigation.StepCounts | src/packages/vue-router/index.ts:59-74 | one `next()` per `beforeEach`, one nav tag per `afterEach` |
| Navigation.RunNextCalls | src/packages/vue-router/index.ts:59 | `next()` is called exactly once per `beforeEach` in any run |
| Navigation.RunNavTags | src/packages/vue-router/index.ts:74 | the nav tags are the targets of the run's `afterEach` calls, in order |
| Navigation.QuietKeepsTimer | src/packages/vue-router/index.ts:50-57 | while no guard runs and the clock is before a timer's deadline, that timer stays live and the slot is unchanged; if it is the only live timer, nothing fires |
| Navigation.FlashSuppressed | src/packages/vue-router/index.ts:50-71 | a navigation that ends within 500 units never lets its callback become due: `afterEach` finds the handle live and cancels it, and the indicator is not shown in between when no older timer was live |
| Navigation.FlashNeverFires | src/packages/vue-router/index.ts:66-71 | the cancelled handle of such a navigation stays cancelled for the rest of any run |
| Navigation.OverwriteRace | src/packages/vue-router/index.ts:50-71 | for `before; before; after`, only the second handle is cancelled; the first stays live; firing it with the slot at 0 reveals nothing; firing it during a third navigation reveals the indicator exactly in a dev build |
| Navigation.NavigationController.constructor | src/packages/vue-router/index.ts:13-14 | the object starts in the initial state over the declared children array |
| Navigation.NavigationController.SetTimeout | src/packages/vue-router/index.ts:50-57 | a fresh handle, the counter's value, goes live with deadline now + delay |
| Navigation.NavigationController.ClearTimeout | src/packages/vue-router/index.ts:70 | the handle is no longer live and nothing else changes |
| Navigation.NavigationController.BuildIfEmpty | src/packages/vue-router/index.ts:43-45 | the in-place build runs exactly when the store is empty and leaves the state the pure `Rebuild` describes |
| Navigation.NavigationController.BeforeEach | src/packages/vue-router/index.ts:42-60 | the object's new state is `Before` of its old state |
| Navigation.NavigationController.AfterEach | src/packages/vue-router/index.ts:62-75 | the object's new state is `After` of its old state |
| Navigation.NavigationController.Fire | src/packages/vue-router/index.ts:50-57 | running a due callback changes the state as `Reveal` does |
| Navigation.NavigationController.Tick | src/packages/vue-router/index.ts:57 | the logical clock advances and nothing else changes |
| Examples.EmptyInput | src/packages/vue-router/index.ts:20-35 | no declared routes give an empty tree and an empty name list |
| Examples.DevTableUnchanged | src/config/router/dev.ts:4-35 | the `/dev` table, whose children have sort 9 then 8, is already normalised and has no keep-alive names |
| Examples.StableOnTies | src/packages/vue-router/index.ts:23 | sorts [1, 5, 1] to [5, first 1, second 1] |
| Examples.ZeroSortCountsAsOne | src/packages/vue-router/index.ts:23 | `sort: 0` ties with a missing sort and keeps its input order; a negative sort ranks last |
| Examples.NamesFollowSortedOrder | src/packages/vue-router/index.ts:26-31 | names appear in sorted preorder, parent before children, with a repeated name kept twice and an empty name skipped |

## Left out

- `createRouter`, `createWebHistory` and the `routes` import (index.ts:2-3, 8-11) belong to the host routing engine. The declared children are an input array instead.
- `routes[0].children` (index.ts:36): `InitRoute` and the controller take the children array directly. The case where the first route has no `children` is not modelled; there the source applies `setRoutes` to `undefined` and throws.
- Absent `children` and an empty list are one case, the empty sequence. Both are left untouched (index.ts:30).
- An absent `meta` is a `meta` whose keys are all absent. Only `title`, `sort` and `keepAliveName` are kept in a route.
- The Pinia stores (`SET_ROUTES`, `CREATE_NAVTAG`, `keepaliveList`) are plain fields. The library's reactivity is not modelled. The model assumes the guards are their only writers: code elsewhere that cleared the routes store would cause a rebuild, which `Navigation.StoreWrittenOnce` does not cover. `navTags` records the `CREATE_NAVTAG(to)` calls, not the contents of the nav-tag store, whose code is not part of this model; any de-duplication or persistence the store does is not modelled, so `Navigation.RunNavTags` is a statement about calls.
- Node object identity: the copy and the caller's array share node objects. The model writes the updated node value into both arrays, which is what either array shows afterwards. Other aliases of a node object outside the two arrays are not modelled.
- The DOM is reduced to a `title` string and an `indicatorVisible` flag.
- `console.warn` diagnostics are left out, because they only produce log output. `start` is kept as a field that is never read.
- `Date.getTime()` is replaced by the logical clock `now`.
- `setTimeout` and `clearTimeout` become a counter of handles, a map from live handles to deadlines, and an explicit `Timeout` event.
  - The host's choice of handle is modelled as the next integer, so a handle value stands for exactly one callback. Section 8.6 of the HTML Living Standard lets a host hand out the id of a cleared or fired timer again; that reuse is not modelled, and `Navigation.CancelledStaysCancelled` and `Navigation.FlashNeverFires` speak of handle values under this choice.
  - The host runs a callback at some time after its deadline; nothing forces it to run.
- `env.dev()` is a boolean fixed for the whole run.
- The `from` argument of `beforeEach` is never read by the source and is left out.
- The commented-out `hidden` filter (index.ts:24) is not active code.
- `sort` is an integer. Non-integer, `NaN` or string values of `meta.sort`, and the floating-point subtraction in the comparator, are not modelled.
- `for…in` also visits inherited enumerable properties of an array. The model assumes there are none, so the loop visits the indices in order.
