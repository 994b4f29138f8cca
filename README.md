# Live-update reconciliation of a tournament scoreboard

The scoreboard keeps three lists in the browser: matches, the games of each
match, and players. It keeps them in step with the server by folding in
mutation responses (create or delete a game or player) and push
notifications (a match was renamed, a game of a match changed). Every list
is keyed by `id`, and every fold into a list is one of three operations:

- **upsert**: merge the payload into the entity with its id, or append the payload;
- **remove by id**: splice the entity out, or do nothing;
- **insert if absent**: append the payload unless its id is already there.

Two more kinds of message do not touch a list. The updateSide mutation response is
written into a game's two side objects (`Scores.ApplyResult`,
`Scores.UpdateSide`). The side stream's push notification is never written
into anything: it is only chosen for display.

A game has two sides, yellow and black. An updateSide result overwrites the
points of whichever side has the returned id. The score buttons request the
points plus or minus one, read from the side the game holds. A side on
screen shows the pushed value only when that value concerns the side, so
the screen and the buttons can read different totals (see Findings).

The model has these modules:

- `Records` (records.dfy): entities as an `id` plus a map of other fields.
  It defines the shallow merge `Object.assign` and the lookup `indexOf` with
  its `-1` convention.
- `Reconcile` (reconcile.dfy): the three operations as functions on list
  values, with their lemmas: append and merge positions, kept fields, unique
  ids, idempotence, and a stream of notifications.
- `Collections` (collections.dfy): the lists as the components really hold
  them. An `EntityList` object holds a sequence of `Entity` objects. The
  methods update it in place and are proved to yield exactly the `Reconcile`
  values. A merge writes into the existing object, so the list keeps the same
  references. An append pushes the payload object itself.
- `Scores` (scores.dfy): `Side` and `Game` objects, the in-place side update,
  the score-control arithmetic, and the choice of the displayed side.
- `PlayersRender` (players.dfy): one render of the players list. It shows the
  problem listed under Findings: held mutation results are folded in again on
  every render. Reordering the two folds is shown not to be enough. The
  intended handling folds each confirmed create or delete result once, on
  arrival, and is modelled as a fold over a sequence of events.
- `Scenarios` (scenarios.dfy): worked examples, including a client that holds
  a reference to a match and sees the merged fields.

The code runs while components render, so the same result or notification
can be folded in again on every render. For this reason idempotence is
proved for every operation.

## Model

| member | source | states |
|---|---|---|
| `Records.Merge` | src/index.js:175 | the merged entity has the payload's value for every field the payload carries, keeps every other field of the target, and has no other fields |
| `Records.MergeIdempotent` | src/index.js:338 | merging the same payload a second time changes nothing |
| `Records.IndexOf` | src/index.js:197 | the result is -1 exactly when the id is absent; otherwise it is a position holding the id with no earlier occurrence |
| `Records.IndexOfFirst` | src/index.js:367 | the first position that holds the id is the one `indexOf` returns |
| `Records.IndexOfDistinct` | src/index.js:197 | when ids are unique, `indexOf` returns the one position that holds the id |
| `Collections.Filter` | src/index.js:171 | the filter by id is empty exactly when the id is absent; its head is the entity at the `indexOf` position; it holds only entities of the list with that id |
| `Collections.FilterDistinct` | src/index.js:332 | when ids are unique, the filter finds at most one entity |
| `Reconcile.Upsert` | src/index.js:169-177 | defines upsert (also used at 330-340): merge into the first entity with the payload's id, else append; the id is present afterwards, and the length grows by one exactly when the id was absent |
| `Reconcile.RemoveById` | src/index.js:194-200 | defines remove by id (also used at 364-371): splice out the entity at the `indexOf` position when it is `> -1`; the length drops by one exactly when the id was present |
| `Reconcile.InsertIfAbsent` | src/index.js:262-268 | defines insert-if-absent (also used at 387-392): append only when the filter by id is empty; the id is present afterwards, and the length grows by one exactly when it was absent |
| `Reconcile.UpsertAll` | src/index.js:330-340 | defines a stream of notifications, one upsert per message in arrival order; the list never shrinks and grows by at most one per message |
| `Reconcile.UpsertAbsent` | src/index.js:171-174 | upserting an absent id appends the payload at the tail: the length grows by one and earlier elements keep their order |
| `Reconcile.UpsertPresent` | src/index.js:175 | upserting an id first found at position k keeps the length and the position; it sets the payload's fields, keeps the fields the payload lacks, and leaves every other element untouched |
| `Reconcile.UpsertKeepsUnique` | src/index.js:169-177 | upsert keeps ids unique; afterwards exactly one entity has the payload's id, and the id list is unchanged or extended by that id |
| `Reconcile.UpsertIdempotent` | src/index.js:330-340 | applying the same payload twice gives the same list as applying it once |
| `Reconcile.RemovePresent` | src/index.js:197-199 | removing a present id deletes exactly that element, keeps the order of the rest, and leaves the id absent |
| `Reconcile.RemoveAbsent` | src/index.js:367-370 | removing an absent id is a no-op |
| `Reconcile.RemoveKeepsUnique` | src/index.js:194-200 | removal keeps ids unique |
| `Reconcile.RemoveIdempotent` | src/index.js:364-371 | when ids are unique, removing twice equals removing once |
| `Reconcile.InsertIfAbsentKeepsUnique` | src/index.js:266-267 | insert-if-absent never creates a duplicate; afterwards the id is present; an already present id leaves the list unchanged |
| `Reconcile.InsertIfAbsentIdempotent` | src/index.js:390-391 | insert-if-absent applied twice equals applied once |
| `Reconcile.UpsertAllDistinct` | src/index.js:330-340 | notifications whose ids are new and pairwise distinct are appended in arrival order |
| `Reconcile.UpsertAllCount` | src/index.js:333-335 | from an empty list, N notifications with N distinct ids yield exactly N entities |
| `Reconcile.FirstSeen` | src/index.js:330-340 | defines the ids in order of first arrival: the held ids, then each pushed id not seen before; the held ids stay a prefix |
| `Reconcile.UpsertAllFirstSeen` | src/index.js:330-340 | any stream, repeated ids included, leaves exactly one entity per id: the held ones in place, then the new ids in the order they were first pushed |
| `Scenarios.RepeatedPushesFirstSeen` | src/index.js:330-340 | pushes for matches 1, 2 and 1 again into an empty list leave two matches, 1 then 2 |
| `Reconcile.UpsertAllKeepsUnique` | src/index.js:145-177 | any stream of notifications keeps ids unique, and the ids present are exactly the old ids and those of the notifications |
| `Collections.EntityList.Upsert` | src/index.js:330-340 | the list's value becomes the upsert of the old value; a merge keeps the same entity references; an append pushes the payload object itself; ids stay unique |
| `Collections.EntityList.RemoveById` | src/index.js:194-200 | the list's value becomes the removal of the old value, splicing out exactly the reference at the `indexOf` position; ids stay unique |
| `Collections.EntityList.InsertIfAbsent` | src/index.js:387-392 | the list's value becomes the insert-if-absent of the old value; the payload object is pushed only when its id is absent; ids stay unique |
| `Scores.ApplyResult` | src/index.js:107-118 | defines the effect of an updateSide result on the two sides; side ids never change, and a result matching neither side changes nothing |
| `Scores.ApplyResultSetsMatchingSides` | src/index.js:108-117 | yellow takes the returned points if and only if its id matches, and likewise for black, independently; the side ids never change |
| `Scores.ApplyResultIdempotent` | src/index.js:107-118 | applying the same updateSide result again changes nothing |
| `Scores.UpdateSide` | src/index.js:110-117 | the side objects' points become the result of applying the returned `{id, points}`; the game object itself is unchanged |
| `Scores.ScoreControl` | src/index.js:128-134 | a button requests the chosen side's id (Top is yellow, Bot is black); `+` requests more points and `-` fewer, with no bound in the client's arithmetic (the 32-bit range the server accepts is under Left out) |
| `Scores.ScoreControlRoundTrip` | src/index.js:128-129 | once the server echoes the request, the chosen side has moved by exactly one point and the other side is untouched |
| `Scores.ScoreControlInverse` | src/index.js:133-134 | `-` then `+`, each echoed, restores the sides |
| `Scores.NegativeTotalsReachable` | src/index.js:129 | `-` at zero points leads to -1: there is no floor |
| `Scores.Displayed` | src/index.js:75 | the displayed side always has the held side's id, and it is either the pushed side or the held side |
| `Scores.DisplayedChoosesPushed` | src/index.js:75 | the pushed side is displayed exactly when loading is over and its id equals the held side's id |
| `Scores.PlusBelowShown` | src/index.js:128 | when the screen shows a pushed total two above the held one, `+` requests fewer points than the screen shows, and once the request is echoed the screen shows one point less than before the press |
| `Scores.ShownScoreControl` | src/index.js:128-134 | defines the request computed from the side on screen; it carries the chosen side's id |
| `Scores.ShownScoreControlEcho` | src/index.js:75 | with the request computed from the side on screen, once the server echoes it, the held side and the screen both show the total displayed at the press plus or minus one, whatever had been pushed |
| `Scores.ShownScoreControlAgreesWhenCurrent` | src/index.js:128-134 | without a newer pushed value for that side, both computations send the same request |
| `PlayersRender.RenderAsWritten` | src/index.js:364-392 | defines one render of the players list as written, the delete result before the create result; a held create result leaves its id on the list whatever was deleted |
| `PlayersRender.Render` | src/index.js:364-392 | defines the render with the two folds reordered, the create result before the delete result; the list grows by at most one, and a created id is listed when nothing was deleted |
| `PlayersRender.DeletedPlayerReappears` | src/index.js:364-392 | in the render as written, after a player is created and then deleted, the list is the removal with that player appended again at the tail, one longer than the list was exactly when the player had not been listed |
| `PlayersRender.RenderReflectsResults` | src/index.js:364-392 | with the create result applied before the delete result, the deletion still held (the most recent one) is absent, a created id that was not deleted is present, and ids stay unique |
| `PlayersRender.RenderAgreesOtherwise` | src/index.js:364-392 | the two orders give the same list whenever the deleted id differs from the created one |
| `PlayersRender.ReorderedRenderRelistsEarlierDeletion` | src/index.js:364-392 | with the reordered folds, a held create result for p re-lists p, at the tail, after another player's deletion, so an earlier confirmed deletion of p is undone |
| `PlayersRender.FoldOnce` | src/index.js:364-392 | defines folding one confirmed result once: a create result inserts if absent (lines 387-392), a delete result removes by id (lines 364-371); a created id is listed afterwards |
| `PlayersRender.FoldAll` | src/index.js:364-392 | defines folding confirmed results in arrival order; the list grows by at most one per result |
| `PlayersRender.FoldAllAppend` | src/index.js:364-392 | folding two runs of results one after the other is folding their concatenation |
| `PlayersRender.FoldAllKeepsUnique` | src/index.js:364-392 | any sequence of create and delete results keeps player ids unique |
| `PlayersRender.AbsentStaysAbsent` | src/index.js:364-392 | an absent id stays absent while no creation of it arrives |
| `PlayersRender.PresentStaysPresent` | src/index.js:364-392 | a listed id stays listed while no deletion of it arrives |
| `PlayersRender.DeletionStaysUntilCreated` | src/index.js:364-392 | with each result folded once, a player whose deletion was confirmed is not listed after any later results that do not create that id again |
| `PlayersRender.CreationStaysUntilDeleted` | src/index.js:364-392 | with each result folded once, a player whose creation was confirmed is listed after any later results that do not delete that id |
| `Scenarios.FirstPushAppends` | src/index.js:333-335 | a push `{id: 1, name: A}` into an empty match list yields that one match |
| `Scenarios.RenameKeepsRosters` | src/index.js:336-338 | a match push `{id, name}` renames the match in its slot and keeps its `top`, `bottom` and `games` |
| `Scenarios.RenameSingle` | src/index.js:336-338 | the same push into a list holding only that match gives the renamed match with its rosters and games (used by the reference client `Scenarios.ReferenceSeesMerge`, which checks that the object already held shows the new name) |
| `Scenarios.RemoveTwice` | src/index.js:367-370 | removing id 1 from `[{id:1},{id:2}]` leaves `[{id:2}]`, and a second removal changes nothing |
| `Scenarios.YellowUpdate` | src/index.js:112-117 | a result for side 5 with 11 points, where side 5 is yellow, sets yellow to 11 and leaves black as it was |

## Left out

- Apollo client construction, the HTTP/WebSocket link split and the cache (src/index.js:16-46): transport configuration in external libraries.
- The `useQuery`, `useSubscription` and `useMutation` hooks and the GraphQL documents: external library calls. Only what happens to the data they return is modelled. Each result or notification is a parameter of the operation.
- Rendering, CSS classes, form state, the input handlers and `ReactDOM.render`: user interface.
- `addPlayerMatch` (src/index.js:223-233): its result is never folded into a list.
- Console logging and the loading and error strings (src/index.js:72-73, 165-167, 326-328, 450-451): output only.
- `Reconcile.InsertIfAbsent`, `Collections.EntityList.InsertIfAbsent`, and the other operations whose payload comes from a mutation: the model takes a non-null result as a parameter. In the source, a mutation error leaves `result` null. The update and delete handlers then throw on `.id` (src/index.js:112, 197, 367). The create handlers (src/index.js:264-267, 389-391) call `filter` with a callback that reads `.id` of the null result. On a non-empty list that callback throws. On an empty list `filter` never calls it, so `push(null)` appends `null`, and a later render throws reading its `.id` (src/index.js:171, 204, 367, 398). None of this is modelled.
- A subscription error leaves `data` undefined while `loading` is false. The source then throws reading through it (src/index.js:75, 170, 331). The model takes the pushed message as a parameter.
- `data.matches.reverse()` (src/index.js:455): an in-place reordering done for presentation.
- The order in which separate notification streams are delivered, and the asynchronous delivery itself: the code does not coordinate concurrency at all.
- `Collections.Entity`: values of fields are opaque (type parameter `V`). The model does not follow the references that a game's `yellow` and `black` fields hold. When a game push merges into a game, those fields are overwritten by the payload's side objects, and the model does not relate that to the `Scores.Game` objects.
- `Scores.ScoreControl`: points are unbounded integers in the model. In the source, the request variable is declared `Int!` (src/index.js:93), and a GraphQL `Int` is a signed 32-bit integer. JavaScript computes `points ± 1` (src/index.js:128-134) on doubles, so `+` at 2147483647 and `-` at -2147483648 send a value the server must reject, and no result is folded in. The model's lack of a bound describes only the client's arithmetic.
- `PlayersRender.Render`: reordering the two folds is not a fix. While a create result is held, any later deletion of another player re-lists the player whose earlier deletion was confirmed, under either order (`PlayersRender.ReorderedRenderRelistsEarlierDeletion`). The corrected behaviour is the fold-once model, `PlayersRender.FoldAll`.
- `Reconcile.RemoveIdempotent`: holds only under the unique-id invariant. With duplicate ids a second removal takes out the next duplicate, as `splice` at the new `indexOf` would.

## Findings

| source | as written | input that shows it | evidently intended | confidence | as-written member | corrected member |
|---|---|---|---|---|---|---|
| src/index.js:128-134 | the score buttons compute the request from the side the game holds, while the screen shows the side stream's latest value (line 75) | the game holds yellow at 3 points; another viewer's update pushes yellow at 5, so 5 is shown; `+` requests 4 | `+` requests one point more than the total shown | not executed; relies on the side stream delivering other viewers' updates without updating the held side | `Scores.PlusBelowShown` | `Scores.ShownScoreControlEcho` |
| src/index.js:364-392 | each render of the players list first applies the held deletePlayer result, then the held createPlayer result | createPlayer returns `{id: "p1"}`, then deletePlayer returns `{id: "p1"}`; the next render removes p1 and then appends it again. With the folds reordered, a later deletePlayer result `{id: "p2"}` still re-lists p1 | a player whose deletion was confirmed stays off the list until it is created again; each result is folded in once, on arrival | not executed; relies on the hooks keeping the last result of each mutation across renders | `PlayersRender.DeletedPlayerReappears` | `PlayersRender.DeletionStaysUntilCreated` |
