# Chain logic of reccoon-study-todolist, in Dafny

The to-do application stores its projects, tasks and statuses as doubly linked
lists: each record lives in an id-keyed map and carries the nullable ids of its
neighbours. This project models the code that builds, walks, repairs and
renumbers those chains, the two validators of the bulk-operation request body,
the dispatcher that turns bulk operations into per-collection write lists, and
the email syntax check of the login form. It also proves what that code
guarantees.

| file | models |
|---|---|
| `Wrappers.dfy` | `Option` and `Result` |
| `JsValue.dfy` | JSON/JavaScript values, JavaScript truthiness and `typeof` |
| `Chain.dfy` | the `prev`/`next` record shape, `chain[id]` lookup, "links agree with positions" |
| `Chainfy.dfy` | `web-client/src/data/Chainfy.py`: the two linking loops (module `Chainfy`) and their guarantees (module `ChainfyProperties`) |
| `ChainfyBridge.dfy` | the project output of Chainfy, renamed to `prev`/`next`, read back by `sortChain` |
| `SortChain.dfy` | `sortChain` of `web-client/src/utils/utils.ts`, including the count warning |
| `SortChainLegacy.dfy` | the older `sortChain` of `web-client/src/components/utils.ts` |
| `Actions.dfy` | `removeItemFromList` of `web-client/src/utils/actions.ts` |
| `Todolist.dfy` | `addTask`, `updateTask` and `deleteTask` of `web-client/src/components/Todolist.tsx` |
| `ValidatePayload.dfy` | `validateBulkPayloadStructure` of `server/middlewares/validatePayload.js` |
| `ValidatePayloadLegacy.dfy` | the older `validateBulkPayloadStructure` of `server/routes/validatePayload.js` |
| `Operations.dfy` | the `ops.forEach` dispatch and the 204/500 answer of `server/routes/operations.js` |
| `Login.dfy` | `isValidEmail` of `web-client/src/components/Login.tsx` |

Modelling choices:

- **Mappings.** A JavaScript object or Python dict that is iterated in key
  order is a sequence of `(key, record)` pairs in that order.
- **Chainfy's loops.** They are methods that update that sequence in place.
  Each is proved equal to a recursive specification function, and the lemmas
  are stated about that function.
- **sortChain.** While the walk from the head ends, both copies are `while`
  loops proved equal to a fuel-bounded walk function.
- **removeItemFromList.** It is a method of a class whose fields are the array
  and an appended log of the `removeMethod`/`updateMethod` calls.
- **The Todolist updaters.** They are methods of a class holding the task
  array. The `filter`/`sort`/`forEach` renumbering is specified by a stable
  sort of positions.
- **The validators and `isValidEmail`.** They are pure functions.
- **Dispatch.** It is a loop over the ops that fills four lists. An error it
  throws is a `Result` error.

What the linker does when it is run a second time:

- Over its own non-empty output it always raises `KeyError('order')`, because
  the first run removed every `order` and the script reads it again.
  `ChainfyProperties.TransformNotRerunnable` proves this.
- Run detection alone is stable. The output keeps every `status` and
  `project`, so the runs found in the output are the runs of the input, and
  the links the output carries are the ones computed from it.
  `ChainfyProperties.RunsDetectedAgain` proves this.

`removeItemFromList` on an item that is not in the list removes the last
element, as the code does; `Actions.MissingItemDropsLast` proves this.

## Model

| member | source | states |
|---|---|---|
| Chain.Lookup | web-client/src/utils/utils.ts:16 | `chain[id]` for the chain's own keys: it finds a record exactly when some entry has that id, and it is the record stored with that id (inherited names are not modelled) |
| Chainfy.Chainfy | web-client/src/data/Chainfy.py:7-46 | the script gives exactly `Transform`: the project pass, then the task pass, with the first KeyError aborting it |
| Chainfy.ChainProjects | web-client/src/data/Chainfy.py:10-15 | the in-place project loop gives the linked projects of `LinkProjects`, or its KeyError |
| Chainfy.ChainTasks | web-client/src/data/Chainfy.py:19-46 | the in-place task loop gives `LinkTasks`, although its left-neighbour guard reads the record the previous round already rewrote |
| Chainfy.DifferKeepsRunFields | web-client/src/data/Chainfy.py:23 | comparing with a neighbour that kept its `status` and `project` gives the same result as comparing with the original |
| Chainfy.LinkProjectsStaysFailed | web-client/src/data/Chainfy.py:10-15 | once the project at position m-1 raises, every longer pass raises the same KeyError |
| Chainfy.LinkTasksStaysFailed | web-client/src/data/Chainfy.py:22-46 | once the task at position m-1 raises, every longer pass raises the same KeyError |
| ChainfyProperties.DifferOk | web-client/src/data/Chainfy.py:23-24 | the neighbour test succeeds exactly when the fields it reads are present (`status` of both, then `project` of both when the statuses agree), and is true exactly when the two are not in one run; otherwise it raises on `status` or `project` |
| ChainfyProperties.UpdateAndPopShape | web-client/src/data/Chainfy.py:11-15 | `update` with links that do not include `order`, then `pop('order')`, succeeds and leaves the record without `order`, with the new links added |
| ChainfyProperties.LinkedProjectOk | web-client/src/data/Chainfy.py:11-15 | one project record is linked exactly when it has `order`, and fails on `order` otherwise |
| ChainfyProperties.LinkProjectsOk | web-client/src/data/Chainfy.py:10-15 | the project pass succeeds exactly when every record has `order`, fails only on `order`, and on success holds project k's linked record at position k |
| ChainfyProperties.LinkProjectsFails | web-client/src/data/Chainfy.py:10-15 | the project pass fails exactly when some record lacks `order`, and then with KeyError('order') |
| ChainfyProperties.LinkProjectsValue | web-client/src/data/Chainfy.py:10-15 | a successful project pass has one entry per project, and each holds its own key and its linked record |
| ChainfyProperties.LinkProjectsLength | web-client/src/data/Chainfy.py:10-15 | a successful pass over n projects yields n entries |
| ChainfyProperties.LinkProjectsAt | web-client/src/data/Chainfy.py:10-15 | entry k of a successful pass is project k with its linked record |
| ChainfyProperties.LinkTasksOk | web-client/src/data/Chainfy.py:22-46 | the task pass succeeds exactly when every task's record links, fails with the first failing task's KeyError, and on success holds task k's linked record at position k |
| ChainfyProperties.LinkTasksFails | web-client/src/data/Chainfy.py:22-46 | the task pass fails exactly when some task's record fails, and then with the KeyError of the first such task |
| ChainfyProperties.LinkTasksValue | web-client/src/data/Chainfy.py:22-46 | a successful task pass has one entry per task, and each holds its own key and its linked record |
| ChainfyProperties.LinkTasksLength | web-client/src/data/Chainfy.py:22-46 | a successful pass over n tasks yields n entries |
| ChainfyProperties.LinkTasksAt | web-client/src/data/Chainfy.py:22-46 | entry k of a successful pass is task k with its linked record |
| ChainfyProperties.LinkedTaskOk | web-client/src/data/Chainfy.py:23-46 | which fields one task needs (`status`/`project` of the neighbours compared, and `order`); a failure names `order`, `status` or `project`; on success `prevTask`/`nextTask` are the neighbour keys within the run and None across a run boundary |
| ChainfyProperties.ProjectAt | web-client/src/data/Chainfy.py:10-15 | project i keeps its key and all other fields and loses `order`; `prevProject` is key i-1 (None at i = 0) and `nextProject` is key i+1 (None for the last) |
| ChainfyProperties.TransformParts | web-client/src/data/Chainfy.py:7-46 | the script succeeds exactly when both passes succeed, and returns their outputs |
| ChainfyProperties.ProjectsChained | web-client/src/data/Chainfy.py:10-15 | the output projects keep their keys in order and have no `order`; the first has no predecessor and the last no successor; `nextProject` of i is key i+1 and `prevProject` of i+1 is key i |
| ChainfyProperties.TaskAt | web-client/src/data/Chainfy.py:22-46 | task i keeps its key and all other fields and loses `order`; `prevTask` is key i-1 exactly when i > 0 and that task shares `status` and `project`, and None otherwise; `nextTask` likewise for key i+1 |
| ChainfyProperties.TasksChained | web-client/src/data/Chainfy.py:22-46 | the output tasks keep their keys and have no `order`; the first task has no `prevTask` and the last no `nextTask`; neighbours are joined both ways exactly when they share a run |
| ChainfyProperties.TasksKeepKeys | web-client/src/data/Chainfy.py:22-46 | every output task has the input key at its position, has no `order`, and has both link fields |
| ChainfyProperties.TasksJoinedInRuns | web-client/src/data/Chainfy.py:23-45 | for each pair of neighbours, both links join them exactly when they share a run, and both are None exactly when they do not, so equal pairs separated by a different pair are never joined |
| ChainfyProperties.TaskPairAt | web-client/src/data/Chainfy.py:23-45 | tasks i and i+1 point at each other exactly when they share `status` and `project`, and have None links towards each other otherwise |
| ChainfyProperties.TransformSucceedsIff | web-client/src/data/Chainfy.py:10-46 | the script completes exactly when every project has `order` and every task has the fields it reads; otherwise it raises KeyError on `order`, `status` or `project`, and a project without `order` stops it before any task is read |
| ChainfyProperties.TransformNotRerunnable | web-client/src/data/Chainfy.py:15-46 | running the script again over a non-empty output raises KeyError('order') |
| ChainfyProperties.RunsDetectedAgain | web-client/src/data/Chainfy.py:23-45 | the output's neighbours share a run exactly when the input's did, and every `nextTask`/`prevTask` between neighbours is what the run test of lines 23-24 and 36 gives on the output itself |
| ChainfyProperties.RunDetectedAgainAt | web-client/src/data/Chainfy.py:23-45 | the same for the one pair of neighbours at i and i+1 |
| ChainfyBridge.ChainfiedProjectsSortInKeyOrder | web-client/src/data/Chainfy.py:10-15 | with distinct, non-empty keys, `sortChain` over the renamed project output terminates and returns the records in the original key order |
| ChainfyBridge.KeyOrderSorts | web-client/src/utils/utils.ts:9-26 | records linked by key position, with `prevProject`/`nextProject` renamed to `prev`/`next`, are walked back in that key order |
| ChainfyBridge.ChainSortsItself | web-client/src/utils/utils.ts:9-26 | a chain of distinct non-empty ids whose links agree with its positions is returned unchanged by `sortChain` |
| SortChain.FindHeadIsFirst | web-client/src/utils/utils.ts:10 | the head is the id of the first entry whose `prev` is null, and is null exactly when no entry has a null `prev` |
| SortChain.WalkStep | web-client/src/utils/utils.ts:15-18 | one round of the loop: a missing id ends the walk with the TypeError; otherwise the pair is pushed and the walk goes on from a truthy `next`, or stops |
| SortChain.SortChain | web-client/src/utils/utils.ts:9-26 | the result is `Sorted(chain)`, including the TypeError at a missing key; the warning fires exactly when a head was found, the walk completed and its length differs from the number of keys |
| SortChain.WalkShape | web-client/src/utils/utils.ts:14-18 | every walk starts at its id, holds the map's own records, takes each later id from the previous record's `next`, and ends as its last record says |
| SortChain.WalkFuel | web-client/src/utils/utils.ts:15-20 | more lookups do not change a walk that has already ended |
| SortChain.WalksAgree | web-client/src/utils/utils.ts:15-20 | two ending walks from the same id are the same walk |
| SortChain.WalkSuffix | web-client/src/utils/utils.ts:15-18 | from the k-th visited id, the walk continues exactly as the whole walk did |
| SortChain.WalkDistinct | web-client/src/utils/utils.ts:15-18 | a walk that ends visits no id twice |
| SortChain.WalkFuelNeeded | web-client/src/utils/utils.ts:15-20 | an ending walk needs only one lookup per visited record, plus one |
| SortChain.Keys | web-client/src/utils/utils.ts:21 | the key set of a chain, with `Object.keys(chain).length` equal to the number of entries when ids are distinct |
| SortChain.KeysCover | web-client/src/utils/utils.ts:21 | distinct ids that are all keys are no more than the keys, and as many only when they are all the keys |
| SortChain.TerminatesIsExact | web-client/src/utils/utils.ts:15-20 | the precondition `Terminates` holds exactly when the loop ends for some number of rounds |
| SortChain.SortedEmpty | web-client/src/utils/utils.ts:10-12 | the result is empty exactly when there is no head or the head id is the empty string |
| SortChain.SortedFollowsLinks | web-client/src/utils/utils.ts:14-18 | a non-empty result starts at the head, takes each later id from the previous record's `next`, holds `[id, chain[id]]` pairs, has no repeated id, and ends at a falsy `next` |
| SortChain.SortedFailsAtMissingKey | web-client/src/utils/utils.ts:16-18 | the TypeError is thrown only when the walk reaches a truthy `next` that names no key |
| SortChain.MissingKeyFails | web-client/src/utils/utils.ts:16-18 | the converse: a walk from a truthy head that reaches a truthy `next` naming no key throws the TypeError on the following round |
| SortChain.HeadIsKey | web-client/src/utils/utils.ts:10 | the head, when there is one, is a key of the chain |
| SortChain.SortedCoversWithoutWarning | web-client/src/utils/utils.ts:19-23 | a result never has more pairs than the chain has keys; with as many (no warning), every key of the chain appears in it |
| SortChain.WarnsIffKeyMissing | web-client/src/utils/utils.ts:21-23 | for a chain with distinct keys, the count check passes exactly when every key of the chain is in the result, so the warning means exactly "the chain is not complete" |
| SortChain.CompleteIffAllListed | web-client/src/utils/utils.ts:21 | distinct ids that are all keys are as many as the keys exactly when every key is among them |
| SortChain.EveryKeyListed | web-client/src/utils/utils.ts:21 | with equal key sets and sizes, every key of the chain is the id of some result pair |
| SortChain.WellFormedChainIsListed | web-client/src/utils/utils.ts:13-26 | on a well-formed chain (a listing of its entries with non-empty ids whose links agree with their positions), the walk terminates, returns that listing and covers every key once, so no warning fires |
| SortChain.ListedHead | web-client/src/utils/utils.ts:10 | the head of a well-formed chain is the first entry of its listing |
| SortChain.ListedSuffixWalks | web-client/src/utils/utils.ts:15-18 | along a well-formed listing, the walk from position k visits exactly the rest of the listing and stops |
| SortChainLegacy.SortChainLegacy | web-client/src/components/utils.ts:9-21 | the older copy returns exactly what the newer one returns, TypeError included, on every chain where the walk ends |
| Actions.IndexOf | web-client/src/utils/actions.ts:11 | `indexOf` gives the first position holding the pair, or -1 exactly when the pair is not in the list |
| Actions.ItemList.RemoveItemFromList | web-client/src/utils/actions.ts:10-55 | the list becomes the old list spliced at `indexOf(item)`; the log gains one `removeMethod(item[0])` call followed by the relinking updates for the spliced list |
| Actions.RelinksNeverRemove | web-client/src/utils/actions.ts:28-50 | the relinking issues only `updateMethod` calls, so `removeMethod` is called exactly once |
| Actions.SpliceRemovesItem | web-client/src/utils/actions.ts:11-14 | for an item in the list, the list afterwards is the old list without position `indexOf(item)` and is one shorter |
| Actions.MissingItemDropsLast | web-client/src/utils/actions.ts:11-14 | for an item not in a non-empty list, `splice(-1, 1)` drops the last element and no update is issued |
| Actions.RelinkCases | web-client/src/utils/actions.ts:28-50 | first of several items: one update, new first `prev := null`; last of several: one update, new last `next := null`; middle: exactly the two updates joining the neighbours; only item: no update |
| Actions.ApplyCall | web-client/src/utils/actions.ts:29 | an `updateMethod` call keeps the ids and the length of the list |
| Actions.RelinkRestoresLinks | web-client/src/utils/actions.ts:17-50 | if the links agreed with the positions before, they agree with the new positions once the logged updates are applied to the spliced list |
| Actions.SpliceKeepsDistinct | web-client/src/utils/actions.ts:14 | removing one position keeps the ids distinct |
| Actions.RemoveFirst | web-client/src/utils/actions.ts:28-31 | after removing the first of at least two, the update restores the links of the shorter list |
| Actions.RemoveLast | web-client/src/utils/actions.ts:37-40 | after removing the last of at least two, the update restores the links of the shorter list |
| Actions.RemoveMiddle | web-client/src/utils/actions.ts:46-50 | after removing a middle item, the two updates restore the links of the shorter list |
| Actions.JoinNeighbours | web-client/src/utils/actions.ts:46-50 | the two middle-case updates set the left neighbour's `next` to the right one and the right neighbour's `prev` to the left one, and change nothing else |
| Todolist.Assign | web-client/src/components/Todolist.tsx:28 | `Object.assign`: every field present in the patch overwrites the task's, and every other field stays |
| Todolist.FindIndex | web-client/src/components/Todolist.tsx:41 | the first position with the id, or -1 exactly when no task has it (the same task `find` returns at line 26) |
| Todolist.Positions | web-client/src/components/Todolist.tsx:17 | the `filter`: exactly the positions whose task has the status, in array order |
| Todolist.SortPositions | web-client/src/components/Todolist.tsx:17 | the `sort`: a permutation of the filtered positions, ordered by old `order` with ties in array order |
| Todolist.Ranking | web-client/src/components/Todolist.tsx:17 | the sorted filter contains exactly the positions of the tasks with the status, in stable `order` order |
| Todolist.RankingCount | web-client/src/components/Todolist.tsx:17 | the ranking keeps as many positions as the `filter`, each once |
| Todolist.AssignStep | web-client/src/components/Todolist.tsx:18-20 | one round of the `forEach` gives the task at sorted index i the order i |
| Todolist.TaskList.RenumberStatus | web-client/src/components/Todolist.tsx:17-20 | the `filter`/`sort`/`forEach` loop leaves the array `Renumbered(old, status)` |
| Todolist.TaskList.AddTask | web-client/src/components/Todolist.tsx:11-22 | the array becomes the old one plus the new task with the given id, renumbered for the new task's status |
| Todolist.TaskList.UpdateTask | web-client/src/components/Todolist.tsx:24-37 | a known id: that task gets the patch, then its new status is renumbered; an unknown id: the renumbering of the undefined status |
| Todolist.TaskList.DeleteTask | web-client/src/components/Todolist.tsx:39-51 | a known id: status -2, then the tasks with its `previousStatus` are renumbered; an unknown id throws the TypeError exactly when the array is non-empty (the filter never calls its callback on an empty array), and in both unknown-id cases the array is left as it was |
| Todolist.RenumberedKeepsOthers | web-client/src/components/Todolist.tsx:17-20 | renumbering changes only `order`, and only for the tasks with the status |
| Todolist.BeforeTotal | web-client/src/components/Todolist.tsx:17 | the stable comparator is a strict total order on positions |
| Todolist.RenumberedIsIndex | web-client/src/components/Todolist.tsx:18-20 | a renumbered task's new order is its index in the sorted filter |
| Todolist.RenumberedOrdersAreRanks | web-client/src/components/Todolist.tsx:17-20 | the k tasks with the status get the orders 0..k-1, each exactly once |
| Todolist.RenumberedKeepsOldOrder | web-client/src/components/Todolist.tsx:17-20 | among the tasks with the status, the new order of one is below another's exactly when its old order was lower, or equal with an earlier array position (stable) |
| Todolist.UndefinedStatusChangesNothing | web-client/src/components/Todolist.tsx:26-32 | `updateTask` on an unknown id changes no task: renumbering the undefined status is the identity |
| Todolist.AddTaskAppends | web-client/src/components/Todolist.tsx:13-20 | `addTask` appends exactly one task (the new fields with the id, up to its order), and only the orders of the tasks with its status change |
| Todolist.UpdateTaskAssigns | web-client/src/components/Todolist.tsx:26-35 | on a known id, the task gets every field of the patch except that its order is renumbered; other tasks change at most in `order`, and tasks of other statuses not at all |
| Todolist.DeleteTaskMarks | web-client/src/components/Todolist.tsx:41-49 | on a known id, the task keeps every field but gets status -2 and possibly a new `order`; other tasks change at most in `order`, and only those with its `previousStatus` at all |
| ValidatePayload.FirstInvalid | server/middlewares/validatePayload.js:34-45 | the lowest index whose op fails the per-op check, or None exactly when every op passes |
| ValidatePayload.RejectsFirstFailure | server/middlewares/validatePayload.js:4-45 | each 400 error (payload, `ops`, `backup`, backup collections including `userProfile`, op at index i) is sent exactly when all earlier checks pass and its own check fails; arrays pass the object tests |
| ValidatePayload.NextIffAllPass | server/middlewares/validatePayload.js:4-47 | `next()` is called exactly when every check passes, and then no response is sent |
| ValidatePayload.OpValidMeans | server/middlewares/validatePayload.js:35-41 | an op passes exactly when it is a non-null object with a listed `type` and `operation` and a `data` key |
| ValidatePayloadLegacy.LegacyRejectsFirstFailure | server/routes/validatePayload.js:4-40 | the older checks run in the same order, with the first failure deciding the 400; the backup needs only `statuses`, `tasks` and `projects` |
| ValidatePayloadLegacy.LegacyNextIffAllPass | server/routes/validatePayload.js:4-42 | `next()` is called exactly when every older check passes |
| ValidatePayloadLegacy.UserProfileOpRejected | server/routes/validatePayload.js:30-39 | a `userProfile` op is rejected at its own index once the ops before it pass |
| ValidatePayloadLegacy.NewerAcceptsImpliesLegacyAccepts | server/routes/validatePayload.js:19-40 | every payload without `userProfile` ops that the newer middleware accepts is accepted by the older one |
| Operations.Dispatch | server/routes/operations.js:22-125 | the `forEach` fills the four lists exactly as `Dispatched` says, or ends in the TypeError its property reads throw |
| Operations.TranslateCases | server/routes/operations.js:24-110 | task, project and status ops: `add` pushes `insertOne{document: data}`, `update` pushes `updateOne{filter: {id}, $set: updatedFields}`, `delete` pushes `deleteOne{filter: {id}}`, each on its own type's list |
| Operations.UserProfileAndUnknownTypes | server/routes/operations.js:111-123 | for `userProfile` only `update` is translated and `add`/`delete` are dropped; unknown types are dropped |
| Operations.ThrowsIffNullishData | server/routes/operations.js:22-124 | an op throws exactly when it is null or undefined, or is a handled case whose `data` is null or undefined |
| Operations.CollectAppend | server/routes/operations.js:22-110 | one more op adds its write model to the end of its own list and nothing to the others |
| Operations.CollectConcat | server/routes/operations.js:22-125 | order is preserved: in each list the entries of earlier ops come first |
| Operations.EntriesCount | server/routes/operations.js:22-125 | the four lists together hold one entry per op that is not dropped |
| Operations.RespondsNoContentIff | server/routes/operations.js:140-151 | the answer is 204 exactly when nothing threw and the task, project and status results have `ok === 1`; every other answer is 500 |
| Operations.UserProfileOkIgnored | server/routes/operations.js:140 | the `userProfile` result's `ok` never changes the answer |
| Login.IsValidEmail | web-client/src/components/Login.tsx:31-33 | an accepted address has no white space and exactly one `@` |
| Login.IsValidEmailMatchesRegex | web-client/src/components/Login.tsx:32 | the character conditions accept exactly the language of `^[^\s@]+@[^\s@]+\.[^\s@]+$` |
| Login.ValidMatches | web-client/src/components/Login.tsx:32 | every accepted string splits as the regular expression requires |
| Login.MatchesValid | web-client/src/components/Login.tsx:32 | every string in the language of the regular expression is accepted |
| Login.RejectsWhitespace | web-client/src/components/Login.tsx:32 | no string with a white-space character is accepted |
| Login.AcceptedShape | web-client/src/components/Login.tsx:32 | an accepted string has exactly one `@`, a non-empty part before it, and after it a `.` that is neither the first nor the last character |
| Login.ExampleAccepted | web-client/src/components/Login.tsx:32 | `a@b..c` is accepted |
| Login.ExampleRejected | web-client/src/components/Login.tsx:32 | `a@.c` is rejected |

## Left out

- Reading `testListcopy.json`, `print(data)` and the `json.dump` of Chainfy.py are not modelled. The script works on two sequences of key/record pairs and returns their transformed versions, or the KeyError; an aborted run writes nothing.
- Python's key order and its `==` are taken as given. The mappings are given as sequences in insertion order. Values compare structurally, so Python's `True == 1` and `1 == 1.0` are not modelled.
- JavaScript numbers are integers: floating point, NaN and the order of `Object.entries` for integer-like keys are not modelled.
- Every `console.log`, `console.warn` and `console.error` is left out. The one exception is the `sortChain` count warning, which is a boolean output.
- The `Promise.all` over `bulkWrite` is not modelled. The database results come in as inputs: their `ok` fields, or None for a rejected write.
- The login form, phone-number validation and everything else in Login.tsx except `isValidEmail` are not part of this model.
- `crypto.randomUUID()` in `addTask` is an `id` parameter.
- `setTasks`, immer drafts and React state are not modelled. An updater that throws is modelled as leaving the array unchanged.
- Todolist.TaskList.UpdateTask: a patch cannot set `status` or `previousStatus` to `undefined`, and a task always has a numeric `order` and a numeric `status`.
- Todolist.SortPositions: `Array.prototype.sort` is modelled as a stable insertion sort, as the language requires of `sort` since ES2019. The model works on positions, so it does not capture the sort's in-place swaps.
- Actions.IndexOf: in JavaScript `indexOf` compares with `===`, by reference; the model compares `[id, record]` pairs by value. The two agree when `item` is the list's own element and no two pairs of the list are equal, or when `item` equals no pair. An `item` that equals a pair by value but is a different array gives -1 in JavaScript, so `splice(-1, 1)` drops the last element, while the model removes the equal pair at its own position.
- Actions.ItemList.RemoveItemFromList: `removeMethod` and `updateMethod` are not run. Their calls are appended to a log, and their effect on the records is stated separately by `Apply`.
- SortChain.SortChain and SortChainLegacy.SortChainLegacy: both require that the walk from the head ends (`Terminates`). The source loops forever on a cycle, and a diverging loop is not modelled. They also require distinct ids, which every JavaScript object has.
- Chain.Lookup, SortChain.SortChain, SortChainLegacy.SortChainLegacy, SortChain.SortedFailsAtMissingKey: `chain[id]` is a JavaScript property read, which also finds members inherited from `Object.prototype`. Ids that name such members (`constructor`, `toString`, `valueOf`, `hasOwnProperty`, ...) are not modelled. For a `next` naming one, the source pushes the inherited member and, since its `next` is undefined, stops, so utils.ts warns. The model treats such an id as missing and throws the TypeError.
- SortChain.SortChain: a head whose `prev` is `undefined` rather than `null` is not modelled. A link is `null` or a string, as the record types declare.
- ChainfyBridge.ChainfiedProjectsSortInKeyOrder: requires distinct and non-empty project keys. An empty key is falsy and ends the walk at once.
- The identity of the records is not modelled (`sortChain` returns the map's own objects). The model returns the same values.
