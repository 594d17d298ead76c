# Dashboard statistics and user-controller decisions, modelled in Dafny

This project models two pure, sequential pieces of a mentor/intern task-tracking
service:

- **The dashboard's task classification** (`Dashboard` module, `dashboard.dfy`).
  Each task's `status` is a loosely typed value (`true`, `false`, `null`, or
  missing/anything else). The stats cards count `null` and `false` as *pending*
  and `true` as *completed*. The task list labels `true` Completed, `false`
  Incomplete and everything else Pending, with a green badge only for
  Completed. The model also covers the guard that runs before a submission is sent.
- **The user controller's decisions** (`UserController` module,
  `user_controller.dfy`). These are the batch validation and password hashing of
  `createMany`, the sign-in decision tree of `getOneUser` with the record it
  returns, and the "User not found" outcomes of `getById`, `update` and `delete`.
  The user store is a sequence of `User` records. Each record holds the fields
  the handlers read, the `mentor` reference, and a map of all other stored
  fields. A query returns the first record that matches, as `findOne` does.

Shared modules: `Results` (`Option`, `Result`) and `Js`. `Js` holds JSON-shaped
values, JavaScript truthiness (what `!x` tests) and own-property access.

bcrypt is opaque. `bcrypt.hash` and `bcrypt.compare` are function parameters
(`Hasher`, `Comparer`), and each may raise an error. The random part of
`bcrypt.genSalt(10)` is a `nonce` parameter. The cost of 10 rounds is the
constant `SaltRounds`. The request body of the `update` route is a
`patch: User -> User` parameter.

The counts have an independent reference definition: `Tally(tasks, s)`, the
multiplicity of status `s` in the multiset of the tasks' statuses. The lemmas
connect the filter-and-count the dashboard performs to these tallies.

One might expect three disjoint buckets (pending, incomplete, completed) that
sum to the total, since the list itself tells Incomplete apart from Pending.
The code does not do that. It has two counters, folds `false` into pending, and
counts a missing status in neither. The model follows the code and proves exactly
where the counters and the labels part ways (`StatsSumIffNoAbsent`,
`LabelsAgainstStats`).

## Model

| member | source | states |
|---|---|---|
| Dashboard.StatusOf | frontend/src/pages/Dashboard.jsx:45-46 | The decoded status is True, False or Null exactly when the raw value is strictly equal to `true`, `false` or `null`. Every other raw value, missing included, is Absent. |
| Dashboard.DecodedCountIsRawCount | frontend/src/pages/Dashboard.jsx:45-46 | Counting the decoded statuses with a filter equals counting the raw JSON statuses with any filter that agrees with it after decoding. |
| Dashboard.StatsFromRawStatuses | frontend/src/pages/Dashboard.jsx:44-53 | The stats of the decoded list are exactly `data.length`, the count of raw statuses `=== null` or `=== false`, and the count of raw statuses `=== true`. |
| Dashboard.CountWhere | frontend/src/pages/Dashboard.jsx:45-46 | A filtered count never exceeds the list length. It is zero iff no task passes the filter, and equals the length iff every task passes. |
| Dashboard.ComputeStats | frontend/src/pages/Dashboard.jsx:43-53 | `total` is the number of tasks returned, and `pending + completed` never exceeds `total`. |
| Dashboard.StatsMeaning | frontend/src/pages/Dashboard.jsx:44-46 | `pending` is the number of `null` statuses plus the number of `false` statuses, so explicitly incomplete tasks are folded into pending. `completed` is the number of `true` statuses. The gap between `pending + completed` and `total` is the number of tasks with a missing or other status. |
| Dashboard.StatsAgainstTallies | frontend/src/pages/Dashboard.jsx:45-46 | The two filters behind the counters equal the tallies of the statuses they accept. Together with the tally of missing statuses, they add up to the list length. |
| Dashboard.CountWhereIsTallyWhere | frontend/src/pages/Dashboard.jsx:45-46 | For any status filter, filtering and counting equals the sum of the multiset multiplicities of the statuses the filter accepts. |
| Dashboard.TallyPartition | frontend/src/pages/Dashboard.jsx:44 | The tallies of the four statuses add up to the number of tasks. |
| Dashboard.StatsSumIffNoAbsent | frontend/src/pages/Dashboard.jsx:44-46 | `pending + completed == total` holds iff every task's status is `true`, `false` or `null`. Both directions are proved. |
| Dashboard.CountWhereAppend | frontend/src/pages/Dashboard.jsx:45-46 | Counting over a concatenation adds the counts of the parts. |
| Dashboard.CountWherePermutation | frontend/src/pages/Dashboard.jsx:45-46 | A filtered count is the same for any two lists that are permutations of each other. |
| Dashboard.StatsPermutationInvariant | frontend/src/pages/Dashboard.jsx:44-46 | All three counters are invariant under any reordering of the fetched task list. |
| Dashboard.LabelOf | frontend/src/pages/Dashboard.jsx:185-189 | The label is Completed iff the status is `true`, and Incomplete iff it is `false`. It is Pending iff the status is `null` or missing. |
| Dashboard.BadgeOf | frontend/src/pages/Dashboard.jsx:179-183 | The badge is green iff the label is Completed. Incomplete and Pending share the yellow badge. |
| Dashboard.LabelsAgainstStats | frontend/src/pages/Dashboard.jsx:185-189 | The Completed labels number exactly the completed counter. The Incomplete labels number the `false` statuses. The Pending labels number the `null` plus the missing statuses. So Incomplete plus Pending labels equal the pending counter plus the tasks with a missing status. |
| Dashboard.AbsentLabelledPendingButNotCounted | frontend/src/pages/Dashboard.jsx:179-189 | A task with a missing status is shown as Pending on a yellow badge. Yet a list holding only that task has stats total 1, pending 0, completed 0. |
| Dashboard.RefusedSubmissionIgnoresPayload | frontend/src/pages/Dashboard.jsx:75-77 | With no stored user or no truthy `_id`, the result is the same "User data not found" error whatever the task id and file, so nothing is sent. |
| Dashboard.PrepareSubmission | frontend/src/pages/Dashboard.jsx:73-83 | The submission fails with "User data not found" iff no stored user exists or it lacks a truthy `_id`. Otherwise the form carries the file, the user's `_id` and the task id, in that order. |
| UserController.FirstMatch | backend/controllers/UserController.js:63 | A lookup finds nothing iff no user matches. Otherwise it returns the position of the first matching user. |
| UserController.ValidationError | backend/controllers/UserController.js:21-26 | Validation passes iff every element has a truthy `password`. Otherwise the error belongs to the first element without one: a TypeError message for `null`/`undefined`, the fixed message for anything else. |
| UserController.HashAll | backend/controllers/UserController.js:28-37 | Hashing succeeds iff each password hashes without error under the one given salt. The result then has the input's length and order. Each element equals its input except for `password`, which is replaced by that element's hash. On failure, the error is that of the first element whose hashing fails. |
| UserController.CreateMany | backend/controllers/UserController.js:16-46 | The response is 201 or 400, and `insertMany` receives a batch exactly when the response is 201. A non-array body is refused. A batch with an element lacking a truthy password is refused with that first element's message, and nothing is inserted. When every password is truthy, the batch is inserted iff every hash succeeds. If a hash fails, the answer is 400 with the error of the first failing element. An inserted batch matches the input element by element, with only each password replaced by its hash under the single salt of cost 10. |
| UserController.RejectedBatchIgnoresHashing | backend/controllers/UserController.js:22-28 | A rejected batch gets the same answer whatever the salt and the hash function, because rejection comes before salting and hashing. Nothing is inserted. |
| UserController.OnlyPasswordIsRequired | backend/controllers/UserController.js:22-25 | An element with nothing but a non-empty password is accepted and inserted. Only the password is checked, although the message names fullname and email. |
| UserController.GetOneUser | backend/controllers/UserController.js:112-160 | A `null` or missing body gives 500 with the destructuring TypeError. Otherwise, a missing or falsy fullname or password gives 400 `success: false`. With both present, 404 is returned iff no user has that full name. For the first user with that name, compare saying no gives 400 "Fullname or password is incorrect", and compare saying yes gives 200 with that user's sign-in record. A compare error gives 500 with its message. Conversely, every 200, 400-incorrect and 500 answer comes from that first user's comparison. |
| UserController.MissingCredentialsSkipLookup | backend/controllers/UserController.js:114-123 | Without both credentials, the answer is the same for every store and every compare function, so no lookup or comparison influences it. For a body that is present, that answer is 400 "Fullname and password is required". |
| UserController.UnknownNameSkipsCompare | backend/controllers/UserController.js:127-134 | A 404 answer stays a 404 whatever compare does, because the name check comes before the password check. |
| UserController.ProjectionKeepsPublicFields | backend/controllers/UserController.js:143-153 | Two users have the same sign-in record iff they agree on `_id`, `id`, `fullname`, `domain`, `taskDone` and `taskAssign`. Users that differ only in the password hash, the mentor or any other stored field, such as `email` or `__v`, get the same record. |
| UserController.SignInHidesHash | backend/controllers/UserController.js:134-153 | Replacing a stored hash by another on which compare agrees leaves the sign-in answer unchanged. The hash is never part of what is sent. |
| UserController.GetById | backend/controllers/UserController.js:61-71 | 404 "User not found" is returned iff no user has the id. Otherwise 200 with the whole record of the first user with that id, password hash included. |
| UserController.Update | backend/controllers/UserController.js:86-98 | 404 "User not found" is returned iff no user has the id, and then the store is unchanged. Otherwise only the first such user is replaced by its patched version, and that version is returned. |
| UserController.Delete | backend/controllers/UserController.js:101-109 | 404 "User not found" is returned iff no user has the id, and then the store is unchanged. Otherwise the first such user is removed, the rest keep their order, and 200 "User deleted successfully" is returned. |
| UserController.NotFoundAgrees | backend/controllers/UserController.js:61-109 | `getById`, `update` and `delete` agree on when a user is not found. |
| UserController.DeleteThenGetById | backend/controllers/UserController.js:101-109 | In a store with unique ids, after a successful delete the id is no longer found. |
| UserController.UpdateThenGetById | backend/controllers/UserController.js:86-98 | After a successful update whose patch keeps the id, looking the id up returns exactly what the update sent. |

## Left out

- Network fetches, JSON parsing, `localStorage`, React state and effects, console logging and rendering markup: these are I/O and UI. The stats start at zero and stay unchanged on a fetch error, and neither behaviour is modelled.
- A task payload that is not an array (`data.filter` throws and the error is shown): not modelled. `ComputeStats` takes a list.
- A `null` element in the task list: reading `task.status` throws inside the filter, the error is shown and the stats keep their previous values. `RawTask` is always a record.
- `FormData.append` converts non-file values to strings: not modelled. The form keeps the JSON values.
- `create`, `getAll` and `getByMentor`: each is a single store write or read with no decision of its own to state.
- The `catch` branches for database failures (400 or 500 with the driver's message): the store is abstract and cannot fail.
- `insertMany` semantics: schema casting, `_id` and version assignment, and validation or duplicate-key errors. The model returns the batch handed to `insertMany` and answers 201 with that batch.
- `populate('taskDone')` and `populate('taskAssign')`: task references stay opaque strings.
- Mongoose casting of the `fullname` query value: a non-string or operator-object value is not cast. A user matches only when the value is the string equal to the stored full name.
- UserController.CreateMany: when several hashes fail, the error `Promise.all` reports depends on timing. The model reports the first failing element's error.
- UserController.Update: the update document is an abstract `patch` function. That the route stores a `password` in the body unhashed is therefore not visible in the model.
- Request bodies for `getOneUser` are any JSON value. Arrays and primitives have no `fullname` or `password` and get 400, as in the code. A `null` or missing body gets 500 with the destructuring TypeError, whose text is V8's. A top-level string body for `createMany` cannot arrive through the JSON parser, and such a body is modelled as not iterable.
- JavaScript numbers are integers here (`NaN` and fractions are not modelled). Truthiness of numbers only distinguishes zero.
- bcrypt internals (salt generation, hashing, comparison): opaque parameters.
- The task lifecycle, submission handling, completed-task handling and cron-scheduled distribution live in `taskRoutes`, `completedTaskRoutes` and `cronRoutes` (imported at backend/src/routes/index.js:4-6). Their code is not part of this model, so none of it is modelled.
- backend/src/routes/index.js and frontend/src/layouts/DashboardLayout.jsx: route mounting and static layout, with no logic.
