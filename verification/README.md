# coc-builder store and dashboard core, in Dafny

This project models the logic core of a small builder-tracking app. The app
keeps a local store with two collections. The first holds accounts, each with a
pool of numbered builders. The second holds tasks, each occupying one builder
until its end time. Two pieces of logic are modelled:

- **Seeding** (`lib/db.ts`). `seedAccounts` fills an empty accounts collection
  with fifteen accounts `acc-01` .. `acc-15`, each with five builders. It leaves
  a non-empty collection alone.
- **Next completion per account** (`app/page.tsx`). The dashboard reads the
  active tasks. It then folds over them to pick, for every account, the task
  that ends soonest. On equal end times, the first task met wins, because the
  replacement test is a strict `<`.

Modules:

- `Wrappers`: `Option` and `Result`.
- `Strings`: the JavaScript string primitives the seed uses. `DecimalString` is
  `String(n)` for the small non-negative integers the seed renders.
  `PadStart` is `padStart` with a one-character fill. `KeyLess` is the order
  IndexedDB puts string keys in.
- `Db`: the `Account`, `Task` and `TaskStatus` records, the seed ids and names,
  `bulkAdd`, and `seedAccounts`.
- `Home`: the active-task filter and the `nextByAccount` fold.

Modelling choices:

- The accounts collection is a `map<string, Account>` keyed by id.
- The tasks collection is a `seq<Task>` in primary-key order. An equality
  lookup on the `status` index, as the dashboard does, returns the matching
  records in primary-key order. So the "input order" of the fold is ascending task id, and
  `Home.TieBreakByKey` shows that a tie goes to the task with the smallest id.
- `startAt` and `endAt` are integers: milliseconds since the epoch. They stand
  for the stored ISO-8601 strings read back through `new Date(..).getTime()`.
- Every store operation is a synchronous pure function from state to state.

## Model

| member | source | states |
|---|---|---|
| `Db.StatusName` | lib/db.ts:9 | Each status is stored as a non-empty lower-case word; `Db.ParseStatus` reads each spelling back as its status |
| `Db.ParseStatus` | lib/db.ts:9 | A stored status string is a status exactly when it is one of the two status spellings; it reads back as the status it spells, and each status's spelling reads back as that status, so the two spellings differ |
| `Strings.DecimalString` | lib/db.ts:41-42 | `String(n)` is non-empty and all digits; it starts with `0` only for zero and is one character exactly for `n < 10` |
| `Strings.DecimalRoundTrip` | lib/db.ts:41-42 | Parsing the decimal rendering of `n` gives back `n` |
| `Strings.DecimalInjective` | lib/db.ts:41-42 | Different numbers render to different decimal strings |
| `Strings.LeadingZero` | lib/db.ts:41 | A leading zero does not change the number a digit string reads as |
| `Strings.PaddedDecimal` | lib/db.ts:41 | Zeros put in front of a digit string keep it all digits and do not change the number it reads as |
| `Strings.PadStart` | lib/db.ts:41 | `padStart(width, fill)` is `s` when `s` is at least `width` long and otherwise `width` long; it ends with `s`, and everything before `s` is the fill character |
| `Db.AccountId` | lib/db.ts:41 | The id is `acc-` followed by at least two digits, and those digits read back as `i + 1` |
| `Db.AccountIdFormat` | lib/db.ts:41 | For `i < 99` the seeded id is 6 characters: `acc-` then the tens digit and the units digit of `i + 1` |
| `Db.AccountIdInjective` | lib/db.ts:40-41 | Two different indices never give the same seeded id |
| `Db.SeedName` | lib/db.ts:42 | The name is the name prefix followed by digits that read back as `i + 1` |
| `Db.SeedBatch` | lib/db.ts:40-44 | The seed batch has 15 records with pairwise distinct ids, which together are exactly `acc-01` .. `acc-15`, and every record has 5 builders, which is positive |
| `Db.SeedRecordsDistinct` | lib/db.ts:40-41 | Fifteen records carrying the seed ids in index order have pairwise distinct ids, together `acc-01` .. `acc-15` |
| `Db.BulkAdd` | lib/db.ts:46 | `bulkAdd` succeeds exactly when the batch ids are distinct and none is stored yet; on success the key set is the old keys plus the batch ids, stored records are kept, and each batch record is stored under its id; a failure names a batch id |
| `Db.DistinctIdsCount` | lib/db.ts:40-46 | A batch with distinct ids has as many ids as records, so the bulk insert adds one account per record |
| `Db.BulkAddIntoEmpty` | lib/db.ts:46 | A batch with distinct ids inserted into an empty collection succeeds and adds one account per record, under exactly the batch's ids |
| `Db.SeedInsert` | lib/db.ts:40-46 | Inserting the seed batch into an empty collection succeeds and yields exactly the 15 seed ids |
| `Db.SeedInsertRecords` | lib/db.ts:40-46 | After that insert, each seed id holds its seed account: the id, the numbered name and 5 builders |
| `Db.SeedAccounts` | lib/db.ts:36-47 | A non-empty collection is left unchanged; an empty one ends with exactly the 15 seed ids, each holding its seed record; every newly added account has 5 builders, which is positive |
| `Db.SeedIdempotent` | lib/db.ts:37-38 | Seeding twice gives the same collection as seeding once, so 15 accounts and not 30 |
| `Home.ActiveTasks` | app/page.tsx:18 | A task is read exactly when it is in the table and active; a table in primary-key order is read in that order |
| `Home.Step` | app/page.tsx:30-32 | One iteration: the task's account gets an entry ending no later than the task, which is the task or the previous entry; other entries are untouched; an entry ending no later than the task is kept, since the test is a strict `<` |
| `Home.StepExtends` | app/page.tsx:29-33 | One iteration turns a summary of the tasks so far into a summary of one more task: keys are the accounts met, values are their own tasks, each minimal |
| `Home.NextByAccount` | app/page.tsx:27-36 | The result's keys are exactly the accounts of the input (so empty input gives the empty map); each value is an input task of its key's account; no input task of that account ends earlier |
| `Home.FirstMinimumWitness` | app/page.tsx:29-33 | The chosen task of an account sits at the first position holding one of that account's soonest-ending tasks |
| `Home.NextIsFirstMinimum` | app/page.tsx:29-33 | The tie-break is stable: the chosen task is the first soonest-ending task of its account in input order, and that position is unique |
| `Home.NextOfAppend` | app/page.tsx:29-33 | Folding over one more task is one more replacement step on the previous result |
| `Home.NewMinimumAtEnd` | app/page.tsx:31-32 | A last task that replaces its account's entry ends strictly before every earlier task of that account |
| `Home.OldMinimumKept` | app/page.tsx:31 | A later task that does not end strictly earlier leaves the earlier choice the first minimum |
| `Home.NextAppend` | app/page.tsx:29-33 | Appending a task leaves every other account's entry unchanged, and a task not ending strictly before its account's entry changes nothing |
| `Home.NextCompletions` | app/page.tsx:18-36 | Every task the dashboard shows is an active task of the table under its own account, and no active task of that account ends earlier |
| `Home.TieBreakByKey` | app/page.tsx:18-31 | With the table in primary-key order, a tie on end time goes to the task with the smallest id |
| `Strings.KeyLess` | app/page.tsx:18 | The key order holds exactly when the first key is a proper prefix of the second, or the first differing character is smaller in the first key |

## Left out

- Dexie and IndexedDB persistence, the schema and index declarations (lib/db.ts:21-34), and `async`/`await`: the store is an in-memory value and each operation is one synchronous step.
- React state, hooks, memoisation and rendering (app/page.tsx:11-26 and 38-67), including the per-account lookup `nextByAccount.get(a.id)` while rendering: these are presentation.
- Locale date formatting (`fmt`, app/page.tsx:7-9): presentation only.
- Parsing ISO-8601 strings with `new Date`: end times are integers, so the `NaN` an unparsable string would give is not modelled.
- Db.BulkAdd: all-or-nothing. Dexie adds the non-colliding records of a batch and then reports the collisions; this partial insertion is not modelled. The seed never reaches it, since its ids are distinct and it only runs on an empty collection.
- Strings.DecimalString: models `String(n)` as plain decimal for every non-negative integer. JavaScript agrees only below 10^21 (exponent form from there) and is exact only below 2^53; the seed renders only 1 .. 15.
- Strings.PadStart: takes a one-character fill. JavaScript also takes an empty fill (no padding) and longer fills (repeated and cut); the seed only pads with `"0"`.
- Ordered queries: the task-sequence order is the order of equality lookups on an index, as the dashboard uses; range and `orderBy` queries, which return index order, are not modelled.
- Strings.KeyLess: compares Unicode scalar values, while IndexedDB compares UTF-16 code units. The two orders differ only for characters outside the Basic Multilingual Plane.
- Adding tasks, the builder-occupancy set, marking tasks done and renaming accounts: they live in app/accounts/[id]/page.tsx, which is not part of this model.
