# Sports and odds snapshots: a Dafny model

This project models the data handling of a scheduled job that keeps a Firebase
Realtime Database copy of a sports-odds API. Two parts are modelled:

- **The sports catalogue writer** (`writeSportsToFirebase`). It sanitises a list of `Sport`
  records: missing strings become `""`, the two flags become booleans, and a record whose
  `group` or `title` is empty is skipped. It builds a dictionary keyed by `sport.key` and
  overwrites the `"sports"` path with `{data, metadata: {lastUpdated, count}}`.
- **The odds side.** `getActiveSportTags` selects the stored keys whose record is active and
  has no outrights. `writeOddsToFirebase` overwrites the `"odds"` path with the fetched data
  and metadata. The scheduled handler in `oddsUpdater.ts` checks the API key, reads the
  active tags, and returns early when there are none. Otherwise it calls `batchFetchOdds`
  with the active tags, batch size 5 and delay 1000, and it writes only when the result
  has at least one key.

The database is a value: a map from top-level path to stored node (`Database.Store`). A `set`
replaces one entry as a whole (`Database.SetPath`). The writers and the handler take the
store and return the new store, or the error they throw. Every collaborator outside the
core is a parameter:

- the outcome of each database read or write (`readFault`, `setFault`, `writeFault`);
- what the batched fetch returns or throws (`fetched`);
- the API key and base URL;
- every clock reading. `Date.now()` is read once per sport at line 23 (`stamps[i]`) and
  once more for the metadata at line 40 (`now`).

`Object.entries` enumerates the stored catalogue in an order fixed by the database client.
The model takes that order as a parameter, `entries`, which must list each stored key
exactly once.

The sports writer builds its dictionary in a loop, so it is a method with a `for` loop. That
method is proved equal to the recursive function `Catalogue`, and the lemmas about
`Catalogue` state what the loop produces. The active-key filter, the odds writer and the
handler have no local mutable state, so they are functions.

The handler relies on a batching helper, `batchFetchOdds`, which the repository does not
define, and the odds writer does no sanitation:

- `batchFetchOdds` is imported by `oddsUpdater.ts` but is not defined in
  `oddsApiAccessors.ts`.
- `writeOddsToFirebase` stores its input unchanged, with no sanitation.

The model follows the code. The fetch result is an arbitrary input, and the odds data is
written as given.

## Model

| member | source | states |
|---|---|---|
| Database.MakeSnapshot | functions/src/scheduled/utils/firestoreAccessors.ts:37-43 | The `{data, metadata}` wrapper keeps the data as given, stamps it with the supplied time, and its `count` equals the number of keys of the data |
| Database.SetPath | functions/src/scheduled/utils/firestoreAccessors.ts:46 | A `set` stores the new node at its own path and leaves every other path, present or absent, as it was |
| FirestoreAccessors.Catalogue | functions/src/scheduled/utils/firestoreAccessors.ts:15-35 | Every catalogue entry has a non-empty `group` and `title`: the validator never lets an incomplete record through |
| FirestoreAccessors.Clean | functions/src/scheduled/utils/firestoreAccessors.ts:17-27 | The cleaned record passes the validator (non-empty `group` and `title`) exactly when the input sport is admitted, whatever the clock reading; it carries that reading as `lastUpdated` and the boolean coercions of both flags |
| FirestoreAccessors.CatalogueKeys | functions/src/scheduled/utils/firestoreAccessors.ts:17-34 | A key is in the catalogue if and only if some input sport with that key has a non-empty defaulted group and title; so the keys are a subset of the input `sport.key` values |
| FirestoreAccessors.CatalogueLastWins | functions/src/scheduled/utils/firestoreAccessors.ts:15-34 | Each entry is the cleaned record of the LAST admitted sport with that key: `group`/`title`/`description` defaulted to `""`, flags coerced to booleans, and that sport's own clock reading. A later skipped duplicate leaves the entry unchanged |
| FirestoreAccessors.WriteSportsToFirebase | functions/src/scheduled/utils/firestoreAccessors.ts:10-55 | The sanitise loop builds exactly `Catalogue(sports, stamps)`. On success, `"sports"` holds that catalogue with a `count` equal to its number of keys and the metadata time `now`, and every other path is unchanged. A failing write is rethrown unchanged |
| FirestoreAccessors.ActiveKeys | functions/src/scheduled/utils/firestoreAccessors.ts:77-82 | Every key the `filter`/`map` chain yields is listed, and its record has `active == true` and `has_outrights == false`; the result is no longer than the entries |
| FirestoreAccessors.ActiveKeysExact | functions/src/scheduled/utils/firestoreAccessors.ts:77-82 | A key is selected if and only if it is listed and its record has `active == true` and `has_outrights == false` |
| FirestoreAccessors.ActiveKeysInOrder | functions/src/scheduled/utils/firestoreAccessors.ts:77-82 | The selected keys keep their entry order (they form a subsequence of the entries) |
| FirestoreAccessors.ActiveKeysDistinct | functions/src/scheduled/utils/firestoreAccessors.ts:77-82 | Each selected key appears once when each key is listed once |
| FirestoreAccessors.GetActiveSportTags | functions/src/scheduled/utils/firestoreAccessors.ts:61-91 | No stored catalogue gives the empty list. Otherwise the result is exactly the active keys without outrights, each once, in entry order. A read error is rethrown unchanged |
| FirestoreAccessors.SportsWriteThenRead | functions/src/scheduled/utils/firestoreAccessors.ts:17-34 | After a sports write, reading the tags yields exactly the keys whose last admitted input sport has `Boolean(active)` true and `Boolean(has_outrights)` false |
| FirestoreAccessors.WriteOddsToFirebase | functions/src/scheduled/utils/firestoreAccessors.ts:98-122 | On success, `"odds"` holds the input map unchanged, with a `count` equal to its number of keys and the supplied time, and every other path is unchanged. A failing write is rethrown unchanged |
| FirestoreAccessors.OddsWriteOverwrites | functions/src/scheduled/utils/firestoreAccessors.ts:113 | A second odds write discards the first entirely: the result is the same as writing only the second |
| FirestoreAccessors.WritesKeepCounts | functions/src/scheduled/utils/firestoreAccessors.ts:41 | Both writers keep every stored `count` equal to the number of keys of its `data` |
| OddsUpdater.OddsRun | functions/src/scheduled/oddsUpdater.ts:24-60 | See the list below this table |
| OddsUpdater.OddsRunKeepsCounts | functions/src/scheduled/oddsUpdater.ts:49-55 | A run keeps every stored `count` equal to the number of keys of its `data`, whatever its collaborators return |

What the contract of `OddsUpdater.OddsRun` states:

- A missing or empty key throws the missing-parameters error. This happens before any read,
  fetch or write.
- A read error is rethrown unchanged, with nothing fetched.
- An empty tag list ends the run normally, with no fetch and no write.
- Otherwise the fetch is the next step. It happens exactly once, with the active tags in
  order, batch size 5 and delay 1000.
- The snapshot is written exactly once if the result has at least one key, and never
  otherwise.
- An empty result completes without error and leaves the store unchanged.
- Fetch and write errors are rethrown unchanged, and the store keeps its old value.

## Left out

- `batchFetchOdds`: its definition is not in the repository's files. Its result is an arbitrary input, and batching, delays and per-key failure handling are not modelled.
- `getSports` and `getOdds` (oddsApiAccessors.ts): HTTP calls through axios, which are foreign calls.
- Firebase Admin initialisation, the internals of `once` and `set`, and all logging. The store is a map, and logs have no effect on it.
- Scheduler configuration (cron string, time zone, retry count, memory, secrets) and the `defineString` parameters. The `!oddsApiUrl` test at oddsUpdater.ts:28 checks the parameter object, which is always present, so only the API key is checked.
- sportsUpdater.ts and index.ts: wiring only.
- `Date.now()`: there is no clock model. The readings are parameters and may differ from each other.
- Asynchrony: each await is one sequential step.
- Store writes are atomic: a failing `set` is modelled as leaving the store unchanged.
- FirestoreAccessors.Catalogue: the JavaScript key `"__proto__"` is not modelled. In the source, `processedSports["__proto__"] = cleanSport` runs the `Object.prototype` setter and creates no own key, so `Object.keys`, the `count` and the stored data all leave that sport out; the model stores and counts it like any other key, and CatalogueKeys's "if and only if" does not hold of the source for that one key.
- FirestoreAccessors.WriteOddsToFirebase: the Realtime Database stores no empty array, so a key whose `Event[]` is empty is dropped by the database while the `count` still includes it. The model stores the data as given, so its stored `count` always equals the number of stored keys; for the real database the stored `count` can exceed them.
- FirestoreAccessors.GetActiveSportTags: anything other than a sports catalogue stored at `"sports"` is read as absent data. The source computes the same empty list there, because no such entry has `active === true`.
- FirestoreAccessors.GetActiveSportTags: the entry order of `Object.entries` is a parameter. The key ordering rules of JavaScript objects and of the database client are not modelled.
- Prices and points in `Outcome` are `real`, not IEEE floating point. The model never looks inside an `Event`.
