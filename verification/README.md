# Calendar feed aggregator — a Dafny model

This project models the `CalendarFeedAggregator` of the calendar-feed
repository (src/main.ts). The aggregator is an in-memory cache of calendar
events, backed by a Deno KV database. The cache is a `Map` from event id to
event, and its iteration order is the feed's order. The aggregator works as
follows:

- `create` opens the database, loads every record under a key prefix, and
  drops the events that have ended.
- Every public call first cleans the cache of ended events (`#clean`), then
  does its work.
- `add` rejects ids that are already cached and silently skips inputs that
  are already over. It writes the rest in one atomic batch, each with a
  time-to-live. It then rebuilds the cache in key order.
- `remove` deletes one key; `removeAll` deletes every cached key in one batch.
- `get`, `has`, `getAll` and `toString` read the cleaned cache.

The model is functional. An `Aggregator` value holds:

- the initialized flag;
- the key prefix;
- the cache, as its values in iteration order;
- the records of the database.

Each public method except dispose is a function from the state before the
call to a `Step`: the state after the call, and either the value returned or
the error thrown. An error still carries the state, because the opening clean
has happened by the time `add` throws. `Dispose` changes no state and returns
a bare `Result`.

Modules, in dependency order:

- `Types` (types.dfy): events, keys, errors, results.
- `KeyOrdering` (key_ordering.dfy): `#sortByKeys` on keys.
- `Expiry` (expiry.dfy): the two expiry tests, those of `add` and of `#clean`.
- `EventMap` (event_map.dfy): the JS `Map` as an insertion-ordered sequence.
- `Sorting` (sorting.dfy): the stable sort and the rebuild done by `#write`.
- `KvStore` (kv_store.dfy): records, atomic batches and commits.
- `CalendarFeed` (calendar_feed.dfy): the aggregator's operations.
- `FeedProperties` (feed_properties.dfy): properties that relate several
  calls, and the invariant that the cache mirrors the store.

Representation choices:

- Instants are integer milliseconds.
- An absent or `null` end is `None`.
- The clock reading `now` is a parameter of every call.
- The database's prefix scan is a sequence parameter of `Create`, in the order
  the scan yields it.
- The calendar encoder behind `toString` is a function parameter `render`.

## Where the code differs from its documented intent

The model follows the code in each case below.

- **Cleaning ignores `start`.**
  - `#clean` drops an event only when it has an end, and that end is at or
    before `now` (src/main.ts:143).
  - `add` treats an input as expired when `end ?? start` is at or before `now`
    (src/main.ts:291). The doc comment of `add` (src/main.ts:268) describes
    this test too.
  - So an event without an end whose start has passed stays in the cache and
    in the feed. `FeedProperties.CleanIgnoresStart` exhibits this.
- **Order after opening is scan order.**
  - The class comment promises feed order by key order (src/main.ts:13).
  - The cache is sorted only when a non-empty `add` rewrites it
    (src/main.ts:179-184).
  - After `create` it is in the order of the database scan
    (src/main.ts:122-126). `FeedProperties.CreateInScanOrder` states this.
- **Duplicates within one call are not caught.**
  - The duplicate check of `add` only consults the cache as it stood before
    the call (src/main.ts:287). Two inputs with one id in the same call both
    pass.
  - Both are written. The store keeps the last one, and the rebuilt `Map`
    holds the last value at the first position of that id.
  - `FeedProperties.SameCallDuplicates` shows a concrete case.
- **There is no closed state.**
  - Disposing only checks initialization and closes the database
    (src/main.ts:382-386).
  - Nothing stops later calls on the cache, so the model has no closed state.

## Model

| member | source | states |
|---|---|---|
| `Types.KeyOfInjective` | src/main.ts:195-196 | Two events get the same store key under one prefix exactly when their ids are equal |
| `KeyOrdering.SegmentCompare` | src/main.ts:204 | The stand-in for `localeCompare` answers -1, 0 or 1 |
| `KeyOrdering.SegmentCompareZero` | src/main.ts:204 | The segment comparison answers 0 exactly for equal segments |
| `KeyOrdering.SegmentCompareFlip` | src/main.ts:204 | Swapping the segments negates the answer |
| `KeyOrdering.SegmentCompareTrans` | src/main.ts:204 | The segment order is transitive |
| `KeyOrdering.Compare` | src/main.ts:194-214 | Keys of different lengths compare by their length difference; keys of equal length give -1, 0 or 1 |
| `KeyOrdering.CompareFirstDifference` | src/main.ts:203-211 | For equal-length keys, the first segment that differs decides, and the answer is non-zero |
| `KeyOrdering.CompareZero` | src/main.ts:203-213 | Equal-length keys compare as 0 exactly when they are equal |
| `KeyOrdering.CompareSelf` | src/main.ts:194-214 | Every key compares as 0 with itself |
| `KeyOrdering.CompareFlip` | src/main.ts:194-214 | The comparator is antisymmetric: swapping the keys negates the result |
| `KeyOrdering.CompareTrans` | src/main.ts:194-214 | The comparator is transitive, so it is a consistent sort order |
| `KeyOrdering.CompareSharedPrefix` | src/main.ts:195-214 | Under a shared prefix the key comparison is the comparison of the ids alone |
| `Expiry.ExpireIn` | src/main.ts:170 | The time-to-live written with an event is positive exactly when the event is live at `now` |
| `Expiry.CleanableIsExpired` | src/main.ts:143 | Whatever `#clean` drops is also expired in `add`'s sense; an event without an end is never dropped; with an end the two tests agree |
| `EventMap.Lookup` | src/main.ts:229 | `Map.get` returns an entry with the requested id, and returns nothing exactly when the id is absent |
| `EventMap.MapSet` | src/main.ts:125 | `Map.set` appends a new id at the end; for a present id the length stays the same; the ids become the old ids plus the new one |
| `EventMap.MapSetInPlace` | src/main.ts:125 | On a map with unique ids, setting a present id changes only the entry at that id, to the new value; every other entry stays at its position |
| `EventMap.MapSetLookup` | src/main.ts:125 | After `Map.set` the id looks up the new value, every other id looks up what it did before, and ids stay unique |
| `EventMap.MapDelete` | src/main.ts:324 | `Map.delete` of an absent id changes nothing; otherwise it removes the entry with that id, and the others keep their order |
| `EventMap.MapDeleteLookup` | src/main.ts:324 | After `Map.delete` the id is gone, every other id looks up as before, and the result is an order-preserving subsequence |
| `EventMap.SetAllLookup` | src/main.ts:122-126 | Setting a list of values one by one leaves, for each id, the last value listed for it, and the old value for the other ids |
| `EventMap.LastByIdConcat` | src/main.ts:179-184 | Among the cache's values followed by the pending ones, the last value for an id comes from the pending ones whenever they contain that id |
| `Sorting.SortByKeys` | src/main.ts:194-214 | `#sortByKeys` on two events orders them by their ids |
| `Sorting.ByKeys` | src/main.ts:180 | The comparator handed to `sort` orders events by id |
| `Sorting.Insert` | src/main.ts:179-180 | Inserting into a sorted list keeps it sorted and adds exactly the one element |
| `Sorting.Sort` | src/main.ts:179-180 | The sort returns an ascending permutation of its input |
| `Sorting.SortWithId` | src/main.ts:179-180 | The sort is stable: the elements with one id keep their input order |
| `Sorting.SetAllSorted` | src/main.ts:182-184 | A map built from a sorted list iterates in strictly ascending key order |
| `Sorting.Rebuild` | src/main.ts:179-184 | The rebuilt cache is strictly ascending, and each id holds the last value listed for it |
| `Sorting.StrictlySortedUnique` | src/main.ts:179-184 | Two strictly ascending caches with the same events are equal, so the order after a write depends only on the contents |
| `KvStore.CommitWrite` | src/main.ts:165-177 | After the write batch, the key of each written id holds the last event given for it with its time-to-live; all other keys are unchanged |
| `KvStore.CommitDelete` | src/main.ts:341-353 | The delete batch removes exactly the keys of the listed events |
| `KvStore.CommitWritesCommute` | src/main.ts:174-177 | Two write batches over disjoint ids leave the same store in either order |
| `CalendarFeed.Clean` | src/main.ts:141-147 | `#clean` keeps exactly the events that have no end or whose end is after `now`, in their order |
| `CalendarFeed.Read` | src/main.ts:109-129 | `#read` marks the instance initialized; on an initialized instance it does nothing; otherwise each scanned id holds the last value scanned for it |
| `CalendarFeed.Create` | src/main.ts:57-86 | A created feed is initialized, holds each id once, and caches exactly the last scanned value of each id, unless that value has ended |
| `CalendarFeed.Get` | src/main.ts:222-230 | `get` throws when uninitialized; otherwise it cleans, and finds an event exactly when a cached event with that id has not ended, returning that event |
| `CalendarFeed.GetAll` | src/main.ts:237-247 | `getAll` throws when uninitialized; otherwise it cleans and returns the events that have not ended, in cache order |
| `CalendarFeed.Has` | src/main.ts:255-263 | `has` throws when uninitialized; otherwise it cleans, and answers true exactly when a cached event with that id has not ended |
| `CalendarFeed.Collect` | src/main.ts:281-296 | The `add` loop fails with `AlreadyAdded` exactly when some input id is cached; otherwise it collects exactly the live inputs, in input order |
| `CalendarFeed.Add` | src/main.ts:274-299 | `add` throws when uninitialized; when any input id is cached after the clean, it throws `AlreadyAdded` and leaves only the cleaned state; otherwise it succeeds |
| `CalendarFeed.Remove` | src/main.ts:307-325 | `remove` throws when uninitialized; for an uncached id it returns false and only cleans; otherwise it deletes that id's key, drops the first entry with that id, and returns true |
| `CalendarFeed.RemoveAll` | src/main.ts:332-354 | `removeAll` deletes, in one batch made only of deletes, exactly the keys of the cleaned cache, and empties the cache |
| `CalendarFeed.DeleteBatchKeys` | src/main.ts:341-351 | The batch of `removeAll` touches exactly the keys of the cached events, and only with deletes |
| `CalendarFeed.ToString` | src/main.ts:361-375 | `toString` renders exactly the events `getAll` would return, in the same order, and leaves the same state |
| `CalendarFeed.Dispose` | src/main.ts:382-386 | Disposing succeeds exactly on an initialized instance |
| `FeedProperties.CleanKeepsUncleanable` | src/main.ts:141-147 | Cleaning a cache whose events have not ended changes nothing |
| `FeedProperties.CleanLater` | src/main.ts:141-147 | Cleaning at one instant and then at a later one is the same as cleaning at the later one |
| `FeedProperties.CleanIdempotent` | src/main.ts:141-147 | Cleaning twice at one instant is the same as cleaning once |
| `FeedProperties.CleanIgnoresStart` | src/main.ts:143 | An event without an end whose start has passed survives cleaning, although `add` counts it as expired |
| `FeedProperties.CleanedConsistent` | src/main.ts:141-147 | Cleaning keeps the cache mirroring the store |
| `FeedProperties.HasAgreesWithGet` | src/main.ts:255-263 | `has` answers whether `get` finds something, and both leave the same state |
| `FeedProperties.GetMatchesStore` | src/main.ts:222-230 | What `get` returns from a consistent cache is the value stored under the id's key |
| `FeedProperties.CollectIsLiveInputs` | src/main.ts:283-296 | A successful `add` loop collects the live inputs |
| `FeedProperties.RebuiltContents` | src/main.ts:179-184 | The map that `#write` rebuilds is strictly ascending, and holds the old cache plus the last pending event of each pending id |
| `FeedProperties.AddOutcome` | src/main.ts:274-299 | A successful `add` commits the write batch of the live inputs. With none, the cache is only cleaned. Otherwise it is rebuilt in strictly ascending key order. Either way it holds exactly the cleaned cache plus the last live input of each id |
| `FeedProperties.AddStore` | src/main.ts:165-177 | After a successful `add`, each live id's key holds the last live input with that id and a positive time-to-live equal to its remaining lifetime; all other keys are unchanged |
| `FeedProperties.ExpiredInputDropped` | src/main.ts:291-293 | An input that is no longer live is skipped without error; it is not cached, and its key is untouched unless a live input shares its id |
| `FeedProperties.AddConsistent` | src/main.ts:274-299 | `add` keeps the cache mirroring the store, whether it succeeds or throws |
| `FeedProperties.AddedStaysClean` | src/main.ts:279 | After a successful `add`, the next clean at the same instant changes nothing, and ids that are not cached or added remain fresh |
| `FeedProperties.AddOrderIndependent` | tests/add_test.ts:13-47 | Two `add` calls with disjoint, uncached ids leave the same cache, store and result in either order |
| `FeedProperties.RemoveOutcome` | src/main.ts:307-325 | `remove` answers whether the id was cached after the clean; it drops exactly that id, and keeps the others in order with their values |
| `FeedProperties.RemoveConsistent` | src/main.ts:320-324 | `remove` keeps the cache mirroring the store |
| `FeedProperties.LiveWithout` | src/main.ts:283-296 | Leaving out one id's inputs commutes with selecting the live inputs |
| `FeedProperties.LastByIdWithout` | src/main.ts:182-184 | Leaving out one id's inputs changes the surviving value only for that id |
| `FeedProperties.DropOneStrictlySorted` | src/main.ts:324 | Deleting one entry from a strictly ascending cache leaves it strictly ascending |
| `FeedProperties.RemoveAfterAdd` | tests/remove_test.ts:36-96 | Adding events and then removing one of them leaves the cache that adding the others alone would have built |
| `FeedProperties.RemoveAllEmpties` | src/main.ts:339-353 | After `removeAll`, the cache mirrors the store trivially; later `getAll` returns nothing and `has` answers false |
| `FeedProperties.ReadOnce` | src/main.ts:110-113 | A second `#read` changes nothing |
| `FeedProperties.ConstructedRejects` | src/main.ts:93-101 | On an instance that was only constructed, every public call throws `Uninitialized` and changes nothing |
| `FeedProperties.CreateConsistent` | src/main.ts:116-126 | A feed opened on a scan of its store's records mirrors the store |
| `FeedProperties.SetAllFresh` | src/main.ts:122-126 | Loading a scan whose ids are distinct keeps the scan's order |
| `FeedProperties.CreateComplete` | src/main.ts:116-126 | A feed opened on a scan of its store caches every record under the prefix that the opening clean keeps |
| `FeedProperties.CleanedComplete` | src/main.ts:141-147 | After the opening clean of a call at the same or a later instant, every record under the prefix that is not due for cleaning is still cached |
| `FeedProperties.AddComplete` | src/main.ts:157-185 | `add`, succeeding or throwing, leaves every record under the prefix keyed by its event's id and cached unless due for cleaning |
| `FeedProperties.RemoveComplete` | src/main.ts:320-324 | `remove` deletes the key together with the cache entry, so every remaining record not due for cleaning stays cached |
| `FeedProperties.RemoveAllComplete` | src/main.ts:339-353 | After `removeAll`, every record left under the prefix is due for cleaning |
| `FeedProperties.CreateInScanOrder` | src/main.ts:122-126 | Opening on a scan with distinct ids caches the scan, minus the ended events, in scan order |
| `FeedProperties.Reopen` | tests/add_test.ts:23-37 | A new instance over the same store, loading the store's records under the prefix, holds exactly the events the old instance holds after its next clean, and again mirrors the store in both directions |
| `FeedProperties.SameCallDuplicates` | src/main.ts:283-296 | Two inputs with one id in one call are both accepted, and the later one is cached and stored |

## Left out

- Deno KV input and output are not modelled. This covers `openKvToolbox`, the
  `list` iterator with its batch size of `DENO_KV_MAX_BATCH_SIZE`, and
  `close`. Scan consistency across batches is also out. The scan is a
  parameter, and the database is a map from keys to records.
- The database's own reclamation of records past their time-to-live is not
  modelled. A record stays until it is deleted or overwritten.
- `FeedProperties.GetMatchesStore`, and with it `Consistent`,
  `CleanedConsistent` and `Reopen`, hold only while the database keeps every
  record. For an event without an end, `expireIn` is `start - now`
  (src/main.ts:170), but `#clean` keeps it after its start (src/main.ts:143).
  Once the database reclaims its record, the real cache holds an event the
  store no longer has, and a reopened feed would no longer show it.
- Commits always succeed. The batches carry no version checks
  (src/main.ts:173). `RemoveAll` returns the committed batch rather than the
  commit's result object.
- `localeCompare` is replaced by `SegmentCompare`, a lexicographic comparison
  of characters. Locale collation depends on host data the model cannot see.
  `SegmentCompare` is 0 only on identical strings, but `localeCompare` must
  also return 0 for distinct, canonically equivalent strings such as
  `"\u00E9"` and `"e\u0301"` (ECMA-262, `String.prototype.localeCompare`). The model
  therefore excludes ties between distinct ids. `KeyOrdering.CompareFirstDifference`,
  `Sorting.SetAllSorted`, `Sorting.Rebuild`, `Sorting.StrictlySortedUnique` and
  `FeedProperties.AddOrderIndependent` rely on that and hold in the program
  only for ids that `localeCompare` tells apart.
- `Date` parsing, string-typed `end` values, and the `Date`/number conversions
  of `new Date(...)` are left out. Instants are integers.
- The `SharedDate` clock and `new Date()` become the parameter `now`.
- `structuredClone` (src/main.ts:285) is left out. Values are immutable, so
  aliasing cannot arise.
- `async`/`await` scheduling is left out. Each call is one atomic step.
- `CalendarFeed.ToString`: the `ical-generator` encoder and the feed
  information `#info` are folded into the function parameter `render`.
- `CalendarFeed.Dispose`: closing the database is not tracked. It has no
  effect on the model's state.
- The display fields of an event are carried as opaque name/value pairs and
  never inspected.
- `createCalendarFeedAggregator` (src/main.ts:389) is an alias of `create`.
- `FeedProperties.RemoveAfterAdd` compares caches only; the two feeds in the
  remove tests use different prefixes, so their stores differ. It assumes the
  cleaned cache starts in key order, which holds for a new feed's empty cache.
- `FeedProperties.AddOrderIndependent` is stated for two calls at the same
  instant, and holds only for ids that `localeCompare` does not tie (see
  above): two tied ids keep their input order in the stable sort.
- `FeedProperties.Reopen` takes the scan to list each record under the prefix
  exactly once, in some order. The database's scan order, its consistency
  across batches, and other writers are not modelled.
