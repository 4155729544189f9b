# LocalStore: a keyed memoising cache, in Dafny

`LocalStore<T>` caches, per string key, the result of an asynchronous
producer `fn(key)`. The cache has four parts:

- An entry table maps each key to a StoreValue:
  - `value`;
  - `pending`;
  - `updated`, a time stamp;
  - `hasError`;
  - `error`.
- `get(key)` returns a settled, non-errored value straight from the table. Otherwise it asks for a production.
- A production for a key whose entry is still pending is dropped. So at most one production per key is in flight, as long as no pending key is removed.
- A finished production works in three steps:
  1. It writes the settled entry.
  2. It broadcasts that entry to the key's waiters, who resolve with its value or reject with its error.
  3. It runs `checkSize`.

`checkSize` keeps a counter `currentSize` beside the table. It has three paths:

- **Idle.** It returns when the counter is below `maxStoreSize` (default 10000) or when its guard `isCheckingSize` is set.
- **Overflow.** It first sorts the settled entries oldest first. When they hold more errored entries than the quota `ceil(maxStoreSize * 0.2)`, it deletes the quota oldest errored entries, lowers the counter by the quota and returns.
- **Sweep.** Otherwise it deletes every errored entry, then deletes the keys at the first `removeLength` positions of the sorted list. Each delete that succeeds lowers the counter.

`remove` deletes one key or a list of keys. A module-level registry maps each store name to the store last created under it.

## The project

**`entries.dfy` (module `Entries`)** defines:
- the entry datatype and its three written shapes (pending, resolved, errored);
- the outcome of a producer call;
- filtering;
- the stable sort by `updated`, with proofs that it is ascending, a permutation and stable.

**`eviction.dfy` (module `Eviction`)** holds the pure specification of `checkSize`:
- A `Table` snapshot holds the entries, the Map's insertion order, the counter and the guard.
- Functions give the candidate list, the quota, the keys a pass deletes and the snapshot a pass leaves (`AfterPass`).
- Lemmas state what a pass guarantees.

**`local_store.dfy` (module `LocalStores`)** models the cache itself:
- Step functions on snapshots (request, resolve, delete, remove), with lemmas about them.
- `class LocalStore`. Its fields are the table, the insertion order, `currentSize` and the guard. Its methods update them in place, and each method's contract ties the new state to the step function of the old state.
- `class Registry`, the name-to-store map.

**`findings.dfy` (module `Findings`)** covers the two defects listed under "## Findings". For each one it has a lemma about the code as written and a corrected pass with the intended property proved.

Modelling choices:
- **Insertion order.** A JS Map iterates in insertion order. This matters here because the sort is stable, so entries with equal `updated` keep that order. The model keeps the order explicitly as a sequence of keys:
  - `Map.set` on an existing key keeps its position.
  - `Map.set` on a new key appends it.
  - `Map.delete` removes the key.
- **The producer.** The asynchronous production is split into its two synchronous halves:
  - `BeginProduce` covers lines 46-56.
  - `CompleteProduce` is the write and broadcast (lines 62-86) followed by `checkSize` (line 88).
- **Inputs.** The producer's result is an `Outcome` parameter, and the time (`Date.now()`) is a caller-supplied number.

## Model

All source paths are in `local-store/src/local-store.ts`.

| member | source | states |
|---|---|---|
| Entries.PendingEntry | local-store/src/local-store.ts:49-55 | The marker written when a production starts is well formed, pending, non-errored, for the given key and stamped with the current time. |
| Entries.Completed | local-store/src/local-store.ts:62-80 | The settled entry is well formed, not pending, stamped now. It is errored exactly when the producer failed. Settling it gives back exactly the producer's outcome: the value on success, the error on failure. |
| Entries.Settle | local-store/src/local-store.ts:136-145 | What a waiter does with a settled entry: it rejects exactly when the entry is errored, with the stored error, and otherwise resolves with the stored value. |
| Entries.Filter | local-store/src/local-store.ts:101 | Every kept element satisfies the predicate and comes from the input. Every input element that satisfies it is kept. |
| Entries.PartitionLength | local-store/src/local-store.ts:103-104 | The non-errored and errored candidates together are as many as the whole list. |
| Entries.SortByUpdated | local-store/src/local-store.ts:102 | The sorted list is ascending in `updated` and is a permutation of the input (same multiset). |
| Entries.SortIsStable | local-store/src/local-store.ts:102 | Entries with equal `updated` appear in the sorted list in the same relative order as in the input, as with the stable JS sort. |
| Eviction.Touch | local-store/src/local-store.ts:49 | `Map.set` on the insertion order: afterwards the order holds the old keys and the set key. It grows by one exactly when the key is new, and it stays free of repeats. |
| Eviction.Drop | local-store/src/local-store.ts:161 | `Map.delete` of a set of keys on the insertion order: exactly the keys not deleted remain, and the order does not grow. |
| Eviction.DropLength | local-store/src/local-store.ts:107 | Deleting a set of keys from the insertion order shortens it by exactly the number of those keys that are present. |
| Eviction.Values | local-store/src/local-store.ts:100 | `Array.from(store.values())`: one entry per key of the insertion order, in that order, each the entry stored under its key. |
| Eviction.CandidateList | local-store/src/local-store.ts:100-102 | The candidate list is ascending in `updated`. It holds exactly the settled entries of the table. Among entries with equal `updated` it keeps the Map's insertion order. |
| Eviction.Quota | local-store/src/local-store.ts:98 | The quota is the least count whose five-fold reaches the bound, i.e. `ceil(maxStoreSize * 0.2)`. |
| Eviction.SweepLength | local-store/src/local-store.ts:117-118 | `removeLength` is the smaller of `quota - errors.length` and `nonErrors.length`. |
| Eviction.Victims | local-store/src/local-store.ts:100-123 | The keys a pass deletes: none when idle, the quota oldest errored keys in the overflow branch, and otherwise every errored key plus the keys at the first `removeLength` positions of the candidate list. It has no contract; its meaning is given by `VictimsAreSettled`, `OverflowCount`, `OverflowSparesNonErrors`, `OverflowOldestFirst`, `SweepCount`, `SweepClearsErrors` and `SweepOldestFirst`. |
| Eviction.AfterPass | local-store/src/local-store.ts:92-126 | The snapshot one `checkSize` pass leaves: unchanged when idle; otherwise the victims are deleted. The overflow branch lowers the counter by the quota and leaves the guard set. The sweep branch lowers it per actual delete and clears the guard. It has no contract; its meaning is given by `IdlePass`, `PassKeepsInvariant`, `PassSparesPending` and the overflow and sweep lemmas. |
| Eviction.IdlePass | local-store/src/local-store.ts:93-94 | Below the bound, or with the guard set, a pass leaves table, counter and guard unchanged. |
| Eviction.CandidatesOfTable | local-store/src/local-store.ts:100-101 | The candidate list holds each non-pending entry of the table exactly once, and nothing else. |
| Eviction.VictimsAreSettled | local-store/src/local-store.ts:100-123 | Every key a pass deletes belongs to a settled entry of the table. |
| Eviction.PassKeepsInvariant | local-store/src/local-store.ts:92-126 | A pass keeps the table well formed. If the counter equalled the number of entries before, it still does afterwards, in both branches. |
| Eviction.PassSparesPending | local-store/src/local-store.ts:100-101 | A pass never deletes a pending entry, adds no key and leaves every entry it keeps unchanged. |
| Eviction.OverflowCount | local-store/src/local-store.ts:106-110 | In the overflow branch exactly `quota` entries are deleted and the counter drops by `quota`. The guard is left set. |
| Eviction.OverflowSparesNonErrors | local-store/src/local-store.ts:106-107 | In the overflow branch only errored entries are deleted, and every non-errored entry stays. |
| Eviction.OverflowOldestFirst | local-store/src/local-store.ts:102-107 | In the overflow branch no deleted entry is newer than an errored entry that stays. |
| Eviction.SweepCount | local-store/src/local-store.ts:112-125 | In the sweep branch the counter drops by exactly the number of entries deleted. That number is at least the number of errored entries and at most that plus `removeLength`. The guard is cleared. |
| Eviction.SweepClearsErrors | local-store/src/local-store.ts:112-115 | After the sweep branch no errored entry remains. |
| Eviction.SweepOldestFirst | local-store/src/local-store.ts:100-123 | In the sweep branch no deleted non-errored entry is newer than a settled entry that stays. |
| Eviction.KeysCard | local-store/src/local-store.ts:21 | In a well-formed table the insertion order lists exactly as many keys as the table holds. |
| LocalStores.EffectiveMaxSize | local-store/src/local-store.ts:39 | An absent or zero `maxStoreSize` becomes 10000; any other value is kept. The bound is always positive. |
| LocalStores.IsHit | local-store/src/local-store.ts:130 | The hit test of `get`: the key holds an entry that is neither pending nor errored. It has no contract; its meaning is given by `LocalStore.Get` and `ResolveSettlesWaiters`. |
| LocalStores.AfterRequest | local-store/src/local-store.ts:46-56 | A request for a pending key changes nothing. Otherwise the key gets a fresh pending entry stamped now, and the counter grows by one exactly when the key was absent. No other key changes, and the counter stays equal to the number of entries. |
| LocalStores.AfterResolve | local-store/src/local-store.ts:62-82 | The completed entry is written under the key, and the counter and guard are untouched. When the key was still present, counter agreement is unchanged. When it had been removed, the table gains an uncounted entry. |
| LocalStores.AfterDelete | local-store/src/local-store.ts:160-163 | The key is gone. The counter and the entry count drop by one exactly when it was present. |
| LocalStores.AfterRemove | local-store/src/local-store.ts:149-158 | `remove` as one `delete` after another. It keeps the table well formed, leaves the guard alone and keeps the counter equal to the number of entries. `RemoveDeletesKeys` and `RemoveCount` give its effect. |
| LocalStores.RequestCoalesces | local-store/src/local-store.ts:45-47 | After a request the key is pending, and a second request for it changes nothing: at most one production per key is in flight. |
| LocalStores.ResolveSettlesWaiters | local-store/src/local-store.ts:136-145 | What the key's waiters observe is exactly the producer's outcome. The key is a cache hit afterwards exactly when the production succeeded. |
| LocalStores.RemoveWhilePendingDrifts | local-store/src/local-store.ts:82 | Deleting a key while its production is pending, then completing that production, breaks the agreement of counter and entry count. |
| LocalStores.RemoveDeletesKeys | local-store/src/local-store.ts:149-158 | `remove` deletes exactly the listed keys, however often each is listed, and keeps every other entry unchanged. |
| LocalStores.RemoveCount | local-store/src/local-store.ts:149-163 | `remove` lowers the counter by exactly the number of distinct listed keys that were present. |
| LocalStores.ProductionKeepsCount | local-store/src/local-store.ts:45-88 | A request immediately followed by its completion (write and eviction pass) keeps the counter equal to the number of entries. `RunKeepsCount` covers interleavings. |
| LocalStores.ApplyKeepsCount | local-store/src/local-store.ts:45-163 | A request, a completion of a running production, or a `remove` of keys that are not pending each keeps the counter equal to the number of entries. |
| LocalStores.ApplyKeepsPending | local-store/src/local-store.ts:45-163 | Each such operation other than its own completion leaves a running production's pending entry in place and unchanged. |
| LocalStores.RunKeepsCount | local-store/src/local-store.ts:45-163 | Any interleaving of requests, completions and removes keeps the counter equal to the number of entries, as long as no pending key is removed. A completion happens only while its key is pending. |
| LocalStores.RunKeepsPending | local-store/src/local-store.ts:45-56 | In such a run a started production keeps its key pending until its own completion, and every further request for the key is dropped: at most one production per key is in flight. |
| LocalStores.LocalStore.constructor | local-store/src/local-store.ts:38-39 | A new store has an empty table, a zero counter, a clear guard and the effective size bound. |
| LocalStores.LocalStore.MapDelete | local-store/src/local-store.ts:161 | `Map.delete` removes the key from the table and from the insertion order, and reports whether the key was present. |
| LocalStores.LocalStore.BeginProduce | local-store/src/local-store.ts:46-56 | Starts a production exactly when the key is not pending. The new state is `AfterRequest` of the old. |
| LocalStores.LocalStore.Resolve | local-store/src/local-store.ts:62-86 | The broadcast entry is the completed entry, and settling it gives the outcome. The new state is `AfterResolve` of the old. |
| LocalStores.LocalStore.CompleteProduce | local-store/src/local-store.ts:62-88 | Writes and broadcasts the outcome, then runs the eviction pass. The new state is `AfterPass` of `AfterResolve` of the old. |
| LocalStores.LocalStore.CheckSize | local-store/src/local-store.ts:92-126 | The in-place pass leaves exactly the snapshot `AfterPass` specifies, and keeps the table well formed. |
| LocalStores.LocalStore.Overflow | local-store/src/local-store.ts:106-110 | With more errored candidates than the quota, the branch leaves exactly the snapshot `AfterPass` specifies: the quota oldest errored entries are deleted, the counter is lowered by the quota and the guard stays set. |
| LocalStores.LocalStore.DeleteEach | local-store/src/local-store.ts:107 | Deletes the keys of the given entries from the table and the insertion order, without touching the counter. |
| LocalStores.LocalStore.DeleteCounting | local-store/src/local-store.ts:112-123 | Deletes the keys of the given entries, lowering the counter once per key that was present. |
| LocalStores.LocalStore.Sweep | local-store/src/local-store.ts:112-125 | Deletes every errored candidate and the keys of the first `removeLength` candidates. Lowers the counter by the number actually deleted and clears the guard. |
| LocalStores.LocalStore.Get | local-store/src/local-store.ts:128-134 | Returns the stored value and changes nothing exactly when the key holds a settled, non-errored entry. Otherwise it is a production request, which starts a production exactly when the key is not pending. |
| LocalStores.LocalStore.Delete | local-store/src/local-store.ts:160-163 | The new state is `AfterDelete` of the old. |
| LocalStores.LocalStore.Remove | local-store/src/local-store.ts:149-158 | One key, or each key of a list in turn, is deleted. The new state is `AfterRemove` of the old. |
| LocalStores.Registry.Create | local-store/src/local-store.ts:34-43 | A new store is registered under its name, replacing any earlier store of that name; no other name changes. The store is empty, with a zero counter, a clear guard and the effective size bound of line 39. |
| LocalStores.Registry.Lookup | local-store/src/local-store.ts:30-32 | Returns the store last registered under the name, or nothing when there is none. |
| Findings.SweepUnderEvicts | local-store/src/local-store.ts:120-123 | As written: when the oldest candidate is errored, the sweep branch removes fewer entries than the quota, and fewer than there are candidates. |
| Findings.IntendedPassRemovesQuota | local-store/src/local-store.ts:98-125 | Corrected pass (the second loop takes `nonErrors[i]`): it removes exactly `min(quota, candidates)` settled entries. In the sweep branch it leaves no errored entry. It clears the guard and keeps the counter equal to the number of entries. |
| Findings.IntendedVictims | local-store/src/local-store.ts:106-123 | The corrected victim set: like `Victims`, but the sweep takes its extra keys from the non-errored candidates. It has no contract; its meaning is given by `IntendedPassRemovesQuota`. |
| Findings.IntendedAfterPass | local-store/src/local-store.ts:92-126 | The corrected pass: deletes the corrected victims, lowers the counter per actual delete, and clears the guard on every path. It has no contract; its meaning is given by `IntendedPassRemovesQuota` and `IntendedGuardClears`. |
| Findings.GuardLatches | local-store/src/local-store.ts:94-110 | As written: after an overflow pass the guard stays set, and every later pass changes nothing, however full the table is. |
| Findings.IntendedGuardClears | local-store/src/local-store.ts:94-125 | Corrected pass (the guard is cleared on every path): a later pass over a full table does run. |

## Left out

- **RxJS `Subject` plumbing.** The `create` and `listener` subjects and the per-`get` subscriptions are not modelled. The subscriptions are never unsubscribed, so they accumulate. The broadcast is modelled only as the completed entry that a key's waiters observe (`Resolve` returns it, `Settle` gives what they see).
- **Promises and asynchronous interleaving.**
  - Only the two synchronous halves of a production are modelled.
  - Any interleaving is expressible as a sequence of method calls.
  - Counter agreement (`RunKeepsCount`) is proved only for runs in which no pending key is removed. `RemoveWhilePendingDrifts` shows the agreement breaks otherwise.
  - Coalescing holds only under the same condition. `RequestCoalesces`, `BeginProduce` and `RunKeepsPending` say that a request for a pending key is dropped. But a `remove` of a pending key deletes its marker (lines 149-163). A later `get` then starts a second production (lines 46-47) while the first is still running. The model does not state how many productions are in flight in that case.
- **`Date.now()`** is a caller-supplied natural number, and its monotonicity is not assumed.
- **`console.log`** (line 58) is not modelled.
- **The producer `fn` itself.** Its result is an `Outcome` parameter of `CompleteProduce`.
- **`maxStoreSize` values.** Negative, fractional and `NaN` values are not modelled: the bound is an optional natural number.
- **Quota:** models `Math.ceil(maxStoreSize * 0.2)` as the exact integer ceiling of `maxStoreSize / 5`. Floating-point rounding of the product is not modelled.
- **`error` payload.** It is of type `any` in the source; here it is the type parameter `E`.
- **`get` inputs.** `get` on a hit returns the value. Otherwise its result is a `Requested` marker, and the value arrives through `CompleteProduce`.
- **Registry typing.** The registry holds stores of a single value type, where the source's `Map<string, LocalStore<any>>` and the unchecked cast in `LocalStore.get` allow mixing.
- **Other files.**
  - `local-store/src/index.ts` (a demo driver) is not part of this model.
  - `mongodb-backup/` (database backup I/O) is not part of this model.
- **LocalStores.LocalStore.Remove:** states only that its new state is `AfterRemove` of the old. What that removal does to the table and the counter is proved separately, in `RemoveDeletesKeys` and `RemoveCount`.
- **LocalStores.LocalStore.CheckSize:** states the new state as `AfterPass` of the old. The properties of the pass (counts, oldest-first, pending entries spared, invariant kept) are the `Eviction` lemmas about `AfterPass`.

## Findings

The class models the code as written. The corrected pass is `Findings.IntendedAfterPass`, built on `Findings.IntendedVictims`.

| source | as written | input that shows it | evidently intended | confidence | as-written member | corrected member |
|---|---|---|---|---|---|---|
| local-store/src/local-store.ts:121 | The second loop deletes `list[i].key`. But `list` is the whole candidate list ordered by `updated` (line 102), errored entries included. Whenever an errored entry lies among `list[..removeLength]`, that delete repeats one the first loop already made and fails. A non-errored entry that should have gone survives. | `maxStoreSize` 10 (quota 2). The table holds ten settled entries, and only the oldest of them is errored. The pass removes only that one entry, not two. | Delete `nonErrors[i].key`, so that the pass removes `min(quota, candidates)` entries. | not executed | Findings.SweepUnderEvicts | Findings.IntendedPassRemovesQuota |
| local-store/src/local-store.ts:109 | The overflow branch returns with `isCheckingSize` still `true`, and nothing else clears it. | Any pass that finds more errored candidates than the quota. From then on line 94 returns early on every call, and the table grows without bound. | Clear the guard before returning, as line 125 does. | not executed | Findings.GuardLatches | Findings.IntendedGuardClears |
