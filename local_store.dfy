/** LocalStore<T>: a keyed memoising cache. `get` serves settled values
    from the entry table and otherwise asks for a production; a production
    for a key whose entry is pending is dropped, so at most one runs per
    key; a completed production writes its entry and then runs the
    eviction pass. The asynchronous producer is split into its two
    synchronous halves, BeginProduce and CompleteProduce, and time is a
    caller-supplied number. */
module LocalStores {
  import opened Entries
  import opened Eviction

  const DefaultMaxStoreSize: nat := 10000

  /** `if (!props.maxStoreSize) props.maxStoreSize = 10000`: an absent or
      zero bound falls back to the default. */
  function EffectiveMaxSize(requested: Option<nat>): (m: nat)
    ensures m > 0
    ensures requested.Some? && requested.value > 0 ==> m == requested.value
    ensures requested.None? || requested.value == 0 ==> m == DefaultMaxStoreSize
  {
    if requested.None? || requested.value == 0 then DefaultMaxStoreSize else requested.value
  }

  /** The cache-hit test of `get`: a settled, non-errored entry exists. */
  predicate IsHit<T, E>(store: map<string, Entry<T, E>>, key: string)
  {
    key in store && !store[key].pending && !store[key].hasError
  }

  predicate IsPending<T, E>(store: map<string, Entry<T, E>>, key: string)
  {
    key in store && store[key].pending
  }

  /** What `get` does: return the cached value, or request a production
      (`started` says whether the request started one). */
  datatype Lookup<T> = Hit(value: T) | Requested(started: bool)

  /** The argument of `remove`: one key or an array of keys. */
  datatype KeyArg = Single(key: string) | Many(keys: seq<string>)

  function ArgKeys(arg: KeyArg): seq<string>
  {
    match arg
    case Single(k) => [k]
    case Many(ks) => ks
  }

  // ---------------------------------------------------------------------
  // The steps of the cache on snapshots

  /** A production request (lines 46-56): dropped when the key is pending,
      otherwise the key gets a fresh pending entry and the counter grows
      when the key was absent. */
  ghost function AfterRequest<T, E>(t: Table<T, E>, key: string, now: nat): (r: Table<T, E>)
    requires Valid(t)
    ensures Valid(r) && r.checking == t.checking
    ensures IsPending(t.store, key) ==> r == t
    ensures !IsPending(t.store, key) ==>
              key in r.store && r.store[key] == PendingEntry(key, now)
              && r.currentSize == t.currentSize + (if key in t.store then 0 else 1)
    ensures forall k | k != key :: (k in r.store <==> k in t.store)
    ensures forall k | k != key && k in t.store :: r.store[k] == t.store[k]
    ensures Consistent(t) ==> Consistent(r)
  {
    if IsPending(t.store, key) then t
    else Table(t.store[key := PendingEntry(key, now)], Touch(t.order, key),
               t.currentSize + (if key in t.store then 0 else 1), t.checking)
  }

  /** Writing the settled entry (lines 62-82): the counter is not touched,
      so it stays equal to the number of entries only when the key was
      still present. */
  ghost function AfterResolve<T, E>(t: Table<T, E>, key: string, outcome: Outcome<T, E>, now: nat): (r: Table<T, E>)
    requires Valid(t)
    ensures Valid(r) && r.checking == t.checking && r.currentSize == t.currentSize
    ensures r.store == t.store[key := Completed(key, outcome, now)]
    ensures key in t.store ==> (Consistent(r) <==> Consistent(t))
    ensures key !in t.store ==> |r.order| == |t.order| + 1
  {
    Table(t.store[key := Completed(key, outcome, now)], Touch(t.order, key), t.currentSize, t.checking)
  }

  /** The private `delete` (lines 160-163): the counter drops only when the
      key was present. */
  ghost function AfterDelete<T, E>(t: Table<T, E>, key: string): (r: Table<T, E>)
    requires Valid(t)
    ensures Valid(r) && r.checking == t.checking
    ensures r.store == t.store - {key}
    ensures r.currentSize == t.currentSize - (if key in t.store then 1 else 0)
    ensures |r.order| == |t.order| - (if key in t.store then 1 else 0)
    ensures Consistent(t) ==> Consistent(r)
  {
    DeleteIndexed(t.store, t.order, key);
    Table(t.store - {key}, Drop(t.order, {key}),
          t.currentSize - (if key in t.store then 1 else 0), t.checking)
  }

  /** `remove` over a list of keys, one `delete` after another. */
  ghost function AfterRemove<T, E>(t: Table<T, E>, keys: seq<string>): (r: Table<T, E>)
    requires Valid(t)
    ensures Valid(r) && r.checking == t.checking
    ensures Consistent(t) ==> Consistent(r)
  {
    if keys == [] then t
    else AfterDelete(AfterRemove(t, keys[..|keys| - 1]), keys[|keys| - 1])
  }

  // ---------------------------------------------------------------------
  // Properties of the steps

  /** Coalescing: once a request has started a production, a second
      request for the same key changes nothing until it completes. */
  lemma RequestCoalesces<T, E>(t: Table<T, E>, key: string, now: nat, later: nat)
    requires Valid(t)
    ensures IsPending(AfterRequest(t, key, now).store, key)
    ensures AfterRequest(AfterRequest(t, key, now), key, later) == AfterRequest(t, key, now)
  {
  }

  /** The waiters of a key observe exactly the outcome of its production,
      and the key is a cache hit afterwards exactly when it succeeded. */
  lemma ResolveSettlesWaiters<T, E>(t: Table<T, E>, key: string, outcome: Outcome<T, E>, now: nat)
    requires Valid(t)
    ensures Settle(AfterResolve(t, key, outcome, now).store[key]) == outcome
    ensures IsHit(AfterResolve(t, key, outcome, now).store, key) <==> outcome.Ok?
  {
  }

  /** Removing a key that the production is still running for breaks the
      agreement of counter and table: the later write re-inserts the key
      without counting it. */
  lemma RemoveWhilePendingDrifts<T, E>(t: Table<T, E>, key: string, outcome: Outcome<T, E>, now: nat)
    requires Valid(t) && Consistent(t) && IsPending(t.store, key)
    ensures !Consistent(AfterResolve(AfterDelete(t, key), key, outcome, now))
  {
  }

  /** `remove` deletes exactly the listed keys, however often each is
      listed, and leaves the guard as it was. */
  lemma {:induction false} RemoveDeletesKeys<T, E>(t: Table<T, E>, keys: seq<string>)
    requires Valid(t)
    ensures AfterRemove(t, keys).store == t.store - Elems(keys)
  {
    if keys != [] {
      var n := |keys| - 1;
      RemoveDeletesKeys(t, keys[..n]);
      RemoveLast(t, keys);
      ElemsLast(keys);
    }
  }

  /** `remove` lowers the counter by one per distinct listed key that was
      present. */
  lemma {:induction false} RemoveCount<T, E>(t: Table<T, E>, keys: seq<string>)
    requires Valid(t)
    ensures AfterRemove(t, keys).currentSize == t.currentSize - |Elems(keys) * t.store.Keys|
  {
    if keys == [] {
      assert Elems(keys) == {};
    } else {
      var n := |keys| - 1;
      RemoveCount(t, keys[..n]);
      RemoveDeletesKeys(t, keys[..n]);
      RemoveLast(t, keys);
      ElemsLast(keys);
      CountAfter(t.currentSize, AfterRemove(t, keys[..n]).currentSize, AfterRemove(t, keys).currentSize,
                 Elems(keys[..n]), keys[n], t.store.Keys);
    }
  }

  lemma RemoveStep<T, E>(t: Table<T, E>, keys: seq<string>, i: nat)
    requires Valid(t) && i < |keys|
    ensures AfterRemove(t, keys[..i + 1]) == AfterDelete(AfterRemove(t, keys[..i]), keys[i])
  {
    assert keys[..i + 1][..i] == keys[..i];
  }

  lemma RemoveLast<T, E>(t: Table<T, E>, keys: seq<string>)
    requires Valid(t) && keys != []
    ensures var prev := AfterRemove(t, keys[..|keys| - 1]);
            AfterRemove(t, keys).store == prev.store - {keys[|keys| - 1]}
    ensures var prev := AfterRemove(t, keys[..|keys| - 1]);
            AfterRemove(t, keys).currentSize == prev.currentSize - (if keys[|keys| - 1] in prev.store then 1 else 0)
  {
  }

  lemma ElemsLast(keys: seq<string>)
    requires keys != []
    ensures Elems(keys) == Elems(keys[..|keys| - 1]) + {keys[|keys| - 1]}
  {
    assert keys == keys[..|keys| - 1] + [keys[|keys| - 1]];
  }

  lemma CountAfter(before: int, mid: int, after: int, s: set<string>, k: string, present: set<string>)
    requires mid == before - |s * present|
    requires after == mid - (if k in present && k !in s then 1 else 0)
    ensures after == before - |(s + {k}) * present|
  {
    if k !in s && k in present {
      assert (s + {k}) * present == s * present + {k};
    } else {
      assert (s + {k}) * present == s * present;
    }
  }

  /** With no `remove` between the start and the end of a production, the
      counter stays equal to the number of entries across a request, the
      write of its outcome and the eviction pass. */
  lemma ProductionKeepsCount<T, E>(t: Table<T, E>, key: string, outcome: Outcome<T, E>, start: nat, now: nat, maxSize: nat)
    requires Valid(t) && Consistent(t)
    ensures Consistent(AfterPass(AfterResolve(AfterRequest(t, key, start), key, outcome, now), maxSize))
  {
    PassKeepsInvariant(AfterResolve(AfterRequest(t, key, start), key, outcome, now), maxSize);
  }

  // ---------------------------------------------------------------------
  // Runs of operations

  /** What the cache does as seen from outside: a `get` that misses (a
      production request), the end of a production (its write, broadcast
      and eviction pass), or a `remove`. */
  datatype Op<T, E> =
    | Request(key: string, now: nat)
    | Complete(key: string, outcome: Outcome<T, E>, now: nat)
    | RemoveKeys(keys: seq<string>)

  ghost function Apply<T, E>(t: Table<T, E>, maxSize: nat, op: Op<T, E>): (r: Table<T, E>)
    requires Valid(t)
    ensures Valid(r)
  {
    match op
    case Request(key, now) => AfterRequest(t, key, now)
    case Complete(key, outcome, now) =>
      PassKeepsInvariant(AfterResolve(t, key, outcome, now), maxSize);
      AfterPass(AfterResolve(t, key, outcome, now), maxSize)
    case RemoveKeys(keys) => AfterRemove(t, keys)
  }

  /** The operations of a sequential run with no `remove` of a key whose
      production is running: a production completes only while its key
      is pending, and `remove` lists no pending key. */
  ghost predicate Allowed<T, E>(t: Table<T, E>, op: Op<T, E>)
  {
    match op
    case Request(_, _) => true
    case Complete(key, _, _) => IsPending(t.store, key)
    case RemoveKeys(keys) => forall i | 0 <= i < |keys| :: !IsPending(t.store, keys[i])
  }

  ghost function Run<T, E>(t: Table<T, E>, maxSize: nat, ops: seq<Op<T, E>>): (r: Table<T, E>)
    requires Valid(t)
    ensures Valid(r)
    decreases |ops|
  {
    if ops == [] then t else Run(Apply(t, maxSize, ops[0]), maxSize, ops[1..])
  }

  ghost predicate AllowedRun<T, E>(t: Table<T, E>, maxSize: nat, ops: seq<Op<T, E>>)
    requires Valid(t)
    decreases |ops|
  {
    ops == [] || (Allowed(t, ops[0]) && AllowedRun(Apply(t, maxSize, ops[0]), maxSize, ops[1..]))
  }

  /** An allowed operation keeps the counter equal to the number of
      entries. */
  lemma ApplyKeepsCount<T, E>(t: Table<T, E>, maxSize: nat, op: Op<T, E>)
    requires Valid(t) && Consistent(t) && Allowed(t, op)
    ensures Consistent(Apply(t, maxSize, op))
  {
    if op.Complete? {
      PassKeepsInvariant(AfterResolve(t, op.key, op.outcome, op.now), maxSize);
    }
  }

  /** A running production stays running under every allowed operation
      other than its own completion, so a second request for its key is
      dropped: at most one production per key is in flight. */
  lemma ApplyKeepsPending<T, E>(t: Table<T, E>, maxSize: nat, op: Op<T, E>, k: string)
    requires Valid(t) && Allowed(t, op) && IsPending(t.store, k)
    requires !(op.Complete? && op.key == k)
    ensures IsPending(Apply(t, maxSize, op).store, k)
    ensures Apply(t, maxSize, op).store[k] == t.store[k]
  {
    match op
    case Request(key, now) =>
    case Complete(key, outcome, now) =>
      PassSparesPending(AfterResolve(t, key, outcome, now), maxSize);
    case RemoveKeys(keys) =>
      RemoveDeletesKeys(t, keys);
      assert k !in Elems(keys);
  }

  /** With no `remove` of a pending key, every run of requests, completions
      and removes, in any interleaving, keeps the counter equal to the
      number of entries. */
  lemma {:induction false} RunKeepsCount<T, E>(t: Table<T, E>, maxSize: nat, ops: seq<Op<T, E>>)
    requires Valid(t) && Consistent(t) && AllowedRun(t, maxSize, ops)
    ensures Consistent(Run(t, maxSize, ops))
    decreases |ops|
  {
    if ops != [] {
      ApplyKeepsCount(t, maxSize, ops[0]);
      RunKeepsCount(Apply(t, maxSize, ops[0]), maxSize, ops[1..]);
    }
  }

  /** In such a run a production started for `k` keeps its pending entry
      until its own completion, so no second production for `k` starts. */
  lemma {:induction false} RunKeepsPending<T, E>(t: Table<T, E>, maxSize: nat, ops: seq<Op<T, E>>, k: string, later: nat)
    requires Valid(t) && AllowedRun(t, maxSize, ops) && IsPending(t.store, k)
    requires forall i | 0 <= i < |ops| :: !(ops[i].Complete? && ops[i].key == k)
    ensures IsPending(Run(t, maxSize, ops).store, k)
    ensures AfterRequest(Run(t, maxSize, ops), k, later) == Run(t, maxSize, ops)
    decreases |ops|
  {
    if ops != [] {
      ApplyKeepsPending(t, maxSize, ops[0], k);
      assert forall i | 0 <= i < |ops[1..]| :: ops[1..][i] == ops[i + 1];
      RunKeepsPending(Apply(t, maxSize, ops[0]), maxSize, ops[1..], k, later);
    }
  }

  // ---------------------------------------------------------------------
  // The class

  class LocalStore<T, E> {
    const storeName: string
    const maxStoreSize: nat
    var store: map<string, Entry<T, E>>
    /** The order in which the `store` Map iterates its keys. */
    var order: seq<string>
    var currentSize: int
    /** `isCheckingSize`. */
    var checking: bool

    function Snapshot(): Table<T, E>
      reads this
    {
      Table(store, order, currentSize, checking)
    }

    ghost predicate Valid()
      reads this
    {
      Eviction.Valid(Snapshot())
    }

    ghost predicate Consistent()
      reads this
    {
      Eviction.Consistent(Snapshot())
    }

    /** Lines 38-39: an empty table, the counter at zero, the guard clear. */
    constructor (storeName: string, requestedMax: Option<nat>)
      ensures Valid() && Consistent()
      ensures this.storeName == storeName && maxStoreSize == EffectiveMaxSize(requestedMax)
      ensures store == map[] && order == [] && currentSize == 0 && !checking
    {
      this.storeName := storeName;
      maxStoreSize := EffectiveMaxSize(requestedMax);
      store := map[];
      order := [];
      currentSize := 0;
      checking := false;
    }

    /** `Map.prototype.delete`: removes the key and says whether it was
        there. */
    method MapDelete(key: string) returns (res: bool)
      requires Valid()
      modifies this`store, this`order
      ensures Valid()
      ensures res == (key in old(store))
      ensures store == old(store) - {key} && order == Drop(old(order), {key})
      ensures |order| == old(|order|) - (if res then 1 else 0)
    {
      res := key in store;
      DeleteIndexed(store, order, key);
      store := store - {key};
      order := Drop(order, {key});
    }

    /** The subscriber of `create`, up to the producer call (lines 46-56). */
    method BeginProduce(key: string, now: nat) returns (started: bool)
      requires Valid()
      modifies this
      ensures Valid()
      ensures started <==> !IsPending(old(store), key)
      ensures Snapshot() == AfterRequest(old(Snapshot()), key, now)
    {
      var existing := if key in store then Some(store[key]) else None;
      if existing.Some? && existing.value.pending {
        return false;
      }
      store := store[key := PendingEntry(key, now)];
      order := Touch(order, key);
      if existing.None? {
        currentSize := currentSize + 1;
      }
      started := true;
    }

    /** Lines 62-86: builds the settled entry from the outcome, writes it
        and returns it as the broadcast for `key`. */
    method Resolve(key: string, outcome: Outcome<T, E>, now: nat) returns (notice: Entry<T, E>)
      requires Valid()
      modifies this
      ensures Valid()
      ensures notice == Completed(key, outcome, now) && Settle(notice) == outcome
      ensures Snapshot() == AfterResolve(old(Snapshot()), key, outcome, now)
    {
      var response: Entry<T, E>;
      match outcome {
        case Ok(value) =>
          response := Entry(key, Some(value), false, now, false, None);
        case Err(error) =>
          response := Entry(key, None, false, now, true, Some(error));
      }
      store := store[key := response];
      order := Touch(order, key);
      notice := response;
    }

    /** The end of the subscriber: write the outcome, broadcast it, then
        run the eviction pass (line 88). */
    method CompleteProduce(key: string, outcome: Outcome<T, E>, now: nat) returns (notice: Entry<T, E>)
      requires Valid()
      modifies this
      ensures Valid()
      ensures notice == Completed(key, outcome, now) && Settle(notice) == outcome
      ensures Snapshot() == AfterPass(AfterResolve(old(Snapshot()), key, outcome, now), maxStoreSize)
    {
      notice := Resolve(key, outcome, now);
      CheckSize();
    }

    /** `checkSize` (lines 92-126). */
    method CheckSize()
      requires Valid()
      modifies this
      ensures Valid()
      ensures Snapshot() == AfterPass(old(Snapshot()), maxStoreSize)
    {
      ghost var t := Snapshot();
      if currentSize < maxStoreSize {
        IdlePass(t, maxStoreSize);
        return;
      }
      if checking {
        IdlePass(t, maxStoreSize);
        return;
      }
      checking := true;

      var toBeRemovedCount := Quota(maxStoreSize);
      var list := CandidateList(order, store);
      var nonErrors := Filter(list, IsOk);
      var errors := Filter(list, IsFailed);
      assert list == Candidates(t) && errors == Errors(t);

      if |errors| > toBeRemovedCount {
        Overflow(t, errors, toBeRemovedCount);
        return;
      }

      Sweep(list, nonErrors, errors, toBeRemovedCount);
      SweepPassIs(t, maxStoreSize, list, errors, toBeRemovedCount, store, order, currentSize);
    }

    /** The overflow branch of `checkSize` (lines 106-110): delete the
        `toBeRemovedCount` oldest errored entries, lower the counter by that
        count and return with the guard still set. */
    method Overflow(ghost t: Table<T, E>, errors: seq<Entry<T, E>>, toBeRemovedCount: nat)
      requires Eviction.Valid(t) && Triggered(t, maxStoreSize)
      requires store == t.store && order == t.order && currentSize == t.currentSize && checking
      requires errors == Errors(t) && toBeRemovedCount == Quota(maxStoreSize) && |errors| > toBeRemovedCount
      modifies this`store, this`order, this`currentSize
      ensures Valid()
      ensures Snapshot() == AfterPass(t, maxStoreSize)
    {
      DeleteEach(errors[..toBeRemovedCount]);
      currentSize := currentSize - toBeRemovedCount;
      assert Snapshot() == Table(store, order, t.currentSize - toBeRemovedCount, true);
      OverflowPassIs(t, maxStoreSize, errors, toBeRemovedCount, store, order);
    }

    /** The rest of `checkSize` when the errored candidates fit in the quota
        (lines 112-125): delete every errored entry, then the keys at the
        first `removeLength` positions of the candidate list, lowering the
        counter on each successful delete, and clear the guard. */
    method Sweep(list: seq<Entry<T, E>>, nonErrors: seq<Entry<T, E>>, errors: seq<Entry<T, E>>, toBeRemovedCount: nat)
      requires Valid()
      requires errors == Filter(list, IsFailed) && nonErrors == Filter(list, IsOk)
      requires |errors| <= toBeRemovedCount
      modifies this`store, this`order, this`currentSize, this`checking
      ensures Valid() && !checking
      ensures var v := KeySet(errors) + KeySet(list[..SweepLength(list, toBeRemovedCount)]);
              store == old(store) - v && order == Drop(old(order), v)
      ensures currentSize == old(currentSize) - (old(|order|) - |order|)
    {
      ghost var store0, order0, size0 := store, order, currentSize;
      ghost var a := KeySet(errors);
      DeleteCounting(errors);
      ghost var order1, size1 := order, currentSize;
      assert size1 == size0 - (|order0| - |order1|);

      var remaining := toBeRemovedCount - |errors|;
      var removeLength := if remaining > |nonErrors| then |nonErrors| else remaining;
      assert removeLength == SweepLength(list, toBeRemovedCount);
      PartitionLength(list);

      ghost var b := KeySet(list[..removeLength]);
      DeleteCounting(list[..removeLength]);
      assert currentSize == size1 - (|order1| - |order|);
      DropDrop(order0, a, b);
      MapMinusMinus(store0, a, b);

      checking := false;
    }

    /** The overflow branch of `checkSize` (line 107): `Map.delete` of each
        key, without touching the counter. */
    method DeleteEach(victims: seq<Entry<T, E>>)
      requires Valid()
      modifies this`store, this`order
      ensures Valid()
      ensures store == old(store) - KeySet(victims)
      ensures order == Drop(old(order), KeySet(victims))
    {
      ghost var t := Snapshot();
      DropNothing(t.order);
      assert KeySet(victims[..0]) == {};
      assert t.store - {} == t.store;
      for i := 0 to |victims|
        invariant Valid()
        invariant store == t.store - KeySet(victims[..i])
        invariant order == Drop(t.order, KeySet(victims[..i]))
      {
        var deleted := MapDelete(victims[i].key);
        KeySetStep(victims, i);
        MapMinusMinus(t.store, KeySet(victims[..i]), {victims[i].key});
        DropDrop(t.order, KeySet(victims[..i]), {victims[i].key});
      }
      assert victims[..|victims|] == victims;
    }

    /** The two sweep loops of `checkSize` (lines 112-123): `Map.delete` of
        each key, lowering the counter when the key was there. */
    method DeleteCounting(victims: seq<Entry<T, E>>)
      requires Valid()
      modifies this`store, this`order, this`currentSize
      ensures Valid()
      ensures store == old(store) - KeySet(victims)
      ensures order == Drop(old(order), KeySet(victims))
      ensures currentSize == old(currentSize) - (old(|order|) - |order|)
    {
      ghost var t := Snapshot();
      DropNothing(t.order);
      assert KeySet(victims[..0]) == {};
      assert t.store - {} == t.store;
      for i := 0 to |victims|
        invariant Valid()
        invariant store == t.store - KeySet(victims[..i])
        invariant order == Drop(t.order, KeySet(victims[..i]))
        invariant currentSize - |order| == t.currentSize - |t.order|
      {
        var res := MapDelete(victims[i].key);
        if res {
          currentSize := currentSize - 1;
        }
        assert currentSize - |order| == t.currentSize - |t.order|;
        KeySetStep(victims, i);
        MapMinusMinus(t.store, KeySet(victims[..i]), {victims[i].key});
        DropDrop(t.order, KeySet(victims[..i]), {victims[i].key});
      }
      assert victims[..|victims|] == victims;
    }

    /** `get` (lines 128-134): a hit returns the value and changes nothing;
        anything else is a production request. */
    method Get(key: string, now: nat) returns (r: Lookup<T>)
      requires Valid()
      modifies this
      ensures Valid()
      ensures r.Hit? <==> IsHit(old(store), key)
      ensures r.Hit? ==> Some(r.value) == old(store)[key].value && Snapshot() == old(Snapshot())
      ensures r.Requested? ==> (r.started <==> !IsPending(old(store), key))
      ensures r.Requested? ==> Snapshot() == AfterRequest(old(Snapshot()), key, now)
    {
      if key in store {
        var existing := store[key];
        if !existing.pending && !existing.hasError {
          return Hit(existing.value.value);
        }
      }
      var started := BeginProduce(key, now);
      r := Requested(started);
    }

    /** The private `delete` (lines 160-163). */
    method Delete(key: string)
      requires Valid()
      modifies this
      ensures Valid()
      ensures Snapshot() == AfterDelete(old(Snapshot()), key)
    {
      var res := MapDelete(key);
      if res {
        currentSize := currentSize - 1;
      }
    }

    /** `remove` (lines 149-158): one key, or each key of a list in turn. */
    method Remove(arg: KeyArg)
      requires Valid()
      modifies this
      ensures Valid()
      ensures Snapshot() == AfterRemove(old(Snapshot()), ArgKeys(arg))
    {
      ghost var t := Snapshot();
      match arg {
        case Many(keys) =>
          for i := 0 to |keys|
            invariant Valid()
            invariant Snapshot() == AfterRemove(t, keys[..i])
          {
            Delete(keys[i]);
            RemoveStep(t, keys, i);
          }
          assert keys[..|keys|] == keys;
        case Single(key) =>
          Delete(key);
          RemoveStep(t, [key], 0);
          assert [key][..0] == [] && [key][..1] == [key];
      }
    }
  }

  // ---------------------------------------------------------------------
  // The registry of stores by name (lines 3, 30-36, 43)

  class Registry<T, E> {
    var stores: map<string, LocalStore<T, E>>

    constructor ()
      ensures stores == map[]
    {
      stores := map[];
    }

    /** `LocalStore.create`: a new, empty store registered under its name,
        replacing any earlier store of that name. */
    method Create(storeName: string, maxStoreSize: Option<nat>) returns (s: LocalStore<T, E>)
      modifies this
      ensures fresh(s) && s.Valid() && s.Consistent()
      ensures s.storeName == storeName && s.maxStoreSize == EffectiveMaxSize(maxStoreSize)
      ensures s.store == map[] && s.order == [] && s.currentSize == 0 && !s.checking
      ensures stores == old(stores)[storeName := s]
    {
      s := new LocalStore(storeName, maxStoreSize);
      stores := stores[storeName := s];
    }

    /** `LocalStore.get`: the store last registered under the name, if any. */
    function Lookup(storeName: string): (r: Option<LocalStore<T, E>>)
      reads this
      ensures r.Some? <==> storeName in stores
      ensures r.Some? ==> r.value == stores[storeName]
    {
      if storeName in stores then Some(stores[storeName]) else None
    }
  }
}
