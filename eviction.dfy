/** The state `checkSize` works on and what one pass of it does to that
    state, as a pure specification: the candidate list, the quota, the
    keys a pass deletes and the state it leaves. */
module Eviction {
  import opened Entries

  /** A snapshot of a LocalStore: the `store` Map (its entries, and in
      `order` the insertion order a JS Map iterates in), the `currentSize`
      counter and the `isCheckingSize` guard. */
  datatype Table<T, E> = Table(
    store: map<string, Entry<T, E>>,
    order: seq<string>,
    currentSize: int,
    checking: bool)

  predicate Distinct(o: seq<string>)
  {
    forall i, j | 0 <= i < j < |o| :: o[i] != o[j]
  }

  ghost function Elems(o: seq<string>): set<string>
  {
    set x | x in o
  }

  /** What every reachable snapshot satisfies: each key is listed once in
      insertion order, every entry is filed under its own key and has one
      of the three written shapes. */
  ghost predicate Valid<T, E>(t: Table<T, E>)
  {
    Indexed(t.store, t.order)
  }

  /** The part of `Valid` about the entries and their order alone; the
      counter and the guard are free. */
  ghost predicate Indexed<T, E>(store: map<string, Entry<T, E>>, order: seq<string>)
  {
    && Distinct(order)
    && (forall k :: k in store <==> k in order)
    && (forall k | k in store :: store[k].key == k && WellFormed(store[k]))
  }

  /** The counter agrees with the number of entries (`store.size`). */
  ghost predicate Consistent<T, E>(t: Table<T, E>)
  {
    t.currentSize == |t.order|
  }

  // ---------------------------------------------------------------------
  // Insertion order of a JS Map

  /** Map.set: a new key goes to the end, an existing key keeps its place. */
  function Touch(o: seq<string>, key: string): (r: seq<string>)
    ensures forall x :: x in r <==> x in o || x == key
    ensures |r| == if key in o then |o| else |o| + 1
    ensures Distinct(o) ==> Distinct(r)
  {
    if key in o then o else o + [key]
  }

  /** Map.delete of every key in `s`: the other keys keep their order. */
  function Drop(o: seq<string>, s: set<string>): (r: seq<string>)
    ensures forall x :: x in r <==> x in o && x !in s
    ensures |r| <= |o|
  {
    if o == [] then []
    else (if o[0] in s then [] else [o[0]]) + Drop(o[1..], s)
  }

  lemma {:induction false} DropDistinct(o: seq<string>, s: set<string>)
    requires Distinct(o)
    ensures Distinct(Drop(o, s))
  {
    if o != [] {
      DropDistinct(o[1..], s);
      assert o[0] !in o[1..] by {
        forall j | 0 <= j < |o[1..]| ensures o[1..][j] != o[0] {
          assert o[1..][j] == o[j + 1];
        }
      }
    }
  }

  /** Deleting in two rounds is deleting the union. */
  lemma {:induction false} DropDrop(o: seq<string>, a: set<string>, b: set<string>)
    ensures Drop(Drop(o, a), b) == Drop(o, a + b)
  {
    if o != [] {
      DropDrop(o[1..], a, b);
      if o[0] in a {
        assert Drop(o, a) == Drop(o[1..], a);
      } else {
        var d := Drop(o, a);
        assert d == [o[0]] + Drop(o[1..], a);
        assert d[1..] == Drop(o[1..], a);
      }
    }
  }

  /** Deleting two sets of keys from a map one after the other. */
  lemma MapMinusMinus<V>(m: map<string, V>, a: set<string>, b: set<string>)
    ensures (m - a) - b == m - (a + b)
  {
  }

  /** Deleting no key leaves the order as it is. */
  lemma {:induction false} DropNothing(o: seq<string>)
    ensures Drop(o, {}) == o
  {
    if o != [] {
      DropNothing(o[1..]);
      assert o == [o[0]] + o[1..];
    }
  }

  /** The length drops by exactly the number of listed keys deleted. */
  lemma {:induction false} DropLength(o: seq<string>, s: set<string>)
    requires Distinct(o)
    ensures |Drop(o, s)| == |o| - |s * Elems(o)|
  {
    if o == [] {
      assert s * Elems(o) == {};
    } else {
      var r := o[1..];
      HeadApart(o);
      DropLength(r, s);
      assert |Drop(o, s)| == (if o[0] in s then 0 else 1) + |Drop(r, s)|;
      MeetStep(s, o[0], Elems(r));
    }
  }

  /** Adding a fresh element to one side of an intersection. */
  lemma MeetStep(s: set<string>, x: string, rest: set<string>)
    requires x !in rest
    ensures |s * ({x} + rest)| == |s * rest| + (if x in s then 1 else 0)
  {
    if x in s {
      assert s * ({x} + rest) == {x} + s * rest;
    } else {
      assert s * ({x} + rest) == s * rest;
    }
  }

  /** `Map.delete` of one key keeps the entries indexed by their order,
      which shortens by one exactly when the key was there. */
  lemma DeleteIndexed<T, E>(store: map<string, Entry<T, E>>, order: seq<string>, key: string)
    requires Indexed(store, order)
    ensures Indexed(store - {key}, Drop(order, {key}))
    ensures |Drop(order, {key})| == |order| - (if key in store then 1 else 0)
  {
    DropDistinct(order, {key});
    DropLength(order, {key});
    if key in store {
      assert {key} * Elems(order) == {key};
    } else {
      assert {key} * Elems(order) == {};
    }
  }

  /** The head of a list of distinct keys is not among the rest. */
  lemma HeadApart(o: seq<string>)
    requires Distinct(o) && o != []
    ensures Distinct(o[1..])
    ensures o[0] !in Elems(o[1..])
    ensures Elems(o) == {o[0]} + Elems(o[1..])
  {
    var r := o[1..];
    forall j | 0 <= j < |r| ensures r[j] != o[0] {
      assert r[j] == o[j + 1];
    }
    assert o == [o[0]] + r;
  }

  // ---------------------------------------------------------------------
  // The candidate list of `checkSize` (lines 100-104)

  /** `Array.from(store.values())`: the entries in insertion order. */
  function Values<T, E>(order: seq<string>, store: map<string, Entry<T, E>>): (r: seq<Entry<T, E>>)
    requires forall i | 0 <= i < |order| :: order[i] in store
    ensures |r| == |order|
    ensures forall i | 0 <= i < |order| :: r[i] == store[order[i]]
  {
    if order == [] then [] else [store[order[0]]] + Values(order[1..], store)
  }

  /** The settled entries, oldest first; entries with the same `updated`
      stay in insertion order. */
  function CandidateList<T, E>(order: seq<string>, store: map<string, Entry<T, E>>): (r: seq<Entry<T, E>>)
    requires forall i | 0 <= i < |order| :: order[i] in store
    ensures Ascending(r)
    ensures forall e | e in r :: !e.pending && e in Values(order, store)
    ensures forall i | 0 <= i < |order| && !store[order[i]].pending :: store[order[i]] in r
    ensures forall u: nat :: Stamped(r, u) == Stamped(Filter(Values(order, store), IsSettled), u)
  {
    var vals := Values(order, store);
    var settled := Filter(vals, IsSettled);
    var r := SortByUpdated(settled);
    SettledMembers(vals);
    assert forall i | 0 <= i < |order| && !store[order[i]].pending :: store[order[i]] in r by {
      forall i | 0 <= i < |order| && !store[order[i]].pending ensures store[order[i]] in r {
        assert vals[i] == store[order[i]];
      }
    }
    forall u: nat ensures Stamped(r, u) == Stamped(settled, u) {
      SortIsStable(settled, u);
    }
    r
  }

  lemma SettledMembers<T, E>(vals: seq<Entry<T, E>>)
    ensures forall e | e in SortByUpdated(Filter(vals, IsSettled)) :: e in vals && !e.pending
    ensures forall i | 0 <= i < |vals| && !vals[i].pending :: vals[i] in SortByUpdated(Filter(vals, IsSettled))
  {
    var settled := Filter(vals, IsSettled);
    SortMembers(settled);
    forall e | e in settled ensures e in vals && !e.pending {
      assert IsSettled(e);
    }
    forall i | 0 <= i < |vals| && !vals[i].pending ensures vals[i] in settled {
      assert IsSettled(vals[i]);
    }
  }

  /** `Math.ceil(maxStoreSize * 0.2)`: the least count whose five-fold
      reaches `maxSize`. */
  function Quota(maxSize: nat): (q: nat)
    ensures 5 * q >= maxSize
    ensures 5 * (q - 1) < maxSize
  {
    (maxSize + 4) / 5
  }

  /** `removeLength`: how many leading positions of the candidate list
      the second loop visits (lines 117-118). */
  function SweepLength<T, E>(list: seq<Entry<T, E>>, quota: nat): (n: nat)
    requires |Filter(list, IsFailed)| <= quota
    ensures n <= quota - |Filter(list, IsFailed)| && n <= |Filter(list, IsOk)|
    ensures n == quota - |Filter(list, IsFailed)| || n == |Filter(list, IsOk)|
  {
    var remaining := quota - |Filter(list, IsFailed)|;
    var nonErrors := Filter(list, IsOk);
    if remaining > |nonErrors| then |nonErrors| else remaining
  }

  // ---------------------------------------------------------------------
  // One pass of `checkSize` (lines 92-126)

  /** The pass gets past its two early returns (lines 93-94). */
  predicate Triggered<T, E>(t: Table<T, E>, maxSize: nat)
  {
    t.currentSize >= maxSize && !t.checking
  }

  function Candidates<T, E>(t: Table<T, E>): seq<Entry<T, E>>
    requires Valid(t)
  {
    CandidateList(t.order, t.store)
  }

  function Errors<T, E>(t: Table<T, E>): seq<Entry<T, E>>
    requires Valid(t)
  {
    Filter(Candidates(t), IsFailed)
  }

  /** More errored candidates than the quota: the branch at line 106. */
  predicate Overflows<T, E>(t: Table<T, E>, maxSize: nat)
    requires Valid(t)
  {
    |Errors(t)| > Quota(maxSize)
  }

  /** The keys a pass deletes: the `quota` oldest errored entries (line
      107), or every errored entry (lines 112-115) together with the keys
      at the first `removeLength` positions of the combined list (lines
      120-123). */
  ghost function Victims<T, E>(t: Table<T, E>, maxSize: nat): set<string>
    requires Valid(t)
  {
    if !Triggered(t, maxSize) then {}
    else if Overflows(t, maxSize) then KeySet(Errors(t)[..Quota(maxSize)])
    else
      var list := Candidates(t);
      KeySet(Errors(t)) + KeySet(list[..SweepLength(list, Quota(maxSize))])
  }

  /** The snapshot a pass leaves. The overflow branch lowers the counter by
      the quota and returns with the guard still set; the other branch
      lowers it once per successful delete and clears the guard. */
  ghost function AfterPass<T, E>(t: Table<T, E>, maxSize: nat): Table<T, E>
    requires Valid(t)
  {
    if !Triggered(t, maxSize) then t
    else
      var v := Victims(t, maxSize);
      var order := Drop(t.order, v);
      if Overflows(t, maxSize) then
        Table(t.store - v, order, t.currentSize - Quota(maxSize), true)
      else
        Table(t.store - v, order, t.currentSize - (|t.order| - |order|), false)
  }

  /** The snapshot an overflow pass leaves, spelled out. */
  lemma OverflowPassIs<T, E>(t: Table<T, E>, maxSize: nat, errors: seq<Entry<T, E>>, quota: nat,
                             store: map<string, Entry<T, E>>, order: seq<string>)
    requires Valid(t) && Triggered(t, maxSize) && Overflows(t, maxSize)
    requires errors == Errors(t) && quota == Quota(maxSize)
    requires store == t.store - KeySet(errors[..quota]) && order == Drop(t.order, KeySet(errors[..quota]))
    ensures AfterPass(t, maxSize) == Table(store, order, t.currentSize - quota, true)
  {
  }

  /** The snapshot a sweep pass leaves, spelled out. */
  lemma SweepPassIs<T, E>(t: Table<T, E>, maxSize: nat, list: seq<Entry<T, E>>, errors: seq<Entry<T, E>>, quota: nat,
                          store: map<string, Entry<T, E>>, order: seq<string>, size: int)
    requires Valid(t) && Triggered(t, maxSize) && !Overflows(t, maxSize)
    requires list == Candidates(t) && errors == Filter(list, IsFailed) && quota == Quota(maxSize)
    requires var v := KeySet(errors) + KeySet(list[..SweepLength(list, quota)]);
             store == t.store - v && order == Drop(t.order, v)
    requires size == t.currentSize - (|t.order| - |order|)
    ensures AfterPass(t, maxSize) == Table(store, order, size, false)
  {
  }

  // ---------------------------------------------------------------------
  // Properties of a pass

  /** The candidate list holds each settled entry of the table exactly once. */
  lemma CandidatesOfTable<T, E>(t: Table<T, E>)
    requires Valid(t)
    ensures DistinctKeys(Candidates(t))
    ensures forall e | e in Candidates(t) :: e.key in t.store && t.store[e.key] == e && !e.pending
    ensures forall k | k in t.store && !t.store[k].pending :: t.store[k] in Candidates(t)
  {
    var vals := Values(t.order, t.store);
    assert DistinctKeys(vals) by {
      forall i, j | 0 <= i < j < |vals| ensures vals[i].key != vals[j].key {
        assert vals[i].key == t.order[i] && vals[j].key == t.order[j];
      }
    }
    FilterDistinct(vals, IsSettled);
    SortDistinct(Filter(vals, IsSettled));
    forall k | k in t.store && !t.store[k].pending ensures t.store[k] in Candidates(t) {
      var i :| 0 <= i < |t.order| && t.order[i] == k;
    }
  }

  lemma ErrorsOfTable<T, E>(t: Table<T, E>)
    requires Valid(t)
    ensures DistinctKeys(Errors(t))
    ensures forall e | e in Errors(t) :: e.key in t.store && t.store[e.key] == e && e.hasError
    ensures forall k | k in t.store && t.store[k].hasError :: t.store[k] in Errors(t)
  {
    CandidatesOfTable(t);
    FilterDistinct(Candidates(t), IsFailed);
  }

  lemma PrefixKeys<T, E>(s: seq<Entry<T, E>>, n: nat)
    requires n <= |s|
    ensures KeySet(s[..n]) <= KeySet(s)
    ensures DistinctKeys(s) ==> DistinctKeys(s[..n])
    ensures forall j | 0 <= j < n :: s[j].key in KeySet(s[..n])
    ensures forall k | k in KeySet(s[..n]) :: exists i | 0 <= i < n :: s[i].key == k
  {
    assert forall e | e in s[..n] :: e in s;
    forall j | 0 <= j < n ensures s[j].key in KeySet(s[..n]) {
      assert s[..n][j] == s[j];
    }
    forall k | k in KeySet(s[..n]) ensures exists i | 0 <= i < n :: s[i].key == k {
      var e :| e in s[..n] && e.key == k;
      var i :| 0 <= i < n && s[..n][i] == e;
      assert s[i].key == k;
    }
  }

  /** Everything a pass deletes is a settled entry that is in the table. */
  lemma VictimsAreSettled<T, E>(t: Table<T, E>, maxSize: nat)
    requires Valid(t)
    ensures forall k | k in Victims(t, maxSize) :: k in t.store && !t.store[k].pending
  {
    if Triggered(t, maxSize) {
      CandidatesOfTable(t);
      var list := Candidates(t);
      var errors := Errors(t);
      if Overflows(t, maxSize) {
        PrefixKeys(errors, Quota(maxSize));
      } else {
        PartitionLength(list);
        PrefixKeys(list, SweepLength(list, Quota(maxSize)));
      }
    }
  }

  /** A pass keeps the snapshot valid and the counter in step with the
      number of entries. */
  lemma PassKeepsInvariant<T, E>(t: Table<T, E>, maxSize: nat)
    requires Valid(t)
    ensures Valid(AfterPass(t, maxSize))
    ensures Consistent(t) ==> Consistent(AfterPass(t, maxSize))
  {
    if Triggered(t, maxSize) {
      var v := Victims(t, maxSize);
      DropDistinct(t.order, v);
      VictimsAreSettled(t, maxSize);
      if Overflows(t, maxSize) {
        OverflowVictims(t, maxSize);
        DropLength(t.order, v);
      }
    }
  }

  /** A pass never touches a pending entry, and every entry it keeps is
      unchanged. */
  lemma PassSparesPending<T, E>(t: Table<T, E>, maxSize: nat)
    requires Valid(t)
    ensures AfterPass(t, maxSize).store.Keys <= t.store.Keys
    ensures forall k | k in AfterPass(t, maxSize).store :: AfterPass(t, maxSize).store[k] == t.store[k]
    ensures forall k | k in t.store && t.store[k].pending :: k in AfterPass(t, maxSize).store
  {
    VictimsAreSettled(t, maxSize);
  }

  /** Below the bound, or with the guard set, a pass changes nothing. */
  lemma IdlePass<T, E>(t: Table<T, E>, maxSize: nat)
    requires Valid(t)
    requires t.currentSize < maxSize || t.checking
    ensures AfterPass(t, maxSize) == t
  {
  }

  /** Overflow branch: exactly `quota` entries go and the counter drops
      by the quota; the guard stays set. */
  lemma OverflowCount<T, E>(t: Table<T, E>, maxSize: nat)
    requires Valid(t) && Triggered(t, maxSize) && Overflows(t, maxSize)
    ensures |t.order| - |AfterPass(t, maxSize).order| == Quota(maxSize)
    ensures t.currentSize - AfterPass(t, maxSize).currentSize == Quota(maxSize)
    ensures AfterPass(t, maxSize).checking
  {
    var v := Victims(t, maxSize);
    OverflowVictims(t, maxSize);
    DropLength(t.order, v);
  }

  /** Overflow branch: the pass deletes `quota` distinct keys of the table. */
  lemma OverflowVictims<T, E>(t: Table<T, E>, maxSize: nat)
    requires Valid(t) && Triggered(t, maxSize) && Overflows(t, maxSize)
    ensures |Victims(t, maxSize)| == Quota(maxSize)
    ensures Victims(t, maxSize) * Elems(t.order) == Victims(t, maxSize)
  {
    var q := Quota(maxSize);
    var v := KeySet(Errors(t)[..q]);
    assert Victims(t, maxSize) == v;
    ErrorsOfTable(t);
    PrefixKeys(Errors(t), q);
    KeySetSize(Errors(t)[..q]);
    assert v <= Elems(t.order);
  }

  /** Overflow branch: only errored entries go, so every non-errored entry
      stays. */
  lemma OverflowSparesNonErrors<T, E>(t: Table<T, E>, maxSize: nat)
    requires Valid(t) && Triggered(t, maxSize) && Overflows(t, maxSize)
    ensures forall k | k in t.store && k !in AfterPass(t, maxSize).store :: t.store[k].hasError
    ensures forall k | k in t.store && !t.store[k].hasError :: k in AfterPass(t, maxSize).store
  {
    ErrorsOfTable(t);
    PrefixKeys(Errors(t), Quota(maxSize));
  }

  /** Overflow branch: the errored entries that go are the oldest ones. */
  lemma OverflowOldestFirst<T, E>(t: Table<T, E>, maxSize: nat)
    requires Valid(t) && Triggered(t, maxSize) && Overflows(t, maxSize)
    ensures forall k1, k2 | k1 in t.store && k1 !in AfterPass(t, maxSize).store
                         && k2 in AfterPass(t, maxSize).store && t.store[k2].hasError
              :: t.store[k1].updated <= t.store[k2].updated
  {
    var q := Quota(maxSize);
    var errors := Errors(t);
    var v := KeySet(errors[..q]);
    var r := AfterPass(t, maxSize);
    OverflowPassIs(t, maxSize, errors, q, t.store - v, Drop(t.order, v));
    ErrorsOfTable(t);
    PrefixKeys(errors, q);
    CandidatesOfTable(t);
    FilterAscending(Candidates(t), IsFailed);
    forall k1, k2 | k1 in t.store && k1 !in r.store && k2 in r.store && t.store[k2].hasError
      ensures t.store[k1].updated <= t.store[k2].updated
    {
      assert k1 in v;
      var i :| 0 <= i < q && errors[i].key == k1;
      assert t.store[k2] in errors;
      var j :| 0 <= j < |errors| && errors[j] == t.store[k2];
      PrefixOlder(errors, q, i, j);
    }
  }

  /** In an ascending list, an element among the first `n` is not newer
      than an element whose key is not among the first `n`. */
  lemma PrefixOlder<T, E>(s: seq<Entry<T, E>>, n: nat, i: nat, j: nat)
    requires Ascending(s) && n <= |s| && i < n && j < |s|
    requires s[j].key !in KeySet(s[..n])
    ensures s[i].updated <= s[j].updated
  {
    PrefixKeys(s, n);
    assert n <= j;
  }

  lemma SweepVictims<T, E>(t: Table<T, E>, maxSize: nat)
    requires Valid(t) && Triggered(t, maxSize) && !Overflows(t, maxSize)
    ensures |Errors(t)| <= |Victims(t, maxSize)|
    ensures |Victims(t, maxSize)| <= |Errors(t)| + SweepLength(Candidates(t), Quota(maxSize))
    ensures |Drop(t.order, Victims(t, maxSize))| == |t.order| - |Victims(t, maxSize)|
  {
    var list := Candidates(t);
    var errors := Errors(t);
    var n := SweepLength(list, Quota(maxSize));
    var v := Victims(t, maxSize);
    var a, b := KeySet(errors), KeySet(list[..n]);
    assert v == a + b;
    assert |a| == |errors| by {
      ErrorsOfTable(t);
      KeySetSize(errors);
    }
    assert |b| == n by {
      CandidatesOfTable(t);
      PartitionLength(list);
      PrefixKeys(list, n);
      KeySetSize(list[..n]);
    }
    assert |a| <= |v| by { SubsetCard(a, v); }
    assert |v| + |a * b| == |a| + |b|;
    assert v * Elems(t.order) == v by {
      VictimsAreSettled(t, maxSize);
    }
    DropLength(t.order, v);
  }

  lemma SubsetCard<X>(a: set<X>, b: set<X>)
    requires a <= b
    ensures |a| <= |b|
  {
    assert b == a + (b - a);
  }

  /** Sweep branch: the counter drops by the number of entries actually
      deleted, which is at least the number of errored entries and at most
      that plus `removeLength`; the guard is cleared. */
  lemma SweepCount<T, E>(t: Table<T, E>, maxSize: nat)
    requires Valid(t) && Triggered(t, maxSize) && !Overflows(t, maxSize)
    ensures t.currentSize - AfterPass(t, maxSize).currentSize
            == |t.store.Keys| - |AfterPass(t, maxSize).store.Keys|
    ensures |Errors(t)| <= t.currentSize - AfterPass(t, maxSize).currentSize
    ensures t.currentSize - AfterPass(t, maxSize).currentSize
            <= |Errors(t)| + SweepLength(Candidates(t), Quota(maxSize))
    ensures !AfterPass(t, maxSize).checking
  {
    var r := AfterPass(t, maxSize);
    SweepVictims(t, maxSize);
    PassKeepsInvariant(t, maxSize);
    KeysCard(t);
    KeysCard(r);
  }

  /** Sweep branch: no errored entry is left. */
  lemma SweepClearsErrors<T, E>(t: Table<T, E>, maxSize: nat)
    requires Valid(t) && Triggered(t, maxSize) && !Overflows(t, maxSize)
    ensures forall k | k in AfterPass(t, maxSize).store :: !AfterPass(t, maxSize).store[k].hasError
  {
    ErrorsOfTable(t);
  }

  /** Sweep branch: no deleted non-errored entry is newer than a settled
      entry that stays. */
  lemma SweepOldestFirst<T, E>(t: Table<T, E>, maxSize: nat)
    requires Valid(t) && Triggered(t, maxSize) && !Overflows(t, maxSize)
    ensures forall k1, k2 | k1 in t.store && k1 !in AfterPass(t, maxSize).store && !t.store[k1].hasError
                         && k2 in AfterPass(t, maxSize).store && !t.store[k2].pending
              :: t.store[k1].updated <= t.store[k2].updated
  {
    var list := Candidates(t);
    PartitionLength(list);
    SweepFront(t, maxSize);
    CandidatesOfTable(t);
    PrefixOrder(list, SweepLength(list, Quota(maxSize)));
  }

  /** Sweep branch: a deleted non-errored key is among the first
      `removeLength` candidates, and a kept key is not. */
  lemma SweepFront<T, E>(t: Table<T, E>, maxSize: nat)
    requires Valid(t) && Triggered(t, maxSize) && !Overflows(t, maxSize)
    ensures var list := Candidates(t);
            var front := KeySet(list[..SweepLength(list, Quota(maxSize))]);
            && (forall k | k in t.store && k !in AfterPass(t, maxSize).store && !t.store[k].hasError
                  :: k in front && t.store[k] in list)
            && (forall k | k in AfterPass(t, maxSize).store :: k !in front)
  {
    var list := Candidates(t);
    var errors := Errors(t);
    var n := SweepLength(list, Quota(maxSize));
    var front := KeySet(list[..n]);
    CandidatesOfTable(t);
    ErrorsOfTable(t);
    PrefixKeys(list, n);
    forall k | k in t.store && k !in AfterPass(t, maxSize).store && !t.store[k].hasError
      ensures k in front && t.store[k] in list
    {
      assert k !in KeySet(errors);
    }
  }

  /** In an ascending list with distinct keys, the entries whose keys are
      among the first `n` are not newer than any other entry. */
  lemma PrefixOrder<T, E>(s: seq<Entry<T, E>>, n: nat)
    requires Ascending(s) && DistinctKeys(s) && n <= |s|
    ensures forall a, b | a in s && b in s && a.key in KeySet(s[..n]) && b.key !in KeySet(s[..n])
              :: a.updated <= b.updated
  {
    PrefixKeys(s, n);
    forall a, b | a in s && b in s && a.key in KeySet(s[..n]) && b.key !in KeySet(s[..n])
      ensures a.updated <= b.updated
    {
      var i :| 0 <= i < n && s[i].key == a.key;
      var p :| 0 <= p < |s| && s[p] == a;
      assert p == i;
      var j :| 0 <= j < |s| && s[j] == b;
      PrefixOlder(s, n, i, j);
    }
  }

  /** In a valid snapshot the insertion order lists exactly the keys. */
  lemma KeysCard<T, E>(t: Table<T, E>)
    requires Valid(t)
    ensures |t.store.Keys| == |t.order|
  {
    assert Elems(t.order) == t.store.Keys;
    DistinctCard(t.order);
  }

  /** A list of distinct keys has as many elements as its set of keys. */
  lemma {:induction false} DistinctCard(o: seq<string>)
    requires Distinct(o)
    ensures |Elems(o)| == |o|
  {
    if o != [] {
      var r := o[1..];
      assert Distinct(r);
      DistinctCard(r);
      assert o[0] !in Elems(r) by {
        forall j | 0 <= j < |r| ensures r[j] != o[0] {
          assert r[j] == o[j + 1];
        }
      }
      assert Elems(o) == {o[0]} + Elems(r) by {
        assert o == [o[0]] + r;
      }
    }
  }
}
