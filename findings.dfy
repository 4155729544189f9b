/** Two places where `checkSize` does not do what its own structure and
    the design of the cache say it should, each stated twice: a lemma
    about the pass as written (`Eviction.AfterPass`) that exhibits the
    discrepancy, and the corrected pass with the intended property proved. */
module Findings {
  import opened Entries
  import opened Eviction

  function Min(a: int, b: int): int { if a <= b then a else b }

  /** The errored and non-errored candidates together are the whole list,
      so the sweep branch means to remove `min(quota, |list|)` entries. */
  lemma IntendedCount<T, E>(t: Table<T, E>, maxSize: nat)
    requires Valid(t) && !Overflows(t, maxSize)
    ensures |Errors(t)| + SweepLength(Candidates(t), Quota(maxSize)) == Min(Quota(maxSize), |Candidates(t)|)
  {
    PartitionLength(Candidates(t));
  }

  // ---------------------------------------------------------------------
  // Finding 1: the second loop indexes `list`, not `nonErrors` (line 121)

  /** As written: when the oldest candidate is errored, the second loop
      re-deletes that already-deleted key at position 0 and the pass
      removes fewer entries than the quota asks for, even though enough
      candidates exist. */
  lemma SweepUnderEvicts<T, E>(t: Table<T, E>, maxSize: nat)
    requires Valid(t) && Triggered(t, maxSize) && !Overflows(t, maxSize)
    requires |Candidates(t)| > 0 && Candidates(t)[0].hasError
    requires SweepLength(Candidates(t), Quota(maxSize)) > 0
    ensures t.currentSize - AfterPass(t, maxSize).currentSize < Quota(maxSize)
    ensures t.currentSize - AfterPass(t, maxSize).currentSize < |Candidates(t)|
  {
    var list := Candidates(t);
    var errors := Errors(t);
    var n := SweepLength(list, Quota(maxSize));
    var a, b := KeySet(errors), KeySet(list[..n]);
    assert list[0] in errors;
    assert list[0].key in a;
    PrefixKeys(list, n);
    assert list[0].key in b;
    assert |a + b| + |a * b| == |a| + |b|;
    assert |a * b| >= 1 by {
      assert list[0].key in a * b;
    }
    assert |a| <= |errors| by { KeySetAtMost(errors); }
    assert |b| <= n by { KeySetAtMost(list[..n]); }
    SweepVictims(t, maxSize);
    IntendedCount(t, maxSize);
  }

  /** A list has at most as many keys as elements. */
  lemma {:induction false} KeySetAtMost<T, E>(s: seq<Entry<T, E>>)
    ensures |KeySet(s)| <= |s|
  {
    if s != [] {
      var n := |s| - 1;
      assert s == s[..n] + [s[n]];
      assert KeySet(s) == KeySet(s[..n]) + {s[n].key};
      KeySetAtMost(s[..n]);
    }
  }

  /** Corrected: the sweep takes its extra victims from the non-errored
      candidates, and every triggered pass clears the guard. */
  ghost function IntendedVictims<T, E>(t: Table<T, E>, maxSize: nat): set<string>
    requires Valid(t)
  {
    if !Triggered(t, maxSize) then {}
    else if Overflows(t, maxSize) then KeySet(Errors(t)[..Quota(maxSize)])
    else
      var list := Candidates(t);
      KeySet(Errors(t)) + KeySet(Filter(list, IsOk)[..SweepLength(list, Quota(maxSize))])
  }

  ghost function IntendedAfterPass<T, E>(t: Table<T, E>, maxSize: nat): Table<T, E>
    requires Valid(t)
  {
    if !Triggered(t, maxSize) then t
    else
      var v := IntendedVictims(t, maxSize);
      var order := Drop(t.order, v);
      Table(t.store - v, order, t.currentSize - (|t.order| - |order|), false)
  }

  lemma OkOfTable<T, E>(t: Table<T, E>)
    requires Valid(t)
    ensures DistinctKeys(Filter(Candidates(t), IsOk))
    ensures forall e | e in Filter(Candidates(t), IsOk) :: e.key in t.store && t.store[e.key] == e && !e.hasError
  {
    CandidatesOfTable(t);
    FilterDistinct(Candidates(t), IsOk);
  }

  lemma IntendedVictimsSettled<T, E>(t: Table<T, E>, maxSize: nat)
    requires Valid(t)
    ensures forall k | k in IntendedVictims(t, maxSize) :: k in t.store && !t.store[k].pending
    ensures !Overflows(t, maxSize) && Triggered(t, maxSize) ==>
              forall k | k in t.store && t.store[k].hasError :: k in IntendedVictims(t, maxSize)
  {
    if Triggered(t, maxSize) {
      if Overflows(t, maxSize) {
        ErrorsOfTable(t);
        PrefixKeys(Errors(t), Quota(maxSize));
        KeysSettled(t, Errors(t)[..Quota(maxSize)]);
      } else {
        var list := Candidates(t);
        var errors := Errors(t);
        var ok := Filter(list, IsOk);
        var n := SweepLength(list, Quota(maxSize));
        ErrorsOfTable(t);
        OkOfTable(t);
        PartitionLength(list);
        KeysSettled(t, errors);
        KeysSettled(t, ok[..n]);
      }
    }
  }

  /** The keys of entries taken from the table that are settled. */
  lemma KeysSettled<T, E>(t: Table<T, E>, s: seq<Entry<T, E>>)
    requires forall e | e in s :: e.key in t.store && t.store[e.key] == e && !e.pending
    ensures forall k | k in KeySet(s) :: k in t.store && !t.store[k].pending
  {
  }

  lemma IntendedVictimsCount<T, E>(t: Table<T, E>, maxSize: nat)
    requires Valid(t) && Triggered(t, maxSize)
    ensures |IntendedVictims(t, maxSize)| == Min(Quota(maxSize), |Candidates(t)|)
  {
    var q := Quota(maxSize);
    var list := Candidates(t);
    var errors := Errors(t);
    var v := IntendedVictims(t, maxSize);
    ErrorsOfTable(t);
    PartitionLength(list);
    if Overflows(t, maxSize) {
      PrefixKeys(errors, q);
      KeySetSize(errors[..q]);
    } else {
      var ok := Filter(list, IsOk);
      var n := SweepLength(list, q);
      var a, b := KeySet(errors), KeySet(ok[..n]);
      OkOfTable(t);
      PrefixKeys(ok, n);
      KeySetSize(errors);
      KeySetSize(ok[..n]);
      assert a * b == {} by {
        forall k | k in a ensures k !in b {
          assert t.store[k].hasError;
        }
      }
      assert |v| == |errors| + n;
      IntendedCount(t, maxSize);
    }
  }

  /** Corrected: a triggered pass removes exactly `min(quota, |list|)`
      settled entries, errored ones first, and leaves the guard clear, so
      the counter stays equal to the number of entries. */
  lemma IntendedPassRemovesQuota<T, E>(t: Table<T, E>, maxSize: nat)
    requires Valid(t) && Triggered(t, maxSize)
    ensures |t.order| - |IntendedAfterPass(t, maxSize).order| == Min(Quota(maxSize), |Candidates(t)|)
    ensures forall k | k in t.store && k !in IntendedAfterPass(t, maxSize).store :: !t.store[k].pending
    ensures !Overflows(t, maxSize) ==>
              forall k | k in IntendedAfterPass(t, maxSize).store :: !IntendedAfterPass(t, maxSize).store[k].hasError
    ensures !IntendedAfterPass(t, maxSize).checking
    ensures Consistent(t) ==> Consistent(IntendedAfterPass(t, maxSize))
  {
    IntendedVictimsSettled(t, maxSize);
    IntendedDropCount(t, maxSize);
  }

  lemma IntendedDropCount<T, E>(t: Table<T, E>, maxSize: nat)
    requires Valid(t) && Triggered(t, maxSize)
    ensures |t.order| - |Drop(t.order, IntendedVictims(t, maxSize))| == Min(Quota(maxSize), |Candidates(t)|)
  {
    var v := IntendedVictims(t, maxSize);
    IntendedVictimsSettled(t, maxSize);
    IntendedVictimsCount(t, maxSize);
    assert v * Elems(t.order) == v;
    DropLength(t.order, v);
  }

  // ---------------------------------------------------------------------
  // Finding 2: the overflow branch returns with the guard set (line 109)

  /** As written: after one overflow pass the guard stays set, and from
      then on every pass is a no-op whatever the table holds. */
  lemma GuardLatches<T, E>(t: Table<T, E>, maxSize: nat, later: Table<T, E>)
    requires Valid(t) && Triggered(t, maxSize) && Overflows(t, maxSize)
    requires Valid(later) && later.checking == AfterPass(t, maxSize).checking
    ensures AfterPass(t, maxSize).checking
    ensures AfterPass(later, maxSize) == later
  {
    OverflowCount(t, maxSize);
  }

  /** Corrected: a pass that starts from a clear guard leaves it clear, so
      a later pass over a full table does run. */
  lemma IntendedGuardClears<T, E>(t: Table<T, E>, maxSize: nat, later: Table<T, E>)
    requires Valid(t) && !t.checking
    requires Valid(later) && later.checking == IntendedAfterPass(t, maxSize).checking
    requires later.currentSize >= maxSize
    ensures Triggered(later, maxSize)
  {
  }
}
