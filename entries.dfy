/** Entries of a LocalStore: the StoreValue record, the outcome of a
    producer call, and the list operations `checkSize` applies to entries
    (filtering and the stable sort by `updated`). */
module Entries {

  datatype Option<T> = None | Some(value: T)

  /** What one call of the producer `fn(key)` ends with: a value, or the
      error it rejected with. */
  datatype Outcome<T, E> = Ok(value: T) | Err(error: E)

  /** A StoreValue. `value` is `null` (here `None`) while pending and after
      an error; `error` is only present on errored entries; `updated` is the
      time of the last transition. */
  datatype Entry<T, E> = Entry(
    key: string,
    value: Option<T>,
    pending: bool,
    updated: nat,
    hasError: bool,
    error: Option<E>)

  /** The three shapes the store ever writes: pending, resolved, errored. */
  predicate WellFormed<T, E>(e: Entry<T, E>)
  {
    if e.pending then e.value.None? && !e.hasError && e.error.None?
    else if e.hasError then e.value.None? && e.error.Some?
    else e.value.Some? && e.error.None?
  }

  /** The marker written when a production starts. */
  function PendingEntry<T, E>(key: string, now: nat): (e: Entry<T, E>)
    ensures WellFormed(e) && e.key == key && e.updated == now
    ensures e.pending && !e.hasError
  {
    Entry(key, None, true, now, false, None)
  }

  /** The entry written when the producer settles; it is also what the
      listener broadcasts for `key`. */
  function Completed<T, E>(key: string, outcome: Outcome<T, E>, now: nat): (e: Entry<T, E>)
    ensures WellFormed(e) && e.key == key && e.updated == now && !e.pending
    ensures e.hasError <==> outcome.Err?
    ensures Settle(e) == outcome
  {
    match outcome
    case Ok(v) => Entry(key, Some(v), false, now, false, None)
    case Err(x) => Entry(key, None, false, now, true, Some(x))
  }

  /** What a waiter of `get` sees when a settled entry is broadcast: it
      rejects with the stored error or resolves with the stored value. */
  function Settle<T, E>(e: Entry<T, E>): (r: Outcome<T, E>)
    requires WellFormed(e) && !e.pending
    ensures r.Err? <==> e.hasError
    ensures r.Ok? ==> e.value == Some(r.value)
    ensures r.Err? ==> e.error == Some(r.error)
  {
    if e.hasError then Err(e.error.value) else Ok(e.value.value)
  }

  predicate IsSettled<T, E>(e: Entry<T, E>) { !e.pending }
  predicate IsFailed<T, E>(e: Entry<T, E>) { e.hasError }
  predicate IsOk<T, E>(e: Entry<T, E>) { !e.hasError }

  /** Array.prototype.filter: keeps, in order, the elements satisfying `p`. */
  function Filter<X>(s: seq<X>, p: X -> bool): (r: seq<X>)
    ensures |r| <= |s|
    ensures forall x | x in r :: x in s && p(x)
    ensures forall x | x in s && p(x) :: x in r
  {
    if s == [] then []
    else (if p(s[0]) then [s[0]] else []) + Filter(s[1..], p)
  }

  lemma {:induction false} FilterAppend<X>(a: seq<X>, b: seq<X>, p: X -> bool)
    ensures Filter(a + b, p) == Filter(a, p) + Filter(b, p)
  {
    if a == [] {
      assert a + b == b;
    } else {
      assert (a + b)[1..] == a[1..] + b;
      FilterAppend(a[1..], b, p);
    }
  }

  /** Errored and non-errored entries split a list between them. */
  lemma {:induction false} PartitionLength<T, E>(s: seq<Entry<T, E>>)
    ensures |Filter(s, IsFailed)| + |Filter(s, IsOk)| == |s|
  {
    if s != [] {
      PartitionLength(s[1..]);
    }
  }

  // ---------------------------------------------------------------------
  // Ordering by `updated`

  predicate Ascending<T, E>(s: seq<Entry<T, E>>)
  {
    forall i, j | 0 <= i < j < |s| :: s[i].updated <= s[j].updated
  }

  /** Inserts `e` in front of the first element that is not older than it,
      so an element taken earlier from the input stays in front of equal
      ones: the sort built on it is stable. */
  function Insert<T, E>(e: Entry<T, E>, t: seq<Entry<T, E>>): (r: seq<Entry<T, E>>)
    ensures |r| == |t| + 1
  {
    if t == [] || e.updated <= t[0].updated then [e] + t
    else [t[0]] + Insert(e, t[1..])
  }

  /** Inserting adds `e` and keeps every other element. */
  lemma {:induction false} InsertPermutes<T, E>(e: Entry<T, E>, t: seq<Entry<T, E>>)
    ensures multiset(Insert(e, t)) == multiset(t) + multiset{e}
  {
    if !(t == [] || e.updated <= t[0].updated) {
      InsertPermutes(e, t[1..]);
      assert t == [t[0]] + t[1..];
    }
  }

  lemma {:induction false} InsertAscending<T, E>(e: Entry<T, E>, t: seq<Entry<T, E>>)
    requires Ascending(t)
    ensures Ascending(Insert(e, t))
  {
    if !(t == [] || e.updated <= t[0].updated) {
      InsertAscending(e, t[1..]);
      var rest := Insert(e, t[1..]);
      InsertPermutes(e, t[1..]);
      forall x | x in rest ensures t[0].updated <= x.updated {
        assert x in multiset(t[1..]) + multiset{e};
        if x != e {
          var k :| 0 <= k < |t[1..]| && t[1..][k] == x;
          assert t[k + 1] == x;
        }
      }
      ConsAscending(t[0], rest);
    }
  }

  /** An element not newer than any of an ascending list may go in front. */
  lemma ConsAscending<T, E>(x: Entry<T, E>, s: seq<Entry<T, E>>)
    requires Ascending(s)
    requires forall y | y in s :: x.updated <= y.updated
    ensures Ascending([x] + s)
  {
    var r := [x] + s;
    forall i, j | 0 <= i < j < |r| ensures r[i].updated <= r[j].updated {
      assert r[j] == s[j - 1];
      if i > 0 {
        assert r[i] == s[i - 1];
      }
    }
  }

  /** `list.sort((a, b) => a.updated - b.updated)`: a stable sort by
      ascending `updated`. */
  function SortByUpdated<T, E>(s: seq<Entry<T, E>>): (r: seq<Entry<T, E>>)
    ensures |r| == |s|
    ensures Ascending(r)
    ensures multiset(r) == multiset(s)
  {
    if s == [] then []
    else
      assert s == [s[0]] + s[1..];
      InsertAscending(s[0], SortByUpdated(s[1..]));
      InsertPermutes(s[0], SortByUpdated(s[1..]));
      Insert(s[0], SortByUpdated(s[1..]))
  }

  /** Sorting neither adds nor loses an element. */
  lemma SortMembers<T, E>(s: seq<Entry<T, E>>)
    ensures forall e | e in SortByUpdated(s) :: e in s
    ensures forall e | e in s :: e in SortByUpdated(s)
  {
    var r := SortByUpdated(s);
    forall e | e in r ensures e in s {
      assert e in multiset(r);
    }
    forall e | e in s ensures e in r {
      assert e in multiset(s);
    }
  }

  /** The entries of `s` stamped with time `u`, in order. */
  function Stamped<T, E>(s: seq<Entry<T, E>>, u: nat): seq<Entry<T, E>>
  {
    if s == [] then []
    else (if s[0].updated == u then [s[0]] else []) + Stamped(s[1..], u)
  }

  lemma {:induction false} InsertStamped<T, E>(e: Entry<T, E>, t: seq<Entry<T, E>>, u: nat)
    ensures Stamped(Insert(e, t), u) == (if e.updated == u then [e] else []) + Stamped(t, u)
  {
    if t == [] || e.updated <= t[0].updated {
      StampedCons(e, t, u);
    } else {
      var rest := Insert(e, t[1..]);
      var mine: seq<Entry<T, E>> := if e.updated == u then [e] else [];
      var head: seq<Entry<T, E>> := if t[0].updated == u then [t[0]] else [];
      var tail := Stamped(t[1..], u);
      InsertStamped(e, t[1..], u);
      StampedCons(t[0], rest, u);
      StampedCons(t[0], t[1..], u);
      assert t == [t[0]] + t[1..];
      SwapEmpty(head, mine, tail);
    }
  }

  /** Two lists of which one is empty can be swapped in front of a third. */
  lemma SwapEmpty<X>(a: seq<X>, b: seq<X>, c: seq<X>)
    requires a == [] || b == []
    ensures a + (b + c) == b + (a + c)
  {
    if a == [] {
      assert a + (b + c) == b + c;
      assert a + c == c;
    } else {
      assert b + c == c;
      assert b + (a + c) == a + c;
    }
  }

  lemma StampedCons<T, E>(x: Entry<T, E>, s: seq<Entry<T, E>>, u: nat)
    ensures Stamped([x] + s, u) == (if x.updated == u then [x] else []) + Stamped(s, u)
  {
    assert ([x] + s)[1..] == s;
  }

  /** Stability: entries with equal `updated` keep their relative order. */
  lemma {:induction false} SortIsStable<T, E>(s: seq<Entry<T, E>>, u: nat)
    ensures Stamped(SortByUpdated(s), u) == Stamped(s, u)
  {
    if s != [] {
      SortIsStable(s[1..], u);
      InsertStamped(s[0], SortByUpdated(s[1..]), u);
    }
  }

  // ---------------------------------------------------------------------
  // Keys of entry lists

  ghost function KeySet<T, E>(s: seq<Entry<T, E>>): set<string>
  {
    set e | e in s :: e.key
  }

  predicate DistinctKeys<T, E>(s: seq<Entry<T, E>>)
  {
    forall i, j | 0 <= i < j < |s| :: s[i].key != s[j].key
  }

  lemma KeySetStep<T, E>(s: seq<Entry<T, E>>, i: nat)
    requires i < |s|
    ensures KeySet(s[..i + 1]) == KeySet(s[..i]) + {s[i].key}
  {
    assert s[..i + 1] == s[..i] + [s[i]];
  }

  /** A list with distinct keys has as many keys as elements. */
  lemma {:induction false} KeySetSize<T, E>(s: seq<Entry<T, E>>)
    requires DistinctKeys(s)
    ensures |KeySet(s)| == |s|
  {
    if s != [] {
      var n := |s| - 1;
      assert s == s[..n] + [s[n]];
      assert KeySet(s) == KeySet(s[..n]) + {s[n].key};
      assert s[n].key !in KeySet(s[..n]) by {
        forall e | e in s[..n] ensures e.key != s[n].key {
          var i :| 0 <= i < n && s[..n][i] == e;
        }
      }
      KeySetSize(s[..n]);
    }
  }

  lemma {:induction false} FilterDistinct<T, E>(s: seq<Entry<T, E>>, p: Entry<T, E> -> bool)
    requires DistinctKeys(s)
    ensures DistinctKeys(Filter(s, p))
  {
    if s != [] {
      FilterDistinct(s[1..], p);
      var rest := Filter(s[1..], p);
      forall x | x in rest ensures x.key != s[0].key {
        var j :| 0 <= j < |s[1..]| && s[1..][j] == x;
        assert s[j + 1] == x;
      }
    }
  }

  lemma {:induction false} FilterAscending<T, E>(s: seq<Entry<T, E>>, p: Entry<T, E> -> bool)
    requires Ascending(s)
    ensures Ascending(Filter(s, p))
  {
    if s != [] {
      FilterAscending(s[1..], p);
      var rest := Filter(s[1..], p);
      forall x | x in rest ensures s[0].updated <= x.updated {
        var j :| 0 <= j < |s[1..]| && s[1..][j] == x;
        assert s[j + 1] == x;
      }
    }
  }

  lemma {:induction false} InsertDistinct<T, E>(e: Entry<T, E>, t: seq<Entry<T, E>>)
    requires DistinctKeys(t)
    requires forall x | x in t :: x.key != e.key
    ensures DistinctKeys(Insert(e, t))
  {
    if !(t == [] || e.updated <= t[0].updated) {
      InsertDistinct(e, t[1..]);
      var rest := Insert(e, t[1..]);
      InsertPermutes(e, t[1..]);
      forall x | x in rest ensures x.key != t[0].key {
        assert x in multiset(t[1..]) + multiset{e};
        if x != e {
          var j :| 0 <= j < |t[1..]| && t[1..][j] == x;
          assert t[j + 1] == x;
        }
      }
    }
  }

  /** Sorting keeps keys distinct. */
  lemma {:induction false} SortDistinct<T, E>(s: seq<Entry<T, E>>)
    requires DistinctKeys(s)
    ensures DistinctKeys(SortByUpdated(s))
  {
    if s != [] {
      SortDistinct(s[1..]);
      var sorted := SortByUpdated(s[1..]);
      forall x | x in sorted ensures x.key != s[0].key {
        assert x in multiset(s[1..]);
        var j :| 0 <= j < |s[1..]| && s[1..][j] == x;
        assert s[j + 1] == x;
      }
      InsertDistinct(s[0], sorted);
    }
  }
}
