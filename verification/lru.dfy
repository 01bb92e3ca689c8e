/** The memory tier: `android.util.LruCache<Int, Bitmap>` with an access-ordered
    key list and a size function. Keys are page numbers; an entry costs
    `SizeOf(bitmap)` KiB and the running total is kept at or below `maxSize`
    by evicting the least recently used entries first. */
module Lru {
  import opened Results
  import opened Bitmaps

  /** `order` lists the keys from least to most recently used. */
  datatype Lru = Lru(order: seq<int>, entries: map<int, Bitmap>, maxSize: int)

  predicate Distinct(s: seq<int>) {
    forall i, j :: 0 <= i < j < |s| ==> s[i] != s[j]
  }

  predicate Covers(s: seq<int>, m: map<int, Bitmap>) {
    forall i :: 0 <= i < |s| ==> s[i] in m
  }

  /** Total cost, in KiB, of the entries listed in `s`. */
  function Cost(s: seq<int>, m: map<int, Bitmap>): nat
    requires Covers(s, m)
  {
    if |s| == 0 then 0 else SizeOf(m[s[0]]) + Cost(s[1..], m)
  }

  /** The order lists exactly the stored keys, once each. */
  predicate WellFormed(c: Lru) {
    && Distinct(c.order)
    && Covers(c.order, c.entries)
    && (forall k :: k in c.entries ==> k in c.order)
  }

  predicate Valid(c: Lru) {
    && c.maxSize > 0
    && WellFormed(c)
    && Cost(c.order, c.entries) <= c.maxSize
  }

  /** The constructor rejects a non-positive budget. */
  function Create(maxSize: int): (r: Result<Lru>)
    ensures r.Ok? <==> maxSize > 0
    ensures r.Ok? ==> Valid(r.value) && r.value.order == [] && r.value.maxSize == maxSize
  {
    if maxSize <= 0 then Err(CacheBudgetNotPositive) else Ok(Lru([], map[], maxSize))
  }

  lemma DistinctTail(s: seq<int>)
    requires Distinct(s) && |s| > 0
    ensures s[0] !in s[1..] && Distinct(s[1..])
  {
  }

  lemma DistinctCons(a: int, t: seq<int>)
    requires a !in t && Distinct(t)
    ensures Distinct([a] + t)
  {
    var s := [a] + t;
    forall i, j | 0 <= i < j < |s|
      ensures s[i] != s[j]
    {
      if i == 0 {
        assert s[j] == t[j - 1];
      } else {
        assert s[i] == t[i - 1] && s[j] == t[j - 1];
      }
    }
  }

  lemma DistinctSnoc(t: seq<int>, a: int)
    requires a !in t && Distinct(t)
    ensures Distinct(t + [a])
  {
    var s := t + [a];
    forall i, j | 0 <= i < j < |s|
      ensures s[i] != s[j]
    {
      assert s[i] == t[i];
      if j == |t| {
        assert t[i] in t;
      } else {
        assert s[j] == t[j];
      }
    }
  }

  function Remove(s: seq<int>, k: int): (r: seq<int>)
    ensures forall x :: x in r <==> x in s && x != k
    ensures |r| <= |s|
  {
    if |s| == 0 then []
    else if s[0] == k then Remove(s[1..], k)
    else [s[0]] + Remove(s[1..], k)
  }

  lemma {:induction false} RemoveDistinct(s: seq<int>, k: int)
    requires Distinct(s)
    ensures Distinct(Remove(s, k))
    decreases |s|
  {
    if |s| > 0 {
      DistinctTail(s);
      RemoveDistinct(s[1..], k);
      if s[0] != k {
        DistinctCons(s[0], Remove(s[1..], k));
      }
    }
  }

  /** Marks `k` as the most recently used key. */
  function Touch(s: seq<int>, k: int): (r: seq<int>)
    ensures forall x :: x in r <==> x in s || x == k
    ensures |r| >= 1 && r[|r| - 1] == k
  {
    Remove(s, k) + [k]
  }

  lemma TouchDistinct(s: seq<int>, k: int)
    requires Distinct(s)
    ensures Distinct(Touch(s, k))
  {
    RemoveDistinct(s, k);
    DistinctSnoc(Remove(s, k), k);
  }

  lemma {:induction false} CostFrame(s: seq<int>, m1: map<int, Bitmap>, m2: map<int, Bitmap>)
    requires Covers(s, m1) && Covers(s, m2)
    requires forall i :: 0 <= i < |s| ==> m1[s[i]] == m2[s[i]]
    ensures Cost(s, m1) == Cost(s, m2)
    decreases |s|
  {
    if |s| > 0 {
      assert m1[s[0]] == m2[s[0]];
      CostFrame(s[1..], m1, m2);
    }
  }

  lemma {:induction false} CostAppend(a: seq<int>, b: seq<int>, m: map<int, Bitmap>)
    requires Covers(a, m) && Covers(b, m)
    ensures Covers(a + b, m)
    ensures Cost(a + b, m) == Cost(a, m) + Cost(b, m)
    decreases |a|
  {
    var ab := a + b;
    forall i | 0 <= i < |ab| ensures ab[i] in m {
      if i < |a| { assert ab[i] == a[i]; } else { assert ab[i] == b[i - |a|]; }
    }
    if |a| > 0 {
      assert ab[0] == a[0];
      assert ab[1..] == a[1..] + b;
      CostAppend(a[1..], b, m);
      calc {
        Cost(ab, m);
        SizeOf(m[a[0]]) + Cost(a[1..] + b, m);
        SizeOf(m[a[0]]) + Cost(a[1..], m) + Cost(b, m);
        Cost(a, m) + Cost(b, m);
      }
    } else {
      assert ab == b;
    }
  }

  lemma CoversByMembership(s: seq<int>, m: map<int, Bitmap>)
    requires forall x :: x in s ==> x in m
    ensures Covers(s, m)
  {
    forall i | 0 <= i < |s| ensures s[i] in m {
      var x := s[i];
      assert x in s;
    }
  }

  lemma {:induction false} CostRemove(s: seq<int>, k: int, m: map<int, Bitmap>)
    requires Covers(s, m) && Distinct(s) && k in s
    ensures Covers(Remove(s, k), m)
    ensures Cost(Remove(s, k), m) + SizeOf(m[k]) == Cost(s, m)
    decreases |s|
  {
    CoversByMembership(Remove(s, k), m);
    DistinctTail(s);
    if s[0] == k {
      RemoveAbsent(s[1..], k);
    } else {
      CostRemove(s[1..], k, m);
      assert Remove(s, k)[1..] == Remove(s[1..], k);
    }
  }

  lemma {:induction false} RemoveAbsent(s: seq<int>, k: int)
    requires k !in s
    ensures Remove(s, k) == s
    decreases |s|
  {
    if |s| > 0 {
      RemoveAbsent(s[1..], k);
    }
  }

  /** Every listed entry's cost is part of the total. */
  lemma {:induction false} CostAtLeastEntry(s: seq<int>, k: int, m: map<int, Bitmap>)
    requires Covers(s, m) && k in s
    ensures Cost(s, m) >= SizeOf(m[k])
    decreases |s|
  {
    if s[0] != k {
      CostAtLeastEntry(s[1..], k, m);
    }
  }

  /** Moving a stored key to the most-recent end does not change the total. */
  lemma TouchKeepsCost(s: seq<int>, k: int, m: map<int, Bitmap>)
    requires Covers(s, m) && Distinct(s) && k in s
    ensures Covers(Touch(s, k), m)
    ensures Cost(Touch(s, k), m) == Cost(s, m)
  {
    CostRemove(s, k, m);
    CostAppend(Remove(s, k), [k], m);
  }

  /** How many of the eldest keys `trimToSize(max)` evicts: it stops as soon
      as the remaining total is within `max` or nothing is left. */
  function EvictCount(s: seq<int>, m: map<int, Bitmap>, max: int): (n: nat)
    requires Covers(s, m)
    ensures n <= |s|
    ensures n == |s| || Cost(s[n..], m) <= max
    ensures n > 0 ==> Cost(s[n - 1..], m) > max
    decreases |s|
  {
    if |s| == 0 || Cost(s, m) <= max then 0
    else
      var rest := EvictCount(s[1..], m, max);
      assert rest > 0 ==> s[1..][rest - 1..] == s[rest..];
      assert s[1..][rest..] == s[rest + 1..];
      1 + rest
  }

  /** `r` is what trimming a cache with key order `order` and entries
      `entries` to `max` leaves: a suffix of the order (only the eldest keys
      are evicted), with the surviving entries unchanged, within `max` unless
      empty, and no more evicted than needed (keeping the youngest evicted key
      would have exceeded `max`). */
  predicate TrimmedFrom(r: Lru, order: seq<int>, entries: map<int, Bitmap>, max: int)
    requires Covers(order, entries)
  {
    && |r.order| <= |order|
    && r.order == order[|order| - |r.order|..]
    && (forall k :: k in r.entries ==> k in r.order)
    && (forall k :: k in r.entries ==> k in entries && r.entries[k] == entries[k])
    && Covers(r.order, r.entries)
    && Covers(r.order, entries)
    && (r.order == [] || Cost(r.order, entries) <= max)
    && (|r.order| < |order| ==> Cost(order[|order| - |r.order| - 1..], entries) > max)
  }

  lemma SuffixDistinct(s: seq<int>, n: nat)
    requires Distinct(s) && n <= |s|
    ensures Distinct(s[n..])
  {
    var t := s[n..];
    forall i, j | 0 <= i < j < |t| ensures t[i] != t[j] {
      assert t[i] == s[i + n] && t[j] == s[j + n];
    }
  }

  function TrimToSize(c: Lru, max: int): (r: Lru)
    requires WellFormed(c)
    ensures TrimmedFrom(r, c.order, c.entries, max)
    ensures WellFormed(r) && r.maxSize == c.maxSize
    ensures Cost(r.order, r.entries) == Cost(r.order, c.entries)
  {
    var n := EvictCount(c.order, c.entries, max);
    var kept := c.order[n..];
    var r := Lru(kept, map k | k in c.entries && k in kept :: c.entries[k], c.maxSize);
    TrimFacts(c, max, n, r);
    r
  }

  lemma TrimFacts(c: Lru, max: int, n: nat, r: Lru)
    requires Distinct(c.order) && Covers(c.order, c.entries)
    requires n == EvictCount(c.order, c.entries, max)
    requires r.order == c.order[n..] && r.maxSize == c.maxSize
    requires forall k :: k in r.entries <==> k in c.entries && k in r.order
    requires forall k :: k in r.entries ==> r.entries[k] == c.entries[k]
    ensures WellFormed(r)
    ensures Covers(r.order, c.entries)
    ensures Cost(r.order, r.entries) == Cost(r.order, c.entries)
    ensures TrimmedFrom(r, c.order, c.entries, max)
  {
    TrimWellFormed(c.order, c.entries, n, r);
    TrimmedFromSuffix(r, c.order, c.entries, max, n);
  }

  lemma TrimWellFormed(order: seq<int>, entries: map<int, Bitmap>, n: nat, r: Lru)
    requires Distinct(order) && Covers(order, entries) && n <= |order|
    requires r.order == order[n..]
    requires forall k :: k in r.entries <==> k in entries && k in r.order
    requires forall k :: k in r.entries ==> r.entries[k] == entries[k]
    ensures WellFormed(r) && Covers(r.order, entries)
    ensures Cost(r.order, r.entries) == Cost(r.order, entries)
  {
    SuffixDistinct(order, n);
    SuffixCovered(order, n, entries, r.entries);
    forall i | 0 <= i < |r.order| ensures r.entries[r.order[i]] == entries[r.order[i]] {
    }
    CostFrame(r.order, r.entries, entries);
  }

  lemma TrimmedFromSuffix(r: Lru, order: seq<int>, entries: map<int, Bitmap>, max: int, n: nat)
    requires Covers(order, entries) && n <= |order| && r.order == order[n..]
    requires forall k :: k in r.entries ==> k in r.order
    requires forall k :: k in r.entries ==> k in entries && r.entries[k] == entries[k]
    requires Covers(r.order, r.entries) && Covers(r.order, entries)
    requires n == |order| || Cost(order[n..], entries) <= max
    requires n > 0 ==> Cost(order[n - 1..], entries) > max
    ensures TrimmedFrom(r, order, entries, max)
  {
    assert |order| - |r.order| == n;
    if n > 0 {
      assert order[|order| - |r.order| - 1..] == order[n - 1..];
    }
  }

  /** Every key of a suffix of the order keeps its entry through the trim. */
  lemma SuffixCovered(order: seq<int>, n: nat, entries: map<int, Bitmap>, kept: map<int, Bitmap>)
    requires Covers(order, entries) && n <= |order|
    requires forall k :: k in kept <==> k in entries && k in order[n..]
    ensures Covers(order[n..], entries) && Covers(order[n..], kept)
  {
    var t := order[n..];
    forall i | 0 <= i < |t| ensures t[i] in entries && t[i] in kept {
      assert t[i] == order[i + n];
    }
  }

  /** `LruCache.get`: a hit returns the value and refreshes its recency. */
  function Get(c: Lru, k: int): (r: (Option<Bitmap>, Lru))
    requires Valid(c)
    ensures Valid(r.1)
    ensures r.0.Some? <==> k in c.entries
    ensures r.0.Some? ==> r.0.value == c.entries[k]
    ensures r.1.entries == c.entries && r.1.maxSize == c.maxSize
    ensures k in c.entries ==> r.1.order[|r.1.order| - 1] == k
    ensures k !in c.entries ==> r.1 == c
  {
    if k in c.entries then
      var c' := c.(order := Touch(c.order, k));
      TouchKeepsCost(c.order, k, c.entries);
      TouchDistinct(c.order, k);
      (Some(c.entries[k]), c')
    else (None, c)
  }

  /** `LruCache.put`: store or replace, mark most recent, then trim to the
      budget. The new entry itself is evicted when it alone exceeds the budget. */
  function Put(c: Lru, k: int, v: Bitmap): (r: Lru)
    requires Valid(c)
    ensures Valid(r) && r.maxSize == c.maxSize
    ensures Covers(Touch(c.order, k), c.entries[k := v])
    ensures TrimmedFrom(r, Touch(c.order, k), c.entries[k := v], c.maxSize)
    ensures k in r.entries <==> SizeOf(v) <= c.maxSize
    ensures k in r.entries ==> r.entries[k] == v && r.order[|r.order| - 1] == k
    ensures forall j :: j in r.entries && j != k ==> j in c.entries && r.entries[j] == c.entries[j]
  {
    PutGrownWellFormed(c, k, v);
    var order := Touch(c.order, k);
    var r := TrimToSize(Lru(order, c.entries[k := v], c.maxSize), c.maxSize);
    PutFacts(c, k, v, order, r);
    r
  }

  lemma PutFacts(c: Lru, k: int, v: Bitmap, order: seq<int>, r: Lru)
    requires c.maxSize > 0 && |order| >= 1 && order[|order| - 1] == k
    requires Covers(order, c.entries[k := v])
    requires TrimmedFrom(r, order, c.entries[k := v], c.maxSize)
    requires WellFormed(r) && r.maxSize == c.maxSize
    requires Cost(r.order, r.entries) == Cost(r.order, c.entries[k := v])
    ensures Valid(r)
    ensures k in r.entries <==> SizeOf(v) <= c.maxSize
    ensures k in r.entries ==> r.entries[k] == v && r.order[|r.order| - 1] == k
    ensures forall j :: j in r.entries && j != k ==> j in c.entries && r.entries[j] == c.entries[j]
  {
    var m := c.entries[k := v];
    TrimmedIsValid(r, m);
    assert m[k] == v;
    PutKeepsNewest(order, m, r, c.maxSize);
    PutFrame(c.entries, k, v, r);
  }

  lemma TrimmedIsValid(r: Lru, m: map<int, Bitmap>)
    requires WellFormed(r) && r.maxSize > 0 && Covers(r.order, m)
    requires r.order == [] || Cost(r.order, m) <= r.maxSize
    requires Cost(r.order, r.entries) == Cost(r.order, m)
    ensures Valid(r)
  {
    if r.order == [] {
      assert Cost(r.order, r.entries) == 0;
    }
  }

  lemma PutFrame(entries: map<int, Bitmap>, k: int, v: Bitmap, r: Lru)
    requires forall j :: j in r.entries ==> j in entries[k := v] && r.entries[j] == entries[k := v][j]
    ensures forall j :: j in r.entries && j != k ==> j in entries && r.entries[j] == entries[j]
  {
  }

  lemma PutGrownWellFormed(c: Lru, k: int, v: Bitmap)
    requires Valid(c)
    ensures WellFormed(Lru(Touch(c.order, k), c.entries[k := v], c.maxSize))
  {
    TouchDistinct(c.order, k);
    var m := c.entries[k := v];
    assert forall x :: x in c.order ==> x in c.entries by {
      forall x | x in c.order ensures x in c.entries {
        var i :| 0 <= i < |c.order| && c.order[i] == x;
      }
    }
    CoversByMembership(Touch(c.order, k), m);
  }

  lemma PutKeepsNewest(order: seq<int>, entries: map<int, Bitmap>, r: Lru, max: int)
    requires Covers(order, entries) && |order| >= 1
    requires TrimmedFrom(r, order, entries, max)
    requires max > 0
    ensures var k := order[|order| - 1];
            (k in r.entries <==> SizeOf(entries[k]) <= max)
            && (k in r.entries ==> r.order[|r.order| - 1] == k)
  {
    var k := order[|order| - 1];
    var n := |order| - |r.order|;
    if k in r.entries {
      assert k in r.order;
      assert r.order[|r.order| - 1] == order[|order| - 1];
      CostAtLeastEntry(r.order, k, entries);
    } else {
      assert r.order == [];
      assert order[|order| - 1..] == [k];
      assert Cost([k], entries) == SizeOf(entries[k]);
    }
  }

  /** `LruCache.evictAll`, which is `trimToSize(-1)`. */
  function EvictAll(c: Lru): (r: Lru)
    requires Valid(c)
    ensures Valid(r) && r.order == [] && r.entries == map[] && r.maxSize == c.maxSize
  {
    TrimToSize(c, -1)
  }

  /** A put followed by a get of the same key finds the value, exactly when
      the value fits the budget on its own. */
  lemma PutThenGet(c: Lru, k: int, v: Bitmap)
    requires Valid(c)
    ensures Get(Put(c, k, v), k).0 == (if SizeOf(v) <= c.maxSize then Some(v) else None)
  {
  }

  /** An entry read just before another key is put is evicted only if every
      other entry is evicted too: it has become the youngest but one. */
  lemma TouchedEntrySurvivesPut(c: Lru, k: int, j: int, v: Bitmap)
    requires Valid(c) && k in c.entries && j != k
    ensures var after := Put(Get(c, k).1, j, v);
            k !in after.entries ==> forall x :: x in after.entries ==> x == j
  {
    var c1 := Get(c, k).1;
    assert c1.order[|c1.order| - 1] == k;
    LastSurvivesRemove(c1.order, j);
    var order := Touch(c1.order, j);
    assert order[|order| - 2] == k;
  }

  /** Once the key at position `i` of the order is evicted, so is every key
      before it: only the entries after `i` can remain. */
  lemma EvictionIsEldestFirst(order: seq<int>, entries: map<int, Bitmap>, r: Lru, max: int, i: nat)
    requires Covers(order, entries) && i < |order|
    requires TrimmedFrom(r, order, entries, max)
    requires order[i] !in r.entries
    ensures |r.order| < |order| - i
    ensures forall x :: x in r.entries ==> x in order[i + 1..]
  {
    var n := |order| - |r.order|;
    forall x | x in r.entries ensures x in order[i + 1..] {
      assert x in r.order;
      assert r.order == order[i + 1..][n - i - 1..];
    }
  }

  lemma {:induction false} LastSurvivesRemove(s: seq<int>, j: int)
    requires |s| >= 1 && s[|s| - 1] != j
    ensures var r := Remove(s, j); |r| >= 1 && r[|r| - 1] == s[|s| - 1]
    decreases |s|
  {
    if |s| > 1 {
      LastSurvivesRemove(s[1..], j);
    }
  }
}
