/** Properties that relate several operations of the store: what a write makes
    visible and for how long, what a sweep and a snapshot preserve, how Load
    merges, and how increments and decrements undo each other. */
module Properties {
  import opened Numeric
  import opened Entry
  import opened Outcomes
  import opened Store

  /** An entry written with a positive duration is found up to and including
      its deadline and not after; one written with no positive duration is
      found at every instant. The deadline must fit in an int64 and the write
      must happen at or after the Unix epoch. */
  lemma SetThenGet<T>(m: map<string, Item<T>>, k: string, x: Value<T>, d: int, de: int, t0: int, t: int)
    requires de != 0 && 0 <= t0
    requires EffectiveDuration(d, de) > 0 ==> InRange(Int64, t0 + EffectiveDuration(d, de))
    ensures var ed := EffectiveDuration(d, de);
            Lookup(m[k := Item(x, ExpirationFor(d, de, t0))], k, t) ==
              if ed <= 0 || t <= t0 + ed then Some(x) else None
  {
  }

  /** A cache constructed with the default 0 stores SetDefault entries that no
      expiry test ever reports as expired. */
  lemma SetDefaultOnZeroDefaultNeverExpires<T>(m: map<string, Item<T>>, k: string, x: Value<T>, t0: int, t: int)
    ensures ExpirationFor(0, NormalizedDefault(0), t0) == 0
    ensures Lookup(m[k := Item(x, ExpirationFor(0, NormalizedDefault(0), t0))], k, t) == Some(x)
    ensures !Expired(Item(x, ExpirationFor(0, NormalizedDefault(0), t0)), t)
  {
  }

  /** Whatever the duration, an entry is visible at the instant it is written,
      even when the deadline overflows int64 (it then wraps to a negative
      expiration, which get treats as "never"). So Add right after a write
      of the same key fails, and Replace succeeds. */
  lemma {:induction false} FreshEntryVisible<T>(m: map<string, Item<T>>, k: string, x: Value<T>, d: int, de: int, now: int)
    requires InRange(Int64, now) && InRange(Int64, d) && InRange(Int64, de)
    ensures Lookup(m[k := Item(x, ExpirationFor(d, de, now))], k, now) == Some(x)
  {
    var ed := EffectiveDuration(d, de);
    if ed > 0 {
      var q := WrapOffset(Int64, now + ed);
      var e := ExpirationFor(d, de, now);
      assert e == now + ed + q * 0x1_0000_0000_0000_0000;
      if q < 0 {
        assert e <= 0;
      } else if q > 0 {
        assert false;
      }
    }
  }

  /** Once an entry has been found at `t2`, it was found at every earlier
      instant: visibility only ever ends. */
  lemma VisibleEarlier<T>(m: map<string, Item<T>>, k: string, t1: int, t2: int)
    requires t1 <= t2 && Lookup(m, k, t2).Some?
    ensures Lookup(m, k, t1) == Lookup(m, k, t2)
  {
  }

  /** A sweep at `now` changes nothing get can see at `now`, and a second sweep
      at the same instant removes nothing more. */
  lemma SweepInvisible<T>(m: map<string, Item<T>>, k: string, now: int)
    ensures Lookup(LiveItems(m, now), k, now) == Lookup(m, k, now)
    ensures LiveItems(LiveItems(m, now), now) == LiveItems(m, now)
  {
  }

  /** ItemCount never reports fewer entries than Items returns, and right after
      a sweep at the same instant it reports exactly as many. */
  lemma {:induction false} ItemCountBoundsItems<T>(m: map<string, Item<T>>, now: int)
    ensures |LiveItems(m, now)| <= |m|
    ensures |LiveItems(LiveItems(m, now), now)| == |LiveItems(m, now)|
  {
    var live := LiveItems(m, now);
    assert live.Keys <= m.Keys;
    SubsetCardinality(live.Keys, m.Keys);
    SweepInvisible(m, "", now);
  }

  lemma {:induction false} SubsetCardinality<K>(a: set<K>, b: set<K>)
    requires a <= b
    ensures |a| <= |b|
  {
    assert b == a + (b - a);
  }

  /** Lazy expiration: an entry past its deadline still counts in ItemCount
      until a sweep removes it. */
  lemma LazyExpirationOvercounts<T>(m: map<string, Item<T>>, k: string, now: int)
    requires k in m && m[k].expiration > 0 && now > m[k].expiration
    ensures Lookup(m, k, now) == None
    ensures k in m.Keys && k !in LiveItems(m, now).Keys
  {
  }

  /** Snapshot round trip: a store built from Items, or one flushed and then
      loaded with Items, finds every key the original finds, with the same
      payload. */
  lemma {:induction false} SnapshotRoundTrip<T>(m: map<string, Item<T>>, k: string, now: int)
    ensures Merged(map[], LiveItems(m, now), now) == LiveItems(m, now)
    ensures Lookup(LiveItems(m, now), k, now) == Lookup(m, k, now)
  {
    var snap := LiveItems(m, now);
    assert Merged(map[], snap, now).Keys == snap.Keys;
    SweepInvisible(m, k, now);
  }

  /** Load keeps every stored entry that its merge test calls unexpired, and
      adopts every incoming entry whose key is missing; keys outside the
      incoming map are untouched. Loading the same map again at the same
      instant changes nothing more. */
  lemma LoadKeepsUnexpired<T>(m: map<string, Item<T>>, incoming: map<string, Item<T>>, k: string, now: int)
    ensures k in m && !Expired(m[k], now) ==> Merged(m, incoming, now)[k] == m[k]
    ensures k !in m && k in incoming ==> Merged(m, incoming, now)[k] == incoming[k]
    ensures k !in incoming ==> (k in Merged(m, incoming, now) <==> k in m)
    ensures k !in incoming && k in m ==> Merged(m, incoming, now)[k] == m[k]
    ensures Merged(Merged(m, incoming, now), incoming, now) == Merged(m, incoming, now)
  {
    var once := Merged(m, incoming, now);
    assert Merged(once, incoming, now).Keys == once.Keys;
  }

  /** Where every stored expiration is non-negative, Load never overwrites an
      entry that get finds. */
  lemma LoadKeepsVisible<T>(m: map<string, Item<T>>, incoming: map<string, Item<T>>, k: string, now: int)
    requires k in m && m[k].expiration >= 0
    requires Lookup(m, k, now).Some?
    ensures Lookup(Merged(m, incoming, now), k, now) == Lookup(m, k, now)
  {
    ExpiryTestsAgree(m[k], now);
  }

  /** The two expiry tests part ways on a negative expiration (one that only a
      NewFrom or Load map can carry): get finds the entry, yet Load overwrites
      it and Increment reports it not found. */
  lemma NegativeExpirationSplitsViews()
    ensures var m: map<string, Item<string>> := map["k" := Item(Integer(Int, 1), -1)];
            var incoming: map<string, Item<string>> := map["k" := Item(Integer(Int, 2), 0)];
            && Lookup(m, "k", 5) == Some(Integer(Int, 1))
            && Expired(m["k"], 5)
            && Lookup(Merged(m, incoming, 5), "k", 5) == Some(Integer(Int, 2))
  {
  }

  /** Delete leaves the key absent at every instant, whatever its state was. */
  lemma DeleteHides<T>(m: map<string, Item<T>>, k: string, now: int)
    ensures Lookup(m - {k}, k, now) == None
    ensures forall j :: j != k ==> Lookup(m - {k}, j, now) == Lookup(m, j, now)
  {
  }

  /** The generic Decrement undoes the generic Increment by the same delta,
      and the other way round, on every integer payload. */
  lemma {:induction false} IncrementDecrementInverse<T>(v: Value<T>, n: int)
    requires WellFormed(v) && v.Integer?
    ensures Adjusted(v, n, false).Some? && Adjusted(Adjusted(v, n, false).value, n, true) == Some(v)
    ensures Adjusted(v, n, true).Some? && Adjusted(Adjusted(v, n, true).value, n, false) == Some(v)
  {
    var up := Adjusted(v, n, false).value;
    assert up == Integer(v.kind, Wrap(v.kind, v.n + n));
    AddThenSub(v.kind, v.n, n);
    assert Adjusted(up, n, true).value == Integer(v.kind, v.n);

    var down := Adjusted(v, n, true).value;
    assert down == Integer(v.kind, Wrap(v.kind, v.n - n));
    SubThenAdd(v.kind, v.n, n);
    assert Adjusted(down, n, false).value == Integer(v.kind, v.n);
  }

  /** The typed variants compute what the generic path computes on the same
      kind: the payload plus or minus the delta, reduced to the kind's width. */
  lemma TypedAgreesWithGeneric<T>(kind: IntKind, a: int, n: int)
    ensures Adjusted<T>(Integer(kind, a), n, false) == Some(Integer(kind, Wrap(kind, a + n)))
    ensures Adjusted<T>(Integer(kind, a), n, true) == Some(Integer(kind, Wrap(kind, a - n)))
  {
  }

  /** Fixed-width wraparound at the boundaries: uint8 0 - 1 is 255, int8
      127 + 1 is -128, and the int64 delta 300 narrows to the uint8 delta 44. */
  lemma WraparoundExamples()
    ensures Wrap(Uint8, 0 - 1) == 255
    ensures Wrap(Int8, 127 + 1) == -128
    ensures Wrap(Uint8, 300) == 44
    ensures Adjusted<string>(Integer(Uint8, 10), 300, false) == Adjusted<string>(Integer(Uint8, 10), 44, false)
  {
    NarrowedAdd(Uint8, 10, 300);
  }
}

/** A client of the store that uses only the contracts of its methods, as a
    caller would: one run adds, increments, replaces, deletes and flushes,
    the other sweeps an entry written with a short default lifetime. */
module Scenarios {
  import opened Numeric
  import opened Entry
  import opened Outcomes
  import opened Store
  import opened Properties

  method AddIncrementDelete(now: int)
    requires 0 <= now && InRange(Int64, now + 1000)
  {
    var c := new Cache<string>(0, map[]);
    c.OnEvicted(true);

    // A second Add of a live key fails and keeps the first value.
    var s1 := c.Add("a", Integer(Int, 10), 1000, now);
    assert s1 == Pass;
    var s2 := c.Add("a", Integer(Int, 99), -1, now);
    assert s2 == Fail(AlreadyExists);
    var got := c.Get("a", now);
    assert got == Some(Integer(Int, 10));

    // Increment by 5 yields 15 and keeps the deadline now + 1000.
    var s3 := c.Increment("a", 5, now + 1000);
    assert s3 == Pass;
    var v, e := c.GetWithExpiration("a", now + 1000);
    assert v == Some(Integer(Int, 15)) && e == now + 1000;
    var gone := c.Get("a", now + 1001);
    assert gone == None;

    // Replace of a key that was never written fails and does not create it.
    var s4 := c.Replace("b", Integer(Int, 1), -1, now);
    assert s4 == Fail(NotFound) && "b" !in c.items;

    // Delete with a callback installed reports the removed pair once.
    var fired := c.Delete("a");
    assert fired == [Eviction("a", Integer(Int, 15))];

    // Flush reports nothing and leaves no entry behind.
    c.SetDefault("c", Opaque("payload"), now);
    c.Flush();
    var count := c.ItemCount();
    assert count == 0;
  }

  method SweepAfterDefaultTtl(now: int)
    requires 0 <= now && InRange(Int64, now + 100)
  {
    var c := new Cache<string>(100, map[]);
    c.OnEvicted(true);
    c.SetDefault("a", Integer(Int, 1), now);

    // Past the deadline the entry is invisible but still counted.
    var got := c.Get("a", now + 110);
    assert got == None;
    var before := c.ItemCount();
    assert before == 1;

    // A sweep removes it and reports it exactly once.
    var evictions := c.DeleteExpired(now + 110);
    var after := c.ItemCount();
    assert after == 0;
    assert Eviction("a", Integer(Int, 1)) in evictions;
    assert forall e :: e in evictions ==> e == Eviction("a", Integer(Int, 1));
  }
}
