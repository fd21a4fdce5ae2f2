/** The expiring key -> entry store. Each public operation is one atomic step
    (the Go cache's mutex serialises them), and the current time in Unix
    nanoseconds is passed in as `now`. The functions at the top are the pure
    views the methods of `Cache` are specified against. */
module Store {
  import opened Numeric
  import opened Entry
  import opened Outcomes

  /** One call of the eviction callback: the removed key and its payload. */
  datatype Eviction<T> = Eviction(key: string, value: Value<T>)

  /** newCache: a default expiration of 0 (the DefaultExpiration sentinel)
      becomes -1 (NoExpiration), so the stored default never again reads as
      "use the default". */
  function NormalizedDefault(de: int): (r: int)
    ensures r != 0
    ensures de != 0 ==> r == de
    ensures de == 0 ==> r == -1
  {
    if de == 0 then -1 else de
  }

  /** The duration set actually applies: the cache's default for a requested 0. */
  function EffectiveDuration(d: int, defaultExpiration: int): (e: int)
    ensures d == 0 ==> e == defaultExpiration
    ensures d != 0 ==> e == d
    ensures defaultExpiration != 0 ==> e != 0
  {
    if d == 0 then defaultExpiration else d
  }

  /** The expiration set stores. Only a positive effective duration gives a
      deadline, `now + d` as an int64 nanosecond count; anything else gives 0,
      "never". */
  function ExpirationFor(d: int, defaultExpiration: int, now: int): (e: int)
    ensures InRange(Int64, e)
    ensures EffectiveDuration(d, defaultExpiration) <= 0 ==> e == 0
    ensures var ed := EffectiveDuration(d, defaultExpiration);
            ed > 0 && InRange(Int64, now + ed) ==> e == now + ed
  {
    var ed := EffectiveDuration(d, defaultExpiration);
    if ed > 0 then Wrap(Int64, now + ed) else 0
  }

  /** get: the payload of `k`, visible while it is present and its deadline
      (if positive) is not yet past. Looking never removes anything. */
  function Lookup<T>(m: map<string, Item<T>>, k: string, now: int): (r: Option<Value<T>>)
    ensures r.Some? <==> k in m && (m[k].expiration <= 0 || now <= m[k].expiration)
    ensures r.Some? ==> r.value == m[k].value
  {
    if k !in m then None
    else if m[k].expiration > 0 && now > m[k].expiration then None
    else Some(m[k].value)
  }

  /** The entries that Items copies and that DeleteExpired keeps: exactly those
      whose deadline is not past, unchanged. */
  function LiveItems<T>(m: map<string, Item<T>>, now: int): (r: map<string, Item<T>>)
    ensures r.Keys <= m.Keys
    ensures forall k :: k in r ==> r[k] == m[k]
    ensures forall k :: k in m ==> (k in r <==> !PastDeadline(m[k], now))
  {
    map k | k in m && !PastDeadline(m[k], now) :: m[k]
  }

  /** The merge policy of Load: an incoming entry is written when its key is
      absent from the store or the stored entry is expired by the entry's own
      test; every other stored entry stays. */
  function Merged<T>(m: map<string, Item<T>>, incoming: map<string, Item<T>>, now: int): (r: map<string, Item<T>>)
    ensures r.Keys == m.Keys + incoming.Keys
    ensures forall k :: k in incoming && (k !in m || Expired(m[k], now)) ==> r[k] == incoming[k]
    ensures forall k :: k in m && (k !in incoming || !Expired(m[k], now)) ==> r[k] == m[k]
  {
    map k | k in m.Keys + incoming.Keys ::
      if k in incoming && (k !in m || Expired(m[k], now)) then incoming[k] else m[k]
  }

  /** The type switch of the generic Increment and Decrement: an integer payload
      of any kind takes the delta narrowed to its own kind and wraps; any other
      payload is refused. Narrowing the delta first makes no difference: the
      result is the exact sum or difference reduced to the kind's width. */
  function Adjusted<T>(v: Value<T>, n: int, subtract: bool): (r: Option<Value<T>>)
    ensures r.Some? <==> v.Integer?
    ensures r.Some? ==> r.value.Integer? && r.value.kind == v.kind
    ensures r.Some? ==> r.value.n == Wrap(v.kind, if subtract then v.n - n else v.n + n)
  {
    match v
    case Opaque(_) => None
    case Integer(kind, a) =>
      var delta := Wrap(kind, n);
      NarrowedAdd(kind, a, n);
      NarrowedSub(kind, a, n);
      Some(Integer(kind, Wrap(kind, if subtract then a - delta else a + delta)))
  }

  class Cache<T> {
    /** Duration applied when a write asks for the default; never 0. */
    var defaultExpiration: int
    var items: map<string, Item<T>>
    /** Whether an eviction callback is installed (a non-nil onEvicted). */
    var onEvicted: bool

    ghost predicate Valid()
      reads this
    {
      defaultExpiration != 0 && WellFormedItems(items)
    }

    /** newCache: New passes an empty map, NewFrom the caller's map. */
    constructor (de: int, m: map<string, Item<T>>)
      requires WellFormedItems(m)
      ensures Valid()
      ensures defaultExpiration == NormalizedDefault(de)
      ensures items == m && !onEvicted
    {
      defaultExpiration := NormalizedDefault(de);
      items := m;
      onEvicted := false;
    }

    /** Set (and its lock-free twin set): store `x` under `k`, replacing any
        entry, with the expiration the duration gives. */
    method Set(k: string, x: Value<T>, d: int, now: int)
      requires Valid() && WellFormed(x)
      modifies this`items
      ensures Valid()
      ensures items == old(items)[k := Item(x, ExpirationFor(d, defaultExpiration, now))]
    {
      var e := 0;
      var dur := d;
      if dur == 0 {
        dur := defaultExpiration;
      }
      if dur > 0 {
        e := Wrap(Int64, now + dur);
      }
      items := items[k := Item(x, e)];
    }

    method SetDefault(k: string, x: Value<T>, now: int)
      requires Valid() && WellFormed(x)
      modifies this`items
      ensures Valid()
      ensures items == old(items)[k := Item(x, ExpirationFor(defaultExpiration, defaultExpiration, now))]
    {
      Set(k, x, 0, now);
    }

    /** Add: refuses a key that get finds; otherwise acts as set. */
    method Add(k: string, x: Value<T>, d: int, now: int) returns (status: Outcome)
      requires Valid() && WellFormed(x)
      modifies this`items
      ensures Valid()
      ensures status.Fail? <==> Lookup(old(items), k, now).Some?
      ensures status.Fail? ==> status.error == AlreadyExists && items == old(items)
      ensures status.Pass? ==> items == old(items)[k := Item(x, ExpirationFor(d, defaultExpiration, now))]
    {
      var found := Lookup(items, k, now);
      if found.Some? {
        return Fail(AlreadyExists);
      }
      Set(k, x, d, now);
      status := Pass;
    }

    /** Replace: refuses a key that get does not find; otherwise acts as set. */
    method Replace(k: string, x: Value<T>, d: int, now: int) returns (status: Outcome)
      requires Valid() && WellFormed(x)
      modifies this`items
      ensures Valid()
      ensures status.Fail? <==> Lookup(old(items), k, now).None?
      ensures status.Fail? ==> status.error == NotFound && items == old(items)
      ensures status.Pass? ==> items == old(items)[k := Item(x, ExpirationFor(d, defaultExpiration, now))]
    {
      var found := Lookup(items, k, now);
      if found.None? {
        return Fail(NotFound);
      }
      Set(k, x, d, now);
      status := Pass;
    }

    /** Get: what get sees; the store is left as it is. */
    method Get(k: string, now: int) returns (v: Option<Value<T>>)
      ensures v == Lookup(items, k, now)
    {
      if k !in items {
        return None;
      }
      var item := items[k];
      if item.expiration > 0 && now > item.expiration {
        return None;
      }
      v := Some(item.value);
    }

    /** GetWithExpiration: what get sees, with the entry's deadline, or 0 when
        the entry is not found or has no positive deadline. */
    method GetWithExpiration(k: string, now: int) returns (v: Option<Value<T>>, expiration: int)
      ensures v == Lookup(items, k, now)
      ensures v.Some? && items[k].expiration > 0 ==> expiration == items[k].expiration
      ensures v.None? || items[k].expiration <= 0 ==> expiration == 0
    {
      if k !in items {
        return None, 0;
      }
      var item := items[k];
      if item.expiration > 0 {
        if now > item.expiration {
          return None, 0;
        }
        return Some(item.value), item.expiration;
      }
      v, expiration := Some(item.value), 0;
    }

    /** Increment: adds the int64 delta `n`, narrowed to the stored kind, to an
        unexpired integer payload; the expiration is kept. */
    method Increment(k: string, n: int, now: int) returns (status: Outcome)
      requires Valid()
      modifies this`items
      ensures Valid()
      ensures k !in old(items) || Expired(old(items)[k], now) ==>
                status == Fail(NotFound) && items == old(items)
      ensures k in old(items) && !Expired(old(items)[k], now) && !old(items)[k].value.Integer? ==>
                status == Fail(TypeMismatch) && items == old(items)
      ensures k in old(items) && !Expired(old(items)[k], now) && old(items)[k].value.Integer? ==>
                status == Pass &&
                items == old(items)[k := SetValue(old(items)[k], Adjusted(old(items)[k].value, n, false).value)]
    {
      if k !in items || Expired(items[k], now) {
        return Fail(NotFound);
      }
      var item := items[k];
      var next := Adjusted(item.value, n, false);
      if next.None? {
        return Fail(TypeMismatch);
      }
      items := items[k := SetValue(item, next.value)];
      status := Pass;
    }

    /** Decrement: as Increment, subtracting the narrowed delta (a direct
        subtraction for every kind, unsigned ones included). */
    method Decrement(k: string, n: int, now: int) returns (status: Outcome)
      requires Valid()
      modifies this`items
      ensures Valid()
      ensures k !in old(items) || Expired(old(items)[k], now) ==>
                status == Fail(NotFound) && items == old(items)
      ensures k in old(items) && !Expired(old(items)[k], now) && !old(items)[k].value.Integer? ==>
                status == Fail(TypeMismatch) && items == old(items)
      ensures k in old(items) && !Expired(old(items)[k], now) && old(items)[k].value.Integer? ==>
                status == Pass &&
                items == old(items)[k := SetValue(old(items)[k], Adjusted(old(items)[k].value, n, true).value)]
    {
      if k !in items || Expired(items[k], now) {
        return Fail(NotFound);
      }
      var item := items[k];
      var next := Adjusted(item.value, n, true);
      if next.None? {
        return Fail(TypeMismatch);
      }
      items := items[k := SetValue(item, next.value)];
      status := Pass;
    }

    /** IncrementInt, IncrementInt8, ..., IncrementUint64: the payload must be
        of exactly `kind`; the wrapped sum is stored and returned (0 on error). */
    method IncrementTyped(kind: IntKind, k: string, n: int, now: int) returns (r: int, status: Outcome)
      requires Valid()
      modifies this`items
      ensures Valid()
      ensures k !in old(items) || Expired(old(items)[k], now) ==>
                r == 0 && status == Fail(NotFound) && items == old(items)
      ensures k in old(items) && !Expired(old(items)[k], now) && !HasKind(old(items)[k].value, kind) ==>
                r == 0 && status == Fail(TypeMismatch) && items == old(items)
      ensures k in old(items) && !Expired(old(items)[k], now) && HasKind(old(items)[k].value, kind) ==>
                status == Pass && r == Wrap(kind, old(items)[k].value.n + n) &&
                items == old(items)[k := SetValue(old(items)[k], Integer(kind, r))]
    {
      if k !in items || Expired(items[k], now) {
        return 0, Fail(NotFound);
      }
      var item := items[k];
      if !HasKind(item.value, kind) {
        return 0, Fail(TypeMismatch);
      }
      r := Wrap(kind, item.value.n + n);
      items := items[k := SetValue(item, Integer(kind, r))];
      status := Pass;
    }

    /** DecrementInt, DecrementInt8, ..., DecrementUint64: as IncrementTyped,
        storing and returning the wrapped difference. */
    method DecrementTyped(kind: IntKind, k: string, n: int, now: int) returns (r: int, status: Outcome)
      requires Valid()
      modifies this`items
      ensures Valid()
      ensures k !in old(items) || Expired(old(items)[k], now) ==>
                r == 0 && status == Fail(NotFound) && items == old(items)
      ensures k in old(items) && !Expired(old(items)[k], now) && !HasKind(old(items)[k].value, kind) ==>
                r == 0 && status == Fail(TypeMismatch) && items == old(items)
      ensures k in old(items) && !Expired(old(items)[k], now) && HasKind(old(items)[k].value, kind) ==>
                status == Pass && r == Wrap(kind, old(items)[k].value.n - n) &&
                items == old(items)[k := SetValue(old(items)[k], Integer(kind, r))]
    {
      if k !in items || Expired(items[k], now) {
        return 0, Fail(NotFound);
      }
      var item := items[k];
      if !HasKind(item.value, kind) {
        return 0, Fail(TypeMismatch);
      }
      r := Wrap(kind, item.value.n - n);
      items := items[k := SetValue(item, Integer(kind, r))];
      status := Pass;
    }

    /** delete: removes `k` whatever its state; hands back the removed payload
        only when a callback is installed and there was an entry. */
    method RemoveKey(k: string) returns (evicted: Option<Value<T>>)
      requires Valid()
      modifies this`items
      ensures Valid()
      ensures items == old(items) - {k}
      ensures evicted == if onEvicted && k in old(items) then Some(old(items)[k].value) else None
    {
      if onEvicted && k in items {
        var v := items[k].value;
        items := items - {k};
        return Some(v);
      }
      items := items - {k};
      evicted := None;
    }

    /** Delete: removes `k`; the callback calls it makes, after the store is
        unlocked, are returned in order. */
    method Delete(k: string) returns (fired: seq<Eviction<T>>)
      requires Valid()
      modifies this`items
      ensures Valid()
      ensures items == old(items) - {k}
      ensures fired == if onEvicted && k in old(items) then [Eviction(k, old(items)[k].value)] else []
    {
      var evicted := RemoveKey(k);
      fired := [];
      if evicted.Some? {
        fired := [Eviction(k, evicted.value)];
      }
    }

    /** DeleteExpired: one pass over the store removing every entry whose
        deadline is past; the callback calls it makes afterwards are returned,
        one per removed entry, in no particular order. */
    method DeleteExpired(now: int) returns (evictions: seq<Eviction<T>>)
      requires Valid()
      modifies this`items
      ensures Valid()
      ensures items == LiveItems(old(items), now)
      ensures !onEvicted ==> evictions == []
      ensures onEvicted ==> forall e :: e in evictions <==>
                e.key in old(items) && PastDeadline(old(items)[e.key], now) && e.value == old(items)[e.key].value
      ensures forall i, j :: 0 <= i < j < |evictions| ==> evictions[i].key != evictions[j].key
    {
      evictions := [];
      var pending := items.Keys;
      while pending != {}
        invariant Valid()
        invariant pending <= old(items).Keys
        invariant items == map j | j in old(items) && (j in pending || !PastDeadline(old(items)[j], now)) :: old(items)[j]
        invariant !onEvicted ==> evictions == []
        invariant onEvicted ==> forall e :: e in evictions <==>
                    e.key in old(items) && e.key !in pending && PastDeadline(old(items)[e.key], now) &&
                    e.value == old(items)[e.key].value
        invariant forall i :: 0 <= i < |evictions| ==> evictions[i].key !in pending
        invariant forall i, j :: 0 <= i < j < |evictions| ==> evictions[i].key != evictions[j].key
        decreases pending
      {
        var k :| k in pending;
        var item := items[k];
        if item.expiration > 0 && now > item.expiration {
          var evicted := RemoveKey(k);
          if evicted.Some? {
            evictions := evictions + [Eviction(k, evicted.value)];
          }
        }
        pending := pending - {k};
      }
    }

    /** OnEvicted: installs (true) or clears (false) the eviction callback. */
    method OnEvicted(install: bool)
      modifies this`onEvicted
      ensures onEvicted == install
    {
      onEvicted := install;
    }

    /** The merge loop of Load over an already decoded map of entries. */
    method Load(incoming: map<string, Item<T>>, now: int)
      requires Valid() && WellFormedItems(incoming)
      modifies this`items
      ensures Valid()
      ensures items == Merged(old(items), incoming, now)
    {
      var pending := incoming.Keys;
      while pending != {}
        invariant Valid()
        invariant pending <= incoming.Keys
        invariant items.Keys == old(items).Keys + (incoming.Keys - pending)
        invariant forall j :: j in items ==>
                    items[j] == (if j in incoming && j !in pending && (j !in old(items) || Expired(old(items)[j], now))
                                 then incoming[j] else old(items)[j])
        decreases pending
      {
        var k :| k in pending;
        var v := incoming[k];
        if k !in items || Expired(items[k], now) {
          items := items[k := v];
        }
        pending := pending - {k};
      }
      assert items.Keys == Merged(old(items), incoming, now).Keys;
    }

    /** Items: a fresh copy of the entries whose deadline is not past. */
    method Items(now: int) returns (snapshot: map<string, Item<T>>)
      ensures snapshot == LiveItems(items, now)
    {
      snapshot := map[];
      var pending := items.Keys;
      while pending != {}
        invariant pending <= items.Keys
        invariant snapshot == map j | j in items && j !in pending && !PastDeadline(items[j], now) :: items[j]
        decreases pending
      {
        var k :| k in pending;
        var item := items[k];
        if !(item.expiration > 0 && now > item.expiration) {
          snapshot := snapshot[k := item];
        }
        pending := pending - {k};
      }
    }

    /** ItemCount: every entry in the store, swept or not. */
    method ItemCount() returns (count: nat)
      ensures count == |items|
    {
      count := |items|;
    }

    /** Flush: drops every entry; no eviction is reported. */
    method Flush()
      requires Valid()
      modifies this`items
      ensures Valid()
      ensures items == map[]
    {
      items := map[];
    }
  }
}
