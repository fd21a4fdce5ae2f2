/** One stored entry: a payload and an absolute expiration instant in Unix
    nanoseconds, with 0 meaning "never expires". */
module Entry {
  import opened Numeric

  /** A stored payload. The increment/decrement family dispatches on the
      payload's integer kind; every other payload is opaque to the cache. */
  datatype Value<T> = Integer(kind: IntKind, n: int) | Opaque(payload: T)

  /** An integer payload holds a value of its own kind. */
  predicate WellFormed<T>(v: Value<T>) {
    v.Integer? ==> InRange(v.kind, v.n)
  }

  /** The payload is an integer of exactly `kind` (the typed variants' check). */
  predicate HasKind<T>(v: Value<T>, kind: IntKind)
    ensures v.Opaque? ==> !HasKind(v, kind)
    ensures v.Integer? ==> (HasKind(v, kind) <==> v.kind == kind)
  {
    v.Integer? && v.kind == kind
  }

  predicate WellFormedItems<T>(m: map<string, Item<T>>) {
    forall k :: k in m ==> WellFormed(m[k].value)
  }

  datatype Item<T> = Item(value: Value<T>, expiration: int)

  /** The entry's own expiry test: only an expiration of exactly 0 means
      "never"; otherwise the entry is expired strictly after its instant.
      Increment, Decrement and the merge of Load use this test. */
  predicate Expired<T>(item: Item<T>, now: int)
    ensures item.expiration == 0 ==> !Expired(item, now)
    ensures now <= item.expiration ==> !Expired(item, now)
    ensures item.expiration != 0 && now > item.expiration ==> Expired(item, now)
  {
    item.expiration != 0 && now > item.expiration
  }

  /** The expiry test that get, Get, GetWithExpiration, Items and
      DeleteExpired write out in place: every expiration <= 0 means "never". */
  predicate PastDeadline<T>(item: Item<T>, now: int)
    ensures item.expiration <= 0 ==> !PastDeadline(item, now)
    ensures now <= item.expiration ==> !PastDeadline(item, now)
    ensures item.expiration > 0 && now > item.expiration ==> PastDeadline(item, now)
  {
    item.expiration > 0 && now > item.expiration
  }

  /** Replaces the payload and keeps the expiration, so that a
      read-modify-write does not extend or shorten the entry's life. */
  function SetValue<T>(item: Item<T>, v: Value<T>): (r: Item<T>)
    ensures r.value == v
    ensures r.expiration == item.expiration
    ensures forall now :: Expired(r, now) == Expired(item, now)
    ensures forall now :: PastDeadline(r, now) == PastDeadline(item, now)
  {
    item.(value := v)
  }

  /** The two tests agree on every entry whose expiration is not negative, and
      an entry at its exact expiration instant is still unexpired. */
  lemma ExpiryTestsAgree<T>(item: Item<T>, now: int)
    requires item.expiration >= 0
    ensures Expired(item, now) <==> PastDeadline(item, now)
    ensures now == item.expiration ==> !Expired(item, now)
  {
  }

  /** On a negative expiration the two tests disagree: get still finds the
      entry while the entry's own test reports it expired. */
  lemma NegativeExpirationDisagrees<T>(item: Item<T>, now: int)
    requires item.expiration < 0 && now > item.expiration
    ensures Expired(item, now) && !PastDeadline(item, now)
  {
  }
}
