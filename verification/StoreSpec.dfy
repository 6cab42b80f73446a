/**
 The database as two maps, values and deadlines, and the meaning of its operations.
 `Canon` forgets everything that has expired: what a client may rely on at time `now`.
 */
module StoreSpec {
  import opened Common
  import opened Objects

  /** An enumeration of a set of keys, each once. */
  ghost predicate Enumerates(order: seq<Key>, ks: set<Key>) {
    && (forall i, j | 0 <= i < j < |order| :: order[i] != order[j])
    && (forall k :: k in order <==> k in ks)
  }

  /** Contents of `keys_` and `expires_`. */
  datatype Store = Store(vals: map<Key, Object>, dl: map<Key, int>)

  const EMPTY: Store := Store(map[], map[])

  /** Every deadline belongs to a stored key. */
  predicate Sound(st: Store) {
    st.dl.Keys <= st.vals.Keys
  }

  /** What holds at every command boundary: `Sound`, and every object was built by a constructor. */
  ghost predicate Sane(st: Store) {
    Sound(st) && forall k | k in st.vals :: WellFormed(st.vals[k])
  }

  /** `is_expired`. */
  predicate Expired(st: Store, k: Key, now: int) {
    k in st.dl && now >= st.dl[k]
  }

  predicate LiveKey(st: Store, k: Key, now: int) {
    k in st.vals && !Expired(st, k, now)
  }

  /** Stored, but past its deadline. */
  predicate Stale(st: Store, k: Key, now: int) {
    k in st.vals && Expired(st, k, now)
  }

  /** `delete_key`. */
  function Purge(st: Store, k: Key): Store {
    Store(st.vals - {k}, st.dl - {k})
  }

  /** `get`: an expired key is deleted on access. */
  function Fetch(st: Store, k: Key, now: int): (Store, Option<Object>) {
    if k !in st.vals then (st, None)
    else if Expired(st, k, now) then (Purge(st, k), None)
    else (st, Some(st.vals[k]))
  }

  /** `peek`: the same answer without deleting anything. */
  function Peek(st: Store, k: Key, now: int): Option<Object> {
    if LiveKey(st, k, now) then Some(st.vals[k]) else None
  }

  /** `set` clears the deadline. */
  function Put(st: Store, k: Key, o: Object): Store {
    Store(st.vals[k := o], st.dl - {k})
  }

  function SetExpire(st: Store, k: Key, t: int): Store {
    st.(dl := st.dl[k := t])
  }

  function RemoveExpire(st: Store, k: Key): Store {
    st.(dl := st.dl - {k})
  }

  /** `pttl`: -2 for a key that is not stored, -1 without deadline, never less than 0 with one. */
  function Pttl(st: Store, k: Key, now: int): int {
    if k !in st.vals then -2
    else if k !in st.dl then -1
    else if st.dl[k] - now > 0 then st.dl[k] - now
    else 0
  }

  /** The store without its expired keys. */
  function Canon(st: Store, now: int): Store {
    Store(map k | k in st.vals && LiveKey(st, k, now) :: st.vals[k],
          map k | k in st.dl && LiveKey(st, k, now) :: st.dl[k])
  }

  lemma {:induction false} CanonSound(st: Store, now: int)
    ensures Sound(Canon(st, now))
    ensures forall k :: LiveKey(Canon(st, now), k, now) <==> LiveKey(st, k, now)
    ensures forall k :: !Stale(Canon(st, now), k, now)
  {
  }

  /** Forgetting now and again later is forgetting later. */
  lemma {:induction false} CanonLater(st: Store, t1: int, t2: int)
    requires t1 <= t2
    ensures Canon(Canon(st, t1), t2) == Canon(st, t2)
  {
    var a, b := Canon(Canon(st, t1), t2), Canon(st, t2);
    assert a.vals == b.vals;
    assert a.dl == b.dl;
  }

  /** Removing expired keys is invisible. */
  lemma {:induction false} PurgeExpired(st: Store, k: Key, now: int)
    requires !LiveKey(st, k, now)
    ensures Canon(Purge(st, k), now) == Canon(st, now)
  {
    var a, b := Canon(Purge(st, k), now), Canon(st, now);
    assert a.vals == b.vals;
    assert a.dl == b.dl;
  }

  lemma {:induction false} FetchCanon(st: Store, k: Key, now: int)
    ensures Canon(Fetch(st, k, now).0, now) == Canon(st, now)
    ensures Fetch(st, k, now).1 == Fetch(Canon(st, now), k, now).1 == Peek(st, k, now)
    ensures Fetch(Canon(st, now), k, now).0 == Canon(st, now)
    ensures Fetch(st, k, now).1.Some? ==> LiveKey(Fetch(st, k, now).0, k, now)
    ensures Fetch(st, k, now).1.None? ==> k !in Fetch(st, k, now).0.vals
  {
    CanonSound(st, now);
    if Stale(st, k, now) { PurgeExpired(st, k, now); }
  }

  lemma {:induction false} PutCanon(st: Store, k: Key, o: Object, now: int)
    ensures Canon(Put(st, k, o), now) == Put(Canon(st, now), k, o)
    ensures Canon(Put(Canon(st, now), k, o), now) == Canon(Put(st, k, o), now)
  {
    var a, b := Canon(Put(st, k, o), now), Put(Canon(st, now), k, o);
    assert a.vals == b.vals;
    assert a.dl == b.dl;
    CanonLater(Put(st, k, o), now, now);
  }

  lemma {:induction false} PurgeCanon(st: Store, k: Key, now: int)
    ensures Canon(Purge(st, k), now) == Purge(Canon(st, now), k)
    ensures Canon(Purge(Canon(st, now), k), now) == Canon(Purge(st, k), now)
  {
    var a, b := Canon(Purge(st, k), now), Purge(Canon(st, now), k);
    assert a.vals == b.vals;
    assert a.dl == b.dl;
    CanonLater(Purge(st, k), now, now);
  }

  lemma {:induction false} SetExpireCanon(st: Store, k: Key, t: int, now: int)
    requires LiveKey(st, k, now)
    ensures Canon(SetExpire(st, k, t), now) == Canon(SetExpire(Canon(st, now), k, t), now)
  {
    var x, y := SetExpire(st, k, t), SetExpire(Canon(st, now), k, t);
    assert forall j :: LiveKey(x, j, now) <==> LiveKey(y, j, now);
    assert Canon(x, now).vals == Canon(y, now).vals;
    assert Canon(x, now).dl == Canon(y, now).dl;
  }

  lemma {:induction false} RemoveExpireCanon(st: Store, k: Key, now: int)
    requires LiveKey(st, k, now)
    ensures Canon(RemoveExpire(st, k), now) == Canon(RemoveExpire(Canon(st, now), k), now)
  {
    var a, b := Canon(RemoveExpire(st, k), now), Canon(RemoveExpire(Canon(st, now), k), now);
    assert a.vals == b.vals;
    assert a.dl == b.dl;
  }

  /** The remaining time is reported as promised (-2 once expired) exactly when the key is not stale;
      for a stale key the code reports 0. */
  lemma {:induction false} PttlPromise(st: Store, k: Key, now: int)
    ensures Pttl(st, k, now) == Pttl(Canon(st, now), k, now) <==> !Stale(st, k, now)
    ensures Stale(st, k, now) ==> Pttl(st, k, now) == 0 && Pttl(Canon(st, now), k, now) == -2
  {
    CanonSound(st, now);
  }

  /** Fewer keys are live than stored, unless no stored key has expired. */
  lemma {:induction false} LiveCount(st: Store, now: int)
    ensures |Canon(st, now).vals| <= |st.vals|
    ensures |Canon(st, now).vals| == |st.vals| <==> forall k :: !Stale(st, k, now)
  {
    var live, all := Canon(st, now).vals.Keys, st.vals.Keys;
    var gone := set k | k in st.vals && Stale(st, k, now);
    assert all == live + gone && live !! gone;
    assert |all| == |live| + |gone|;
    if gone == {} {
      forall k ensures !Stale(st, k, now) { assert k !in gone; }
    }
  }

  // ---- stores that no client can tell apart ---------------------------------------------

  ghost predicate Equiv(a: Store, b: Store, now: int) {
    Canon(a, now) == Canon(b, now)
  }

  lemma {:induction false} EquivLater(a: Store, b: Store, t1: int, t2: int)
    requires Equiv(a, b, t1) && t1 <= t2
    ensures Equiv(a, b, t2)
  {
    CanonLater(a, t1, t2);
    CanonLater(b, t1, t2);
  }

  lemma {:induction false} CanonEquiv(st: Store, now: int)
    ensures Equiv(Canon(st, now), st, now)
  {
    CanonLater(st, now, now);
  }

  lemma {:induction false} FetchEquiv(a: Store, b: Store, k: Key, now: int)
    requires Equiv(a, b, now)
    ensures Equiv(Fetch(a, k, now).0, Fetch(b, k, now).0, now)
    ensures Fetch(a, k, now).1 == Fetch(b, k, now).1 == Peek(a, k, now) == Peek(b, k, now)
  {
    FetchCanon(a, k, now);
    FetchCanon(b, k, now);
  }

  lemma {:induction false} PutEquiv(a: Store, b: Store, k: Key, o: Object, now: int)
    requires Equiv(a, b, now)
    ensures Equiv(Put(a, k, o), Put(b, k, o), now)
  {
    PutCanon(a, k, o, now);
    PutCanon(b, k, o, now);
  }

  lemma {:induction false} PurgeEquiv(a: Store, b: Store, k: Key, now: int)
    requires Equiv(a, b, now)
    ensures Equiv(Purge(a, k), Purge(b, k), now)
  {
    PurgeCanon(a, k, now);
    PurgeCanon(b, k, now);
  }

  lemma {:induction false} DeadlineEquiv(a: Store, b: Store, k: Key, t: int, now: int)
    requires Equiv(a, b, now) && LiveKey(a, k, now) && LiveKey(b, k, now)
    ensures Equiv(SetExpire(a, k, t), SetExpire(b, k, t), now)
    ensures Equiv(RemoveExpire(a, k), RemoveExpire(b, k), now)
  {
    SetExpireCanon(a, k, t, now);
    SetExpireCanon(b, k, t, now);
    RemoveExpireCanon(a, k, now);
    RemoveExpireCanon(b, k, now);
  }

  // ---- background sweeps ----------------------------------------------------------------

  /** Deletes the victims whose deadline has passed. */
  function SweepStep(st: Store, now: int, victims: set<Key>): Store {
    var dead := set k | k in victims && Expired(st, k, now);
    Store(st.vals - dead, st.dl - dead)
  }

  /** No client can notice a sweep. */
  lemma {:induction false} SweepEquiv(st: Store, now: int, victims: set<Key>)
    ensures Equiv(SweepStep(st, now, victims), st, now)
  {
    var a, b := Canon(SweepStep(st, now, victims), now), Canon(st, now);
    assert a.vals == b.vals;
    assert a.dl == b.dl;
  }

  ghost predicate AllExpired(st: Store, victims: set<Key>, now: int) {
    forall k | k in victims :: Expired(st, k, now)
  }

  /** Sweeping expired keys removes one stored key per victim. */
  lemma {:induction false} SweepCount(st: Store, now: int, victims: set<Key>)
    requires Sound(st) && AllExpired(st, victims, now)
    ensures |SweepStep(st, now, victims).vals| == |st.vals| - |victims| && Sound(SweepStep(st, now, victims))
  {
    var dead := set k | k in victims && Expired(st, k, now);
    assert dead == victims;
    assert (st.vals - dead).Keys == st.vals.Keys - victims;
    assert |st.vals.Keys - victims| == |st.vals.Keys| - |victims|;
  }

  lemma {:induction false} SweepTwice(st: Store, now: int, a: set<Key>, b: set<Key>)
    requires AllExpired(st, a, now) && AllExpired(SweepStep(st, now, a), b, now)
    ensures SweepStep(SweepStep(st, now, a), now, b) == SweepStep(st, now, a + b)
    ensures AllExpired(st, a + b, now) && |a + b| == |a| + |b|
  {
    assert (set k | k in a && Expired(st, k, now)) == a;
    assert (set k | k in b && Expired(SweepStep(st, now, a), k, now)) == b;
    assert (set k | k in a + b && Expired(st, k, now)) == a + b;
    assert a !! b;
    var x, y := SweepStep(SweepStep(st, now, a), now, b), SweepStep(st, now, a + b);
    assert x.vals == y.vals;
    assert x.dl == y.dl;
  }

  lemma {:induction false} SweepNext(st: Store, now: int, gone: set<Key>, k: Key)
    requires AllExpired(st, gone, now) && Expired(st, k, now) && k !in gone
    ensures Purge(SweepStep(st, now, gone), k) == SweepStep(st, now, gone + {k})
    ensures AllExpired(st, gone + {k}, now) && |gone + {k}| == |gone| + 1
  {
    assert (set x | x in gone && Expired(st, x, now)) == gone;
    assert (set x | x in gone + {k} && Expired(st, x, now)) == gone + {k};
    var x, y := Purge(SweepStep(st, now, gone), k), SweepStep(st, now, gone + {k});
    assert x.vals == y.vals;
    assert x.dl == y.dl;
  }

  lemma {:induction false} SweepNone(st: Store, now: int)
    ensures SweepStep(st, now, {}) == st && AllExpired(st, {}, now)
  {
    assert (set x | x in {} && Expired(st, x, now)) == {};
  }
}
