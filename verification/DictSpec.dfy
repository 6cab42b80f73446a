/**
 The dictionary as a state machine on values: two tables and the migration cursor.
 Each operation below is what the class `Dict` computes on its arrays (see `Dict.dfy`);
 what the operations mean is proved in `DictMap.dfy`, how long a migration takes and how full
 the tables get in `DictRehash.dfy`.
 */
module DictSpec {
  import opened Common
  import opened Pow2
  import opened DictTable
  import opened LoadFactor

  /** `ht_[0]`, `ht_[1]` and `rehashidx_`. */
  datatype DictState<V> = DictState(t0: Table<V>, t1: Table<V>, idx: int) {
    predicate Rehashing() { idx >= 0 }

    function Used(): int { t0.used + t1.used }
  }

  function Fresh<V>(): DictState<V> {
    DictState(Allocate(4), NullTable(), -1)
  }

  // ---- invariants -----------------------------------------------------------------------

  /** What the operations need to stay within the bucket arrays. */
  ghost predicate Shape<V>(st: DictState<V>) {
    && st.t0.used == Total(st.t0.buckets)
    && st.t1.used == Total(st.t1.buckets)
    && (st.Rehashing() ==>
          && |st.t1.buckets| > 0
          && st.idx <= |st.t0.buckets|
          && forall i | 0 <= i < st.idx :: st.t0.buckets[i] == [])
    && (!st.Rehashing() ==> st.idx == -1 && st.t1 == NullTable())
  }

  ghost predicate Disjoint<V>(H: HashFn, st: DictState<V>) {
    forall k :: Get(H, st.t0, k).None? || Get(H, st.t1, k).None?
  }

  /** The invariant that also holds between the steps of a migration. */
  ghost predicate Mid<V>(H: HashFn, st: DictState<V>) {
    && Shape(st)
    && TableOk(H, st.t0)
    && (st.Rehashing() ==> TableOk(H, st.t1) && Disjoint(H, st))
  }

  /** The invariant at operation boundaries: the cursor also points at a bucket. */
  ghost predicate Ok<V>(H: HashFn, st: DictState<V>) {
    && Mid(H, st)
    && (st.Rehashing() ==> st.idx < |st.t0.buckets|)
  }

  /** The first table still holds an entry, at or after the cursor. */
  lemma {:induction false} CursorInside<V>(st: DictState<V>)
    requires Shape(st) && st.Rehashing() && st.t0.used > 0
    ensures st.idx < |st.t0.buckets|
    ensures exists j | st.idx <= j < |st.t0.buckets| :: st.t0.buckets[j] != []
  {
    TotalZero(st.t0.buckets);
  }

  // ---- migration ------------------------------------------------------------------------

  /** Moves the first entry of the cursor's bucket in front of its chain in the second table. */
  function MoveHead<V>(st: DictState<V>): DictState<V>
    requires 0 <= st.idx < |st.t0.buckets| && st.t0.buckets[st.idx] != [] && |st.t1.buckets| > 0
  {
    st.(t0 := DropHead(st.t0, st.idx), t1 := Prepend(st.t1, st.t0.buckets[st.idx][0]))
  }

  function MigrateBucket<V>(st: DictState<V>): (r: DictState<V>)
    requires 0 <= st.idx < |st.t0.buckets| && |st.t1.buckets| > 0
    decreases |st.t0.buckets[st.idx]|
  {
    if st.t0.buckets[st.idx] == [] then st.(idx := st.idx + 1)
    else MigrateBucket(MoveHead(st))
  }

  /** Skips empty buckets; `left` is what remains of the skip budget, 0 when it ran out. */
  function SkipEmpty<V>(st: DictState<V>, limit: int): (r: (DictState<V>, int))
    requires Shape(st) && st.Rehashing() && st.t0.used > 0
    ensures Shape(r.0) && r.0.Rehashing() && r.0.t0 == st.t0 && r.0.t1 == st.t1
    ensures st.idx <= r.0.idx < |st.t0.buckets|
    ensures limit > 0 ==> 0 <= r.1 == limit - (r.0.idx - st.idx)
    ensures r.1 != 0 ==> st.t0.buckets[r.0.idx] != []
    decreases |st.t0.buckets| - st.idx
  {
    CursorInside(st);
    if st.t0.buckets[st.idx] != [] then (st, limit)
    else
      var next := st.(idx := st.idx + 1);
      assert Shape(next);
      CursorInside(next);
      if limit - 1 == 0 then (next, 0) else SkipEmpty(next, limit - 1)
  }

  /** One empty bucket is skipped. */
  lemma {:induction false} SkipOne<V>(st: DictState<V>, limit: int)
    requires Shape(st) && st.Rehashing() && st.t0.used > 0 && st.idx < |st.t0.buckets| && st.t0.buckets[st.idx] == []
    ensures var next := DictState(st.t0, st.t1, st.idx + 1);
            && Shape(next) && next.idx < |st.t0.buckets|
            && SkipEmpty(st, limit) == if limit == 1 then (next, 0) else SkipEmpty(next, limit - 1)
  {
    CursorInside(st);
    var next := DictState(st.t0, st.t1, st.idx + 1);
    assert st.(idx := st.idx + 1) == next;
    assert Shape(next);
    CursorInside(next);
  }

  function RehashLoop<V>(st: DictState<V>, steps: int, limit: int): (r: (DictState<V>, bool))
    requires Shape(st) && st.Rehashing() && (steps > 0 ==> limit > 0)
    decreases steps
  {
    if steps <= 0 || st.t0.used <= 0 then (st, false)
    else
      var (s, left) := SkipEmpty(st, limit);
      if left == 0 then (s, true)
      else
        ShapeMigrate(s);
        RehashLoop(MigrateBucket(s), steps - 1, left)
  }

  /** The first table becomes the second one. */
  function Finish<V>(st: DictState<V>): DictState<V> {
    DictState(st.t1, NullTable(), -1)
  }

  /** `rehash_step`: migrates up to `steps` buckets; the flag says that no migration is left. */
  function RehashStep<V>(st: DictState<V>, steps: int): (r: (DictState<V>, bool))
    requires Shape(st)
  {
    if !st.Rehashing() then (st, true)
    else
      var (s, early) := RehashLoop(st, steps, steps * 10);
      if early then (s, false)
      else if s.t0.used == 0 then (Finish(s), true)
      else (s, false)
  }

  lemma {:induction false} ShapeMigrate<V>(st: DictState<V>)
    requires Shape(st) && 0 <= st.idx < |st.t0.buckets|
    ensures Shape(MigrateBucket(st)) && MigrateBucket(st).idx == st.idx + 1
    ensures |MigrateBucket(st).t0.buckets| == |st.t0.buckets| && |MigrateBucket(st).t1.buckets| == |st.t1.buckets|
    ensures MigrateBucket(st).t0.used == st.t0.used - |st.t0.buckets[st.idx]|
    ensures MigrateBucket(st).Used() == st.Used()
    decreases |st.t0.buckets[st.idx]|
  {
    var c := st.t0.buckets[st.idx];
    if c != [] {
      var s1 := Slot(c[0].hash, |st.t1.buckets|);
      TotalUpdate(st.t0.buckets, st.idx, c[1..]);
      TotalUpdate(st.t1.buckets, s1, [c[0]] + st.t1.buckets[s1]);
      ShapeMigrate(MoveHead(st));
    }
  }

  // ---- resizing decisions ---------------------------------------------------------------

  /** Load above 1, in single precision: start moving to `bit_ceil(2 * used)` buckets. */
  function MaybeExpand<V>(st: DictState<V>): DictState<V> {
    if st.Rehashing() || |st.t0.buckets| == 0 || !FloatExpands(st.t0.used, |st.t0.buckets|) then st
    else st.(t1 := Allocate(BitCeil(st.t0.used * 2)), idx := 0)
  }

  /** Load below one tenth, in single precision: start moving to `bit_ceil(max(4, used))` buckets. */
  function MaybeShrink<V>(st: DictState<V>): DictState<V> {
    if st.Rehashing() || |st.t0.buckets| <= 4 || !FloatShrinks(st.t0.used, |st.t0.buckets|) then st
    else st.(t1 := Allocate(BitCeil(if st.t0.used < 4 then 4 else st.t0.used)), idx := 0)
  }

  // ---- operations -----------------------------------------------------------------------

  /** The migration step with which `set`, `get` and `del` begin. */
  function Tick<V>(st: DictState<V>): DictState<V>
    requires Shape(st)
  {
    if st.Rehashing() then RehashStep(st, 1).0 else st
  }

  /** The const `get`: first table, then, during a migration, the second. */
  function Lookup<V>(H: HashFn, st: DictState<V>, k: Key): Option<V> {
    match Get(H, st.t0, k)
    case Some(v) => Some(v)
    case None => if st.Rehashing() then Get(H, st.t1, k) else None
  }

  /** `set` after its migration step; the flag says that the key is new. */
  function Store<V>(H: HashFn, st: DictState<V>, k: Key, v: V): (DictState<V>, bool)
    requires |st.t0.buckets| > 0 && (st.Rehashing() ==> |st.t1.buckets| > 0)
  {
    var h := H(k);
    if st.Rehashing() then
      if Locate(st.t0, k, h).Some? then (st.(t0 := Overwrite(st.t0, k, h, v)), false)
      else if Locate(st.t1, k, h).Some? then (st.(t1 := Overwrite(st.t1, k, h, v)), false)
      else (st.(t1 := Prepend(st.t1, Entry(k, v, h))), true)
    else if Locate(st.t0, k, h).Some? then (st.(t0 := Overwrite(st.t0, k, h, v)), false)
    else (MaybeExpand(st.(t0 := Prepend(st.t0, Entry(k, v, h)))), true)
  }

  /** `del` after its migration step; the flag says that the key was there. */
  function Erase<V>(H: HashFn, st: DictState<V>, k: Key): (DictState<V>, bool) {
    var h := H(k);
    if Locate(st.t0, k, h).Some? then (MaybeShrink(st.(t0 := Unlink(st.t0, k, h))), true)
    else if st.Rehashing() && Locate(st.t1, k, h).Some? then (MaybeShrink(st.(t1 := Unlink(st.t1, k, h))), true)
    else (st, false)
  }

  /** Writing through the pointer that a lookup returned. */
  function Poke<V>(H: HashFn, st: DictState<V>, k: Key, v: V): DictState<V> {
    var h := H(k);
    if Locate(st.t0, k, h).Some? then st.(t0 := Overwrite(st.t0, k, h, v))
    else if st.Rehashing() && Locate(st.t1, k, h).Some? then st.(t1 := Overwrite(st.t1, k, h, v))
    else st
  }

  datatype Op<V> = Set(key: Key, value: V) | Read(key: Key) | Del(key: Key) | Rehash(steps: int) | Clear

  datatype Out<V> = Flag(b: bool) | Found(r: Option<V>) | Done

  /** One operation of the dictionary and what it returns. */
  function Step<V>(H: HashFn, st: DictState<V>, op: Op<V>): (DictState<V>, Out<V>)
    requires Ok(H, st)
  {
    match op
    case Rehash(n) => (RehashStep(st, n).0, Done)
    case Clear => (Fresh(), Done)
    case Read(k) => (Tick(st), Found(Lookup(H, Tick(st), k)))
    case Set(k, v) => TickReady(H, st); var (s, b) := Store(H, Tick(st), k, v); (s, Flag(b))
    case Del(k) => var (s, b) := Erase(H, Tick(st), k); (s, Flag(b))
  }

  /** After the migration step there is a table to insert into. */
  lemma {:induction false} TickReady<V>(H: HashFn, st: DictState<V>)
    requires Ok(H, st)
    ensures |Tick(st).t0.buckets| > 0 && (Tick(st).Rehashing() ==> |Tick(st).t1.buckets| > 0)
  {
    if st.Rehashing() { LoopSizes(st, 1, 10); }
  }

  lemma {:induction false} LoopSizes<V>(st: DictState<V>, steps: int, limit: int)
    requires Shape(st) && st.Rehashing() && (steps > 0 ==> limit > 0)
    ensures var r := RehashLoop(st, steps, limit).0;
            && Shape(r) && r.Rehashing() && r.Used() == st.Used()
            && |r.t0.buckets| == |st.t0.buckets| && |r.t1.buckets| == |st.t1.buckets|
    decreases steps
  {
    if steps > 0 && st.t0.used > 0 {
      var (s, left) := SkipEmpty(st, limit);
      if left != 0 {
        ShapeMigrate(s);
        LoopSizes(MigrateBucket(s), steps - 1, left);
      }
    }
  }
}
