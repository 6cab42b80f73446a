/**
 Whatever the state of a migration, the two tables together are one map.
 `StepRefines` is the step, `RunRefines` the statement over every run from a fresh dictionary.
 */
module DictMap {
  import opened Common
  import opened Pow2
  import opened DictTable
  import opened DictSpec

  // ---- the abstract map -----------------------------------------------------------------

  function TableKeys<V>(t: Table<V>): set<Key> {
    set i, j | 0 <= i < |t.buckets| && 0 <= j < |t.buckets[i]| :: t.buckets[i][j].key
  }

  function Keys<V>(st: DictState<V>): set<Key> {
    TableKeys(st.t0) + TableKeys(st.t1)
  }

  /** The map a dictionary state stands for. */
  ghost function Contents<V>(H: HashFn, st: DictState<V>): (m: map<Key, V>)
  {
    map k | k in Keys(st) && Lookup(H, st, k).Some? :: Lookup(H, st, k).value
  }

  lemma {:induction false} TableKeysAreFound<V>(H: HashFn, t: Table<V>, k: Key)
    requires TableOk(H, t)
    ensures k in TableKeys(t) <==> Get(H, t, k).Some?
  {
    var s := Slot(H(k), |t.buckets|);
    GetIsChainGet(H, t, k);
    ChainGetAbsent(t.buckets[s], k);
    forall i, j | 0 <= i < |t.buckets| && 0 <= j < |t.buckets[i]| && t.buckets[i][j].key == k
      ensures i == s
    {
      assert ChainOk(H, t.buckets[i], i, |t.buckets|);
    }
  }

  /** `Contents` says exactly what `Lookup` says. */
  lemma {:induction false} ContentsIsLookup<V>(H: HashFn, st: DictState<V>, k: Key)
    requires Mid(H, st)
    ensures Lookup(H, st, k) == if k in Contents(H, st) then Some(Contents(H, st)[k]) else None
  {
    TableKeysAreFound(H, st.t0, k);
    if st.Rehashing() { TableKeysAreFound(H, st.t1, k); }
  }

  lemma {:induction false} ContentsFromLookup<V>(H: HashFn, st: DictState<V>, m: map<Key, V>)
    requires Mid(H, st)
    requires forall k :: Lookup(H, st, k) == if k in m then Some(m[k]) else None
    ensures Contents(H, st) == m
  {
    forall k ensures k in m <==> k in Contents(H, st) {
      ContentsIsLookup(H, st, k);
    }
  }

  ghost predicate SameLookups<V>(H: HashFn, a: DictState<V>, b: DictState<V>) {
    forall k :: Lookup(H, a, k) == Lookup(H, b, k)
  }

  lemma {:induction false} SameContents<V>(H: HashFn, a: DictState<V>, b: DictState<V>)
    requires Mid(H, a) && Mid(H, b) && SameLookups(H, a, b)
    ensures Contents(H, a) == Contents(H, b)
  {
    forall k ensures Lookup(H, b, k) == if k in Contents(H, a) then Some(Contents(H, a)[k]) else None {
      ContentsIsLookup(H, a, k);
    }
    ContentsFromLookup(H, b, Contents(H, a));
  }

  // ---- migration keeps the map ----------------------------------------------------------

  lemma {:induction false} MoveHeadOk<V>(H: HashFn, st: DictState<V>)
    requires Mid(H, st) && 0 <= st.idx < |st.t0.buckets| && st.t0.buckets[st.idx] != []
    ensures Mid(H, MoveHead(st)) && SameLookups(H, MoveHead(st), st)
  {
    var e := st.t0.buckets[st.idx][0];
    assert ChainOk(H, st.t0.buckets[st.idx], st.idx, |st.t0.buckets|);
    DropHeadOk(H, st.t0, st.idx);
    assert Get(H, st.t0, e.key).Some?;
    PrependOk(H, st.t1, e);
  }

  lemma {:induction false} MigrateBucketOk<V>(H: HashFn, st: DictState<V>)
    requires Mid(H, st) && 0 <= st.idx < |st.t0.buckets|
    ensures Mid(H, MigrateBucket(st)) && SameLookups(H, MigrateBucket(st), st)
    decreases |st.t0.buckets[st.idx]|
  {
    if st.t0.buckets[st.idx] != [] {
      MoveHeadOk(H, st);
      MigrateBucketOk(H, MoveHead(st));
    }
  }

  lemma {:induction false} RehashLoopOk<V>(H: HashFn, st: DictState<V>, steps: int, limit: int)
    requires Mid(H, st) && st.Rehashing() && (steps > 0 ==> limit > 0)
    ensures var (r, early) := RehashLoop(st, steps, limit);
            Mid(H, r) && r.Rehashing() && SameLookups(H, r, st) && (early ==> r.idx < |r.t0.buckets|)
    decreases steps
  {
    if steps > 0 && st.t0.used > 0 {
      var (s, left) := SkipEmpty(st, limit);
      assert SameLookups(H, s, st);
      if left != 0 {
        ShapeMigrate(s);
        MigrateBucketOk(H, s);
        RehashLoopOk(H, MigrateBucket(s), steps - 1, left);
      }
    }
  }

  lemma {:induction false} RehashStepOk<V>(H: HashFn, st: DictState<V>, steps: int)
    requires Ok(H, st)
    ensures Ok(H, RehashStep(st, steps).0) && SameLookups(H, RehashStep(st, steps).0, st)
    ensures RehashStep(st, steps).1 <==> !RehashStep(st, steps).0.Rehashing()
  {
    if st.Rehashing() {
      RehashLoopOk(H, st, steps, steps * 10);
      var (s, early) := RehashLoop(st, steps, steps * 10);
      TotalZero(s.t0.buckets);
      if !early && s.t0.used != 0 { CursorInside(s); }
    }
  }

  lemma {:induction false} TickOk<V>(H: HashFn, st: DictState<V>)
    requires Ok(H, st)
    ensures Ok(H, Tick(st)) && SameLookups(H, Tick(st), st)
  {
    RehashStepOk(H, st, 1);
  }

  // ---- operations -----------------------------------------------------------------------

  lemma {:induction false} MaybeExpandOk<V>(H: HashFn, st: DictState<V>)
    requires Ok(H, st)
    ensures Ok(H, MaybeExpand(st)) && SameLookups(H, MaybeExpand(st), st)
  {
    if MaybeExpand(st) != st {
      EmptyTable<V>(H, BitCeil(st.t0.used * 2));
      assert TableOk(H, MaybeExpand(st).t1);
    }
  }

  lemma {:induction false} MaybeShrinkOk<V>(H: HashFn, st: DictState<V>)
    requires Ok(H, st)
    ensures Ok(H, MaybeShrink(st)) && SameLookups(H, MaybeShrink(st), st)
  {
    if MaybeShrink(st) != st {
      EmptyTable<V>(H, BitCeil(if st.t0.used < 4 then 4 else st.t0.used));
      assert TableOk(H, MaybeShrink(st).t1);
    }
  }

  lemma {:induction false} StoreOk<V>(H: HashFn, st: DictState<V>, x: Key, v: V)
    requires Ok(H, st)
    ensures var (s, isNew) := Store(H, st, x, v);
            && Ok(H, s)
            && (forall k :: Lookup(H, s, k) == if k == x then Some(v) else Lookup(H, st, k))
            && isNew == Lookup(H, st, x).None?
  {
    if Locate(st.t0, x, H(x)).Some? {
      OverwriteKeepsEmpty(st.t0, x, H(x), v, st.idx);
      OverwriteOk(H, st.t0, x, v);
    } else if st.Rehashing() && Locate(st.t1, x, H(x)).Some? {
      OverwriteOk(H, st.t1, x, v);
    } else if st.Rehashing() {
      PrependOk(H, st.t1, Entry(x, v, H(x)));
    } else {
      PrependOk(H, st.t0, Entry(x, v, H(x)));
      MaybeExpandOk(H, st.(t0 := Prepend(st.t0, Entry(x, v, H(x)))));
    }
  }

  lemma {:induction false} OverwriteKeepsEmpty<V>(t: Table<V>, k: Key, h: u64, v: V, n: int)
    requires Locate(t, k, h).Some? && n <= |t.buckets|
    requires forall i | 0 <= i < n :: t.buckets[i] == []
    ensures forall i | 0 <= i < n :: Overwrite(t, k, h, v).buckets[i] == []
    ensures forall i | 0 <= i < n :: Unlink(t, k, h).buckets[i] == []
  {
  }

  lemma {:induction false} EraseOk<V>(H: HashFn, st: DictState<V>, x: Key)
    requires Ok(H, st)
    ensures var (s, found) := Erase(H, st, x);
            && Ok(H, s)
            && (forall k :: Lookup(H, s, k) == if k == x then None else Lookup(H, st, k))
            && found == Lookup(H, st, x).Some?
  {
    if Locate(st.t0, x, H(x)).Some? {
      var v := st.t0.buckets[Slot(H(x), |st.t0.buckets|)][Locate(st.t0, x, H(x)).value].value;
      OverwriteKeepsEmpty(st.t0, x, H(x), v, st.idx);
      UnlinkOk(H, st.t0, x);
      assert Get(H, st.t0, x).Some?;
      MaybeShrinkOk(H, st.(t0 := Unlink(st.t0, x, H(x))));
    } else if st.Rehashing() && Locate(st.t1, x, H(x)).Some? {
      UnlinkOk(H, st.t1, x);
    }
  }

  /** Writing through a returned pointer updates that key and nothing else. */
  lemma {:induction false} PokeOk<V>(H: HashFn, st: DictState<V>, x: Key, v: V)
    requires Ok(H, st)
    ensures var s := Poke(H, st, x, v);
            && Ok(H, s)
            && (forall k :: Lookup(H, s, k) == if k == x && Lookup(H, st, x).Some? then Some(v) else Lookup(H, st, k))
  {
    if Locate(st.t0, x, H(x)).Some? {
      OverwriteKeepsEmpty(st.t0, x, H(x), v, st.idx);
      OverwriteOk(H, st.t0, x, v);
    } else if st.Rehashing() && Locate(st.t1, x, H(x)).Some? {
      OverwriteOk(H, st.t1, x, v);
    }
  }

  lemma {:induction false} ContentsLookups<V>(H: HashFn, st: DictState<V>)
    requires Ok(H, st)
    ensures forall k :: Lookup(H, st, k) == if k in Contents(H, st) then Some(Contents(H, st)[k]) else None
  {
    forall k ensures Lookup(H, st, k) == if k in Contents(H, st) then Some(Contents(H, st)[k]) else None {
      ContentsIsLookup(H, st, k);
    }
  }

  lemma {:induction false} PokeContents<V>(H: HashFn, st: DictState<V>, x: Key, v: V)
    requires Ok(H, st)
    ensures Ok(H, Poke(H, st, x, v))
    ensures Contents(H, Poke(H, st, x, v)) == if x in Contents(H, st) then Contents(H, st)[x := v] else Contents(H, st)
  {
    hide Poke, Lookup, Contents;
    var m := Contents(H, st);
    PokeOk(H, st, x, v);
    ContentsLookups(H, st);
    ContentsFromLookup(H, Poke(H, st, x, v), if x in m then m[x := v] else m);
  }

  lemma {:induction false} FreshOk<V>(H: HashFn)
    ensures Ok(H, Fresh<V>()) && Contents(H, Fresh<V>()) == map[]
  {
    assert 4 / 2 == 2 && 2 / 2 == 1;
    assert IsPow2(4);
    EmptyTable<V>(H, 4);
    ContentsFromLookup(H, Fresh<V>(), map[]);
  }

  // ---- the simple form: one map ---------------------------------------------------------

  function AbsStep<V>(m: map<Key, V>, op: Op<V>): (map<Key, V>, Out<V>) {
    match op
    case Rehash(_) => (m, Done)
    case Clear => (map[], Done)
    case Read(k) => (m, Found(if k in m then Some(m[k]) else None))
    case Set(k, v) => (m[k := v], Flag(k !in m))
    case Del(k) => (m - {k}, Flag(k in m))
  }

  lemma {:induction false} StoreRefines<V>(H: HashFn, st: DictState<V>, x: Key, v: V)
    requires Ok(H, st)
    ensures var (s, isNew) := Store(H, st, x, v);
            Ok(H, s) && Contents(H, s) == Contents(H, st)[x := v] && isNew == (x !in Contents(H, st))
  {
    hide Store, Lookup, Contents;
    StoreOk(H, st, x, v);
    ContentsLookups(H, st);
    ContentsFromLookup(H, Store(H, st, x, v).0, Contents(H, st)[x := v]);
  }

  lemma {:induction false} EraseRefines<V>(H: HashFn, st: DictState<V>, x: Key)
    requires Ok(H, st)
    ensures var (s, found) := Erase(H, st, x);
            Ok(H, s) && Contents(H, s) == Contents(H, st) - {x} && found == (x in Contents(H, st))
  {
    hide Erase, Lookup, Contents;
    EraseOk(H, st, x);
    ContentsLookups(H, st);
    ContentsFromLookup(H, Erase(H, st, x).0, Contents(H, st) - {x});
  }

  lemma {:induction false} TickRefines<V>(H: HashFn, st: DictState<V>)
    requires Ok(H, st)
    ensures Ok(H, Tick(st)) && Contents(H, Tick(st)) == Contents(H, st)
  {
    TickOk(H, st);
    SameContents(H, st, Tick(st));
  }

  /** Each operation keeps the invariant and does to the map, and returns, what the map says. */
  lemma {:induction false} StepRefines<V>(H: HashFn, st: DictState<V>, op: Op<V>)
    requires Ok(H, st)
    ensures var (s, out) := Step(H, st, op);
            Ok(H, s) && (Contents(H, s), out) == AbsStep(Contents(H, st), op)
  {
    TickRefines(H, st);
    match op
    case Rehash(n) => RehashStepOk(H, st, n); SameContents(H, st, RehashStep(st, n).0);
    case Clear => FreshOk<V>(H);
    case Read(k) => ContentsIsLookup(H, Tick(st), k);
    case Set(x, v) => StoreRefines(H, Tick(st), x, v);
    case Del(x) => EraseRefines(H, Tick(st), x);
  }

  // ---- runs -----------------------------------------------------------------------------

  ghost function Run<V>(H: HashFn, st: DictState<V>, ops: seq<Op<V>>): (r: (DictState<V>, seq<Out<V>>))
    requires Ok(H, st)
    ensures Ok(H, r.0)
    decreases |ops|
  {
    if ops == [] then (st, [])
    else
      StepRefines(H, st, ops[0]);
      var (s, out) := Step(H, st, ops[0]);
      var (t, outs) := Run(H, s, ops[1..]);
      (t, [out] + outs)
  }

  function AbsRun<V>(m: map<Key, V>, ops: seq<Op<V>>): (map<Key, V>, seq<Out<V>>)
    decreases |ops|
  {
    if ops == [] then (m, [])
    else
      var (m1, out) := AbsStep(m, ops[0]);
      var (m2, outs) := AbsRun(m1, ops[1..]);
      (m2, [out] + outs)
  }

  /** In every run, for every hash function, the dictionary answers like the map. */
  lemma {:induction false} RunRefines<V>(H: HashFn, st: DictState<V>, ops: seq<Op<V>>)
    requires Ok(H, st)
    ensures (Contents(H, Run(H, st, ops).0), Run(H, st, ops).1) == AbsRun(Contents(H, st), ops)
    decreases |ops|
  {
    if ops != [] {
      StepRefines(H, st, ops[0]);
      RunRefines(H, Step(H, st, ops[0]).0, ops[1..]);
    }
  }

  /** The statement for a dictionary that starts empty. */
  lemma {:induction false} FreshRunRefines<V>(H: HashFn, ops: seq<Op<V>>)
    ensures Ok(H, Fresh<V>())
    ensures (Contents(H, Run(H, Fresh<V>(), ops).0), Run(H, Fresh<V>(), ops).1) == AbsRun(map[], ops)
  {
    FreshOk<V>(H);
    RunRefines(H, Fresh(), ops);
  }
}
