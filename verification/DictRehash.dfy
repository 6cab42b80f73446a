/**
 How long a migration lasts and how full the tables get, whatever operations interleave.
 `MigrationEnds` bounds the number of operations, `RunKeepsRoom` and `NoShrinkKeepsLoad` the load.
 */
module DictRehash {
  import opened Common
  import opened Pow2
  import opened DictTable
  import opened LoadFactor
  import opened DictSpec
  import opened DictMap

  // ---- one migration call ---------------------------------------------------------------

  lemma {:induction false} LoopCost<V>(st: DictState<V>, steps: int, limit: int)
    requires Shape(st) && st.Rehashing() && steps > 0 && limit > 0
    ensures var (r, early) := RehashLoop(st, steps, limit);
            && st.idx <= r.idx <= |st.t0.buckets| && r.t0.used <= st.t0.used
            && (early ==> r.idx >= st.idx + limit)
            && (st.t0.used > 0 ==> r.idx > st.idx)
            && (st.t0.used > 0 && !early ==> r.t0.used < st.t0.used)
    decreases steps
  {
    if st.t0.used > 0 {
      var (s, left) := SkipEmpty(st, limit);
      if left != 0 {
        ShapeMigrate(s);
        var m := MigrateBucket(s);
        if steps > 1 { LoopCost(m, steps - 1, left); }
      }
    }
  }

  /** Entries and empty stretches still ahead of the cursor. */
  function Left<V>(st: DictState<V>): int {
    st.t0.used + (|st.t0.buckets| - 1 - st.idx) / 10 + 1
  }

  /** Buckets still ahead of the cursor. */
  function BucketsLeft<V>(st: DictState<V>): int {
    |st.t0.buckets| - st.idx
  }

  /** A call of `rehash_step` finishes the migration or makes both measures smaller. */
  lemma {:induction false} StepCost<V>(H: HashFn, st: DictState<V>, steps: int)
    requires Ok(H, st) && st.Rehashing() && steps > 0
    ensures var r := RehashStep(st, steps).0;
            r.Rehashing() ==>
              && Left(r) < Left(st) && BucketsLeft(r) < BucketsLeft(st)
              && r.idx > st.idx && r.Used() == st.Used()
              && |r.t0.buckets| == |st.t0.buckets| && |r.t1.buckets| == |st.t1.buckets|
    ensures var r := RehashStep(st, steps).0;
            !r.Rehashing() ==> r.t0.used == st.Used() && |r.t0.buckets| == |st.t1.buckets|
  {
    LoopCost(st, steps, steps * 10);
    LoopSizes(st, steps, steps * 10);
    RehashStepOk(H, st, steps);
  }

  lemma {:induction false} LoopBound<V>(st: DictState<V>, steps: int, limit: int)
    requires Shape(st) && st.Rehashing() && steps > 0 && limit > 0
    ensures RehashLoop(st, steps, limit).0.idx <= st.idx + steps + limit
    decreases steps
  {
    if st.t0.used > 0 {
      var (s, left) := SkipEmpty(st, limit);
      if left != 0 {
        ShapeMigrate(s);
        if steps > 1 { LoopBound(MigrateBucket(s), steps - 1, left); }
      }
    }
  }

  /** The work of a call is bounded: at most `steps` buckets are emptied and ten times as many passed over. */
  lemma {:induction false} StepBound<V>(H: HashFn, st: DictState<V>, steps: int)
    requires Ok(H, st) && st.Rehashing() && steps > 0
    ensures var r := RehashStep(st, steps).0; r.Rehashing() ==> r.idx <= st.idx + 11 * steps
  {
    LoopBound(st, steps, steps * 10);
  }

  /** No single `set`, `get` or `del` moves the cursor by more than eleven buckets. */
  lemma {:induction false} OpBound<V>(H: HashFn, st: DictState<V>, op: Op<V>)
    requires Ok(H, st) && st.Rehashing() && (op.Set? || op.Read? || op.Del?)
    ensures var r := Step(H, st, op).0; r.Rehashing() ==> r.idx <= st.idx + 11
  {
    StepBound(H, st, 1);
    RehashStepOk(H, st, 1);
    if Tick(st).Rehashing() {
      match op
      case Set(k, v) => CursorKept(H, Tick(st), k, v);
      case Del(k) => EraseCursorKept(H, Tick(st), k);
      case _ =>
    }
  }

  // ---- duration -------------------------------------------------------------------------

  /** Operations that drive a migration: every `set`, `get`, `del` and every call of `rehash_step`. */
  predicate Drives<V>(op: Op<V>) {
    op.Set? || op.Read? || op.Del? || (op.Rehash? && op.steps > 0)
  }

  /** The state right after the operation's migration step, before it touches its key. */
  function AfterTick<V>(st: DictState<V>, op: Op<V>): DictState<V>
    requires Shape(st)
  {
    if op.Rehash? then RehashStep(st, op.steps).0 else Tick(st)
  }

  predicate Completes<V>(st: DictState<V>, op: Op<V>)
    requires Shape(st)
  {
    !AfterTick(st, op).Rehashing()
  }

  /** Index of the first operation that completes the migration in progress. */
  ghost function DoneAt<V>(H: HashFn, st: DictState<V>, ops: seq<Op<V>>): Option<nat>
    requires Ok(H, st)
    decreases |ops|
  {
    if ops == [] then None
    else if Completes(st, ops[0]) then Some(0)
    else
      StepRefines(H, st, ops[0]);
      match DoneAt(H, Step(H, st, ops[0]).0, ops[1..])
      case None => None
      case Some(i) => Some(i + 1)
  }

  /** Insertions and deletions during a migration do not give the cursor more work. */
  lemma {:induction false} CursorKept<V>(H: HashFn, st: DictState<V>, k: Key, v: V)
    requires Ok(H, st) && st.Rehashing()
    ensures var s := Store(H, st, k, v).0;
            s.idx == st.idx && s.t0.used == st.t0.used && s.Used() <= st.Used() + 1
            && |s.t0.buckets| == |st.t0.buckets| && |s.t1.buckets| == |st.t1.buckets|
  {
  }

  lemma {:induction false} EraseCursorKept<V>(H: HashFn, st: DictState<V>, k: Key)
    requires Ok(H, st) && st.Rehashing()
    ensures var s := Erase(H, st, k).0;
            s.idx == st.idx && s.t0.used <= st.t0.used && s.Used() <= st.Used()
            && |s.t0.buckets| == |st.t0.buckets| && |s.t1.buckets| == |st.t1.buckets|
  {
  }

  lemma {:induction false} OpCost<V>(H: HashFn, st: DictState<V>, op: Op<V>)
    requires Ok(H, st) && st.Rehashing() && Drives(op) && !Completes(st, op)
    ensures var s := Step(H, st, op).0;
            s.Rehashing() && Left(s) < Left(st) && BucketsLeft(s) < BucketsLeft(st)
  {
    StepCost(H, st, if op.Rehash? then op.steps else 1);
    match op
    case Set(k, v) => TickOk(H, st); CursorKept(H, Tick(st), k, v);
    case Del(k) => TickOk(H, st); EraseCursorKept(H, Tick(st), k);
    case _ =>
  }

  /** A migration ends within `Left` and within `BucketsLeft` driving operations of any kind. */
  lemma {:induction false} MigrationEnds<V>(H: HashFn, st: DictState<V>, ops: seq<Op<V>>)
    requires Ok(H, st) && st.Rehashing()
    requires forall i | 0 <= i < |ops| :: Drives(ops[i])
    requires |ops| >= Left(st) || |ops| >= BucketsLeft(st)
    ensures DoneAt(H, st, ops).Some?
    ensures DoneAt(H, st, ops).value < Left(st) && DoneAt(H, st, ops).value < BucketsLeft(st)
    decreases |ops|
  {
    assert Left(st) > 0 && BucketsLeft(st) > 0;
    if !Completes(st, ops[0]) {
      OpCost(H, st, ops[0]);
      StepRefines(H, st, ops[0]);
      MigrationEnds(H, Step(H, st, ops[0]).0, ops[1..]);
    }
  }

  /** The bound for a migration that has just begun with `u` entries in `n` buckets. */
  lemma {:induction false} NewMigrationEnds<V>(H: HashFn, st: DictState<V>, ops: seq<Op<V>>)
    requires Ok(H, st) && st.idx == 0
    requires forall i | 0 <= i < |ops| :: Drives(ops[i])
    requires |ops| >= |st.t0.buckets|
    ensures DoneAt(H, st, ops).Some?
    ensures var calls, u, n := DoneAt(H, st, ops).value + 1, st.t0.used, |st.t0.buckets|;
            calls <= u + n / 10 + 1 && calls <= n
  {
    MigrationEnds(H, st, ops);
  }

  // ---- load -----------------------------------------------------------------------------

  /** While a larger table is being filled, it has room for everything stored plus one insertion
      for each bucket still to be visited. */
  ghost predicate Room<V>(st: DictState<V>) {
    st.Rehashing() && |st.t1.buckets| > |st.t0.buckets| ==>
      st.Used() + (|st.t0.buckets| - st.idx) <= |st.t1.buckets|
  }

  /** The most entries that a table of this size holds without a migration: as many as it has buckets, and
      from 2^24 buckets on as many more as single precision does not tell apart. */
  function Capacity(size: nat): nat {
    size + size / MANTISSA
  }

  /** No table is overfull: during a migration there is room, otherwise the table is within its capacity. */
  ghost predicate Snug<V>(st: DictState<V>) {
    if st.Rehashing() then |st.t1.buckets| > |st.t0.buckets| && Room(st)
    else st.t0.used <= Capacity(|st.t0.buckets|)
  }

  lemma {:induction false} RoomMeansLoad<V>(H: HashFn, st: DictState<V>)
    requires Ok(H, st) && Room(st) && st.Rehashing() && |st.t1.buckets| > |st.t0.buckets|
    ensures st.t1.used < |st.t1.buckets|
  {
  }

  /** Outside migrations an insertion either keeps the load or starts an expansion with room. */
  lemma {:induction false} StoreLoad<V>(H: HashFn, st: DictState<V>, k: Key, v: V)
    requires Ok(H, st) && !st.Rehashing()
    ensures var s := Store(H, st, k, v).0;
            Room(s) && (st.t0.used <= Capacity(|st.t0.buckets|) ==> Snug(s))
  {
    hide FloatExpands;
    var s := Store(H, st, k, v).0;
    if st.t0.used >= 0 { ExpandTestIs(st.t0.used + 1, |st.t0.buckets|); }
    if s.Rehashing() {
      assert s.t0.used > |s.t0.buckets| && |s.t1.buckets| >= 2 * s.t0.used;
    }
  }

  /** More than four buckets, and less than a tenth of them used, up to rounding: in integers, for all sizes. */
  predicate Sparse(used: int, size: nat) {
    size > 4 && if size < 0x1000_0000 then used * 10 < size else 2 * used <= 26843545 * (size / 0x800_0000)
  }

  /** When a table outside of a migration expands and when it shrinks, in integers, for all sizes. */
  lemma {:induction false} DecisionsAre<V>(H: HashFn, st: DictState<V>)
    requires Ok(H, st) && !st.Rehashing()
    ensures var used, size := st.t0.used, |st.t0.buckets|;
            && (MaybeExpand(st) != st <==> used > Capacity(size))
            && (MaybeShrink(st) != st <==> Sparse(used, size))
  {
    hide FloatExpands, FloatShrinks;
    ExpandTestIs(st.t0.used, |st.t0.buckets|);
    ShrinkTestIs(st.t0.used, |st.t0.buckets|);
  }

  /** How large the new table is: a power of two with room for between two and four times the entries when it grows,
      for between the entries and twice as many when it shrinks, and never below four. */
  lemma {:induction false} NewSizes<V>(H: HashFn, st: DictState<V>)
    requires Ok(H, st) && !st.Rehashing()
    ensures MaybeExpand(st) != st ==>
              var n := |MaybeExpand(st).t1.buckets|; IsPow2(n) && 2 * st.t0.used <= n < 4 * st.t0.used
    ensures MaybeShrink(st) != st ==>
              var n := |MaybeShrink(st).t1.buckets|;
              && IsPow2(n) && st.t0.used <= n && 4 <= n
              && (n < 2 * st.t0.used || n < 8)
  {
    hide FloatExpands, FloatShrinks;
    if MaybeExpand(st) != st { ExpandTestIs(st.t0.used, |st.t0.buckets|); }
  }

  lemma {:induction false} ShrinkIsSmaller<V>(st: DictState<V>)
    requires !st.Rehashing() && IsPow2(|st.t0.buckets|) && st.t0.used >= 0
    ensures MaybeShrink(st) != st ==> |MaybeShrink(st).t1.buckets| < |st.t0.buckets|
  {
    hide FloatShrinks;
    if MaybeShrink(st) != st {
      ShrinkMeansSparse(st.t0.used, |st.t0.buckets|);
      if st.t0.used < 4 {
        assert IsPow2(4);
        BitCeilIsLeast(4, 4);
      }
    }
  }

  /** A migration step that does not finish leaves room for one more insertion;
      one that finishes an expansion leaves no more entries than buckets. */
  lemma {:induction false} TickLoad<V>(H: HashFn, st: DictState<V>, steps: int)
    requires Ok(H, st) && Room(st) && st.Rehashing() && steps > 0
    ensures var s := RehashStep(st, steps).0;
            && (s.Rehashing() && |s.t1.buckets| > |s.t0.buckets| ==>
                  s.Used() + 1 + (|s.t0.buckets| - s.idx) <= |s.t1.buckets|)
            && (|st.t1.buckets| > |st.t0.buckets| ==>
                  if s.Rehashing() then |s.t1.buckets| > |s.t0.buckets| else s.t0.used <= |s.t0.buckets|)
  {
    StepCost(H, st, steps);
  }

  lemma {:induction false} SetKeepsRoom<V>(H: HashFn, st: DictState<V>, k: Key, v: V)
    requires Ok(H, st) && Room(st)
    ensures Room(Step(H, st, Set(k, v)).0)
    ensures Snug(st) ==> Snug(Step(H, st, Set(k, v)).0)
  {
    TickOk(H, st);
    if st.Rehashing() { TickLoad(H, st, 1); }
    if Tick(st).Rehashing() { CursorKept(H, Tick(st), k, v); } else { StoreLoad(H, Tick(st), k, v); }
  }

  lemma {:induction false} DelKeepsRoom<V>(H: HashFn, st: DictState<V>, k: Key)
    requires Ok(H, st) && Room(st)
    ensures Room(Erase(H, Tick(st), k).0)
    ensures Snug(st) && !StartsShrink(H, st, Del(k)) ==> Snug(Erase(H, Tick(st), k).0)
  {
    TickOk(H, st);
    if st.Rehashing() { TickLoad(H, st, 1); }
    var t := Tick(st);
    if t.Rehashing() {
      EraseCursorKept(H, t, k);
    } else if Locate(t.t0, k, H(k)).Some? {
      UnlinkOk(H, t.t0, k);
      ShrinkIsSmaller(t.(t0 := Unlink(t.t0, k, H(k))));
    }
  }

  /** A `del` that removes something never leaves a sparse table behind: it starts to shrink it. */
  lemma {:induction false} DelShrinks<V>(H: HashFn, st: DictState<V>, k: Key)
    requires Ok(H, st)
    ensures var (r, out) := Step(H, st, Del(k));
            out == Flag(true) && !r.Rehashing() ==> !Sparse(r.t0.used, |r.t0.buckets|)
  {
    hide FloatShrinks, Contents;
    StepRefines(H, st, Del(k));
    var r := Step(H, st, Del(k)).0;
    if !r.Rehashing() { DecisionsAre(H, r); }
  }

  lemma {:induction false} RehashKeepsRoom<V>(H: HashFn, st: DictState<V>, n: int)
    requires Ok(H, st) && Room(st)
    ensures Room(RehashStep(st, n).0)
    ensures Snug(st) ==> Snug(RehashStep(st, n).0)
  {
    if st.Rehashing() {
      if n > 0 { TickLoad(H, st, n); }
    }
  }

  /** A deletion that leaves the table so empty that it starts to shrink. */
  predicate StartsShrink<V>(H: HashFn, st: DictState<V>, op: Op<V>)
    requires Shape(st)
  {
    op.Del? && !Tick(st).Rehashing() && Erase(H, Tick(st), op.key).0.Rehashing()
  }

  /** Each operation, even one that starts a shrink, keeps `Room`; without shrinks it keeps `Snug`. */
  lemma {:induction false} StepKeepsRoom<V>(H: HashFn, st: DictState<V>, op: Op<V>)
    requires Ok(H, st) && Room(st)
    ensures Room(Step(H, st, op).0)
    ensures Snug(st) && !StartsShrink(H, st, op) ==> Snug(Step(H, st, op).0)
  {
    match op
    case Set(k, v) => SetKeepsRoom(H, st, k, v);
    case Del(k) => DelKeepsRoom(H, st, k);
    case Rehash(n) => RehashKeepsRoom(H, st, n);
    case Read(_) => RehashKeepsRoom(H, st, 1);
    case Clear =>
  }

  /** In every run, shrinking or not, an expansion completes before its table's load exceeds 1. */
  lemma {:induction false} RunKeepsRoom<V>(H: HashFn, st: DictState<V>, ops: seq<Op<V>>)
    requires Ok(H, st) && Room(st)
    ensures Room(Run(H, st, ops).0)
    decreases |ops|
  {
    if ops != [] {
      StepKeepsRoom(H, st, ops[0]);
      StepRefines(H, st, ops[0]);
      RunKeepsRoom(H, Step(H, st, ops[0]).0, ops[1..]);
    }
  }

  ghost predicate ShrinkFree<V>(H: HashFn, st: DictState<V>, ops: seq<Op<V>>)
    requires Ok(H, st)
    decreases |ops|
  {
    ops != [] ==>
      && !StartsShrink(H, st, ops[0])
      && (StepRefines(H, st, ops[0]); ShrinkFree(H, Step(H, st, ops[0]).0, ops[1..]))
  }

  /** In runs where no shrink starts, no table ever exceeds its capacity. */
  lemma {:induction false} NoShrinkKeepsLoad<V>(H: HashFn, st: DictState<V>, ops: seq<Op<V>>)
    requires Ok(H, st) && Snug(st) && ShrinkFree(H, st, ops)
    ensures Snug(Run(H, st, ops).0)
    decreases |ops|
  {
    if ops != [] {
      StepKeepsRoom(H, st, ops[0]);
      StepRefines(H, st, ops[0]);
      NoShrinkKeepsLoad(H, Step(H, st, ops[0]).0, ops[1..]);
    }
  }
}
