/**
 What a client gets back after a save and a load. `SavedFileRestores`: exactly the keys that were live
 when the save began, with the same content and encoding; a deadline is never earlier than the real one
 and later by at most the duration of the save.
 */
module RdbRestore {
  import opened Common
  import opened Objects
  import opened StoreSpec
  import opened RdbFormat
  import opened RdbSpec
  import opened RdbLaws
  import DictTable
  import DictScan

  /** Later readings never show an earlier time. */
  ghost predicate Monotone(clock: Clock) {
    forall i: nat, j: nat | i <= j :: clock(i) <= clock(j)
  }

  // ---- deadlines ------------------------------------------------------------------------

  /** The remaining time is taken at `t1` and added to the clock at `t2`. The result is a deadline between
      the real one and `t2 - t0` later, so it never is the mark -1 for "none". */
  lemma {:induction false} StampDrift(st: Store, k: Key, t0: int, t1: int, t2: int)
    requires 0 <= t0 <= t1 <= t2 && LiveKey(st, k, t0)
    requires k in st.dl ==> st.dl[k] + (t2 - t0) <= I64_MAX
    ensures k !in st.dl ==> Stamp(Pttl(st, k, t1), t2) == None
    ensures k in st.dl ==>
              var s := Stamp(Pttl(st, k, t1), t2);
              s.Some? && s.value != -1 && st.dl[k] <= s.value <= st.dl[k] + (t2 - t0)
  {
  }

  // ---- inserting records with different keys --------------------------------------------

  ghost predicate DistinctKeys(rs: seq<Record>) {
    forall i, j | 0 <= i < j < |rs| :: rs[i].key != rs[j].key
  }

  lemma {:induction false} OthersUntouched(st: Store, rs: seq<Record>, k: Key)
    requires forall i | 0 <= i < |rs| :: rs[i].key != k
    ensures var r := InsertAll(st, rs);
            && (k in r.vals <==> k in st.vals) && (k in r.vals ==> r.vals[k] == st.vals[k])
            && (k in r.dl <==> k in st.dl) && (k in r.dl ==> r.dl[k] == st.dl[k])
    decreases |rs|
  {
    if rs != [] {
      assert rs[0].key != k;
      OthersUntouched(InsertRecord(st, rs[0]), rs[1..], k);
    }
  }

  lemma {:induction false} RecordInserted(st: Store, rs: seq<Record>, i: nat)
    requires i < |rs| && DistinctKeys(rs) && Writable(rs[i])
    ensures var r, k := InsertAll(st, rs), rs[i].key;
            && k in r.vals && r.vals[k] == CreateString(rs[i].text)
            && (k in r.dl <==> rs[i].deadline.Some?) && (k in r.dl ==> r.dl[k] == rs[i].deadline.value)
    decreases |rs|
  {
    if i == 0 {
      OthersUntouched(InsertRecord(st, rs[0]), rs[1..], rs[0].key);
    } else {
      assert rs[1..][i - 1] == rs[i];
      RecordInserted(InsertRecord(st, rs[0]), rs[1..], i - 1);
    }
  }

  // ---- the records of a save ------------------------------------------------------------

  lemma {:induction false} RecordsAt(visited: DictTable.Chain<Object>, st: Store, clock: Clock, i: nat)
    ensures |Records(visited, st, clock, i)| == |visited|
    ensures forall j | 0 <= j < |visited| :: Records(visited, st, clock, i)[j] == RecordOf(visited[j], st, clock, i + j)
    decreases |visited|
  {
    if visited != [] {
      RecordsAt(visited[1..], st, clock, i + 1);
      forall j | 0 < j < |visited|
        ensures Records(visited, st, clock, i)[j] == RecordOf(visited[j], st, clock, i + j)
      {
        assert Records(visited[1..], st, clock, i + 1)[j - 1]
            == RecordOf(visited[1..][j - 1], st, clock, i + 1 + (j - 1));
      }
    }
  }

  /** Deadlines have room for the duration of the save. */
  ghost predicate InRange(live: Store, span: int) {
    forall k | k in live.dl :: live.dl[k] + span <= I64_MAX
  }

  /** What is live fits the file: its strings fit their length field, its deadlines their range. */
  ghost predicate Savable(live: Store, span: int) {
    Short(live) && InRange(live, span)
  }

  /** The same values, the same keys with a deadline, and every deadline at most `drift` later. */
  ghost predicate Restored(got: Store, live: Store, drift: int) {
    && got.vals == live.vals
    && got.dl.Keys == live.dl.Keys
    && forall k | k in live.dl :: live.dl[k] <= got.dl[k] <= live.dl[k] + drift
  }

  lemma {:induction false} EntryWritable(visited: DictTable.Chain<Object>, st: Store, clock: Clock, i: nat)
    requires i < |visited| && Monotone(clock) && 0 <= clock(0)
    requires DictScan.Lists(visited, Canon(st, clock(0)).vals)
    requires Savable(Canon(st, clock(0)), clock(2 * |visited|) - clock(0))
    ensures var e := visited[i]; var r := RecordOf(e, st, clock, i);
            && LiveKey(st, e.key, clock(0)) && st.vals[e.key] == e.value && Writable(r)
            && (r.deadline.Some? <==> e.key in st.dl)
            && (e.key in st.dl ==>
                  st.dl[e.key] <= r.deadline.value <= st.dl[e.key] + (clock(2 * |visited|) - clock(0)))
  {
    hide Stamp, Pttl;
    var e := visited[i];
    assert e in visited;
    assert clock(0) <= clock(2 * i + 1) <= clock(2 * i + 2) <= clock(2 * |visited|);
    assert LiveKey(st, e.key, clock(0)) && Canon(st, clock(0)).vals[e.key] == e.value;
    if e.key in st.dl { assert Canon(st, clock(0)).dl[e.key] == st.dl[e.key]; }
    StampDrift(st, e.key, clock(0), clock(2 * i + 1), clock(2 * i + 2));
  }

  /** The part of `Restored` that speaks of one key. */
  ghost predicate KeyRestored(got: Store, live: Store, drift: int, k: Key) {
    && (k in got.vals <==> k in live.vals) && (k in live.vals ==> got.vals[k] == live.vals[k])
    && (k in got.dl <==> k in live.dl) && (k in live.dl ==> live.dl[k] <= got.dl[k] <= live.dl[k] + drift)
  }

  lemma {:induction false} KeyIsRestored(visited: DictTable.Chain<Object>, st: Store, clock: Clock,
                                         rs: seq<Record>, k: Key)
    requires Sane(st) && Monotone(clock) && 0 <= clock(0)
    requires DictScan.Lists(visited, Canon(st, clock(0)).vals)
    requires Savable(Canon(st, clock(0)), clock(2 * |visited|) - clock(0))
    requires |rs| == |visited| && DistinctKeys(rs)
    requires forall i | 0 <= i < |rs| :: rs[i] == RecordOf(visited[i], st, clock, i)
    ensures KeyRestored(InsertAll(EMPTY, rs), Canon(st, clock(0)), clock(2 * |visited|) - clock(0), k)
  {
    hide Savable, WellFormed, InsertAll, Writable, Stamp, Pttl, Monotone;
    if k in Canon(st, clock(0)).vals {
      var e :| e in visited && e.key == k;
      var i :| 0 <= i < |visited| && visited[i] == e;
      EntryWritable(visited, st, clock, i);
      RecordInserted(EMPTY, rs, i);
      Restore(st.vals[k]);
    } else {
      forall i | 0 <= i < |rs| ensures rs[i].key != k { assert visited[i] in visited; }
      OthersUntouched(EMPTY, rs, k);
    }
  }

  lemma {:induction false} InsertedIsRestored(visited: DictTable.Chain<Object>, st: Store, clock: Clock,
                                              rs: seq<Record>)
    requires Sane(st) && Monotone(clock) && 0 <= clock(0)
    requires DictScan.Lists(visited, Canon(st, clock(0)).vals)
    requires Savable(Canon(st, clock(0)), clock(2 * |visited|) - clock(0))
    requires |rs| == |visited| && forall i | 0 <= i < |rs| :: rs[i] == RecordOf(visited[i], st, clock, i)
    ensures forall i | 0 <= i < |rs| :: Writable(rs[i])
    ensures Restored(InsertAll(EMPTY, rs), Canon(st, clock(0)), clock(2 * |visited|) - clock(0))
  {
    hide Savable, Sane, Canon, InsertAll, Writable, Stamp, Pttl, Monotone;
    var live, got, drift := Canon(st, clock(0)), InsertAll(EMPTY, rs), clock(2 * |visited|) - clock(0);
    forall i | 0 <= i < |rs| ensures Writable(rs[i]) { EntryWritable(visited, st, clock, i); }
    assert DistinctKeys(rs);
    forall k
      ensures k in got.vals <==> k in live.vals
      ensures k in live.vals ==> k in got.vals && got.vals[k] == live.vals[k]
      ensures k in got.dl <==> k in live.dl
      ensures k in live.dl ==> k in got.dl && live.dl[k] <= got.dl[k] <= live.dl[k] + drift
    {
      KeyIsRestored(visited, st, clock, rs, k);
    }
    assert got.vals == live.vals;
    assert got.dl.Keys == live.dl.Keys;
  }

  /** The file of a save that visits the live keys in any order, loaded into an empty database, is accepted,
      is read to its last byte and restores what was live when the save began. */
  lemma {:induction false} SavedFileRestores(visited: DictTable.Chain<Object>, st: Store, clock: Clock, dbId: nat)
    requires Sane(st) && Monotone(clock) && 0 <= clock(0) && dbId < LIMIT32
    requires DictScan.Lists(visited, Canon(st, clock(0)).vals)
    requires Savable(Canon(st, clock(0)), clock(2 * |visited|) - clock(0))
    ensures var f := File(dbId, Records(visited, st, clock, 0));
            var r := Load(f, EMPTY);
            && r.status == Fine && r.pos == |f|
            && Restored(r.store, Canon(st, clock(0)), clock(2 * |visited|) - clock(0))
  {
    hide Sane, Savable, Writable, Records, File, Load, InsertAll, Restored, RecordOf, Canon, DictScan.Lists, Monotone;
    var rs := Records(visited, st, clock, 0);
    RecordsAt(visited, st, clock, 0);
    InsertedIsRestored(visited, st, clock, rs);
    var f := File(dbId, rs);
    assert Holds(f, 0, f);
    FileLoads(f, dbId, rs, EMPTY);
  }

  /** The restoration succeeds exactly when every live key and value is shorter than 2^32. */
  lemma {:induction false} RestoresExactlyShort(visited: DictTable.Chain<Object>, st: Store, clock: Clock, dbId: nat)
    requires Sane(st) && Monotone(clock) && 0 <= clock(0) && dbId < LIMIT32
    requires DictScan.Lists(visited, Canon(st, clock(0)).vals)
    requires InRange(Canon(st, clock(0)), clock(2 * |visited|) - clock(0))
    ensures var f := File(dbId, Records(visited, st, clock, 0));
            var r := Load(f, EMPTY);
            (r.status == Fine && r.pos == |f|
             && Restored(r.store, Canon(st, clock(0)), clock(2 * |visited|) - clock(0)))
            <==> Short(Canon(st, clock(0)))
  {
    hide Sane, Records, File, Load, Canon, DictScan.Lists, Monotone, InRange, Text;
    if Short(Canon(st, clock(0))) {
      SavedFileRestores(visited, st, clock, dbId);
    } else {
      LoadShort(File(dbId, Records(visited, st, clock, 0)), EMPTY);
    }
  }

  /** With the clock standing still at `now`, the round trip is exactly the store without its expired keys. */
  lemma {:induction false} StillClockRestores(visited: DictTable.Chain<Object>, st: Store, now: nat, dbId: nat)
    requires Sane(st) && DictScan.Lists(visited, Canon(st, now).vals) && Savable(Canon(st, now), 0) && dbId < LIMIT32
    ensures var f := File(dbId, Records(visited, st, _ => now, 0));
            Load(f, EMPTY) == Loaded(Fine, Canon(st, now), |f|)
  {
    hide Sane, Savable, Load, File, Records, Canon, DictScan.Lists;
    var clock: Clock := _ => now;
    SavedFileRestores(visited, st, clock, dbId);
    var r := Load(File(dbId, Records(visited, st, clock, 0)), EMPTY);
    assert r.store.dl == Canon(st, now).dl;
  }
}
