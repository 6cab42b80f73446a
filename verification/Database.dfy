/**
 `KevaDatabase`: two dictionaries, each possibly in the middle of a migration, behaving as the two maps
 of `StoreSpec`. The clock is a parameter.
 */
module DatabaseImpl {
  import opened Common
  import opened Objects
  import opened StoreSpec
  import DictTable
  import D = DictSpec
  import DictMap
  import DictScan
  import opened DictImpl

  const SAMPLE_SIZE := 20
  const MAX_CYCLES := 3

  /** The entries whose key has not expired. */
  function LiveEntries(c: DictTable.Chain<Object>, st: Store, now: int): DictTable.Chain<Object> {
    if c == [] then []
    else (if Expired(st, c[0].key, now) then [] else [c[0]]) + LiveEntries(c[1..], st, now)
  }

  function KeysOf(c: DictTable.Chain<Object>): seq<Key> {
    seq(|c|, i requires 0 <= i < |c| => c[i].key)
  }

  lemma {:induction false} ListsEnumerate(c: DictTable.Chain<Object>, m: map<Key, Object>)
    requires DictScan.Lists(c, m)
    ensures Enumerates(KeysOf(c), m.Keys)
  {
    forall k ensures k in KeysOf(c) <==> k in m {
      if k in KeysOf(c) {
        var i :| 0 <= i < |c| && KeysOf(c)[i] == k;
        assert c[i] in c;
      }
      if k in m {
        var e :| e in c && e.key == k;
        var i :| 0 <= i < |c| && c[i] == e;
        assert KeysOf(c)[i] == k;
      }
    }
  }

  lemma {:induction false} LiveEntriesMember(c: DictTable.Chain<Object>, st: Store, now: int,
                                             e: DictTable.Entry<Object>)
    ensures e in LiveEntries(c, st, now) <==> e in c && !Expired(st, e.key, now)
  {
    if c != [] { LiveEntriesMember(c[1..], st, now, e); }
  }

  lemma {:induction false} LiveEntriesNoDup(c: DictTable.Chain<Object>, st: Store, now: int)
    requires DictScan.NoDup(c)
    ensures DictScan.NoDup(LiveEntries(c, st, now))
  {
    if c != [] {
      var rest := LiveEntries(c[1..], st, now);
      LiveEntriesNoDup(c[1..], st, now);
      forall j | 0 <= j < |rest| ensures rest[j].key != c[0].key {
        LiveEntriesMember(c[1..], st, now, rest[j]);
        var i :| 0 <= i < |c[1..]| && c[1..][i] == rest[j];
        assert c[i + 1] == rest[j];
      }
    }
  }

  lemma {:induction false} LiveEntriesStep(c: DictTable.Chain<Object>, st: Store, now: int)
    requires c != []
    ensures forall a: DictTable.Chain<Object> ::
              a + LiveEntries(c, st, now)
              == (if Expired(st, c[0].key, now) then a else a + [c[0]]) + LiveEntries(c[1..], st, now)
  {
  }

  /** Skipping expired entries leaves exactly the live keys, each once. */
  lemma {:induction false} LiveEntriesList(c: DictTable.Chain<Object>, st: Store, now: int)
    requires DictScan.Lists(c, st.vals)
    ensures DictScan.Lists(LiveEntries(c, st, now), Canon(st, now).vals)
  {
    var live, m := LiveEntries(c, st, now), Canon(st, now).vals;
    LiveEntriesNoDup(c, st, now);
    forall e | e in live ensures e.key in m && m[e.key] == e.value {
      LiveEntriesMember(c, st, now, e);
    }
    forall k | k in m ensures exists e | e in live :: e.key == k {
      var e :| e in c && e.key == k;
      LiveEntriesMember(c, st, now, e);
    }
  }

  // ---- the expiry cycle -----------------------------------------------------------------

  /** All keys whose deadline has passed. */
  function Overdue(st: Store, now: int): set<Key> {
    set k | k in st.dl && now >= st.dl[k]
  }

  /** The keys of the sampled entries whose deadline has passed. */
  function Passed(sample: DictTable.Chain<int>, now: int): set<Key> {
    set e | e in sample && now >= e.value :: e.key
  }

  lemma {:induction false} PassedNone(sample: DictTable.Chain<int>, now: int)
    ensures Passed(sample[..0], now) == {}
  {
  }

  lemma {:induction false} PassedNext(sample: DictTable.Chain<int>, i: nat, now: int)
    requires i < |sample| && DictScan.NoDup(sample)
    ensures Passed(sample[..i + 1], now)
         == Passed(sample[..i], now) + if now >= sample[i].value then {sample[i].key} else {}
    ensures sample[i].key !in Passed(sample[..i], now)
  {
    var before, e := sample[..i], sample[i];
    assert sample[..i + 1] == before + [e];
    forall k ensures k in Passed(before + [e], now) <==> k in Passed(before, now) || (now >= e.value && k == e.key) {
    }
  }

  lemma {:induction false} PassedExpired(sample: DictTable.Chain<int>, st: Store, now: int)
    requires forall e | e in sample :: e.key in st.dl && st.dl[e.key] == e.value
    ensures AllExpired(st, Passed(sample, now), now)
  {
  }

  /** One round of the cycle: the deadlines it meets, what it samples, and what it deletes. */
  datatype Round = Round(deadlines: D.DictState<int>, sample: DictTable.Chain<int>, gone: set<Key>)

  /** The round has found at least a quarter of its sample expired. */
  predicate Worthwhile(r: Round) {
    r.sample != [] && 4 * |r.gone| >= |r.sample|
  }

  lemma {:induction false} Judged(rounds: seq<Round>)
    ensures forall i | 0 <= i < |rounds| ::
              Worthwhile(rounds[i]) <==> rounds[i].sample != [] && 4 * |rounds[i].gone| >= |rounds[i].sample|
  {
  }

  function GoneIn(rounds: seq<Round>): set<Key> {
    if rounds == [] then {} else GoneIn(rounds[..|rounds| - 1]) + rounds[|rounds| - 1].gone
  }

  /** Round `i` samples what the earlier rounds have left, and deletes all that has expired in its sample. */
  ghost predicate RoundAt(rounds: seq<Round>, i: nat, hash: DictTable.HashFn, st: Store, now: int, second: bool,
                          draw: nat)
    requires i < |rounds|
  {
    && D.Ok(hash, rounds[i].deadlines)
    && DictMap.Contents(hash, rounds[i].deadlines) == SweepStep(st, now, GoneIn(rounds[..i])).dl
    && rounds[i].sample == DictScan.Sample(rounds[i].deadlines, SAMPLE_SIZE, second, draw)
    && rounds[i].gone == Passed(rounds[i].sample, now)
  }

  ghost predicate Cycle(rounds: seq<Round>, hash: DictTable.HashFn, st: Store, now: int, second: nat -> bool,
                        draw: nat -> nat)
  {
    forall i | 0 <= i < |rounds| :: RoundAt(rounds, i, hash, st, now, second(i), draw(i))
  }

  /** The rounds so far have led from `st` to `contents`. */
  ghost predicate Sofar(rounds: seq<Round>, hash: DictTable.HashFn, st: Store, contents: Store, now: int,
                        second: nat -> bool, draw: nat -> nat)
  {
    && Cycle(rounds, hash, st, now, second, draw) && AllExpired(st, GoneIn(rounds), now)
    && contents == SweepStep(st, now, GoneIn(rounds))
  }

  lemma {:induction false} NoRound(hash: DictTable.HashFn, st: Store, now: int, second: nat -> bool, draw: nat -> nat)
    ensures Sofar([], hash, st, st, now, second, draw)
  {
    SweepNone(st, now);
  }

  lemma {:induction false} CycleSnoc(rounds: seq<Round>, r: Round, hash: DictTable.HashFn, st: Store, now: int,
                                     second: nat -> bool, draw: nat -> nat)
    requires Cycle(rounds, hash, st, now, second, draw) && D.Ok(hash, r.deadlines)
    requires DictMap.Contents(hash, r.deadlines) == SweepStep(st, now, GoneIn(rounds)).dl
    requires r.sample == DictScan.Sample(r.deadlines, SAMPLE_SIZE, second(|rounds|), draw(|rounds|))
    requires r.gone == Passed(r.sample, now)
    ensures Cycle(rounds + [r], hash, st, now, second, draw)
    ensures GoneIn(rounds + [r]) == GoneIn(rounds) + r.gone
  {
    hide D.Ok, DictMap.Contents, DictScan.Sample, SweepStep, Passed;
    var all := rounds + [r];
    assert all[..|rounds|] == rounds;
    forall i | 0 <= i < |all| ensures RoundAt(all, i, hash, st, now, second(i), draw(i)) {
      if i < |rounds| {
        assert RoundAt(rounds, i, hash, st, now, second(i), draw(i)) && all[..i] == rounds[..i];
      }
    }
  }

  /** Where the first round can see every deadline, it finds every expired key. */
  lemma {:induction false} FirstRoundFindsAll(rounds: seq<Round>, hash: DictTable.HashFn, st: Store, now: int,
                                              second: nat -> bool, draw: nat -> nat)
    requires Cycle(rounds, hash, st, now, second, draw)
    requires rounds != [] && !rounds[0].deadlines.Rehashing() && |st.dl| <= SAMPLE_SIZE
    ensures forall k | Expired(st, k, now) :: k in GoneIn(rounds)
  {
    hide D.Ok, DictMap.Contents, DictScan.Sample;
    var r := rounds[0];
    assert RoundAt(rounds, 0, hash, st, now, second(0), draw(0));
    SweepNone(st, now);
    DictScan.SampleAll(hash, r.deadlines, SAMPLE_SIZE, second(0), draw(0));
    GoneInFirst(rounds);
    forall k | Expired(st, k, now) ensures k in r.gone {
      var e :| e in r.sample && e.key == k;
    }
  }

  lemma {:induction false} Swept(rounds: seq<Round>, hash: DictTable.HashFn, st: Store, contents: Store, now: int,
                                 second: nat -> bool, draw: nat -> nat)
    requires Sofar(rounds, hash, st, contents, now, second, draw) && Sound(st)
    ensures Sound(contents) && |contents.vals| == |st.vals| - |GoneIn(rounds)|
  {
    hide Cycle, Sound, SweepStep, AllExpired;
    SweepCount(st, now, GoneIn(rounds));
  }

  /** A cycle whose first round has seen every deadline. */
  lemma {:induction false} Cleared(rounds: seq<Round>, hash: DictTable.HashFn, st: Store, contents: Store, now: int,
                                    second: nat -> bool, draw: nat -> nat)
    requires Sofar(rounds, hash, st, contents, now, second, draw)
    requires |st.dl| <= SAMPLE_SIZE && (rounds == [] ==> st.dl == map[])
    requires rounds != [] ==> !rounds[0].deadlines.Rehashing()
    ensures Overdue(contents, now) == {} && GoneIn(rounds) == Overdue(st, now)
  {
    hide Cycle, GoneIn;
    if rounds != [] { FirstRoundFindsAll(rounds, hash, st, now, second, draw); }
  }

  lemma {:induction false} GoneInNone()
    ensures GoneIn([]) == {}
  {
  }

  lemma {:induction false} GoneInFirst(rounds: seq<Round>)
    requires rounds != []
    ensures rounds[0].gone <= GoneIn(rounds)
  {
    if |rounds| > 1 { GoneInFirst(rounds[..|rounds| - 1]); }
  }

  class Database {
    const keys: Dict<Object>
    const expires: Dict<int>

    ghost function Repr(): set<object>
      reads this, keys, expires
    {
      {this} + keys.Repr() + expires.Repr()
    }

    /** Nothing but new memory was added to the representation. */
    twostate predicate Grew()
      reads this, keys, expires
    {
      forall o: object | o in Repr() :: o in old(Repr()) || fresh(o)
    }

    ghost predicate Valid()
      reads this, keys, keys.b0, keys.b1, expires, expires.b0, expires.b1
    {
      && keys.Valid() && expires.Valid()
      && keys.Repr() !! expires.Repr() && this !in keys.Repr() && this !in expires.Repr()
    }

    ghost function Contents(): Store
      reads this, keys, keys.b0, keys.b1, expires, expires.b0, expires.b1
    {
      Store(keys.Map(), expires.Map())
    }

    /** The order in which the stored keys are enumerated. */
    ghost function Order(): seq<Key>
      reads this, keys, keys.b0, keys.b1
    {
      KeysOf(DictScan.Entries(keys.State()))
    }

    lemma {:induction false} OrderEnumerates()
      requires Valid()
      ensures Enumerates(Order(), Contents().vals.Keys)
      ensures DictScan.Lists(DictScan.Entries(keys.State()), Contents().vals)
    {
      hide DictScan.Lists, Enumerates;
      DictScan.ForEachListsContents(keys.hash, keys.State());
      ListsEnumerate(DictScan.Entries(keys.State()), Contents().vals);
    }

    constructor (hash: DictTable.HashFn)
      ensures Valid() && fresh(Repr()) && Contents() == EMPTY
    {
      hide D.Ok, DictMap.Contents;
      keys := new Dict<Object>(hash);
      expires := new Dict<int>(hash);
    }

    method DeleteKey(key: Key)
      requires Valid()
      modifies Repr()
      ensures Valid() && Grew()
      ensures Contents() == Purge(old(Contents()), key)
      ensures keys.State() == old(D.Step(keys.hash, keys.State(), D.Del(key)).0)
      ensures expires.State() == old(D.Step(expires.hash, expires.State(), D.Del(key)).0)
    {
      hide D.Ok, D.Step, D.Lookup, D.Poke, D.RehashStep, DictMap.Contents, DictScan.Entries;
      var _ := keys.Del(key);
      var _ := expires.Del(key);
    }

    method IsExpired(key: Key, now: int) returns (b: bool)
      requires Valid()
      ensures b == Expired(Contents(), key, now)
    {
      var ts := expires.Peek(key);
      return ts.Some? && now >= ts.value;
    }

    method Get(key: Key, now: int) returns (r: Option<Object>)
      requires Valid()
      modifies Repr()
      ensures Valid() && Grew()
      ensures (Contents(), r) == Fetch(old(Contents()), key, now)
      ensures !Expired(old(Contents()), key, now) ==>
                keys.State() == old(D.Step(keys.hash, keys.State(), D.Read(key)).0)
    {
      hide D.Ok, D.Step, D.Lookup, D.Poke, D.RehashStep, DictMap.Contents, DictScan.Entries;
      var obj := keys.Get(key);
      if obj.None? { return None; }
      var gone := IsExpired(key, now);
      if gone {
        DeleteKey(key);
        return None;
      }
      return obj;
    }

    method PeekAt(key: Key, now: int) returns (r: Option<Object>)
      requires Valid()
      modifies Repr()
      ensures Valid() && Grew()
      ensures Contents() == old(Contents()) && r == Peek(Contents(), key, now)
      ensures keys.State() == old(D.Step(keys.hash, keys.State(), D.Read(key)).0)
    {
      hide D.Ok, D.Step, D.Lookup, D.Poke, D.RehashStep, DictMap.Contents, DictScan.Entries;
      var obj := keys.Get(key);
      if obj.None? { return None; }
      var gone := IsExpired(key, now);
      if gone { return None; }
      return obj;
    }

    method Set(key: Key, obj: Object)
      requires Valid()
      modifies Repr()
      ensures Valid() && Grew()
      ensures Contents() == Put(old(Contents()), key, obj)
      ensures keys.State() == old(D.Step(keys.hash, keys.State(), D.Set(key, obj)).0)
      ensures expires.State() == old(D.Step(expires.hash, expires.State(), D.Del(key)).0)
    {
      hide D.Ok, D.Step, D.Lookup, D.Poke, D.RehashStep, DictMap.Contents, DictScan.Entries;
      var _ := expires.Del(key);
      var _ := keys.Set(key, obj);
    }

    /** Reports whether the key was stored, expired or not. */
    method Del(key: Key) returns (existed: bool)
      requires Valid()
      modifies Repr()
      ensures Valid() && Grew()
      ensures Contents() == Purge(old(Contents()), key) && existed == (key in old(Contents()).vals)
    {
      var found := keys.Peek(key);
      DeleteKey(key);
      return found.Some?;
    }

    method Exists(key: Key, now: int) returns (b: bool)
      requires Valid()
      modifies Repr()
      ensures Valid() && Grew()
      ensures Contents() == Fetch(old(Contents()), key, now).0 && b == LiveKey(old(Contents()), key, now)
    {
      var obj := Get(key, now);
      return obj.Some?;
    }

    /** An existing deadline is overwritten in place, through the pointer that `get` returned. */
    method Expire(key: Key, t: int)
      requires Valid()
      modifies Repr()
      ensures Valid() && Grew()
      ensures Contents() == SetExpire(old(Contents()), key, t)
    {
      hide D.Ok, D.Step, D.Lookup, D.Poke, D.RehashStep, DictMap.Contents, DictScan.Entries;
      var existing := expires.Get(key);
      if existing.Some? {
        expires.Poke(key, t);
        return;
      }
      var _ := expires.Set(key, t);
    }

    method Persist(key: Key)
      requires Valid()
      modifies Repr()
      ensures Valid() && Grew()
      ensures Contents() == RemoveExpire(old(Contents()), key)
      ensures keys.State() == old(keys.State())
      ensures expires.State() == old(D.Step(expires.hash, expires.State(), D.Del(key)).0)
    {
      var _ := expires.Del(key);
    }

    method RemainingMs(key: Key, now: int) returns (ms: int)
      requires Valid()
      modifies Repr()
      ensures Valid() && Grew()
      ensures keys.State() == old(keys.State()) && Contents() == old(Contents())
      ensures ms == Pttl(Contents(), key, now)
    {
      hide D.Ok, D.Step, D.Lookup, D.Poke, D.RehashStep, DictMap.Contents, DictScan.Entries;
      var found := keys.Peek(key);
      if found.None? { return -2; }
      var ts := expires.Get(key);
      if ts.None? { return -1; }
      var remaining := ts.value - now;
      return if remaining > 0 then remaining else 0;
    }

    method Size() returns (n: int)
      requires Valid()
      ensures n == |Contents().vals|
    {
      n := keys.Size();
    }

    /** The background step: a hundred buckets of each dictionary, nothing visible. */
    method RehashStep()
      requires Valid()
      modifies Repr()
      ensures Valid() && Grew() && Contents() == old(Contents())
      ensures keys.State() == old(D.RehashStep(keys.State(), 100).0)
      ensures expires.State() == old(D.RehashStep(expires.State(), 100).0)
    {
      hide D.Ok, D.Step, D.Lookup, D.Poke, D.RehashStep, DictMap.Contents, DictScan.Entries;
      var _ := keys.RehashStep(100);
      var _ := expires.RehashStep(100);
    }

    method Flush()
      requires Valid()
      modifies Repr()
      ensures Valid() && Grew() && Contents() == EMPTY
    {
      hide D.Ok, D.Step, D.Lookup, D.Poke, D.RehashStep, DictMap.Contents, DictScan.Entries;
      keys.Clear();
      expires.Clear();
    }

    /** `for_each`: every live key once, in the order of the key dictionary. */
    method ForEach(now: int) returns (visited: DictTable.Chain<Object>)
      requires Valid()
      ensures visited == LiveEntries(DictScan.Entries(keys.State()), Contents(), now)
      ensures DictScan.Lists(visited, Canon(Contents(), now).vals)
    {
      hide D.Ok, D.Step, D.Lookup, D.Poke, D.RehashStep, DictMap.Contents, DictScan.Entries;
      hide Canon, DictScan.Lists;
      var all := keys.ForEach();
      ghost var st := Contents();
      LiveEntriesList(all, st, now);
      visited := [];
      var i := 0;
      while i < |all|
        invariant 0 <= i <= |all|
        invariant LiveEntries(all, st, now) == visited + LiveEntries(all[i..], st, now)
      {
        LiveEntriesStep(all[i..], st, now);
        assert all[i..][1..] == all[i + 1..];
        var gone := IsExpired(all[i].key, now);
        if !gone { visited := visited + [all[i]]; }
        i := i + 1;
      }
    }

    /** One round of the expiry cycle: sample, collect the expired keys, delete them. */
    method ExpireRound(now: int, second: bool, draw: nat) returns (n: nat, deleted: nat, ghost r: Round)
      requires Valid()
      modifies Repr()
      ensures Valid() && Grew()
      ensures r.deadlines == old(expires.State()) && n == |r.sample| <= SAMPLE_SIZE && deleted == |r.gone| <= n
      ensures r.sample == DictScan.Sample(r.deadlines, SAMPLE_SIZE, second, draw) && r.gone == Passed(r.sample, now)
      ensures AllExpired(old(Contents()), r.gone, now) && Contents() == SweepStep(old(Contents()), now, r.gone)
    {
      hide D.Ok, DictMap.Contents, DictScan.Sample;
      var sampled := expires.RandomSample(SAMPLE_SIZE, second, draw);
      n := |sampled|;
      var expired := ExpiredKeys(sampled, now);
      ghost var deadlines := expires.State();
      deleted := DeleteKeys(expired, now, Passed(sampled, now));
      r := Round(deadlines, sampled, Passed(sampled, now));
    }

    /** The sampled keys whose deadline has passed. */
    method ExpiredKeys(sampled: DictTable.Chain<int>, now: int) returns (ks: seq<Key>)
      requires DictScan.NoDup(sampled)
      requires forall e | e in sampled :: e.key in Contents().dl && Contents().dl[e.key] == e.value
      ensures |ks| <= |sampled| && (forall k :: k in ks <==> k in Passed(sampled, now))
      ensures forall i, j | 0 <= i < j < |ks| :: ks[i] != ks[j]
      ensures AllExpired(Contents(), Passed(sampled, now), now)
    {
      hide Passed, Expired, DictScan.NoDup, AllExpired, Database.Contents;
      ks := [];
      var i := 0;
      PassedNone(sampled, now);
      while i < |sampled|
        invariant 0 <= i <= |sampled| && |ks| <= i
        invariant forall x, y | 0 <= x < y < |ks| :: ks[x] != ks[y]
        invariant forall k :: k in ks <==> k in Passed(sampled[..i], now)
      {
        PassedNext(sampled, i, now);
        if now >= sampled[i].value { ks := ks + [sampled[i].key]; }
        i := i + 1;
      }
      assert sampled[..i] == sampled;
      PassedExpired(sampled, Contents(), now);
    }

    method DeleteKeys(ks: seq<Key>, now: int, ghost gone: set<Key>) returns (deleted: nat)
      requires Valid() && AllExpired(Contents(), gone, now) && (forall k :: k in ks <==> k in gone)
      requires forall i, j | 0 <= i < j < |ks| :: ks[i] != ks[j]
      modifies Repr()
      ensures Valid() && Grew()
      ensures Contents() == SweepStep(old(Contents()), now, gone) && deleted == |gone| == |ks|
    {
      hide D.Step, SweepStep, Purge, Expired, Database.Valid, Database.Contents, Database.Repr;
      deleted := 0;
      ghost var st, sofar := Contents(), {};
      SweepNone(st, now);
      while deleted < |ks|
        invariant 0 <= deleted <= |ks| && |sofar| == deleted
        invariant Valid() && Grew()
        invariant AllExpired(st, sofar, now) && Contents() == SweepStep(st, now, sofar)
        invariant sofar == set j | 0 <= j < deleted :: ks[j]
      {
        var k := ks[deleted];
        SweepNext(st, now, sofar, k);
        DeleteKey(k);
        sofar := sofar + {k};
        deleted := deleted + 1;
      }
      assert sofar == gone;
    }

    method HasNoDeadline() returns (b: bool)
      requires Valid()
      ensures b == (Contents().dl == map[])
    {
      hide D.Ok, DictMap.Contents;
      b := expires.IsEmpty();
    }

    lemma {:induction false} Deadlines()
      requires Valid()
      ensures D.Ok(expires.hash, expires.State())
      ensures DictMap.Contents(expires.hash, expires.State()) == Contents().dl
    {
    }

    /** One more round in the cycle. */
    method NextRound(now: int, second: nat -> bool, draw: nat -> nat, cycle: nat, ghost st: Store,
                     ghost rounds: seq<Round>)
      returns (n: nat, deleted: nat, ghost r: Round)
      requires Valid() && Sofar(rounds, expires.hash, st, Contents(), now, second, draw) && cycle == |rounds|
      modifies Repr()
      ensures Valid() && Grew() && Sofar(rounds + [r], expires.hash, st, Contents(), now, second, draw)
      ensures deleted <= n <= SAMPLE_SIZE && |GoneIn(rounds + [r])| == |GoneIn(rounds)| + deleted
      ensures r.deadlines == old(expires.State()) && (Worthwhile(r) <==> n != 0 && deleted * 4 >= n)
    {
      hide D.Ok, DictMap.Contents, DictScan.Sample, SweepStep, AllExpired, Dict.Valid, Dict.Map, Passed, Cycle;
      Deadlines();
      n, deleted, r := ExpireRound(now, second(cycle), draw(cycle));
      SweepTwice(st, now, GoneIn(rounds), r.gone);
      CycleSnoc(rounds, r, expires.hash, st, now, second, draw);
    }

    /** `active_expire_cycle`; `second` and `draw` give the random numbers of each round. The cycle runs unless
        there is no deadline, up to three rounds and only on behind a worthwhile one, and counts what it deletes.
        At most twenty deadlines, none of them in migration, are cleared of everything that has expired. */
    method ActiveExpireCycle(now: int, second: nat -> bool, draw: nat -> nat)
      returns (total: nat, ghost rounds: seq<Round>)
      requires Valid()
      modifies Repr()
      ensures Valid() && Grew()
      ensures Sofar(rounds, expires.hash, old(Contents()), Contents(), now, second, draw)
      ensures total == |GoneIn(rounds)| <= 60
      ensures |rounds| <= 3 && (rounds == [] <==> old(Contents()).dl == map[])
      ensures rounds != [] ==> rounds[0].deadlines == old(expires.State())
      ensures forall i | 0 <= i < |rounds| - 1 :: rounds[i].sample != [] && 4 * |rounds[i].gone| >= |rounds[i].sample|
      ensures 0 < |rounds| < 3 ==>
                var last := rounds[|rounds| - 1]; last.sample == [] || 4 * |last.gone| < |last.sample|
      ensures Sound(old(Contents())) ==>
                Sound(Contents()) && |Contents().vals| == |old(Contents()).vals| - total
      ensures !old(expires.State()).Rehashing() && |old(Contents()).dl| <= 20 ==>
                Overdue(Contents(), now) == {} && total == |Overdue(old(Contents()), now)|
    {
      hide Database.Valid, Database.Repr, Database.Contents, Sofar, Sound, SweepStep, Overdue, GoneIn, Worthwhile;
      ghost var st := Contents();
      NoRound(expires.hash, st, now, second, draw);
      assert GoneIn([]) == {} by { GoneInNone(); }
      total, rounds := 0, [];
      var empty := HasNoDeadline();
      var cycle := if empty then MAX_CYCLES else 0;
      while cycle < MAX_CYCLES
        invariant 0 <= cycle <= MAX_CYCLES && total == |GoneIn(rounds)| <= cycle * SAMPLE_SIZE
        invariant Valid() && Grew() && Sofar(rounds, expires.hash, st, Contents(), now, second, draw)
        invariant cycle == if empty then MAX_CYCLES else |rounds|
        invariant empty ==> rounds == []
        invariant rounds == [] ==> expires.State() == old(expires.State())
        invariant rounds != [] ==> rounds[0].deadlines == old(expires.State())
        invariant forall i | 0 <= i < |rounds| :: Worthwhile(rounds[i])
      {
        var n, deleted;
        ghost var r;
        n, deleted, r := NextRound(now, second, draw, cycle, st, rounds);
        total, rounds := total + deleted, rounds + [r];
        cycle := cycle + 1;
        if n == 0 || deleted * 4 < n { break; }
      }
      Judged(rounds);
      if Sound(st) { Swept(rounds, expires.hash, st, Contents(), now, second, draw); }
      if |st.dl| <= SAMPLE_SIZE && !old(expires.State()).Rehashing() {
        Cleared(rounds, expires.hash, st, Contents(), now, second, draw);
      }
    }
  }
}
