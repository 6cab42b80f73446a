/**
 Expiry as clients see it. `LazyIsEager`: over whole runs with background sweeps, the replies are those of
 a store from which keys vanish the moment they expire, except where `DEL`, `TTL`, `PTTL`, `DBSIZE` or `INFO`
 meets a key that has expired and is still stored. `LeftoverSeenByDel` and its neighbours show that this happens.
 */
module ExpiryLaws {
  import opened Common
  import opened Decimal
  import opened Objects
  import opened StoreSpec
  import opened Commands
  import opened CommandLaws
  import opened Resp

  // ---- commands that see expired leftovers ----------------------------------------------

  lemma {:induction false} PurgedStale(st: Store, k: Key, now: int)
    ensures forall x :: Stale(Purge(st, k), x, now) <==> Stale(st, x, now) && x != k
    ensures k in st.vals <==> LiveKey(st, k, now) || Stale(st, k, now)
    ensures !(LiveKey(st, k, now) && Stale(st, k, now))
    ensures k in Canon(st, now).vals <==> LiveKey(st, k, now)
  {
  }

  ghost predicate NoneStale(args: seq<Value>, i: nat, st: Store, now: int) {
    forall j | i <= j < |args| :: !Stale(st, Commands.Text(args[j]), now)
  }

  /** Counting deletions in a store and in the same store without its expired keys: the first count is
      ahead by at least one for every key that is an expired leftover. */
  lemma {:induction false} DeleteCounts(args: seq<Value>, i: nat, st: Store, now: int, n: nat, m: nat)
    requires i <= |args|
    ensures var x, y := DeleteAll(args, i, st, n).1, DeleteAll(args, i, Canon(st, now), m).1;
            && m <= y <= m + |args| - i && n <= x <= n + |args| - i && x - y >= n - m
            && (x - y == n - m <==> NoneStale(args, i, st, now))
    decreases |args| - i
  {
    hide Canon, Commands.Text, Stale, LiveKey, Purge;
    if i < |args| {
      var k := Commands.Text(args[i]);
      PurgeCanon(st, k, now);
      PurgedStale(st, k, now);
      DeleteCounts(args, i + 1, Purge(st, k), now,
                   if k in st.vals then n + 1 else n, if LiveKey(st, k, now) then m + 1 else m);
      if Stale(st, k, now) {
        assert !NoneStale(args, i, st, now);
      } else {
        assert NoneStale(args, i, st, now) <==> NoneStale(args, i + 1, Purge(st, k), now);
      }
    }
  }

  /** `DEL` answers as promised exactly when none of its keys is an expired leftover. */
  lemma {:induction false} DelPromise(args: seq<Value>, st: Store, env: Env)
    requires ArityOk(CDel, |args|) && |args| <= I64_MAX
    ensures Exec(CDel, args, st, env).reply == Exec(CDel, args, Canon(st, env.now), env).reply
       <==> forall j | 1 <= j < |args| :: !Stale(st, Commands.Text(args[j]), env.now)
  {
    hide DeleteAll, Canon, Stale, Commands.Text;
    DeleteCounts(args, 1, st, env.now, 0, 0);
  }

  /** `TTL` and `PTTL` answer as promised exactly when the key is not an expired leftover. */
  lemma {:induction false} RemainingPromise(c: Command, args: seq<Value>, st: Store, env: Env)
    requires (c.CTtl? || c.CPTtl?) && ArityOk(c, |args|)
    ensures Exec(c, args, st, env).reply == Exec(c, args, Canon(st, env.now), env).reply
       <==> !Stale(st, Commands.Text(args[1]), env.now)
  {
    hide Canon, Pttl, Stale;
    PttlPromise(st, Commands.Text(args[1]), env.now);
  }

  /** `DBSIZE` counts only what clients can see exactly when no expired leftover is stored. */
  lemma {:induction false} DbSizePromise(args: seq<Value>, st: Store, env: Env)
    requires ArityOk(CDbSize, |args|) && |st.vals| <= I64_MAX
    ensures Exec(CDbSize, args, st, env).reply == Exec(CDbSize, args, Canon(st, env.now), env).reply
       <==> forall k :: !Stale(st, k, env.now)
  {
    hide Canon, Stale;
    LiveCount(st, env.now);
  }

  lemma {:induction false} InfoTextDiffers(statistics: bytes, m: nat, n: nat)
    requires InfoText(statistics, m) == InfoText(statistics, n)
    ensures m == n
  {
    hide Ascii, Digits;
    var a, b, x, y := Ascii("# Keyspace\r\ndb0:keys="), Ascii(",expires=0\r\n"), Digits(m), Digits(n);
    var p := |statistics| + |a|;
    assert |x| == |y|;
    assert InfoText(statistics, m)[p..p + |x|] == x && InfoText(statistics, n)[p..p + |x|] == y;
    DigitsOk(m);
    DigitsOk(n);
  }

  /** `INFO` reports only what clients can see exactly when no expired leftover is stored. */
  lemma {:induction false} InfoPromise(args: seq<Value>, st: Store, env: Env)
    requires ArityOk(CInfo, |args|)
    ensures Exec(CInfo, args, st, env).reply == Exec(CInfo, args, Canon(st, env.now), env).reply
       <==> forall k :: !Stale(st, k, env.now)
  {
    hide Canon, Stale, InfoText;
    LiveCount(st, env.now);
    var m, n := |st.vals|, |Canon(st, env.now).vals|;
    if InfoText(env.report.info, m) == InfoText(env.report.info, n) { InfoTextDiffers(env.report.info, m, n); }
  }

  /** No expired leftover gets in the way of the command. */
  ghost predicate Harmless(c: Command, args: seq<Value>, st: Store, now: int)
    requires ArityOk(c, |args|)
  {
    match c
    case CDel => NoneStale(args, 1, st, now)
    case CTtl => !Stale(st, Commands.Text(args[1]), now)
    case CPTtl => !Stale(st, Commands.Text(args[1]), now)
    case CDbSize => forall k :: !Stale(st, k, now)
    case CInfo => forall k :: !Stale(st, k, now)
    case _ => true
  }

  /** What `DEL` and `DBSIZE` count fits a 64-bit integer. */
  predicate Countable(c: Command, args: seq<Value>, st: Store) {
    (c.CDel? ==> |args| <= I64_MAX) && (c.CDbSize? ==> |st.vals| <= I64_MAX)
  }

  /** A command replies as on the store without expired keys exactly when it is harmless. */
  lemma {:induction false} PromiseKept(c: Command, args: seq<Value>, st: Store, env: Env)
    requires ArityOk(c, |args|) && Countable(c, args, st)
    ensures Exec(c, args, st, env).reply == Exec(c, args, Canon(st, env.now), env).reply
       <==> Harmless(c, args, st, env.now)
  {
    hide Exec, Canon, Stale;
    if c.CDel? {
      DelPromise(args, st, env);
    } else if c.CTtl? || c.CPTtl? {
      RemainingPromise(c, args, st, env);
    } else if c.CDbSize? {
      DbSizePromise(args, st, env);
    } else if c.CInfo? {
      InfoPromise(args, st, env);
    } else {
      CanonEquiv(st, env.now);
      ExecEquiv(c, args, Canon(st, env.now), st, env);
    }
  }

  // ---- the failing state is reachable ---------------------------------------------------

  const QUIET: Report := Report([], None, None)

  function Words(command: string, operands: seq<bytes>): seq<Value> {
    [BulkString(Ascii(command))] + seq(|operands|, i requires 0 <= i < |operands| => BulkString(operands[i]))
  }

  /** `SET k v PX 1` at time 0 on an empty database. */
  function SetForOneMs(k: Key, v: bytes): Store {
    Exec(CSet, Words("SET", [k, v, Ascii("PX"), Ascii("1")]), EMPTY, Env(0, [], QUIET)).store
  }

  lemma {:induction false} OneMs(args: seq<Value>, k: Key, v: bytes)
    requires args == Words("SET", [k, v, Ascii("PX"), Ascii("1")])
    ensures ParseSetOptions(args, 3, SetOptions(-1, false, false)) == SetOptions(1, false, false)
  {
    assert Ascii("1") == ToChars(1) + [];
    PrintThenParse(1, []);
    assert Number(args[4]) == Some(1);
    assert Upper(Ascii("PX")) == Ascii("PX") && Ascii("PX")[0] != Ascii("EX")[0];
  }

  lemma {:induction false} SetForOneMsIs(k: Key, v: bytes)
    ensures SetForOneMs(k, v) == Store(map[k := CreateString(v)], map[k := 1])
  {
    var args := Words("SET", [k, v, Ascii("PX"), Ascii("1")]);
    OneMs(args, k, v);
    assert Commands.Text(args[1]) == k && Commands.Text(args[2]) == v;
    hide ParseSetOptions, CreateString;
    assert SetForOneMs(k, v) == SetExpire(Put(EMPTY, k, CreateString(v)), k, 1);
    assert SetForOneMs(k, v).vals == map[k := CreateString(v)];
    assert SetForOneMs(k, v).dl == map[k := 1];
  }

  /** One millisecond later the key is gone, but `DEL` counts it. */
  lemma {:induction false} LeftoverSeenByDel(k: Key, v: bytes)
    ensures var st, env := SetForOneMs(k, v), Env(1, [k], QUIET);
            && Exec(CDel, Words("DEL", [k]), st, env).reply == Integer(1)
            && Exec(CDel, Words("DEL", [k]), Canon(st, 1), env).reply == Integer(0)
  {
    hide SetForOneMs, CreateString;
    SetForOneMsIs(k, v);
    var st := SetForOneMs(k, v);
    var live := Canon(st, 1);
    assert live.vals == map[] && live.dl == map[];
    var del := Words("DEL", [k]);
    assert Commands.Text(del[1]) == k;
    assert DeleteAll(del, 1, st, 0) == DeleteAll(del, 2, Purge(st, k), 1);
    assert DeleteAll(del, 1, live, 0) == DeleteAll(del, 2, Purge(live, k), 0);
  }

  /** `PTTL` reports no time left instead of no such key. */
  lemma {:induction false} LeftoverSeenByPTtl(k: Key, v: bytes)
    ensures var st, env := SetForOneMs(k, v), Env(1, [k], QUIET);
            && Exec(CPTtl, Words("PTTL", [k]), st, env).reply == Integer(0)
            && Exec(CPTtl, Words("PTTL", [k]), Canon(st, 1), env).reply == Integer(-2)
  {
    hide SetForOneMs, CreateString;
    SetForOneMsIs(k, v);
    var st := SetForOneMs(k, v);
    var live := Canon(st, 1);
    assert live.vals == map[] && live.dl == map[];
    assert Commands.Text(Words("PTTL", [k])[1]) == k;
  }

  /** `DBSIZE` counts the key. */
  lemma {:induction false} LeftoverSeenByDbSize(k: Key, v: bytes, args: seq<Value>)
    requires ArityOk(CDbSize, |args|)
    ensures var st, env := SetForOneMs(k, v), Env(1, [k], QUIET);
            && Exec(CDbSize, args, st, env).reply == Integer(1)
            && Exec(CDbSize, args, Canon(st, 1), env).reply == Integer(0)
  {
    hide SetForOneMs, CreateString;
    SetForOneMsIs(k, v);
    var st := SetForOneMs(k, v);
    var live := Canon(st, 1);
    assert live.vals == map[] && live.dl == map[];
  }

  /** `INFO` counts the key. */
  lemma {:induction false} LeftoverSeenByInfo(k: Key, v: bytes, args: seq<Value>)
    requires ArityOk(CInfo, |args|)
    ensures var st, env := SetForOneMs(k, v), Env(1, [k], QUIET);
            && Exec(CInfo, args, st, env).reply == BulkString(InfoText([], 1))
            && Exec(CInfo, args, Canon(st, 1), env).reply == BulkString(InfoText([], 0))
  {
    hide SetForOneMs, CreateString, InfoText;
    SetForOneMsIs(k, v);
    var st := SetForOneMs(k, v);
    var live := Canon(st, 1);
    assert live.vals == map[] && live.dl == map[];
  }

  // ---- runs with background activity ----------------------------------------------------

  /** A client request, or a background sweep that drops some of the expired keys among `victims`. */
  datatype Event = Request(c: Command, args: seq<Value>, env: Env) | Sweep(at: int, victims: set<Key>)

  function Time(e: Event): int {
    if e.Request? then e.env.now else e.at
  }

  /** Requests have passed the arity check of the dispatcher. */
  predicate Checked(events: seq<Event>) {
    forall i | 0 <= i < |events| && events[i].Request? :: ArityOk(events[i].c, |events[i].args|)
  }

  /** The clock never runs backwards. */
  ghost predicate InOrder(events: seq<Event>, from: int) {
    && (forall i | 0 <= i < |events| :: from <= Time(events[i]))
    && (forall i, j | 0 <= i < j < |events| :: Time(events[i]) <= Time(events[j]))
  }

  /** The program: expired keys stay until something touches or sweeps them. */
  function LazyRun(st: Store, events: seq<Event>): seq<Value>
    requires Checked(events)
    decreases |events|
  {
    if events == [] then []
    else
      match events[0]
      case Request(c, args, env) =>
        var r := Exec(c, args, st, env);
        [r.reply] + LazyRun(r.store, events[1..])
      case Sweep(at, victims) => LazyRun(SweepStep(st, at, victims), events[1..])
  }

  /** The ideal: keys vanish the moment they expire, nothing else ever deletes them. */
  function EagerRun(st: Store, events: seq<Event>): seq<Value>
    requires Checked(events)
    decreases |events|
  {
    if events == [] then []
    else
      match events[0]
      case Request(c, args, env) =>
        var r := Exec(c, args, Canon(st, env.now), env);
        [r.reply] + EagerRun(r.store, events[1..])
      case Sweep(_, _) => EagerRun(st, events[1..])
  }

  function Requests(events: seq<Event>): (r: seq<Event>)
    ensures forall i | 0 <= i < |r| :: r[i].Request?
  {
    if events == [] then []
    else (if events[0].Request? then [events[0]] else []) + Requests(events[1..])
  }

  /** For every request of the lazy run, whether it was harmless in the store that it met. */
  ghost function HarmlessAt(st: Store, events: seq<Event>): seq<bool>
    requires Checked(events)
    decreases |events|
  {
    if events == [] then []
    else
      match events[0]
      case Request(c, args, env) =>
        [Harmless(c, args, st, env.now)] + HarmlessAt(Exec(c, args, st, env).store, events[1..])
      case Sweep(at, victims) => HarmlessAt(SweepStep(st, at, victims), events[1..])
  }

  ghost predicate CountableRun(st: Store, events: seq<Event>)
    requires Checked(events)
    decreases |events|
  {
    events != [] ==>
      match events[0]
      case Request(c, args, env) => Countable(c, args, st) && CountableRun(Exec(c, args, st, env).store, events[1..])
      case Sweep(at, victims) => CountableRun(SweepStep(st, at, victims), events[1..])
  }

  /** One reply for each request. */
  lemma {:induction false} ReplyPerRequest(a: Store, b: Store, events: seq<Event>)
    requires Checked(events)
    ensures |LazyRun(a, events)| == |EagerRun(b, events)| == |HarmlessAt(a, events)| == |Requests(events)|
    decreases |events|
  {
    hide Exec, Canon, SweepStep, ArityOk, Harmless;
    if events != [] {
      match events[0]
      case Request(c, args, env) =>
        ReplyPerRequest(Exec(c, args, a, env).store, Exec(c, args, Canon(b, env.now), env).store, events[1..]);
      case Sweep(at, victims) => ReplyPerRequest(SweepStep(a, at, victims), b, events[1..]);
    }
  }

  /** One event keeps the two runs in stores that no client can tell apart. */
  lemma {:induction false} RequestStep(c: Command, args: seq<Value>, a: Store, b: Store, env: Env)
    requires ArityOk(c, |args|) && Equiv(a, b, env.now)
    ensures var x, y := Exec(c, args, a, env), Exec(c, args, Canon(b, env.now), env);
            && Equiv(x.store, y.store, env.now)
            && (Transparent(c) ==> x.reply == y.reply)
            && (Countable(c, args, a) ==> (x.reply == y.reply <==> Harmless(c, args, a, env.now)))
  {
    hide Exec, Harmless;
    CanonEquiv(a, env.now);
    ExecEquiv(c, args, a, Canon(b, env.now), env);
    if Countable(c, args, a) { PromiseKept(c, args, a, env); }
  }

  /** With a clock that never runs backwards: each transparent command of a run, whatever came before,
      replies as if keys vanished the moment they expire, and so does any other command exactly when it
      meets no expired leftover of a key it speaks about. */
  lemma {:induction false} LazyIsEager(a: Store, b: Store, events: seq<Event>, from: int)
    requires Checked(events) && InOrder(events, from) && Equiv(a, b, from)
    ensures |LazyRun(a, events)| == |EagerRun(b, events)| == |HarmlessAt(a, events)| == |Requests(events)|
    ensures forall i | 0 <= i < |Requests(events)| && Transparent(Requests(events)[i].c) ::
              LazyRun(a, events)[i] == EagerRun(b, events)[i]
    ensures CountableRun(a, events) ==>
              forall i | 0 <= i < |Requests(events)| ::
                LazyRun(a, events)[i] == EagerRun(b, events)[i] <==> HarmlessAt(a, events)[i]
    decreases |events|
  {
    hide Exec, Canon, SweepStep, ArityOk, Harmless, Countable, Transparent;
    ReplyPerRequest(a, b, events);
    if events != [] {
      var t, rest := Time(events[0]), events[1..];
      EquivLater(a, b, from, t);
      assert InOrder(rest, t);
      match events[0]
      case Request(c, args, env) =>
        RequestStep(c, args, a, b, env);
        LazyIsEager(Exec(c, args, a, env).store, Exec(c, args, Canon(b, t), env).store, rest, t);
      case Sweep(at, victims) =>
        SweepEquiv(a, at, victims);
        LazyIsEager(SweepStep(a, at, victims), b, rest, t);
    }
  }

  /** No request of the run meets an expired leftover of a key it speaks about. */
  ghost predicate HarmlessRun(st: Store, events: seq<Event>)
    requires Checked(events)
  {
    forall i | 0 <= i < |HarmlessAt(st, events)| :: HarmlessAt(st, events)[i]
  }

  /** The whole runs agree exactly when the run is harmless. */
  lemma {:induction false} RunsAgree(a: Store, b: Store, events: seq<Event>, from: int)
    requires Checked(events) && InOrder(events, from) && Equiv(a, b, from) && CountableRun(a, events)
    ensures LazyRun(a, events) == EagerRun(b, events) <==> HarmlessRun(a, events)
  {
    hide LazyRun, EagerRun, HarmlessAt, Requests, Equiv, CountableRun, Checked, InOrder;
    LazyIsEager(a, b, events, from);
    if HarmlessRun(a, events) {
      assert LazyRun(a, events) == EagerRun(b, events);
    }
  }
}
