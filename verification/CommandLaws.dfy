/**
 What every command keeps (`ExecSane`), and what it does on two stores that differ in expired leftovers
 only (`ExecEquiv`).
 */
module CommandLaws {
  import opened Common
  import Decimal
  import opened Objects
  import opened StoreSpec
  import opened Commands
  import opened Resp
  import RespCodec

  // ---- what every command keeps ---------------------------------------------------------

  lemma {:induction false} PutPairsSane(args: seq<Value>, i: nat, st: Store)
    requires Sane(st)
    ensures Sane(PutPairs(args, i, st))
    decreases |args| - i
  {
    if i + 1 < |args| {
      CreatedIsWellFormed(Commands.Text(args[i + 1]));
      PutPairsSane(args, i + 2, Put(st, Commands.Text(args[i]), CreateString(Commands.Text(args[i + 1]))));
    }
  }

  lemma {:induction false} FetchAllSane(args: seq<Value>, i: nat, st: Store, now: int, sofar: seq<Value>)
    requires Sane(st)
    ensures Sane(FetchAll(args, i, st, now, sofar).store)
    decreases |args| - i
  {
    if i < |args| {
      var (s, o) := Fetch(st, Commands.Text(args[i]), now);
      FetchAllSane(args, i + 1, s, now, sofar + [BulkOrNil(o)]);
    }
  }

  lemma {:induction false} DeleteAllSane(args: seq<Value>, i: nat, st: Store, n: nat)
    requires Sane(st)
    ensures Sane(DeleteAll(args, i, st, n).0)
    decreases |args| - i
  {
    if i < |args| {
      var k := Commands.Text(args[i]);
      DeleteAllSane(args, i + 1, Purge(st, k), if k in st.vals then n + 1 else n);
    }
  }

  lemma {:induction false} CountAllSane(args: seq<Value>, i: nat, st: Store, now: int, n: nat)
    requires Sane(st)
    ensures Sane(CountAll(args, i, st, now, n).0)
    decreases |args| - i
  {
    if i < |args| {
      var (s, o) := Fetch(st, Commands.Text(args[i]), now);
      CountAllSane(args, i + 1, s, now, if o.Some? then n + 1 else n);
    }
  }

  lemma {:induction false} FetchSane(st: Store, k: Key, now: int)
    requires Sane(st)
    ensures var (s, o) := Fetch(st, k, now);
            Sane(s) && (o.Some? ==> WellFormed(o.value) && k in s.vals)
  {
  }

  lemma {:induction false} PutSane(st: Store, k: Key, o: Object)
    requires Sane(st) && WellFormed(o)
    ensures Sane(Put(st, k, o)) && k in Put(st, k, o).vals
  {
  }

  lemma {:induction false} WriteSane(key: Key, val: bytes, st: Store, now: int)
    requires Sane(st)
    ensures Sane(ExecGetSet(key, val, st, now).store) && Sane(ExecSetNx(key, val, st, now).store)
    ensures Sane(ExecAppend(key, val, st, now).store)
  {
    var (s, prev) := Fetch(st, key, now);
    FetchSane(st, key, now);
    var all := if prev.Some? then Objects.Text(prev.value) + val else val;
    CreatedIsWellFormed(val);
    CreatedIsWellFormed(all);
    PutSane(s, key, CreateString(val));
    PutSane(s, key, CreateString(all));
  }

  lemma {:induction false} SetSane(args: seq<Value>, st: Store, now: int)
    requires Sane(st) && |args| >= 3
    ensures Sane(ExecSet(args, st, now).store)
  {
    var key, obj := Commands.Text(args[1]), CreateString(Commands.Text(args[2]));
    FetchSane(st, key, now);
    CreatedIsWellFormed(Commands.Text(args[2]));
    PutSane(Fetch(st, key, now).0, key, obj);
  }

  lemma {:induction false} OtherSane(args: seq<Value>, key: Key, delta: i64, base: int, unit: int,
                                     msg: string, st: Store, now: int)
    requires Sane(st)
    ensures Sane(AddTo(key, delta, st, now).store) && Sane(SubtractFrom(key, delta, st, now).store)
    ensures Sane(ExecPersist(key, st, now).store)
    ensures |args| == 3 ==> Sane(ExecExpire(args, base, unit, st, now).store)
    ensures |args| == 4 ==> Sane(ExecSetEx(args, unit, msg, st, now).store)
  {
    var (s, prev) := Fetch(st, key, now);
    FetchSane(st, key, now);
    if |args| == 3 { FetchSane(st, Commands.Text(args[1]), now); }
    if |args| == 4 {
      CreatedIsWellFormed(Commands.Text(args[3]));
      PutSane(st, Commands.Text(args[1]), CreateString(Commands.Text(args[3])));
    }
  }

  lemma {:induction false} RenameSane(key: Key, newKey: Key, st: Store, now: int)
    requires Sane(st)
    ensures Sane(ExecRename(key, newKey, st, now).store)
  {
    var (s, o) := Fetch(st, key, now);
    FetchSane(st, key, now);
    if o.Some? {
      var copy := if o.value.IntEncoded? then o.value else CreateString(o.value.content);
      if !o.value.IntEncoded? { CreatedIsWellFormed(o.value.content); }
      PutSane(Purge(s, key), newKey, copy);
    }
  }

  lemma {:induction false} StringSane(c: Command, args: seq<Value>, st: Store, env: Env)
    requires ArityOk(c, |args|) && IsString(c) && Sane(st)
    ensures Sane(ExecString(c, args, st, env).store)
  {
    hide Fetch, ExecSet, ExecSetEx, ExecAppend, ExecGetSet, ExecSetNx, FetchAll, PutPairs, Commands.Text, Objects.Text;
    var now := env.now;
    var key := if |args| > 1 then Commands.Text(args[1]) else [];
    var val := if |args| > 2 then Commands.Text(args[2]) else [];
    match c
    case CSet => SetSane(args, st, now);
    case CGet => FetchSane(st, key, now);
    case CGetSet => WriteSane(key, val, st, now);
    case CMSet => PutPairsSane(args, 1, st);
    case CMGet => FetchAllSane(args, 1, st, now, []);
    case CAppend => WriteSane(key, val, st, now);
    case CStrLen => FetchSane(st, key, now);
    case CSetEx => OtherSane(args, key, 0, now, 1000, "invalid expire time in 'setex' command", st, now);
    case CPSetEx => OtherSane(args, key, 0, now, 1, "invalid expire time in 'psetex' command", st, now);
    case CSetNx => WriteSane(key, val, st, now);
  }

  lemma {:induction false} CounterSane(c: Command, args: seq<Value>, st: Store, env: Env)
    requires ArityOk(c, |args|) && IsCounter(c) && Sane(st)
    ensures Sane(ExecCounter(c, args, st, env).store)
  {
    hide AddTo, SubtractFrom, Commands.Text, Decimal.FromChars;
    var now := env.now;
    var key := if |args| > 1 then Commands.Text(args[1]) else [];
    match c
    case CIncr => OtherSane(args, key, 1, now, 1, "", st, now);
    case CIncrBy => if Number(args[2]).Some? { OtherSane(args, key, Number(args[2]).value, now, 1, "", st, now); }
    case CDecr => OtherSane(args, key, -1, now, 1, "", st, now);
    case CDecrBy => if Number(args[2]).Some? { OtherSane(args, key, Number(args[2]).value, now, 1, "", st, now); }
  }

  lemma {:induction false} KeySane(c: Command, args: seq<Value>, st: Store, env: Env)
    requires ArityOk(c, |args|) && IsKey(c) && Sane(st)
    ensures Sane(ExecKey(c, args, st, env).store)
  {
    hide ExecExpire, ExecPersist, ExecRename, CountAll, DeleteAll, Matching, Pttl, Commands.Text;
    var now := env.now;
    var key := if |args| > 1 then Commands.Text(args[1]) else [];
    var val := if |args| > 2 then Commands.Text(args[2]) else [];
    match c
    case CDel => DeleteAllSane(args, 1, st, 0);
    case CExists => CountAllSane(args, 1, st, now, 0);
    case CExpire => OtherSane(args, key, 0, now, 1000, "", st, now);
    case CPExpire => OtherSane(args, key, 0, now, 1, "", st, now);
    case CExpireAt => OtherSane(args, key, 0, 0, 1000, "", st, now);
    case CPersist => OtherSane(args, key, 0, now, 1, "", st, now);
    case CRename => RenameSane(key, val, st, now);
    case _ =>
  }

  lemma {:induction false} ServerSane(c: Command, args: seq<Value>, st: Store, env: Env)
    requires ArityOk(c, |args|) && IsServer(c) && Sane(st)
    ensures Sane(ExecServer(c, args, st, env).store)
  {
  }

  /** At every command boundary deadlines belong to stored keys and objects are well formed. */
  lemma {:induction false} ExecSane(c: Command, args: seq<Value>, st: Store, env: Env)
    requires ArityOk(c, |args|) && Sane(st)
    ensures Sane(Exec(c, args, st, env).store)
  {
    hide ExecString, ExecCounter, ExecKey, ExecServer, Sane;
    if IsString(c) { StringSane(c, args, st, env); }
    if IsCounter(c) { CounterSane(c, args, st, env); }
    if IsKey(c) { KeySane(c, args, st, env); }
    if IsServer(c) { ServerSane(c, args, st, env); }
  }

  // ---- commands cannot tell equivalent stores apart -------------------------------------

  /** Same reply, and the stores stay indistinguishable. */
  ghost predicate SameResult(x: Result, y: Result, now: int) {
    x.reply == y.reply && Equiv(x.store, y.store, now)
  }

  lemma {:induction false} PutPairsEquiv(args: seq<Value>, i: nat, a: Store, b: Store, now: int)
    requires Equiv(a, b, now)
    ensures Equiv(PutPairs(args, i, a), PutPairs(args, i, b), now)
    decreases |args| - i
  {
    if i + 1 < |args| {
      var k, o := Commands.Text(args[i]), CreateString(Commands.Text(args[i + 1]));
      PutEquiv(a, b, k, o, now);
      PutPairsEquiv(args, i + 2, Put(a, k, o), Put(b, k, o), now);
    }
  }

  lemma {:induction false} FetchAllEquiv(args: seq<Value>, i: nat, a: Store, b: Store, now: int, sofar: seq<Value>)
    requires Equiv(a, b, now)
    ensures SameResult(FetchAll(args, i, a, now, sofar), FetchAll(args, i, b, now, sofar), now)
    decreases |args| - i
  {
    if i < |args| {
      var k := Commands.Text(args[i]);
      FetchEquiv(a, b, k, now);
      FetchAllEquiv(args, i + 1, Fetch(a, k, now).0, Fetch(b, k, now).0, now, sofar + [BulkOrNil(Fetch(a, k, now).1)]);
    }
  }

  lemma {:induction false} CountAllEquiv(args: seq<Value>, i: nat, a: Store, b: Store, now: int, n: nat)
    requires Equiv(a, b, now)
    ensures CountAll(args, i, a, now, n).1 == CountAll(args, i, b, now, n).1
    ensures Equiv(CountAll(args, i, a, now, n).0, CountAll(args, i, b, now, n).0, now)
    decreases |args| - i
  {
    if i < |args| {
      var k := Commands.Text(args[i]);
      FetchEquiv(a, b, k, now);
      CountAllEquiv(args, i + 1, Fetch(a, k, now).0, Fetch(b, k, now).0, now,
                    if Fetch(a, k, now).1.Some? then n + 1 else n);
    }
  }

  lemma {:induction false} LiveEquiv(a: Store, b: Store, k: Key, now: int)
    requires Equiv(a, b, now)
    ensures LiveKey(a, k, now) == LiveKey(b, k, now)
  {
    FetchEquiv(a, b, k, now);
  }

  lemma {:induction false} MatchingEquiv(order: seq<Key>, p: bytes, a: Store, b: Store, now: int)
    requires Equiv(a, b, now)
    ensures Matching(order, p, a, now) == Matching(order, p, b, now)
  {
    if order != [] {
      LiveEquiv(a, b, order[0], now);
      MatchingEquiv(order[1..], p, a, b, now);
    }
  }

  /** After a successful access the key is live in both stores. */
  lemma {:induction false} FetchedLive(a: Store, k: Key, now: int)
    requires Fetch(a, k, now).1.Some?
    ensures LiveKey(Fetch(a, k, now).0, k, now)
  {
  }

  lemma {:induction false} PutLive(a: Store, k: Key, o: Object, now: int)
    ensures LiveKey(Put(a, k, o), k, now)
  {
  }

  lemma {:induction false} SetEquiv(args: seq<Value>, a: Store, b: Store, now: int)
    requires Equiv(a, b, now) && |args| >= 3
    ensures SameResult(ExecSet(args, a, now), ExecSet(args, b, now), now)
  {
    hide Put, Fetch, ParseSetOptions, Canon, LiveKey, SetExpire;
    var key, obj := Commands.Text(args[1]), CreateString(Commands.Text(args[2]));
    var x, y := Fetch(a, key, now).0, Fetch(b, key, now).0;
    FetchEquiv(a, b, key, now);
    PutEquiv(x, y, key, obj, now);
    PutLive(x, key, obj, now);
    PutLive(y, key, obj, now);
    var o := ParseSetOptions(args, 3, SetOptions(-1, false, false));
    if o.SetOptions? { DeadlineEquiv(Put(x, key, obj), Put(y, key, obj), key, now + o.expireMs, now); }
  }

  lemma {:induction false} WriteEquiv(key: Key, val: bytes, a: Store, b: Store, now: int)
    requires Equiv(a, b, now)
    ensures SameResult(ExecGetSet(key, val, a, now), ExecGetSet(key, val, b, now), now)
    ensures SameResult(ExecSetNx(key, val, a, now), ExecSetNx(key, val, b, now), now)
    ensures SameResult(ExecAppend(key, val, a, now), ExecAppend(key, val, b, now), now)
  {
    hide Put, Fetch, Canon, LiveKey, CreateString;
    var x, y, prev := Fetch(a, key, now).0, Fetch(b, key, now).0, Fetch(a, key, now).1;
    var all := if prev.Some? then Objects.Text(prev.value) + val else val;
    FetchEquiv(a, b, key, now);
    PutEquiv(x, y, key, CreateString(val), now);
    PutEquiv(x, y, key, CreateString(all), now);
  }

  lemma {:induction false} AddEquiv(key: Key, delta: i64, a: Store, b: Store, now: int)
    requires Equiv(a, b, now)
    ensures SameResult(AddTo(key, delta, a, now), AddTo(key, delta, b, now), now)
    ensures SameResult(SubtractFrom(key, delta, a, now), SubtractFrom(key, delta, b, now), now)
  {
    hide Put, Fetch, Canon, LiveKey, RespCodec.Cast;
    FetchEquiv(a, b, key, now);
    var n := IntegerOf(Fetch(a, key, now).1);
    if n.Some? {
      PutEquiv(Fetch(a, key, now).0, Fetch(b, key, now).0, key, IntEncoded(RespCodec.Cast(n.value - delta)), now);
    }
    if n.Some? && I64_MIN <= n.value + delta <= I64_MAX {
      PutEquiv(Fetch(a, key, now).0, Fetch(b, key, now).0, key, IntEncoded(n.value + delta), now);
    }
  }

  lemma {:induction false} SetExEquiv(args: seq<Value>, unit: int, msg: string, a: Store, b: Store, now: int)
    requires Equiv(a, b, now) && |args| == 4
    ensures SameResult(ExecSetEx(args, unit, msg, a, now), ExecSetEx(args, unit, msg, b, now), now)
  {
    hide Put, Canon, LiveKey, SetExpire;
    var key, obj := Commands.Text(args[1]), CreateString(Commands.Text(args[3]));
    PutEquiv(a, b, key, obj, now);
    PutLive(a, key, obj, now);
    PutLive(b, key, obj, now);
    if Number(args[2]).Some? {
      DeadlineEquiv(Put(a, key, obj), Put(b, key, obj), key, now + Number(args[2]).value * unit, now);
    }
  }

  lemma {:induction false} ExpireEquiv(args: seq<Value>, base: int, unit: int, a: Store, b: Store, now: int)
    requires Equiv(a, b, now) && |args| == 3
    ensures SameResult(ExecExpire(args, base, unit, a, now), ExecExpire(args, base, unit, b, now), now)
  {
    hide Fetch, Canon, LiveKey, SetExpire;
    var key := Commands.Text(args[1]);
    FetchEquiv(a, b, key, now);
    if Number(args[2]).Some? && Fetch(a, key, now).1.Some? {
      FetchedLive(a, key, now);
      FetchedLive(b, key, now);
      DeadlineEquiv(Fetch(a, key, now).0, Fetch(b, key, now).0, key, base + Number(args[2]).value * unit, now);
    }
  }

  lemma {:induction false} PersistEquiv(key: Key, a: Store, b: Store, now: int)
    requires Equiv(a, b, now)
    ensures SameResult(ExecPersist(key, a, now), ExecPersist(key, b, now), now)
  {
    hide Fetch, Canon, LiveKey, RemoveExpire;
    FetchEquiv(a, b, key, now);
    if Fetch(a, key, now).1.Some? {
      FetchedLive(a, key, now);
      FetchedLive(b, key, now);
      DeadlineEquiv(Fetch(a, key, now).0, Fetch(b, key, now).0, key, 0, now);
    }
  }

  lemma {:induction false} RenameEquiv(key: Key, newKey: Key, a: Store, b: Store, now: int)
    requires Equiv(a, b, now)
    ensures SameResult(ExecRename(key, newKey, a, now), ExecRename(key, newKey, b, now), now)
  {
    hide Fetch, Canon, LiveKey, Put, Purge;
    var x, y, o := Fetch(a, key, now).0, Fetch(b, key, now).0, Fetch(a, key, now).1;
    FetchEquiv(a, b, key, now);
    if o.Some? {
      var copy := if o.value.IntEncoded? then o.value else CreateString(o.value.content);
      PurgeEquiv(x, y, key, now);
      PutEquiv(Purge(x, key), Purge(y, key), newKey, copy, now);
    }
  }

  /** The commands whose replies do not depend on expired leftovers. */
  predicate Transparent(c: Command) {
    c != CDel && c != CTtl && c != CPTtl && c != CDbSize && c != CInfo
  }

  lemma {:induction false} DeleteAllEquiv(args: seq<Value>, i: nat, a: Store, b: Store, now: int, n: nat, m: nat)
    requires Equiv(a, b, now)
    ensures Equiv(DeleteAll(args, i, a, n).0, DeleteAll(args, i, b, m).0, now)
    decreases |args| - i
  {
    hide Canon, Purge;
    if i < |args| {
      var k := Commands.Text(args[i]);
      PurgeEquiv(a, b, k, now);
      DeleteAllEquiv(args, i + 1, Purge(a, k), Purge(b, k), now,
                     if k in a.vals then n + 1 else n, if k in b.vals then m + 1 else m);
    }
  }

  lemma {:induction false} StringEquiv(c: Command, args: seq<Value>, a: Store, b: Store, env: Env)
    requires ArityOk(c, |args|) && IsString(c) && Equiv(a, b, env.now)
    ensures Equiv(ExecString(c, args, a, env).store, ExecString(c, args, b, env).store, env.now)
    ensures Transparent(c) ==> ExecString(c, args, a, env).reply == ExecString(c, args, b, env).reply
  {
    hide Fetch, Canon, ExecSet, ExecSetEx, ExecAppend, ExecGetSet, ExecSetNx, FetchAll, PutPairs;
    hide Commands.Text, Objects.Text, Equiv;
    var now := env.now;
    var key := if |args| > 1 then Commands.Text(args[1]) else [];
    var val := if |args| > 2 then Commands.Text(args[2]) else [];
    match c
    case CSet => SetEquiv(args, a, b, now);
    case CGet => FetchEquiv(a, b, key, now);
    case CGetSet => WriteEquiv(key, val, a, b, now);
    case CMSet => PutPairsEquiv(args, 1, a, b, now);
    case CMGet => FetchAllEquiv(args, 1, a, b, now, []);
    case CAppend => WriteEquiv(key, val, a, b, now);
    case CStrLen => FetchEquiv(a, b, key, now);
    case CSetEx => SetExEquiv(args, 1000, "invalid expire time in 'setex' command", a, b, now);
    case CPSetEx => SetExEquiv(args, 1, "invalid expire time in 'psetex' command", a, b, now);
    case CSetNx => WriteEquiv(key, val, a, b, now);
  }

  lemma {:induction false} CounterEquiv(c: Command, args: seq<Value>, a: Store, b: Store, env: Env)
    requires ArityOk(c, |args|) && IsCounter(c) && Equiv(a, b, env.now)
    ensures Equiv(ExecCounter(c, args, a, env).store, ExecCounter(c, args, b, env).store, env.now)
    ensures Transparent(c) ==> ExecCounter(c, args, a, env).reply == ExecCounter(c, args, b, env).reply
  {
    hide AddTo, SubtractFrom, Commands.Text, Decimal.FromChars, Equiv;
    var now := env.now;
    var key := if |args| > 1 then Commands.Text(args[1]) else [];
    match c
    case CIncr => AddEquiv(key, 1, a, b, now);
    case CIncrBy => if Number(args[2]).Some? { AddEquiv(key, Number(args[2]).value, a, b, now); }
    case CDecr => AddEquiv(key, -1, a, b, now);
    case CDecrBy => if Number(args[2]).Some? { AddEquiv(key, Number(args[2]).value, a, b, now); }
  }

  lemma {:induction false} KeyEquiv(c: Command, args: seq<Value>, a: Store, b: Store, env: Env)
    requires ArityOk(c, |args|) && IsKey(c) && Equiv(a, b, env.now)
    ensures Equiv(ExecKey(c, args, a, env).store, ExecKey(c, args, b, env).store, env.now)
    ensures Transparent(c) ==> ExecKey(c, args, a, env).reply == ExecKey(c, args, b, env).reply
  {
    hide ExecExpire, ExecPersist, ExecRename, CountAll, DeleteAll, Matching, Pttl, Peek, Commands.Text, Equiv;
    var now := env.now;
    var key := if |args| > 1 then Commands.Text(args[1]) else [];
    var val := if |args| > 2 then Commands.Text(args[2]) else [];
    match c
    case CDel => DeleteAllEquiv(args, 1, a, b, now, 0, 0);
    case CExists => CountAllEquiv(args, 1, a, b, now, 0);
    case CType => FetchEquiv(a, b, key, now);
    case CExpire => ExpireEquiv(args, now, 1000, a, b, now);
    case CPExpire => ExpireEquiv(args, now, 1, a, b, now);
    case CExpireAt => ExpireEquiv(args, 0, 1000, a, b, now);
    case CPersist => PersistEquiv(key, a, b, now);
    case CKeys => MatchingEquiv(env.order, key, a, b, now);
    case CRename => RenameEquiv(key, val, a, b, now);
    case _ =>
  }

  lemma {:induction false} ServerEquiv(c: Command, args: seq<Value>, a: Store, b: Store, env: Env)
    requires ArityOk(c, |args|) && IsServer(c) && Equiv(a, b, env.now)
    ensures Equiv(ExecServer(c, args, a, env).store, ExecServer(c, args, b, env).store, env.now)
    ensures Transparent(c) ==> ExecServer(c, args, a, env).reply == ExecServer(c, args, b, env).reply
  {
  }

  /** Every command leaves stores that differ in expired leftovers only; a transparent one also replies alike. */
  lemma {:induction false} ExecEquiv(c: Command, args: seq<Value>, a: Store, b: Store, env: Env)
    requires ArityOk(c, |args|) && Equiv(a, b, env.now)
    ensures Equiv(Exec(c, args, a, env).store, Exec(c, args, b, env).store, env.now)
    ensures Transparent(c) ==> Exec(c, args, a, env).reply == Exec(c, args, b, env).reply
  {
    hide ExecString, ExecCounter, ExecKey, ExecServer, Equiv;
    if IsString(c) { StringEquiv(c, args, a, b, env); }
    if IsCounter(c) { CounterEquiv(c, args, a, b, env); }
    if IsKey(c) { KeyEquiv(c, args, a, b, env); }
    if IsServer(c) { ServerEquiv(c, args, a, b, env); }
  }
}
