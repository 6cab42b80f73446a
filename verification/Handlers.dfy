/** The command handlers as they run on the database; each computes its function of `Commands`. */
module Handlers {
  import opened Common
  import opened Objects
  import opened StoreSpec
  import opened Commands
  import D = DictSpec
  import DictMap
  import DictTable
  import DictScan
  import Glob
  import opened Resp
  import RespCodec
  import opened DatabaseImpl

  method HandleSet(db: Database, args: seq<Value>, now: int) returns (reply: Value)
    requires db.Valid() && |args| >= 3
    modifies db.Repr()
    ensures db.Valid() && db.Grew()
    ensures Result(db.Contents(), reply) == ExecSet(args, old(db.Contents()), now)
  {
    hide D.Step, Database.Valid, Database.Repr, Database.Contents, SetExpire, Put, Fetch, CreateString, ParseSetOptions;
    var expireMs, nx, xx, valid := SetArguments(args);
    if !valid { return Fail("invalid expire time in 'set' command"); }
    var key := Commands.Text(args[1]);
    var exists_ := db.Get(key, now);
    if nx && exists_.Some? { return Nil; }
    if xx && exists_.None? { return Nil; }
    db.Set(key, CreateString(Commands.Text(args[2])));
    if expireMs > 0 { db.Expire(key, now + expireMs); }
    return OkReply();
  }

  /** The option loop of `SET`. */
  method SetArguments(args: seq<Value>) returns (expireMs: int, nx: bool, xx: bool, valid: bool)
    ensures ParseSetOptions(args, 3, SetOptions(-1, false, false))
         == if valid then SetOptions(expireMs, nx, xx) else BadExpire("set")
  {
    hide Ascii, Upper, Number, Commands.Text;
    expireMs, nx, xx, valid := -1, false, false, true;
    var i := 3;
    while i < |args|
      invariant i >= 3
      invariant ParseSetOptions(args, i, SetOptions(expireMs, nx, xx))
             == ParseSetOptions(args, 3, SetOptions(-1, false, false))
      decreases |args| - i
    {
      var opt := Upper(Commands.Text(args[i]));
      if opt == Ascii("EX") && i + 1 < |args| {
        var secs := Number(args[i + 1]);
        if secs.None? || secs.value <= 0 { valid := false; return; }
        var n: int := secs.value;
        expireMs := n * 1000;
        i := i + 1;
      } else if opt == Ascii("PX") && i + 1 < |args| {
        var ms := Number(args[i + 1]);
        if ms.None? || ms.value <= 0 { valid := false; return; }
        expireMs := ms.value;
        i := i + 1;
      } else if opt == Ascii("NX") {
        nx := true;
      } else if opt == Ascii("XX") {
        xx := true;
      }
      i := i + 1;
    }
  }

  method HandleMSet(db: Database, args: seq<Value>) returns (reply: Value)
    requires db.Valid()
    modifies db.Repr()
    ensures db.Valid() && db.Grew()
    ensures Result(db.Contents(), reply) == ExecMSet(args, old(db.Contents()))
  {
    hide D.Step, Database.Valid, Database.Repr, Database.Contents, Put, CreateString;
    if |args| % 2 != 1 { return Fail("wrong number of arguments for MSET"); }
    var i := 1;
    while i < |args|
      invariant 1 <= i <= |args| + 1 && i % 2 == 1
      invariant db.Valid() && db.Grew()
      invariant PutPairs(args, i, db.Contents()) == PutPairs(args, 1, old(db.Contents()))
    {
      db.Set(Commands.Text(args[i]), CreateString(Commands.Text(args[i + 1])));
      i := i + 2;
    }
    return OkReply();
  }

  method HandleMGet(db: Database, args: seq<Value>, now: int) returns (reply: Value)
    requires db.Valid() && |args| >= 1
    modifies db.Repr()
    ensures db.Valid() && db.Grew()
    ensures Result(db.Contents(), reply) == FetchAll(args, 1, old(db.Contents()), now, [])
  {
    hide D.Step, Database.Valid, Database.Repr, Database.Contents, Fetch;
    var replies := [];
    var i := 1;
    while i < |args|
      invariant 1 <= i <= |args|
      invariant db.Valid() && db.Grew()
      invariant FetchAll(args, i, db.Contents(), now, replies) == FetchAll(args, 1, old(db.Contents()), now, [])
    {
      var obj := db.Get(Commands.Text(args[i]), now);
      replies := replies + [BulkOrNil(obj)];
      i := i + 1;
    }
    return Array(replies);
  }

  method HandleAppend(db: Database, key: Key, val: bytes, now: int) returns (reply: Value)
    requires db.Valid()
    modifies db.Repr()
    ensures db.Valid() && db.Grew()
    ensures Result(db.Contents(), reply) == ExecAppend(key, val, old(db.Contents()), now)
  {
    hide D.Step, Database.Valid, Database.Repr, Database.Contents, Put, Fetch, CreateString;
    var obj := db.Get(key, now);
    if obj.None? {
      db.Set(key, CreateString(val));
      return Length(val);
    }
    var current := Objects.Text(obj.value) + val;
    db.Set(key, CreateString(current));
    return Length(current);
  }

  method HandleGetSet(db: Database, key: Key, val: bytes, now: int) returns (reply: Value)
    requires db.Valid()
    modifies db.Repr()
    ensures db.Valid() && db.Grew()
    ensures Result(db.Contents(), reply) == ExecGetSet(key, val, old(db.Contents()), now)
  {
    hide D.Step, Database.Valid, Database.Repr, Database.Contents, Put, Fetch, CreateString;
    var prev := db.Get(key, now);
    reply := BulkOrNil(prev);
    db.Set(key, CreateString(val));
  }

  method HandleIncrBy(db: Database, key: Key, delta: i64, now: int) returns (reply: Value)
    requires db.Valid()
    modifies db.Repr()
    ensures db.Valid() && db.Grew()
    ensures Result(db.Contents(), reply) == AddTo(key, delta, old(db.Contents()), now)
  {
    hide D.Step, Database.Valid, Database.Repr, Database.Contents, Put, Fetch, IntegerOf, Ascii;
    var obj := db.Get(key, now);
    var current := IntegerOf(obj);
    if current.None? { return Fail(NOT_AN_INTEGER); }
    if (delta > 0 && current.value > I64_MAX - delta) || (delta < 0 && current.value < I64_MIN - delta) {
      return Fail(OVERFLOW);
    }
    var newVal := current.value + delta;
    db.Set(key, IntEncoded(newVal));
    return Integer(newVal);
  }

  method HandleDecrBy(db: Database, key: Key, delta: i64, now: int) returns (reply: Value)
    requires db.Valid()
    modifies db.Repr()
    ensures db.Valid() && db.Grew()
    ensures Result(db.Contents(), reply) == SubtractFrom(key, delta, old(db.Contents()), now)
  {
    hide D.Step, Database.Valid, Database.Repr, Database.Contents, Put, Fetch, IntegerOf, Ascii, RespCodec.Cast;
    var obj := db.Get(key, now);
    var current := IntegerOf(obj);
    if current.None? { return Fail(NOT_AN_INTEGER); }
    var newVal := RespCodec.Cast(current.value - delta);
    db.Set(key, IntEncoded(newVal));
    return Integer(newVal);
  }

  /** `INCR` refuses the largest integer only. */
  method HandleIncr(db: Database, key: Key, now: int) returns (reply: Value)
    requires db.Valid()
    modifies db.Repr()
    ensures db.Valid() && db.Grew()
    ensures Result(db.Contents(), reply) == AddTo(key, 1, old(db.Contents()), now)
  {
    hide D.Step, Database.Valid, Database.Repr, Database.Contents, Put, Fetch, IntegerOf, Ascii;
    var obj := db.Get(key, now);
    var current := IntegerOf(obj);
    if current.None? { return Fail(NOT_AN_INTEGER); }
    if current.value == I64_MAX { return Fail(OVERFLOW); }
    var newVal := current.value + 1;
    db.Set(key, IntEncoded(newVal));
    return Integer(newVal);
  }

  /** `DECR` refuses the smallest integer only. */
  method HandleDecr(db: Database, key: Key, now: int) returns (reply: Value)
    requires db.Valid()
    modifies db.Repr()
    ensures db.Valid() && db.Grew()
    ensures Result(db.Contents(), reply) == AddTo(key, -1, old(db.Contents()), now)
  {
    hide D.Step, Database.Valid, Database.Repr, Database.Contents, Put, Fetch, IntegerOf, Ascii;
    var obj := db.Get(key, now);
    var current := IntegerOf(obj);
    if current.None? { return Fail(NOT_AN_INTEGER); }
    if current.value == I64_MIN { return Fail(OVERFLOW); }
    var newVal := current.value - 1;
    db.Set(key, IntEncoded(newVal));
    return Integer(newVal);
  }

  /** `SETEX` with `unit` 1000, `PSETEX` with `unit` 1. */
  method HandleSetEx(db: Database, args: seq<Value>, unit: int, message: string, now: int) returns (reply: Value)
    requires db.Valid() && |args| == 4
    modifies db.Repr()
    ensures db.Valid() && db.Grew()
    ensures Result(db.Contents(), reply) == ExecSetEx(args, unit, message, old(db.Contents()), now)
  {
    hide D.Step, Database.Valid, Database.Repr, Database.Contents, Put, SetExpire, CreateString;
    var n := Number(args[2]);
    if n.None? || n.value <= 0 { return Fail(message); }
    var key := Commands.Text(args[1]);
    db.Set(key, CreateString(Commands.Text(args[3])));
    db.Expire(key, now + n.value * unit);
    return OkReply();
  }

  method HandleSetNx(db: Database, key: Key, val: bytes, now: int) returns (reply: Value)
    requires db.Valid()
    modifies db.Repr()
    ensures db.Valid() && db.Grew()
    ensures Result(db.Contents(), reply) == ExecSetNx(key, val, old(db.Contents()), now)
  {
    hide D.Step, Database.Valid, Database.Repr, Database.Contents, Put, Fetch, CreateString;
    var prev := db.Get(key, now);
    if prev.Some? { return Integer(0); }
    db.Set(key, CreateString(val));
    return Integer(1);
  }

  method HandleDel(db: Database, args: seq<Value>) returns (reply: Value)
    requires db.Valid() && |args| >= 1
    modifies db.Repr()
    ensures db.Valid() && db.Grew()
    ensures (db.Contents(), reply) == (DeleteAll(args, 1, old(db.Contents()), 0).0,
                                       Count(DeleteAll(args, 1, old(db.Contents()), 0).1))
  {
    hide D.Step, Database.Valid, Database.Repr, Database.Contents, Purge;
    var deleted: nat := 0;
    var i := 1;
    while i < |args|
      invariant 1 <= i <= |args|
      invariant db.Valid() && db.Grew()
      invariant DeleteAll(args, i, db.Contents(), deleted) == DeleteAll(args, 1, old(db.Contents()), 0)
    {
      var existed := db.Del(Commands.Text(args[i]));
      if existed { deleted := deleted + 1; }
      i := i + 1;
    }
    return Count(deleted);
  }

  method HandleExists(db: Database, args: seq<Value>, now: int) returns (reply: Value)
    requires db.Valid() && |args| >= 1
    modifies db.Repr()
    ensures db.Valid() && db.Grew()
    ensures (db.Contents(), reply) == (CountAll(args, 1, old(db.Contents()), now, 0).0,
                                       Count(CountAll(args, 1, old(db.Contents()), now, 0).1))
  {
    hide D.Step, Database.Valid, Database.Repr, Database.Contents, Fetch;
    var count: nat := 0;
    var i := 1;
    while i < |args|
      invariant 1 <= i <= |args|
      invariant db.Valid() && db.Grew()
      invariant CountAll(args, i, db.Contents(), now, count) == CountAll(args, 1, old(db.Contents()), now, 0)
    {
      var obj := db.Get(Commands.Text(args[i]), now);
      if obj.Some? { count := count + 1; }
      i := i + 1;
    }
    return Count(count);
  }

  /** `EXPIRE`, `PEXPIRE` and `EXPIREAT`. */
  method HandleExpire(db: Database, args: seq<Value>, base: int, unit: int, now: int) returns (reply: Value)
    requires db.Valid() && |args| == 3
    modifies db.Repr()
    ensures db.Valid() && db.Grew()
    ensures Result(db.Contents(), reply) == ExecExpire(args, base, unit, old(db.Contents()), now)
  {
    hide D.Step, Database.Valid, Database.Repr, Database.Contents, SetExpire, Fetch;
    var n := Number(args[2]);
    if n.None? { return Fail(NOT_AN_INTEGER); }
    var key := Commands.Text(args[1]);
    var obj := db.Get(key, now);
    if obj.None? { return Integer(0); }
    db.Expire(key, base + n.value * unit);
    return Integer(1);
  }

  method HandlePersist(db: Database, key: Key, now: int) returns (reply: Value)
    requires db.Valid()
    modifies db.Repr()
    ensures db.Valid() && db.Grew()
    ensures Result(db.Contents(), reply) == ExecPersist(key, old(db.Contents()), now)
  {
    hide D.Step, Database.Valid, Database.Repr, Database.Contents, RemoveExpire, Fetch;
    var obj := db.Get(key, now);
    if obj.None? { return Integer(0); }
    db.Persist(key);
    return Integer(1);
  }

  method HandleRename(db: Database, key: Key, newKey: Key, now: int) returns (reply: Value)
    requires db.Valid()
    modifies db.Repr()
    ensures db.Valid() && db.Grew()
    ensures Result(db.Contents(), reply) == ExecRename(key, newKey, old(db.Contents()), now)
  {
    hide D.Step, Database.Valid, Database.Repr, Database.Contents, Put, Purge, Fetch, CreateString;
    var obj := db.Get(key, now);
    if obj.None? { return Fail("no such key"); }
    var copy := if obj.value.IntEncoded? then obj.value else CreateString(obj.value.content);
    var _ := db.Del(key);
    db.Set(newKey, copy);
    return OkReply();
  }

  // ---- KEYS -----------------------------------------------------------------------------

  /** The bulk strings of the entries that match. */
  function MatchEntries(c: DictTable.Chain<Object>, p: bytes): seq<Value> {
    if c == [] then []
    else (if Glob.Matches(p, c[0].key) then [BulkString(c[0].key)] else []) + MatchEntries(c[1..], p)
  }

  lemma {:induction false} MatchingIsFilter(c: DictTable.Chain<Object>, p: bytes, st: Store, now: int)
    requires forall e | e in c :: e.key in st.vals
    ensures Matching(KeysOf(c), p, st, now) == MatchEntries(LiveEntries(c, st, now), p)
  {
    if c != [] {
      assert KeysOf(c)[1..] == KeysOf(c[1..]);
      assert c[0] in c;
      MatchingIsFilter(c[1..], p, st, now);
      var rest := LiveEntries(c[1..], st, now);
      assert ([c[0]] + rest)[1..] == rest && [] + rest == rest;
    }
  }

  method HandleKeys(db: Database, pattern: bytes, now: int) returns (reply: Value)
    requires db.Valid()
    ensures reply == Array(Matching(db.Order(), pattern, db.Contents(), now))
  {
    hide Database.Repr, DictMap.Contents, D.Ok, Canon, LiveEntries, Enumerates;
    db.OrderEnumerates();
    MatchingIsFilter(DictScan.Entries(db.keys.State()), pattern, db.Contents(), now);
    var visited := db.ForEach(now);
    var matches := MatchVisited(visited, pattern);
    return Array(matches);
  }

  lemma {:induction false} MatchEntriesStep(a: seq<Value>, c: DictTable.Chain<Object>, p: bytes)
    requires c != []
    ensures a + MatchEntries(c, p)
         == (if Glob.Matches(p, c[0].key) then a + [BulkString(c[0].key)] else a) + MatchEntries(c[1..], p)
  {
    hide Glob.Matches;
  }

  method MatchVisited(visited: DictTable.Chain<Object>, pattern: bytes) returns (matches: seq<Value>)
    ensures matches == MatchEntries(visited, pattern)
  {
    hide Glob.Matches;
    matches := [];
    var i := 0;
    while i < |visited|
      invariant 0 <= i <= |visited|
      invariant MatchEntries(visited, pattern) == matches + MatchEntries(visited[i..], pattern)
    {
      MatchEntriesStep(matches, visited[i..], pattern);
      assert visited[i..][1..] == visited[i + 1..];
      var matched := Glob.GlobMatch(pattern, visited[i].key);
      if matched { matches := matches + [BulkString(visited[i].key)]; }
      i := i + 1;
    }
    assert visited[i..] == [];
  }

  // ---- one command ----------------------------------------------------------------------

  /** The commands on string values. */
  method ExecuteString(c: Command, db: Database, args: seq<Value>, now: int, ghost report: Report)
    returns (reply: Value)
    requires db.Valid() && ArityOk(c, |args|)
    requires IsString(c)
    modifies db.Repr()
    ensures db.Valid() && db.Grew()
    ensures Result(db.Contents(), reply) == ExecString(c, args, old(db.Contents()), Env(now, old(db.Order()), report))
  {
    hide D.Step, Database.Valid, Database.Repr, Database.Contents, Database.Order;
    hide Fetch, ExecSet, ExecGetSet, ExecMSet, FetchAll, ExecAppend, ExecSetEx, ExecSetNx;
    match c
    case CSet => reply := HandleSet(db, args, now);
    case CGet =>
      var obj := db.Get(Commands.Text(args[1]), now);
      reply := BulkOrNil(obj);
    case CGetSet => reply := HandleGetSet(db, Commands.Text(args[1]), Commands.Text(args[2]), now);
    case CMSet => reply := HandleMSet(db, args);
    case CMGet => reply := HandleMGet(db, args, now);
    case CAppend => reply := HandleAppend(db, Commands.Text(args[1]), Commands.Text(args[2]), now);
    case CStrLen =>
      var obj := db.Get(Commands.Text(args[1]), now);
      reply := if obj.Some? then Length(Objects.Text(obj.value)) else Integer(0);
    case CSetEx => reply := HandleSetEx(db, args, 1000, "invalid expire time in 'setex' command", now);
    case CPSetEx => reply := HandleSetEx(db, args, 1, "invalid expire time in 'psetex' command", now);
    case CSetNx => reply := HandleSetNx(db, Commands.Text(args[1]), Commands.Text(args[2]), now);
  }

  /** The counters. */
  method ExecuteCounter(c: Command, db: Database, args: seq<Value>, now: int, ghost report: Report)
    returns (reply: Value)
    requires db.Valid() && ArityOk(c, |args|) && IsCounter(c)
    modifies db.Repr()
    ensures db.Valid() && db.Grew()
    ensures Result(db.Contents(), reply) == ExecCounter(c, args, old(db.Contents()), Env(now, old(db.Order()), report))
  {
    hide D.Step, Database.Valid, Database.Repr, Database.Contents, Database.Order, AddTo, SubtractFrom;
    match c
    case CIncr => reply := HandleIncr(db, Commands.Text(args[1]), now);
    case CDecr => reply := HandleDecr(db, Commands.Text(args[1]), now);
    case CIncrBy =>
      var n := Number(args[2]);
      if n.None? { return Fail(NOT_AN_INTEGER); }
      reply := HandleIncrBy(db, Commands.Text(args[1]), n.value, now);
    case CDecrBy =>
      var n := Number(args[2]);
      if n.None? { return Fail(NOT_AN_INTEGER); }
      reply := HandleDecrBy(db, Commands.Text(args[1]), n.value, now);
  }

  /** The commands on keys. */
  method ExecuteKey(c: Command, db: Database, args: seq<Value>, now: int, ghost report: Report)
    returns (reply: Value)
    requires db.Valid() && ArityOk(c, |args|)
    requires IsKey(c)
    modifies db.Repr()
    ensures db.Valid() && db.Grew()
    ensures Result(db.Contents(), reply) == ExecKey(c, args, old(db.Contents()), Env(now, old(db.Order()), report))
  {
    hide D.Step, Database.Valid, Database.Repr, Database.Contents, Database.Order;
    hide DeleteAll, CountAll, ExecExpire, ExecPersist, ExecRename, Peek, Pttl, Matching;
    match c
    case CDel => reply := HandleDel(db, args);
    case CExists => reply := HandleExists(db, args, now);
    case CType =>
      var obj := db.PeekAt(Commands.Text(args[1]), now);
      reply := SimpleString(Ascii(if obj.Some? then "string" else "none"));
    case CExpire => reply := HandleExpire(db, args, now, 1000, now);
    case CPExpire => reply := HandleExpire(db, args, now, 1, now);
    case CExpireAt => reply := HandleExpire(db, args, 0, 1000, now);
    case CTtl =>
      var ms := db.RemainingMs(Commands.Text(args[1]), now);
      reply := Count(if ms < 0 then ms else ms / 1000);
    case CPTtl =>
      var ms := db.RemainingMs(Commands.Text(args[1]), now);
      reply := Count(ms);
    case CPersist => reply := HandlePersist(db, Commands.Text(args[1]), now);
    case CKeys => reply := HandleKeys(db, Commands.Text(args[1]), now);
    case CRename => reply := HandleRename(db, Commands.Text(args[1]), Commands.Text(args[2]), now);
    case CDbSize =>
      var n := db.Size();
      reply := Count(n);
  }

  /** The commands on the server itself. What `QUIT` does to the connection is left to the dispatcher; that
      saving leaves the contents alone is the contract of `RdbImpl.SaveSync`. */
  method ExecuteServer(c: Command, db: Database, args: seq<Value>, now: int, report: Report)
    returns (reply: Value)
    requires db.Valid() && ArityOk(c, |args|)
    requires IsServer(c)
    modifies db.Repr()
    ensures db.Valid() && db.Grew()
    ensures Result(db.Contents(), reply) == ExecServer(c, args, old(db.Contents()), Env(now, old(db.Order()), report))
  {
    hide D.Step, Database.Valid, Database.Repr, Database.Contents, Database.Order, Ascii;
    match c
    case CPing =>
      if |args| == 1 { return SimpleString(Ascii("PONG")); }
      return BulkString(Commands.Text(args[1]));
    case CEcho => return BulkString(Commands.Text(args[1]));
    case CFlushDb =>
      db.Flush();
      return OkReply();
    case CSelect =>
      var index := Number(args[1]);
      return if index == Some(0) then OkReply() else Fail("DB index is out of range");
    case CQuit => return OkReply();
    case CInfo =>
      var n := db.Size();
      return BulkString(InfoText(report.info, n));
    case CSave => return Reported(report.save, OkReply());
    case CBgSave => return Reported(report.fork, SimpleString(Ascii("Background saving started")));
  }

  /** Runs the handler registered for `c`. */
  method Execute(c: Command, db: Database, args: seq<Value>, now: int, report: Report) returns (reply: Value)
    requires db.Valid() && ArityOk(c, |args|)
    modifies db.Repr()
    ensures db.Valid() && db.Grew()
    ensures Result(db.Contents(), reply) == Exec(c, args, old(db.Contents()), Env(now, old(db.Order()), report))
  {
    hide D.Step, Database.Valid, Database.Repr, Database.Contents, Database.Order;
    hide ExecString, ExecCounter, ExecKey, ExecServer;
    if IsString(c) {
      reply := ExecuteString(c, db, args, now, report);
    } else if IsCounter(c) {
      reply := ExecuteCounter(c, db, args, now, report);
    } else if IsKey(c) {
      reply := ExecuteKey(c, db, args, now, report);
    } else {
      reply := ExecuteServer(c, db, args, now, report);
    }
  }
}
