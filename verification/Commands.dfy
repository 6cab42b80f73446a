/** The commands as functions from a store to a store and a reply. */
module Commands {
  import opened Common
  import opened Decimal
  import opened Objects
  import opened StoreSpec
  import Glob
  import opened Resp
  import RespCodec

  function Ascii(s: string): bytes {
    seq(|s|, i requires 0 <= i < |s| => s[i] as int % 256)
  }

  /** `std::toupper` in the C locale. */
  function Upper(s: bytes): bytes {
    seq(|s|, i requires 0 <= i < |s| => if 97 <= s[i] <= 122 then s[i] - 32 else s[i])
  }

  datatype Command =
    | CSet | CGet | CGetSet | CMSet | CMGet | CAppend | CStrLen | CIncr | CIncrBy | CDecr | CDecrBy
    | CSetEx | CPSetEx | CSetNx
    | CDel | CExists | CType | CExpire | CPExpire | CExpireAt | CTtl | CPTtl | CPersist
    | CKeys | CRename | CDbSize
    | CPing | CEcho | CFlushDb | CSelect | CQuit | CInfo | CSave | CBgSave

  // ---- the registry ---------------------------------------------------------------------

  function FindString(n: bytes): Option<Command> {
    if n == Ascii("SET") then Some(CSet)
    else if n == Ascii("GET") then Some(CGet)
    else if n == Ascii("GETSET") then Some(CGetSet)
    else if n == Ascii("MSET") then Some(CMSet)
    else if n == Ascii("MGET") then Some(CMGet)
    else if n == Ascii("APPEND") then Some(CAppend)
    else if n == Ascii("STRLEN") then Some(CStrLen)
    else if n == Ascii("SETEX") then Some(CSetEx)
    else if n == Ascii("PSETEX") then Some(CPSetEx)
    else if n == Ascii("SETNX") then Some(CSetNx)
    else None
  }

  function FindCounter(n: bytes): Option<Command> {
    if n == Ascii("INCR") then Some(CIncr)
    else if n == Ascii("INCRBY") then Some(CIncrBy)
    else if n == Ascii("DECR") then Some(CDecr)
    else if n == Ascii("DECRBY") then Some(CDecrBy)
    else None
  }

  function FindKey(n: bytes): Option<Command> {
    if n == Ascii("DEL") then Some(CDel)
    else if n == Ascii("EXISTS") then Some(CExists)
    else if n == Ascii("TYPE") then Some(CType)
    else if n == Ascii("EXPIRE") then Some(CExpire)
    else if n == Ascii("PEXPIRE") then Some(CPExpire)
    else if n == Ascii("EXPIREAT") then Some(CExpireAt)
    else if n == Ascii("TTL") then Some(CTtl)
    else if n == Ascii("PTTL") then Some(CPTtl)
    else if n == Ascii("PERSIST") then Some(CPersist)
    else if n == Ascii("KEYS") then Some(CKeys)
    else if n == Ascii("RENAME") then Some(CRename)
    else if n == Ascii("DBSIZE") then Some(CDbSize)
    else None
  }

  function FindServer(n: bytes): Option<Command> {
    if n == Ascii("PING") then Some(CPing)
    else if n == Ascii("ECHO") then Some(CEcho)
    else if n == Ascii("FLUSHDB") then Some(CFlushDb)
    else if n == Ascii("SELECT") then Some(CSelect)
    else if n == Ascii("QUIT") then Some(CQuit)
    else if n == Ascii("INFO") then Some(CInfo)
    else if n == Ascii("SAVE") then Some(CSave)
    else if n == Ascii("BGSAVE") then Some(CBgSave)
    else None
  }

  /** The registry: commands by upper-case name. */
  function Find(name: bytes): Option<Command> {
    var n := Upper(name);
    if FindString(n).Some? then FindString(n)
    else if FindCounter(n).Some? then FindCounter(n)
    else if FindKey(n).Some? then FindKey(n)
    else FindServer(n)
  }

  /** Registered arity, command name included; no upper bound for the variadic commands. */
  predicate ArityOk(c: Command, n: nat) {
    match c
    case CSet => n >= 3
    case CMSet => n >= 3
    case CMGet => n >= 2
    case CDel => n >= 2
    case CExists => n >= 2
    case CGetSet => n == 3
    case CAppend => n == 3
    case CIncrBy => n == 3
    case CDecrBy => n == 3
    case CSetNx => n == 3
    case CExpire => n == 3
    case CPExpire => n == 3
    case CExpireAt => n == 3
    case CRename => n == 3
    case CSetEx => n == 4
    case CPSetEx => n == 4
    case CDbSize => n == 1
    case CFlushDb => n == 1
    case CQuit => n == 1
    case CSave => n == 1
    case CBgSave => n == 1
    case CPing => n == 1 || n == 2
    case CInfo => n == 1 || n == 2
    case _ => n == 2
  }

  /** One line of text: a message of the operating system or of the snapshot code. */
  type ErrorText = s: bytes | !RespCodec.HasCrlf(s) witness []

  /** What the server commands learn outside of the database: the statistics that `INFO` prints before the
      number of keys, and the errors of `SAVE` and `BGSAVE`, if any. */
  datatype Report = Report(info: bytes, save: Option<ErrorText>, fork: Option<ErrorText>)

  /** What the program observes when it serves a message. */
  datatype Moment = Moment(now: int, report: Report)

  /** What a command sees besides the store: the clock, the order in which the keys are enumerated, and the
      rest of the server. */
  datatype Env = Env(now: int, order: seq<Key>, report: Report)

  function At(m: Moment, order: seq<Key>): Env {
    Env(m.now, order, m.report)
  }

  datatype Result = Result(store: Store, reply: Value)

  /** The `str` field of a parsed value. */
  function Text(v: Value): bytes {
    match v
    case SimpleString(s) => s
    case Error(s) => s
    case BulkString(s) => s
    case _ => []
  }

  function Number(v: Value): Option<i64> {
    match FromChars(Text(v))
    case Parsed(n, _) => Some(n)
    case _ => None
  }

  function OkReply(): Value { SimpleString(Ascii("OK")) }

  function Fail(message: string): Value { Error(Ascii(message)) }

  const NOT_AN_INTEGER := "value is not an integer or out of range"
  const OVERFLOW := "increment or decrement would overflow"

  function Length(s: bytes): Value { Count(|s|) }

  function BulkOrNil(o: Option<Object>): Value {
    match o
    case None => Nil
    case Some(obj) => BulkString(Objects.Text(obj))
  }

  // ---- string commands ------------------------------------------------------------------

  datatype SetOptions = BadExpire(command: string) | SetOptions(expireMs: int, nx: bool, xx: bool)

  /** The option loop of `SET`: unknown words, and `EX` or `PX` without a number, are skipped. */
  function ParseSetOptions(args: seq<Value>, i: nat, o: SetOptions): SetOptions
    requires o.SetOptions?
    decreases |args| - i
  {
    if i >= |args| then o
    else
      var word := Upper(Text(args[i]));
      if word == Ascii("EX") && i + 1 < |args| then
        match Number(args[i + 1])
        case Some(n) => if n <= 0 then BadExpire("set") else ParseSetOptions(args, i + 2, o.(expireMs := n * 1000))
        case None => BadExpire("set")
      else if word == Ascii("PX") && i + 1 < |args| then
        match Number(args[i + 1])
        case Some(n) => if n <= 0 then BadExpire("set") else ParseSetOptions(args, i + 2, o.(expireMs := n))
        case None => BadExpire("set")
      else if word == Ascii("NX") then ParseSetOptions(args, i + 1, o.(nx := true))
      else if word == Ascii("XX") then ParseSetOptions(args, i + 1, o.(xx := true))
      else ParseSetOptions(args, i + 1, o)
  }

  function ExecSet(args: seq<Value>, st: Store, now: int): Result
    requires |args| >= 3
  {
    var key := Text(args[1]);
    var o := ParseSetOptions(args, 3, SetOptions(-1, false, false));
    if o.BadExpire? then Result(st, Fail("invalid expire time in 'set' command"))
    else
      var (s, prev) := Fetch(st, key, now);
      if (o.nx && prev.Some?) || (o.xx && prev.None?) then Result(s, Nil)
      else
        var stored := Put(s, key, CreateString(Text(args[2])));
        Result(if o.expireMs > 0 then SetExpire(stored, key, now + o.expireMs) else stored, OkReply())
  }

  function ExecGetSet(key: Key, val: bytes, st: Store, now: int): Result {
    var (s, prev) := Fetch(st, key, now);
    Result(Put(s, key, CreateString(val)), BulkOrNil(prev))
  }

  function PutPairs(args: seq<Value>, i: nat, st: Store): Store
    decreases |args| - i
  {
    if i + 1 >= |args| then st
    else PutPairs(args, i + 2, Put(st, Text(args[i]), CreateString(Text(args[i + 1]))))
  }

  function ExecMSet(args: seq<Value>, st: Store): Result {
    if |args| % 2 != 1 then Result(st, Fail("wrong number of arguments for MSET"))
    else Result(PutPairs(args, 1, st), OkReply())
  }

  function FetchAll(args: seq<Value>, i: nat, st: Store, now: int, sofar: seq<Value>): Result
    decreases |args| - i
  {
    if i >= |args| then Result(st, Array(sofar))
    else
      var (s, o) := Fetch(st, Text(args[i]), now);
      FetchAll(args, i + 1, s, now, sofar + [BulkOrNil(o)])
  }

  function ExecAppend(key: Key, val: bytes, st: Store, now: int): Result {
    var (s, prev) := Fetch(st, key, now);
    var all := if prev.Some? then Objects.Text(prev.value) + val else val;
    Result(Put(s, key, CreateString(all)), Length(all))
  }

  /** `get_integer_obj`: a missing key counts as 0. */
  function IntegerOf(o: Option<Object>): Option<i64> {
    match o
    case None => Some(0)
    case Some(IntEncoded(n)) => Some(n)
    case Some(obj) => if TryParseInt(obj.content) then Some(FromChars(obj.content).value) else None
  }

  /** `INCRBY` with its overflow test; `INCR` and `DECR` test for the one value that cannot move. */
  function AddTo(key: Key, delta: i64, st: Store, now: int): Result {
    var (s, prev) := Fetch(st, key, now);
    match IntegerOf(prev)
    case None => Result(s, Fail(NOT_AN_INTEGER))
    case Some(current) =>
      if (delta > 0 && current > I64_MAX - delta) || (delta < 0 && current < I64_MIN - delta)
      then Result(s, Fail(OVERFLOW))
      else Result(Put(s, key, IntEncoded(current + delta)), Integer(current + delta))
  }

  /** `DECRBY` has no overflow test: the difference wraps around. */
  function SubtractFrom(key: Key, delta: i64, st: Store, now: int): Result {
    var (s, prev) := Fetch(st, key, now);
    match IntegerOf(prev)
    case None => Result(s, Fail(NOT_AN_INTEGER))
    case Some(current) =>
      var n := RespCodec.Cast(current - delta);
      Result(Put(s, key, IntEncoded(n)), Integer(n))
  }

  function ExecSetEx(args: seq<Value>, unit: int, message: string, st: Store, now: int): Result
    requires |args| == 4
  {
    match Number(args[2])
    case None => Result(st, Fail(message))
    case Some(n) =>
      if n <= 0 then Result(st, Fail(message))
      else
        var key := Text(args[1]);
        Result(SetExpire(Put(st, key, CreateString(Text(args[3]))), key, now + n * unit), OkReply())
  }

  function ExecSetNx(key: Key, val: bytes, st: Store, now: int): Result {
    var (s, prev) := Fetch(st, key, now);
    if prev.Some? then Result(s, Integer(0)) else Result(Put(s, key, CreateString(val)), Integer(1))
  }

  // ---- key commands ---------------------------------------------------------------------

  function DeleteAll(args: seq<Value>, i: nat, st: Store, count: nat): (Store, nat)
    decreases |args| - i
  {
    if i >= |args| then (st, count)
    else
      var k := Text(args[i]);
      DeleteAll(args, i + 1, Purge(st, k), if k in st.vals then count + 1 else count)
  }

  function CountAll(args: seq<Value>, i: nat, st: Store, now: int, count: nat): (Store, nat)
    decreases |args| - i
  {
    if i >= |args| then (st, count)
    else
      var (s, o) := Fetch(st, Text(args[i]), now);
      CountAll(args, i + 1, s, now, if o.Some? then count + 1 else count)
  }

  /** `EXPIRE`, `PEXPIRE` and `EXPIREAT`: the deadline is `base + n * unit`. */
  function ExecExpire(args: seq<Value>, base: int, unit: int, st: Store, now: int): Result
    requires |args| == 3
  {
    match Number(args[2])
    case None => Result(st, Fail(NOT_AN_INTEGER))
    case Some(n) =>
      var key := Text(args[1]);
      var (s, o) := Fetch(st, key, now);
      if o.None? then Result(s, Integer(0)) else Result(SetExpire(s, key, base + n * unit), Integer(1))
  }

  function ExecPersist(key: Key, st: Store, now: int): Result {
    var (s, o) := Fetch(st, key, now);
    if o.None? then Result(s, Integer(0)) else Result(RemoveExpire(s, key), Integer(1))
  }

  /** The live keys that match, in the order of enumeration. */
  function Matching(order: seq<Key>, pattern: bytes, st: Store, now: int): seq<Value> {
    if order == [] then []
    else (if LiveKey(st, order[0], now) && Glob.Matches(pattern, order[0]) then [BulkString(order[0])] else [])
         + Matching(order[1..], pattern, st, now)
  }

  /** `RENAME` stores a copy under the new name; the deadline is lost. */
  function ExecRename(key: Key, newKey: Key, st: Store, now: int): Result {
    var (s, o) := Fetch(st, key, now);
    match o
    case None => Result(s, Fail("no such key"))
    case Some(obj) =>
      var copy := if obj.IntEncoded? then obj else CreateString(obj.content);
      Result(Put(Purge(s, key), newKey, copy), OkReply())
  }

  // ---- dispatch -------------------------------------------------------------------------

  function Count(n: int): Value { Integer(RespCodec.Cast(n)) }

  /** Commands on string values. */
  predicate IsString(c: Command) {
    c.CSet? || c.CGet? || c.CGetSet? || c.CMSet? || c.CMGet? || c.CAppend? || c.CStrLen? || c.CSetEx?
    || c.CPSetEx? || c.CSetNx?
  }

  predicate IsCounter(c: Command) {
    c.CIncr? || c.CIncrBy? || c.CDecr? || c.CDecrBy?
  }

  /** Commands on keys. */
  predicate IsKey(c: Command) {
    c.CDel? || c.CExists? || c.CType? || c.CExpire? || c.CPExpire? || c.CExpireAt? || c.CTtl? || c.CPTtl?
    || c.CPersist? || c.CKeys? || c.CRename? || c.CDbSize?
  }

  /** Commands on the server itself. */
  predicate IsServer(c: Command) {
    c.CPing? || c.CEcho? || c.CFlushDb? || c.CSelect? || c.CQuit? || c.CInfo? || c.CSave? || c.CBgSave?
  }

  function ExecString(c: Command, args: seq<Value>, st: Store, env: Env): Result
    requires ArityOk(c, |args|) && IsString(c)
  {
    var now := env.now;
    var key := if |args| > 1 then Text(args[1]) else [];
    var val := if |args| > 2 then Text(args[2]) else [];
    match c
    case CSet => ExecSet(args, st, now)
    case CGet => var (s, o) := Fetch(st, key, now); Result(s, BulkOrNil(o))
    case CGetSet => ExecGetSet(key, val, st, now)
    case CMSet => ExecMSet(args, st)
    case CMGet => FetchAll(args, 1, st, now, [])
    case CAppend => ExecAppend(key, val, st, now)
    case CStrLen =>
      var (s, o) := Fetch(st, key, now);
      Result(s, if o.Some? then Length(Objects.Text(o.value)) else Integer(0))
    case CSetEx => ExecSetEx(args, 1000, "invalid expire time in 'setex' command", st, now)
    case CPSetEx => ExecSetEx(args, 1, "invalid expire time in 'psetex' command", st, now)
    case CSetNx => ExecSetNx(key, val, st, now)
  }

  function ExecCounter(c: Command, args: seq<Value>, st: Store, env: Env): Result
    requires ArityOk(c, |args|) && IsCounter(c)
  {
    var now := env.now;
    var key := if |args| > 1 then Text(args[1]) else [];
    match c
    case CIncr => AddTo(key, 1, st, now)
    case CIncrBy =>
      (match Number(args[2])
       case None => Result(st, Fail(NOT_AN_INTEGER))
       case Some(n) => AddTo(key, n, st, now))
    case CDecr => AddTo(key, -1, st, now)
    case CDecrBy =>
      (match Number(args[2])
       case None => Result(st, Fail(NOT_AN_INTEGER))
       case Some(n) => SubtractFrom(key, n, st, now))
  }

  function ExecKey(c: Command, args: seq<Value>, st: Store, env: Env): Result
    requires ArityOk(c, |args|) && IsKey(c)
  {
    var now := env.now;
    var key := if |args| > 1 then Text(args[1]) else [];
    var val := if |args| > 2 then Text(args[2]) else [];
    match c
    case CDel => var (s, n) := DeleteAll(args, 1, st, 0); Result(s, Count(n))
    case CExists => var (s, n) := CountAll(args, 1, st, now, 0); Result(s, Count(n))
    case CType => Result(st, SimpleString(Ascii(if Peek(st, key, now).Some? then "string" else "none")))
    case CExpire => ExecExpire(args, now, 1000, st, now)
    case CPExpire => ExecExpire(args, now, 1, st, now)
    case CExpireAt => ExecExpire(args, 0, 1000, st, now)
    case CTtl =>
      var ms := Pttl(st, key, now);
      Result(st, Count(if ms < 0 then ms else ms / 1000))
    case CPTtl => Result(st, Count(Pttl(st, key, now)))
    case CPersist => ExecPersist(key, st, now)
    case CKeys => Result(st, Array(Matching(env.order, key, st, now)))
    case CRename => ExecRename(key, val, st, now)
    case CDbSize => Result(st, Count(|st.vals|))
  }

  /** The text of `INFO`; the number of keys is its last part but a constant. */
  function InfoText(statistics: bytes, size: nat): bytes {
    statistics + (Ascii("# Keyspace\r\ndb0:keys=") + Digits(size) + Ascii(",expires=0\r\n"))
  }

  function Reported(failure: Option<ErrorText>, success: Value): Value {
    match failure
    case None => success
    case Some(text) => Error(text)
  }

  function ExecServer(c: Command, args: seq<Value>, st: Store, env: Env): Result
    requires ArityOk(c, |args|) && IsServer(c)
  {
    var key := if |args| > 1 then Text(args[1]) else [];
    match c
    case CPing => Result(st, if |args| == 1 then SimpleString(Ascii("PONG")) else BulkString(key))
    case CEcho => Result(st, BulkString(key))
    case CFlushDb => Result(EMPTY, OkReply())
    case CSelect => Result(st, if Number(args[1]) == Some(0) then OkReply() else Fail("DB index is out of range"))
    case CQuit => Result(st, OkReply())
    case CInfo => Result(st, BulkString(InfoText(env.report.info, |st.vals|)))
    case CSave => Result(st, Reported(env.report.save, OkReply()))
    case CBgSave => Result(st, Reported(env.report.fork, SimpleString(Ascii("Background saving started"))))
  }

  function Exec(c: Command, args: seq<Value>, st: Store, env: Env): Result
    requires ArityOk(c, |args|)
  {
    if IsString(c) then ExecString(c, args, st, env)
    else if IsCounter(c) then ExecCounter(c, args, st, env)
    else if IsKey(c) then ExecKey(c, args, st, env)
    else ExecServer(c, args, st, env)
  }
}
