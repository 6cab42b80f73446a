/**
 Snapshot files: the layout that is written and the opcode loop that reads it.
 What they promise each other is proved in `RdbLaws.dfy`.
 */
module RdbSpec {
  import opened Common
  import opened Objects
  import opened StoreSpec
  import opened RdbFormat
  import DictTable
  import Crc64
  import RespCodec

  const MAGIC: bytes := [75, 69, 86, 65]  // "KEVA"
  const VERSION: nat := 1
  const OP_DB: byte := 0xFE
  const OP_EXPIRE: byte := 0xFC
  const OP_EOF: byte := 0xFF
  const TYPE_STRING: byte := 0

  // ---- writing --------------------------------------------------------------------------

  /** One key as it goes into the file. */
  datatype Record = Record(key: bytes, text: bytes, deadline: Option<i64>)

  function DeadlineBytes(d: Option<i64>): bytes {
    match d
    case None => []
    case Some(t) => [OP_EXPIRE] + Le(Unsigned(t), 8)
  }

  function RecordBytes(r: Record): bytes {
    DeadlineBytes(r.deadline) + ([TYPE_STRING] + (StringBytes(r.key) + StringBytes(r.text)))
  }

  function AllRecords(rs: seq<Record>): bytes {
    if rs == [] then [] else RecordBytes(rs[0]) + AllRecords(rs[1..])
  }

  /** Magic, version, database selector. */
  function Header(dbId: nat): bytes {
    MAGIC + (Le(VERSION, 2) + ([OP_DB] + Le(dbId, 4)))
  }

  /** Everything the checksum covers. */
  function Body(dbId: nat, rs: seq<Record>): bytes {
    Header(dbId) + (AllRecords(rs) + [OP_EOF])
  }

  function File(dbId: nat, rs: seq<Record>): bytes {
    Body(dbId, rs) + Le(Crc64.Crc(Body(dbId, rs)), 8)
  }

  /** The deadline written for remaining time `ttl` with the clock at `t`; none for a negative `ttl`. */
  function Stamp(ttl: int, t: int): Option<i64> {
    if ttl < 0 then None else Some(RespCodec.Cast(t + ttl))
  }

  type Clock = nat -> int

  /** The record of visited entry `i`. The clock is read twice for it, for the remaining time and for the
      absolute deadline, after one reading at the start. */
  function RecordOf(e: DictTable.Entry<Object>, st: Store, clock: Clock, i: nat): Record {
    Record(e.key, Text(e.value), Stamp(Pttl(st, e.key, clock(2 * i + 1)), clock(2 * i + 2)))
  }

  function Records(visited: DictTable.Chain<Object>, st: Store, clock: Clock, i: nat): seq<Record>
    decreases |visited|
  {
    if visited == [] then [] else [RecordOf(visited[0], st, clock, i)] + Records(visited[1..], st, clock, i + 1)
  }

  // ---- reading --------------------------------------------------------------------------

  /** How loading ends: the status, the store as far as it was filled, the position in the file. */
  datatype Loaded = Loaded(status: Status, store: Store, pos: nat)

  /** `verify_crc64`. */
  function Verify(f: bytes, pos: nat, st: Store): Loaded
    requires pos <= |f|
  {
    match ReadNumber(f, pos, 8)
    case Bad(e) => Loaded(e, st, pos)
    case Got(stored, p) => Loaded(if stored == Crc64.Crc(f[..pos]) then Fine else IoError, st, p)
  }

  /** Key, value and pending deadline of one record; -1 means that there is no deadline. */
  function Insert(st: Store, key: bytes, text: bytes, pending: i64): Store {
    var s := Put(st, key, CreateString(text));
    if pending != -1 then SetExpire(s, key, pending) else s
  }

  /** The opcode loop. Unknown opcodes are skipped; a deadline waits for the next string record. */
  function LoadOps(f: bytes, pos: nat, st: Store, pending: i64): (r: Loaded)
    requires pos <= |f|
    ensures r.status.Fine? ==> r.pos <= |f|
    decreases |f| - pos, 0
  {
    match ReadNumber(f, pos, 1)
    case Bad(e) => Loaded(e, st, pos)
    case Got(opcode, p) =>
      if opcode == OP_EOF then Verify(f, p, st)
      else if opcode == OP_DB then
        match ReadNumber(f, p, 4)
        case Bad(e) => Loaded(e, st, p)
        case Got(_, q) => LoadOps(f, q, st, pending)
      else if opcode == OP_EXPIRE then
        match ReadNumber(f, p, 8)
        case Bad(e) => Loaded(e, st, p)
        case Got(bits, q) =>
          match ReadNumber(f, q, 1)
          case Bad(e) => Loaded(e, st, q)
          case Got(kind, o) => LoadRecord(f, o, st, RespCodec.Cast(bits), kind)
      else LoadRecord(f, p, st, pending, opcode)
  }

  /** What follows the type byte. */
  function LoadRecord(f: bytes, pos: nat, st: Store, pending: i64, kind: nat): (r: Loaded)
    requires pos <= |f|
    ensures r.status.Fine? ==> r.pos <= |f|
    decreases |f| - pos, 1
  {
    if kind != TYPE_STRING then LoadOps(f, pos, st, pending)
    else
      match ReadString(f, pos)
      case Bad(e) => Loaded(e, st, pos)
      case Got(key, p) =>
        match ReadString(f, p)
        case Bad(e) => Loaded(e, st, p)
        case Got(text, q) => LoadOps(f, q, Insert(st, key, text, pending), -1)
  }

  /** `rdb_load`. */
  function Load(f: bytes, st: Store): (r: Loaded)
    ensures r.status.Fine? ==> r.pos <= |f|
  {
    match ReadBytes(f, 0, 4)
    case Bad(e) => Loaded(e, st, 0)
    case Got(magic, p) =>
      if magic != MAGIC then Loaded(ProtoError, st, p)
      else
        match ReadNumber(f, p, 2)
        case Bad(e) => Loaded(e, st, p)
        case Got(version, q) => if version > VERSION then Loaded(ProtoError, st, q) else LoadOps(f, q, st, -1)
  }
}
