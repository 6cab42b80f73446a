/**
 The snapshot writer and reader. Every system call may move fewer bytes than asked for, and the checksum
 is updated per call. `SaveSync` and `LoadInto` are proved against the layout and the loader of `RdbSpec`,
 for a database whose two dictionaries may be in the middle of a migration.
 */
module RdbImpl {
  import opened Common
  import opened Objects
  import opened StoreSpec
  import opened RdbFormat
  import opened RdbSpec
  import opened DatabaseImpl
  import DictTable
  import DictScan
  import Crc64
  import RdbLaws
  import RdbRestore
  import RespCodec

  // ---- writing --------------------------------------------------------------------------

  function Min(a: nat, b: nat): nat {
    if a < b then a else b
  }

  /** `data` was appended to `before`, as far as the disk has room: it takes `room` bytes in all and then fails. */
  predicate Wrote(before: bytes, data: bytes, after: bytes, room: nat, s: Status) {
    if |before + data| <= room then s == Fine && after == before + data
    else s == IoError && after == (before + data)[..room]
  }

  lemma {:induction false} WroteMore(a: bytes, x: bytes, b: bytes, y: bytes, c: bytes, room: nat, s: Status)
    requires Wrote(a, x, b, room, Fine) && Wrote(b, y, c, room, s)
    ensures Wrote(a, x + y, c, room, s)
  {
    assert (a + x) + y == a + (x + y);
  }

  lemma {:induction false} Failed(a: bytes, x: bytes, b: bytes, y: bytes, room: nat, s: Status)
    requires Wrote(a, x, b, room, s) && s != Fine
    ensures Wrote(a, x + y, b, room, s)
  {
    assert (a + x) + y == a + (x + y);
    assert ((a + x) + y)[..room] == (a + x)[..room];
  }

  /** A failure in the middle of `total`, of which `mid` was written before and `d + rest` was left. */
  lemma {:induction false} FailedEarly(before: bytes, total: bytes, mid: bytes, d: bytes, rest: bytes,
                                       after: bytes, room: nat, s: Status)
    requires Wrote(mid, d, after, room, s) && s != Fine
    requires mid + (d + rest) == before + total
    ensures Wrote(before, total, after, room, s)
  {
    assert (mid + d) + rest == mid + (d + rest);
    assert ((mid + d) + rest)[..room] == (mid + d)[..room];
  }

  class RdbWriter {
    var out: bytes
    var crc: u64
    var bytesWritten: nat
    const room: nat  // how many bytes the disk takes before a write fails
    const table: array<u64>

    ghost predicate Valid()
      reads this, table
    {
      Crc64.TableOk(table) && crc == Crc64.Crc(out) && bytesWritten == |out| <= room
    }

    constructor (room: nat)
      ensures Valid() && out == [] && this.room == room && fresh(table)
    {
      hide Crc64.FeedAll, Crc64.Shifts;
      var t := Crc64.InitTable();
      table, this.room := t, room;
      out, crc, bytesWritten := [], 0, 0;
      new;
      EmptySum();
    }

    lemma {:induction false} Fits()
      requires Valid()
      ensures |out| <= room
    {
    }

    static lemma {:induction false} EmptySum()
      ensures Crc64.Crc([]) == 0
    {
    }

    /** Each call of `write` accepts some of the remaining bytes, or fails because the disk takes no more. */
    method WriteBytes(data: bytes) returns (s: Status)
      requires Valid()
      modifies this`out, this`crc, this`bytesWritten
      ensures Valid() && Wrote(old(out), data, out, room, s)
    {
      hide Crc64.Update, Crc64.TableOk;
      var p := 0;
      while p < |data|
        invariant 0 <= p <= |data| && Valid() && out == old(out) + data[..p]
      {
        if |out| == room {
          Full(old(out), data, p);
          return IoError;
        }
        var most := if room - |out| < |data| - p then room - |out| else |data| - p;
        var n :| 1 <= n <= most;
        var chunk := data[p..p + n];
        Crc64.UpdateSplits(0, out, chunk);
        crc := Crc64.UpdateByTable(table, crc, chunk);
        assert old(out) + data[..p] + chunk == old(out) + data[..p + n];
        out := out + chunk;
        p, bytesWritten := p + n, bytesWritten + n;
      }
      return Fine;
    }

    static lemma {:induction false} Full(before: bytes, data: bytes, p: nat)
      requires p <= |data|
      ensures (before + data)[..|before + data[..p]|] == before + data[..p]
    {
    }

    /** `write_u8`, `write_u16`, `write_u32` and the bits of `write_i64`: the lowest `k` bytes. */
    method WriteNumber(n: nat, k: nat) returns (s: Status)
      requires Valid()
      modifies this`out, this`crc, this`bytesWritten
      ensures Valid() && Wrote(old(out), Le(n, k), out, room, s)
    {
      s := WriteBytes(Le(n, k));
    }

    method WriteByte(b: byte) returns (s: Status)
      requires Valid()
      modifies this`out, this`crc, this`bytesWritten
      ensures Valid() && Wrote(old(out), [b], out, room, s)
    {
      s := WriteBytes([b]);
    }

    /** The two-byte form sets the top bit of the high byte, the long form truncates to 32 bits. */
    method WriteLength(len: nat) returns (s: Status)
      requires Valid()
      modifies this`out, this`crc, this`bytesWritten
      ensures Valid() && Wrote(old(out), LengthPrefix(len), out, room, s)
    {
      hide Crc64.Crc, Crc64.TableOk, Le, Wrote;
      if len < 64 {
        s := WriteByte(len);
      } else if len < 16384 {
        var marker, low := 0x80 + len / 256, len % 256;
        s := WriteByte(marker);
        assert LengthPrefix(len) == [marker] + [low];
        if s != Fine { Failed(old(out), [marker], out, [low], room, s); return; }
        ghost var mid := out;
        s := WriteByte(low);
        WroteMore(old(out), [marker], mid, [low], out, room, s);
      } else {
        var rest := Le(len % LIMIT32, 4);
        s := WriteByte(0xC0);
        if s != Fine { Failed(old(out), [0xC0], out, rest, room, s); return; }
        ghost var mid := out;
        s := WriteNumber(len % LIMIT32, 4);
        WroteMore(old(out), [0xC0], mid, rest, out, room, s);
      }
    }

    method WriteString(sv: bytes) returns (s: Status)
      requires Valid()
      modifies this`out, this`crc, this`bytesWritten
      ensures Valid() && Wrote(old(out), StringBytes(sv), out, room, s)
    {
      hide Crc64.Crc, Crc64.TableOk, LengthPrefix, Wrote;
      s := WriteLength(|sv|);
      if s != Fine { Failed(old(out), LengthPrefix(|sv|), out, sv, room, s); return; }
      ghost var mid := out;
      s := WriteBytes(sv);
      WroteMore(old(out), LengthPrefix(|sv|), mid, sv, out, room, s);
    }

    /** One key: its deadline if it has one, the type byte, key and value. */
    method WriteRecord(key: bytes, text: bytes, deadline: Option<i64>) returns (s: Status)
      requires Valid()
      modifies this`out, this`crc, this`bytesWritten
      ensures Valid() && Wrote(old(out), RecordBytes(Record(key, text, deadline)), out, room, s)
    {
      hide Crc64.Crc, Crc64.TableOk, StringBytes, Wrote, DeadlineBytes;
      ghost var all := [TYPE_STRING] + (StringBytes(key) + StringBytes(text));
      s := WriteDeadline(deadline);
      if s != Fine { Failed(old(out), DeadlineBytes(deadline), out, all, room, s); return; }
      ghost var mid := out;
      s := WriteEntry(key, text);
      WroteMore(old(out), DeadlineBytes(deadline), mid, all, out, room, s);
    }

    method WriteDeadline(deadline: Option<i64>) returns (s: Status)
      requires Valid()
      modifies this`out, this`crc, this`bytesWritten
      ensures Valid() && Wrote(old(out), DeadlineBytes(deadline), out, room, s)
    {
      hide Crc64.Crc, Crc64.TableOk, Le;
      if deadline.None? { return Fine; }
      var t := deadline.value;
      s := WriteByte(OP_EXPIRE);
      if s != Fine { Failed(old(out), [OP_EXPIRE], out, Le(Unsigned(t), 8), room, s); return; }
      ghost var mid := out;
      s := WriteNumber(Unsigned(t), 8);
      WroteMore(old(out), [OP_EXPIRE], mid, Le(Unsigned(t), 8), out, room, s);
    }

    method WriteEntry(key: bytes, text: bytes) returns (s: Status)
      requires Valid()
      modifies this`out, this`crc, this`bytesWritten
      ensures Valid() && Wrote(old(out), [TYPE_STRING] + (StringBytes(key) + StringBytes(text)), out, room, s)
    {
      hide Crc64.Crc, Crc64.TableOk, StringBytes, Wrote;
      ghost var a, b, c := [TYPE_STRING], StringBytes(key), StringBytes(text);
      s := WriteByte(TYPE_STRING);
      if s != Fine { Failed(old(out), a, out, b + c, room, s); return; }
      ghost var first := out;
      s := WriteString(key);
      if s != Fine { Failed(first, b, out, c, room, s); WroteMore(old(out), a, first, b + c, out, room, s); return; }
      ghost var second := out;
      s := WriteString(text);
      WroteMore(first, b, second, c, out, room, s);
      WroteMore(old(out), a, first, b + c, out, room, s);
    }

    /** The sum itself goes out in one call, which takes no more than `atOnce` bytes, and is not summed. */
    method WriteCrc64(atOnce: nat) returns (s: Status)
      requires Valid()
      modifies this`out
      ensures var sum, n := Le(Crc64.Crc(old(out)), 8), Min(8, Min(atOnce, room - |old(out)|));
              |sum| == 8 && out == old(out) + sum[..n] && s == if n == 8 then Fine else IoError
    {
      hide Crc64.Crc, Crc64.TableOk, Le;
      var sum := Le(crc, 8);
      var n := Min(8, Min(atOnce, room - |out|));
      out := out + sum[..n];
      return if n == 8 then Fine else IoError;
    }
  }

  /** The entries a save visits: the live ones, in the order of the key dictionary. */
  ghost function Visited(db: Database, now: int): DictTable.Chain<Object>
    reads db, db.keys, db.keys.b0, db.keys.b1, db.expires, db.expires.b0, db.expires.b1
  {
    LiveEntries(DictScan.Entries(db.keys.State()), db.Contents(), now)
  }

  ghost function RecordsOf(db: Database, clock: Clock): seq<Record>
    reads db, db.keys, db.keys.b0, db.keys.b1, db.expires, db.expires.b0, db.expires.b1
  {
    Records(Visited(db, clock(0)), db.Contents(), clock, 0)
  }

  lemma {:induction false} NextRecord(visited: DictTable.Chain<Object>, st: Store, clock: Clock, i: nat)
    requires i < |visited|
    ensures AllRecords(Records(visited[i..], st, clock, i))
         == RecordBytes(RecordOf(visited[i], st, clock, i))
            + AllRecords(Records(visited[i + 1..], st, clock, i + 1))
  {
    hide RecordBytes;
    assert visited[i..][1..] == visited[i + 1..];
    var rs := Records(visited[i..], st, clock, i);
    assert rs[1..] == Records(visited[i + 1..], st, clock, i + 1);
  }

  lemma {:induction false} NoneLeft(visited: DictTable.Chain<Object>, st: Store, clock: Clock, out: bytes)
    ensures out + AllRecords(Records(visited[|visited|..], st, clock, |visited|)) == out
  {
  }

  method WriteSelector(w: RdbWriter, dbId: nat) returns (s: Status)
    requires w.Valid()
    modifies w`out, w`crc, w`bytesWritten
    ensures w.Valid() && Wrote(old(w.out), [OP_DB] + Le(dbId, 4), w.out, w.room, s)
  {
    hide Crc64.Crc, Crc64.TableOk, Le, Wrote;
    s := w.WriteByte(OP_DB);
    if s != Fine { Failed(old(w.out), [OP_DB], w.out, Le(dbId, 4), w.room, s); return; }
    ghost var mid := w.out;
    s := w.WriteNumber(dbId, 4);
    WroteMore(old(w.out), [OP_DB], mid, Le(dbId, 4), w.out, w.room, s);
  }

  /** One key with its deadline, for which the clock is read twice. */
  method SaveEntry(w: RdbWriter, db: Database, e: DictTable.Entry<Object>, i: nat, clock: Clock) returns (s: Status)
    requires w.Valid() && db.Valid() && {w, w.table} !! db.Repr()
    modifies w`out, w`crc, w`bytesWritten, db.Repr()
    ensures w.Valid() && db.Valid() && db.Grew() && db.Contents() == old(db.Contents())
    ensures Wrote(old(w.out), RecordBytes(RecordOf(e, db.Contents(), clock, i)), w.out, w.room, s)
  {
    hide Pttl, Stamp, Text, RecordBytes, Wrote;
    hide RdbWriter.Valid, Database.Valid, Database.Repr, Database.Contents;
    var ttl := db.RemainingMs(e.key, clock(2 * i + 1));
    s := w.WriteRecord(e.key, Text(e.value), Stamp(ttl, clock(2 * i + 2)));
  }

  /** The callback of `for_each`, for every visited key. */
  method SaveEntries(w: RdbWriter, db: Database, visited: DictTable.Chain<Object>, clock: Clock) returns (s: Status)
    requires w.Valid() && db.Valid() && {w, w.table} !! db.Repr()
    modifies w`out, w`crc, w`bytesWritten, db.Repr()
    ensures w.Valid() && db.Valid() && db.Grew() && db.Contents() == old(db.Contents())
    ensures Wrote(old(w.out), AllRecords(Records(visited, db.Contents(), clock, 0)), w.out, w.room, s)
  {
    hide RecordBytes, RecordOf, AllRecords, Records;
    hide RdbWriter.Valid, Database.Valid, Database.Repr, Database.Contents;
    ghost var st, start := db.Contents(), w.out;
    ghost var all := AllRecords(Records(visited, st, clock, 0));
    var i := 0;
    while i < |visited|
      invariant 0 <= i <= |visited|
      invariant w.Valid() && db.Valid() && db.Grew() && db.Contents() == st && {w, w.table} !! db.Repr()
      invariant w.out + AllRecords(Records(visited[i..], st, clock, i)) == start + all
    {
      NextRecord(visited, st, clock, i);
      ghost var mid, rest := w.out, AllRecords(Records(visited[i + 1..], st, clock, i + 1));
      ghost var record := RecordBytes(RecordOf(visited[i], st, clock, i));
      s := SaveEntry(w, db, visited[i], i, clock);
      if s != Fine {
        FailedEarly(start, all, mid, record, rest, w.out, w.room, s);
        return;
      }
      assert (mid + record) + rest == mid + (record + rest);
      i := i + 1;
    }
    s := Fine;
    NoneLeft(visited, st, clock, w.out);
    w.Fits();
  }

  /** `save_database_to_writer`: the selector and one record per visited key. The clock is read at the
      start, and twice for a key with a deadline. */
  method SaveDatabase(w: RdbWriter, db: Database, dbId: nat, clock: Clock) returns (s: Status)
    requires w.Valid() && db.Valid() && {w, w.table} !! db.Repr()
    modifies w`out, w`crc, w`bytesWritten, db.Repr()
    ensures w.Valid() && db.Valid() && db.Grew() && db.Contents() == old(db.Contents())
    ensures Wrote(old(w.out), ([OP_DB] + Le(dbId, 4)) + AllRecords(old(RecordsOf(db, clock))), w.out, w.room, s)
    ensures DictScan.Lists(old(Visited(db, clock(0))), Canon(old(db.Contents()), clock(0)).vals)
  {
    hide Le, AllRecords, Records, LiveEntries, Wrote;
    hide RdbWriter.Valid, Database.Valid, Database.Repr, Database.Contents, Canon, DictScan.Lists, DictScan.Entries;
    var visited := db.ForEach(clock(0));
    ghost var selector, all := [OP_DB] + Le(dbId, 4), AllRecords(old(RecordsOf(db, clock)));
    s := WriteSelector(w, dbId);
    if s != Fine { Failed(old(w.out), selector, w.out, all, w.room, s); return; }
    ghost var mid := w.out;
    s := SaveEntries(w, db, visited, clock);
    WroteMore(old(w.out), selector, mid, all, w.out, w.room, s);
  }

  lemma {:induction false} VisitedIsLive(db: Database, now: int)
    requires db.Valid()
    ensures DictScan.Lists(Visited(db, now), Canon(db.Contents(), now).vals)
  {
    hide DictScan.Lists, Canon;
    db.OrderEnumerates();
    LiveEntriesList(DictScan.Entries(db.keys.State()), db.Contents(), now);
  }

  method WritePreamble(w: RdbWriter) returns (s: Status)
    requires w.Valid()
    modifies w`out, w`crc, w`bytesWritten
    ensures w.Valid() && Wrote(old(w.out), MAGIC + Le(VERSION, 2), w.out, w.room, s)
  {
    hide Crc64.Crc, Crc64.TableOk, Le, Wrote;
    s := w.WriteBytes(MAGIC);
    if s != Fine { Failed(old(w.out), MAGIC, w.out, Le(VERSION, 2), w.room, s); return; }
    ghost var mid := w.out;
    s := w.WriteNumber(VERSION, 2);
    WroteMore(old(w.out), MAGIC, mid, Le(VERSION, 2), w.out, w.room, s);
  }

  /** What the checksum covers, in the order of the calls that write it. */
  lemma {:induction false} Layout(preamble: bytes, records: bytes, dbId: nat, rs: seq<Record>)
    requires preamble == MAGIC + Le(VERSION, 2)
    requires records == ([OP_DB] + Le(dbId, 4)) + AllRecords(rs)
    ensures Body(dbId, rs) == (preamble + records) + [OP_EOF] == preamble + (records + [OP_EOF])
  {
    hide Le, AllRecords;
  }

  method OpenWriter(room: nat, ghost others: set<object>) returns (w: RdbWriter)
    ensures w.Valid() && w.out == [] && w.room == room && fresh(w) && {w, w.table} !! others
  {
    w := new RdbWriter(room);
  }

  /** Everything that the checksum covers. */
  method SaveBody(w: RdbWriter, db: Database, dbId: nat, clock: Clock) returns (s: Status)
    requires w.Valid() && w.out == [] && db.Valid() && {w, w.table} !! db.Repr()
    modifies w`out, w`crc, w`bytesWritten, db.Repr()
    ensures w.Valid() && db.Valid() && db.Grew() && db.Contents() == old(db.Contents())
    ensures Wrote([], Body(dbId, old(RecordsOf(db, clock))), w.out, w.room, s)
    ensures DictScan.Lists(old(Visited(db, clock(0))), Canon(old(db.Contents()), clock(0)).vals)
  {
    hide Le, Visited, RecordsOf, AllRecords, Wrote, Body;
    hide RdbWriter.Valid, Database.Valid, Database.Repr, Database.Contents, Canon, DictScan.Lists;
    VisitedIsLive(db, clock(0));
    ghost var rs := RecordsOf(db, clock);
    ghost var preamble, records := MAGIC + Le(VERSION, 2), ([OP_DB] + Le(dbId, 4)) + AllRecords(rs);
    Layout(preamble, records, dbId, rs);
    s := WritePreamble(w);
    if s != Fine { Failed([], preamble, w.out, records + [OP_EOF], w.room, s); return; }
    ghost var first := w.out;
    s := SaveDatabase(w, db, dbId, clock);
    if s != Fine {
      WroteMore([], preamble, first, records, w.out, w.room, s);
      Failed([], preamble + records, w.out, [OP_EOF], w.room, s);
      return;
    }
    ghost var second := w.out;
    s := w.WriteByte(OP_EOF);
    WroteMore([], preamble, first, records, second, w.room, Fine);
    WroteMore([], preamble + records, second, [OP_EOF], w.out, w.room, s);
  }

  /** How much of a snapshot reaches a disk that takes `room` bytes, and `atOnce` with the last call. */
  function Kept(f: bytes, room: nat, atOnce: nat): (n: nat)
    requires |f| >= 8
    ensures n <= |f|
  {
    Min(|f|, Min(room, |f| - 8 + atOnce))
  }

  lemma {:induction false} KeptAll(f: bytes, room: nat, atOnce: nat)
    requires |f| >= 8
    ensures Kept(f, room, atOnce) == |f| <==> room >= |f| && atOnce >= 8
  {
  }

  lemma {:induction false} KeptBody(body: bytes, sum: bytes, w: bytes, room: nat, atOnce: nat, s: Status)
    requires |sum| == 8 && Wrote([], body, w, room, s)
    ensures s != Fine ==> s == IoError && Kept(body + sum, room, atOnce) < |body|
                          && w == (body + sum)[..Kept(body + sum, room, atOnce)]
    ensures s == Fine ==> w == body && room >= |body|
                          && var n := Min(8, Min(atOnce, room - |body|));
                             Kept(body + sum, room, atOnce) == |body| + n
                             && body + sum[..n] == (body + sum)[..|body| + n]
  {
    assert [] + body == body;
  }

  /** `rdb_save_sync` up to the rename: the temporary file holds all of the snapshot, or after an error what the
      disk has taken of it. */
  method SaveSync(db: Database, dbId: nat, clock: Clock, room: nat, atOnce: nat) returns (s: Status, file: bytes)
    requires db.Valid()
    modifies db.Repr()
    ensures db.Valid() && db.Grew() && db.Contents() == old(db.Contents())
    ensures var f := File(dbId, old(RecordsOf(db, clock)));
            && |f| >= 8 && file == f[..Kept(f, room, atOnce)]
            && s == if Kept(f, room, atOnce) == |f| then Fine else IoError
    ensures DictScan.Lists(old(Visited(db, clock(0))), Canon(old(db.Contents()), clock(0)).vals)
  {
    hide Crc64.Crc, Le, Visited, RecordsOf, Body, Wrote, Kept, Min;
    hide RdbWriter.Valid, Database.Valid, Database.Repr, Database.Contents, Canon, DictScan.Lists;
    var w := OpenWriter(room, db.Repr());
    ghost var body := Body(dbId, RecordsOf(db, clock));
    ghost var sum := Le(Crc64.Crc(body), 8);
    s := SaveBody(w, db, dbId, clock);
    KeptBody(body, sum, w.out, room, atOnce, s);
    if s != Fine { return s, w.out; }
    s := w.WriteCrc64(atOnce);
    file := w.out;
  }

  /** A complete file restores what was live; an incomplete one is not accepted, so a truncated temporary file
      can never be taken for a snapshot. */
  lemma {:induction false} SaveIsAllOrNothing(visited: DictTable.Chain<Object>, st: Store, clock: Clock,
                                              dbId: nat, n: nat, other: Store)
    requires Sane(st) && RdbRestore.Monotone(clock) && 0 <= clock(0) && dbId < LIMIT32
    requires DictScan.Lists(visited, Canon(st, clock(0)).vals)
    requires RdbRestore.Savable(Canon(st, clock(0)), clock(2 * |visited|) - clock(0))
    requires n <= |File(dbId, Records(visited, st, clock, 0))|
    ensures var f := File(dbId, Records(visited, st, clock, 0));
            && (n == |f| <==> Load(f[..n], other).status == Fine)
            && RdbRestore.Restored(Load(f, EMPTY).store, Canon(st, clock(0)), clock(2 * |visited|) - clock(0))
  {
    hide Sane, RdbRestore.Monotone, RdbRestore.Savable, RdbRestore.Restored, DictScan.Lists, Canon, File, Load;
    hide Records, RecordOf, RdbLaws.Writable;
    var rs := Records(visited, st, clock, 0);
    var f := File(dbId, rs);
    RdbRestore.RecordsAt(visited, st, clock, 0);
    RdbRestore.InsertedIsRestored(visited, st, clock, rs);
    RdbRestore.SavedFileRestores(visited, st, clock, dbId);
    if n == |f| {
      assert f[..n] == f && Holds(f, 0, f);
      RdbLaws.FileLoads(f, dbId, rs, other);
    } else {
      RdbLaws.PrefixRejected(dbId, rs, n, other);
    }
  }

  // ---- reading --------------------------------------------------------------------------

  /** A method's results agree with what `RdbFormat` says about the read. */
  ghost predicate Agrees<T>(r: Read<T>, s: Status, v: T, pos: nat) {
    match r
    case Got(x, p) => s == Fine && v == x && pos == p
    case Bad(e) => s == e && e != Fine
  }

  class RdbReader {
    const file: bytes  // what `read` delivers before the end of the file or its first error
    var pos: nat
    var crc: u64
    const table: array<u64>

    ghost predicate Valid()
      reads this, table
    {
      Crc64.TableOk(table) && pos <= |file| && crc == Crc64.Crc(file[..pos])
    }

    /** Reading fails behind the first `readable` bytes, which are all of the disk's file if no error occurs. */
    constructor (disk: bytes, readable: nat)
      requires readable <= |disk|
      ensures Valid() && file == disk[..readable] && pos == 0 && fresh(table)
    {
      hide Crc64.FeedAll, Crc64.Shifts;
      var t := Crc64.InitTable();
      table := t;
      file, pos, crc := disk[..readable], 0, 0;
      new;
      RdbWriter.EmptySum();
      assert file[..0] == [];
    }

    /** Each call of `read` delivers some of the bytes asked for. The end of the file and a read error have the
        same outcome. */
    method ReadBytes(n: nat) returns (s: Status, data: bytes)
      requires Valid()
      modifies this`pos, this`crc
      ensures Valid() && Agrees(RdbFormat.ReadBytes(file, old(pos), n), s, data, pos)
    {
      hide Crc64.Update, Crc64.TableOk;
      data := [];
      while |data| < n
        invariant Valid() && |data| <= n && pos == old(pos) + |data| && data == file[old(pos)..pos]
        decreases n - |data|
      {
        if pos == |file| { return IoError, data; }
        var available := if |file| - pos < n - |data| then |file| - pos else n - |data|;
        var m :| 1 <= m <= available;
        var chunk := file[pos..pos + m];
        Crc64.UpdateSplits(0, file[..pos], chunk);
        assert file[..pos] + chunk == file[..pos + m];
        crc := Crc64.UpdateByTable(table, crc, chunk);
        data := data + chunk;
        pos := pos + m;
      }
      s := Fine;
    }

    method ReadNumber(k: nat) returns (s: Status, n: nat)
      requires Valid()
      modifies this`pos, this`crc
      ensures Valid() && Agrees(RdbFormat.ReadNumber(file, old(pos), k), s, n, pos)
    {
      hide Crc64.Crc, Crc64.TableOk, FromLe;
      var data;
      s, data := ReadBytes(k);
      n := FromLe(data);
    }

    method ReadLength() returns (s: Status, n: nat)
      requires Valid()
      modifies this`pos, this`crc
      ensures Valid() && Agrees(RdbFormat.ReadLength(file, old(pos)), s, n, pos)
    {
      hide Crc64.Crc, Crc64.TableOk, RdbFormat.ReadNumber;
      var first;
      s, first := ReadNumber(1);
      if s != Fine { return s, 0; }
      if first < 64 {
        n := first;
      } else if 128 <= first < 192 {
        var second;
        s, second := ReadNumber(1);
        n := (first - 128) * 256 + second;
      } else if first >= 192 {
        s, n := ReadNumber(4);
      } else {
        return ProtoError, 0;
      }
    }

    method ReadString() returns (s: Status, data: bytes)
      requires Valid()
      modifies this`pos, this`crc
      ensures Valid() && Agrees(RdbFormat.ReadString(file, old(pos)), s, data, pos)
    {
      hide Crc64.Crc, Crc64.TableOk, RdbFormat.ReadLength, RdbFormat.ReadBytes;
      var n;
      s, n := ReadLength();
      if s != Fine { return s, []; }
      s, data := ReadBytes(n);
    }

    /** The stored sum is read in one call, which delivers no more than `atOnce` bytes, and is not summed. */
    method VerifyCrc64(atOnce: nat, ghost st: Store) returns (s: Status)
      requires Valid()
      modifies this`pos
      ensures s == if atOnce < 8 then IoError else Verify(file, old(pos), st).status
    {
      hide Crc64.Crc, Crc64.TableOk, FromLe;
      var n := Min(8, Min(atOnce, |file| - pos));
      var stored := FromLe(file[pos..pos + n]);
      pos := pos + n;
      if n != 8 { return IoError; }
      return if stored == crc then Fine else IoError;
    }
  }

  method OpenReader(disk: bytes, readable: nat, ghost others: set<object>) returns (r: RdbReader)
    requires readable <= |disk|
    ensures r.Valid() && r.file == disk[..readable] && r.pos == 0 && fresh(r) && {r, r.table} !! others
  {
    r := new RdbReader(disk, readable);
  }

  method InsertInto(db: Database, key: bytes, text: bytes, pending: i64)
    requires db.Valid()
    modifies db.Repr()
    ensures db.Valid() && db.Grew() && db.Contents() == Insert(old(db.Contents()), key, text, pending)
  {
    hide Database.Valid, Database.Repr, Database.Contents;
    db.Set(key, CreateString(text));
    if pending != -1 { db.Expire(key, pending); }
  }

  /** `rdb_load`: the outcome, and the database also when loading fails half-way. A read error behind the first
      `readable` bytes has the effect of a file that ends there. A file that the loader accepts fails exactly if the
      last read delivers only a part of the stored sum. */
  method LoadInto(db: Database, disk: bytes, readable: nat, atOnce: nat) returns (s: Status)
    requires db.Valid() && readable <= |disk|
    modifies db.Repr()
    ensures db.Valid() && db.Grew()
    ensures var r := Load(disk[..readable], old(db.Contents()));
            && s == (if r.status == Fine && atOnce < 8 then IoError else r.status)
            && db.Contents() == r.store
  {
    hide Crc64.Crc, Crc64.TableOk, FromLe, Verify, Insert, LoadOps, LoadRecord;
    hide RdbFormat.ReadNumber, RdbFormat.ReadString;
    hide Database.Valid, Database.Repr, Database.Contents;
    var r := OpenReader(disk, readable, db.Repr());
    var magic, version;
    s, magic := r.ReadBytes(4);
    if s != Fine { return; }
    if magic != MAGIC { return ProtoError; }
    s, version := r.ReadNumber(2);
    if s != Fine { return; }
    if version > VERSION { return ProtoError; }
    s := LoadLoop(r, db, atOnce);
  }

  /** Key, value and insertion of one string record. */
  method LoadEntry(r: RdbReader, db: Database, pending: i64) returns (s: Status)
    requires r.Valid() && db.Valid() && {r, r.table} !! db.Repr()
    modifies r`pos, r`crc, db.Repr()
    ensures r.Valid() && db.Valid() && db.Grew() && {r, r.table} !! db.Repr()
    ensures s == Fine ==> old(r.pos) <= r.pos
    ensures var all := LoadRecord(r.file, old(r.pos), old(db.Contents()), pending, TYPE_STRING);
            if s == Fine then all == LoadOps(r.file, r.pos, db.Contents(), -1)
            else s == all.status && db.Contents() == all.store
  {
    hide Crc64.Crc, Crc64.TableOk, FromLe, LoadOps, Insert, RdbFormat.ReadString;
    hide Database.Valid, Database.Repr, Database.Contents;
    var key, text;
    RdbLaws.ReadAdvances(r.file, r.pos);
    s, key := r.ReadString();
    if s != Fine { return; }
    RdbLaws.ReadAdvances(r.file, r.pos);
    s, text := r.ReadString();
    if s != Fine { return; }
    InsertInto(db, key, text, pending);
  }

  lemma {:induction false} UnknownKind(f: bytes, pos: nat, st: Store, pending: i64, kind: nat)
    requires pos <= |f| && kind != TYPE_STRING
    ensures LoadRecord(f, pos, st, pending, kind) == LoadOps(f, pos, st, pending)
  {
  }

  method LoadLoop(r: RdbReader, db: Database, atOnce: nat) returns (s: Status)
    requires r.Valid() && db.Valid() && {r, r.table} !! db.Repr()
    modifies r`pos, r`crc, db.Repr()
    ensures db.Valid() && db.Grew()
    ensures var all := LoadOps(r.file, old(r.pos), old(db.Contents()), -1);
            && s == (if all.status == Fine && atOnce < 8 then IoError else all.status)
            && db.Contents() == all.store
  {
    hide Crc64.Crc, Crc64.TableOk, FromLe, LoadRecord;
    hide Database.Valid, Database.Repr, Database.Contents;
    ghost var all := LoadOps(r.file, r.pos, db.Contents(), -1);
    var pending: i64 := -1;
    while true
      invariant r.Valid() && db.Valid() && db.Grew() && {r, r.table} !! db.Repr()
      invariant LoadOps(r.file, r.pos, db.Contents(), pending) == all
      decreases |r.file| - r.pos
    {
      var opcode;
      s, opcode := r.ReadNumber(1);
      if s != Fine { return; }
      if opcode == OP_EOF { break; }
      if opcode == OP_DB {
        var dbIndex;
        s, dbIndex := r.ReadNumber(4);
        if s != Fine { return; }
        continue;
      }
      if opcode == OP_EXPIRE {
        var bits;
        s, bits := r.ReadNumber(8);
        if s != Fine { return; }
        pending := RespCodec.Cast(bits);
        s, opcode := r.ReadNumber(1);
        if s != Fine { return; }
      }
      if opcode == TYPE_STRING {
        s := LoadEntry(r, db, pending);
        if s != Fine { return; }
        pending := -1;
      } else {
        UnknownKind(r.file, r.pos, db.Contents(), pending, opcode);
      }
    }
    s := r.VerifyCrc64(atOnce, db.Contents());
  }

  /** The time from the start of a save to its last reading of the clock. */
  ghost function Elapsed(db: Database, clock: Clock): int
    reads db, db.keys, db.keys.b0, db.keys.b1, db.expires, db.expires.b0, db.expires.b1
  {
    clock(2 * |Visited(db, clock(0))|) - clock(0)
  }

  lemma {:induction false} RecordsAre(db: Database, clock: Clock)
    ensures RecordsOf(db, clock) == Records(Visited(db, clock(0)), db.Contents(), clock, 0)
  {
  }

  /** A save and a load into an empty database, as over a restart of the server: the save succeeds exactly if the
      disk takes the whole file, the load exactly if the save did and the stored sum arrives whole, and then
      everything that was live is back. */
  method SaveAndReload(db: Database, next: Database, dbId: nat, clock: Clock, room: nat, writeAtOnce: nat,
                       readAtOnce: nat)
    returns (saved: Status, loaded: Status)
    requires db.Valid() && next.Valid() && db.Repr() !! next.Repr() && next.Contents() == EMPTY
    requires Sane(db.Contents()) && RdbRestore.Monotone(clock) && 0 <= clock(0) && dbId < LIMIT32
    requires RdbRestore.Savable(Canon(db.Contents(), clock(0)), Elapsed(db, clock))
    modifies db.Repr(), next.Repr()
    ensures next.Valid()
    ensures saved == Fine <==> room >= |File(dbId, old(RecordsOf(db, clock)))| && writeAtOnce >= 8
    ensures loaded == Fine <==> saved == Fine && readAtOnce >= 8
    ensures loaded == Fine ==>
              RdbRestore.Restored(next.Contents(), Canon(old(db.Contents()), clock(0)), old(Elapsed(db, clock)))
  {
    hide RecordsOf, Visited, File, Load, Sane, Canon, Records, RdbRestore.Monotone, RdbRestore.Savable;
    hide RdbRestore.Restored, DictScan.Lists, DictScan.Entries, Database.Valid, Database.Contents, Kept, LiveEntries;
    ghost var visited, st, f := Visited(db, clock(0)), db.Contents(), File(dbId, RecordsOf(db, clock));
    assert RecordsOf(db, clock) == Records(visited, st, clock, 0) by { RecordsAre(db, clock); }
    assert Elapsed(db, clock) == clock(2 * |visited|) - clock(0);
    var file;
    saved, file := SaveSync(db, dbId, clock, room, writeAtOnce);
    KeptAll(f, room, writeAtOnce);
    SaveIsAllOrNothing(visited, st, clock, dbId, Kept(f, room, writeAtOnce), EMPTY);
    assert file[..|file|] == file && (|file| == |f| ==> file == f) && f[..|f|] == f;
    loaded := LoadInto(next, file, |file|, readAtOnce);
  }
}
