/**
 Saving and loading. `FileLoads`: a saved file is accepted and inserts exactly its records. `PrefixRejected`,
 `LoadChecksSum`: an incomplete file is not accepted, nor one whose checksum does not fit.
 */
module RdbLaws {
  import opened Common
  import opened Objects
  import opened StoreSpec
  import opened RdbFormat
  import opened RdbSpec
  import Crc64
  import Decimal
  import RespCodec

  // ---- a snapshot byte by byte ----------------------------------------------------------

  /** The forms of a length: one byte, two bytes, or a marker and four bytes. */
  lemma {:induction false} LengthExamples()
    ensures LengthPrefix(5) == [5] && LengthPrefix(300) == [129, 44] && LengthPrefix(70000) == [192, 112, 17, 1, 0]
  {
    NumberForm(70000);
  }

  /** `k` holding `v`: the type byte, the key, the value. */
  lemma {:induction false} RecordExample()
    ensures RecordBytes(Record([107], [118], None)) == [0, 1, 107, 1, 118]
  {
    assert StringBytes([107]) == [1, 107] && StringBytes([118]) == [1, 118];
  }

  /** A deadline goes in front of it. */
  lemma {:induction false} DeadlineExample(r: Record, t: i64)
    ensures DeadlineBytes(Some(5)) == [252, 5, 0, 0, 0, 0, 0, 0, 0]
    ensures RecordBytes(r.(deadline := Some(t))) == DeadlineBytes(Some(t)) + RecordBytes(r.(deadline := None))
  {
    hide StringBytes;
    NumberForm(5);
    NumberForm(0);
    hide Le;
    assert [] + ([TYPE_STRING] + (StringBytes(r.key) + StringBytes(r.text)))
        == [TYPE_STRING] + (StringBytes(r.key) + StringBytes(r.text));
  }

  /** What precedes the records of database 0, and what follows them up to the checksum. */
  lemma {:induction false} FrameExample(rs: seq<Record>)
    ensures Body(0, rs) == ([75, 69, 86, 65] + ([1, 0] + ([254] + [0, 0, 0, 0]))) + (AllRecords(rs) + [255])
  {
    hide AllRecords;
    NumberForm(1);
    NumberForm(0);
    hide Le;
  }

  // ---- a written record is read back ----------------------------------------------------

  function InsertRecord(st: Store, r: Record): Store {
    Insert(st, r.key, r.text, if r.deadline.Some? then r.deadline.value else -1)
  }

  function InsertAll(st: Store, rs: seq<Record>): Store
    decreases |rs|
  {
    if rs == [] then st else InsertAll(InsertRecord(st, rs[0]), rs[1..])
  }

  /** Lengths fit the 32-bit field, and the deadline is not the loader's mark for "none". */
  predicate Writable(r: Record) {
    |r.key| < LIMIT32 && |r.text| < LIMIT32 && r.deadline != Some(-1)
  }

  lemma {:induction false} StringRecordFound(f: bytes, at: nat, r: Record, st: Store, pending: i64)
    requires Writable(r) && Holds(f, at, StringBytes(r.key) + StringBytes(r.text))
    ensures LoadRecord(f, at, st, pending, TYPE_STRING)
         == LoadOps(f, at + |StringBytes(r.key) + StringBytes(r.text)|, Insert(st, r.key, r.text, pending), -1)
  {
    hide ReadString, StringBytes, LoadOps, Insert;
    HoldsSplit(f, at, StringBytes(r.key), StringBytes(r.text));
    StringFound(f, at, r.key);
    StringFound(f, at + |StringBytes(r.key)|, r.text);
  }

  lemma {:induction false} RecordFound(f: bytes, at: nat, r: Record, st: Store)
    requires Writable(r) && Holds(f, at, RecordBytes(r))
    ensures LoadOps(f, at, st, -1) == LoadOps(f, at + |RecordBytes(r)|, InsertRecord(st, r), -1)
  {
    hide StringBytes, LoadRecord, Insert, ReadNumber, Le, Unsigned, Exp256;
    var data := StringBytes(r.key) + StringBytes(r.text);
    HoldsSplit(f, at, DeadlineBytes(r.deadline), [TYPE_STRING] + data);
    var p := at + |DeadlineBytes(r.deadline)|;
    HoldsSplit(f, p, [TYPE_STRING], data);
    ByteFound(f, p, TYPE_STRING);
    if r.deadline.Some? {
      var t := r.deadline.value;
      HoldsSplit(f, at, [OP_EXPIRE], Le(Unsigned(t), 8));
      ByteFound(f, at, OP_EXPIRE);
      DeadlineFound(f, at + 1, t);
      StringRecordFound(f, p + 1, r, st, t);
    } else {
      StringRecordFound(f, p + 1, r, st, -1);
    }
  }

  lemma {:induction false} DeadlineFound(f: bytes, at: nat, t: i64)
    requires Holds(f, at, Le(Unsigned(t), 8))
    ensures var n := ReadNumber(f, at, 8); n.Got? && n.pos == at + 8 && RespCodec.Cast(n.value) == t
  {
    Powers();
    SignedRoundTrip(t);
    NumberFound(f, at, Unsigned(t), 8);
  }

  lemma {:induction false} AllRecordsFound(f: bytes, at: nat, rs: seq<Record>, st: Store)
    requires (forall i | 0 <= i < |rs| :: Writable(rs[i])) && Holds(f, at, AllRecords(rs))
    ensures LoadOps(f, at, st, -1) == LoadOps(f, at + |AllRecords(rs)|, InsertAll(st, rs), -1)
    decreases |rs|
  {
    hide RecordBytes, LoadOps, InsertRecord;
    if rs != [] {
      HoldsSplit(f, at, RecordBytes(rs[0]), AllRecords(rs[1..]));
      RecordFound(f, at, rs[0], st);
      AllRecordsFound(f, at + |RecordBytes(rs[0])|, rs[1..], InsertRecord(st, rs[0]));
    }
  }

  lemma {:induction false} HeaderFound(f: bytes, dbId: nat, st: Store)
    requires dbId < LIMIT32 && Holds(f, 0, Header(dbId))
    ensures Load(f, st) == LoadOps(f, |Header(dbId)|, st, -1)
  {
    hide LoadRecord, Le, FromLe;
    HoldsSplit(f, 0, MAGIC, Le(VERSION, 2) + ([OP_DB] + Le(dbId, 4)));
    HoldsSplit(f, 4, Le(VERSION, 2), [OP_DB] + Le(dbId, 4));
    HoldsSplit(f, 6, [OP_DB], Le(dbId, 4));
    Powers();
    NumberFound(f, 4, VERSION, 2);
    ByteFound(f, 6, OP_DB);
    NumberFound(f, 7, dbId, 4);
    assert f[0..4] == MAGIC;
  }

  lemma {:induction false} TrailerFound(f: bytes, at: nat, body: bytes, st: Store)
    requires Holds(f, 0, body + Le(Crc64.Crc(body), 8)) && at + 1 == |body| && Holds(f, at, [OP_EOF])
    ensures LoadOps(f, at, st, -1) == Loaded(Fine, st, |body| + 8)
  {
    hide LoadRecord, Le, FromLe, Crc64.Crc;
    HoldsSplit(f, 0, body, Le(Crc64.Crc(body), 8));
    ByteFound(f, at, OP_EOF);
    Powers();
    NumberFound(f, |body|, Crc64.Crc(body), 8);
    assert f[..|body|] == f[0..|body|];
  }

  /** A saved file is accepted, is read to its last byte, and inserts exactly its records. Bytes behind
      it are not looked at. */
  lemma {:induction false} FileLoads(f: bytes, dbId: nat, rs: seq<Record>, st: Store)
    requires dbId < LIMIT32 && (forall i | 0 <= i < |rs| :: Writable(rs[i]))
    requires Holds(f, 0, File(dbId, rs))
    ensures Load(f, st) == Loaded(Fine, InsertAll(st, rs), |File(dbId, rs)|)
  {
    hide Header, AllRecords, LoadOps, InsertAll, Load, Le, Crc64.Crc, Writable;
    var body := Body(dbId, rs);
    HoldsSplit(f, 0, body, Le(Crc64.Crc(body), 8));
    HoldsSplit(f, 0, Header(dbId), AllRecords(rs) + [OP_EOF]);
    HeaderFound(f, dbId, st);
    HoldsSplit(f, |Header(dbId)|, AllRecords(rs), [OP_EOF]);
    AllRecordsFound(f, |Header(dbId)|, rs, st);
    TrailerFound(f, |Header(dbId)| + |AllRecords(rs)|, body, InsertAll(st, rs));
  }

  // ---- what else a file may hold --------------------------------------------------------

  /** A file that is cut in front of its version, bears another mark or is newer is refused before anything is
      stored. */
  lemma {:induction false} LoadRefuses(f: bytes, st: Store)
    ensures |f| < 4 ==> Load(f, st).status == IoError && Load(f, st).store == st
    ensures |f| >= 4 && f[..4] != [75, 69, 86, 65] ==>
              Load(f, st).status == ProtoError && Load(f, st).store == st
    ensures 4 <= |f| < 6 && f[..4] == [75, 69, 86, 65] ==>
              Load(f, st).status == IoError && Load(f, st).store == st
    ensures |f| >= 6 && f[..4] == [75, 69, 86, 65] && (f[4] > 1 || f[5] > 0) ==>
              Load(f, st).status == ProtoError && Load(f, st).store == st
  {
    hide LoadOps, Crc64.Crc;
    if |f| >= 6 {
      assert f[4..6] == [f[4]] + [f[5]] && f[4..6][1..] == [f[5]] && [f[5]][1..] == [];
      assert FromLe(f[4..6]) == f[4] + 256 * FromLe([f[5]]);
    }
  }

  predicate Unknown(junk: bytes) {
    forall i | 0 <= i < |junk| :: junk[i] !in {0, 252, 254, 255}
  }

  lemma {:induction false} JunkFound(f: bytes, at: nat, junk: bytes, st: Store, pending: i64)
    requires Holds(f, at, junk) && Unknown(junk)
    ensures LoadOps(f, at, st, pending) == LoadOps(f, at + |junk|, st, pending)
    decreases |junk|
  {
    hide FromLe, ReadString, Insert, Crc64.Crc;
    if junk != [] {
      assert junk == [junk[0]] + junk[1..];
      HoldsSplit(f, at, [junk[0]], junk[1..]);
      ByteFound(f, at, junk[0]);
      JunkFound(f, at + 1, junk[1..], st, pending);
    }
  }

  /** Opcodes that the loader does not know are skipped wherever they stand between records; with the sum adjusted
      the file loads as if they were not there. */
  lemma {:induction false} UnknownSkipped(dbId: nat, a: seq<Record>, junk: bytes, b: seq<Record>, st: Store)
    requires dbId < LIMIT32 && Unknown(junk)
    requires (forall i | 0 <= i < |a| :: Writable(a[i])) && (forall i | 0 <= i < |b| :: Writable(b[i]))
    ensures var body := Header(dbId) + (AllRecords(a) + (junk + (AllRecords(b) + [255])));
            Load(body + Le(Crc64.Crc(body), 8), st) == Loaded(Fine, InsertAll(InsertAll(st, a), b), |body| + 8)
  {
    hide Header, AllRecords, LoadOps, InsertAll, Load, Le, Crc64.Crc, Writable, Unknown;
    var last := AllRecords(b) + [255];
    var body := Header(dbId) + (AllRecords(a) + (junk + last));
    var f := body + Le(Crc64.Crc(body), 8);
    assert Holds(f, 0, f);
    HoldsSplit(f, 0, body, Le(Crc64.Crc(body), 8));
    HoldsSplit(f, 0, Header(dbId), AllRecords(a) + (junk + last));
    HeaderFound(f, dbId, st);
    var p := |Header(dbId)|;
    HoldsSplit(f, p, AllRecords(a), junk + last);
    AllRecordsFound(f, p, a, st);
    HoldsSplit(f, p + |AllRecords(a)|, junk, last);
    JunkFound(f, p + |AllRecords(a)|, junk, InsertAll(st, a), -1);
    var q := p + |AllRecords(a)| + |junk|;
    HoldsSplit(f, q, AllRecords(b), [255]);
    AllRecordsFound(f, q, b, InsertAll(st, a));
    TrailerFound(f, q + |AllRecords(b)|, body, InsertAll(InsertAll(st, a), b));
  }

  // ---- loading reads only what it consumes ----------------------------------------------

  lemma {:induction false} OpsLocal(f: bytes, g: bytes, pos: nat, st: Store, pending: i64, n: nat)
    requires SameHead(f, g, n) && pos <= n
    requires LoadOps(f, pos, st, pending).status.Fine? && LoadOps(f, pos, st, pending).pos <= n
    ensures LoadOps(g, pos, st, pending) == LoadOps(f, pos, st, pending)
    decreases |f| - pos, 0
  {
    hide FromLe, ReadString, Insert, Crc64.Crc;
    ReachesBound(f, pos, st, pending);
    BytesLocal(f, g, pos, 1, n);
    var opcode := ReadNumber(f, pos, 1).value;
    if opcode == OP_EOF {
      BytesLocal(f, g, pos + 1, 8, n);
      assert f[..pos + 1] == f[..n][..pos + 1] && g[..pos + 1] == g[..n][..pos + 1];
    } else if opcode == OP_DB {
      ReachesBound(f, pos + 5, st, pending);
      BytesLocal(f, g, pos + 1, 4, n);
      OpsLocal(f, g, pos + 5, st, pending, n);
    } else if opcode == OP_EXPIRE {
      ExpireLocal(f, g, pos, st, n);
    } else {
      RecordLocal(f, g, pos + 1, st, pending, opcode, n);
    }
  }

  lemma {:induction false} ExpireLocal(f: bytes, g: bytes, pos: nat, st: Store, n: nat)
    requires SameHead(f, g, n) && pos + 10 <= |f|
    requires var kind := ReadNumber(f, pos + 9, 1).value;
             var r := LoadRecord(f, pos + 10, st, RespCodec.Cast(ReadNumber(f, pos + 1, 8).value), kind);
             r.status.Fine? && r.pos <= n
    ensures ReadNumber(g, pos + 1, 8) == ReadNumber(f, pos + 1, 8)
    ensures ReadNumber(g, pos + 9, 1) == ReadNumber(f, pos + 9, 1)
    ensures pos + 10 <= |g|
    ensures var kind := ReadNumber(f, pos + 9, 1).value; var p := RespCodec.Cast(ReadNumber(f, pos + 1, 8).value);
            LoadRecord(g, pos + 10, st, p, kind) == LoadRecord(f, pos + 10, st, p, kind)
    decreases |f| - pos - 10, 2
  {
    hide FromLe, LoadRecord, ReadString, Insert;
    var kind, p := ReadNumber(f, pos + 9, 1).value, RespCodec.Cast(ReadNumber(f, pos + 1, 8).value);
    RecordReachesBound(f, pos + 10, st, p, kind);
    BytesLocal(f, g, pos + 1, 8, n);
    BytesLocal(f, g, pos + 9, 1, n);
    RecordLocal(f, g, pos + 10, st, p, kind, n);
  }

  lemma {:induction false} RecordLocal(f: bytes, g: bytes, pos: nat, st: Store, pending: i64, kind: nat, n: nat)
    requires SameHead(f, g, n) && pos <= n
    requires LoadRecord(f, pos, st, pending, kind).status.Fine? && LoadRecord(f, pos, st, pending, kind).pos <= n
    ensures LoadRecord(g, pos, st, pending, kind) == LoadRecord(f, pos, st, pending, kind)
    decreases |f| - pos, 1
  {
    hide LoadOps, ReadString, Insert;
    if kind != TYPE_STRING {
      OpsLocal(f, g, pos, st, pending, n);
    } else {
      var key := ReadString(f, pos);
      ReadAdvances(f, pos);
      ReadAdvances(f, key.pos);
      var text := ReadString(f, key.pos);
      ReachesBound(f, text.pos, Insert(st, key.value, text.value, pending), -1);
      StringLocal(f, g, pos, n);
      StringLocal(f, g, key.pos, n);
      OpsLocal(f, g, text.pos, Insert(st, key.value, text.value, pending), -1, n);
    }
  }

  lemma {:induction false} ReadAdvances(f: bytes, pos: nat)
    ensures match ReadString(f, pos) { case Got(_, p) => pos < p <= |f| case Bad(e) => e != Fine }
  {
    hide FromLe;
  }

  /** A successful load consumes at least the checksum beyond the position it is at. */
  lemma {:induction false} ReachesBound(f: bytes, pos: nat, st: Store, pending: i64)
    requires pos <= |f| && LoadOps(f, pos, st, pending).status.Fine?
    ensures pos + 9 <= LoadOps(f, pos, st, pending).pos
    decreases |f| - pos, 0
  {
    hide FromLe, ReadString, Insert, Crc64.Crc;
    var opcode := ReadNumber(f, pos, 1).value;
    if opcode == OP_EOF {
    } else if opcode == OP_DB {
      ReachesBound(f, pos + 5, st, pending);
    } else if opcode == OP_EXPIRE {
      var deadline := RespCodec.Cast(ReadNumber(f, pos + 1, 8).value);
      RecordReachesBound(f, pos + 10, st, deadline, ReadNumber(f, pos + 9, 1).value);
    } else {
      RecordReachesBound(f, pos + 1, st, pending, opcode);
    }
  }

  lemma {:induction false} RecordReachesBound(f: bytes, pos: nat, st: Store, pending: i64, kind: nat)
    requires pos <= |f| && LoadRecord(f, pos, st, pending, kind).status.Fine?
    ensures pos + 9 <= LoadRecord(f, pos, st, pending, kind).pos
    decreases |f| - pos, 1
  {
    hide LoadOps, ReadString, Insert;
    if kind != TYPE_STRING {
      ReachesBound(f, pos, st, pending);
    } else {
      var key := ReadString(f, pos);
      ReadAdvances(f, pos);
      ReadAdvances(f, key.pos);
      var text := ReadString(f, key.pos);
      ReachesBound(f, text.pos, Insert(st, key.value, text.value, pending), -1);
    }
  }

  lemma {:induction false} LoadLocal(f: bytes, g: bytes, st: Store)
    requires Load(f, st).status.Fine? && SameHead(f, g, Load(f, st).pos)
    ensures Load(g, st) == Load(f, st)
  {
    hide FromLe, LoadOps;
    var n := Load(f, st).pos;
    ReachesBound(f, 6, st, -1);
    BytesLocal(f, g, 0, 4, n);
    BytesLocal(f, g, 4, 2, n);
    OpsLocal(f, g, 6, st, -1, n);
  }

  /** A file that is accepted is not accepted when it ends, or cannot be read, before the last byte consumed. */
  lemma {:induction false} CutRejected(f: bytes, n: nat, st: Store)
    requires Load(f, st).status.Fine? && n < Load(f, st).pos
    ensures !Load(f[..n], st).status.Fine?
  {
    hide Load;
    var p := f[..n];
    if Load(p, st).status.Fine? {
      assert f[..Load(p, st).pos] == p[..Load(p, st).pos];
      LoadLocal(p, f, st);
    }
  }

  /** No strict prefix of a saved file is accepted, whatever database it is loaded into. */
  lemma {:induction false} PrefixRejected(dbId: nat, rs: seq<Record>, n: nat, st: Store)
    requires dbId < LIMIT32 && (forall i | 0 <= i < |rs| :: Writable(rs[i]))
    requires n < |File(dbId, rs)|
    ensures !Load(File(dbId, rs)[..n], st).status.Fine?
  {
    hide Load, Writable, InsertAll;
    FileLoads(File(dbId, rs), dbId, rs, st);
    CutRejected(File(dbId, rs), n, st);
  }

  // ---- what loading keeps ----------------------------------------------------------------

  lemma {:induction false} InsertSane(st: Store, key: bytes, text: bytes, pending: i64)
    requires Sane(st)
    ensures Sane(Insert(st, key, text, pending))
  {
    CreatedIsWellFormed(text);
  }

  lemma {:induction false} OpsSane(f: bytes, pos: nat, st: Store, pending: i64)
    requires pos <= |f| && Sane(st)
    ensures Sane(LoadOps(f, pos, st, pending).store)
    decreases |f| - pos, 0
  {
    hide FromLe, ReadString, Insert, Crc64.Crc, Sane;
    if pos < |f| {
      var opcode := ReadNumber(f, pos, 1).value;
      if opcode == OP_EOF {
      } else if opcode == OP_DB {
        if pos + 5 <= |f| { OpsSane(f, pos + 5, st, pending); }
      } else if opcode == OP_EXPIRE {
        if pos + 10 <= |f| {
          var deadline := RespCodec.Cast(ReadNumber(f, pos + 1, 8).value);
          RecordSane(f, pos + 10, st, deadline, ReadNumber(f, pos + 9, 1).value);
        }
      } else {
        RecordSane(f, pos + 1, st, pending, opcode);
      }
    }
  }

  lemma {:induction false} RecordSane(f: bytes, pos: nat, st: Store, pending: i64, kind: nat)
    requires pos <= |f| && Sane(st)
    ensures Sane(LoadRecord(f, pos, st, pending, kind).store)
    decreases |f| - pos, 1
  {
    hide LoadOps, ReadString, Insert, Sane;
    if kind != TYPE_STRING {
      OpsSane(f, pos, st, pending);
    } else {
      var key := ReadString(f, pos);
      ReadAdvances(f, pos);
      if key.Got? {
        ReadAdvances(f, key.pos);
        var text := ReadString(f, key.pos);
        if text.Got? {
          InsertSane(st, key.value, text.value, pending);
          OpsSane(f, text.pos, Insert(st, key.value, text.value, pending), -1);
        }
      }
    }
  }

  /** Whatever the file contains, and also when it is rejected half-way, deadlines stay with stored keys. */
  lemma {:induction false} LoadSane(f: bytes, st: Store)
    requires Sane(st)
    ensures Sane(Load(f, st).store)
  {
    hide FromLe, LoadOps, Sane;
    if |f| >= 6 { OpsSane(f, 6, st, -1); }
  }

  /** All keys and values are shorter than 2^32. */
  ghost predicate Short(st: Store) {
    forall k | k in st.vals :: |k| < LIMIT32 && |Text(st.vals[k])| < LIMIT32
  }

  lemma {:induction false} InsertShort(st: Store, key: bytes, text: bytes, pending: i64)
    requires Short(st) && |key| < LIMIT32 && |text| < LIMIT32
    ensures Short(Insert(st, key, text, pending))
  {
    hide Text;
    CreatedShort(text);
  }

  lemma {:induction false} CreatedShort(text: bytes)
    requires |text| < LIMIT32
    ensures |Text(CreateString(text))| < LIMIT32
  {
    if TryParseInt(text) { Decimal.PrintedLength(Decimal.FromChars(text).value); }
  }

  lemma {:induction false} OpsShort(f: bytes, pos: nat, st: Store, pending: i64)
    requires pos <= |f| && Short(st)
    ensures Short(LoadOps(f, pos, st, pending).store)
    decreases |f| - pos, 0
  {
    hide FromLe, ReadString, Insert, Crc64.Crc, Short;
    if pos < |f| {
      var opcode := ReadNumber(f, pos, 1).value;
      if opcode == OP_EOF {
      } else if opcode == OP_DB {
        if pos + 5 <= |f| { OpsShort(f, pos + 5, st, pending); }
      } else if opcode == OP_EXPIRE {
        if pos + 10 <= |f| {
          var deadline := RespCodec.Cast(ReadNumber(f, pos + 1, 8).value);
          RecordShort(f, pos + 10, st, deadline, ReadNumber(f, pos + 9, 1).value);
        }
      } else {
        RecordShort(f, pos + 1, st, pending, opcode);
      }
    }
  }

  lemma {:induction false} RecordShort(f: bytes, pos: nat, st: Store, pending: i64, kind: nat)
    requires pos <= |f| && Short(st)
    ensures Short(LoadRecord(f, pos, st, pending, kind).store)
    decreases |f| - pos, 1
  {
    hide LoadOps, ReadString, Insert, Short;
    if kind != TYPE_STRING {
      OpsShort(f, pos, st, pending);
    } else {
      var key := ReadString(f, pos);
      ReadAdvances(f, pos);
      ReadShort(f, pos);
      if key.Got? {
        ReadAdvances(f, key.pos);
        ReadShort(f, key.pos);
        var text := ReadString(f, key.pos);
        if text.Got? {
          InsertShort(st, key.value, text.value, pending);
          OpsShort(f, text.pos, Insert(st, key.value, text.value, pending), -1);
        }
      }
    }
  }

  /** Whatever the file contains, loading it stores only keys and values shorter than 2^32. */
  lemma {:induction false} LoadShort(f: bytes, st: Store)
    requires Short(st)
    ensures Short(Load(f, st).store)
  {
    hide FromLe, LoadOps, Short;
    if |f| >= 6 { OpsShort(f, 6, st, -1); }
  }

  // ---- the checksum ---------------------------------------------------------------------

  /** The stored sum at the end of the first `n` bytes is the sum of everything before it. */
  predicate SumOk(f: bytes, n: nat) {
    8 <= n <= |f| && FromLe(f[n - 8..n]) == Crc64.Crc(f[..n - 8])
  }

  lemma {:induction false} OpsCheckSum(f: bytes, pos: nat, st: Store, pending: i64)
    requires pos <= |f| && LoadOps(f, pos, st, pending).status.Fine?
    ensures SumOk(f, LoadOps(f, pos, st, pending).pos)
    decreases |f| - pos, 0
  {
    hide FromLe, ReadString, Insert, Crc64.Crc;
    var opcode := ReadNumber(f, pos, 1).value;
    if opcode == OP_EOF {
    } else if opcode == OP_DB {
      OpsCheckSum(f, pos + 5, st, pending);
    } else if opcode == OP_EXPIRE {
      var deadline := RespCodec.Cast(ReadNumber(f, pos + 1, 8).value);
      RecordChecksSum(f, pos + 10, st, deadline, ReadNumber(f, pos + 9, 1).value);
    } else {
      RecordChecksSum(f, pos + 1, st, pending, opcode);
    }
  }

  lemma {:induction false} RecordChecksSum(f: bytes, pos: nat, st: Store, pending: i64, kind: nat)
    requires pos <= |f| && LoadRecord(f, pos, st, pending, kind).status.Fine?
    ensures SumOk(f, LoadRecord(f, pos, st, pending, kind).pos)
    decreases |f| - pos, 1
  {
    hide LoadOps, ReadString, Insert, SumOk;
    if kind != TYPE_STRING {
      OpsCheckSum(f, pos, st, pending);
    } else {
      var key := ReadString(f, pos);
      ReadAdvances(f, pos);
      ReadAdvances(f, key.pos);
      var text := ReadString(f, key.pos);
      OpsCheckSum(f, text.pos, Insert(st, key.value, text.value, pending), -1);
    }
  }

  /** A file is accepted only if the stored sum equals the sum of all bytes consumed before it. */
  lemma {:induction false} LoadChecksSum(f: bytes, st: Store)
    requires Load(f, st).status.Fine?
    ensures SumOk(f, Load(f, st).pos)
  {
    hide LoadOps, SumOk, FromLe;
    OpsCheckSum(f, 6, st, -1);
  }
}
