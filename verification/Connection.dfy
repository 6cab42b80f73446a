/** `Connection`: a read buffer with a consume cursor and a write buffer with a send cursor. */
module ConnectionImpl {
  import opened Common
  import opened Decimal
  import opened Resp
  import opened RespCodec

  /** What one call of `read` or `write` on the socket reports. */
  datatype Received = Data(chunk: bytes) | WouldBlock | EndOfFile | Failed

  datatype Written = Accepted(n: nat) | Blocked | WriteFailed

  /** The bytes that arrive before the first report without data. */
  function Arrived(incoming: seq<Received>): bytes {
    if incoming == [] || !incoming[0].Data? then [] else incoming[0].chunk + Arrived(incoming[1..])
  }

  /** The first report without data. */
  function Ending(incoming: seq<Received>): (r: Received)
    ensures !r.Data?
  {
    if incoming == [] then WouldBlock
    else if incoming[0].Data? then Ending(incoming[1..])
    else incoming[0]
  }

  lemma {:induction false} OneChunk(incoming: seq<Received>)
    ensures |incoming| > 1 && incoming[0].Data? && !incoming[1].Data? ==>
              Arrived(incoming) == incoming[0].chunk && Ending(incoming) == incoming[1]
  {
  }

  /** How many bytes the socket takes before its first report that is no acceptance. */
  function Accepts(writes: seq<Written>): nat {
    if writes == [] || !writes[0].Accepted? then 0 else writes[0].n + Accepts(writes[1..])
  }

  /** The first report that is no acceptance. */
  function Refusal(writes: seq<Written>): (w: Written)
    ensures !w.Accepted?
  {
    if writes == [] then Blocked
    else if writes[0].Accepted? then Refusal(writes[1..])
    else writes[0]
  }

  function Min(a: nat, b: nat): nat {
    if a < b then a else b
  }

  lemma {:induction false} MinIs(a: nat, b: nat)
    ensures Min(a, b) == if a <= b then a else b
  {
  }

  lemma {:induction false} NextWrite(writes: seq<Written>, i: nat)
    requires i <= |writes|
    ensures i == |writes| ==> Accepts(writes[i..]) == 0 && Refusal(writes[i..]) == Blocked
    ensures i < |writes| && writes[i].Accepted? ==>
              && Accepts(writes[i..]) == writes[i].n + Accepts(writes[i + 1..])
              && Refusal(writes[i..]) == Refusal(writes[i + 1..])
    ensures i < |writes| && !writes[i].Accepted? ==> Accepts(writes[i..]) == 0 && Refusal(writes[i..]) == writes[i]
  {
    if i < |writes| { assert writes[i..][1..] == writes[i + 1..]; }
  }

  lemma {:induction false} ExtendTail(buf: bytes, pos: nat, chunk: bytes, rest: bytes)
    requires pos <= |buf|
    ensures buf[pos..] + (chunk + rest) == (buf + chunk)[pos..] + rest
  {
    assert (buf + chunk)[pos..] == buf[pos..] + chunk;
  }

  lemma {:induction false} Regroup(a: bytes, b: bytes, c: bytes)
    ensures (a + b) + c == a + (b + c)
  {
  }

  datatype ConnectionState = Connected | WriteOnly | Closed

  class Connection {
    var readBuf: bytes
    var readPos: nat
    var writeBuf: bytes
    var writePos: nat
    var state: ConnectionState

    predicate Valid()
      reads this
    {
      readPos <= |readBuf| && writePos <= |writeBuf|
    }

    /** `read_view`: received, not yet consumed. */
    function Pending(): bytes
      reads this
      requires Valid()
    {
      readBuf[readPos..]
    }

    /** Answered, not yet sent. */
    function Unsent(): bytes
      reads this
      requires Valid()
    {
      writeBuf[writePos..]
    }

    constructor ()
      ensures Valid() && Pending() == [] && Unsent() == [] && state == Connected
    {
      readBuf, readPos, writeBuf, writePos, state := [], 0, [], 0, Connected;
    }

    method CompactReadBuffer()
      requires Valid()
      modifies this`readBuf, this`readPos
      ensures Valid() && Pending() == old(Pending()) && readPos == 0
    {
      if readPos == 0 { return; }
      var remaining := |readBuf| - readPos;
      readBuf := readBuf[readPos..readPos + remaining];
      readPos := 0;
    }

    /** Reads until the socket has nothing more. Whatever was read is kept, and the consumed part never
        exceeds half of the buffer. */
    method FillReadBuffer(incoming: seq<Received>) returns (total: int)
      requires Valid()
      modifies this`readBuf, this`readPos, this`state
      ensures Valid() && Pending() == old(Pending()) + Arrived(incoming) && 2 * readPos <= |readBuf|
      ensures total == match Ending(incoming) {
                         case EndOfFile => 0
                         case Failed => -1
                         case _ => |Arrived(incoming)|
                       }
      ensures state == if Ending(incoming).WouldBlock? then old(state) else Closed
      ensures |incoming| > 1 && incoming[0].Data? && !incoming[1].Data? ==>
                && Pending() == old(Pending()) + incoming[0].chunk
                && (incoming[1].WouldBlock? ==> total == |incoming[0].chunk| && state == old(state))
                && (!incoming[1].WouldBlock? ==> total <= 0 && state == Closed)
    {
      OneChunk(incoming);
      if readPos > |readBuf| / 2 && readPos > 0 { CompactReadBuffer(); }
      total := 0;
      var i := 0;
      while i < |incoming|
        invariant Valid() && 0 <= i <= |incoming| && 2 * readPos <= |readBuf|
        invariant Pending() + Arrived(incoming[i..]) == old(Pending()) + Arrived(incoming)
        invariant total + |Arrived(incoming[i..])| == |Arrived(incoming)| && Ending(incoming[i..]) == Ending(incoming)
        invariant state == old(state)
        decreases |incoming| - i
      {
        assert incoming[i..][1..] == incoming[i + 1..];
        match incoming[i] {
        case Data(chunk) =>
          ExtendTail(readBuf, readPos, chunk, Arrived(incoming[i + 1..]));
          readBuf := readBuf + chunk;
          total := total + |chunk|;
        case EndOfFile => state := Closed; return 0;
        case WouldBlock => return;
        case Failed => state := Closed; return -1;
        }
        i := i + 1;
      }
      assert incoming[i..] == [];
    }

    /** Advances the cursor, clamped to the end of the buffer. */
    method Consume(n: nat)
      requires Valid()
      modifies this`readPos
      ensures Valid() && Pending() == old(Pending())[if n < |old(Pending())| then n else |old(Pending())|..]
    {
      readPos := readPos + n;
      if readPos > |readBuf| { readPos := |readBuf|; }
    }

    method AppendResponse(data: bytes)
      requires Valid()
      modifies this`writeBuf
      ensures Valid() && writeBuf == old(writeBuf) + data && Unsent() == old(Unsent()) + data
    {
      writeBuf := writeBuf + data;
    }

    /** The socket takes `m` bytes. */
    method Take(m: nat) returns (taken: bytes)
      requires Valid() && m <= |Unsent()|
      modifies this`writePos
      ensures Valid() && taken + Unsent() == old(Unsent()) && |taken| == m && writePos == old(writePos) + m
    {
      taken := writeBuf[writePos..writePos + m];
      writePos := writePos + m;
      assert writeBuf[old(writePos)..] == taken + writeBuf[writePos..];
    }

    /** Sends until everything is out or the socket refuses. Every byte is sent once and in order, as many as
        the socket takes, and the connection closes exactly if the socket fails while bytes wait. */
    method FlushWriteBuffer(writes: seq<Written>) returns (sent: bytes)
      requires Valid()
      modifies this`writeBuf, this`writePos, this`state
      ensures Valid() && sent + Unsent() == old(Unsent()) && |sent| == Min(|old(Unsent())|, Accepts(writes))
      ensures Unsent() == [] ==> writeBuf == []
      ensures state == if Unsent() != [] && Refusal(writes).WriteFailed? then Closed else old(state)
      ensures writes != [] && writes[0].Accepted? && writes[0].n >= |old(Unsent())| ==> sent == old(Unsent())
      ensures writes != [] && !writes[0].Accepted? ==>
                && sent == []
                && state == if writes[0].WriteFailed? && old(Unsent()) != [] then Closed else old(state)
    {
      hide Accepts, Refusal, Min;
      sent := [];
      var i := 0;
      ghost var all, limit := |Unsent()|, Accepts(writes);
      assert [] + Unsent() == Unsent();
      assert writes[i..] == writes;
      NextWrite(writes, 0);
      while i < |writes| && writePos < |writeBuf|
        invariant Valid() && 0 <= i <= |writes| && writeBuf == old(writeBuf) && state == old(state)
        invariant sent + Unsent() == old(Unsent())
        invariant |sent| + |Unsent()| == all
        invariant writePos < |writeBuf| ==> |sent| + Accepts(writes[i..]) == limit
        invariant Refusal(writes[i..]) == Refusal(writes)
        invariant |sent| <= limit
        decreases |writes| - i
      {
        var remaining := |writeBuf| - writePos;
        NextWrite(writes, i);
        match writes[i] {
        case Accepted(n) =>
          var m := if n < remaining then n else remaining;
          var taken := Take(m);
          Regroup(sent, taken, Unsent());
          sent := sent + taken;
        case Blocked => break;
        case WriteFailed =>
          MinIs(all, limit);
          state := Closed;
          return;
        }
        i := i + 1;
      }
      NextWrite(writes, i);
      MinIs(all, limit);
      if writePos >= |writeBuf| {
        writeBuf := [];
        writePos := 0;
      }
    }
  }

  // ---- the encoder, writing into a connection -------------------------------------------

  method WriteIntegerLine(conn: Connection, n: i64)
    requires conn.Valid()
    modifies conn`writeBuf
    ensures conn.Valid() && conn.writeBuf == old(conn.writeBuf) + IntegerLine(n)
  {
    hide ToChars;
    conn.AppendResponse(ToChars(n));
    conn.AppendResponse(CRLF);
    Regroup(old(conn.writeBuf), ToChars(n), CRLF);
  }

  method WriteLine(conn: Connection, prefix: bytes, msg: bytes)
    requires conn.Valid()
    modifies conn`writeBuf
    ensures conn.Valid() && conn.writeBuf == old(conn.writeBuf) + (prefix + msg + CRLF)
  {
    conn.AppendResponse(prefix);
    conn.AppendResponse(msg);
    Regroup(old(conn.writeBuf), prefix, msg);
    conn.AppendResponse(CRLF);
    Regroup(old(conn.writeBuf), prefix + msg, CRLF);
  }

  /** A type byte and a number. */
  method WriteHeader(conn: Connection, prefix: byte, n: i64)
    requires conn.Valid()
    modifies conn`writeBuf
    ensures conn.Valid() && conn.writeBuf == old(conn.writeBuf) + ([prefix] + IntegerLine(n))
  {
    hide IntegerLine;
    conn.AppendResponse([prefix]);
    WriteIntegerLine(conn, n);
    Regroup(old(conn.writeBuf), [prefix], IntegerLine(n));
  }

  method WriteBulkString(conn: Connection, data: bytes)
    requires conn.Valid()
    modifies conn`writeBuf
    ensures conn.Valid() && conn.writeBuf == old(conn.writeBuf) + EncodeBulk(data)
  {
    hide IntegerLine, Cast;
    WriteHeader(conn, DOLLAR, Cast(|data|));
    ghost var header := conn.writeBuf;
    conn.AppendResponse(data);
    conn.AppendResponse(CRLF);
    Regroup(header, data, CRLF);
    Regroup(old(conn.writeBuf), [DOLLAR] + IntegerLine(Cast(|data|)), data + CRLF);
  }

  method WriteArray(conn: Connection, vs: seq<Value>)
    requires conn.Valid()
    modifies conn`writeBuf
    ensures conn.Valid() && conn.writeBuf == old(conn.writeBuf) + Encode(Array(vs))
    decreases vs, 1
  {
    hide IntegerLine, Cast;
    WriteHeader(conn, ASTERISK, Cast(|vs|));
    Regroup(old(conn.writeBuf), ArrayHeader(Cast(|vs|)), EncodeAll(vs));
    WriteElements(conn, vs);
  }

  method WriteElements(conn: Connection, vs: seq<Value>)
    requires conn.Valid()
    modifies conn`writeBuf
    ensures conn.Valid() && conn.writeBuf == old(conn.writeBuf) + EncodeAll(vs)
    decreases vs, 0
  {
    hide Encode;
    var i := 0;
    while i < |vs|
      invariant 0 <= i <= |vs| && conn.Valid()
      invariant old(conn.writeBuf) + EncodeAll(vs) == conn.writeBuf + EncodeAll(vs[i..])
    {
      assert vs[i..][1..] == vs[i + 1..];
      Regroup(conn.writeBuf, Encode(vs[i]), EncodeAll(vs[i + 1..]));
      EncodeTo(conn, vs[i]);
      i := i + 1;
    }
    assert conn.writeBuf + EncodeAll(vs[i..]) == conn.writeBuf;
  }

  /** `encode`: recursive over the value, appending as it goes. */
  method EncodeTo(conn: Connection, v: Value)
    requires conn.Valid()
    modifies conn`writeBuf
    ensures conn.Valid() && conn.writeBuf == old(conn.writeBuf) + Encode(v)
    decreases v, 2
  {
    hide IntegerLine, EncodeBulk, EncodeAll;
    match v
    case SimpleString(s) => WriteLine(conn, [PLUS], s);
    case Error(s) =>
      WriteLine(conn, [DASH] + ERR_PREFIX, s);
      Regroup([DASH], ERR_PREFIX, s);
    case Integer(n) => WriteHeader(conn, COLON, n);
    case BulkString(s) => WriteBulkString(conn, s);
    case Nil => WriteHeader(conn, DOLLAR, -1);
    case Array(vs) => WriteArray(conn, vs);
  }
}
