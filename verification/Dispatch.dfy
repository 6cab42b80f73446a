/**
 The pipeline loop of the dispatcher: parse, consume, execute, reply, until the read buffer holds no
 further complete message.
 */
module Dispatch {
  import opened Common
  import opened Resp
  import RespCodec
  import RespParser
  import opened Stream
  import opened StoreSpec
  import opened Commands
  import opened Serve
  import Handlers
  import opened DatabaseImpl
  import opened ConnectionImpl

  /** One message on the database. */
  method ServeMessage(v: Value, db: Database, m: Moment) returns (reply: Value)
    requires db.Valid()
    modifies db.Repr()
    ensures db.Valid() && db.Grew()
    ensures Result(db.Contents(), reply) == ServeOne(v, old(db.Contents()), At(m, old(db.Order())))
  {
    hide Database.Valid, Database.Repr, Database.Contents, Database.Order, Exec, Ascii;
    if !v.Array? || v.elements == [] { return Fail("Protocol error: expected array"); }
    if !v.elements[0].BulkString? { return Fail(COMMAND_NAME_ERROR); }
    var name := Upper(v.elements[0].str);
    var entry := Find(name);
    if entry.None? { return Error(Ascii("unknown command `") + name + Ascii("`")); }
    if !ArityOk(entry.value, |v.elements|) {
      return Error(Ascii("wrong number of arguments for '") + name + Ascii("' command"));
    }
    reply := Handlers.Execute(entry.value, db, v.elements, m.now, m.report);
  }

  /** One turn of the loop: nothing happens unless a complete message or an error is there. */
  method ServeNext(conn: Connection, db: Database, m: Moment) returns (result: Outcome)
    requires conn.Valid() && db.Valid() && conn !in db.Repr()
    modifies conn, db.Repr()
    ensures conn.Valid() && db.Valid() && db.Grew() && conn !in db.Repr()
    ensures result == Parse(old(conn.Pending())) && conn.writePos == old(conn.writePos)
    ensures !result.Complete? ==> conn.Pending() == old(conn.Pending()) && db.Contents() == old(db.Contents())
    ensures result.Incomplete? ==> conn.writeBuf == old(conn.writeBuf) && conn.state == old(conn.state)
    ensures result.Malformed? ==>
              conn.writeBuf == old(conn.writeBuf) + Complaint(true) && conn.state == WriteOnly
    ensures result.Complete? ==>
              var r := ServeOne(result.value, old(db.Contents()), At(m, old(db.Order())));
              && conn.Pending() == old(conn.Pending())[result.pos..]
              && conn.state == (if Quits(result.value) then WriteOnly else old(conn.state))
              && db.Contents() == r.store && conn.writeBuf == old(conn.writeBuf) + RespCodec.Encode(r.reply)
  {
    hide Database.Valid, Database.Repr, Database.Contents, Database.Order, ServeOne, ParseValue, RespCodec.Encode;
    var buf := conn.readBuf[conn.readPos..];
    var consumed;
    result, consumed := RespParser.ParseMessage(buf);
    if result.Malformed? {
      EncodeTo(conn, Fail(PROTOCOL_ERROR));
      conn.state := WriteOnly;
    }
    if result.Complete? {
      conn.Consume(consumed);
      var reply := ServeMessage(result.value, db, m);
      EncodeTo(conn, reply);
      if Quits(result.value) { conn.state := WriteOnly; }
    }
  }

  lemma {:induction false} ServeSnoc(vs: seq<Value>, v: Value, st: Store, envs: seq<Env>, env: Env)
    requires |envs| == |vs|
    ensures var (s, out) := ServeAll(vs, st, envs); var r := ServeOne(v, s, env);
            ServeAll(vs + [v], st, envs + [env]) == (r.store, out + RespCodec.Encode(r.reply))
    ensures OrdersFit(vs, st, envs) && Enumerates(env.order, ServeAll(vs, st, envs).0.vals.Keys)
            ==> OrdersFit(vs + [v], st, envs + [env])
  {
    hide RespCodec.Encode, ServeOne, Enumerates;
    var s := ServeAll(vs, st, envs).0;
    var r := ServeOne(v, s, env);
    ServeConcat(vs, [v], st, envs, [env]);
    assert ServeAll([v][1..], r.store, [env][1..]) == (r.store, []);
    assert RespCodec.Encode(r.reply) + [] == RespCodec.Encode(r.reply);
    assert OrdersFit([v][1..], r.store, [env][1..]);
  }

  /** One of the messages quits. */
  ghost predicate Quitting(vs: seq<Value>) {
    exists i | 0 <= i < |vs| :: Quits(vs[i])
  }

  lemma {:induction false} QuittingSnoc(vs: seq<Value>, v: Value)
    ensures Quitting(vs + [v]) <==> Quitting(vs) || Quits(v)
  {
    if Quitting(vs) {
      var i :| 0 <= i < |vs| && Quits(vs[i]);
      assert (vs + [v])[i] == vs[i];
    }
    if Quits(v) { assert (vs + [v])[|vs|] == v; }
  }

  /** What the first message, or its absence, means for everything still to be extracted. */
  lemma {:induction false} TakeFirst(done: seq<Value>, buf: bytes)
    ensures buf == [] ==> Extract(buf) == Extraction([], [], false)
    ensures buf != [] && !Parse(buf).Complete? ==> Extract(buf) == Extraction([], buf, Parse(buf).Malformed?)
    ensures buf == [] || !Parse(buf).Complete? ==> done + Extract(buf).values == done
    ensures buf != [] && Parse(buf).Complete? ==>
              0 < Parse(buf).pos <= |buf| && var f := Extract(buf[Parse(buf).pos..]);
              && Extract(buf).rest == f.rest && Extract(buf).error == f.error
              && done + Extract(buf).values == (done + [Parse(buf).value]) + f.values
  {
    hide ParseValue;
  }

  /** Serves everything that is complete. `world(first + i)` is what is observed when message i is served;
      `envs` records that and the enumeration order met by each message. */
  method Run(conn: Connection, db: Database, world: nat -> Moment, first: nat)
    returns (served: nat, ghost envs: seq<Env>)
    requires conn.Valid() && db.Valid() && conn !in db.Repr()
    modifies conn, db.Repr()
    ensures conn.Valid() && db.Valid() && db.Grew() && conn !in db.Repr()
    ensures var e := Extract(old(conn.Pending()));
            && served == |envs| == |e.values| && conn.Pending() == e.rest
            && (forall i | 0 <= i < served :: envs[i] == At(world(first + i), envs[i].order))
            && OrdersFit(e.values, old(db.Contents()), envs)
            && db.Contents() == ServeAll(e.values, old(db.Contents()), envs).0
            && conn.writeBuf == old(conn.writeBuf) + ServeAll(e.values, old(db.Contents()), envs).1
                                + Complaint(e.error)
            && conn.writePos == old(conn.writePos)
            && conn.state == (if e.error || Quitting(e.values) then WriteOnly else old(conn.state))
  {
    hide Database.Valid, Database.Repr, Database.Contents, Database.Order, ServeOne, ServeAll, OrdersFit, ParseValue,
         RespCodec.Encode, Extract, Parse, Enumerates, Quits;
    served, envs := 0, [];
    ghost var all, st := Extract(conn.Pending()), db.Contents();
    ghost var done: seq<Value>, out: bytes := [], [];
    ServeNone(st);
    while true
      invariant conn.Valid() && db.Valid() && db.Grew() && conn !in db.Repr()
      invariant conn.state == (if Quitting(done) then WriteOnly else old(conn.state))
      invariant conn.writePos == old(conn.writePos) && served == |envs| == |done|
      invariant forall i | 0 <= i < served :: envs[i] == At(world(first + i), envs[i].order)
      invariant all == Extract(conn.Pending()).(values := done + Extract(conn.Pending()).values)
      invariant (db.Contents(), out) == ServeAll(done, st, envs) && OrdersFit(done, st, envs)
      invariant conn.writeBuf == old(conn.writeBuf) + out
      decreases |conn.Pending()|
    {
      ghost var pending, before := conn.Pending(), conn.writeBuf;
      ghost var env := At(world(first + served), db.Order());
      db.OrderEnumerates();
      TakeFirst(done, pending);
      if conn.readPos >= |conn.readBuf| { return; }
      var result := ServeNext(conn, db, world(first + served));
      if !result.Complete? { return; }
      ServeSnoc(done, result.value, st, envs, env);
      QuittingSnoc(done, result.value);
      Regroup(old(conn.writeBuf), out, conn.writeBuf[|before|..]);
      out := out + conn.writeBuf[|before|..];
      served := served + 1;
      done, envs := done + [result.value], envs + [env];
    }
  }

  // ---- the connection's life ------------------------------------------------------------

  /** The socket delivers at least one byte and then has nothing more for now. */
  predicate Delivers(incoming: seq<Received>) {
    Ending(incoming).WouldBlock? && Arrived(incoming) != []
  }

  /** `on_client_readable`: read everything, dispatch, send what the socket takes. A read that brings no data
      closes the connection, and data that came before an end of input or an error is not dispatched. */
  method OnReadable(conn: Connection, db: Database, incoming: seq<Received>, writes: seq<Written>,
                    world: nat -> Moment, first: nat)
    returns (open: bool, served: nat, sent: bytes, ghost envs: seq<Env>)
    requires conn.Valid() && db.Valid() && conn !in db.Repr() && conn.state != Closed
    modifies conn, db.Repr()
    ensures conn.Valid() && db.Valid() && db.Grew() && conn !in db.Repr()
    ensures open ==> conn.state != Closed
    ensures open <==> Delivers(incoming) && (conn.Unsent() == [] || !Refusal(writes).WriteFailed?)
    ensures !Delivers(incoming) ==>
              served == 0 && sent == [] && conn.Unsent() == old(conn.Unsent()) && db.Contents() == old(db.Contents())
    ensures Delivers(incoming) ==>
              var e := Extract(old(conn.Pending()) + Arrived(incoming));
              && served == |envs| == |e.values| && conn.Pending() == e.rest
              && (forall i | 0 <= i < served :: envs[i] == At(world(first + i), envs[i].order))
              && OrdersFit(e.values, old(db.Contents()), envs)
              && db.Contents() == ServeAll(e.values, old(db.Contents()), envs).0
              && sent + conn.Unsent()
                 == old(conn.Unsent()) + (ServeAll(e.values, old(db.Contents()), envs).1 + Complaint(e.error))
              && |sent| == Min(|sent + conn.Unsent()|, Accepts(writes))
  {
    hide Database.Valid, Database.Repr, Database.Contents;
    hide ServeAll, OrdersFit, Extract, Complaint, Quitting, Arrived, Ending, Accepts, Refusal;
    served, sent, envs := 0, [], [];
    var total := conn.FillReadBuffer(incoming);
    if total <= 0 { return false, 0, [], []; }
    ghost var unsent, written := conn.Unsent(), conn.writeBuf;
    served, envs := Run(conn, db, world, first);
    ghost var e := Extract(old(conn.Pending()) + Arrived(incoming));
    ghost var out := ServeAll(e.values, old(db.Contents()), envs).1;
    Appended(written, conn.writePos, out, Complaint(e.error));
    if conn.writePos < |conn.writeBuf| { sent := conn.FlushWriteBuffer(writes); }
    open := conn.state != Closed;
  }

  lemma {:induction false} Appended(buf: bytes, pos: nat, a: bytes, b: bytes)
    requires pos <= |buf|
    ensures (buf + a + b)[pos..] == buf[pos..] + (a + b)
  {
  }

  /** The chunks that the first `n` deliveries bring. */
  function ChunksOf(deliveries: seq<seq<Received>>, n: nat): (r: seq<bytes>)
    requires n <= |deliveries|
    ensures |r| == n
  {
    seq(n, i requires 0 <= i < n => Arrived(deliveries[i]))
  }

  /** One more chunk in a session. */
  lemma {:induction false} SessionSnoc(chunks: seq<bytes>, c: bytes, st: Store, envs: seq<Env>, more: seq<Env>)
    requires |envs| == |ExtractChunks(chunks).values|
    requires |more| == |Extract(ExtractChunks(chunks).rest + c).values|
    ensures var p, f := Session(chunks, st, envs), Extract(ExtractChunks(chunks).rest + c);
            var (s, out) := ServeAll(f.values, p.store, more);
            && |ExtractChunks(chunks + [c]).values| == |envs + more|
            && Session(chunks + [c], st, envs + more) == Progress(s, p.out + out + Complaint(f.error), f.rest)
            && (OrdersFit(ExtractChunks(chunks).values, st, envs) && OrdersFit(f.values, p.store, more)
                ==> OrdersFit(ExtractChunks(chunks + [c]).values, st, envs + more))
  {
    hide Extract, ServeAll, Complaint, OrdersFit;
    SessionMeaning(chunks, st, envs);
    ServeConcat(ExtractChunks(chunks).values, Extract(ExtractChunks(chunks).rest + c).values, st, envs, more);
    var all := chunks + [c];
    assert Front(all) == chunks && Last(all) == c;
    assert (envs + more)[..|envs|] == envs && (envs + more)[|envs|..] == more;
  }

  /** Serving `chunks` from `st` on leads to this database, these bytes for the client and this leftover. */
  ghost predicate Reached(chunks: seq<bytes>, st: Store, envs: seq<Env>, p: Progress) {
    && |envs| == |ExtractChunks(chunks).values| && Session(chunks, st, envs) == p
    && OrdersFit(ExtractChunks(chunks).values, st, envs)
  }

  /** How many bytes have gone out if the socket takes what `writes[i]` says behind chunk `i`: all that waits, or
      as many as it takes. */
  function SentBy(chunks: seq<bytes>, st: Store, envs: seq<Env>, writes: seq<seq<Written>>): nat
    requires |envs| == |ExtractChunks(chunks).values| && |writes| == |chunks|
    decreases |chunks|
  {
    if chunks == [] then 0
    else
      var k := |ExtractChunks(Front(chunks)).values|;
      var before := SentBy(Front(chunks), st, envs[..k], writes[..|writes| - 1]);
      Min(|Session(chunks, st, envs).out|, before + Accepts(writes[|writes| - 1]))
  }

  ghost predicate Sends(chunks: seq<bytes>, st: Store, envs: seq<Env>, writes: seq<seq<Written>>, n: nat) {
    |envs| == |ExtractChunks(chunks).values| && |writes| == |chunks| && SentBy(chunks, st, envs, writes) == n
  }

  lemma {:induction false} SendsSnoc(chunks: seq<bytes>, c: bytes, st: Store, envs: seq<Env>, more: seq<Env>,
                                     writes: seq<seq<Written>>, w: seq<Written>, n: nat, q: Progress)
    requires Sends(chunks, st, envs, writes, n) && Reached(chunks + [c], st, envs + more, q)
    ensures Sends(chunks + [c], st, envs + more, writes + [w], Min(|q.out|, n + Accepts(w)))
  {
    hide ExtractChunks, Session, OrdersFit, Accepts;
    var all := chunks + [c];
    assert Front(all) == chunks;
    assert (envs + more)[..|envs|] == envs && (writes + [w])[..|writes|] == writes;
  }

  /** Message `i` is served at the moment `world(i)`. */
  ghost predicate Timed(envs: seq<Env>, world: nat -> Moment) {
    forall i | 0 <= i < |envs| :: envs[i] == At(world(i), envs[i].order)
  }

  lemma {:induction false} TimedMore(envs: seq<Env>, more: seq<Env>, world: nat -> Moment)
    requires Timed(envs, world) && forall i | 0 <= i < |more| :: more[i] == At(world(|envs| + i), more[i].order)
    ensures Timed(envs + more, world)
  {
    forall i | 0 <= i < |envs + more| ensures (envs + more)[i] == At(world(i), (envs + more)[i].order) {
      if i >= |envs| { assert (envs + more)[i] == more[i - |envs|]; }
    }
  }

  /** One delivery takes the session one chunk further. */
  method DeliverNext(conn: Connection, db: Database, incoming: seq<Received>, writes: seq<Written>,
                     world: nat -> Moment, served: nat, sent: bytes, ghost chunks: seq<bytes>, ghost st: Store,
                     ghost envs: seq<Env>, ghost taken: seq<seq<Written>>)
    returns (open: bool, servedNow: nat, sentNow: bytes, ghost envsNow: seq<Env>)
    requires conn.Valid() && db.Valid() && conn !in db.Repr() && conn.state != Closed
    requires Reached(chunks, st, envs, Progress(db.Contents(), sent + conn.Unsent(), conn.Pending()))
    requires served == |envs| && Timed(envs, world) && Sends(chunks, st, envs, taken, |sent|)
    modifies conn, db.Repr()
    ensures conn.Valid() && db.Valid() && db.Grew() && conn !in db.Repr()
    ensures open ==> conn.state != Closed
    ensures open <==> Delivers(incoming) && (conn.Unsent() == [] || !Refusal(writes).WriteFailed?)
    ensures !Delivers(incoming) ==>
              db.Contents() == old(db.Contents()) && conn.Unsent() == old(conn.Unsent())
    ensures Delivers(incoming) ==>
              && Reached(chunks + [Arrived(incoming)], st, envsNow,
                         Progress(db.Contents(), sentNow + conn.Unsent(), conn.Pending()))
              && servedNow == |envsNow| && Timed(envsNow, world)
              && Sends(chunks + [Arrived(incoming)], st, envsNow, taken + [writes], |sentNow|)
  {
    hide Database.Valid, Database.Repr, Database.Contents;
    hide ServeAll, OrdersFit, Extract, ExtractChunks, Complaint, Session;
    hide Arrived, Ending, Delivers, Timed, Sends, Accepts, Refusal;
    ghost var p, unsent := Session(chunks, st, envs), conn.Unsent();
    var n, out;
    ghost var more;
    open, n, out, more := OnReadable(conn, db, incoming, writes, world, served);
    if Delivers(incoming) {
      SessionSnoc(chunks, Arrived(incoming), st, envs, more);
      TimedMore(envs, more, world);
      ghost var f := Extract(p.pending + Arrived(incoming));
      SentSoFar(sent, unsent, out, conn.Unsent(), ServeAll(f.values, p.store, more).1, Complaint(f.error));
      SendsSnoc(chunks, Arrived(incoming), st, envs, more, taken, writes, |sent|,
                Progress(db.Contents(), (sent + out) + conn.Unsent(), conn.Pending()));
    }
    servedNow, sentNow, envsNow := served + n, sent + out, envs + more;
  }

  /** The socket failed behind delivery `n - 1`, with bytes still waiting. */
  predicate Broken(writes: seq<seq<Written>>, n: nat, waiting: bytes)
    requires n <= |writes|
  {
    n > 0 && waiting != [] && Refusal(writes[n - 1]).WriteFailed?
  }

  /** A client from the first byte on. For every delivery that was dispatched the database, the bytes for the
      client, sent or waiting, and the unconsumed bytes are those of the session of the arrived chunks, and the
      socket has got as many of them as it took. Only a delivery without data or a failing socket ends it. */
  method ServeConnection(conn: Connection, db: Database, deliveries: seq<seq<Received>>,
                         writes: seq<seq<Written>>, world: nat -> Moment)
    returns (open: bool, dispatched: nat, sent: bytes, ghost envs: seq<Env>)
    requires conn.Valid() && db.Valid() && conn !in db.Repr() && conn.state != Closed
    requires conn.Pending() == [] && conn.Unsent() == [] && |writes| == |deliveries|
    modifies conn, db.Repr()
    ensures conn.Valid() && db.Valid() && db.Grew()
    ensures dispatched <= |deliveries| && forall i | 0 <= i < dispatched :: Delivers(deliveries[i])
    ensures open <==> dispatched == |deliveries| && !Broken(writes, dispatched, conn.Unsent())
    ensures dispatched < |deliveries| ==>
              !Delivers(deliveries[dispatched]) || Broken(writes, dispatched, conn.Unsent())
    ensures var chunks := ChunksOf(deliveries, dispatched);
            && |envs| == |ExtractChunks(chunks).values| && Timed(envs, world)
            && OrdersFit(ExtractChunks(chunks).values, old(db.Contents()), envs)
            && var p := Session(chunks, old(db.Contents()), envs);
               && db.Contents() == p.store && sent + conn.Unsent() == p.out
               && (open ==> conn.Pending() == p.pending)
               && |sent| == SentBy(chunks, old(db.Contents()), envs, writes[..dispatched])
               && (dispatched > 0 && Accepts(writes[dispatched - 1]) >= |p.out| ==> sent == p.out)
  {
    hide Database.Valid, Database.Repr, Database.Contents, ExtractChunks, Session, Delivers, ChunksOf, Timed, OrdersFit;
    hide Accepts, Refusal, SentBy;
    open, dispatched, sent, envs := true, 0, [], [];
    ghost var st := db.Contents();
    var served := 0;
    NothingYet(st, deliveries);
    assert Timed([], world) by { TimedNone(world); }
    assert [] + conn.Unsent() == [];
    while open && dispatched < |deliveries|
      invariant conn.Valid() && db.Valid() && db.Grew() && conn !in db.Repr()
      invariant dispatched <= |deliveries| && served == |envs| && Timed(envs, world)
      invariant forall i | 0 <= i < dispatched :: Delivers(deliveries[i])
      invariant open ==> conn.state != Closed
      invariant open <==> !Broken(writes, dispatched, conn.Unsent())
      invariant Reached(ChunksOf(deliveries, dispatched), st, envs,
                        Progress(db.Contents(), sent + conn.Unsent(), conn.Pending()))
      invariant Sends(ChunksOf(deliveries, dispatched), st, envs, writes[..dispatched], |sent|)
      decreases |deliveries| - dispatched, open
    {
      hide Reached, Sends;
      ChunksSnoc(deliveries, dispatched);
      assert writes[..dispatched + 1] == writes[..dispatched] + [writes[dispatched]];
      ghost var envsNow;
      var n, out;
      open, n, out, envsNow := DeliverNext(conn, db, deliveries[dispatched], writes[dispatched], world, served, sent,
                                           ChunksOf(deliveries, dispatched), st, envs, writes[..dispatched]);
      if !Delivers(deliveries[dispatched]) { break; }
      served, sent, envs, dispatched := n, out, envsNow, dispatched + 1;
    }
    TakesAll(ChunksOf(deliveries, dispatched), st, envs, writes[..dispatched], sent, conn.Unsent());
  }

  /** If the socket takes more than ever waited, all of it goes out. */
  lemma {:induction false} TakesAll(chunks: seq<bytes>, st: Store, envs: seq<Env>, writes: seq<seq<Written>>,
                                    sent: bytes, waiting: bytes)
    requires Sends(chunks, st, envs, writes, |sent|) && Session(chunks, st, envs).out == sent + waiting
    ensures chunks != [] && Accepts(writes[|writes| - 1]) >= |sent + waiting| ==> sent == sent + waiting
  {
    hide ExtractChunks, Session, Accepts;
  }

  lemma {:induction false} SentSoFar(a: bytes, b: bytes, c: bytes, d: bytes, e: bytes, f: bytes)
    requires c + d == b + (e + f)
    ensures (a + c) + d == (a + b) + e + f
  {
    assert (a + c) + d == a + (c + d) && a + (b + (e + f)) == (a + b) + e + f;
  }

  lemma {:induction false} ChunksSnoc(deliveries: seq<seq<Received>>, n: nat)
    requires n < |deliveries|
    ensures ChunksOf(deliveries, n + 1) == ChunksOf(deliveries, n) + [Arrived(deliveries[n])]
  {
  }

  lemma {:induction false} NothingYet(st: Store, deliveries: seq<seq<Received>>)
    ensures Reached(ChunksOf(deliveries, 0), st, [], Progress(st, [], []))
    ensures Sends(ChunksOf(deliveries, 0), st, [], [], 0)
  {
    assert ChunksOf(deliveries, 0) == [];
  }

  lemma {:induction false} TimedNone(world: nat -> Moment)
    ensures Timed([], world)
  {
  }
}
