/** Serving parsed messages one after the other: the dispatcher as a function. */
module Serve {
  import opened Common
  import opened Resp
  import RespCodec
  import opened Stream
  import opened StoreSpec
  import opened Commands
  import CommandLaws

  const COMMAND_NAME_ERROR := "Protocol error: " + "command name must be bulk string"

  /** One message: shape checks, lookup, arity check, handler. */
  function ServeOne(v: Value, st: Store, env: Env): Result {
    if !v.Array? || v.elements == [] then Result(st, Fail("Protocol error: expected array"))
    else if !v.elements[0].BulkString? then
      Result(st, Fail(COMMAND_NAME_ERROR))
    else
      var name := Upper(v.elements[0].str);
      match Find(name)
      case None => Result(st, Error(Ascii("unknown command `") + name + Ascii("`")))
      case Some(c) =>
        if ArityOk(c, |v.elements|) then Exec(c, v.elements, st, env)
        else Result(st, Error(Ascii("wrong number of arguments for '") + name + Ascii("' command")))
  }

  /** A well-formed `QUIT`, after which the program marks the connection as write-only. */
  predicate Quits(v: Value) {
    v.Array? && |v.elements| == 1 && v.elements[0].BulkString? && Find(Upper(v.elements[0].str)) == Some(CQuit)
  }

  /** A series of messages: the final store and the bytes of all replies. */
  function ServeAll(vs: seq<Value>, st: Store, envs: seq<Env>): (Store, bytes)
    requires |envs| == |vs|
    decreases |vs|
  {
    if vs == [] then (st, [])
    else
      var r := ServeOne(vs[0], st, envs[0]);
      var (s, out) := ServeAll(vs[1..], r.store, envs[1..]);
      (s, RespCodec.Encode(r.reply) + out)
  }

  /** Each enumeration order lists the keys stored when its message is served. */
  ghost predicate OrdersFit(vs: seq<Value>, st: Store, envs: seq<Env>)
    requires |envs| == |vs|
    decreases |vs|
  {
    vs != [] ==>
      && Enumerates(envs[0].order, st.vals.Keys)
      && OrdersFit(vs[1..], ServeOne(vs[0], st, envs[0]).store, envs[1..])
  }

  lemma {:induction false} ServeConcat(a: seq<Value>, b: seq<Value>, st: Store, ea: seq<Env>, eb: seq<Env>)
    requires |ea| == |a| && |eb| == |b|
    ensures var (s, out) := ServeAll(a, st, ea); var (t, more) := ServeAll(b, s, eb);
            ServeAll(a + b, st, ea + eb) == (t, out + more)
    ensures OrdersFit(a, st, ea) && OrdersFit(b, ServeAll(a, st, ea).0, eb) ==> OrdersFit(a + b, st, ea + eb)
    decreases |a|
  {
    hide ServeOne, RespCodec.Encode, Enumerates;
    if a == [] {
      assert a + b == b && ea + eb == eb;
      var (t, more) := ServeAll(b, st, eb);
      assert [] + more == more;
    } else {
      assert (a + b)[1..] == a[1..] + b && (ea + eb)[1..] == ea[1..] + eb;
      var r := ServeOne(a[0], st, ea[0]);
      ServeConcat(a[1..], b, r.store, ea[1..], eb);
      var (s, out) := ServeAll(a[1..], r.store, ea[1..]);
      var (t, more) := ServeAll(b, s, eb);
      assert RespCodec.Encode(r.reply) + (out + more) == (RespCodec.Encode(r.reply) + out) + more;
    }
  }

  /** Every message keeps the store sane. */
  lemma {:induction false} ServeAllSane(vs: seq<Value>, st: Store, envs: seq<Env>)
    requires |envs| == |vs| && Sane(st)
    ensures Sane(ServeAll(vs, st, envs).0)
    decreases |vs|
  {
    hide Sane, Exec;
    if vs != [] {
      var v := vs[0];
      if v.Array? && v.elements != [] && v.elements[0].BulkString? {
        var c := Find(Upper(v.elements[0].str));
        if c.Some? && ArityOk(c.value, |v.elements|) { CommandLaws.ExecSane(c.value, v.elements, st, envs[0]); }
      }
      ServeAllSane(vs[1..], ServeOne(v, st, envs[0]).store, envs[1..]);
    }
  }

  // ---- a connection's life --------------------------------------------------------------

  const PROTOCOL_ERROR := "Protocol error: invalid RESP2 format"

  /** What the dispatcher sends when it stops at bytes that are no message. It does not consume them. */
  function Complaint(error: bool): bytes {
    if error then RespCodec.Encode(Fail(PROTOCOL_ERROR)) else []
  }

  /** The database, everything sent to the client so far, and the bytes not yet consumed. */
  datatype Progress = Progress(store: Store, out: bytes, pending: bytes)

  /** One run of the dispatcher for each chunk that arrives. */
  function Session(chunks: seq<bytes>, st: Store, envs: seq<Env>): (p: Progress)
    requires |envs| == |ExtractChunks(chunks).values|
    ensures p.pending == ExtractChunks(chunks).rest
    decreases |chunks|
  {
    if chunks == [] then Progress(st, [], [])
    else
      var n := |ExtractChunks(Front(chunks)).values|;
      var p := Session(Front(chunks), st, envs[..n]);
      var f := Extract(p.pending + Last(chunks));
      var (s, more) := ServeAll(f.values, p.store, envs[n..]);
      Progress(s, p.out + more + Complaint(f.error), f.rest)
  }

  /** How many runs of the dispatcher ended in a protocol error. */
  function Errors(chunks: seq<bytes>): nat
    decreases |chunks|
  {
    if chunks == [] then 0
    else Errors(Front(chunks)) + (if Extract(Concat(chunks)).error then 1 else 0)
  }

  function Repeated(s: bytes, n: nat): (r: bytes)
    ensures |r| == n * |s|
  {
    if n == 0 then [] else Repeated(s, n - 1) + s
  }

  lemma {:induction false} NoErrorsYet(chunks: seq<bytes>)
    requires !Extract(Concat(chunks)).error
    ensures Errors(chunks) == 0
    decreases |chunks|
  {
    hide Extract;
    if chunks != [] {
      if Extract(Concat(Front(chunks))).error { ErrorStays(Concat(Front(chunks)), Last(chunks)); }
      NoErrorsYet(Front(chunks));
    }
  }

  lemma {:induction false} AnError(chunks: seq<bytes>)
    requires Extract(Concat(chunks)).error
    ensures chunks != [] && Errors(chunks) > 0
    ensures Errors(chunks) == 1 <==> !Extract(Concat(Front(chunks))).error
  {
    hide Extract;
    ExtractNothing();
    if Extract(Concat(Front(chunks))).error { AnError(Front(chunks)); } else { NoErrorsYet(Front(chunks)); }
  }

  /** A session serves the messages of the whole stream, in one go or in pieces, and then complains once
      for every chunk from the first malformed one on. */
  lemma {:induction false} SessionMeaning(chunks: seq<bytes>, st: Store, envs: seq<Env>)
    requires |envs| == |ExtractChunks(chunks).values|
    ensures var e := Extract(Concat(chunks)); var (s, out) := ServeAll(ExtractChunks(chunks).values, st, envs);
            && ExtractChunks(chunks) == e
            && Session(chunks, st, envs) == Progress(s, out + Repeated(Complaint(true), Errors(chunks)), e.rest)
    decreases |chunks|
  {
    hide Extract, ServeAll, Complaint;
    ChunkingInvisible(chunks);
    if chunks == [] {
      ServeNone(st);
      assert envs == [];
      assert [] + Repeated(Complaint(true), 0) == [];
    } else {
      var front, last := Front(chunks), Last(chunks);
      var e := ExtractChunks(front);
      var n := |e.values|;
      SessionMeaning(front, st, envs[..n]);
      var f := Extract(e.rest + last);
      var (s, out) := ServeAll(e.values, st, envs[..n]);
      var more := ServeAll(f.values, s, envs[n..]).1;
      ServeConcat(e.values, f.values, st, envs[..n], envs[n..]);
      assert envs[..n] + envs[n..] == envs;
      if e.error {
        ErrorStays(Concat(front), last);
        assert f.values == [];
        ServeNone(s);
        Rearrange(out, Repeated(Complaint(true), Errors(front)), Complaint(true));
      } else {
        NoErrorsYet(front);
        Plain(out, more, Complaint(f.error));
        assert Repeated(Complaint(true), Errors(chunks)) == Complaint(f.error) by { ComplainedOnce(f.error); }
      }
    }
  }

  lemma {:induction false} ComplainedOnce(error: bool)
    ensures Repeated(Complaint(true), if error then 1 else 0) == Complaint(error)
  {
    assert Repeated(Complaint(true), 1) == Repeated(Complaint(true), 0) + Complaint(true) == Complaint(true);
  }

  lemma {:induction false} Rearrange(a: bytes, b: bytes, c: bytes)
    ensures (a + b) + [] + c == (a + []) + (b + c)
  {
  }

  lemma {:induction false} Plain(a: bytes, b: bytes, c: bytes)
    ensures (a + []) + b + c == (a + b) + c
  {
  }

  lemma {:induction false} ServeNone(st: Store)
    ensures ServeAll([], st, []) == (st, []) && OrdersFit([], st, [])
  {
  }

  /** However the incoming bytes are cut into chunks, the database and the unconsumed bytes end the same. The
      client receives the same bytes as if everything had arrived at once exactly when no chunk arrives after
      a malformed one: each further chunk makes the dispatcher complain again. */
  lemma {:induction false} SessionIsChunkFree(chunks: seq<bytes>, st: Store, envs: seq<Env>)
    requires |envs| == |Extract(Concat(chunks)).values|
    ensures |ExtractChunks(chunks).values| == |ExtractChunks([Concat(chunks)]).values| == |envs|
    ensures var many, one := Session(chunks, st, envs), Session([Concat(chunks)], st, envs);
            && many.store == one.store && many.pending == one.pending
            && (many.out == one.out <==> chunks == [] || !Extract(Concat(Front(chunks))).error)
  {
    hide Extract, ServeAll;
    var all := Concat(chunks);
    SessionIsOnce(all);
    ChunkingInvisible(chunks);
    ChunkingInvisible([all]);
    SessionMeaning(chunks, st, envs);
    SessionMeaning([all], st, envs);
    var out := ServeAll(Extract(all).values, st, envs).1;
    var many, one := Session(chunks, st, envs), Session([all], st, envs);
    if Extract(all).error {
      AnError(chunks);
      AnError([all]);
      ExtractNothing();
      if Errors(chunks) != 1 { Longer(out, Errors(chunks)); }
    } else {
      NoErrorsYet(chunks);
      NoErrorsYet([all]);
      if chunks != [] && Extract(Concat(Front(chunks))).error { ErrorStays(Concat(Front(chunks)), Last(chunks)); }
    }
  }

  lemma {:induction false} SessionIsOnce(all: bytes)
    ensures Front([all]) == [] && Concat([all]) == all
  {
    assert [] + all == all;
  }

  lemma {:induction false} Longer(out: bytes, n: nat)
    requires n > 1
    ensures out + Repeated(Complaint(true), n) != out + Repeated(Complaint(true), 1)
  {
    var c := Complaint(true);
    assert |Repeated(c, n)| == n * |c| && |Repeated(c, 1)| == |c| > 0;
    assert n * |c| >= 2 * |c|;
  }

  lemma {:induction false} NoMessages()
    ensures Extract([120]) == Extraction([], [120], true)
    ensures Extract([120, 121]) == Extraction([], [120, 121], true)
  {
    var x, xy: bytes := [120], [120, 121];
    assert Parse(x).Malformed? && Parse(xy).Malformed?;
  }

  /** Two bytes that are no message: one complaint if they arrive together, two if they arrive one by one. */
  lemma {:induction false} ComplainsTwice(st: Store)
    ensures |ExtractChunks([[120], [121]]).values| == 0 == |ExtractChunks([[120, 121]]).values|
    ensures Session([[120], [121]], st, []).out == Complaint(true) + Complaint(true)
    ensures Session([[120, 121]], st, []).out == Complaint(true)
  {
    var x, xy: bytes := [120], [120, 121];
    var chunks: seq<bytes> := [[120], [121]];
    hide Extract, ServeAll, Complaint, Session;
    NoMessages();
    assert Front(chunks) == [x] && Last(chunks) == [121] && x + [121] == xy;
    SessionIsOnce(x);
    SessionIsOnce(xy);
    assert Concat(chunks) == xy;
    SessionMeaning(chunks, st, []);
    SessionMeaning([xy], st, []);
    ServeNone(st);
    assert Errors([xy]) == 1 && Errors([x]) == 1 && Errors(chunks) == 2;
    ComplainedOnce(true);
    assert Repeated(Complaint(true), 2) == Repeated(Complaint(true), 1) + Complaint(true);
    assert [] + Repeated(Complaint(true), 2) == Repeated(Complaint(true), 2);
    assert [] + Repeated(Complaint(true), 1) == Repeated(Complaint(true), 1);
  }
}
