/**
 Reply bytes as the client's parser sees them. `ReplyPerMessage`: one value for each message, if and only if
 no message's command name is unknown and holds a line end. Such a name is echoed into an error line and
 breaks it in two, as `SplitReply` shows.
 */
module Replies {
  import opened Common
  import opened Objects
  import opened StoreSpec
  import opened Commands
  import opened Resp
  import opened RespCodec
  import opened Stream
  import opened Serve

  // ---- texts without line ends ----------------------------------------------------------

  /** Printable characters only. */
  predicate Printable(s: string) {
    forall i | 0 <= i < |s| :: ' ' <= s[i] <= '~'
  }

  lemma {:induction false} PrintableClean(s: string)
    requires Printable(s)
    ensures !HasCrlf(Ascii(s))
  {
    forall i | 0 <= i < |s| ensures Ascii(s)[i] != CR {
      assert ' ' <= s[i] <= '~';
    }
  }

  lemma {:induction false} PrintableConcat(s: string, t: string)
    requires Printable(s) && Printable(t)
    ensures Printable(s + t)
  {
  }

  lemma {:induction false} FailClean(s: string)
    requires Printable(s)
    ensures Clean(Fail(s)) && Clean(SimpleString(Ascii(s)))
  {
    PrintableClean(s);
  }

  lemma {:induction false} CleanSnoc(vs: seq<Value>, v: Value)
    requires CleanAll(vs) && Clean(v)
    ensures CleanAll(vs + [v])
    decreases |vs|
  {
    hide Clean;
    if vs != [] {
      assert (vs + [v])[1..] == vs[1..] + [v];
      CleanSnoc(vs[1..], v);
    } else {
      assert vs + [v] == [v];
      assert CleanAll([v][1..]);
    }
  }

  // ---- what the commands reply ----------------------------------------------------------

  lemma {:induction false} FetchAllClean(args: seq<Value>, i: nat, st: Store, now: int, sofar: seq<Value>)
    requires CleanAll(sofar)
    ensures Clean(FetchAll(args, i, st, now, sofar).reply)
    decreases |args| - i
  {
    hide CleanAll;
    if i < |args| {
      var (s, o) := Fetch(st, Commands.Text(args[i]), now);
      CleanSnoc(sofar, BulkOrNil(o));
      FetchAllClean(args, i + 1, s, now, sofar + [BulkOrNil(o)]);
    }
  }

  lemma {:induction false} MatchingClean(order: seq<Key>, p: bytes, st: Store, now: int)
    ensures CleanAll(Matching(order, p, st, now))
  {
    if order != [] {
      MatchingClean(order[1..], p, st, now);
      var rest := Matching(order[1..], p, st, now);
      assert ([BulkString(order[0])] + rest)[1..] == rest && [] + rest == rest;
    }
  }

  /** The fixed reply texts contain no line end. */
  lemma {:induction false} ShortTexts()
    ensures Clean(SimpleString(Ascii("OK")))
    ensures Clean(SimpleString(Ascii("PONG")))
    ensures Clean(SimpleString(Ascii("string")))
    ensures Clean(SimpleString(Ascii("none")))
    ensures Clean(SimpleString(Ascii("Background saving started")))
    ensures Clean(Fail("no such key"))
    ensures Clean(Fail("DB index is out of range"))
  {
    hide Clean, Ascii;
    FailClean("OK");
    FailClean("PONG");
    FailClean("string");
    FailClean("none");
    FailClean("Background saving started");
    FailClean("no such key");
    FailClean("DB index is out of range");
  }

  lemma {:induction false} SetTexts()
    ensures Clean(Fail("invalid expire time in 'set' command"))
    ensures Clean(Fail("wrong number of arguments for MSET"))
  {
    hide Clean, Ascii;
    FailClean("invalid expire time in 'set' command");
    FailClean("wrong number of arguments for MSET");
  }

  lemma {:induction false} SetExTexts()
    ensures Clean(Fail("invalid expire time in 'setex' command"))
    ensures Clean(Fail("invalid expire time in 'psetex' command"))
  {
    hide Clean, Ascii;
    FailClean("invalid expire time in 'setex' command");
    FailClean("invalid expire time in 'psetex' command");
  }

  lemma {:induction false} CounterTexts()
    ensures Clean(Fail(NOT_AN_INTEGER))
    ensures Clean(Fail(OVERFLOW))
  {
    hide Clean, Ascii;
    FailClean(NOT_AN_INTEGER);
    FailClean(OVERFLOW);
  }

  lemma {:induction false} ProtocolTexts()
    ensures Clean(Fail("Protocol error: expected array"))
    ensures Clean(Fail(COMMAND_NAME_ERROR))
  {
    hide Clean, Ascii;
    FailClean("Protocol error: expected array");
    PrintableConcat("Protocol error: ", "command name must be bulk string");
    FailClean(COMMAND_NAME_ERROR);
  }

  lemma {:induction false} StringClean(c: Command, args: seq<Value>, st: Store, env: Env)
    requires ArityOk(c, |args|) && IsString(c)
    ensures Clean(ExecString(c, args, st, env).reply)
  {
    hide Ascii, Fetch, ParseSetOptions, HasCrlf, FetchAll, PutPairs, Number, Objects.Text, CreateString;
    ShortTexts();
    SetTexts();
    SetExTexts();
    if c.CMGet? { FetchAllClean(args, 1, st, env.now, []); }
  }

  lemma {:induction false} OtherClean(c: Command, args: seq<Value>, st: Store, env: Env)
    requires ArityOk(c, |args|) && !IsString(c)
    ensures Clean(Exec(c, args, st, env).reply)
  {
    hide Ascii, Fetch, HasCrlf, DeleteAll, CountAll, Number, CreateString, Peek, Pttl, Matching;
    ShortTexts();
    CounterTexts();
    if c.CKeys? { MatchingClean(env.order, Commands.Text(args[1]), st, env.now); }
  }

  // ---- what the dispatcher replies ------------------------------------------------------

  /** The message's command name is unknown and holds a line end. */
  predicate EchoesLineEnd(v: Value) {
    v.Array? && v.elements != [] && v.elements[0].BulkString? && HasCrlf(v.elements[0].str)
    && Find(Upper(v.elements[0].str)).None?
  }

  lemma {:induction false} UpperKeepsLineEnds(s: bytes)
    ensures HasCrlf(Upper(s)) <==> HasCrlf(s)
  {
    forall i | 0 <= i < |s| ensures (Upper(s)[i] == CR <==> s[i] == CR) && (Upper(s)[i] == LF <==> s[i] == LF) {}
    if HasCrlf(s) {
      var i :| 0 <= i < |s| - 1 && s[i] == CR && s[i + 1] == LF;
      assert Upper(s)[i] == CR && Upper(s)[i + 1] == LF;
    }
    if HasCrlf(Upper(s)) {
      var i :| 0 <= i < |s| - 1 && Upper(s)[i] == CR && Upper(s)[i + 1] == LF;
      assert s[i] == CR && s[i + 1] == LF;
    }
  }

  /** A line end begins at `i`. */
  predicate LineEndAt(s: bytes, i: nat) {
    i + 1 < |s| && s[i] == CR && s[i + 1] == LF
  }

  lemma {:induction false} NoLineEndAt(s: bytes, i: nat)
    requires !HasCrlf(s)
    ensures !LineEndAt(s, i)
  {
  }

  /** Text around a name adds no line end to it. */
  lemma {:induction false} QuotedLineEnds(before: bytes, s: bytes, after: bytes)
    requires !HasCrlf(before) && !HasCrlf(after)
    requires before != [] && before[|before| - 1] != CR && after != [] && after[0] != LF
    ensures HasCrlf(before + s + after) <==> HasCrlf(s)
  {
    var all, n := before + s + after, |before|;
    forall i: nat ensures LineEndAt(all, i) <==> n <= i && LineEndAt(s, i - n) {
      if i < n { NoLineEndAt(before, i); }
      if i >= n + |s| { NoLineEndAt(after, i - n - |s|); }
    }
    if HasCrlf(s) {
      var i :| 0 <= i < |s| - 1 && s[i] == CR && s[i + 1] == LF;
      assert LineEndAt(all, n + i);
    }
    if HasCrlf(all) {
      var i :| 0 <= i < |all| - 1 && all[i] == CR && all[i + 1] == LF;
      assert LineEndAt(all, i) && LineEndAt(s, i - n);
    }
  }

  predicate EndsWith(s: bytes, b: byte) {
    s != [] && s[|s| - 1] == b
  }

  predicate StartsWith(s: bytes, b: byte) {
    s != [] && s[0] == b
  }

  lemma {:induction false} QuoteTexts()
    ensures !HasCrlf(Ascii("unknown command `")) && EndsWith(Ascii("unknown command `"), 96) && Ascii("`") == [96]
    ensures !HasCrlf(Ascii("wrong number of arguments for '"))
    ensures EndsWith(Ascii("wrong number of arguments for '"), 39)
    ensures !HasCrlf(Ascii("' command")) && StartsWith(Ascii("' command"), 39)
  {
    PrintableClean("unknown command `");
    PrintableClean("wrong number of arguments for '");
    PrintableClean("' command");
  }

  lemma {:induction false} UnknownReply(name: bytes)
    ensures Clean(Error(Ascii("unknown command `") + name + Ascii("`"))) <==> !HasCrlf(name)
  {
    hide HasCrlf, Ascii;
    QuoteTexts();
    OneByte(96);
    QuotedLineEnds(Ascii("unknown command `"), name, Ascii("`"));
  }

  lemma {:induction false} OneByte(b: byte)
    ensures !HasCrlf([b])
  {
  }

  lemma {:induction false} StringNames()
    ensures !HasCrlf(Ascii("SET")) && !HasCrlf(Ascii("GET")) && !HasCrlf(Ascii("GETSET"))
    ensures !HasCrlf(Ascii("MSET")) && !HasCrlf(Ascii("MGET")) && !HasCrlf(Ascii("APPEND"))
    ensures !HasCrlf(Ascii("STRLEN")) && !HasCrlf(Ascii("INCR")) && !HasCrlf(Ascii("INCRBY"))
    ensures !HasCrlf(Ascii("DECR")) && !HasCrlf(Ascii("DECRBY")) && !HasCrlf(Ascii("SETEX"))
    ensures !HasCrlf(Ascii("PSETEX")) && !HasCrlf(Ascii("SETNX"))
  {
    hide HasCrlf, Ascii;
    PrintableClean("SET"); PrintableClean("GET"); PrintableClean("GETSET"); PrintableClean("MSET");
    PrintableClean("MGET"); PrintableClean("APPEND"); PrintableClean("STRLEN"); PrintableClean("INCR");
    PrintableClean("INCRBY"); PrintableClean("DECR"); PrintableClean("DECRBY"); PrintableClean("SETEX");
    PrintableClean("PSETEX"); PrintableClean("SETNX");
  }

  lemma {:induction false} KeyNames()
    ensures !HasCrlf(Ascii("DEL")) && !HasCrlf(Ascii("EXISTS")) && !HasCrlf(Ascii("TYPE"))
    ensures !HasCrlf(Ascii("EXPIRE")) && !HasCrlf(Ascii("PEXPIRE")) && !HasCrlf(Ascii("EXPIREAT"))
    ensures !HasCrlf(Ascii("TTL")) && !HasCrlf(Ascii("PTTL")) && !HasCrlf(Ascii("PERSIST"))
    ensures !HasCrlf(Ascii("KEYS")) && !HasCrlf(Ascii("RENAME")) && !HasCrlf(Ascii("DBSIZE"))
  {
    hide HasCrlf, Ascii;
    PrintableClean("DEL"); PrintableClean("EXISTS"); PrintableClean("TYPE"); PrintableClean("EXPIRE");
    PrintableClean("PEXPIRE"); PrintableClean("EXPIREAT"); PrintableClean("TTL"); PrintableClean("PTTL");
    PrintableClean("PERSIST"); PrintableClean("KEYS"); PrintableClean("RENAME"); PrintableClean("DBSIZE");
  }

  lemma {:induction false} ServerNames()
    ensures !HasCrlf(Ascii("PING")) && !HasCrlf(Ascii("ECHO")) && !HasCrlf(Ascii("FLUSHDB"))
    ensures !HasCrlf(Ascii("SELECT")) && !HasCrlf(Ascii("QUIT")) && !HasCrlf(Ascii("INFO"))
    ensures !HasCrlf(Ascii("SAVE")) && !HasCrlf(Ascii("BGSAVE"))
  {
    hide HasCrlf, Ascii;
    PrintableClean("PING"); PrintableClean("ECHO"); PrintableClean("FLUSHDB"); PrintableClean("SELECT");
    PrintableClean("QUIT"); PrintableClean("INFO"); PrintableClean("SAVE"); PrintableClean("BGSAVE");
  }

  /** A registered name is one of the registry's literals. */
  lemma {:induction false} RegisteredName(name: bytes)
    requires Find(name).Some?
    ensures !HasCrlf(Upper(name))
  {
    hide HasCrlf, Ascii, Upper;
    StringNames();
    KeyNames();
    ServerNames();
  }

  lemma {:induction false} ArityReply(name: bytes)
    requires !HasCrlf(name)
    ensures Clean(Error(Ascii("wrong number of arguments for '") + name + Ascii("' command")))
  {
    hide HasCrlf, Ascii;
    QuoteTexts();
    QuotedLineEnds(Ascii("wrong number of arguments for '"), name, Ascii("' command"));
  }

  /** A reply can be sent without breaking a line exactly when it does not echo a line end. */
  lemma {:induction false} ReplyClean(v: Value, st: Store, env: Env)
    ensures Clean(ServeOne(v, st, env).reply) <==> !EchoesLineEnd(v)
  {
    hide Exec, Find, Ascii, HasCrlf, Upper, Clean, ArityOk;
    ProtocolTexts();
    if v.Array? && v.elements != [] && v.elements[0].BulkString? {
      var name := Upper(v.elements[0].str);
      var c := Find(name);
      UpperKeepsLineEnds(v.elements[0].str);
      UnknownReply(name);
      if c.Some? {
        RegisteredName(name);
        UpperKeepsLineEnds(name);
        ArityReply(name);
        if ArityOk(c.value, |v.elements|) { ExecClean(c.value, v.elements, st, env); }
      }
    }
  }

  lemma {:induction false} ExecClean(c: Command, args: seq<Value>, st: Store, env: Env)
    requires ArityOk(c, |args|)
    ensures Clean(Exec(c, args, st, env).reply)
  {
    hide Clean, ExecString, ExecCounter, ExecKey, ExecServer;
    if IsString(c) { StringClean(c, args, st, env); } else { OtherClean(c, args, st, env); }
  }

  // ---- whole streams --------------------------------------------------------------------

  function RepliesTo(vs: seq<Value>, st: Store, envs: seq<Env>): (r: seq<Value>)
    requires |envs| == |vs|
    ensures |r| == |vs|
    decreases |vs|
  {
    if vs == [] then []
    else
      var r := ServeOne(vs[0], st, envs[0]);
      [r.reply] + RepliesTo(vs[1..], r.store, envs[1..])
  }

  lemma {:induction false} ServedReplies(vs: seq<Value>, st: Store, envs: seq<Env>)
    requires |envs| == |vs|
    ensures ServeAll(vs, st, envs).1 == EncodeAll(RepliesTo(vs, st, envs))
    ensures CleanAll(RepliesTo(vs, st, envs)) <==> forall i | 0 <= i < |vs| :: !EchoesLineEnd(vs[i])
    decreases |vs|
  {
    hide ServeOne, Encode, Clean, EchoesLineEnd;
    if vs != [] {
      var r := ServeOne(vs[0], st, envs[0]);
      var rest := RepliesTo(vs[1..], r.store, envs[1..]);
      ReplyClean(vs[0], st, envs[0]);
      ServedReplies(vs[1..], r.store, envs[1..]);
      assert ([r.reply] + rest)[1..] == rest;
      assert forall i | 0 < i < |vs| :: vs[i] == vs[1..][i - 1];
      if forall i | 0 <= i < |vs| :: !EchoesLineEnd(vs[i]) {
        assert forall i | 0 <= i < |vs[1..]| :: vs[1..][i] == vs[i + 1];
      }
    }
  }

  /** A client that parses the reply bytes gets exactly one value for each message, in order, with nothing left
      over, if and only if no message echoes a line end. */
  lemma {:induction false} ReplyPerMessage(vs: seq<Value>, st: Store, envs: seq<Env>)
    requires |envs| == |vs| && SizedAll(RepliesTo(vs, st, envs))
    ensures |SentAll(RepliesTo(vs, st, envs))| == |vs|
    ensures Extract(ServeAll(vs, st, envs).1) == Extraction(SentAll(RepliesTo(vs, st, envs)), [], false)
       <==> forall i | 0 <= i < |vs| :: !EchoesLineEnd(vs[i])
  {
    hide ServeAll, Extract, EchoesLineEnd, CleanAll;
    var replies := RepliesTo(vs, st, envs);
    ServedReplies(vs, st, envs);
    assert EncodeAll(replies) + [] == EncodeAll(replies);
    if CleanAll(replies) {
      PipelineExtracted(replies, []);
      ExtractNothing();
      assert SentAll(replies) + [] == SentAll(replies);
    } else {
      PipelineBroken(replies, []);
    }
  }

  /** One message's reply is read back as one value exactly when the message does not echo a line end. */
  lemma {:induction false} OneReply(v: Value, st: Store, env: Env)
    requires Sized(ServeOne(v, st, env).reply)
    ensures var r := ServeOne(v, st, env).reply;
            Parse(Encode(r)) == Complete(Sent(r), |Encode(r)|) <==> !EchoesLineEnd(v)
  {
    hide ServeOne, Encode, Parse, Clean, EchoesLineEnd;
    var r := ServeOne(v, st, env).reply;
    ReplyClean(v, st, env);
    RoundTrip(r, []);
    assert Encode(r) + [] == Encode(r);
  }

  // ---- a reply broken in two ------------------------------------------------------------

  lemma {:induction false} OtherName(s: string, n: bytes)
    requires s != "" && 'A' <= s[0] <= 'Z' && StartsWith(n, CR)
    ensures n != Ascii(s)
  {
    assert Ascii(s)[0] != CR;
  }

  lemma {:induction false} NotRegistered(name: bytes)
    requires StartsWith(Upper(name), CR)
    ensures Find(name).None?
  {
    hide Ascii, Upper;
    var n := Upper(name);
    OtherName("SET", n); OtherName("GET", n); OtherName("GETSET", n); OtherName("MSET", n);
    OtherName("MGET", n); OtherName("APPEND", n); OtherName("STRLEN", n); OtherName("INCR", n);
    OtherName("INCRBY", n); OtherName("DECR", n); OtherName("DECRBY", n); OtherName("SETEX", n);
    OtherName("PSETEX", n); OtherName("SETNX", n); OtherName("DEL", n); OtherName("EXISTS", n);
    OtherName("TYPE", n); OtherName("EXPIRE", n); OtherName("PEXPIRE", n); OtherName("EXPIREAT", n);
    OtherName("TTL", n); OtherName("PTTL", n); OtherName("PERSIST", n); OtherName("KEYS", n);
    OtherName("RENAME", n); OtherName("DBSIZE", n); OtherName("PING", n); OtherName("ECHO", n);
    OtherName("FLUSHDB", n); OtherName("SELECT", n); OtherName("QUIT", n);
    OtherName("INFO", n); OtherName("SAVE", n); OtherName("BGSAVE", n);
  }

  /** An error text with a line end and a plus sign inside is read as an error and a simple string. */
  lemma {:induction false} SplitText(a: bytes, b: bytes)
    requires !HasCrlf(a) && !HasCrlf(b)
    ensures Extract(Encode(Error(a + (CRLF + [PLUS] + b)))).values == [Error(ERR_PREFIX + a), SimpleString(b)]
  {
    hide Extract, HasCrlf;
    var x, y := Error(a), SimpleString(b);
    TwoValues(x, y);
    assert Encode(Error(a + (CRLF + [PLUS] + b))) == Encode(x) + Encode(y);
    PipelineExtracted([x, y], []);
    ExtractNothing();
    assert EncodeAll([x, y]) + [] == EncodeAll([x, y]);
    assert SentAll([x, y]) + [] == SentAll([x, y]);
  }

  lemma {:induction false} TwoValues(x: Value, y: Value)
    requires Clean(x) && Clean(y) && Sized(x) && Sized(y)
    ensures EncodeAll([x, y]) == Encode(x) + Encode(y) && SentAll([x, y]) == [Sent(x), Sent(y)]
    ensures CleanAll([x, y]) && SizedAll([x, y])
  {
    hide Encode, Clean, Sized, Sent;
    var xy, ys := [x, y], [y];
    assert xy[1..] == ys && ys[1..] == [];
    assert EncodeAll(ys) == Encode(y) + EncodeAll([]) == Encode(y);
    assert SentAll(ys) == [Sent(y)] + SentAll([]) == [Sent(y)];
    assert CleanAll(ys) && SizedAll(ys);
  }

  /** The command name CR LF `+x` makes the client read an error and then a simple string of its own making. */
  lemma {:induction false} SplitReply(st: Store, env: Env)
    ensures Extract(Encode(ServeOne(Array([BulkString([13, 10, 43, 120])]), st, env).reply)).values
         == [Error(ERR_PREFIX + Ascii("unknown command `")), SimpleString([88, 96])]
  {
    hide Extract, Find, Ascii, Upper, HasCrlf, Encode, ServeOne;
    var text := Ascii("unknown command `");
    BrokenName(st, env);
    QuoteTexts();
    ShortClean();
    SplitText(text, [88, 96]);
  }

  lemma {:induction false} BrokenName(st: Store, env: Env)
    ensures ServeOne(Array([BulkString([13, 10, 43, 120])]), st, env).reply
         == Error(Ascii("unknown command `") + (CRLF + [PLUS] + [88, 96]))
  {
    hide Find, Ascii, Exec, Upper;
    UpperOfName();
    NotRegistered([13, 10, 43, 88]);
    QuoteTexts();
    var text := Ascii("unknown command `");
    assert text + [13, 10, 43, 88] + [96] == text + (CRLF + [PLUS] + [88, 96]);
  }

  lemma {:induction false} UpperOfName()
    ensures Upper([13, 10, 43, 120]) == Upper([13, 10, 43, 88]) == [13, 10, 43, 88]
  {
  }

  lemma {:induction false} ShortClean()
    ensures !HasCrlf([88, 96])
  {
  }
}
