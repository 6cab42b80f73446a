/**
 The protocol byte by byte: what each kind of value looks like, what the parser makes of the bytes, and which
 requests reach a command. Everything here is about the bytes that client and server exchange.
 */
module Wire {
  import opened Common
  import opened Decimal
  import opened Resp
  import opened RespCodec
  import opened Stream
  import opened StoreSpec
  import opened Commands
  import opened Serve
  import opened Registry
  import opened Objects
  import CommandReads
  import SetWords

  // ---- sending --------------------------------------------------------------------------

  lemma {:induction false} Regrouped(a: bytes, b: bytes, c: bytes, d: bytes, e: bytes)
    ensures a + (b + c) == a + b + c && a + (b + c) + (d + e) == a + b + c + d + e
  {
    assert a + (b + c) == (a + b) + c;
    assert ((a + b) + c) + (d + e) == (((a + b) + c) + d) + e;
  }

  /** A line: `+` for a simple string, `-ERR ` for an error, `:` for a number. */
  lemma {:induction false} LineSent(s: bytes, n: i64)
    ensures Encode(SimpleString(s)) == [43] + s + [13, 10]
    ensures Encode(Error(s)) == [45, 69, 82, 82, 32] + s + [13, 10]
    ensures Encode(Integer(n)) == [58] + ToChars(n) + [13, 10]
  {
    hide ToChars;
    assert [DASH] + (ERR_PREFIX + s) == [45, 69, 82, 82, 32] + s;
    Regrouped([58], ToChars(n), [13, 10], [], []);
  }

  /** A bulk string is announced by its length, nil by -1. */
  lemma {:induction false} BulkSent(s: bytes)
    requires |s| <= I64_MAX
    ensures Encode(BulkString(s)) == [36] + ToChars(|s|) + [13, 10] + s + [13, 10]
    ensures Encode(Nil) == [36, 45, 49, 13, 10]
  {
    hide ToChars, Cast;
    CastSmall(|s|);
    MinusOne();
    Regrouped([36], ToChars(|s|), [13, 10], s, [13, 10]);
  }

  lemma {:induction false} MinusOne()
    ensures ToChars(-1) == [45, 49]
  {
  }

  /** An array is announced by the number of its elements. */
  lemma {:induction false} ArraySent(vs: seq<Value>)
    requires |vs| <= I64_MAX
    ensures Encode(Array(vs)) == [42] + ToChars(|vs|) + [13, 10] + EncodeAll(vs)
  {
    hide EncodeAll, ToChars;
    Regrouped([42], ToChars(|vs|), [13, 10], [], []);
  }

  // ---- receiving ------------------------------------------------------------------------

  /** A line: the type byte, the text, and the first line end behind it. */
  lemma {:induction false} LineFound(kind: byte, line: bytes, rest: bytes)
    requires !HasCrlf(line)
    ensures var s := [kind] + line + [13, 10] + rest;
            FindCrlf(s, 1) == Some(|line| + 1) && s[1..|line| + 1] == line && s[|line| + 3..] == rest
  {
    var s := [kind] + line + [13, 10] + rest;
    forall j | 1 <= j < |line| + 1 && j + 1 < |s| ensures !(s[j] == CR && s[j + 1] == LF) {
      assert s[j] == line[j - 1] && s[j + 1] == if j < |line| then line[j] else 13;
    }
    assert s[|line| + 1] == 13 && s[|line| + 2] == 10;
    FindCrlfIs(s, 1, |line| + 1);
  }

  /** `+` and `-` lines are taken as they are, a `:` line as the number it begins with. */
  lemma {:induction false} LineRead(line: bytes, rest: bytes)
    requires !HasCrlf(line)
    ensures Parse([43] + line + [13, 10] + rest) == Complete(SimpleString(line), |line| + 3)
    ensures Parse([45] + line + [13, 10] + rest) == Complete(Error(line), |line| + 3)
    ensures Parse([58] + line + [13, 10] + rest)
         == match FromChars(line) { case Parsed(n, _) => Complete(Integer(n), |line| + 3) case _ => Malformed }
  {
    hide FromChars, FindCrlf, HasCrlf;
    LineFound(43, line, rest);
    LineFound(45, line, rest);
    LineFound(58, line, rest);
  }

  /** A `$` or `*` line without a number or with one below -1 is refused, and -1 means nil. */
  lemma {:induction false} NoLength(line: bytes, rest: bytes)
    requires !HasCrlf(line) && (FromChars(line).Parsed? ==> FromChars(line).value < 0)
    ensures Parse([36] + line + [13, 10] + rest) == Parse([42] + line + [13, 10] + rest)
         == if FromChars(line).Parsed? && FromChars(line).value == -1 then Complete(Nil, |line| + 3) else Malformed
  {
    hide FromChars, FindCrlf, HasCrlf;
    var s, t := [36] + line + [13, 10] + rest, [42] + line + [13, 10] + rest;
    LineFound(36, line, rest);
    LineFound(42, line, rest);
    assert Parse(s) == ParseBulk(s, 0) && Parse(t) == ParseArray(t, 0);
  }

  /** A `$` line announces so many bytes and a line end behind them; anything else there is refused. */
  lemma {:induction false} PayloadRead(line: bytes, data: bytes, x: byte, y: byte, rest: bytes)
    requires !HasCrlf(line) && FromChars(line).Parsed? && FromChars(line).value == |data|
    ensures Parse([36] + line + [13, 10] + (data + [x, y] + rest))
         == if x == 13 && y == 10 then Complete(BulkString(data), |line| + |data| + 5) else Malformed
  {
    hide FromChars, FindCrlf, HasCrlf;
    var s := [36] + line + [13, 10] + (data + [x, y] + rest);
    LineFound(36, line, data + [x, y] + rest);
    var at, end := |line| + 3, |line| + |data| + 5;
    assert s[end - 2] == x && s[end - 1] == y && s[at..end - 2] == data;
  }

  /** Every other first byte is refused. */
  lemma {:induction false} OtherRefused(s: bytes)
    ensures s == [] ==> Parse(s) == Incomplete
    ensures s != [] && s[0] !in {43, 45, 58, 36, 42} ==> Parse(s) == Malformed
  {
  }

  // ---- requests -------------------------------------------------------------------------

  /** A request reaches command `c` exactly if it is an array whose first element names `c`, in either case, with a
      number of elements that `c` accepts; any other message gets the error that says what is wrong with it. */
  lemma {:induction false} RequestMeaning(v: Value, st: Store, env: Env)
    ensures !v.Array? || v.elements == [] ==>
              ServeOne(v, st, env) == Result(st, Error(Ascii("Protocol error: expected array")))
    ensures v.Array? && v.elements != [] && !v.elements[0].BulkString? ==>
              ServeOne(v, st, env) == Result(st, Error(Ascii("Protocol error: " + "command name must be bulk string")))
    ensures v.Array? && v.elements != [] && v.elements[0].BulkString? ==>
              var word, n := v.elements[0].str, |v.elements|;
              && ((forall c: Command :: !InEitherCase(word, Registered(c).name)) ==>
                    ServeOne(v, st, env)
                    == Result(st, Error(Ascii("unknown command `") + Upper(word) + Ascii("`"))))
              && forall c: Command | InEitherCase(word, Registered(c).name) ::
                   if Registered(c).least <= n && (Registered(c).most.Some? ==> n <= Registered(c).most.value)
                   then ArityOk(c, n) && ServeOne(v, st, env) == Exec(c, v.elements, st, env)
                   else ServeOne(v, st, env)
                        == Result(st, Error(Ascii("wrong number of arguments for '") + Registered(c).name
                                            + Ascii("' command")))
  {
    hide Ascii, Find, Upper, Registered, InEitherCase, Exec, ArityOk;
    if v.Array? && v.elements != [] && v.elements[0].BulkString? {
      var word, n := v.elements[0].str, |v.elements|;
      UpperTwice(word);
      forall c: Command
        ensures Find(Upper(word)) == Some(c) <==> InEitherCase(word, Registered(c).name)
        ensures Find(Upper(word)) == Some(c) ==> Upper(word) == Registered(c).name
      {
        FindIs(word, c);
        FindUpper(word, c);
      }
      forall c: Command
        ensures ArityOk(c, n) <==>
                  Registered(c).least <= n && (Registered(c).most.Some? ==> n <= Registered(c).most.value)
      {
        ArityIs(c, n);
      }
    }
  }

  /** The request that makes a connection write-only is `QUIT`, in either case, without operands. */
  lemma {:induction false} QuitMeaning(v: Value)
    ensures Quits(v) <==>
              && v.Array? && |v.elements| == 1 && v.elements[0].BulkString?
              && InEitherCase(v.elements[0].str, [81, 85, 73, 84])
  {
    hide Find, InEitherCase;
    assert Registered(CQuit).name == [81, 85, 73, 84];
    if v.Array? && |v.elements| == 1 && v.elements[0].BulkString? {
      UpperTwice(v.elements[0].str);
      FindIs(v.elements[0].str, CQuit);
    }
  }

  lemma {:induction false} UpperTwice(word: bytes)
    ensures Upper(Upper(word)) == Upper(word) && Find(Upper(word)) == Find(word)
  {
    hide FindString, FindCounter, FindKey, FindServer;
    var once := Upper(word);
    assert Upper(once) == once;
  }

  // ---- a conversation -------------------------------------------------------------------

  /** A bulk string as bytes. */
  function Bulk(s: bytes): bytes
    requires |s| <= I64_MAX
  {
    [36] + ToChars(|s|) + [13, 10] + s + [13, 10]
  }

  /** A request as the client writes it: its words as bulk strings in one array. */
  function Written(words: seq<bytes>): bytes
    requires |words| <= I64_MAX && forall i | 0 <= i < |words| :: |words[i]| <= I64_MAX
  {
    [42] + ToChars(|words|) + [13, 10] + Blocks(words)
  }

  function Blocks(words: seq<bytes>): bytes
    requires forall i | 0 <= i < |words| :: |words[i]| <= I64_MAX
  {
    if words == [] then [] else Bulk(words[0]) + Blocks(words[1..])
  }

  function Message(words: seq<bytes>): Value {
    Array(Bulks(words))
  }

  function Bulks(words: seq<bytes>): (vs: seq<Value>)
    ensures |vs| == |words|
  {
    seq(|words|, i requires 0 <= i < |words| => BulkString(words[i]))
  }

  lemma {:induction false} BlocksSent(words: seq<bytes>)
    requires forall i | 0 <= i < |words| :: |words[i]| <= I64_MAX
    ensures EncodeAll(Bulks(words)) == Blocks(words)
    ensures SizedAll(Bulks(words)) && CleanAll(Bulks(words)) && SentAll(Bulks(words)) == Bulks(words)
  {
    hide ToChars, Encode, Bulk;
    if words != [] {
      assert Bulks(words)[1..] == Bulks(words[1..]);
      BlocksSent(words[1..]);
      BulkSent(words[0]);
      assert Encode(BulkString(words[0])) == Bulk(words[0]) by { BulkIs(words[0]); }
    }
  }

  lemma {:induction false} BulkIs(s: bytes)
    requires |s| <= I64_MAX
    ensures Bulk(s) == [36] + ToChars(|s|) + [13, 10] + s + [13, 10]
  {
  }

  /** A request is received exactly as it was written, whatever follows it. */
  lemma {:induction false} RequestReceived(words: seq<bytes>, rest: bytes)
    requires |words| <= I64_MAX && forall i | 0 <= i < |words| :: |words[i]| <= I64_MAX
    ensures Parse(Written(words) + rest) == Complete(Message(words), |Written(words)|)
  {
    hide ToChars, Encode, Bulks, Blocks, EncodeAll, SizedAll, CleanAll, SentAll, ParseValue;
    BlocksSent(words);
    ArraySent(Bulks(words));
    var v := Message(words);
    assert Encode(v) == Written(words);
    assert Sized(v) && Clean(v) && Sent(v) == v by { ArrayIsClean(Bulks(words)); }
    RoundTrip(v, rest);
  }

  lemma {:induction false} ArrayIsClean(vs: seq<Value>)
    requires |vs| <= I64_MAX && SizedAll(vs) && CleanAll(vs) && SentAll(vs) == vs
    ensures Sized(Array(vs)) && Clean(Array(vs)) && Sent(Array(vs)) == Array(vs)
  {
  }

  /** The texts of the replies are plain characters. */
  lemma {:induction false} TextSent(s: string)
    requires forall i | 0 <= i < |s| :: s[i] as int < 128
    ensures |Ascii(s)| == |s| && forall i | 0 <= i < |s| :: Ascii(s)[i] == s[i] as int
  {
  }

  /** Bytes that are no message bring one fixed line. */
  lemma {:induction false} ComplaintSent()
    ensures Complaint(false) == []
    ensures Complaint(true)
         == [45, 69, 82, 82, 32] + Ascii("Protocol error: " + "invalid RESP2 format") + [13, 10]
  {
    hide Ascii;
    var text := "Protocol error: " + "invalid RESP2 format";
    assert PROTOCOL_ERROR == text;
    LineSent(Ascii(text), 0);
  }

  /** `PING`, in either case, is answered with `+PONG`. */
  lemma {:induction false} PingAnswered(word: bytes, st: Store, env: Env)
    requires InEitherCase(word, [80, 73, 78, 71])
    ensures ServeOne(Message([word]), st, env).store == st
    ensures Encode(ServeOne(Message([word]), st, env).reply) == [43, 80, 79, 78, 71, 13, 10]
  {
    hide InEitherCase, ServeOne, Exec, Encode, ArityOk;
    PingIs();
    RequestMeaning(Message([word]), st, env);
    CommandReads.EchoMeaning(Bulks([word]), st, env);
    LineSent([80, 79, 78, 71], 0);
  }

  lemma {:induction false} PingIs()
    ensures Registered(CPing) == Registration([80, 73, 78, 71], 1, Some(2))
  {
  }

  /** With an operand it is answered with the operand. */
  lemma {:induction false} PingEchoed(word: bytes, s: bytes, st: Store, env: Env)
    requires InEitherCase(word, [80, 73, 78, 71]) && |s| <= I64_MAX
    ensures ServeOne(Message([word, s]), st, env).store == st
    ensures Encode(ServeOne(Message([word, s]), st, env).reply) == Bulk(s)
  {
    hide InEitherCase, ServeOne, Exec, Encode, ArityOk, Bulk, Registered;
    PingIs();
    RequestMeaning(Message([word, s]), st, env);
    assert Bulks([word, s])[0] == BulkString(word) && Bulks([word, s])[1] == BulkString(s);
    CommandReads.EchoMeaning(Bulks([word, s]), st, env);
    CommandReads.OperandText(s);
    BulkSent(s);
    BulkIs(s);
  }

  /** Requests are extracted one by one. */
  lemma {:induction false} RequestExtracted(words: seq<bytes>, rest: bytes)
    requires |words| <= I64_MAX && forall i | 0 <= i < |words| :: |words[i]| <= I64_MAX
    ensures Extract(Written(words) + rest) == var e := Extract(rest); e.(values := [Message(words)] + e.values)
  {
    hide Blocks, Message, ParseValue;
    RequestReceived(words, rest);
    assert (Written(words) + rest)[|Written(words)|..] == rest;
  }

  lemma {:induction false} TwoExtracted(a: seq<bytes>, b: seq<bytes>)
    requires |a| <= I64_MAX && forall i | 0 <= i < |a| :: |a[i]| <= I64_MAX
    requires |b| <= I64_MAX && forall i | 0 <= i < |b| :: |b[i]| <= I64_MAX
    ensures Extract(Written(a) + Written(b)) == Extraction([Message(a), Message(b)], [], false)
  {
    hide Written, Message, ParseValue;
    RequestExtracted(a, Written(b));
    RequestExtracted(b, []);
    assert Written(b) + [] == Written(b);
    assert [Message(a)] + [Message(b)] == [Message(a), Message(b)] && [Message(b)] + [] == [Message(b)];
  }

  /** `SET key value` and `get key` in one go, on any database: the client gets `+OK` and the value, as it is stored. */
  lemma {:induction false} Conversation(key: bytes, val: bytes, st: Store, first: Env, second: Env)
    requires |key| <= I64_MAX && |val| <= I64_MAX && |Objects.Text(CreateString(val))| <= I64_MAX
    requires first.now <= second.now
    ensures var e := Extract(Written([[83, 69, 84], key, val]) + Written([[103, 101, 116], key]));
            && |e.values| == 2 && e.rest == [] && !e.error
            && ServeAll(e.values, st, [first, second]).1
               == [43, 79, 75, 13, 10] + Bulk(Objects.Text(CreateString(val)))
  {
    hide Written, Message, Objects.Text, CreateString, ServeOne, Encode, Bulk;
    var a, b := [[83, 69, 84], key, val], [[103, 101, 116], key];
    TwoExtracted(a, b);
    var text := Objects.Text(CreateString(val));
    SetThenGetServed(key, val, st, first, second);
    LineSent([79, 75], 0);
    BulkSent(text);
    BulkIs(text);
    TwoServed(Message(a), Message(b), st, first, second);
  }

  lemma {:induction false} TwoServed(v: Value, w: Value, st: Store, e: Env, f: Env)
    ensures var r := ServeOne(v, st, e);
            ServeAll([v, w], st, [e, f]).1 == Encode(r.reply) + Encode(ServeOne(w, r.store, f).reply)
  {
    hide ServeOne, Encode;
    var r := ServeOne(v, st, e);
    assert [v, w][1..] == [w] && [e, f][1..] == [f] && [w][1..] == [] && [f][1..] == [];
    ServeNone(ServeOne(w, r.store, f).store);
    var last := Encode(ServeOne(w, r.store, f).reply);
    assert last + [] == last;
    assert ServeAll([w], r.store, [f]).1 == last;
  }

  lemma {:induction false} SetThenGetServed(key: bytes, val: bytes, st: Store, first: Env, second: Env)
    requires first.now <= second.now
    ensures var set_ := ServeOne(Message([[83, 69, 84], key, val]), st, first);
            && set_.reply == SimpleString([79, 75])
            && ServeOne(Message([[103, 101, 116], key]), set_.store, second).reply
               == BulkString(Objects.Text(CreateString(val)))
  {
    hide Objects.Text, CreateString, ServeOne, Encode, Exec, InEitherCase;
    var a, b := Bulks([[83, 69, 84], key, val]), Bulks([[103, 101, 116], key]);
    Names();
    RequestMeaning(Array(a), st, first);
    var s := Exec(CSet, a, st, first).store;
    RequestMeaning(Array(b), s, second);
    SetWords.NoOptions();
    SetWords.SetMeaning(a, [], st, first, first.now);
    SetWords.SetThenGet(a, [], st, first, b, second);
  }

  lemma {:induction false} Names()
    ensures InEitherCase([83, 69, 84], Registered(CSet).name) && InEitherCase([103, 101, 116], Registered(CGet).name)
    ensures Registered(CSet).least == 3 && Registered(CSet).most.None?
    ensures Registered(CGet).least == 2 && Registered(CGet).most == Some(2)
  {
  }
}
