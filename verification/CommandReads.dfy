/** What the reading commands and the server commands reply, for every store. */
module CommandReads {
  import opened Common
  import opened Decimal
  import Objects
  import opened StoreSpec
  import opened Commands
  import opened CommandMeaning
  import opened Resp

  /** The operand of a command as the client sent it. */
  lemma {:induction false} OperandText(s: bytes)
    ensures Commands.Text(BulkString(s)) == Commands.Text(SimpleString(s)) == Commands.Text(Error(s)) == s
    ensures Commands.Text(Nil) == []
  {
  }

  /** `GET` replies what is shown for the key, nil where nothing is, and changes nothing visible. */
  lemma {:induction false} GetMeaning(args: seq<Value>, st: Store, env: Env, t: int)
    requires |args| == 2 && env.now <= t
    ensures var r := Exec(CGet, args, st, env);
            && r.reply == (match Shown(st, Commands.Text(args[1]), env.now)
                           case None => Nil
                           case Some(s) => BulkString(s))
            && Equiv(r.store, st, t)
  {
    hide Commands.Text, Equiv, Objects.Text;
    FetchedEarlier(st, Commands.Text(args[1]), env.now, t);
    ShownIsPeek(st, Commands.Text(args[1]), env.now);
  }

  /** `STRLEN` replies the length of what `GET` would show, 0 where nothing is shown. */
  lemma {:induction false} StrLenMeaning(args: seq<Value>, st: Store, env: Env, t: int)
    requires |args| == 2 && env.now <= t
    ensures var r, s := Exec(CStrLen, args, st, env), Shown(st, Commands.Text(args[1]), env.now);
            && (s.None? ==> r.reply == Integer(0))
            && (s.Some? && |s.value| <= I64_MAX ==> r.reply == Integer(|s.value|))
            && Equiv(r.store, st, t)
  {
    hide Commands.Text, Equiv, Objects.Text;
    FetchedEarlier(st, Commands.Text(args[1]), env.now, t);
    ShownIsPeek(st, Commands.Text(args[1]), env.now);
  }

  /** `TYPE` replies `string` for a key that is shown and `none` for any other. */
  lemma {:induction false} TypeMeaning(args: seq<Value>, st: Store, env: Env)
    requires |args| == 2
    ensures Exec(CType, args, st, env)
         == Result(st, SimpleString(if Shown(st, Commands.Text(args[1]), env.now).Some?
                                    then [115, 116, 114, 105, 110, 103] else [110, 111, 110, 101]))
  {
    hide Commands.Text, Objects.Text;
    ShownIsPeek(st, Commands.Text(args[1]), env.now);
    assert Ascii("string") == [115, 116, 114, 105, 110, 103] && Ascii("none") == [110, 111, 110, 101];
  }

  /** `PTTL` replies the milliseconds to the deadline, `TTL` the whole seconds, nothing below 0; -1 without a deadline
      and -2 without the key. */
  lemma {:induction false} TtlMeaning(args: seq<Value>, st: Store, env: Env)
    requires |args| == 2
    ensures var key, ttl, pttl := Commands.Text(args[1]), Exec(CTtl, args, st, env), Exec(CPTtl, args, st, env);
            && ttl.store == pttl.store == st
            && (key !in st.vals ==> ttl.reply == pttl.reply == Integer(-2))
            && (key in st.vals && key !in st.dl ==> ttl.reply == pttl.reply == Integer(-1))
            && (key in st.vals && key in st.dl && st.dl[key] <= env.now ==> ttl.reply == pttl.reply == Integer(0))
            && (key in st.vals && key in st.dl && 0 < st.dl[key] - env.now <= I64_MAX ==>
                  && pttl.reply == Integer(st.dl[key] - env.now)
                  && ttl.reply == Integer((st.dl[key] - env.now) / 1000))
  {
    hide Commands.Text;
  }

  /** `DBSIZE` counts the stored keys, and `FLUSHDB` leaves none. */
  lemma {:induction false} SizeMeaning(args: seq<Value>, st: Store, env: Env)
    requires |args| == 1
    ensures Exec(CDbSize, args, st, env).store == st
    ensures |st.vals| <= I64_MAX ==> Exec(CDbSize, args, st, env).reply == Integer(|st.vals|)
    ensures Exec(CFlushDb, args, st, env) == Result(Store(map[], map[]), SimpleString([79, 75]))
  {
    OkIs();
  }

  /** `PING` without an operand replies `PONG`; with one, and `ECHO`, reply it. */
  lemma {:induction false} EchoMeaning(args: seq<Value>, st: Store, env: Env)
    ensures |args| == 1 ==> Exec(CPing, args, st, env) == Result(st, SimpleString([80, 79, 78, 71]))
    ensures |args| == 2 ==> Exec(CPing, args, st, env) == Result(st, BulkString(Commands.Text(args[1])))
    ensures |args| == 2 ==> Exec(CEcho, args, st, env) == Result(st, BulkString(Commands.Text(args[1])))
  {
    hide Commands.Text;
    assert Ascii("PONG") == [80, 79, 78, 71];
  }

  /** There is one database, number 0. */
  lemma {:induction false} SelectMeaning(args: seq<Value>, st: Store, env: Env)
    requires |args| == 2
    ensures var n := FromChars(Commands.Text(args[1]));
            Exec(CSelect, args, st, env)
            == Result(st, if n.Parsed? && n.value == 0 then SimpleString([79, 75])
                          else Error(Ascii("DB index is out of range")))
  {
    hide Commands.Text, FromChars, Ascii;
    OkIs();
  }

  /** `QUIT` replies `OK`; `SAVE` and `BGSAVE` report the failure, if there is one. */
  lemma {:induction false} SaveMeaning(args: seq<Value>, st: Store, env: Env)
    requires |args| == 1
    ensures Exec(CQuit, args, st, env) == Result(st, SimpleString([79, 75]))
    ensures Exec(CSave, args, st, env)
         == Result(st, match env.report.save case None => SimpleString([79, 75]) case Some(text) => Error(text))
    ensures Exec(CBgSave, args, st, env)
         == Result(st, match env.report.fork
                       case None => SimpleString(Ascii("Background saving started"))
                       case Some(text) => Error(text))
  {
    hide Ascii;
    OkIs();
  }

  /** `INFO` ends in the number of stored keys. */
  lemma {:induction false} InfoMeaning(args: seq<Value>, st: Store, env: Env)
    requires 1 <= |args| <= 2 && |st.vals| <= I64_MAX
    ensures Exec(CInfo, args, st, env)
         == Result(st, BulkString(env.report.info + (Ascii("# Keyspace\r\ndb0:keys=") + ToChars(|st.vals|)
                                                     + Ascii(",expires=0\r\n"))))
  {
    hide Digits, Ascii;
  }
}
