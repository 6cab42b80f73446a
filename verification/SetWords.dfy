/**
 `SET` and its options: a series of words, each read on its own or, behind `EX` and `PX`, together with the number
 that follows. The law is about the words as the client sent them, in upper or lower case.
 */
module SetWords {
  import opened Common
  import opened Decimal
  import opened Objects
  import opened StoreSpec
  import opened Commands
  import opened CommandMeaning
  import CommandReads
  import opened Resp

  /** `w` consists of the letters `a` and `b`, each in upper or lower case. */
  predicate Spells(w: bytes, a: byte, b: byte) {
    |w| == 2 && (w[0] == a || w[0] == a + 32) && (w[1] == b || w[1] == b + 32)
  }

  predicate IsEx(w: bytes) { Spells(w, 69, 88) }

  predicate IsPx(w: bytes) { Spells(w, 80, 88) }

  predicate IsNx(w: bytes) { Spells(w, 78, 88) }

  predicate IsXx(w: bytes) { Spells(w, 88, 88) }

  /** A word that takes a number, with its number, or any other word. */
  datatype SetOption = Timed(name: bytes, number: bytes) | Plain(name: bytes)

  /** The words of the options. */
  function Render(os: seq<SetOption>): seq<bytes> {
    if os == [] then []
    else (match os[0] case Timed(w, n) => [w, n] case Plain(w) => [w]) + Render(os[1..])
  }

  /** `EX` and `PX` go together with the next word, if there is one. */
  predicate Grouped(os: seq<SetOption>) {
    forall i | 0 <= i < |os| ::
      if os[i].Timed? then IsEx(os[i].name) || IsPx(os[i].name)
      else IsEx(os[i].name) || IsPx(os[i].name) ==> i == |os| - 1
  }

  /** The operands behind key and value. */
  function Words(args: seq<Value>, i: nat): (ws: seq<bytes>)
    requires i <= |args|
    ensures |ws| == |args| - i
  {
    seq(|args| - i, j requires 0 <= j < |args| - i => Commands.Text(args[i + j]))
  }

  function Group(ws: seq<bytes>): seq<SetOption> {
    if ws == [] then []
    else if (IsEx(ws[0]) || IsPx(ws[0])) && |ws| > 1 then [Timed(ws[0], ws[1])] + Group(ws[2..])
    else [Plain(ws[0])] + Group(ws[1..])
  }

  lemma {:induction false} RenderCons(o: SetOption, os: seq<SetOption>)
    ensures Render([o] + os) == (match o case Timed(w, n) => [w, n] case Plain(w) => [w]) + Render(os)
  {
    assert ([o] + os)[1..] == os;
  }

  lemma {:induction false} GroupedCons(o: SetOption, os: seq<SetOption>)
    ensures Grouped([o] + os) <==>
              && (if o.Timed? then IsEx(o.name) || IsPx(o.name) else os == [] || !(IsEx(o.name) || IsPx(o.name)))
              && Grouped(os)
  {
    hide IsEx, IsPx;
    var all := [o] + os;
    assert forall i | 0 <= i < |os| :: all[i + 1] == os[i];
    if Grouped(all) {
      assert all[0] == o;
    }
  }

  lemma {:induction false} NoOptions()
    ensures Grouped([]) && Render([]) == []
  {
  }

  lemma {:induction false} FirstOption(os: seq<SetOption>)
    requires os != []
    ensures os == [os[0]] + os[1..] && |Render(os)| >= 1 && Render(os)[0] == os[0].name
    ensures os[0].Timed? ==> |Render(os)| >= 2 && Render(os)[1] == os[0].number && Render(os)[2..] == Render(os[1..])
    ensures os[0].Plain? ==> Render(os)[1..] == Render(os[1..]) && (os[1..] == [] ==> |Render(os)| == 1)
  {
  }

  /** Every series of words is read as options in exactly one way. */
  lemma {:induction false} OneReading(ws: seq<bytes>, os: seq<SetOption>)
    ensures Grouped(os) && Render(os) == ws <==> os == Group(ws)
    decreases |ws|
  {
    hide IsEx, IsPx, Grouped, Render;
    NoOptions();
    if os != [] {
      FirstOption(os);
      GroupedCons(os[0], os[1..]);
    }
    if ws != [] {
      var timed := (IsEx(ws[0]) || IsPx(ws[0])) && |ws| > 1;
      var first, rest := if timed then Timed(ws[0], ws[1]) else Plain(ws[0]), if timed then ws[2..] else ws[1..];
      OneReading(rest, Group(rest));
      GroupedCons(first, Group(rest));
      RenderCons(first, Group(rest));
      if Grouped(os) && Render(os) == ws { OneReading(rest, os[1..]); }
    }
  }

  // ---- what the options say -------------------------------------------------------------

  /** The number behind a word is a positive integer, as far as it is read. */
  predicate Positive(number: bytes) {
    FromChars(number).Parsed? && FromChars(number).value > 0
  }

  predicate NumberRefused(os: seq<SetOption>) {
    exists i | 0 <= i < |os| :: os[i].Timed? && !Positive(os[i].number)
  }

  predicate SaysNx(os: seq<SetOption>) {
    exists i | 0 <= i < |os| :: os[i].Plain? && IsNx(os[i].name)
  }

  predicate SaysXx(os: seq<SetOption>) {
    exists i | 0 <= i < |os| :: os[i].Plain? && IsXx(os[i].name)
  }

  /** Option `i` is the last one with a number. */
  predicate LastTimed(os: seq<SetOption>, i: nat) {
    i < |os| && os[i].Timed? && forall j | i < j < |os| :: os[j].Plain?
  }

  predicate Untimed(os: seq<SetOption>) {
    forall i | 0 <= i < |os| :: os[i].Plain?
  }

  /** The milliseconds that an option with a positive number asks for. */
  function Span(o: SetOption): int
    requires o.Timed? && Positive(o.number)
  {
    if IsEx(o.name) then 1000 * FromChars(o.number).value else FromChars(o.number).value
  }

  // ---- the option loop ------------------------------------------------------------------

  lemma {:induction false} SpelledOut(w: bytes)
    ensures Upper(w) == Ascii("EX") <==> IsEx(w)
    ensures Upper(w) == Ascii("PX") <==> IsPx(w)
    ensures Upper(w) == Ascii("NX") <==> IsNx(w)
    ensures Upper(w) == Ascii("XX") <==> IsXx(w)
  {
    var u := Upper(w);
    assert Ascii("EX") == [69, 88] && Ascii("PX") == [80, 88] && Ascii("NX") == [78, 88] && Ascii("XX") == [88, 88];
    assert |u| == |w| && forall i | 0 <= i < |w| :: u[i] == if 97 <= w[i] <= 122 then w[i] - 32 else w[i];
    if |w| == 2 { assert u == [u[0], u[1]]; }
  }

  /** The options after `os`, behind those that led to `o`. */
  ghost predicate Reads(os: seq<SetOption>, o: SetOptions, r: SetOptions) {
    o.SetOptions? &&
    if NumberRefused(os) then r == BadExpire("set")
    else
      && r.SetOptions? && r.nx == (o.nx || SaysNx(os)) && r.xx == (o.xx || SaysXx(os))
      && (Untimed(os) ==> r.expireMs == o.expireMs)
      && forall i: nat | LastTimed(os, i) :: r.expireMs == Span(os[i])
  }

  /** One option in front of others. */
  lemma {:induction false} ReadsCons(x: SetOption, os: seq<SetOption>, o: SetOptions, r: SetOptions)
    requires o.SetOptions?
    requires x.Plain? ==> Reads(os, o.(nx := o.nx || IsNx(x.name), xx := o.xx || IsXx(x.name)), r)
    requires x.Timed? && !Positive(x.number) ==> r == BadExpire("set")
    requires x.Timed? && Positive(x.number) ==> Reads(os, o.(expireMs := Span(x)), r)
    ensures Reads([x] + os, o, r)
  {
    hide IsEx, IsNx, IsXx, Positive, Span;
    var all := [x] + os;
    assert forall i | 0 <= i < |os| :: all[i + 1] == os[i];
    assert all[0] == x;
    assert NumberRefused(all) <==> (x.Timed? && !Positive(x.number)) || NumberRefused(os);
    assert SaysNx(all) <==> (x.Plain? && IsNx(x.name)) || SaysNx(os);
    assert SaysXx(all) <==> (x.Plain? && IsXx(x.name)) || SaysXx(os);
    assert Untimed(all) <==> x.Plain? && Untimed(os);
    forall i: nat | LastTimed(all, i)
      ensures if i == 0 then x.Timed? && Untimed(os) else LastTimed(os, i - 1)
    {
    }
  }

  lemma {:induction false} WordsNext(args: seq<Value>, i: nat)
    requires i < |args|
    ensures Words(args, i) == [Commands.Text(args[i])] + Words(args, i + 1)
    ensures i + 1 < |args| ==>
              Words(args, i)[1] == Commands.Text(args[i + 1]) && Words(args, i)[2..] == Words(args, i + 2)
  {
    hide Commands.Text;
  }

  /** The loop reads its words as these options. */
  lemma {:induction false} ParseReads(args: seq<Value>, i: nat, o: SetOptions)
    requires i <= |args| && o.SetOptions?
    ensures Reads(Group(Words(args, i)), o, ParseSetOptions(args, i, o))
    decreases |args| - i
  {
    hide Words, IsEx, IsPx, IsNx, IsXx, Upper, Ascii, Commands.Text, FromChars, Reads, Spells;
    if i == |args| {
      ReadsNone(o);
    } else {
      WordsNext(args, i);
      var w, ws := Commands.Text(args[i]), Words(args, i);
      SpelledOut(w);
      OneMeaning(w);
      if (IsEx(w) || IsPx(w)) && i + 1 < |args| {
        var x := Timed(w, Commands.Text(args[i + 1]));
        assert Group(ws) == [x] + Group(Words(args, i + 2));
        if Positive(x.number) { ParseReads(args, i + 2, o.(expireMs := Span(x))); }
        ReadsCons(x, Group(Words(args, i + 2)), o, ParseSetOptions(args, i, o));
      } else {
        assert Group(ws) == [Plain(w)] + Group(Words(args, i + 1));
        ParseReads(args, i + 1, o.(nx := o.nx || IsNx(w), xx := o.xx || IsXx(w)));
        ReadsCons(Plain(w), Group(Words(args, i + 1)), o, ParseSetOptions(args, i, o));
      }
    }
  }

  lemma {:induction false} ReadsNone(o: SetOptions)
    requires o.SetOptions?
    ensures Reads([], o, o)
  {
  }

  lemma {:induction false} OneMeaning(w: bytes)
    ensures !(IsEx(w) && IsPx(w)) && !(IsNx(w) && IsXx(w))
    ensures IsNx(w) || IsXx(w) ==> !IsEx(w) && !IsPx(w)
  {
  }

  // ---- the command ----------------------------------------------------------------------

  /** When a value stored at `now` with these options is gone: never without `EX` and `PX`, otherwise as the last
      of them says. */
  predicate GoneAt(os: seq<SetOption>, now: int, t: int)
    requires !NumberRefused(os)
  {
    exists i: nat | i < |os| :: LastTimed(os, i) && t >= now + Span(os[i])
  }

  lemma {:induction false} LastOrNone(os: seq<SetOption>)
    ensures Untimed(os) || exists i: nat | i < |os| :: LastTimed(os, i)
  {
    if os != [] && os[|os| - 1].Plain? {
      var front := os[..|os| - 1];
      LastOrNone(front);
      if i: nat :| i < |front| && LastTimed(front, i) { assert LastTimed(os, i); }
    } else if os != [] {
      assert LastTimed(os, |os| - 1);
    }
  }

  lemma {:induction false} Ends(os: seq<SetOption>, o: SetOptions, now: int, t: int)
    requires !NumberRefused(os) && Reads(os, SetOptions(-1, false, false), o)
    ensures GoneAt(os, now, t) <==> o.expireMs > 0 && t >= now + o.expireMs
  {
    hide Positive, IsEx;
    LastOrNone(os);
    if i: nat :| i < |os| && LastTimed(os, i) { SpanPositive(os[i]); }
  }

  lemma {:induction false} SpanPositive(o: SetOption)
    requires o.Timed? && Positive(o.number)
    ensures Span(o) > 0
  {
  }

  /** `SET key value` with any options, as the client spells them: an error without a change if some `EX` or `PX` has
      no positive number; nil without a visible change if `NX` stands before a key that is shown, or `XX` before
      one that is not; otherwise the key is bound to the value until its time has passed. Other words do nothing. */
  lemma {:induction false} SetMeaning(args: seq<Value>, os: seq<SetOption>, st: Store, env: Env, t: int)
    requires |args| >= 3 && env.now <= t && Grouped(os) && Render(os) == Words(args, 3)
    ensures var key, r := Commands.Text(args[1]), Exec(CSet, args, st, env);
            var shown := Shown(st, key, env.now).Some?;
            if NumberRefused(os) then r == Result(st, Error(Ascii("invalid expire time in 'set' command")))
            else if (SaysNx(os) && shown) || (SaysXx(os) && !shown) then r.reply == Nil && Equiv(r.store, st, t)
            else
              && r.reply == SimpleString([79, 75]) && OthersKept(st, r.store, key, t)
              && Peek(r.store, key, t)
                 == if GoneAt(os, env.now, t) then None else Some(CreateString(Commands.Text(args[2])))
  {
    hide Words, Grouped, Render, Group, Commands.Text, Ascii, OthersKept, Equiv, Peek, ParseSetOptions, Shown;
    var key, o := Commands.Text(args[1]), ParseSetOptions(args, 3, SetOptions(-1, false, false));
    OneReading(Words(args, 3), os);
    ParseReads(args, 3, SetOptions(-1, false, false));
    OkIs();
    SetByOptions(args, st, env.now, t);
    ShownIsPeek(st, key, env.now);
    assert Exec(CSet, args, st, env) == ExecSet(args, st, env.now);
    if !NumberRefused(os) { Ends(os, o, env.now, t); }
  }

  /** What a later `GET` replies behind an accepted `SET`. */
  lemma {:induction false} SetThenGet(args: seq<Value>, os: seq<SetOption>, st: Store, env: Env, get: seq<Value>,
                                       later: Env)
    requires |args| >= 3 && |get| == 2 && Commands.Text(get[1]) == Commands.Text(args[1]) && env.now <= later.now
    requires Grouped(os) && Render(os) == Words(args, 3) && !NumberRefused(os)
    requires Exec(CSet, args, st, env).reply == SimpleString([79, 75])
    ensures Exec(CGet, get, Exec(CSet, args, st, env).store, later).reply
         == if GoneAt(os, env.now, later.now) then Nil
            else BulkString(Objects.Text(CreateString(Commands.Text(args[2]))))
  {
    hide Words, Grouped, Render, Commands.Text, Objects.Text, CreateString, Ascii, OthersKept, Equiv, Peek, Exec;
    hide Shown, GoneAt;
    var s := Exec(CSet, args, st, env).store;
    SetMeaning(args, os, st, env, later.now);
    CommandReads.GetMeaning(get, s, later, later.now);
    ShownIsPeek(s, Commands.Text(get[1]), later.now);
  }

  /** The request that a client sends. */
  function Request(key: Key, val: bytes, words: seq<bytes>): (args: seq<Value>)
    ensures |args| == 3 + |words|
  {
    [BulkString([115, 101, 116]), BulkString(key), BulkString(val)]
    + seq(|words|, i requires 0 <= i < |words| => BulkString(words[i]))
  }

  lemma {:induction false} RequestWords(key: Key, val: bytes, words: seq<bytes>)
    ensures Words(Request(key, val, words), 3) == words
  {
    var args, ws := Request(key, val, words), Words(Request(key, val, words), 3);
    forall j | 0 <= j < |words| ensures ws[j] == words[j] {
      assert args[3 + j] == BulkString(words[j]);
    }
    assert ws == words;
  }

  /** The reply to `SET` with these words, and what `GET` replies later. */
  function SetGet(key: Key, val: bytes, words: seq<bytes>, st: Store, env: Env, later: Env): (Value, Value) {
    var r := Exec(CSet, Request(key, val, words), st, env);
    (r.reply, Exec(CGet, [Nil, BulkString(key)], r.store, later).reply)
  }

  lemma {:induction false} SetGetIs(key: Key, val: bytes, os: seq<SetOption>, words: seq<bytes>, st: Store, env: Env,
                                    later: Env)
    requires env.now <= later.now && Grouped(os) && Render(os) == words && !NumberRefused(os)
    requires !(SaysNx(os) && Shown(st, key, env.now).Some?) && !(SaysXx(os) && Shown(st, key, env.now).None?)
    ensures SetGet(key, val, words, st, env, later)
         == (SimpleString([79, 75]),
             if GoneAt(os, env.now, later.now) then Nil else BulkString(Objects.Text(CreateString(val))))
  {
    hide Words, Grouped, Render, Objects.Text, CreateString, Ascii, OthersKept, Equiv, Peek, Exec, GoneAt, Shown;
    var args := Request(key, val, words);
    RequestWords(key, val, words);
    SetMeaning(args, os, st, env, env.now);
    SetThenGet(args, os, st, env, [Nil, BulkString(key)], later);
  }

  lemma {:induction false} Refused(key: Key, val: bytes, os: seq<SetOption>, words: seq<bytes>, st: Store, env: Env)
    requires Grouped(os) && Render(os) == words && !NumberRefused(os)
    requires (SaysNx(os) && Shown(st, key, env.now).Some?) || (SaysXx(os) && Shown(st, key, env.now).None?)
    ensures SetGet(key, val, words, st, env, env)
         == (Nil, match Shown(st, key, env.now) { case None => Nil case Some(s) => BulkString(s) })
  {
    hide Words, Grouped, Render, Objects.Text, CreateString, Ascii, OthersKept, Equiv, Peek, Exec, Shown;
    var args := Request(key, val, words);
    var s := Exec(CSet, args, st, env).store;
    RequestWords(key, val, words);
    SetMeaning(args, os, st, env, env.now);
    FetchEquiv(s, st, key, env.now);
    ShownIsPeek(s, key, env.now);
    ShownIsPeek(st, key, env.now);
    CommandReads.GetMeaning([Nil, BulkString(key)], s, env, env.now);
  }

  /** Without options, with `NX` and with `XX`: the value stays for good if the condition holds. */
  lemma {:induction false} SetForms(key: Key, val: bytes, st: Store, env: Env, later: Env)
    requires env.now <= later.now
    ensures var done := (SimpleString([79, 75]), BulkString(Objects.Text(CreateString(val))));
            var shown := Shown(st, key, env.now);
            && SetGet(key, val, [], st, env, later) == done
            && (shown.None? ==> SetGet(key, val, [[78, 88]], st, env, later) == done)
            && (shown.Some? ==> SetGet(key, val, [[120, 120]], st, env, later) == done)
            && (shown.Some? ==> SetGet(key, val, [[78, 88]], st, env, env) == (Nil, BulkString(shown.value)))
            && (shown.None? ==> SetGet(key, val, [[120, 120]], st, env, env) == (Nil, Nil))
  {
    hide Objects.Text, CreateString, Shown, Exec, Equiv, Ascii;
    var nx, xx: seq<SetOption> := [Plain([78, 88])], [Plain([120, 120])];
    NoOptions();
    assert Render(nx[1..]) == [] && Render(xx[1..]) == [];
    SetGetIs(key, val, [], [], st, env, later);
    var shown := Shown(st, key, env.now);
    assert SaysNx(nx) && SaysXx(xx) by { assert IsNx(nx[0].name) && IsXx(xx[0].name); }
    assert !SaysXx(nx) && !SaysNx(xx) && Untimed(nx) && Untimed(xx);
    if shown.None? {
      SetGetIs(key, val, nx, [[78, 88]], st, env, later);
      Refused(key, val, xx, [[120, 120]], st, env);
    } else {
      SetGetIs(key, val, xx, [[120, 120]], st, env, later);
      Refused(key, val, nx, [[78, 88]], st, env);
    }
  }

  /** With `EX n`, with `px n`, and with both: the value stays for `n` seconds or milliseconds, and the last one
      counts. */
  lemma {:induction false} SetTimed(key: Key, val: bytes, n: i64, m: i64, st: Store, env: Env, later: Env)
    requires env.now <= later.now && n > 0 && m > 0
    ensures var text, ok := BulkString(Objects.Text(CreateString(val))), SimpleString([79, 75]);
            && SetGet(key, val, [[69, 88], ToChars(n)], st, env, later)
               == (ok, if later.now < env.now + 1000 * n then text else Nil)
            && SetGet(key, val, [[112, 120], ToChars(n)], st, env, later)
               == (ok, if later.now < env.now + n then text else Nil)
            && SetGet(key, val, [[69, 88], ToChars(n), [112, 120], ToChars(m)], st, env, later)
               == (ok, if later.now < env.now + m then text else Nil)
  {
    hide Objects.Text, CreateString, Shown, Exec, Equiv, Ascii, ToChars, FromChars;
    var ex, px, px' := Timed([69, 88], ToChars(n)), Timed([112, 120], ToChars(n)), Timed([112, 120], ToChars(m));
    Printed(n);
    Printed(m);
    NoOptions();
    RenderCons(ex, []);
    RenderCons(px, []);
    RenderCons(px', []);
    RenderCons(ex, [px']);
    assert [ex] + [] == [ex] && [px] + [] == [px] && [px'] + [] == [px'] && [ex] + [px'] == [ex, px'];
    SetGetIs(key, val, [ex], [[69, 88], ToChars(n)], st, env, later);
    SetGetIs(key, val, [px], [[112, 120], ToChars(n)], st, env, later);
    SetGetIs(key, val, [ex, px'], [[69, 88], ToChars(n), [112, 120], ToChars(m)], st, env, later);
    assert LastTimed([ex], 0) && LastTimed([px], 0) && LastTimed([ex, px'], 1) && !LastTimed([ex, px'], 0);
    assert !IsEx([112, 120]) && IsEx([69, 88]);
  }

  lemma {:induction false} Printed(n: i64)
    ensures FromChars(ToChars(n)).Parsed? && FromChars(ToChars(n)).value == n
  {
    PrintThenParse(n, []);
    assert ToChars(n) + [] == ToChars(n);
  }
}
