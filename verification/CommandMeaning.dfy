/**
 What the commands mean to a client: what is replied and what later reads see, for every later time. These are
 laws about `Commands.Exec`, which the handlers compute.
 */
module CommandMeaning {
  import opened Common
  import opened Decimal
  import opened Objects
  import opened StoreSpec
  import opened Commands
  import opened Resp
  import Glob

  // ---- writing and reading --------------------------------------------------------------

  /** From time `t` on, reads of every key but `k` give the same before and after. */
  ghost predicate OthersKept(before: Store, after: Store, k: Key, t: int) {
    forall x | x != k :: Peek(after, x, t) == Peek(before, x, t)
  }

  lemma {:induction false} FetchKept(st: Store, k: Key, now: int, t: int)
    ensures OthersKept(st, Fetch(st, k, now).0, k, t)
  {
  }

  /** A written key is read back at any time, without a deadline. */
  lemma {:induction false} PutThenPeek(st: Store, k: Key, o: Object, t: int)
    ensures Peek(Put(st, k, o), k, t) == Some(o) && OthersKept(st, Put(st, k, o), k, t)
  {
  }

  /** With a deadline it is read back exactly before it. */
  lemma {:induction false} PutUntilThenPeek(st: Store, k: Key, o: Object, deadline: int, t: int)
    ensures var s := SetExpire(Put(st, k, o), k, deadline);
            Peek(s, k, t) == (if t < deadline then Some(o) else None) && OthersKept(st, s, k, t)
  {
  }

  /** What is shown of a key to a client: its text, until the key's deadline. */
  function Shown(st: Store, k: Key, now: int): Option<bytes> {
    if k in st.vals && (k in st.dl ==> now < st.dl[k]) then Some(Objects.Text(st.vals[k])) else None
  }

  lemma {:induction false} ShownIsPeek(st: Store, k: Key, now: int)
    ensures Shown(st, k, now).Some? <==> LiveKey(st, k, now)
    ensures Shown(st, k, now)
         == match Peek(st, k, now) { case None => None case Some(o) => Some(Objects.Text(o)) }
  {
  }

  /** `SET`, given its options: refused without a visible change by a bad option or by `NX`/`XX`; otherwise every
      later read sees the value exactly until its expiry time, if it has one, and all other keys are as they
      were. `SetWords` says what the options are. */
  lemma {:induction false} SetByOptions(args: seq<Value>, st: Store, now: int, t: int)
    requires |args| >= 3 && now <= t
    ensures var o, key := ParseSetOptions(args, 3, SetOptions(-1, false, false)), Commands.Text(args[1]);
            var r, live := ExecSet(args, st, now), LiveKey(st, key, now);
            if o.BadExpire? then r.store == st && r.reply.Error?
            else if (o.nx && live) || (o.xx && !live) then Equiv(r.store, st, t) && r.reply == Nil
            else
              && r.reply == OkReply() && OthersKept(st, r.store, key, t)
              && Peek(r.store, key, t)
                 == (if o.expireMs <= 0 || t < now + o.expireMs
                     then Some(CreateString(Commands.Text(args[2]))) else None)
  {
    hide ParseSetOptions, CreateString, Commands.Text, Canon, OthersKept, Peek;
    var key, obj := Commands.Text(args[1]), CreateString(Commands.Text(args[2]));
    var o := ParseSetOptions(args, 3, SetOptions(-1, false, false));
    var s := Fetch(st, key, now).0;
    FetchCanon(st, key, now);
    assert Equiv(s, st, now);
    EquivLater(s, st, now, t);
    PutThenPeek(s, key, obj, t);
    FetchKept(st, key, now, t);
    KeptTwice(st, s, Put(s, key, obj), key, t);
    if o.SetOptions? {
      PutUntilThenPeek(s, key, obj, now + o.expireMs, t);
      KeptTwice(st, s, SetExpire(Put(s, key, obj), key, now + o.expireMs), key, t);
    }
  }

  lemma {:induction false} KeptTwice(a: Store, b: Store, c: Store, k: Key, t: int)
    requires OthersKept(a, b, k, t)
    ensures OthersKept(b, c, k, t) ==> OthersKept(a, c, k, t)
  {
  }

  lemma {:induction false} SetExStores(args: seq<Value>, unit: int, message: string, st: Store, now: int, t: int)
    requires |args| == 4
    ensures var key, n, r := Commands.Text(args[1]), Number(args[2]), ExecSetEx(args, unit, message, st, now);
            if n.None? || n.value <= 0 then r == Result(st, Fail(message))
            else
              && r.reply == OkReply() && OthersKept(st, r.store, key, t)
              && Peek(r.store, key, t)
                 == (if t < now + n.value * unit then Some(CreateString(Commands.Text(args[3]))) else None)
  {
    hide CreateString, Commands.Text, Number;
    var n := Number(args[2]);
    if n.Some? {
      PutUntilThenPeek(st, Commands.Text(args[1]), CreateString(Commands.Text(args[3])), now + n.value * unit, t);
    }
  }

  /** `SETEX` and `PSETEX`: an error without a change unless the second operand begins with a positive number, or
      the value until that many seconds or milliseconds from now. */
  lemma {:induction false} SetExMeaning(c: Command, args: seq<Value>, st: Store, env: Env, t: int)
    requires |args| == 4 && (c == CSetEx || c == CPSetEx)
    ensures var key, n, r := Commands.Text(args[1]), FromChars(Commands.Text(args[2])), Exec(c, args, st, env);
            if !n.Parsed? || n.value <= 0
            then r == Result(st, Error(Ascii("invalid expire time in '" + (if c == CSetEx then "" else "p")
                                             + "setex' command")))
            else
              && r.reply == SimpleString([79, 75]) && OthersKept(st, r.store, key, t)
              && Peek(r.store, key, t)
                 == (if t < env.now + (if c == CSetEx then 1000 * n.value else n.value)
                     then Some(CreateString(Commands.Text(args[3]))) else None)
  {
    hide CreateString, Commands.Text, FromChars, ExecSetEx, Peek, OthersKept, Ascii;
    OkIs();
    var unit := if c == CSetEx then 1000 else 1;
    var message := "invalid expire time in '" + (if c == CSetEx then "" else "p") + "setex' command";
    SetExStores(args, unit, message, st, env.now, t);
    assert message == (if c == CSetEx then "invalid expire time in 'setex' command"
                       else "invalid expire time in 'psetex' command");
    assert Exec(c, args, st, env) == ExecSetEx(args, unit, message, st, env.now);
  }

  lemma {:induction false} OkIs()
    ensures OkReply() == SimpleString([79, 75])
  {
  }

  /** `GETSET` replies what was shown before and binds the key to the new value for good. */
  lemma {:induction false} GetSetMeaning(args: seq<Value>, st: Store, env: Env, t: int)
    requires |args| == 3 && env.now <= t
    ensures var key, r := Commands.Text(args[1]), Exec(CGetSet, args, st, env);
            && r.reply == (match Shown(st, key, env.now) { case None => Nil case Some(s) => BulkString(s) })
            && Peek(r.store, key, t) == Some(CreateString(Commands.Text(args[2]))) && OthersKept(st, r.store, key, t)
  {
    hide Commands.Text, CreateString, Objects.Text, Peek, OthersKept;
    var key, val := Commands.Text(args[1]), Commands.Text(args[2]);
    Overwritten(st, key, CreateString(val), env.now, t);
    ShownIsPeek(st, key, env.now);
  }

  /** Fetching a key and then binding it. */
  lemma {:induction false} Overwritten(st: Store, key: Key, o: Object, now: int, t: int)
    requires now <= t
    ensures var (s, prev) := Fetch(st, key, now);
            && prev == Peek(st, key, now) && Equiv(s, st, t)
            && Peek(Put(s, key, o), key, t) == Some(o) && OthersKept(st, Put(s, key, o), key, t)
  {
    hide Canon;
    var s := Fetch(st, key, now).0;
    FetchCanon(st, key, now);
    assert Equiv(s, st, now);
    EquivLater(s, st, now, t);
    FetchKept(st, key, now, t);
    PutThenPeek(s, key, o, t);
    KeptTwice(st, s, Put(s, key, o), key, t);
  }

  /** `SETNX` binds the key for good exactly if nothing is shown for it. */
  lemma {:induction false} SetNxMeaning(args: seq<Value>, st: Store, env: Env, t: int)
    requires |args| == 3 && env.now <= t
    ensures var key, r := Commands.Text(args[1]), Exec(CSetNx, args, st, env);
            if Shown(st, key, env.now).Some? then r.reply == Integer(0) && Equiv(r.store, st, t)
            else
              && r.reply == Integer(1) && OthersKept(st, r.store, key, t)
              && Peek(r.store, key, t) == Some(CreateString(Commands.Text(args[2])))
  {
    hide Commands.Text, CreateString, Objects.Text, Peek, OthersKept, Equiv;
    var key, val := Commands.Text(args[1]), Commands.Text(args[2]);
    Overwritten(st, key, CreateString(val), env.now, t);
    ShownIsPeek(st, key, env.now);
  }

  /** `APPEND` extends what was shown, or starts from nothing, for good, and replies the new length. */
  lemma {:induction false} AppendMeaning(args: seq<Value>, st: Store, env: Env, t: int)
    requires |args| == 3 && env.now <= t
    ensures var key, r := Commands.Text(args[1]), Exec(CAppend, args, st, env);
            var all := (match Shown(st, key, env.now) { case None => [] case Some(s) => s }) + Commands.Text(args[2]);
            && (|all| <= I64_MAX ==> r.reply == Integer(|all|))
            && Peek(r.store, key, t) == Some(CreateString(all)) && OthersKept(st, r.store, key, t)
  {
    hide Commands.Text, CreateString, Objects.Text, Peek, OthersKept, Equiv;
    var key, val := Commands.Text(args[1]), Commands.Text(args[2]);
    var all := (match Shown(st, key, env.now) { case None => [] case Some(s) => s }) + val;
    assert [] + val == val;
    Overwritten(st, key, CreateString(all), env.now, t);
    ShownIsPeek(st, key, env.now);
  }

  // ---- several pairs --------------------------------------------------------------------

  /** Argument `j` is a key of the pairs that begin at `i`. */
  predicate PairAt(args: seq<Value>, i: nat, j: nat) {
    i <= j && j + 1 < |args| && (j - i) % 2 == 0
  }

  /** No pair from `i` on binds `k`. */
  ghost predicate Unnamed(args: seq<Value>, i: nat, k: Key) {
    forall j: nat | PairAt(args, i, j) :: Commands.Text(args[j]) != k
  }

  /** Pair `j` is the last one for its key. */
  ghost predicate LastPair(args: seq<Value>, i: nat, j: nat) {
    && PairAt(args, i, j)
    && forall l: nat | PairAt(args, i, l) && l > j :: Commands.Text(args[l]) != Commands.Text(args[j])
  }

  lemma {:induction false} UnnamedKept(args: seq<Value>, i: nat, st: Store, k: Key)
    requires Unnamed(args, i, k)
    ensures var r := PutPairs(args, i, st);
            && (k in r.vals <==> k in st.vals) && (k in r.vals ==> r.vals[k] == st.vals[k])
            && (k in r.dl <==> k in st.dl) && (k in r.dl ==> r.dl[k] == st.dl[k])
    decreases |args| - i
  {
    hide CreateString, Commands.Text;
    if i + 1 < |args| {
      assert PairAt(args, i, i);
      forall j: nat | PairAt(args, i + 2, j) ensures Commands.Text(args[j]) != k { assert PairAt(args, i, j); }
      UnnamedKept(args, i + 2, Put(st, Commands.Text(args[i]), CreateString(Commands.Text(args[i + 1]))), k);
    }
  }

  /** The store binds the key of pair `j` to its value, without a deadline. */
  predicate BoundTo(st: Store, args: seq<Value>, j: nat) {
    && j + 1 < |args|
    && var k := Commands.Text(args[j]);
       k in st.vals && st.vals[k] == CreateString(Commands.Text(args[j + 1])) && k !in st.dl
  }

  /** A key is bound to its last pair. */
  lemma {:induction false} LastPairWins(args: seq<Value>, i: nat, st: Store, j: nat)
    requires LastPair(args, i, j)
    ensures BoundTo(PutPairs(args, i, st), args, j)
    decreases |args| - i
  {
    hide CreateString, Commands.Text;
    var next := Put(st, Commands.Text(args[i]), CreateString(Commands.Text(args[i + 1])));
    assert forall l: nat | PairAt(args, i + 2, l) :: PairAt(args, i, l);
    if i == j {
      UnnamedKept(args, i + 2, next, Commands.Text(args[j]));
    } else {
      assert PairAt(args, i + 2, j);
      LastPairWins(args, i + 2, next, j);
    }
  }

  /** `MSET`: an even number of operands binds every named key to its last pair and leaves the others alone; an odd
      number changes nothing. */
  lemma {:induction false} MSetMeaning(args: seq<Value>, st: Store, env: Env)
    requires |args| >= 3
    ensures var r := Exec(CMSet, args, st, env);
            if |args| % 2 == 0 then r == Result(st, Error(Ascii("wrong number of arguments for MSET")))
            else
              && r.reply == SimpleString([79, 75])
              && (forall j: nat | LastPair(args, 1, j) :: BoundTo(r.store, args, j))
              && forall k, t | Unnamed(args, 1, k) :: Peek(r.store, k, t) == Peek(st, k, t)
  {
    hide CreateString, Commands.Text, PutPairs, PairAt, LastPair, Unnamed, BoundTo, Ascii;
    OkIs();
    forall j: nat | LastPair(args, 1, j) ensures BoundTo(PutPairs(args, 1, st), args, j) {
      LastPairWins(args, 1, st, j);
    }
    forall k, t | Unnamed(args, 1, k) ensures Peek(PutPairs(args, 1, st), k, t) == Peek(st, k, t) {
      UnnamedKept(args, 1, st, k);
    }
  }

  // ---- several keys ---------------------------------------------------------------------

  /** The live values of the keys from argument `i` on, in order. */
  function Reads(args: seq<Value>, i: nat, st: Store, now: int): seq<Value>
    requires i <= |args|
  {
    seq(|args| - i, j requires 0 <= j < |args| - i => BulkOrNil(Peek(st, Commands.Text(args[i + j]), now)))
  }

  lemma {:induction false} ReadsNext(args: seq<Value>, i: nat, st: Store, s: Store, now: int)
    requires i < |args| && Equiv(s, st, now)
    ensures Reads(args, i, st, now)
         == [BulkOrNil(Peek(st, Commands.Text(args[i]), now))] + Reads(args, i + 1, s, now)
  {
    hide Canon, BulkOrNil, Commands.Text, Peek;
    forall j | i < j < |args| ensures Peek(s, Commands.Text(args[j]), now) == Peek(st, Commands.Text(args[j]), now) {
      FetchEquiv(s, st, Commands.Text(args[j]), now);
    }
  }

  lemma {:induction false} FetchAllIs(args: seq<Value>, i: nat, st: Store, now: int, sofar: seq<Value>)
    requires i <= |args|
    ensures var r := FetchAll(args, i, st, now, sofar);
            r.reply == Array(sofar + Reads(args, i, st, now)) && Equiv(r.store, st, now)
    decreases |args| - i
  {
    hide Canon, BulkOrNil, Commands.Text, Fetch, Peek;
    if i < |args| {
      var k := Commands.Text(args[i]);
      var (s, o) := Fetch(st, k, now);
      FetchCanon(st, k, now);
      ReadsNext(args, i, st, s, now);
      FetchAllIs(args, i + 1, s, now, sofar + [BulkOrNil(o)]);
      assert (sofar + [BulkOrNil(o)]) + Reads(args, i + 1, s, now) == sofar + Reads(args, i, st, now);
    } else {
      assert sofar + Reads(args, i, st, now) == sofar;
    }
  }

  /** `MGET` replies with the live value of each key, in order, nil where there is none, and changes nothing
      visible. */
  lemma {:induction false} MGetMeaning(args: seq<Value>, st: Store, env: Env)
    requires ArityOk(CMGet, |args|)
    ensures var r := Exec(CMGet, args, st, env);
            && Equiv(r.store, st, env.now) && r.reply.Array? && |r.reply.elements| == |args| - 1
            && forall j | 1 <= j < |args| ::
                 r.reply.elements[j - 1]
                 == match Shown(st, Commands.Text(args[j]), env.now) { case None => Nil case Some(s) => BulkString(s) }
  {
    hide FetchAll, Equiv, Peek, Commands.Text, BulkOrNil, Reads, Shown;
    FetchAllIs(args, 1, st, env.now, []);
    var found := Reads(args, 1, st, env.now);
    assert [] + found == found;
    ReadsAt(args, st, env.now);
    assert Exec(CMGet, args, st, env).reply == Array(found);
    forall j | 1 <= j < |args|
      ensures found[j - 1]
           == match Shown(st, Commands.Text(args[j]), env.now) { case None => Nil case Some(s) => BulkString(s) }
    {
      BulkShown(st, Commands.Text(args[j]), env.now);
    }
  }

  lemma {:induction false} BulkShown(st: Store, k: Key, now: int)
    ensures BulkOrNil(Peek(st, k, now))
         == match Shown(st, k, now) { case None => Nil case Some(s) => BulkString(s) }
  {
  }

  lemma {:induction false} ReadsAt(args: seq<Value>, st: Store, now: int)
    requires |args| >= 1
    ensures |Reads(args, 1, st, now)| == |args| - 1
    ensures forall j | 1 <= j < |args| ::
              Reads(args, 1, st, now)[j - 1] == BulkOrNil(Peek(st, Commands.Text(args[j]), now))
  {
    hide Peek, Commands.Text, BulkOrNil;
    forall j | 1 <= j < |args|
      ensures Reads(args, 1, st, now)[j - 1] == BulkOrNil(Peek(st, Commands.Text(args[j]), now))
    {
      assert args[1 + (j - 1)] == args[j];
    }
  }

  /** The arguments from `i` on that name a live key. */
  function LiveMentions(args: seq<Value>, i: nat, st: Store, now: int): set<nat> {
    set j: nat | i <= j < |args| && LiveKey(st, Commands.Text(args[j]), now)
  }

  lemma {:induction false} CountAllIs(args: seq<Value>, i: nat, st: Store, now: int, n: nat)
    requires i <= |args|
    ensures var (s, count) := CountAll(args, i, st, now, n);
            count == n + |LiveMentions(args, i, st, now)| && Equiv(s, st, now)
    decreases |args| - i
  {
    hide Canon, Commands.Text, Fetch, LiveKey;
    if i < |args| {
      var k := Commands.Text(args[i]);
      var (s, o) := Fetch(st, k, now);
      FetchCanon(st, k, now);
      assert Equiv(s, st, now);
      assert o.Some? <==> LiveKey(st, k, now) by { PeekIsLive(st, k, now); }
      CountAllIs(args, i + 1, s, now, if o.Some? then n + 1 else n);
      var rest := LiveMentions(args, i + 1, st, now);
      assert LiveMentions(args, i + 1, s, now) == rest by {
        forall j: nat | i < j < |args|
          ensures LiveKey(s, Commands.Text(args[j]), now) == LiveKey(st, Commands.Text(args[j]), now)
        {
          LiveSame(s, st, Commands.Text(args[j]), now);
        }
      }
      assert LiveMentions(args, i, st, now) == (if LiveKey(st, k, now) then {i} else {}) + rest;
    } else {
      assert LiveMentions(args, i, st, now) == {};
    }
  }

  lemma {:induction false} PeekIsLive(st: Store, k: Key, now: int)
    ensures Peek(st, k, now).Some? <==> LiveKey(st, k, now)
  {
  }

  lemma {:induction false} LiveSame(a: Store, b: Store, k: Key, now: int)
    requires Equiv(a, b, now)
    ensures LiveKey(a, k, now) == LiveKey(b, k, now)
  {
    hide Canon;
    FetchEquiv(a, b, k, now);
  }

  /** `EXISTS` counts the arguments that name a live key, repeated ones again, and changes nothing visible. */
  lemma {:induction false} ExistsMeaning(args: seq<Value>, st: Store, env: Env)
    requires ArityOk(CExists, |args|)
    ensures var r := Exec(CExists, args, st, env);
            var n := |LiveMentions(args, 1, st, env.now)|;
            r.reply == Count(n) && (n <= I64_MAX ==> r.reply == Integer(n)) && Equiv(r.store, st, env.now)
  {
    hide CountAll, Equiv, LiveMentions;
    CountAllIs(args, 1, st, env.now, 0);
  }

  /** The keys that the arguments from `i` on name. */
  function Named(args: seq<Value>, i: nat): set<Key> {
    set j: nat | i <= j < |args| :: Commands.Text(args[j])
  }

  /** The store without these keys. */
  function Without(st: Store, gone: set<Key>): Store {
    Store(st.vals - gone, st.dl - gone)
  }

  /** How many of these keys are stored. */
  function Stored(st: Store, gone: set<Key>): nat {
    |gone * st.vals.Keys|
  }

  lemma {:induction false} PurgedThenWithout(st: Store, k: Key, rest: set<Key>)
    ensures Without(Purge(st, k), rest) == Without(st, {k} + rest)
  {
    assert (st.vals - {k}) - rest == st.vals - ({k} + rest);
    assert (st.dl - {k}) - rest == st.dl - ({k} + rest);
  }

  lemma {:induction false} HitOrMiss(keys: set<Key>, k: Key, rest: set<Key>)
    ensures |({k} + rest) * keys| == (if k in keys then 1 else 0) + |rest * (keys - {k})|
  {
    var others := rest * (keys - {k});
    if k in keys {
      forall x ensures x in ({k} + rest) * keys <==> x in others + {k} {}
      assert ({k} + rest) * keys == others + {k};
    } else {
      forall x ensures x in ({k} + rest) * keys <==> x in others {}
      assert ({k} + rest) * keys == others;
    }
  }

  lemma {:induction false} PurgedThenStored(st: Store, k: Key, rest: set<Key>)
    ensures Stored(st, {k} + rest) == (if k in st.vals then 1 else 0) + Stored(Purge(st, k), rest)
  {
    HitOrMiss(st.vals.Keys, k, rest);
    assert (st.vals - {k}).Keys == st.vals.Keys - {k};
  }

  lemma {:induction false} NothingGone(st: Store)
    ensures Without(st, {}) == st && Stored(st, {}) == 0
  {
    assert st.vals - {} == st.vals && st.dl - {} == st.dl && {} * st.vals.Keys == {};
  }

  lemma {:induction false} DeleteAllIs(args: seq<Value>, i: nat, st: Store, n: nat)
    requires i <= |args|
    ensures DeleteAll(args, i, st, n) == (Without(st, Named(args, i)), n + Stored(st, Named(args, i)))
    decreases |args| - i
  {
    hide Commands.Text, Named, Without, Stored, Purge;
    if i < |args| {
      var k, rest := Commands.Text(args[i]), Named(args, i + 1);
      DeleteAllIs(args, i + 1, Purge(st, k), if k in st.vals then n + 1 else n);
      NamedNext(args, i);
      PurgedThenWithout(st, k, rest);
      PurgedThenStored(st, k, rest);
    } else {
      NoneNamed(args);
      NothingGone(st);
    }
  }

  lemma {:induction false} NamedNext(args: seq<Value>, i: nat)
    requires i < |args|
    ensures Named(args, i) == {Commands.Text(args[i])} + Named(args, i + 1)
  {
  }

  lemma {:induction false} NoneNamed(args: seq<Value>)
    ensures Named(args, |args|) == {}
  {
  }

  /** `DEL` removes exactly the named keys with their deadlines and counts the distinct stored ones among them. */
  lemma {:induction false} DelMeaning(args: seq<Value>, st: Store, env: Env)
    requires ArityOk(CDel, |args|)
    ensures var r, gone := Exec(CDel, args, st, env), Named(args, 1);
            var n := Stored(st, gone);
            r.store == Without(st, gone) && r.reply == Count(n) && (n <= I64_MAX ==> r.reply == Integer(n))
  {
    hide DeleteAll, Named, Without, Stored;
    DeleteAllIs(args, 1, st, 0);
  }

  // ---- deadlines and names --------------------------------------------------------------

  lemma {:induction false} FetchedEarlier(st: Store, key: Key, now: int, t: int)
    requires now <= t
    ensures Equiv(Fetch(st, key, now).0, st, t) && Fetch(st, key, now).1 == Peek(st, key, now)
    ensures Shown(st, key, now).Some? ==> Fetch(st, key, now) == (st, Some(st.vals[key]))
  {
    hide Canon;
    FetchCanon(st, key, now);
    assert Equiv(Fetch(st, key, now).0, st, now);
    EquivLater(Fetch(st, key, now).0, st, now, t);
  }

  /** `EXPIRE`, `PEXPIRE` and `EXPIREAT`: a key that is shown keeps its value exactly until `n` seconds or
      milliseconds from now, or until second `n` of the clock. */
  lemma {:induction false} ExpireMeaning(c: Command, args: seq<Value>, st: Store, env: Env, t: int)
    requires |args| == 3 && (c == CExpire || c == CPExpire || c == CExpireAt) && env.now <= t
    ensures var key, n, r := Commands.Text(args[1]), FromChars(Commands.Text(args[2])), Exec(c, args, st, env);
            if !n.Parsed? then r == Result(st, Error(Ascii("value is not an integer or out of range")))
            else if Shown(st, key, env.now).None? then r.reply == Integer(0) && Equiv(r.store, st, t)
            else
              && r.reply == Integer(1) && OthersKept(st, r.store, key, t)
              && Peek(r.store, key, t)
                 == (if t < (if c == CExpireAt then 0 else env.now) + (if c == CPExpire then 1 else 1000) * n.value
                     then Some(st.vals[key]) else None)
  {
    hide Commands.Text, FromChars, Equiv, Ascii;
    var key := Commands.Text(args[1]);
    FetchedEarlier(st, key, env.now, t);
    ShownIsPeek(st, key, env.now);
  }

  /** `PERSIST`: a key that is shown stays for good. */
  lemma {:induction false} PersistMeaning(args: seq<Value>, st: Store, env: Env, t: int)
    requires |args| == 2 && env.now <= t
    ensures var key, r := Commands.Text(args[1]), Exec(CPersist, args, st, env);
            if Shown(st, key, env.now).None? then r.reply == Integer(0) && Equiv(r.store, st, t)
            else r.reply == Integer(1) && OthersKept(st, r.store, key, t) && Peek(r.store, key, t) == Some(st.vals[key])
  {
    hide Commands.Text, Equiv;
    FetchedEarlier(st, Commands.Text(args[1]), env.now, t);
    ShownIsPeek(st, Commands.Text(args[1]), env.now);
  }

  /** `RENAME`: the very same object under the new name, for good; the old name is gone. */
  lemma {:induction false} RenameMeaning(args: seq<Value>, st: Store, env: Env, t: int)
    requires |args| == 3 && Sane(st) && env.now <= t
    ensures var key, newKey, r := Commands.Text(args[1]), Commands.Text(args[2]), Exec(CRename, args, st, env);
            if Shown(st, key, env.now).None? then r.reply == Error(Ascii("no such key")) && Equiv(r.store, st, t)
            else
              && r.reply == SimpleString([79, 75]) && Peek(r.store, newKey, t) == Some(st.vals[key])
              && (key != newKey ==> key !in r.store.vals)
              && forall x | x != key && x != newKey :: Peek(r.store, x, t) == Peek(st, x, t)
  {
    hide Commands.Text, Equiv, Ascii;
    OkIs();
    FetchedEarlier(st, Commands.Text(args[1]), env.now, t);
    ShownIsPeek(st, Commands.Text(args[1]), env.now);
  }

  // ---- KEYS -----------------------------------------------------------------------------

  lemma {:induction false} MatchingMember(order: seq<Key>, p: bytes, st: Store, now: int, v: Value)
    ensures v in Matching(order, p, st, now) <==>
            v.BulkString? && v.str in order && LiveKey(st, v.str, now) && Glob.Matches(p, v.str)
  {
    if order != [] {
      MatchingMember(order[1..], p, st, now, v);
      assert order == [order[0]] + order[1..];
    }
  }

  ghost predicate Distinct(vs: seq<Value>) {
    forall i, j | 0 <= i < j < |vs| :: vs[i] != vs[j]
  }

  lemma {:induction false} MatchingDistinct(order: seq<Key>, p: bytes, st: Store, now: int)
    requires forall i, j | 0 <= i < j < |order| :: order[i] != order[j]
    ensures Distinct(Matching(order, p, st, now))
  {
    if order != [] {
      var rest := Matching(order[1..], p, st, now);
      MatchingDistinct(order[1..], p, st, now);
      MatchingMember(order[1..], p, st, now, BulkString(order[0]));
      assert forall i | 0 <= i < |order| - 1 :: order[1..][i] == order[i + 1] != order[0];
      assert BulkString(order[0]) !in rest;
    }
  }

  /** `KEYS p` lists every live key that can be cut into pieces fitting `p` exactly once, and nothing else. */
  lemma {:induction false} KeysIsExact(args: seq<Value>, st: Store, env: Env)
    requires |args| == 2 && Enumerates(env.order, st.vals.Keys)
    ensures var r := Exec(CKeys, args, st, env).reply;
            && r.Array?
            && Distinct(r.elements)
            && forall k :: BulkString(k) in r.elements <==>
                 LiveKey(st, k, env.now)
                 && exists parts :: Glob.Fits(Commands.Text(args[1]), parts) && Glob.Join(parts) == k
  {
    hide Matching, Glob.Matches, Glob.Fits, Glob.Join, Commands.Text, LiveKey, Distinct;
    var p := Commands.Text(args[1]);
    var r := Matching(env.order, p, st, env.now);
    assert Exec(CKeys, args, st, env).reply == Array(r);
    MatchingDistinct(env.order, p, st, env.now);
    forall k ensures BulkString(k) in r <==>
                       LiveKey(st, k, env.now) && exists parts :: Glob.Fits(p, parts) && Glob.Join(parts) == k
    {
      KeyListed(env.order, p, st, env.now, k);
      Glob.MatchesIsFits(p, k);
    }
  }

  lemma {:induction false} KeyListed(order: seq<Key>, p: bytes, st: Store, now: int, k: Key)
    requires Enumerates(order, st.vals.Keys)
    ensures BulkString(k) in Matching(order, p, st, now) <==> LiveKey(st, k, now) && Glob.Matches(p, k)
  {
    hide Matching, Glob.Matches;
    MatchingMember(order, p, st, now, BulkString(k));
  }

  // ---- counters -------------------------------------------------------------------------

  /** The integer that is shown for a key: 0 where nothing is shown, none where the text is no integer. */
  function Counted(st: Store, k: Key, now: int): Option<i64> {
    match Shown(st, k, now)
    case None => Some(0)
    case Some(s) => if |s| <= 20 && IsInt(s) then Some(FromChars(s).value) else None
  }

  lemma {:induction false} CountedIs(st: Store, k: Key, now: int)
    ensures IntegerOf(Peek(st, k, now)) == Counted(st, k, now)
  {
    hide FromChars, ToChars;
    ShownIsPeek(st, k, now);
    if LiveKey(st, k, now) && st.vals[k].IntEncoded? {
      var v := st.vals[k].value;
      PrintThenParse(v, []);
      PrintedLength(v);
      assert ToChars(v) + [] == ToChars(v);
    }
  }

  /** What a counter command adds to the key; `DECRBY` is apart. */
  function Step(c: Command, args: seq<Value>): Option<int>
    requires c == CIncr || c == CDecr || (c == CIncrBy && |args| == 3)
  {
    if c == CIncr then Some(1)
    else if c == CDecr then Some(-1)
    else
      var n := FromChars(Commands.Text(args[2]));
      if n.Parsed? then Some(n.value) else None
  }

  /** `INCR`, `DECR` and `INCRBY` bind the key to the exact sum for good, or refuse without a visible change: where
      an operand is no integer, and exactly where the sum leaves the 64-bit range. */
  lemma {:induction false} AddIsGuarded(c: Command, args: seq<Value>, st: Store, env: Env, t: int)
    requires (c == CIncr || c == CDecr || c == CIncrBy) && ArityOk(c, |args|) && env.now <= t
    ensures var key, r := Commands.Text(args[1]), Exec(c, args, st, env);
            var n, d := Counted(st, key, env.now), Step(c, args);
            if n.None? || d.None?
            then r.reply == Error(Ascii("value is not an integer or out of range")) && Equiv(r.store, st, t)
            else if I64_MIN <= n.value + d.value <= I64_MAX
            then r.reply == Integer(n.value + d.value) && Peek(r.store, key, t) == Some(IntEncoded(n.value + d.value))
                 && OthersKept(st, r.store, key, t)
            else r.reply == Error(Ascii("increment or decrement would overflow")) && Equiv(r.store, st, t)
  {
    hide Commands.Text, FromChars, Counted, IntegerOf, Peek, OthersKept, Equiv, Ascii, Fetch, Put;
    var key := Commands.Text(args[1]);
    var n, d := Counted(st, key, env.now), Step(c, args);
    CountedIs(st, key, env.now);
    Overwritten(st, key, IntEncoded(0), env.now, t);
    SameStore(st, t);
    if n.Some? && d.Some? && I64_MIN <= n.value + d.value <= I64_MAX {
      Overwritten(st, key, IntEncoded(n.value + d.value), env.now, t);
    }
    if d.Some? { assert Exec(c, args, st, env) == AddTo(key, d.value, st, env.now); }
  }

  lemma {:induction false} SameStore(st: Store, t: int)
    ensures Equiv(st, st, t)
  {
  }

  /** `DECRBY` gives the difference exactly when it is a 64-bit integer. Outside that range it does not
      refuse as the other counter commands do: it stores and reports a number that is off by 2^64. */
  lemma {:induction false} SubtractIsUnguarded(args: seq<Value>, st: Store, env: Env, t: int)
    requires |args| == 3 && env.now <= t
    ensures var key, d, r := Commands.Text(args[1]), FromChars(Commands.Text(args[2])), Exec(CDecrBy, args, st, env);
            var n := Counted(st, key, env.now);
            if n.None? || !d.Parsed?
            then r.reply == Error(Ascii("value is not an integer or out of range")) && Equiv(r.store, st, t)
            else
              var exact := n.value - d.value;
              && r.reply.Integer? && Peek(r.store, key, t) == Some(IntEncoded(r.reply.n))
              && OthersKept(st, r.store, key, t)
              && (r.reply.n == exact <==> I64_MIN <= exact <= I64_MAX)
              && (exact > I64_MAX ==> r.reply.n == exact - TWO_64)
              && (exact < I64_MIN ==> r.reply.n == exact + TWO_64)
  {
    hide Commands.Text, FromChars, Counted, IntegerOf, Peek, OthersKept, Equiv, Ascii, Fetch, Put;
    var key, d := Commands.Text(args[1]), FromChars(Commands.Text(args[2]));
    var n, r := Counted(st, key, env.now), Exec(CDecrBy, args, st, env);
    CountedIs(st, key, env.now);
    Overwritten(st, key, IntEncoded(0), env.now, t);
    SameStore(st, t);
    if n.Some? && d.Parsed? {
      assert r == SubtractFrom(key, d.value, st, env.now);
      Overwritten(st, key, IntEncoded(r.reply.n), env.now, t);
    }
  }

  /** The smallest integer minus one is reported as the largest, and refused by `DECR`. */
  lemma {:induction false} SubtractWraps(key: Key, env: Env)
    ensures var st := Store(map[key := IntEncoded(I64_MIN)], map[]);
            && Exec(CDecrBy, [Nil, BulkString(key), BulkString([49])], st, env).reply == Integer(I64_MAX)
            && Exec(CDecr, [Nil, BulkString(key)], st, env).reply
               == Error(Ascii("increment or decrement would overflow"))
  {
    hide Ascii, ToChars;
    var args := [Nil, BulkString(key), BulkString([49])];
    OneParsed();
    assert Number(args[2]) == Some(1);
  }

  lemma {:induction false} OneParsed()
    ensures FromChars([49]) == Parsed(1, 1)
  {
    assert ToChars(1) == [49];
    PrintThenParse(1, []);
    assert [49] + [] == [49];
  }
}
