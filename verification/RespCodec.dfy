/** The RESP2 encoder and the exact condition under which the parser reads back what it wrote. */
module RespCodec {
  import opened Common
  import opened Decimal
  import opened Resp

  const CRLF: bytes := [13, 10]
  const ERR_PREFIX: bytes := [69, 82, 82, 32]  // "ERR "

  /** `static_cast<i64>`: two's complement. */
  function Cast(n: int): i64 {
    var m := n % TWO_64;
    if m <= I64_MAX then m else m - TWO_64
  }

  /** `write_integer_line`. */
  function IntegerLine(n: i64): bytes {
    ToChars(n) + CRLF
  }

  function EncodeBulk(s: bytes): bytes {
    [DOLLAR] + IntegerLine(Cast(|s|)) + (s + CRLF)
  }

  function ArrayHeader(count: i64): bytes {
    [ASTERISK] + IntegerLine(count)
  }

  /** `encode`; errors always get the prefix `ERR `. */
  function Encode(v: Value): (r: bytes)
    ensures r != []
    decreases v
  {
    match v
    case SimpleString(s) => [PLUS] + s + CRLF
    case Error(s) => [DASH] + (ERR_PREFIX + s) + CRLF
    case Integer(n) => [COLON] + IntegerLine(n)
    case BulkString(s) => EncodeBulk(s)
    case Nil => [DOLLAR] + IntegerLine(-1)
    case Array(vs) => ArrayHeader(Cast(|vs|)) + EncodeAll(vs)
  }

  function EncodeAll(vs: seq<Value>): bytes
    decreases vs
  {
    if vs == [] then [] else Encode(vs[0]) + EncodeAll(vs[1..])
  }

  /** What a value turns into on the wire: error texts get their prefix. */
  function Sent(v: Value): Value
    decreases v
  {
    match v
    case Error(s) => Error(ERR_PREFIX + s)
    case Array(vs) => Array(SentAll(vs))
    case _ => v
  }

  function SentAll(vs: seq<Value>): (r: seq<Value>)
    ensures |r| == |vs|
    decreases vs
  {
    if vs == [] then [] else [Sent(vs[0])] + SentAll(vs[1..])
  }

  predicate HasCrlf(s: bytes) {
    exists i | 0 <= i < |s| - 1 :: s[i] == CR && s[i + 1] == LF
  }

  /** No line-based string anywhere inside contains a line end. */
  predicate Clean(v: Value)
    decreases v
  {
    match v
    case SimpleString(s) => !HasCrlf(s)
    case Error(s) => !HasCrlf(s)
    case Array(vs) => CleanAll(vs)
    case _ => true
  }

  predicate CleanAll(vs: seq<Value>)
    decreases vs
  {
    vs != [] ==> Clean(vs[0]) && CleanAll(vs[1..])
  }

  /** Sizes that exist in memory: below 2^63. */
  predicate Sized(v: Value)
    decreases v
  {
    match v
    case BulkString(s) => |s| <= I64_MAX
    case Array(vs) => |vs| <= I64_MAX && SizedAll(vs)
    case _ => true
  }

  predicate SizedAll(vs: seq<Value>)
    decreases vs
  {
    vs != [] ==> Sized(vs[0]) && SizedAll(vs[1..])
  }

  lemma {:induction false} CastSmall(n: nat)
    requires n <= I64_MAX
    ensures Cast(n) == n
  {
  }

  // ---- reading back one line ------------------------------------------------------------

  /** A line without a line end inside is found whole. */
  lemma {:induction false} LineFound(s: bytes, at: nat, line: bytes)
    requires Holds(s, at, line + CRLF) && !HasCrlf(line)
    ensures FindCrlf(s, at) == Some(at + |line|) && s[at..at + |line|] == line
  {
    HoldsSplit(s, at, line, CRLF);
    HoldsAt(s, at + |line|, CRLF, 0);
    HoldsAt(s, at + |line|, CRLF, 1);
    forall j | at <= j < at + |line| ensures !(s[j] == CR && s[j + 1] == LF) {
      HoldsAt(s, at, line, j - at);
      if j + 1 < at + |line| { HoldsAt(s, at, line, j + 1 - at); }
    }
    FindCrlfIs(s, at, at + |line|);
  }

  /** A line with a line end inside is cut short. */
  lemma {:induction false} LineCut(s: bytes, at: nat, line: bytes)
    requires Holds(s, at, line + CRLF) && HasCrlf(line)
    ensures FindCrlf(s, at).Some? && FindCrlf(s, at).value < at + |line|
  {
    HoldsSplit(s, at, line, CRLF);
    var i :| 0 <= i < |line| - 1 && line[i] == CR && line[i + 1] == LF;
    HoldsAt(s, at, line, i);
    HoldsAt(s, at, line, i + 1);
    FindCrlfOk(s, at);
  }

  lemma {:induction false} DigitsHaveNoCrlf(v: i64)
    ensures !HasCrlf(ToChars(v))
  {
    var d := Digits(Abs(v));
    DigitsOk(Abs(v));
    forall i | 0 <= i < |ToChars(v)| ensures ToChars(v)[i] != CR {
      if v < 0 {
        if i > 0 { assert IsDigit(d[i - 1]); }
      } else {
        assert IsDigit(d[i]);
      }
    }
  }

  lemma {:induction false} IntegerLineFound(s: bytes, at: nat, n: i64)
    requires Holds(s, at, IntegerLine(n))
    ensures FindCrlf(s, at) == Some(at + |ToChars(n)|)
    ensures FromChars(s[at..at + |ToChars(n)|]) == Parsed(n, |ToChars(n)|)
    ensures |IntegerLine(n)| == |ToChars(n)| + 2
  {
    DigitsHaveNoCrlf(n);
    LineFound(s, at, ToChars(n));
    PrintThenParse(n, []);
    assert ToChars(n) + [] == ToChars(n);
  }

  lemma {:induction false} TypeByte(s: bytes, pos: nat, prefix: byte, rest: bytes)
    requires Holds(s, pos, [prefix] + rest)
    ensures pos < |s| && s[pos] == prefix && Holds(s, pos + 1, rest)
  {
    HoldsSplit(s, pos, [prefix], rest);
    HoldsAt(s, pos, [prefix], 0);
  }

  /** A type byte and a number: position of the line end and the number itself. */
  lemma {:induction false} PrefixedLine(s: bytes, pos: nat, prefix: byte, n: i64)
    requires Holds(s, pos, [prefix] + IntegerLine(n))
    ensures pos < |s| && s[pos] == prefix
    ensures FindCrlf(s, pos + 1) == Some(pos + 1 + |ToChars(n)|)
    ensures FromChars(s[pos + 1..pos + 1 + |ToChars(n)|]) == Parsed(n, |ToChars(n)|)
    ensures |IntegerLine(n)| == |ToChars(n)| + 2
  {
    hide FromChars, FindCrlf, HasCrlf, ToChars;
    TypeByte(s, pos, prefix, IntegerLine(n));
    IntegerLineFound(s, pos + 1, n);
  }

  // ---- reading back values --------------------------------------------------------------

  lemma {:induction false} PayloadFound(s: bytes, at: nat, str: bytes)
    requires Holds(s, at, str + CRLF)
    ensures ParsePayload(s, at, |str|) == Complete(BulkString(str), at + |str| + 2)
  {
    HoldsSplit(s, at, str, CRLF);
    HoldsAt(s, at + |str|, CRLF, 0);
    HoldsAt(s, at + |str|, CRLF, 1);
  }

  lemma {:induction false} LengthFound(s: bytes, pos: nat, n: nat)
    requires n <= I64_MAX && Holds(s, pos, [DOLLAR] + IntegerLine(n))
    ensures ParseValue(s, pos) == ParsePayload(s, pos + |[DOLLAR] + IntegerLine(n)|, n)
  {
    hide FromChars, FindCrlf, HasCrlf;
    PrefixedLine(s, pos, DOLLAR, n);
  }

  lemma {:induction false} BulkFound(s: bytes, pos: nat, str: bytes)
    requires Holds(s, pos, EncodeBulk(str)) && |str| <= I64_MAX
    ensures ParseValue(s, pos) == Complete(BulkString(str), pos + |EncodeBulk(str)|)
  {
    hide FromChars, FindCrlf, ToChars, HasCrlf, ParseValue;
    CastSmall(|str|);
    HoldsSplit(s, pos, [DOLLAR] + IntegerLine(|str|), str + CRLF);
    LengthFound(s, pos, |str|);
    PayloadFound(s, pos + |[DOLLAR] + IntegerLine(|str|)|, str);
  }

  lemma {:induction false} SimpleFound(s: bytes, pos: nat, prefix: byte, line: bytes)
    requires prefix == PLUS || prefix == DASH
    requires Holds(s, pos, [prefix] + line + CRLF)
    ensures var want := if prefix == PLUS then SimpleString(line) else Error(line);
            if HasCrlf(line) then ParseValue(s, pos).Complete? && ParseValue(s, pos).value != want
            else ParseValue(s, pos) == Complete(want, pos + |[prefix] + line + CRLF|)
  {
    assert [prefix] + line + CRLF == [prefix] + (line + CRLF);
    TypeByte(s, pos, prefix, line + CRLF);
    if HasCrlf(line) {
      LineCut(s, pos + 1, line);
      assert |s[pos + 1..FindCrlf(s, pos + 1).value]| < |line|;
    } else {
      LineFound(s, pos + 1, line);
    }
  }

  lemma {:induction false} IntegerFound(s: bytes, pos: nat, n: i64)
    requires Holds(s, pos, [COLON] + IntegerLine(n))
    ensures ParseValue(s, pos) == Complete(Integer(n), pos + |[COLON] + IntegerLine(n)|)
  {
    hide FromChars, FindCrlf, HasCrlf;
    PrefixedLine(s, pos, COLON, n);
  }

  lemma {:induction false} NilFound(s: bytes, pos: nat)
    requires Holds(s, pos, Encode(Nil))
    ensures ParseValue(s, pos) == Complete(Nil, pos + |Encode(Nil)|)
  {
    hide FromChars, FindCrlf, HasCrlf;
    PrefixedLine(s, pos, DOLLAR, -1);
  }

  lemma {:induction false} HeaderFound(s: bytes, pos: nat, count: nat)
    requires count <= I64_MAX && Holds(s, pos, ArrayHeader(count))
    ensures ParseValue(s, pos) == ParseElements(s, pos + |ArrayHeader(count)|, count, [])
  {
    hide FromChars, FindCrlf, HasCrlf;
    PrefixedLine(s, pos, ASTERISK, count);
  }

  lemma {:induction false} PrefixKeepsLines(s: bytes)
    ensures HasCrlf(ERR_PREFIX + s) <==> HasCrlf(s)
  {
    if HasCrlf(s) {
      var i :| 0 <= i < |s| - 1 && s[i] == CR && s[i + 1] == LF;
      assert (ERR_PREFIX + s)[i + 4] == CR && (ERR_PREFIX + s)[i + 5] == LF;
    }
    if HasCrlf(ERR_PREFIX + s) {
      var i :| 0 <= i < |s| + 3 && (ERR_PREFIX + s)[i] == CR && (ERR_PREFIX + s)[i + 1] == LF;
      assert s[i - 4] == CR && s[i - 3] == LF;
    }
  }

  /** A clean value is read back as sent, consuming exactly its encoding; an unclean one is not. */
  lemma {:induction false} ValueFound(s: bytes, pos: nat, v: Value)
    requires Holds(s, pos, Encode(v)) && Sized(v)
    ensures Clean(v) ==> ParseValue(s, pos) == Complete(Sent(v), pos + |Encode(v)|)
    ensures !Clean(v) ==> !(ParseValue(s, pos).Complete? && ParseValue(s, pos).value == Sent(v))
    decreases v, 1
  {
    match v
    case SimpleString(str) => SimpleFound(s, pos, PLUS, str);
    case Error(str) => PrefixKeepsLines(str); SimpleFound(s, pos, DASH, ERR_PREFIX + str);
    case Integer(n) => IntegerFound(s, pos, n);
    case BulkString(str) => BulkFound(s, pos, str);
    case Nil => NilFound(s, pos);
    case Array(vs) => ArrayFound(s, pos, vs);
  }

  lemma {:induction false} ArrayFound(s: bytes, pos: nat, vs: seq<Value>)
    requires Holds(s, pos, Encode(Array(vs))) && |vs| <= I64_MAX && SizedAll(vs)
    ensures CleanAll(vs) ==> ParseValue(s, pos) == Complete(Array(SentAll(vs)), pos + |Encode(Array(vs))|)
    ensures !CleanAll(vs) ==> !(ParseValue(s, pos).Complete? && ParseValue(s, pos).value == Array(SentAll(vs)))
    decreases vs, 1
  {
    hide FromChars, FindCrlf, Encode, ToChars, ParseValue;
    var at := pos + |ArrayHeader(|vs|)|;
    ArraySplit(s, pos, vs);
    if CleanAll(vs) { CleanElements(s, at, vs, []); } else { UncleanElements(s, at, vs, []); }
    NothingBefore(SentAll(vs));
  }

  lemma {:induction false} NothingBefore(vs: seq<Value>)
    ensures [] + vs == vs
  {
  }

  lemma {:induction false} ArraySplit(s: bytes, pos: nat, vs: seq<Value>)
    requires Holds(s, pos, Encode(Array(vs))) && |vs| <= I64_MAX
    ensures var at := pos + |ArrayHeader(|vs|)|;
            Holds(s, at, EncodeAll(vs)) && ParseValue(s, pos) == ParseElements(s, at, |vs|, [])
            && at + |EncodeAll(vs)| == pos + |Encode(Array(vs))|
  {
    hide FromChars, FindCrlf, ToChars, HasCrlf, ParseValue, ParseElements;
    CastSmall(|vs|);
    HoldsSplit(s, pos, ArrayHeader(|vs|), EncodeAll(vs));
    HeaderFound(s, pos, |vs|);
  }

  lemma {:induction false} Snoc(a: seq<Value>, x: Value, b: seq<Value>)
    ensures (a + [x]) + b == a + ([x] + b)
  {
  }

  lemma {:induction false} ElementStep(s: bytes, pos: nat, count: nat, sofar: seq<Value>)
    requires pos <= |s| && count > 0 && ParseValue(s, pos).Complete?
    ensures var e := ParseValue(s, pos);
            ParseElements(s, pos, count, sofar) == ParseElements(s, e.pos, count - 1, sofar + [e.value])
  {
  }

  lemma {:induction false} CleanElements(s: bytes, pos: nat, vs: seq<Value>, sofar: seq<Value>)
    requires Holds(s, pos, EncodeAll(vs)) && SizedAll(vs) && CleanAll(vs)
    ensures ParseElements(s, pos, |vs|, sofar) == Complete(Array(sofar + SentAll(vs)), pos + |EncodeAll(vs)|)
    decreases vs, 0
  {
    hide FromChars, FindCrlf, ToChars, HasCrlf, ParseValue;
    if vs == [] {
      assert sofar + SentAll(vs) == sofar;
    } else {
      HoldsSplit(s, pos, Encode(vs[0]), EncodeAll(vs[1..]));
      ValueFound(s, pos, vs[0]);
      ElementStep(s, pos, |vs|, sofar);
      CleanElements(s, pos + |Encode(vs[0])|, vs[1..], sofar + [Sent(vs[0])]);
      Snoc(sofar, Sent(vs[0]), SentAll(vs[1..]));
    }
  }

  lemma {:induction false} UncleanElements(s: bytes, pos: nat, vs: seq<Value>, sofar: seq<Value>)
    requires Holds(s, pos, EncodeAll(vs)) && SizedAll(vs) && !CleanAll(vs)
    ensures var r := ParseElements(s, pos, |vs|, sofar);
            !(r.Complete? && r.value == Array(sofar + SentAll(vs)))
    decreases vs, 0
  {
    hide FromChars, FindCrlf, ToChars, HasCrlf, ParseValue;
    var rest := vs[1..];
    HoldsSplit(s, pos, Encode(vs[0]), EncodeAll(rest));
    ValueFound(s, pos, vs[0]);
    Snoc(sofar, Sent(vs[0]), SentAll(rest));
    if Clean(vs[0]) {
      UncleanElements(s, pos + |Encode(vs[0])|, rest, sofar + [Sent(vs[0])]);
    } else {
      var e := ParseValue(s, pos);
      if e.Complete? {
        ElementsKept(s, e.pos, |rest|, sofar + [e.value]);
        assert (sofar + SentAll(vs))[|sofar|] == Sent(vs[0]);
      }
    }
  }

  /** The element loop keeps what it has collected. */
  lemma {:induction false} ElementsKept(s: bytes, pos: nat, count: nat, sofar: seq<Value>)
    requires pos <= |s|
    ensures var r := ParseElements(s, pos, count, sofar);
            r.Complete? ==> r.value.Array? && sofar <= r.value.elements
    decreases |s| - pos, 2
  {
    if count > 0 {
      var e := ParseValue(s, pos);
      if e.Complete? { ElementsKept(s, e.pos, count - 1, sofar + [e.value]); }
    }
  }

  /** Encoding, then parsing, whatever follows: exact if and only if no line-based string inside
      contains a line end. */
  lemma {:induction false} RoundTrip(v: Value, rest: bytes)
    requires Sized(v)
    ensures Parse(Encode(v) + rest) == Complete(Sent(v), |Encode(v)|) <==> Clean(v)
  {
    var s := Encode(v) + rest;
    assert s[0..|Encode(v)|] == Encode(v);
    ValueFound(s, 0, v);
  }

  /** The simple string `a` CR LF `b` is read as `a`, and `b` becomes the head of the next message. */
  lemma {:induction false} LineBroken()
    ensures var s := Encode(SimpleString([97, 13, 10, 98]));
            Parse(s) == Complete(SimpleString([97]), 4) && s[4..] == [98, 13, 10]
  {
    var s := Encode(SimpleString([97, 13, 10, 98]));
    assert s == [43, 97, 13, 10, 98, 13, 10];
    FindCrlfIs(s, 1, 2);
    assert s[1..2] == [97];
  }
}
