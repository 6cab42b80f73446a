/**
 The RESP2 parser as a function of the received bytes. `CompleteIsLocal` and `ErrorIsStable` make
 re-parsing a growing buffer safe, `PrefixIsIncomplete` says that no message is accepted early.
 */
module Resp {
  import opened Common
  import opened Decimal

  const CR: byte := 13
  const LF: byte := 10
  const PLUS: byte := 43
  const DASH: byte := 45
  const COLON: byte := 58
  const DOLLAR: byte := 36
  const ASTERISK: byte := 42

  datatype Value =
    | SimpleString(str: bytes)
    | Error(str: bytes)
    | Integer(n: i64)
    | BulkString(str: bytes)
    | Array(elements: seq<Value>)
    | Nil

  /** The result of a parsing attempt; `pos` is the position behind the value. */
  datatype Outcome = Complete(value: Value, pos: nat) | Incomplete | Malformed

  // ---- parser ---------------------------------------------------------------------------

  /** Position of the first CRLF at or after `i`. */
  function FindCrlf(s: bytes, i: nat): (r: Option<nat>)
    ensures r.Some? ==> i <= r.value && r.value + 1 < |s|
    decreases |s| - i
  {
    if i + 1 >= |s| then None
    else if s[i] == CR && s[i + 1] == LF then Some(i)
    else FindCrlf(s, i + 1)
  }

  /** `+`, `-` and `:` lines; `from_chars` ignores what follows the digits. */
  function ParseSimple(s: bytes, pos: nat): (r: Outcome)
    requires pos < |s|
    ensures r.Complete? ==> pos < r.pos <= |s|
  {
    match FindCrlf(s, pos + 1)
    case None => Incomplete
    case Some(i) =>
      var line := s[pos + 1..i];
      if s[pos] == PLUS then Complete(SimpleString(line), i + 2)
      else if s[pos] == DASH then Complete(Error(line), i + 2)
      else if s[pos] == COLON then
        match FromChars(line)
        case Parsed(v, _) => Complete(Integer(v), i + 2)
        case _ => Malformed
      else Malformed
  }

  /** The payload of a bulk string, starting at `at`. */
  function ParsePayload(s: bytes, at: nat, len: nat): (r: Outcome)
    requires at <= |s|
    ensures r.Complete? ==> at < r.pos <= |s|
  {
    var end := at + len + 2;
    if end > |s| then Incomplete
    else if s[end - 2] != CR || s[end - 1] != LF then Malformed
    else Complete(BulkString(s[at..end - 2]), end)
  }

  function ParseBulk(s: bytes, pos: nat): (r: Outcome)
    requires pos < |s|
    ensures r.Complete? ==> pos < r.pos <= |s|
  {
    match FindCrlf(s, pos + 1)
    case None => Incomplete
    case Some(i) =>
      match FromChars(s[pos + 1..i])
      case Parsed(len, _) =>
        if len == -1 then Complete(Nil, i + 2)
        else if len < 0 then Malformed
        else ParsePayload(s, i + 2, len)
      case _ => Malformed
  }

  /** The element loop of `parse_array`, with the elements collected so far. */
  function ParseElements(s: bytes, pos: nat, count: nat, sofar: seq<Value>): (r: Outcome)
    requires pos <= |s|
    ensures r.Complete? ==> pos <= r.pos <= |s|
    decreases |s| - pos, 2
  {
    if count == 0 then Complete(Array(sofar), pos)
    else
      match ParseValue(s, pos)
      case Complete(v, p) => ParseElements(s, p, count - 1, sofar + [v])
      case failed => failed
  }

  function ParseArray(s: bytes, pos: nat): (r: Outcome)
    requires pos < |s|
    ensures r.Complete? ==> pos < r.pos <= |s|
    decreases |s| - pos, 0
  {
    match FindCrlf(s, pos + 1)
    case None => Incomplete
    case Some(i) =>
      match FromChars(s[pos + 1..i])
      case Parsed(count, _) =>
        if count == -1 then Complete(Nil, i + 2)
        else if count < 0 then Malformed
        else ParseElements(s, i + 2, count, [])
      case _ => Malformed
  }

  /** `parse_value`: every value takes at least one byte. */
  function ParseValue(s: bytes, pos: nat): (r: Outcome)
    requires pos <= |s|
    ensures r.Complete? ==> pos < r.pos <= |s|
    decreases |s| - pos, 1
  {
    if pos >= |s| then Incomplete
    else if s[pos] == PLUS || s[pos] == DASH || s[pos] == COLON then ParseSimple(s, pos)
    else if s[pos] == DOLLAR then ParseBulk(s, pos)
    else if s[pos] == ASTERISK then ParseArray(s, pos)
    else Malformed
  }

  function Parse(s: bytes): Outcome {
    ParseValue(s, 0)
  }

  // ---- the parser on growing input ------------------------------------------------------

  /** No line end begins at `from`, ..., `to - 1`. */
  ghost predicate NoLineEnd(s: bytes, from: nat, to: nat) {
    forall j | from <= j < to && j + 1 < |s| :: !(s[j] == CR && s[j + 1] == LF)
  }

  lemma {:induction false} FindCrlfIs(s: bytes, i: nat, r: nat)
    requires i <= r && r + 1 < |s| && s[r] == CR && s[r + 1] == LF && NoLineEnd(s, i, r)
    ensures FindCrlf(s, i) == Some(r)
    decreases r - i
  {
    if i < r { FindCrlfIs(s, i + 1, r); }
  }

  lemma {:induction false} FindCrlfOk(s: bytes, i: nat)
    ensures match FindCrlf(s, i)
            case Some(r) => s[r] == CR && s[r + 1] == LF && NoLineEnd(s, i, r)
            case None => NoLineEnd(s, i, |s|)
    decreases |s| - i
  {
    if i + 1 < |s| && !(s[i] == CR && s[i + 1] == LF) { FindCrlfOk(s, i + 1); }
  }

  /** The first line end depends only on the bytes up to it. */
  lemma {:induction false} FindCrlfLocal(a: bytes, b: bytes, i: nat, n: nat)
    requires n <= |a| && n <= |b| && a[..n] == b[..n]
    requires FindCrlf(a, i).Some? && FindCrlf(a, i).value + 2 <= n
    ensures FindCrlf(b, i) == FindCrlf(a, i)
    ensures i <= FindCrlf(a, i).value ==> a[i..FindCrlf(a, i).value] == b[i..FindCrlf(a, i).value]
  {
    var r := FindCrlf(a, i).value;
    FindCrlfOk(a, i);
    assert forall j | 0 <= j < n :: a[j] == a[..n][j] && b[j] == b[..n][j];
    FindCrlfIs(b, i, r);
  }

  lemma {:induction false} LocalValue(a: bytes, b: bytes, pos: nat, n: nat)
    requires n <= |a| && n <= |b| && a[..n] == b[..n] && pos <= n
    requires ParseValue(a, pos).Complete? && ParseValue(a, pos).pos <= n
    ensures ParseValue(b, pos) == ParseValue(a, pos)
    decreases |a| - pos, 1
  {
    assert pos < n;
    assert a[pos] == a[..n][pos] == b[..n][pos] == b[pos];
    if a[pos] == ASTERISK {
      var i := FindCrlf(a, pos + 1).value;
      LocalArrayLine(a, b, pos, n);
      var line := FromChars(a[pos + 1..i]);
      if line.value != -1 { LocalElements(a, b, i + 2, line.value, [], n); }
    } else if a[pos] == DOLLAR {
      LocalBulk(a, b, pos, n);
    } else {
      FindCrlfLocal(a, b, pos + 1, n);
    }
  }

  lemma {:induction false} Agree(a: bytes, b: bytes, i: nat, j: nat, n: nat)
    requires n <= |a| && n <= |b| && a[..n] == b[..n] && i <= j <= n
    ensures a[i..j] == b[i..j]
    ensures i < n ==> a[i] == b[i]
  {
    assert a[i..j] == a[..n][i..j] && b[i..j] == b[..n][i..j];
    assert i < n ==> a[i] == a[..n][i] && b[i] == b[..n][i];
  }

  lemma {:induction false} LocalPayload(a: bytes, b: bytes, at: nat, len: nat, n: nat)
    requires n <= |a| && n <= |b| && a[..n] == b[..n] && at + len + 2 <= n
    ensures ParsePayload(b, at, len) == ParsePayload(a, at, len)
  {
    Agree(a, b, at, at + len, n);
    Agree(a, b, at + len, n, n);
    Agree(a, b, at + len + 1, n, n);
  }

  lemma {:induction false} LocalBulk(a: bytes, b: bytes, pos: nat, n: nat)
    requires n <= |a| && n <= |b| && a[..n] == b[..n] && pos < n
    requires ParseBulk(a, pos).Complete? && ParseBulk(a, pos).pos <= n
    ensures ParseBulk(b, pos) == ParseBulk(a, pos)
  {
    var i := FindCrlf(a, pos + 1).value;
    FindCrlfLocal(a, b, pos + 1, n);
    var len := FromChars(a[pos + 1..i]).value;
    if len >= 0 { LocalPayload(a, b, i + 2, len, n); }
  }

  lemma {:induction false} LocalArrayLine(a: bytes, b: bytes, pos: nat, n: nat)
    requires n <= |a| && n <= |b| && a[..n] == b[..n] && pos < n
    requires ParseArray(a, pos).Complete? && ParseArray(a, pos).pos <= n
    ensures FindCrlf(a, pos + 1).Some? && FindCrlf(a, pos + 1).value + 2 <= n
    ensures FindCrlf(b, pos + 1) == FindCrlf(a, pos + 1)
    ensures a[pos + 1..FindCrlf(a, pos + 1).value] == b[pos + 1..FindCrlf(a, pos + 1).value]
  {
    FindCrlfLocal(a, b, pos + 1, n);
  }

  lemma {:induction false} LocalElements(a: bytes, b: bytes, pos: nat, count: nat, sofar: seq<Value>, n: nat)
    requires n <= |a| && n <= |b| && a[..n] == b[..n] && pos <= n
    requires ParseElements(a, pos, count, sofar).Complete? && ParseElements(a, pos, count, sofar).pos <= n
    ensures ParseElements(b, pos, count, sofar) == ParseElements(a, pos, count, sofar)
    decreases |a| - pos, 2
  {
    if count > 0 {
      var e := ParseValue(a, pos);
      LocalValue(a, b, pos, n);
      LocalElements(a, b, e.pos, count - 1, sofar + [e.value], n);
    }
  }

  /** A complete message is determined by its own bytes, whatever follows or does not follow. */
  lemma {:induction false} CompleteIsLocal(a: bytes, b: bytes)
    requires Parse(a).Complete? && Parse(a).pos <= |b| && a[..Parse(a).pos] == b[..Parse(a).pos]
    ensures Parse(b) == Parse(a)
  {
    LocalValue(a, b, 0, Parse(a).pos);
  }

  lemma {:induction false} StableBulk(a: bytes, b: bytes, pos: nat)
    requires pos < |a| <= |b| && b[..|a|] == a[..|a|] && ParseBulk(a, pos).Malformed?
    ensures ParseBulk(b, pos).Malformed?
  {
    var i := FindCrlf(a, pos + 1).value;
    FindCrlfLocal(a, b, pos + 1, |a|);
    var line := FromChars(a[pos + 1..i]);
    if line.Parsed? && line.value >= 0 { LocalPayload(a, b, i + 2, line.value, |a|); }
  }

  lemma {:induction false} StableArray(a: bytes, ext: bytes, pos: nat)
    requires pos < |a| && ParseArray(a, pos).Malformed?
    ensures ParseArray(a + ext, pos).Malformed?
    decreases |a| - pos, 0
  {
    var i := FindCrlf(a, pos + 1).value;
    assert (a + ext)[..|a|] == a[..|a|];
    FindCrlfLocal(a, a + ext, pos + 1, |a|);
    var line := FromChars(a[pos + 1..i]);
    if line.Parsed? && line.value >= 0 { StableElements(a, ext, i + 2, line.value, []); }
  }

  lemma {:induction false} StableValue(a: bytes, ext: bytes, pos: nat)
    requires pos <= |a| && ParseValue(a, pos).Malformed?
    ensures ParseValue(a + ext, pos).Malformed?
    decreases |a| - pos, 1
  {
    assert (a + ext)[..|a|] == a[..|a|] && (a + ext)[pos] == a[pos];
    if a[pos] == DOLLAR {
      StableBulk(a, a + ext, pos);
    } else if a[pos] == ASTERISK {
      StableArray(a, ext, pos);
    } else if a[pos] == COLON {
      FindCrlfLocal(a, a + ext, pos + 1, |a|);
    }
  }

  lemma {:induction false} StableElements(a: bytes, ext: bytes, pos: nat, count: nat, sofar: seq<Value>)
    requires pos <= |a| && ParseElements(a, pos, count, sofar).Malformed?
    ensures ParseElements(a + ext, pos, count, sofar).Malformed?
    decreases |a| - pos, 2
  {
    var e := ParseValue(a, pos);
    if e.Complete? {
      assert (a + ext)[..|a|] == a[..|a|];
      LocalValue(a, a + ext, pos, |a|);
      StableElements(a, ext, e.pos, count - 1, sofar + [e.value]);
    } else {
      StableValue(a, ext, pos);
    }
  }

  /** A protocol error stays one, whatever arrives later. */
  lemma {:induction false} ErrorIsStable(a: bytes, ext: bytes)
    requires Parse(a).Malformed?
    ensures Parse(a + ext).Malformed?
  {
    StableValue(a, ext, 0);
  }

  /** Every proper prefix of a complete message asks for more bytes. */
  lemma {:induction false} PrefixIsIncomplete(a: bytes, n: nat)
    requires Parse(a).Complete? && n < Parse(a).pos
    ensures Parse(a[..n]) == Incomplete
  {
    assert a[..n] + a[n..] == a;
    if Parse(a[..n]).Malformed? {
      ErrorIsStable(a[..n], a[n..]);
    } else if Parse(a[..n]).Complete? {
      var m := Parse(a[..n]).pos;
      assert a[..n][..m] == a[..m];
      CompleteIsLocal(a[..n], a);
    }
  }
}
