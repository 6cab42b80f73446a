/** The parser as the program runs it: a cursor moved over the input, elements collected in a loop. */
module RespParser {
  import opened Common
  import Decimal
  import opened Resp

  method FindLineEnd(input: bytes, from: nat) returns (r: Option<nat>)
    ensures r == FindCrlf(input, from)
  {
    var i := from;
    while i + 1 < |input|
      invariant FindCrlf(input, i) == FindCrlf(input, from)
      decreases |input| - i
    {
      if input[i] == CR && input[i + 1] == LF { return Some(i); }
      i := i + 1;
    }
    return None;
  }

  method ParseSimpleAt(input: bytes, start: nat) returns (r: Outcome)
    requires start < |input|
    ensures r == ParseSimple(input, start)
  {
    var pos := start;
    var prefix := input[pos];
    pos := pos + 1;
    var end := FindLineEnd(input, pos);
    if end.None? { return Incomplete; }
    var line := input[pos..end.value];
    pos := end.value + 2;
    if prefix == PLUS { return Complete(SimpleString(line), pos); }
    if prefix == DASH { return Complete(Error(line), pos); }
    if prefix == COLON {
      var number := Decimal.FromChars(line);
      if !number.Parsed? { return Malformed; }
      return Complete(Integer(number.value), pos);
    }
    return Malformed;
  }

  method ParseBulkAt(input: bytes, start: nat) returns (r: Outcome)
    requires start < |input|
    ensures r == ParseBulk(input, start)
  {
    var pos := start + 1;
    var end := FindLineEnd(input, pos);
    if end.None? { return Incomplete; }
    var length := Decimal.FromChars(input[pos..end.value]);
    pos := end.value + 2;
    if !length.Parsed? { return Malformed; }
    if length.value == -1 { return Complete(Nil, pos); }
    if length.value < 0 { return Malformed; }
    var payloadEnd := pos + length.value + 2;
    if payloadEnd > |input| { return Incomplete; }
    if input[pos + length.value] != CR || input[pos + length.value + 1] != LF { return Malformed; }
    return Complete(BulkString(input[pos..pos + length.value]), payloadEnd);
  }

  method ParseArrayAt(input: bytes, start: nat) returns (r: Outcome)
    requires start < |input|
    ensures r == ParseArray(input, start)
    decreases |input| - start, 0
  {
    var pos := start + 1;
    var end := FindLineEnd(input, pos);
    if end.None? { return Incomplete; }
    var count := Decimal.FromChars(input[pos..end.value]);
    pos := end.value + 2;
    if !count.Parsed? { return Malformed; }
    if count.value == -1 { return Complete(Nil, pos); }
    if count.value < 0 { return Malformed; }
    var elements: seq<Value> := [];
    var i := 0;
    while i < count.value
      invariant 0 <= i <= count.value && start < pos <= |input|
      invariant ParseElements(input, pos, count.value - i, elements) == ParseArray(input, start)
    {
      var elem := ParseValueAt(input, pos);
      if !elem.Complete? { return elem; }
      elements := elements + [elem.value];
      pos := elem.pos;
      i := i + 1;
    }
    return Complete(Array(elements), pos);
  }

  method ParseValueAt(input: bytes, pos: nat) returns (r: Outcome)
    requires pos <= |input|
    ensures r == ParseValue(input, pos)
    decreases |input| - pos, 1
  {
    if pos >= |input| { return Incomplete; }
    var prefix := input[pos];
    if prefix == PLUS || prefix == DASH || prefix == COLON { r := ParseSimpleAt(input, pos); }
    else if prefix == DOLLAR { r := ParseBulkAt(input, pos); }
    else if prefix == ASTERISK { r := ParseArrayAt(input, pos); }
    else { r := Malformed; }
  }

  /** `parse`: nothing is consumed unless a whole value is there. */
  method ParseMessage(input: bytes) returns (r: Outcome, consumed: nat)
    ensures r == Parse(input)
    ensures consumed == (if r.Complete? then r.pos else 0) <= |input|
    ensures r.Complete? ==> consumed > 0
  {
    r := ParseValueAt(input, 0);
    consumed := if r.Complete? then r.pos else 0;
  }
}
