/** Value objects: how a string is stored and what is read back. */
module Objects {
  import opened Common
  import opened Decimal

  const EMBSTR_MAX_LEN := 44

  /** `KevaObject` with its encoding tag; every object of this version is a string. */
  datatype Object = IntEncoded(value: i64) | Embstr(content: bytes) | Raw(content: bytes)

  /** `try_parse_int`: at most 20 bytes, and all of them used. */
  predicate TryParseInt(s: bytes) {
    0 < |s| <= 20 && IsInt(s)
  }

  function CreateString(s: bytes): Object {
    if TryParseInt(s) then IntEncoded(FromChars(s).value)
    else if |s| <= EMBSTR_MAX_LEN then Embstr(s)
    else Raw(s)
  }

  /** What `GET` sends, `APPEND` extends and `SAVE` writes. */
  function Text(o: Object): bytes {
    match o
    case IntEncoded(v) => ToChars(v)
    case Embstr(s) => s
    case Raw(s) => s
  }

  /** Objects that `create_string` and `create_string_from_int` can build. */
  predicate WellFormed(o: Object) {
    o.IntEncoded? || o == CreateString(o.content)
  }

  /** A string is read back unchanged exactly when it is not an integer in unusual spelling:
      `007` and `-0` lose characters, 21 digits and more are kept as they are. */
  lemma {:induction false} ReadBack(s: bytes)
    ensures Text(CreateString(s)) == s <==> !TryParseInt(s) || IsCanonical(s)
  {
    if TryParseInt(s) { ParseThenPrint(s); }
  }

  /** `007` and `-0` come back as `7` and `0`. */
  lemma {:induction false} SpellingLost()
    ensures CreateString([48, 48, 55]) == IntEncoded(7) && Text(CreateString([48, 48, 55])) == [55]
    ensures CreateString([45, 48]) == IntEncoded(0) && Text(CreateString([45, 48])) == [48]
  {
    ThreeDigits();
    MinusZero();
  }

  /** Storing what was read restores the very same object, so nothing changes after the first time. */
  lemma {:induction false} Restore(o: Object)
    requires WellFormed(o)
    ensures CreateString(Text(o)) == o
  {
    if o.IntEncoded? {
      PrintThenParse(o.value, []);
      PrintedLength(o.value);
      assert ToChars(o.value) + [] == ToChars(o.value);
    }
  }

  lemma {:induction false} CreatedIsWellFormed(s: bytes)
    ensures WellFormed(CreateString(s))
    ensures CreateString(Text(CreateString(s))) == CreateString(s)
  {
    Restore(CreateString(s));
  }
}
