/**
 Decimal text of 64-bit integers: what `std::to_chars` and `std::from_chars` (base 10) do.
 `from_chars` accepts an optional minus sign and the longest run of digits, ignores what follows,
 and rejects values outside the 64-bit range.
 */
module Decimal {
  import opened Common

  const MINUS: byte := 45
  const ZERO: byte := 48

  predicate IsDigit(c: byte) {
    48 <= c <= 57
  }

  function Digits(n: nat): (s: bytes)
    ensures s != []
  {
    if n < 10 then [ZERO + n] else Digits(n / 10) + [ZERO + n % 10]
  }

  function Abs(v: int): nat {
    if v < 0 then -v else v
  }

  function ToChars(v: i64): (s: bytes)
    ensures s != []
  {
    if v < 0 then [MINUS] + Digits(Abs(v)) else Digits(Abs(v))
  }

  /** The value of a string of digits. */
  function ValueOf(s: bytes): int {
    if s == [] then 0 else 10 * ValueOf(s[..|s| - 1]) + (s[|s| - 1] - ZERO)
  }

  /** End of the run of digits that starts at `i`. */
  function RunEnd(s: bytes, i: nat): (e: nat)
    requires i <= |s|
    ensures i <= e <= |s|
    decreases |s| - i
  {
    if i < |s| && IsDigit(s[i]) then RunEnd(s, i + 1) else i
  }

  datatype Chars = Parsed(value: i64, end: nat) | Invalid | OutOfRange

  function FromChars(s: bytes): (r: Chars)
    ensures r.Parsed? ==> 0 < r.end <= |s|
  {
    var neg := s != [] && s[0] == MINUS;
    var start := if neg then 1 else 0;
    var end := RunEnd(s, start);
    var m := ValueOf(s[start..end]);
    var v := if neg then -m else m;
    if end == start then Invalid
    else if I64_MIN <= v <= I64_MAX then Parsed(v, end)
    else OutOfRange
  }

  /** The whole string is one 64-bit integer. */
  predicate IsInt(s: bytes) {
    FromChars(s).Parsed? && FromChars(s).end == |s|
  }

  // ---- print, then parse ----------------------------------------------------------------

  ghost predicate AllDigits(s: bytes) {
    forall i | 0 <= i < |s| :: IsDigit(s[i])
  }

  lemma {:induction false} DigitsOk(n: nat)
    ensures AllDigits(Digits(n)) && ValueOf(Digits(n)) == n
  {
    if n < 10 {
      assert Digits(n)[..0] == [];
    } else {
      DigitsOk(n / 10);
      assert Digits(n)[..|Digits(n)| - 1] == Digits(n / 10);
    }
  }

  lemma {:induction false} RunOfDigits(s: bytes, i: nat)
    requires i <= |s|
    ensures AllDigits(s[i..RunEnd(s, i)])
    decreases |s| - i
  {
    if i < |s| && IsDigit(s[i]) {
      RunOfDigits(s, i + 1);
      assert s[i..RunEnd(s, i)] == [s[i]] + s[i + 1..RunEnd(s, i + 1)];
    }
  }

  lemma {:induction false} RunEndIs(s: bytes, i: nat, e: nat)
    requires i <= e <= |s| && AllDigits(s[i..e]) && (e < |s| ==> !IsDigit(s[e]))
    ensures RunEnd(s, i) == e
    decreases e - i
  {
    if i < e {
      assert s[i..e][0] == s[i];
      assert s[i + 1..e] == s[i..e][1..];
      RunEndIs(s, i + 1, e);
    }
  }

  /** Printing and parsing back gives the number and stops right behind the digits. */
  lemma {:induction false} PrintThenParse(v: i64, rest: bytes)
    requires rest == [] || !IsDigit(rest[0])
    ensures FromChars(ToChars(v) + rest) == Parsed(v, |ToChars(v)|)
  {
    hide Digits, ValueOf, RunEnd;
    var s, d := ToChars(v) + rest, Digits(Abs(v));
    DigitsOk(Abs(v));
    var start, end := |ToChars(v)| - |d|, |ToChars(v)|;
    assert s[start..end] == d;
    if v >= 0 { assert IsDigit(d[0]); }
    RunEndIs(s, start, end);
  }

  function Pow10(k: nat): nat {
    if k == 0 then 1 else 10 * Pow10(k - 1)
  }

  lemma {:induction false} DigitCount(n: nat, k: nat)
    requires k > 0 && n < Pow10(k)
    ensures |Digits(n)| <= k
  {
    if n >= 10 {
      assert Pow10(k) == 10 * Pow10(k - 1) && Pow10(0) == 1;
      DigitCount(n / 10, k - 1);
    }
  }

  /** 64-bit integers print as at most 20 bytes, the longest that `try_parse_int` looks at. */
  lemma {:induction false} PrintedLength(v: i64)
    ensures |ToChars(v)| <= 20
  {
    assert Pow10(19) == 10 * Pow10(18) && Pow10(4) == 10000;
    assert Pow10(8) == 10000 * Pow10(4) && Pow10(12) == 10000 * Pow10(8);
    assert Pow10(16) == 10000 * Pow10(12) && Pow10(19) == 1000 * Pow10(16);
    DigitCount(Abs(v), 19);
  }

  // ---- parse, then print ----------------------------------------------------------------

  /** No superfluous sign and no leading zero. */
  predicate IsCanonical(s: bytes) {
    s == [ZERO] || (s != [] && s[0] != ZERO && !(s[0] == MINUS && |s| > 1 && s[1] == ZERO))
  }

  lemma {:induction false} DigitsOfValue(s: bytes)
    requires s != [] && AllDigits(s)
    ensures ValueOf(s) >= 0 && (s[0] != ZERO ==> ValueOf(s) > 0)
    ensures Digits(ValueOf(s)) == s <==> s == [ZERO] || s[0] != ZERO
  {
    var last := |s| - 1;
    var front := s[..last];
    assert IsDigit(s[last]);
    if front == [] {
      assert s == [s[0]];
    } else {
      DigitsOfValue(front);
      var n := ValueOf(s);
      assert n / 10 == ValueOf(front) && n % 10 == s[last] - ZERO;
      assert s == front + [s[last]];
      if s[0] == ZERO && n < 10 { assert |Digits(n)| == 1; }
    }
  }

  lemma {:induction false} PrintedIsCanonical(v: i64)
    ensures IsCanonical(ToChars(v))
  {
    var d := Digits(Abs(v));
    DigitsOk(Abs(v));
    DigitsOfValue(d);
    if v < 0 { assert ValueOf([ZERO]) == 0; }
  }

  /** A string that parses completely prints back as itself exactly when it is canonical;
      otherwise (`007`, `-0`) it prints back shorter. */
  lemma {:induction false} ParseThenPrint(s: bytes)
    requires IsInt(s)
    ensures ToChars(FromChars(s).value) == s <==> IsCanonical(s)
    ensures IsCanonical(ToChars(FromChars(s).value))
  {
    PrintedIsCanonical(FromChars(s).value);
    if s[0] == MINUS {
      RunOfDigits(s, 1);
      assert s[1..|s|] == s[1..];
      DigitsOfValue(s[1..]);
      SignedPrint(s[1..], s);
    } else {
      RunOfDigits(s, 0);
      assert s[0..|s|] == s;
      DigitsOfValue(s);
    }
  }

  lemma {:induction false} ValueSnoc(s: bytes, c: byte)
    ensures ValueOf(s + [c]) == 10 * ValueOf(s) + (c - ZERO)
  {
    assert (s + [c])[..|s|] == s;
  }

  lemma {:induction false} ThreeDigits()
    ensures FromChars([48, 48, 55]) == Parsed(7, 3)
  {
    var s: bytes := [48, 48, 55];
    RunEndIs(s, 0, 3);
    ValueSnoc([], 48);
    ValueSnoc([48], 48);
    ValueSnoc([48, 48], 55);
    assert s[0..3] == s == [48, 48] + [55] && [48] + [48] == [48, 48] && [] + [48] == [48];
  }

  lemma {:induction false} MinusZero()
    ensures FromChars([45, 48]) == Parsed(0, 2)
  {
    var s: bytes := [45, 48];
    RunEndIs(s, 1, 2);
    ValueSnoc([], 48);
    assert s[1..2] == [48] == [] + [48];
  }

  lemma {:induction false} SignedPrint(d: bytes, s: bytes)
    requires s == [MINUS] + d && d != [] && AllDigits(d) && 0 <= ValueOf(d) <= -I64_MIN
    ensures ToChars(-ValueOf(d)) == s <==> IsCanonical(s)
  {
    DigitsOfValue(d);
    var v := -ValueOf(d);
    if v < 0 {
      assert ToChars(v)[1..] == Digits(Abs(v)) && s[1..] == d;
    } else {
      assert ToChars(v) == [ZERO];
      assert s[1] == d[0];
    }
  }
}
