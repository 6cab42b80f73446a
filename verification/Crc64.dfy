/**
 The checksum of snapshot files: CRC-64 with the Jones polynomial, reflected, one table lookup per byte.
 Registers are naturals below 2^64 with bitwise `Xor`; shifting right by one or by eight is division.
 `TableStep` justifies the table, `UpdateSplits` says that the cutting of the input does not matter,
 `WindowDetected` that damage confined to eight consecutive bytes always changes the sum.
 */
module Crc64 {
  import opened Common

  const POLY: u64 := 0xad93d23594c935a9

  // ---- exclusive or ---------------------------------------------------------------------

  function Xor(a: nat, b: nat): nat {
    if a == 0 then b
    else if b == 0 then a
    else (if a % 2 != b % 2 then 1 else 0) + 2 * Xor(a / 2, b / 2)
  }

  lemma {:induction false} XorHalf(a: nat, b: nat)
    ensures Xor(a, b) / 2 == Xor(a / 2, b / 2)
    ensures Xor(a, b) % 2 == if a % 2 != b % 2 then 1 else 0
  {
    if a > 0 && b > 0 {
      var r := Xor(a / 2, b / 2);
      assert Xor(a, b) == (if a % 2 != b % 2 then 1 else 0) + 2 * r;
    }
  }

  lemma {:induction false} XorSelf(a: nat)
    ensures Xor(a, a) == 0
  {
    if a > 0 { XorSelf(a / 2); }
  }

  lemma {:induction false} XorComm(a: nat, b: nat)
    ensures Xor(a, b) == Xor(b, a)
  {
    if a > 0 && b > 0 { XorComm(a / 2, b / 2); }
  }

  lemma {:induction false} XorAssoc(a: nat, b: nat, c: nat)
    ensures Xor(Xor(a, b), c) == Xor(a, Xor(b, c))
    decreases a + b + c
  {
    if a > 0 && b > 0 && c > 0 {
      XorAssoc(a / 2, b / 2, c / 2);
      XorHalf(a, b);
      XorHalf(b, c);
      XorHalf(Xor(a, b), c);
      XorHalf(a, Xor(b, c));
    }
  }

  lemma {:induction false} XorZero(a: nat, b: nat)
    requires Xor(a, b) == 0
    ensures a == b
  {
    XorAssoc(a, a, b);
    XorSelf(a);
  }

  /** `c ^ e == q` can be solved for `c`. */
  lemma {:induction false} XorSolve(c: nat, e: nat, q: nat)
    requires Xor(c, e) == q
    ensures c == Xor(e, q)
  {
    XorAssoc(c, e, e);
    XorSelf(e);
    XorComm(e, q);
  }

  lemma {:induction false} XorSwap(c: nat, d: nat, x: nat, y: nat)
    ensures Xor(Xor(c, x), Xor(d, y)) == Xor(Xor(c, d), Xor(x, y))
  {
    XorAssoc(Xor(c, x), d, y);
    XorAssoc(c, x, d);
    XorComm(x, d);
    XorAssoc(c, d, x);
    XorAssoc(Xor(c, d), x, y);
  }

  function Exp2(n: nat): nat {
    if n == 0 then 1 else 2 * Exp2(n - 1)
  }

  lemma {:induction false} XorBound(a: nat, b: nat, n: nat)
    requires a < Exp2(n) && b < Exp2(n)
    ensures Xor(a, b) < Exp2(n)
  {
    if a > 0 && b > 0 { XorBound(a / 2, b / 2, n - 1); }
  }

  /** A number and a multiple of a larger power of two have no bits in common. */
  lemma {:induction false} XorDisjoint(l: nat, h: nat, n: nat)
    requires l < Exp2(n)
    ensures Xor(l, Exp2(n) * h) == l + Exp2(n) * h
  {
    if n > 0 && l > 0 && h > 0 {
      var k := Exp2(n - 1) * h;
      assert Exp2(n) * h == 2 * k;
      XorDisjoint(l / 2, h, n - 1);
      assert (2 * k) % 2 == 0 && (2 * k) / 2 == k;
    }
  }

  lemma {:induction false} Exponents()
    ensures Exp2(8) == 256 && Exp2(64) == TWO_64
  {
    assert Exp2(4) == 16;
    assert Exp2(8) == 16 * Exp2(4);
    assert Exp2(12) == 16 * Exp2(8);
    assert Exp2(16) == 16 * Exp2(12);
    ExpAdd(16, 16);
    ExpAdd(32, 32);
  }

  lemma {:induction false} ExpAdd(m: nat, n: nat)
    ensures Exp2(m + n) == Exp2(m) * Exp2(n)
  {
    if m > 0 {
      ExpAdd(m - 1, n);
      Twice(Exp2(m - 1), Exp2(n));
    }
  }

  lemma {:induction false} Twice(a: nat, b: nat)
    ensures 2 * (a * b) == (2 * a) * b
  {
  }

  lemma {:induction false} XorIsU64(a: u64, b: u64)
    ensures Xor(a, b) < TWO_64
  {
    Exponents();
    XorBound(a, b, 64);
  }

  function XorReg(a: u64, b: u64): (r: u64)
    ensures r == Xor(a, b)
  {
    XorIsU64(a, b);
    Xor(a, b)
  }

  /** Low byte and the rest. */
  lemma {:induction false} ByteAndRest(l: byte, h: nat)
    ensures Xor(l, 256 * h) == l + 256 * h
  {
    Exponents();
    XorDisjoint(l, h, 8);
  }

  // ---- polynomial division --------------------------------------------------------------

  /** One bit of polynomial division. */
  function Shift(c: u64): u64 {
    if c % 2 == 1 then XorReg(POLY, c / 2) else c / 2
  }

  function Shifts(c: u64, n: nat): u64
    decreases n
  {
    if n == 0 then c else Shifts(Shift(c), n - 1)
  }

  /** The register after one byte, by definition: add the byte, divide eight times. */
  function Feed(c: u64, b: byte): u64 {
    Shifts(XorReg(c, b), 8)
  }

  function FeedAll(c: u64, s: bytes): u64
    decreases |s|
  {
    if s == [] then c else FeedAll(Feed(c, s[0]), s[1..])
  }

  function Not(c: u64): u64 {
    TWO_64 - 1 - c
  }

  /** `crc64_update`: complement, feed, complement. */
  function Update(crc: u64, s: bytes): u64 {
    Not(FeedAll(Not(crc), s))
  }

  function Crc(s: bytes): u64 {
    Update(0, s)
  }

  /** The top bit of a byte comes out as the polynomial. */
  lemma {:induction false} KnownShift()
    ensures Shifts(128, 8) == 0xad93d23594c935a9
  {
    hide Xor;
    XorNothing();
    assert Shift(1) == POLY;
    assert Shifts(1, 1) == Shifts(POLY, 0) == POLY;
    assert Shifts(128, 8) == Shifts(64, 7) == Shifts(32, 6) == Shifts(16, 5);
    assert Shifts(16, 5) == Shifts(8, 4) == Shifts(4, 3) == Shifts(2, 2) == Shifts(1, 1);
  }

  lemma {:induction false} XorNothing()
    ensures Xor(POLY, 0) == POLY
  {
  }

  lemma {:induction false} EvenShift(c: u64, n: nat)
    requires c % 2 == 0
    ensures Shifts(c, n + 1) == Shifts(c / 2, n)
  {
    hide Xor;
  }

  /** The byte that cancels the start value leaves only its complement. */
  lemma {:induction false} KnownSum()
    ensures Crc([]) == 0 && Crc([255]) == 0xff00_0000_0000_0000
  {
    hide Xor, Shift, Shifts;
    var all, c: u64 := 0xffff_ffff_ffff_ffff, 0xffff_ffff_ffff_ff00;
    CancelByte();
    EvenShift(c, 7); EvenShift(c / 2, 6); EvenShift(c / 4, 5); EvenShift(c / 8, 4);
    EvenShift(c / 16, 3); EvenShift(c / 32, 2); EvenShift(c / 64, 1); EvenShift(c / 128, 0);
    assert Shifts(c / 256, 0) == c / 256 by { NoShift(c / 256); }
    assert Feed(all, 255) == c / 256;
    OneByte(all, 255);
    NoByte(all);
  }

  lemma {:induction false} NoShift(c: u64)
    ensures Shifts(c, 0) == c
  {
  }

  lemma {:induction false} NoByte(c: u64)
    ensures FeedAll(c, []) == c
  {
  }

  lemma {:induction false} OneByte(c: u64, b: byte)
    ensures FeedAll(c, [b]) == Feed(c, b)
  {
    hide Xor, Shifts;
    assert [b][1..] == [];
  }

  lemma {:induction false} CancelByte()
    ensures Xor(0xffff_ffff_ffff_ffff, 255) == 0xffff_ffff_ffff_ff00
  {
    hide Xor;
    ByteAndRest(255, 0xff_ffff_ffff_ffff);
    XorComm(255, 0xffff_ffff_ffff_ff00);
    XorSolve(0xffff_ffff_ffff_ff00, 255, 0xffff_ffff_ffff_ffff);
    XorComm(255, 0xffff_ffff_ffff_ffff);
  }

  lemma {:induction false} ShiftLinear(a: u64, b: u64)
    ensures Shift(XorReg(a, b)) == Xor(Shift(a), Shift(b))
  {
    var x, y := a / 2, b / 2;
    XorHalf(a, b);
    if a % 2 == 1 && b % 2 == 1 {
      XorSwap(POLY, POLY, x, y);
      XorSelf(POLY);
    } else if a % 2 == 1 {
      XorAssoc(POLY, x, y);
    } else if b % 2 == 1 {
      XorAssoc(x, POLY, y);
      XorComm(x, POLY);
      XorAssoc(POLY, x, y);
    }
  }

  lemma {:induction false} ShiftsLinear(a: u64, b: u64, n: nat)
    ensures Shifts(XorReg(a, b), n) == Xor(Shifts(a, n), Shifts(b, n))
    decreases n
  {
    if n > 0 {
      ShiftLinear(a, b);
      ShiftsLinear(Shift(a), Shift(b), n - 1);
    }
  }

  /** Zero bits at the low end just fall out. */
  lemma {:induction false} ShiftEven(c: u64, h: nat)
    requires c == 2 * h
    ensures Shift(c) == h
  {
    hide XorReg;
  }

  lemma {:induction false} ShiftsByte(h: nat)
    requires 256 * h < TWO_64
    ensures Shifts(256 * h, 8) == h
  {
    hide Shift;
    ShiftEven(256 * h, 128 * h);
    ShiftEven(128 * h, 64 * h);
    ShiftEven(64 * h, 32 * h);
    ShiftEven(32 * h, 16 * h);
    ShiftEven(16 * h, 8 * h);
    ShiftEven(8 * h, 4 * h);
    ShiftEven(4 * h, 2 * h);
    ShiftEven(2 * h, h);
    assert Shifts(256 * h, 8) == Shifts(64 * h, 6);
    assert Shifts(64 * h, 6) == Shifts(16 * h, 4);
    assert Shifts(16 * h, 4) == Shifts(4 * h, 2);
    assert Shifts(4 * h, 2) == Shifts(h, 0);
  }

  /** The polynomial's top bit makes the division reversible. */
  lemma {:induction false} ShiftNonZero(c: u64)
    requires Shift(c) == 0
    ensures c == 0
  {
    if c % 2 == 1 { XorZero(POLY, c / 2); }
  }

  lemma {:induction false} ShiftsNonZero(c: u64, n: nat)
    requires Shifts(c, n) == 0
    ensures c == 0
    decreases n
  {
    if n > 0 {
      ShiftsNonZero(Shift(c), n - 1);
      ShiftNonZero(c);
    }
  }

  lemma {:induction false} ShiftsInjective(a: u64, b: u64, n: nat)
    requires Shifts(a, n) == Shifts(b, n)
    ensures a == b
  {
    ShiftsLinear(a, b, n);
    XorSelf(Shifts(a, n));
    ShiftsNonZero(XorReg(a, b), n);
    XorZero(a, b);
  }

  // ---- the table ------------------------------------------------------------------------

  lemma {:induction false} SplitRegister(c: u64, p: byte)
    ensures var x := Xor(c, p);
            x / 256 == c / 256 && x == Xor(x % 256, 256 * (x / 256))
  {
    hide Xor, Exp2;
    var x, l, h := Xor(c, p), c % 256, c / 256;
    Exponents();
    XorBound(l, p, 8);
    HighXor(l, h, p);
    ByteAndRest(Xor(l, p), h);
    ByteAndRest(l, h);
    Quotient(Xor(l, p), h);
  }

  lemma {:induction false} Quotient(l: byte, h: nat)
    ensures (l + 256 * h) % 256 == l && (l + 256 * h) / 256 == h
  {
  }

  lemma {:induction false} HighXor(l: byte, h: nat, p: byte)
    ensures Xor(l + 256 * h, p) == Xor(Xor(l, p), 256 * h)
  {
    ByteAndRest(l, h);
    XorAssoc(l, 256 * h, p);
    XorComm(256 * h, p);
    XorAssoc(l, p, 256 * h);
  }

  /** One table lookup does the work of eight division steps. */
  lemma {:induction false} TableStep(c: u64, p: byte)
    ensures Feed(c, p) == Xor(Shifts(Xor(c, p) % 256, 8), c / 256)
  {
    var x := XorReg(c, p);
    SplitRegister(c, p);
    ShiftsLinear(x % 256, 256 * (x / 256), 8);
    ShiftsByte(x / 256);
  }

  ghost predicate TableOk(t: array<u64>)
    reads t
  {
    t.Length == 256 && forall i | 0 <= i < 256 :: t[i] == Shifts(i, 8)
  }

  /** `init_crc64_table`. */
  method InitTable() returns (t: array<u64>)
    ensures fresh(t) && TableOk(t)
  {
    hide Shifts;
    t := new u64[256];
    var i := 0;
    while i < 256
      invariant 0 <= i <= 256
      invariant forall k | 0 <= k < i :: t[k] == Shifts(k, 8)
    {
      t[i] := TableEntry(i);
      i := i + 1;
    }
  }

  /** The inner loop of `init_crc64_table`. */
  method TableEntry(i: u64) returns (c: u64)
    ensures c == Shifts(i, 8)
  {
    c := i;
    var j := 0;
    while j < 8
      invariant 0 <= j <= 8 && Shifts(c, 8 - j) == Shifts(i, 8)
    {
      c := if c % 2 == 1 then XorReg(POLY, c / 2) else c / 2;
      j := j + 1;
    }
  }

  /** `crc64_update` with the table. */
  method UpdateByTable(t: array<u64>, crc: u64, data: bytes) returns (r: u64)
    requires TableOk(t)
    ensures r == Update(crc, data)
  {
    var c := Not(crc);
    var i := 0;
    while i < |data|
      invariant 0 <= i <= |data|
      invariant FeedAll(c, data[i..]) == FeedAll(Not(crc), data)
    {
      TableStep(c, data[i]);
      assert data[i..][1..] == data[i + 1..];
      c := XorReg(t[XorReg(c, data[i]) % 256], c / 256);
      i := i + 1;
    }
    r := Not(c);
  }

  // ---- splitting ------------------------------------------------------------------------

  lemma {:induction false} FeedSplits(c: u64, a: bytes, b: bytes)
    ensures FeedAll(c, a + b) == FeedAll(FeedAll(c, a), b)
    decreases |a|
  {
    if a == [] {
      assert a + b == b;
    } else {
      assert (a + b)[1..] == a[1..] + b;
      FeedSplits(Feed(c, a[0]), a[1..], b);
    }
  }

  /** Reader and writer may cut the data differently: only the bytes matter. */
  lemma {:induction false} UpdateSplits(crc: u64, a: bytes, b: bytes)
    ensures Update(Update(crc, a), b) == Update(crc, a + b)
  {
    hide FeedAll;
    FeedSplits(Not(crc), a, b);
  }

  // ---- error detection ------------------------------------------------------------------

  lemma {:induction false} SameTail(c: u64, d: u64, s: bytes)
    requires FeedAll(c, s) == FeedAll(d, s)
    ensures c == d
    decreases |s|
  {
    if s != [] {
      SameTail(Feed(c, s[0]), Feed(d, s[0]), s[1..]);
      ShiftsInjective(XorReg(c, s[0]), XorReg(d, s[0]), 8);
      XorSolve(c, s[0], Xor(c, s[0]));
      XorSolve(d, s[0], Xor(d, s[0]));
    }
  }

  /** The differences of corresponding bytes, the first one lowest. */
  function Pack(a: bytes, b: bytes): nat
    requires |a| == |b|
  {
    if a == [] then 0 else Xor(a[0], b[0]) + 256 * Pack(a[1..], b[1..])
  }

  lemma {:induction false} PackFits(a: bytes, b: bytes)
    requires |a| == |b|
    ensures Pack(a, b) < Exp256(|a|)
    ensures Pack(a, b) == 0 ==> a == b
    decreases |a|
  {
    if a != [] {
      PackFits(a[1..], b[1..]);
      Exponents();
      XorBound(a[0], b[0], 8);
      if Pack(a, b) == 0 {
        XorZero(a[0], b[0]);
        assert a == [a[0]] + a[1..] && b == [b[0]] + b[1..];
      }
    }
  }

  lemma {:induction false} Exp256Bound(n: nat)
    requires n < 8
    ensures 256 * Exp256(n) <= TWO_64
  {
    assert Exp256(1) == 256 * Exp256(0);
    assert Exp256(2) == 256 * Exp256(1);
    assert Exp256(3) == 256 * Exp256(2);
    assert Exp256(4) == 256 * Exp256(3);
    assert Exp256(5) == 256 * Exp256(4);
    assert Exp256(6) == 256 * Exp256(5);
    assert Exp256(7) == 256 * Exp256(6);
  }

  /** Two registers that agree after at most eight bytes differed before by those bytes' differences. */
  lemma {:induction false} Backwards(c: u64, d: u64, a: bytes, b: bytes)
    requires |a| == |b| <= 8 && FeedAll(c, a) == FeedAll(d, b)
    ensures Xor(c, d) == Pack(a, b)
    decreases |a|
  {
    if a == [] {
      XorSelf(c);
    } else {
      var x, y := a[0], b[0];
      var p := Pack(a[1..], b[1..]);
      Backwards(Feed(c, x), Feed(d, y), a[1..], b[1..]);
      PackFits(a[1..], b[1..]);
      Exp256Bound(|a| - 1);
      BackOneByte(c, d, x, y, p);
    }
  }

  lemma {:induction false} BackOneByte(c: u64, d: u64, x: byte, y: byte, p: nat)
    requires Xor(Feed(c, x), Feed(d, y)) == p && 256 * p < TWO_64
    ensures Xor(c, d) == Xor(x, y) + 256 * p
  {
    var e := XorReg(x, y);
    ShiftsLinear(XorReg(c, x), XorReg(d, y), 8);
    XorSwap(c, d, x, y);
    ShiftsByte(p);
    ShiftsInjective(XorReg(XorReg(c, d), e), 256 * p, 8);
    XorSolve(Xor(c, d), e, 256 * p);
    Exponents();
    XorBound(x, y, 8);
    ByteAndRest(e, p);
  }

  /** Inputs of equal length that differ within eight consecutive bytes have different checksums. */
  lemma {:induction false} WindowDetected(head: bytes, a: bytes, b: bytes, tail: bytes)
    requires |a| == |b| <= 8 && a != b
    ensures Crc(head + a + tail) != Crc(head + b + tail)
  {
    var c := FeedAll(Not(0), head);
    FeedSplits(Not(0), head, a);
    FeedSplits(Not(0), head, b);
    FeedSplits(Not(0), head + a, tail);
    FeedSplits(Not(0), head + b, tail);
    if Crc(head + a + tail) == Crc(head + b + tail) {
      SameTail(FeedAll(c, a), FeedAll(c, b), tail);
      Backwards(c, c, a, b);
      XorSelf(c);
      PackFits(a, b);
    }
  }
}
