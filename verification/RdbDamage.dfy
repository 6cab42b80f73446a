/**
 Damage to a snapshot. A file that ends in its own checksum leaves the register in one fixed state, whatever
 it contains (`SealedRegister`), so `DamageDetected` covers the stored sum as well as the contents.
 */
module RdbDamage {
  import opened Common
  import opened StoreSpec
  import opened RdbFormat
  import opened RdbSpec
  import opened RdbLaws
  import opened Crc64

  // ---- feeding a number -----------------------------------------------------------------

  lemma {:induction false} ShiftsAdd(c: u64, m: nat, n: nat)
    ensures Shifts(Shifts(c, m), n) == Shifts(c, m + n)
    decreases m
  {
    if m > 0 { ShiftsAdd(Shift(c), m - 1, n); }
  }

  /** Eight divisions of a sum whose upper part is `h`. */
  lemma {:induction false} FeedLow(c: u64, l: byte, h: nat)
    requires l + 256 * h < TWO_64
    ensures Shifts(XorReg(c, l + 256 * h), 8) == Xor(Feed(c, l), h)
  {
    hide Shifts;
    var high: u64 := 256 * h;
    ByteAndRest(l, h);
    XorAssoc(c, l, high);
    XorIsU64(c, l);
    assert XorReg(XorReg(c, l), high) == XorReg(c, l + 256 * h);
    ShiftsLinear(XorReg(c, l), high, 8);
    ShiftsByte(h);
  }

  lemma {:induction false} Halve(n: nat, k: nat)
    requires k > 0 && n < Exp256(k)
    ensures n == n % 256 + 256 * (n / 256) && n / 256 < Exp256(k - 1)
  {
  }

  /** Feeding the bytes of a number is adding the number and dividing once per bit. */
  lemma {:induction false} FeedNumber(c: u64, n: nat, k: nat)
    requires n < Exp256(k) && n < TWO_64
    ensures FeedAll(c, Le(n, k)) == Shifts(XorReg(c, n), 8 * k)
    decreases k
  {
    if k == 0 {
      assert Exp256(0) == 1;
      XorComm(c, 0);
    } else {
      var l, h := n % 256, n / 256;
      Halve(n, k);
      FeedLow(c, l, h);
      FeedNumber(Feed(c, l), h, k - 1);
      ShiftsAdd(XorReg(c, n), 8, 8 * (k - 1));
      assert Le(n, k)[1..] == Le(h, k - 1) && Le(n, k)[0] == l;
    }
  }

  // ---- a sealed file --------------------------------------------------------------------

  lemma {:induction false} XorComplement(a: nat, n: nat)
    requires a < Exp2(n)
    ensures Xor(a, Exp2(n) - 1 - a) == Exp2(n) - 1
  {
    if n > 0 {
      XorComplement(a / 2, n - 1);
      var b := Exp2(n) - 1 - a;
      assert b / 2 == Exp2(n - 1) - 1 - a / 2 && (a % 2 != b % 2);
    } else {
      assert Exp2(0) == 1;
    }
  }

  /** The register after a body and its checksum does not depend on the body. */
  lemma {:induction false} SealedRegister(body: bytes)
    ensures FeedAll(Not(0), body + Le(Crc(body), 8)) == Shifts(TWO_64 - 1, 64)
  {
    hide FeedAll, Shifts, Le, Exp256;
    var r := FeedAll(Not(0), body);
    assert Crc(body) == Not(r);
    FeedSplits(Not(0), body, Le(Crc(body), 8));
    Powers();
    FeedNumber(r, Not(r), 8);
    Exponents();
    XorComplement(r, 64);
  }

  lemma {:induction false} LeOfFromLe(s: bytes)
    ensures Le(FromLe(s), |s|) == s
  {
    if s != [] {
      LeOfFromLe(s[1..]);
      assert FromLe(s) % 256 == s[0] && FromLe(s) / 256 == FromLe(s[1..]);
      assert s == [s[0]] + s[1..];
    }
  }

  /** A file accepted to its last byte is a body followed by the body's checksum. */
  lemma {:induction false} AcceptedIsSealed(f: bytes, st: Store)
    requires Load(f, st).status.Fine? && Load(f, st).pos == |f|
    ensures Crc(f) == Not(Shifts(TWO_64 - 1, 64))
  {
    hide Load, FeedAll, Shifts, Le, FromLe;
    LoadChecksSum(f, st);
    var body, sum := f[..|f| - 8], f[|f| - 8..|f|];
    LeOfFromLe(sum);
    SealedRegister(body);
    assert f == body + sum;
  }

  /** Two files of one length, both accepted to their last byte, that differ only within eight consecutive
      bytes, wherever these lie and even if they touch the stored sum, do not differ. */
  lemma {:induction false} DamageDetected(head: bytes, a: bytes, b: bytes, tail: bytes, st: Store)
    requires |a| == |b| <= 8
    requires var f := head + a + tail; Load(f, st).status.Fine? && Load(f, st).pos == |f|
    requires var g := head + b + tail; Load(g, st).status.Fine? && Load(g, st).pos == |g|
    ensures a == b
  {
    hide Load, Crc, Shifts;
    AcceptedIsSealed(head + a + tail, st);
    AcceptedIsSealed(head + b + tail, st);
    if a != b { WindowDetected(head, a, b, tail); }
  }

  /** A saved file in which some of any eight consecutive bytes were changed is rejected, or at least not
      read to its end. */
  lemma {:induction false} SavedFileDamaged(dbId: nat, rs: seq<Record>, head: bytes, a: bytes, b: bytes,
                                            tail: bytes, st: Store)
    requires dbId < LIMIT32 && forall i | 0 <= i < |rs| :: Writable(rs[i])
    requires File(dbId, rs) == head + a + tail && |a| == |b| <= 8 && a != b
    ensures var r := Load(head + b + tail, st); !r.status.Fine? || r.pos < |head + b + tail|
  {
    hide Load, File, Writable, InsertAll;
    var f := head + a + tail;
    assert Holds(f, 0, f);
    FileLoads(f, dbId, rs, st);
    var r := Load(head + b + tail, st);
    if r.status.Fine? && r.pos == |head + b + tail| { DamageDetected(head, a, b, tail, st); }
  }
}
