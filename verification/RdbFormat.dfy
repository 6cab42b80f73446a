/** Numbers and strings of the snapshot format, as written and as read. */
module RdbFormat {
  import opened Common
  import RespCodec

  /** The lowest `k` bytes of a number, least significant first. */
  function Le(n: nat, k: nat): (s: bytes)
    ensures |s| == k
  {
    if k == 0 then [] else [n % 256] + Le(n / 256, k - 1)
  }

  function FromLe(s: bytes): nat {
    if s == [] then 0 else s[0] + 256 * FromLe(s[1..])
  }

  lemma {:induction false} LeRoundTrip(n: nat, k: nat)
    requires n < Exp256(k)
    ensures FromLe(Le(n, k)) == n
    decreases k
  {
    if k > 0 {
      LeRoundTrip(n / 256, k - 1);
      assert Le(n, k)[1..] == Le(n / 256, k - 1);
    }
  }

  lemma {:induction false} Powers()
    ensures Exp256(1) == 256 && Exp256(2) == 0x1_0000 && Exp256(4) == 0x1_0000_0000 && Exp256(8) == TWO_64
  {
    assert Exp256(1) == 256 * Exp256(0);
    assert Exp256(2) == 256 * Exp256(1);
    assert Exp256(3) == 256 * Exp256(2);
    assert Exp256(4) == 256 * Exp256(3);
    assert Exp256(5) == 256 * Exp256(4);
    assert Exp256(6) == 256 * Exp256(5);
    assert Exp256(7) == 256 * Exp256(6);
    assert Exp256(8) == 256 * Exp256(7);
  }

  /** A signed 64-bit number as its bit pattern. */
  function Unsigned(v: i64): nat {
    if v < 0 then v + TWO_64 else v
  }

  lemma {:induction false} SignedRoundTrip(v: i64)
    ensures RespCodec.Cast(FromLe(Le(Unsigned(v), 8))) == v
  {
    Powers();
    LeRoundTrip(Unsigned(v), 8);
  }

  /** Numbers go out with the least significant byte first. */
  lemma {:induction false} NumberForm(n: nat)
    ensures Le(n, 2) == [n % 256, n / 256 % 256]
    ensures Le(n, 4) == [n % 256, n / 256 % 256, n / 0x1_0000 % 256, n / 0x100_0000 % 256]
    ensures Le(n, 8) == Le(n, 4) + Le(n / 0x1_0000_0000, 4)
  {
    var a, b, c := n / 256, n / 0x1_0000, n / 0x100_0000;
    assert a / 256 == b && b / 256 == c && c / 256 == n / 0x1_0000_0000;
    assert Le(c, 1) == [c % 256] + Le(c / 256, 0) && Le(b, 2) == [b % 256] + Le(c, 1);
    assert Le(a, 3) == [a % 256] + Le(b, 2) && Le(n, 4) == [n % 256] + Le(a, 3);
    assert Le(a, 1) == [a % 256] + Le(b, 0);
    assert Le(c, 5) == [c % 256] + Le(n / 0x1_0000_0000, 4) && Le(b, 6) == [b % 256] + Le(c, 5);
    assert Le(a, 7) == [a % 256] + Le(b, 6);
  }

  // ---- strings --------------------------------------------------------------------------

  const LIMIT32: int := 0x1_0000_0000

  /** One byte below 64, two bytes below 16384, otherwise a marker and the length modulo 2^32. */
  function LengthPrefix(n: nat): bytes {
    if n < 64 then [n]
    else if n < 16384 then [0x80 + n / 256, n % 256]
    else [0xC0] + Le(n % LIMIT32, 4)
  }

  function StringBytes(s: bytes): bytes {
    LengthPrefix(|s|) + s
  }

  datatype Status = Fine | IoError | ProtoError

  /** A read that may fail; `pos` is the position behind what was read. */
  datatype Read<+T> = Got(value: T, pos: nat) | Bad(status: Status)

  function ReadBytes(f: bytes, pos: nat, n: nat): Read<bytes> {
    if pos + n <= |f| then Got(f[pos..pos + n], pos + n) else Bad(IoError)
  }

  function ReadNumber(f: bytes, pos: nat, k: nat): Read<nat> {
    match ReadBytes(f, pos, k)
    case Got(s, p) => Got(FromLe(s), p)
    case Bad(e) => Bad(e)
  }

  /** The length in front of a string; the two top bits of the first byte tell its form. */
  function ReadLength(f: bytes, pos: nat): Read<nat> {
    match ReadNumber(f, pos, 1)
    case Bad(e) => Bad(e)
    case Got(first, p) =>
      if first < 64 then Got(first, p)
      else if 128 <= first < 192 then
        match ReadNumber(f, p, 1)
        case Bad(e) => Bad(e)
        case Got(second, q) => Got((first - 128) * 256 + second, q)
      else if first >= 192 then ReadNumber(f, p, 4)
      else Bad(ProtoError)
  }

  function ReadString(f: bytes, pos: nat): Read<bytes> {
    match ReadLength(f, pos)
    case Got(n, p) => ReadBytes(f, p, n)
    case Bad(e) => Bad(e)
  }

  // ---- what is read back ----------------------------------------------------------------

  lemma {:induction false} NumberFound(f: bytes, at: nat, n: nat, k: nat)
    requires Holds(f, at, Le(n, k)) && n < Exp256(k)
    ensures ReadNumber(f, at, k) == Got(n, at + k)
  {
    LeRoundTrip(n, k);
  }

  lemma {:induction false} ByteFound(f: bytes, at: nat, b: byte)
    requires Holds(f, at, [b])
    ensures ReadNumber(f, at, 1) == Got(b, at + 1)
  {
    Powers();
    assert Le(b, 1) == [b];
    NumberFound(f, at, b, 1);
  }

  lemma {:induction false} LengthFound(f: bytes, at: nat, n: nat)
    requires Holds(f, at, LengthPrefix(n))
    ensures ReadLength(f, at) == Got(if n < 16384 then n else n % LIMIT32, at + |LengthPrefix(n)|)
  {
    if n < 64 {
      ByteFound(f, at, n);
    } else if n < 16384 {
      assert LengthPrefix(n) == [0x80 + n / 256] + [n % 256];
      HoldsSplit(f, at, [0x80 + n / 256], [n % 256]);
      ByteFound(f, at, 0x80 + n / 256);
      ByteFound(f, at + 1, n % 256);
    } else {
      HoldsSplit(f, at, [0xC0], Le(n % LIMIT32, 4));
      ByteFound(f, at, 0xC0);
      Powers();
      NumberFound(f, at + 1, n % LIMIT32, 4);
    }
  }

  /** A string is read back exactly when its length fits the 32-bit length field. */
  lemma {:induction false} StringFound(f: bytes, at: nat, s: bytes)
    requires Holds(f, at, StringBytes(s))
    ensures ReadString(f, at) == Got(s, at + |StringBytes(s)|) <==> |s| < LIMIT32
  {
    hide LengthPrefix, ReadLength;
    HoldsSplit(f, at, LengthPrefix(|s|), s);
    LengthFound(f, at, |s|);
    var p := at + |LengthPrefix(|s|)|;
    if |s| >= LIMIT32 {
      assert |s| % LIMIT32 < |s|;
      assert |f[p..p + |s| % LIMIT32]| < |s|;
    }
  }

  /** A string of 2^32 bytes is read back as the empty string. */
  lemma {:induction false} LengthLost(s: bytes)
    requires |s| == LIMIT32
    ensures ReadString(StringBytes(s), 0) == Got([], 5)
  {
    hide LengthPrefix, ReadLength;
    var f := StringBytes(s);
    assert Holds(f, 0, f);
    HoldsSplit(f, 0, LengthPrefix(|s|), s);
    LengthFound(f, 0, |s|);
    LongPrefix(|s|);
    assert f[5..5] == [];
  }

  lemma {:induction false} LongPrefix(n: nat)
    requires n >= 16384
    ensures |LengthPrefix(n)| == 5
  {
  }

  lemma {:induction false} FromLeBound(s: bytes)
    ensures FromLe(s) < Exp256(|s|)
  {
    if s != [] { FromLeBound(s[1..]); }
  }

  /** No string that is read, from whatever file, has 2^32 bytes or more. */
  lemma {:induction false} ReadShort(f: bytes, pos: nat)
    ensures var r := ReadString(f, pos); r.Got? ==> |r.value| < LIMIT32
  {
    hide FromLe, Exp256;
    Powers();
    if pos + 1 <= |f| { FromLeBound(f[pos..pos + 1]); }
    if pos + 2 <= |f| { FromLeBound(f[pos + 1..pos + 2]); }
    if pos + 5 <= |f| { FromLeBound(f[pos + 1..pos + 5]); }
  }

  // ---- reading depends only on the bytes read --------------------------------------------

  /** The two files agree on their first `n` bytes. */
  predicate SameHead(f: bytes, g: bytes, n: nat) {
    n <= |f| && n <= |g| && f[..n] == g[..n]
  }

  lemma {:induction false} BytesLocal(f: bytes, g: bytes, pos: nat, k: nat, n: nat)
    requires SameHead(f, g, n) && pos + k <= n
    ensures ReadBytes(g, pos, k) == ReadBytes(f, pos, k) == Got(f[pos..pos + k], pos + k)
    ensures ReadNumber(g, pos, k) == ReadNumber(f, pos, k)
  {
    assert f[pos..pos + k] == f[..n][pos..pos + k] && g[pos..pos + k] == g[..n][pos..pos + k];
  }

  lemma {:induction false} LengthLocal(f: bytes, g: bytes, pos: nat, n: nat)
    requires SameHead(f, g, n) && ReadLength(f, pos).Got? && ReadLength(f, pos).pos <= n
    ensures ReadLength(g, pos) == ReadLength(f, pos)
  {
    hide FromLe;
    BytesLocal(f, g, pos, 1, n);
    var first := ReadNumber(f, pos, 1).value;
    if 128 <= first < 192 { BytesLocal(f, g, pos + 1, 1, n); }
    if first >= 192 { BytesLocal(f, g, pos + 1, 4, n); }
  }

  lemma {:induction false} StringLocal(f: bytes, g: bytes, pos: nat, n: nat)
    requires SameHead(f, g, n) && ReadString(f, pos).Got? && ReadString(f, pos).pos <= n
    ensures ReadString(g, pos) == ReadString(f, pos)
  {
    hide FromLe;
    LengthLocal(f, g, pos, n);
    BytesLocal(f, g, ReadLength(f, pos).pos, ReadLength(f, pos).value, n);
  }
}
