/** Types shared by every component: bytes, fixed-width integers and optional results. */
module Common {
  type byte = b: int | 0 <= b < 256
  type bytes = seq<byte>
  type Key = bytes

  const TWO_64: int := 0x1_0000_0000_0000_0000
  const I64_MAX: int := 0x7fff_ffff_ffff_ffff
  const I64_MIN: int := -0x8000_0000_0000_0000

  type u64 = n: int | 0 <= n < 0x1_0000_0000_0000_0000
  type i64 = n: int | -0x8000_0000_0000_0000 <= n <= 0x7fff_ffff_ffff_ffff

  datatype Option<+T> = None | Some(value: T)

  function Exp256(n: nat): nat {
    if n == 0 then 1 else 256 * Exp256(n - 1)
  }

  /** `s` holds `part` at position `at`. */
  predicate Holds(s: bytes, at: nat, part: bytes) {
    at + |part| <= |s| && s[at..at + |part|] == part
  }

  lemma {:induction false} HoldsSplit(s: bytes, at: nat, a: bytes, b: bytes)
    requires Holds(s, at, a + b)
    ensures Holds(s, at, a) && Holds(s, at + |a|, b)
  {
    var part := s[at..at + |a + b|];
    assert s[at..at + |a|] == part[..|a|] && s[at + |a|..at + |a| + |b|] == part[|a|..];
  }

  lemma {:induction false} HoldsAt(s: bytes, at: nat, part: bytes, i: nat)
    requires Holds(s, at, part) && i < |part|
    ensures s[at + i] == part[i]
  {
    assert s[at + i] == s[at..at + |part|][i];
  }
}
