/**
 One bucket table of the dictionary (`DictHashTable`), as a value, and the effect of every
 elementary change on the table's meaning `Get`, a partial function from keys to values.
 The hash function `H` is arbitrary throughout.
 */
module DictTable {
  import opened Common
  import opened Pow2

  type HashFn = Key -> u64

  /** `DictEntry`: the key's hash is cached in the entry. */
  datatype Entry<V> = Entry(key: Key, value: V, hash: u64)
  type Chain<V> = seq<Entry<V>>

  /** The null table is the one without buckets. `used` is the program's own counter. */
  datatype Table<V> = Table(buckets: seq<Chain<V>>, used: int)

  function NullTable<V>(): Table<V> {
    Table([], 0)
  }

  function Allocate<V>(n: nat): (t: Table<V>) {
    Table(seq(n, _ => []), 0)
  }

  /** `hash & sizemask`. */
  function Slot(h: nat, size: nat): (i: nat)
    requires size > 0
    ensures i < size
  {
    And(h, size - 1)
  }

  lemma {:induction false} SlotIsMod(h: nat, size: nat)
    requires IsPow2(size)
    ensures Slot(h, size) == h % size
  {
    MaskIsMod(h, size);
  }

  /** Position of the first entry of a chain with this key and hash. */
  function FindIn<V>(c: Chain<V>, k: Key, h: u64): (r: Option<nat>)
    ensures r.Some? ==> r.value < |c| && c[r.value].hash == h && c[r.value].key == k
    ensures r.None? ==> forall j | 0 <= j < |c| :: !(c[j].hash == h && c[j].key == k)
  {
    if c == [] then None
    else if c[0].hash == h && c[0].key == k then Some(0)
    else match FindIn(c[1..], k, h)
      case None => None
      case Some(i) => Some(i + 1)
  }

  /** `find_in`: where the entry sits in its bucket. */
  function Locate<V>(t: Table<V>, k: Key, h: u64): (r: Option<nat>)
    ensures r.Some? ==> |t.buckets| > 0 && r.value < |t.buckets[Slot(h, |t.buckets|)]|
  {
    if |t.buckets| == 0 || t.used == 0 then None
    else FindIn(t.buckets[Slot(h, |t.buckets|)], k, h)
  }

  /** The meaning of a table. */
  function Get<V>(H: HashFn, t: Table<V>, k: Key): Option<V> {
    match Locate(t, k, H(k))
    case None => None
    case Some(j) => Some(t.buckets[Slot(H(k), |t.buckets|)][j].value)
  }

  function Total<V>(b: seq<Chain<V>>): nat {
    if b == [] then 0 else |b[0]| + Total(b[1..])
  }

  ghost predicate ChainOk<V>(H: HashFn, c: Chain<V>, i: nat, n: nat)
    requires n > 0
  {
    && (forall j | 0 <= j < |c| :: c[j].hash == H(c[j].key) && Slot(c[j].hash, n) == i)
    && (forall j, k | 0 <= j < k < |c| :: c[j].key != c[k].key)
  }

  /** Every entry sits in its own bucket, no key occurs twice, sizes are powers of two. */
  ghost predicate TableOk<V>(H: HashFn, t: Table<V>) {
    && IsPow2(|t.buckets|)
    && t.used == Total(t.buckets)
    && forall i | 0 <= i < |t.buckets| :: ChainOk(H, t.buckets[i], i, |t.buckets|)
  }

  // ---- elementary changes ---------------------------------------------------------------

  function Prepend<V>(t: Table<V>, e: Entry<V>): Table<V>
    requires |t.buckets| > 0
  {
    var i := Slot(e.hash, |t.buckets|);
    Table(t.buckets[i := [e] + t.buckets[i]], t.used + 1)
  }

  function Overwrite<V>(t: Table<V>, k: Key, h: u64, v: V): Table<V>
    requires Locate(t, k, h).Some?
  {
    var i := Slot(h, |t.buckets|);
    var c := t.buckets[i];
    var j := Locate(t, k, h).value;
    t.(buckets := t.buckets[i := c[j := c[j].(value := v)]])
  }

  function Unlink<V>(t: Table<V>, k: Key, h: u64): Table<V>
    requires Locate(t, k, h).Some?
  {
    var i := Slot(h, |t.buckets|);
    var c := t.buckets[i];
    var j := Locate(t, k, h).value;
    Table(t.buckets[i := c[..j] + c[j + 1..]], t.used - 1)
  }

  /** Removes the first entry of bucket `i`. */
  function DropHead<V>(t: Table<V>, i: nat): Table<V>
    requires i < |t.buckets| && t.buckets[i] != []
  {
    Table(t.buckets[i := t.buckets[i][1..]], t.used - 1)
  }

  // ---- facts about totals ---------------------------------------------------------------

  lemma {:induction false} TotalUpdate<V>(b: seq<Chain<V>>, i: nat, c: Chain<V>)
    requires i < |b|
    ensures Total(b[i := c]) == Total(b) - |b[i]| + |c|
  {
    if i == 0 {
      assert b[i := c][1..] == b[1..];
    } else {
      assert b[i := c][1..] == b[1..][i - 1 := c];
      TotalUpdate(b[1..], i - 1, c);
    }
  }

  lemma {:induction false} TotalZero<V>(b: seq<Chain<V>>)
    ensures Total(b) == 0 <==> forall i | 0 <= i < |b| :: b[i] == []
  {
    if b != [] {
      TotalZero(b[1..]);
      assert forall i | 0 <= i < |b| :: b[i] == if i == 0 then b[0] else b[1..][i - 1];
      if forall i | 0 <= i < |b| :: b[i] == [] {
        assert forall i | 0 <= i < |b[1..]| :: b[1..][i] == b[i + 1];
      }
    }
  }

  // ---- the meaning of a well-formed table -----------------------------------------------

  /** The meaning of one chain. */
  function ChainGet<V>(c: Chain<V>, k: Key): Option<V> {
    if c == [] then None
    else if c[0].key == k then Some(c[0].value)
    else ChainGet(c[1..], k)
  }

  lemma {:induction false} ChainGetIsFind<V>(H: HashFn, c: Chain<V>, k: Key)
    requires forall j | 0 <= j < |c| :: c[j].hash == H(c[j].key)
    ensures match FindIn(c, k, H(k))
            case None => ChainGet(c, k).None?
            case Some(j) => ChainGet(c, k) == Some(c[j].value)
  {
    if c != [] { ChainGetIsFind(H, c[1..], k); }
  }

  lemma {:induction false} GetIsChainGet<V>(H: HashFn, t: Table<V>, k: Key)
    requires TableOk(H, t)
    ensures Get(H, t, k) == ChainGet(t.buckets[Slot(H(k), |t.buckets|)], k)
  {
    TotalZero(t.buckets);
    var i := Slot(H(k), |t.buckets|);
    assert ChainOk(H, t.buckets[i], i, |t.buckets|);
    ChainGetIsFind(H, t.buckets[i], k);
  }

  lemma {:induction false} ChainGetAbsent<V>(c: Chain<V>, k: Key)
    ensures ChainGet(c, k).None? <==> forall j | 0 <= j < |c| :: c[j].key != k
  {
    if c != [] {
      ChainGetAbsent(c[1..], k);
      assert forall j | 0 < j < |c| :: c[j] == c[1..][j - 1];
      if forall j | 0 <= j < |c| :: c[j].key != k {
        assert forall j | 0 <= j < |c[1..]| :: c[1..][j] == c[j + 1];
      }
    }
  }

  lemma {:induction false} ChainGetAt<V>(c: Chain<V>, j: nat)
    requires j < |c| && forall i | 0 <= i < j :: c[i].key != c[j].key
    ensures ChainGet(c, c[j].key) == Some(c[j].value)
  {
    if j > 0 { ChainGetAt(c[1..], j - 1); }
  }

  /** A chain that differs from `c` at key `x` only, entry by entry. */
  lemma {:induction false} ChainGetUpdate<V>(c: Chain<V>, j: nat, v: V, k: Key)
    requires j < |c| && forall i | 0 <= i < j :: c[i].key != c[j].key
    ensures ChainGet(c[j := c[j].(value := v)], k) == if k == c[j].key then Some(v) else ChainGet(c, k)
  {
    if j > 0 {
      assert c[j := c[j].(value := v)][1..] == c[1..][j - 1 := c[j].(value := v)];
      ChainGetUpdate(c[1..], j - 1, v, k);
    } else {
      assert c[j := c[j].(value := v)][1..] == c[1..];
    }
  }

  lemma {:induction false} ChainGetCut<V>(c: Chain<V>, j: nat, k: Key)
    requires j < |c| && forall i | 0 <= i < |c| && i != j :: c[i].key != c[j].key
    ensures ChainGet(c[..j] + c[j + 1..], k) == if k == c[j].key then None else ChainGet(c, k)
  {
    if j > 0 {
      assert (c[..j] + c[j + 1..])[1..] == c[1..][..j - 1] + c[1..][j..];
      ChainGetCut(c[1..], j - 1, k);
    } else {
      assert c[..0] + c[1..] == c[1..];
      ChainGetAbsent(c[1..], c[0].key);
    }
  }

  lemma {:induction false} EmptyTable<V>(H: HashFn, n: nat)
    requires IsPow2(n)
    ensures TableOk(H, Allocate<V>(n))
    ensures forall k :: Get(H, Allocate<V>(n), k).None?
  {
    TotalZero(Allocate<V>(n).buckets);
  }

  /** Replacing bucket `i` by `c` changes the meaning of the keys of that bucket only. */
  lemma {:induction false} BucketChange<V>(H: HashFn, t: Table<V>, t': Table<V>, i: nat, c: Chain<V>)
    requires TableOk(H, t) && i < |t.buckets|
    requires ChainOk(H, c, i, |t.buckets|)
    requires t' == Table(t.buckets[i := c], t.used - |t.buckets[i]| + |c|)
    ensures TableOk(H, t')
    ensures forall k :: Get(H, t', k) == if Slot(H(k), |t.buckets|) == i then ChainGet(c, k) else Get(H, t, k)
    ensures forall k | Slot(H(k), |t.buckets|) == i :: Get(H, t, k) == ChainGet(t.buckets[i], k)
  {
    TotalUpdate(t.buckets, i, c);
    forall k
      ensures Get(H, t', k) == if Slot(H(k), |t.buckets|) == i then ChainGet(c, k) else Get(H, t, k)
      ensures Slot(H(k), |t.buckets|) == i ==> Get(H, t, k) == ChainGet(t.buckets[i], k)
    {
      GetIsChainGet(H, t', k);
      GetIsChainGet(H, t, k);
    }
  }

  lemma {:induction false} PrependOk<V>(H: HashFn, t: Table<V>, e: Entry<V>)
    requires TableOk(H, t) && e.hash == H(e.key) && Get(H, t, e.key).None?
    ensures TableOk(H, Prepend(t, e))
    ensures forall k :: Get(H, Prepend(t, e), k) == if k == e.key then Some(e.value) else Get(H, t, k)
  {
    var i := Slot(e.hash, |t.buckets|);
    var c := t.buckets[i];
    assert ChainOk(H, c, i, |t.buckets|);
    GetIsChainGet(H, t, e.key);
    ChainGetAbsent(c, e.key);
    assert ([e] + c)[1..] == c;
    BucketChange(H, t, Prepend(t, e), i, [e] + c);
  }

  lemma {:induction false} OverwriteOk<V>(H: HashFn, t: Table<V>, x: Key, v: V)
    requires TableOk(H, t) && Locate(t, x, H(x)).Some?
    ensures TableOk(H, Overwrite(t, x, H(x), v))
    ensures forall k :: Get(H, Overwrite(t, x, H(x), v), k) == if k == x then Some(v) else Get(H, t, k)
    ensures Overwrite(t, x, H(x), v).used == t.used
  {
    var i := Slot(H(x), |t.buckets|);
    var c := t.buckets[i];
    var j := Locate(t, x, H(x)).value;
    assert ChainOk(H, c, i, |t.buckets|);
    BucketChange(H, t, Overwrite(t, x, H(x), v), i, c[j := c[j].(value := v)]);
    forall k ensures ChainGet(c[j := c[j].(value := v)], k) == if k == x then Some(v) else ChainGet(c, k) {
      ChainGetUpdate(c, j, v, k);
    }
  }

  lemma {:induction false} UnlinkOk<V>(H: HashFn, t: Table<V>, x: Key)
    requires TableOk(H, t) && Locate(t, x, H(x)).Some?
    ensures TableOk(H, Unlink(t, x, H(x)))
    ensures forall k :: Get(H, Unlink(t, x, H(x)), k) == if k == x then None else Get(H, t, k)
  {
    var i := Slot(H(x), |t.buckets|);
    var c := t.buckets[i];
    var j := Locate(t, x, H(x)).value;
    assert ChainOk(H, c, i, |t.buckets|);
    CutChain(H, t, i, j);
  }

  lemma {:induction false} DropHeadOk<V>(H: HashFn, t: Table<V>, i: nat)
    requires TableOk(H, t) && i < |t.buckets| && t.buckets[i] != []
    ensures TableOk(H, DropHead(t, i))
    ensures forall k :: Get(H, DropHead(t, i), k) == if k == t.buckets[i][0].key then None else Get(H, t, k)
    ensures Get(H, t, t.buckets[i][0].key) == Some(t.buckets[i][0].value)
  {
    var c := t.buckets[i];
    assert ChainOk(H, c, i, |t.buckets|);
    assert c[..0] + c[1..] == c[1..];
    CutChain(H, t, i, 0);
    GetIsChainGet(H, t, c[0].key);
  }

  lemma {:induction false} CutChain<V>(H: HashFn, t: Table<V>, i: nat, j: nat)
    requires TableOk(H, t) && i < |t.buckets| && j < |t.buckets[i]|
    ensures var c := t.buckets[i];
            var t' := Table(t.buckets[i := c[..j] + c[j + 1..]], t.used - 1);
            TableOk(H, t') && forall k :: Get(H, t', k) == if k == c[j].key then None else Get(H, t, k)
  {
    var c := t.buckets[i];
    var cut := c[..j] + c[j + 1..];
    assert ChainOk(H, c, i, |t.buckets|);
    assert ChainOk(H, cut, i, |t.buckets|) by {
      assert forall l | 0 <= l < |cut| :: cut[l] == c[if l < j then l else l + 1];
    }
    BucketChange(H, t, Table(t.buckets[i := cut], t.used - 1), i, cut);
    forall k ensures ChainGet(cut, k) == if k == c[j].key then None else ChainGet(c, k) {
      ChainGetCut(c, j, k);
    }
  }
}
