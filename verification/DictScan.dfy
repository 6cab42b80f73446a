/** Enumerating a dictionary: `for_each`, `size` and `random_sample`. */
module DictScan {
  import opened Common
  import opened Pow2
  import opened DictTable
  import opened DictSpec
  import opened DictMap

  /** The entries bucket by bucket, each chain from its head. */
  function Flat<V>(b: seq<Chain<V>>): Chain<V> {
    if b == [] then [] else b[0] + Flat(b[1..])
  }

  /** What `for_each` visits, in order. */
  function Entries<V>(st: DictState<V>): Chain<V> {
    Flat(st.t0.buckets) + (if st.Rehashing() then Flat(st.t1.buckets) else [])
  }

  ghost predicate NoDup<V>(c: Chain<V>) {
    forall i, j | 0 <= i < j < |c| :: c[i].key != c[j].key
  }

  /** Chains without duplicates, and no key in two chains. */
  ghost predicate Separate<V>(b: seq<Chain<V>>) {
    && (forall i | 0 <= i < |b| :: NoDup(b[i]))
    && (forall i, j, x, y | 0 <= i < j < |b| && 0 <= x < |b[i]| && 0 <= y < |b[j]| :: b[i][x].key != b[j][y].key)
  }

  lemma {:induction false} FlatMember<V>(b: seq<Chain<V>>, e: Entry<V>)
    ensures e in Flat(b) <==> exists i | 0 <= i < |b| :: e in b[i]
  {
    if b != [] {
      FlatMember(b[1..], e);
      assert forall i | 0 <= i < |b[1..]| :: b[1..][i] == b[i + 1];
      if e in Flat(b[1..]) {
        var i :| 0 <= i < |b[1..]| && e in b[1..][i];
        assert e in b[i + 1];
      }
      if i :| 1 <= i < |b| && e in b[i] {
        assert e in b[1..][i - 1];
      }
    }
  }

  lemma {:induction false} FlatNoDup<V>(b: seq<Chain<V>>)
    requires Separate(b)
    ensures NoDup(Flat(b)) && |Flat(b)| == Total(b)
  {
    if b != [] {
      var rest := b[1..];
      assert forall i | 0 <= i < |rest| :: rest[i] == b[i + 1];
      FlatNoDup(rest);
      forall x, y | 0 <= x < |b[0]| && 0 <= y < |Flat(rest)|
        ensures b[0][x].key != Flat(rest)[y].key
      {
        FlatMember(rest, Flat(rest)[y]);
        var i :| 0 <= i < |rest| && Flat(rest)[y] in rest[i];
        var z :| 0 <= z < |rest[i]| && rest[i][z] == Flat(rest)[y];
        assert b[i + 1][z].key != b[0][x].key;
      }
    }
  }

  lemma {:induction false} TableSeparate<V>(H: HashFn, t: Table<V>)
    requires TableOk(H, t)
    ensures Separate(t.buckets)
  {
    forall i | 0 <= i < |t.buckets| ensures NoDup(t.buckets[i]) {
      assert ChainOk(H, t.buckets[i], i, |t.buckets|);
    }
    forall i, j, x, y | 0 <= i < j < |t.buckets| && 0 <= x < |t.buckets[i]| && 0 <= y < |t.buckets[j]|
      ensures t.buckets[i][x].key != t.buckets[j][y].key
    {
      assert ChainOk(H, t.buckets[i], i, |t.buckets|) && ChainOk(H, t.buckets[j], j, |t.buckets|);
    }
  }

  /** The entries of a table are its meaning. */
  lemma {:induction false} TableEntries<V>(H: HashFn, t: Table<V>)
    requires TableOk(H, t)
    ensures NoDup(Flat(t.buckets)) && |Flat(t.buckets)| == t.used
    ensures forall e | e in Flat(t.buckets) :: Get(H, t, e.key) == Some(e.value)
    ensures forall k | Get(H, t, k).Some? :: exists e | e in Flat(t.buckets) :: e.key == k
  {
    TableSeparate(H, t);
    FlatNoDup(t.buckets);
    forall e | e in Flat(t.buckets) ensures Get(H, t, e.key) == Some(e.value) {
      FlatMember(t.buckets, e);
      var i :| 0 <= i < |t.buckets| && e in t.buckets[i];
      assert ChainOk(H, t.buckets[i], i, |t.buckets|);
      var j :| 0 <= j < |t.buckets[i]| && t.buckets[i][j] == e;
      GetIsChainGet(H, t, e.key);
      ChainGetAt(t.buckets[i], j);
    }
    forall k | Get(H, t, k).Some? ensures exists e | e in Flat(t.buckets) :: e.key == k {
      var i := Slot(H(k), |t.buckets|);
      var e := t.buckets[i][Locate(t, k, H(k)).value];
      FlatMember(t.buckets, e);
      assert e in t.buckets[i];
    }
  }

  /** A sequence of entries that lists a map: every key once, with its value. */
  ghost predicate Lists<V>(c: Chain<V>, m: map<Key, V>) {
    && NoDup(c)
    && (forall e | e in c :: e.key in m && m[e.key] == e.value)
    && (forall k | k in m :: exists e | e in c :: e.key == k)
  }

  lemma {:induction false} NoDupCount<V>(c: Chain<V>)
    requires NoDup(c)
    ensures |set e | e in c :: e.key| == |c|
  {
    if c != [] {
      var c', k := c[1..], c[0].key;
      NoDupCount(c');
      assert forall i | 0 < i < |c| :: c[i] == c'[i - 1];
      assert (set e | e in c :: e.key) == (set e | e in c' :: e.key) + {k};
    }
  }

  lemma {:induction false} ListsCount<V>(c: Chain<V>, m: map<Key, V>)
    requires Lists(c, m)
    ensures |c| == |m|
  {
    NoDupCount(c);
    assert (set e | e in c :: e.key) == m.Keys;
    assert |m.Keys| == |m|;
  }

  /** `for_each` visits each key of the map exactly once, also in the middle of a migration,
      and the counters add up to the number of keys. */
  lemma {:induction false} ForEachListsContents<V>(H: HashFn, st: DictState<V>)
    requires Ok(H, st)
    ensures Lists(Entries(st), Contents(H, st))
    ensures |Entries(st)| == st.Used() == |Contents(H, st)|
  {
    var m := Contents(H, st);
    TableEntries(H, st.t0);
    if st.Rehashing() { TableEntries(H, st.t1); }
    forall e | e in Entries(st) ensures e.key in m && m[e.key] == e.value {
      ContentsIsLookup(H, st, e.key);
    }
    forall k | k in m ensures exists e | e in Entries(st) :: e.key == k {
      ContentsIsLookup(H, st, k);
    }
    forall i, j | 0 <= i < j < |Entries(st)| ensures Entries(st)[i].key != Entries(st)[j].key {
      var n := |Flat(st.t0.buckets)|;
      if i < n <= j {
        assert Entries(st)[i] in Flat(st.t0.buckets) && Entries(st)[j] in Flat(st.t1.buckets);
      }
    }
    ListsCount(Entries(st), m);
  }

  // ---- random_sample --------------------------------------------------------------------

  function Take<V>(c: Chain<V>, n: nat): Chain<V> {
    if n < |c| then c[..n] else c
  }

  /** One pass over the buckets from `idx` on, wrapping with the mask, until `count` entries are out. */
  function SampleFrom<V>(t: Table<V>, idx: nat, checked: nat, count: nat, out: Chain<V>): Chain<V>
    requires idx < |t.buckets|
    decreases |t.buckets| - checked
  {
    if |out| >= count || checked >= |t.buckets| then out
    else
      var out' := out + Take(t.buckets[idx], count - |out|);
      SampleFrom(t, Slot(idx + 1, |t.buckets|), checked + 1, count, out')
  }

  /** `random_sample`: `second` and `draw` stand for the two random numbers. */
  function Sample<V>(st: DictState<V>, count: nat, second: bool, draw: nat): Chain<V> {
    if st.Used() <= 0 then []
    else
      var n := if count > st.Used() then st.Used() else count;
      var t := if st.Rehashing() && second && |st.t1.buckets| > 0 && st.t1.used > 0 then st.t1 else st.t0;
      if |t.buckets| == 0 || t.used == 0 then []
      else SampleFrom(t, Slot(draw, |t.buckets|), 0, n, [])
  }

  function Rotate<V>(b: seq<Chain<V>>, i: nat): seq<Chain<V>>
    requires i < |b|
  {
    b[i..] + b[..i]
  }

  lemma {:induction false} RotateAt<V>(b: seq<Chain<V>>, i: nat, j: nat)
    requires i < |b| && j < |b|
    ensures Rotate(b, i)[j] == b[if i + j < |b| then i + j else i + j - |b|]
  {
  }

  lemma {:induction false} NextSlot(i: nat, n: nat)
    requires IsPow2(n) && i < n
    ensures Slot(i + 1, n) == if i + 1 == n then 0 else i + 1
  {
    SlotIsMod(i + 1, n);
    if i + 1 == n { DivModUnique(i + 1, n, 1, 0); } else { DivModUnique(i + 1, n, 0, i + 1); }
  }

  lemma {:induction false} RotateNext<V>(b: seq<Chain<V>>, i: nat, next: nat, m: nat)
    requires i < |b| && 0 < m <= |b| && next == if i + 1 == |b| then 0 else i + 1
    ensures Rotate(b, i)[..m] == [b[i]] + Rotate(b, next)[..m - 1]
  {
    var x, y := Rotate(b, i)[..m], [b[i]] + Rotate(b, next)[..m - 1];
    forall j | 0 <= j < m ensures x[j] == y[j] {
      RotateAt(b, i, j);
      if j > 0 { RotateAt(b, next, j - 1); }
    }
  }

  lemma {:induction false} FlatCons<V>(c: Chain<V>, rest: seq<Chain<V>>)
    ensures Flat([c] + rest) == c + Flat(rest)
  {
    assert ([c] + rest)[1..] == rest;
  }

  lemma {:induction false} TakeTwice<V>(a: Chain<V>, b: Chain<V>, c: Chain<V>, n: nat)
    requires |a| <= n
    ensures Take(a + (b + c), n) == Take((a + Take(b, n - |a|)) + c, n)
  {
    assert (a + b) + c == a + (b + c);
    if |a| + |b| > n {
      assert (a + (b + c))[..n] == a + b[..n - |a|] == ((a + b[..n - |a|]) + c)[..n];
    }
  }

  lemma {:induction false} TakeAll<V>(out: Chain<V>, rest: Chain<V>)
    ensures Take(out + rest, |out|) == out
  {
  }

  lemma {:induction false} FlatNone<V>(b: seq<Chain<V>>, out: Chain<V>)
    ensures Flat(b[..0]) == [] && out + Flat(b[..0]) == out
  {
  }

  /** The sample is the head of the table's entries listed from the random bucket on. */
  lemma {:induction false} SampleIsPrefix<V>(t: Table<V>, idx: nat, checked: nat, count: nat, out: Chain<V>)
    requires IsPow2(|t.buckets|) && idx < |t.buckets| && checked <= |t.buckets| && |out| <= count
    ensures SampleFrom(t, idx, checked, count, out)
         == Take(out + Flat(Rotate(t.buckets, idx)[..|t.buckets| - checked]), count)
    decreases |t.buckets| - checked
  {
    hide Rotate, Flat, IsPow2, Slot;
    var n := |t.buckets|;
    RotateSize(t.buckets, idx);
    if |out| == count {
      TakeAll(out, Flat(Rotate(t.buckets, idx)[..n - checked]));
    } else if checked == n {
      FlatNone(Rotate(t.buckets, idx), out);
    } else {
      var c := t.buckets[idx];
      var next := Slot(idx + 1, n);
      RotateSize(t.buckets, next);
      var rest := Rotate(t.buckets, next)[..n - checked - 1];
      NextSlot(idx, n);
      RotateNext(t.buckets, idx, next, n - checked);
      FlatCons(c, rest);
      SampleIsPrefix(t, next, checked + 1, count, out + Take(c, count - |out|));
      TakeTwice(out, c, Flat(rest), count);
    }
  }

  lemma {:induction false} RotateSize<V>(b: seq<Chain<V>>, i: nat)
    requires i < |b|
    ensures |Rotate(b, i)| == |b|
  {
  }

  lemma {:induction false} RotateSeparate<V>(b: seq<Chain<V>>, i: nat)
    requires Separate(b) && i < |b|
    ensures Separate(Rotate(b, i))
    ensures forall j | 0 <= j < |b| :: Rotate(b, i)[j] in b
  {
    forall j, l, x, y | 0 <= j < l < |b| && 0 <= x < |Rotate(b, i)[j]| && 0 <= y < |Rotate(b, i)[l]|
      ensures Rotate(b, i)[j][x].key != Rotate(b, i)[l][y].key
    {
      var j', l' := (if j < |b| - i then i + j else i + j - |b|), (if l < |b| - i then i + l else i + l - |b|);
      assert Rotate(b, i)[j] == b[j'] && Rotate(b, i)[l] == b[l'];
      if j' < l' { assert b[j'][x].key != b[l'][y].key; } else { assert b[l'][y].key != b[j'][x].key; }
    }
  }

  lemma {:induction false} RotatedEntries<V>(H: HashFn, t: Table<V>, idx: nat)
    requires TableOk(H, t) && idx < |t.buckets|
    ensures var all := Flat(Rotate(t.buckets, idx));
            && NoDup(all) && |all| == t.used
            && forall e | e in all :: Get(H, t, e.key) == Some(e.value)
  {
    var r := Rotate(t.buckets, idx);
    TableSeparate(H, t);
    RotateSeparate(t.buckets, idx);
    FlatNoDup(r);
    RotateTotal(t.buckets, idx);
    forall e | e in Flat(r) ensures Get(H, t, e.key) == Some(e.value) {
      FlatMember(r, e);
      FlatMember(t.buckets, e);
      TableEntries(H, t);
    }
  }

  lemma {:induction false} SampleFromOk<V>(H: HashFn, t: Table<V>, idx: nat, count: nat)
    requires TableOk(H, t) && idx < |t.buckets|
    ensures var s := SampleFrom(t, idx, 0, count, []);
            && NoDup(s)
            && |s| == (if t.used < count then t.used else count)
            && forall e | e in s :: Get(H, t, e.key) == Some(e.value)
  {
    hide Rotate, Flat, SampleFrom, Get, NoDup;
    var all := Flat(Rotate(t.buckets, idx));
    RotatedEntries(H, t, idx);
    SampleIsPrefix(t, idx, 0, count, []);
    RotateSize(t.buckets, idx);
    assert Rotate(t.buckets, idx)[..|t.buckets|] == Rotate(t.buckets, idx);
    assert [] + all == all;
    TakeKeeps(all, count);
  }

  lemma {:induction false} TakeKeeps<V>(c: Chain<V>, n: nat)
    requires NoDup(c)
    ensures NoDup(Take(c, n)) && |Take(c, n)| == (if |c| < n then |c| else n)
    ensures forall e | e in Take(c, n) :: e in c
  {
  }

  lemma {:induction false} TotalConcat<V>(a: seq<Chain<V>>, b: seq<Chain<V>>)
    ensures Total(a + b) == Total(a) + Total(b)
  {
    if a == [] {
      assert a + b == b;
    } else {
      assert (a + b)[1..] == a[1..] + b;
      TotalConcat(a[1..], b);
    }
  }

  lemma {:induction false} RotateTotal<V>(b: seq<Chain<V>>, i: nat)
    requires i < |b|
    ensures Total(Rotate(b, i)) == Total(b)
  {
    TotalConcat(b[i..], b[..i]);
    TotalConcat(b[..i], b[i..]);
    assert b[..i] + b[i..] == b;
  }

  /** The table that is sampled: the second one during a migration if the coin says so and it has entries. */
  function Sampled<V>(st: DictState<V>, second: bool): Table<V> {
    if st.Rehashing() && second && st.t1.used > 0 then st.t1 else st.t0
  }

  /** A sample takes `count` entries from one table, or all it has; all are different and in the dictionary. Without
      a migration the table is the whole dictionary. */
  lemma {:induction false} SampleOk<V>(H: HashFn, st: DictState<V>, count: nat, second: bool, draw: nat)
    requires Ok(H, st)
    ensures var s, t := Sample(st, count, second, draw), Sampled(st, second);
            && NoDup(s) && |s| == (if t.used < count then t.used else count)
            && (forall e | e in s :: Get(H, t, e.key) == Some(e.value))
            && (forall e | e in s :: e.key in Contents(H, st) && Contents(H, st)[e.key] == e.value)
            && (!st.Rehashing() ==> t.used == |Contents(H, st)|)
  {
    hide SampleFrom, Entries, Lists, Contents, Slot;
    var n := if count > st.Used() then st.Used() else count;
    var t := Sampled(st, second);
    ForEachListsContents(H, st);
    if st.Used() > 0 && t.used != 0 {
      SampleFromOk(H, t, Slot(draw, |t.buckets|), n);
      var s := Sample(st, count, second, draw);
      forall e | e in s ensures e.key in Contents(H, st) && Contents(H, st)[e.key] == e.value {
        ContentsIsLookup(H, st, e.key);
      }
    }
  }

  lemma {:induction false} SubsetOfSize(a: set<Key>, b: set<Key>)
    requires a <= b && |a| == |b|
    ensures a == b
  {
    assert |b - a| == |b| - |a|;
    assert b - a == {};
  }

  /** Without a migration a large enough sample lists the whole dictionary. */
  lemma {:induction false} SampleAll<V>(H: HashFn, st: DictState<V>, count: nat, second: bool, draw: nat)
    requires Ok(H, st) && !st.Rehashing() && |Contents(H, st)| <= count
    ensures Lists(Sample(st, count, second, draw), Contents(H, st))
  {
    hide Sample, Ok, Contents;
    var s, m := Sample(st, count, second, draw), Contents(H, st);
    SampleOk(H, st, count, second, draw);
    NoDupCount(s);
    var ks := set e | e in s :: e.key;
    SubsetOfSize(ks, m.Keys);
    forall k | k in m ensures exists e | e in s :: e.key == k {
      assert k in ks;
    }
  }
}
