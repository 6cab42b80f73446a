/**
 The dictionary itself: two bucket arrays updated in place. Every method computes the corresponding
 function of `DictSpec` on `State()`; the consequences for the map are stated on `Map()`.
 Entry chains are immutable lists; freeing memory is not modelled.
 */
module DictImpl {
  import opened Common
  import opened Pow2
  import opened DictTable
  import opened LoadFactor
  import D = DictSpec
  import M = DictMap
  import S = DictScan

  class Dict<V> {
    const hash: HashFn
    var b0: array<Chain<V>>
    var used0: int
    var b1: array<Chain<V>>  // no buckets: the null table
    var used1: int
    var idx: int

    ghost function Repr(): set<object>
      reads this
    {
      {this, b0, b1}
    }

    ghost function State(): D.DictState<V>
      reads this, b0, b1
    {
      D.DictState(Table(b0[..], used0), Table(b1[..], used1), idx)
    }

    ghost predicate Valid()
      reads this, b0, b1
    {
      b0 != b1 && D.Ok(hash, State())
    }

    /** The map this dictionary stands for. */
    ghost function Map(): map<Key, V>
      reads this, b0, b1
    {
      M.Contents(hash, State())
    }

    constructor (hash: HashFn)
      ensures Valid() && fresh(b0) && fresh(b1) && this.hash == hash
      ensures State() == D.Fresh() && Map() == map[]
    {
      this.hash := hash;
      b0 := new Chain<V>[4](_ => []);
      b1 := new Chain<V>[0](_ => []);
      used0, used1, idx := 0, 0, -1;
      new;
      assert State() == D.Fresh();
      M.FreshOk<V>(hash);
    }

    method Clear()
      requires Valid()
      modifies Repr()
      ensures Valid() && fresh(Repr() - old(Repr()))
      ensures State() == D.Fresh() && Map() == map[]
    {
      b0 := new Chain<V>[4](_ => []);
      b1 := new Chain<V>[0](_ => []);
      used0, used1, idx := 0, 0, -1;
      assert State() == D.Fresh();
      M.FreshOk<V>(hash);
    }

    /** The inner loop of `rehash_step`: empties the cursor's bucket into the second table. */
    method MigrateChain()
      requires b0 != b1 && 0 <= idx < b0.Length && b1.Length > 0
      modifies this, b0, b1
      ensures b0 == old(b0) && b1 == old(b1)
      ensures State() == D.MigrateBucket(old(State()))
    {
      var entry := b0[idx];
      ghost var start := State();
      assert b0[..][idx := entry] == b0[..];
      while entry != []
        invariant b0 == old(b0) && b1 == old(b1) && idx == old(idx)
        invariant b0[..] == start.t0.buckets
        invariant D.MigrateBucket(D.DictState(Table(b0[..][idx := entry], used0), Table(b1[..], used1), idx))
               == D.MigrateBucket(start)
      {
        ghost var mid := D.DictState(Table(b0[..][idx := entry], used0), Table(b1[..], used1), idx);
        var e := entry[0];
        var newIdx := Slot(e.hash, b1.Length);
        b1[newIdx] := [e] + b1[newIdx];
        used1, used0 := used1 + 1, used0 - 1;
        entry := entry[1..];
        assert D.DictState(Table(b0[..][idx := entry], used0), Table(b1[..], used1), idx) == D.MoveHead(mid) by {
          assert mid.t0.buckets[idx := entry] == b0[..][idx := entry];
          assert b1[..] == mid.t1.buckets[newIdx := [e] + mid.t1.buckets[newIdx]];
        }
      }
      b0[idx] := [];
      assert b0[..] == start.t0.buckets[idx := []];
      idx := idx + 1;
    }

    /** Skips empty buckets; returns what is left of the budget, 0 when it ran out. */
    method SkipEmpty(budget: int) returns (left: int)
      requires D.Shape(State()) && idx >= 0 && used0 > 0 && budget > 0
      modifies this`idx
      ensures (State(), left) == D.SkipEmpty(old(State()), budget)
    {
      hide D.Shape;
      left := budget;
      D.CursorInside(State());
      while b0[idx] == []
        invariant D.Shape(State()) && 0 <= idx < b0.Length && left > 0
        invariant D.SkipEmpty(State(), left) == D.SkipEmpty(old(State()), budget)
        decreases left
      {
        D.SkipOne(State(), left);
        idx := idx + 1;
        left := left - 1;
        if left == 0 { return; }
      }
    }

    /** The outer loop of `rehash_step`; `early` says that the skip budget ran out. */
    method RehashLoop(steps: int, budget: int) returns (early: bool)
      requires b0 != b1 && D.Shape(State()) && idx >= 0 && (steps > 0 ==> budget > 0)
      modifies this, b0, b1
      ensures b0 == old(b0) && b1 == old(b1)
      ensures (State(), early) == D.RehashLoop(old(State()), steps, budget)
    {
      var todo, limit := steps, budget;
      while todo > 0 && used0 > 0
        invariant b0 == old(b0) && b1 == old(b1)
        invariant D.Shape(State()) && idx >= 0 && (todo > 0 ==> limit > 0)
        invariant D.RehashLoop(State(), todo, limit) == D.RehashLoop(old(State()), steps, budget)
        decreases todo
      {
        limit := SkipEmpty(limit);
        if limit == 0 { return true; }
        D.ShapeMigrate(State());
        MigrateChain();
        todo := todo - 1;
      }
      return false;
    }

    method RehashStep(steps: int) returns (done: bool)
      requires Valid()
      modifies Repr()
      ensures Valid() && fresh(Repr() - old(Repr()))
      ensures (State(), done) == D.RehashStep(old(State()), steps)
      ensures Map() == old(Map())
    {
      ghost var start := State();
      M.RehashStepOk(hash, start, steps);
      M.SameContents(hash, start, D.RehashStep(start, steps).0);
      if idx < 0 { return true; }
      var early := RehashLoop(steps, steps * 10);
      if early { return false; }
      if used0 == 0 {
        b0, used0 := b1, used1;
        b1 := new Chain<V>[0](_ => []);
        used1, idx := 0, -1;
        assert State() == D.RehashStep(start, steps).0;
        return true;
      }
      return false;
    }

    method MaybeExpand()
      requires b0 != b1
      modifies this
      ensures b0 == old(b0) && b0 != b1 && (b1 == old(b1) || fresh(b1))
      ensures State() == D.MaybeExpand(old(State()))
    {
      if idx >= 0 || b0.Length == 0 { return; }
      if FloatExpands(used0, b0.Length) {
        var n := BitCeil(used0 * 2);
        b1 := new Chain<V>[n](_ => []);
        used1, idx := 0, 0;
        assert b1[..] == seq(n, _ => []);
      }
    }

    method MaybeShrink()
      requires b0 != b1
      modifies this
      ensures b0 == old(b0) && b0 != b1 && (b1 == old(b1) || fresh(b1))
      ensures State() == D.MaybeShrink(old(State()))
    {
      if idx >= 0 || b0.Length <= 4 { return; }
      if FloatShrinks(used0, b0.Length) {
        var n := BitCeil(if used0 < 4 then 4 else used0);
        b1 := new Chain<V>[n](_ => []);
        used1, idx := 0, 0;
        assert b1[..] == seq(n, _ => []);
      }
    }

    /** `find_in`: the position of the entry in its chain. */
    method FindIn(second: bool, key: Key, h: u64) returns (r: Option<nat>)
      ensures r == Locate(if second then State().t1 else State().t0, key, h)
    {
      var b, used := if second then b1 else b0, if second then used1 else used0;
      if b.Length == 0 || used == 0 { return None; }
      var c := b[Slot(h, b.Length)];
      var j := 0;
      while j < |c|
        invariant 0 <= j <= |c|
        invariant match DictTable.FindIn(c[j..], key, h)
                  case None => DictTable.FindIn(c, key, h) == None
                  case Some(i) => DictTable.FindIn(c, key, h) == Some(j + i)
      {
        assert c[j..][1..] == c[j + 1..];
        if c[j].hash == h && c[j].key == key { return Some(j); }
        j := j + 1;
      }
      return None;
    }

    /** `existing->value = value`. */
    method Assign(second: bool, key: Key, h: u64, j: nat, value: V)
      requires b0 != b1
      requires Locate(if second then State().t1 else State().t0, key, h) == Some(j)
      modifies b0, b1
      ensures State() == if second then old(State()).(t1 := Overwrite(old(State()).t1, key, h, value))
                                   else old(State()).(t0 := Overwrite(old(State()).t0, key, h, value))
    {
      var b := if second then b1 else b0;
      ghost var before := b[..];
      var i := Slot(h, b.Length);
      var e: Entry<V> := b[i][j];
      b[i] := b[i][j := e.(value := value)];
      assert b[..] == before[i := before[i][j := e.(value := value)]];
    }

    /** Writing through the pointer that a lookup returned. */
    method Poke(key: Key, value: V)
      requires Valid()
      modifies b0, b1
      ensures Valid() && State() == D.Poke(hash, old(State()), key, value)
      ensures Map() == if key in old(Map()) then old(Map())[key := value] else old(Map())
    {
      M.PokeContents(hash, State(), key, value);
      var h := hash(key);
      var j := FindIn(false, key, h);
      if j.Some? {
        Assign(false, key, h, j.value, value);
      } else if idx >= 0 {
        j := FindIn(true, key, h);
        if j.Some? { Assign(true, key, h, j.value, value); }
      }
    }

    method Set(key: Key, value: V) returns (isNew: bool)
      requires Valid()
      modifies Repr()
      ensures Valid() && fresh(Repr() - old(Repr()))
      ensures (State(), D.Flag(isNew)) == D.Step(hash, old(State()), D.Set(key, value))
      ensures Map() == old(Map())[key := value] && isNew == (key !in old(Map()))
    {
      M.StepRefines(hash, State(), D.Set(key, value));
      if idx >= 0 { var _ := RehashStep(1); }
      isNew := StoreEntry(key, value);
    }

    /** `set` after its migration step. */
    method StoreEntry(key: Key, value: V) returns (isNew: bool)
      requires Valid()
      modifies Repr()
      ensures Valid() && fresh(Repr() - old(Repr()))
      ensures (State(), isNew) == D.Store(hash, old(State()), key, value)
    {
      M.StoreOk(hash, State(), key, value);
      var h := hash(key);
      if idx >= 0 {
        var old0 := FindIn(false, key, h);
        if old0.Some? {
          Assign(false, key, h, old0.value, value);
          return false;
        }
      }
      var target := idx >= 0;
      var existing := FindIn(target, key, h);
      if existing.Some? {
        Assign(target, key, h, existing.value, value);
        return false;
      }
      Link(target, Entry(key, value, h));
      MaybeExpand();
      return true;
    }

    /** Prepends a new entry to its chain. */
    method Link(second: bool, e: Entry<V>)
      requires b0 != b1 && (if second then b1.Length > 0 else b0.Length > 0)
      modifies this, b0, b1
      ensures b0 == old(b0) && b1 == old(b1)
      ensures State() == if second then old(State()).(t1 := Prepend(old(State()).t1, e))
                                   else old(State()).(t0 := Prepend(old(State()).t0, e))
    {
      var b := if second then b1 else b0;
      ghost var before := b[..];
      var i := Slot(e.hash, b.Length);
      b[i] := [e] + b[i];
      assert b[..] == before[i := [e] + before[i]];
      if second { used1 := used1 + 1; } else { used0 := used0 + 1; }
    }

    /** The const `get` of a dictionary. */
    method Peek(key: Key) returns (r: Option<V>)
      requires Valid()
      ensures r == D.Lookup(hash, State(), key)
      ensures r == if key in Map() then Some(Map()[key]) else None
    {
      M.ContentsIsLookup(hash, State(), key);
      var h := hash(key);
      var t := 0;
      while t < 2
        invariant 0 <= t <= 2
        invariant t >= 1 ==> Locate(State().t0, key, h).None? && idx >= 0
        invariant t == 2 ==> Locate(State().t1, key, h).None?
      {
        var j := FindIn(t == 1, key, h);
        if j.Some? {
          var b := if t == 1 then b1 else b0;
          var e: Entry<V> := b[Slot(h, b.Length)][j.value];
          return Some(e.value);
        }
        if idx < 0 { return None; }
        t := t + 1;
      }
      return None;
    }

    method Get(key: Key) returns (r: Option<V>)
      requires Valid()
      modifies Repr()
      ensures Valid() && fresh(Repr() - old(Repr()))
      ensures (State(), D.Found(r)) == D.Step(hash, old(State()), D.Read(key))
      ensures Map() == old(Map()) && r == if key in Map() then Some(Map()[key]) else None
    {
      M.StepRefines(hash, State(), D.Read(key));
      if idx >= 0 { var _ := RehashStep(1); }
      r := Peek(key);
    }

    method Del(key: Key) returns (found: bool)
      requires Valid()
      modifies Repr()
      ensures Valid() && fresh(Repr() - old(Repr()))
      ensures (State(), D.Flag(found)) == D.Step(hash, old(State()), D.Del(key))
      ensures Map() == old(Map()) - {key} && found == (key in old(Map()))
    {
      M.StepRefines(hash, State(), D.Del(key));
      if idx >= 0 { var _ := RehashStep(1); }
      found := EraseEntry(key);
    }

    /** `del` after its migration step. */
    method EraseEntry(key: Key) returns (found: bool)
      requires Valid()
      modifies Repr()
      ensures Valid() && fresh(Repr() - old(Repr()))
      ensures (State(), found) == D.Erase(hash, old(State()), key)
    {
      M.EraseOk(hash, State(), key);
      var h := hash(key);
      var j := FindIn(false, key, h);
      if j.Some? {
        Cut(false, key, h, j.value);
        MaybeShrink();
        return true;
      }
      if idx < 0 { return false; }
      j := FindIn(true, key, h);
      if j.Some? {
        Cut(true, key, h, j.value);
        MaybeShrink();
        return true;
      }
      return false;
    }

    /** Unlinks an entry from its chain. */
    method Cut(second: bool, key: Key, h: u64, j: nat)
      requires b0 != b1
      requires Locate(if second then State().t1 else State().t0, key, h) == Some(j)
      modifies this, b0, b1
      ensures b0 == old(b0) && b1 == old(b1)
      ensures State() == if second then old(State()).(t1 := Unlink(old(State()).t1, key, h))
                                   else old(State()).(t0 := Unlink(old(State()).t0, key, h))
    {
      var b := if second then b1 else b0;
      ghost var before := b[..];
      var i := Slot(h, b.Length);
      b[i] := b[i][..j] + b[i][j + 1..];
      assert b[..] == before[i := before[i][..j] + before[i][j + 1..]];
      if second { used1 := used1 - 1; } else { used0 := used0 - 1; }
    }

    method Size() returns (n: int)
      requires Valid()
      ensures n == |Map()|
    {
      S.ForEachListsContents(hash, State());
      return used0 + used1;
    }

    method IsEmpty() returns (b: bool)
      requires Valid()
      ensures b == (Map() == map[])
    {
      var n := Size();
      b := n == 0;
      if b { assert Map().Keys == {}; }
    }

    /** `for_each`: the entries in the order in which the visitor sees them. */
    method ForEach() returns (visited: Chain<V>)
      requires Valid()
      ensures visited == S.Entries(State()) && S.Lists(visited, Map())
    {
      S.ForEachListsContents(hash, State());
      visited := Visit(b0);
      if idx >= 0 {
        var more := Visit(b1);
        visited := visited + more;
      }
    }

    method Visit(b: array<Chain<V>>) returns (visited: Chain<V>)
      ensures visited == S.Flat(b[..])
    {
      visited := [];
      ghost var all := S.Flat(b[..]);
      var i := 0;
      while i < b.Length
        invariant 0 <= i <= b.Length
        invariant all == visited + S.Flat(b[i..])
      {
        assert b[i..][1..] == b[i + 1..];
        ghost var rest := S.Flat(b[i + 1..]);
        var entry := b[i];
        while entry != []
          invariant all == visited + (entry + rest)
        {
          SplitHead(visited, entry, rest);
          visited := visited + [entry[0]];
          entry := entry[1..];
        }
        assert visited + (entry + rest) == visited + rest;
        i := i + 1;
      }
      assert visited + S.Flat(b[i..]) == visited;
    }

    static lemma {:induction false} SplitHead(a: Chain<V>, b: Chain<V>, c: Chain<V>)
      requires b != []
      ensures a + (b + c) == (a + [b[0]]) + (b[1..] + c)
    {
    }

    lemma {:induction false} SampledFromMap(count: nat, second: bool, draw: nat)
      requires Valid()
      ensures var out := S.Sample(State(), count, second, draw);
              && |out| <= count && S.NoDup(out)
              && forall e | e in out :: e.key in Map() && Map()[e.key] == e.value
    {
      hide S.NoDup, S.Sample, D.Ok;
      S.SampleOk(hash, State(), count, second, draw);
    }

    /** `random_sample`; `second` and `draw` are the random numbers. */
    method RandomSample(count: nat, second: bool, draw: nat) returns (out: Chain<V>)
      requires Valid()
      ensures out == S.Sample(State(), count, second, draw)
      ensures |out| <= count && S.NoDup(out)
      ensures forall e | e in out :: e.key in Map() && Map()[e.key] == e.value
    {
      hide D.Ok, M.Contents, S.SampleFrom, S.NoDup, Valid, Map;
      SampledFromMap(count, second, draw);
      if used0 + used1 <= 0 { return []; }
      var n := if count > used0 + used1 then used0 + used1 else count;
      var t := idx >= 0 && second && b1.Length > 0 && used1 > 0;
      var b, used := if t then b1 else b0, if t then used1 else used0;
      if b.Length == 0 || used == 0 { return []; }
      out := SampleTable(b, Slot(draw, b.Length), n, Table(b[..], used));
    }

    method SampleTable(b: array<Chain<V>>, first: nat, n: nat, ghost t: Table<V>) returns (out: Chain<V>)
      requires first < b.Length && b[..] == t.buckets
      ensures out == S.SampleFrom(t, first, 0, n, [])
    {
      var i: nat, checked: nat := first, 0;
      out := [];
      while |out| < n && checked < b.Length
        invariant i < b.Length && checked <= b.Length
        invariant S.SampleFrom(t, i, checked, n, out) == S.SampleFrom(t, first, 0, n, [])
      {
        out := CollectChain(b[i], n, out);
        i := Slot(i + 1, b.Length);
        checked := checked + 1;
      }
    }

    method CollectChain(c: Chain<V>, count: nat, sofar: Chain<V>) returns (out: Chain<V>)
      requires |sofar| <= count
      ensures out == sofar + S.Take(c, count - |sofar|)
    {
      out := sofar;
      var j := 0;
      while j < |c| && |out| < count
        invariant 0 <= j <= |c| && |out| == |sofar| + j <= count && out == sofar + c[..j]
      {
        out := out + [c[j]];
        j := j + 1;
      }
    }
  }
}
