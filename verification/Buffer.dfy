/** The binary-safe growing byte array that holds keys and string values. */
module BufferImpl {
  import opened Common
  import opened Pow2

  class Buffer {
    var data: array<byte>  // no elements: the null pointer
    var size: nat
    var cap: nat
    ghost var copied: nat  // bytes moved by `grow` over the lifetime of the buffer

    /** The capacity is 0 or a power of two of at least 16, one more byte is allocated for the zero
        sentinel behind the contents, and growing has copied no more bytes than the buffer can hold. */
    ghost predicate Valid()
      reads this, data
    {
      && copied <= cap
      && (cap == 0 ==> data.Length == 0 && size == 0)
      && (cap > 0 ==> IsPow2(cap) && cap >= 16 && data.Length == cap + 1 && size <= cap && data[size] == 0)
    }

    ghost function View(): bytes
      reads this, data
      requires Valid()
    {
      data[..size]
    }

    ghost function Account(): Cost
      reads this
    {
      Cost(size, cap, copied)
    }

    constructor ()
      ensures Valid() && View() == [] && cap == 0 && fresh(data)
    {
      data := new byte[0];
      size, cap, copied := 0, 0, 0;
    }

    constructor FromBytes(s: bytes)
      ensures Valid() && View() == s && fresh(data)
    {
      data := new byte[0];
      size, cap, copied := 0, 0, 0;
      new;
      if s != [] {
        Grow(|s|);
        Write(0, s);
      }
    }

    method Grow(required: nat)
      requires Valid()
      modifies this, data
      ensures Valid() && View() == old(View()) && required <= cap && old(cap) <= cap
      ensures Account() == Charge(old(Account()), ReserveBytes(required))
      ensures data == old(data) || fresh(data)
    {
      if required <= cap { return; }
      var newCap := BitCeil(if required < 16 then 16 else required);
      if cap > 0 { DoubleGap(cap, newCap); }
      ghost var contents := View();
      var newData := new byte[newCap + 1];
      var i := 0;
      while i < size
        invariant 0 <= i <= size && newData[..i] == contents[..i]
        modifies newData
      {
        newData[i] := data[i];
        assert contents[..i + 1] == contents[..i] + [contents[i]];
        i := i + 1;
      }
      assert newData[..size] == contents;
      newData[size] := 0;
      assert newData[..size] == contents;
      copied := copied + size;
      data, cap := newData, newCap;
    }

    /** The memcpy of `append` and the constructors, with the sentinel behind it. */
    method Write(at: nat, s: bytes)
      requires Valid() && at + |s| <= cap && at <= size && s != []
      modifies this, data
      ensures Valid() && data == old(data) && Account() == old(Account()).(size := at + |s|)
      ensures View() == old(View())[..at] + s
    {
      ghost var contents := View();
      var i := 0;
      while i < |s|
        invariant 0 <= i <= |s| && data == old(data) && cap == old(cap) && size == old(size) && copied == old(copied)
        invariant data[..at + i] == contents[..at] + s[..i]
      {
        data[at + i] := s[i];
        assert s[..i + 1] == s[..i] + [s[i]];
        i := i + 1;
      }
      size := at + |s|;
      data[size] := 0;
      assert data[..size] == contents[..at] + s[..|s|];
    }

    method Append(s: bytes)
      requires Valid()
      modifies this, data
      ensures Valid() && View() == old(View()) + s && old(cap) <= cap
      ensures Account() == Charge(old(Account()), AppendBytes(|s|))
      ensures data == old(data) || fresh(data)
    {
      if s == [] { return; }
      Grow(size + |s|);
      Write(size, s);
    }

    /** Resizing a buffer that never allocated to zero writes the sentinel through the null pointer, as the
        out-parameter reports. In every other case the contents are cut or filled with zeros. */
    method Resize(newSize: nat) returns (throughNull: bool)
      requires Valid()
      modifies this, data
      ensures Valid() && (throughNull <==> old(cap) == 0 && newSize == 0)
      ensures throughNull ==> View() == [] && cap == 0
      ensures !throughNull ==>
                && size == newSize && old(cap) <= cap
                && View() == if newSize <= old(size) then old(View())[..newSize]
                             else old(View()) + seq(newSize - old(size), _ => 0)
      ensures data == old(data) || fresh(data)
    {
      hide IsPow2;
      if newSize == 0 && data.Length == 0 { return true; }
      ghost var contents := View();
      if newSize > cap { Grow(newSize); }
      if newSize > size { ZeroFill(newSize); }
      size := newSize;
      data[size] := 0;
      assert newSize <= |contents| ==> data[..size] == contents[..newSize];
      return false;
    }

    /** The memset of `resize`, behind the contents. */
    method ZeroFill(end: nat)
      requires Valid() && size < end <= cap
      modifies data
      ensures Valid() && View() == old(View()) && data[..end] == View() + seq(end - size, _ => 0)
    {
      hide IsPow2;
      var i := size;
      while i < end
        invariant size <= i <= end && data[..i] == old(View()) + seq(i - size, _ => 0)
        invariant data[size] == 0
      {
        data[i] := 0;
        i := i + 1;
      }
      assert data[..size] == data[..end][..size];
    }

    method Reserve(capacity: nat)
      requires Valid()
      modifies this, data
      ensures Valid() && View() == old(View()) && capacity <= cap && old(cap) <= cap
      ensures Account() == Charge(old(Account()), ReserveBytes(capacity))
      ensures data == old(data) || fresh(data)
    {
      Grow(capacity);
    }

    method Clear()
      requires Valid()
      modifies this, data
      ensures Valid() && View() == [] && cap == old(cap) && data == old(data)
    {
      size := 0;
      if data.Length > 0 { data[0] := 0; }
    }

    /** `operator=`; a buffer may be assigned to itself. */
    method Assign(other: Buffer)
      requires Valid() && other.Valid() && (other != this ==> other.data != data)
      modifies this, data
      ensures Valid() && View() == old(other.View()) && old(cap) <= cap
      ensures data == old(data) || fresh(data)
    {
      if other == this { return; }
      Clear();
      if other.size > 0 {
        var s := other.data[..other.size];
        Grow(other.size);
        Write(0, s);
      }
    }

    method Equals(other: Buffer) returns (same: bool)
      requires Valid() && other.Valid()
      ensures same == (View() == other.View())
    {
      if size != other.size { return false; }
      var i := 0;
      while i < size
        invariant 0 <= i <= size && data[..i] == other.data[..i]
      {
        if data[i] != other.data[i] {
          assert View()[i] != other.View()[i];
          return false;
        }
        i := i + 1;
      }
      return true;
    }
  }

  // ---- amortised cost of growing, over whole runs ---------------------------------------

  datatype Request = AppendBytes(n: nat) | ReserveBytes(n: nat)

  datatype Cost = Cost(size: nat, cap: nat, copied: nat)

  /** Size, capacity and bytes copied after one request. */
  function Charge(c: Cost, r: Request): Cost {
    var required := if r.AppendBytes? then c.size + r.n else r.n;
    var grown := if required <= c.cap then c
                 else c.(cap := BitCeil(if required < 16 then 16 else required), copied := c.copied + c.size);
    if r.AppendBytes? then grown.(size := c.size + r.n) else grown
  }

  function ChargeAll(c: Cost, rs: seq<Request>): Cost
    decreases |rs|
  {
    if rs == [] then c else ChargeAll(Charge(c, rs[0]), rs[1..])
  }

  /** The largest number of bytes that any request of the run asked for, starting at `size`. */
  function Peak(size: nat, rs: seq<Request>): (p: nat)
    ensures p >= size
    decreases |rs|
  {
    if rs == [] then size
    else
      var size' := if rs[0].AppendBytes? then size + rs[0].n else size;
      var p := Peak(size', rs[1..]);
      if rs[0].ReserveBytes? && rs[0].n > p then rs[0].n else p
  }

  ghost predicate Solvent(c: Cost) {
    c.size <= c.cap && c.copied <= c.cap && (c.cap == 0 || (IsPow2(c.cap) && c.cap >= 16))
  }

  lemma {:induction false} ChargeStaysSolvent(c: Cost, r: Request)
    requires Solvent(c)
    ensures Solvent(Charge(c, r))
  {
    var required := if r.AppendBytes? then c.size + r.n else r.n;
    if required > c.cap && c.cap > 0 {
      DoubleGap(c.cap, BitCeil(required));
    }
  }

  /** All copying of a whole run together is bounded by the final capacity, which is less than twice
      the peak demand: appending is amortised constant time per byte. */
  lemma {:induction false} RunCost(c: Cost, rs: seq<Request>)
    requires Solvent(c)
    ensures var r := ChargeAll(c, rs);
            Solvent(r) && r.copied <= r.cap
            && (r.cap < 2 * Peak(c.size, rs) || r.cap <= c.cap || r.cap == 16)
    decreases |rs|
  {
    if rs != [] {
      ChargeStaysSolvent(c, rs[0]);
      RunCost(Charge(c, rs[0]), rs[1..]);
    }
  }
}
