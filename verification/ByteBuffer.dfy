/** The buffer as an object over one allocated block. */
module ByteBuffer {
  import opened Numbers
  import opened Memory
  import B = ByteQueue

  class ByteBuffer {
    var data: array<bv8>
    var size: nat
    var capacity: nat
    ghost var put: seq<bv8>
    ghost var taken: seq<bv8>
    ghost var copied: nat
    ghost var requested: nat

    ghost predicate Valid()
      reads this
    {
      data.Length == capacity && size <= capacity
    }

    ghost function Abs(): B.Buffer
      requires Valid()
      reads this, data
    {
      B.Buffer(data[..size], capacity, put, taken, copied, requested)
    }

    constructor ()
      ensures Valid() && fresh(data) && Abs() == B.EMPTY_BUFFER
    {
      data, size, capacity := new bv8[0], 0, 0;
      put, taken, copied, requested := [], [], 0, 0;
    }

    method Reserve(newCap: nat)
      requires Valid()
      modifies this
      ensures Valid() && size == old(size) && Abs() == B.Reserved(old(Abs()), newCap)
      ensures data == old(data) || fresh(data)
    {
      requested := Max(requested, newCap);
      if newCap <= capacity {
        return;
      }
      var allocCap := if capacity == 0 then 64 else capacity * 2;
      if allocCap < newCap {
        allocCap := newCap;
      }
      var newData := new bv8[allocCap];
      Memcpy(newData, 0, data, 0, capacity);
      assert newData[..size] == data[..size];
      copied := copied + capacity;
      data := newData;
      capacity := allocCap;
    }

    method Append(bytes: seq<bv8>)
      requires Valid()
      modifies this, data
      ensures Valid() && Abs() == B.Appended(old(Abs()), bytes)
      ensures data == old(data) || fresh(data)
    {
      if bytes == [] {
        return;
      }
      ghost var contents := data[..size];
      Reserve(size + |bytes|);
      forall i | 0 <= i < |bytes| {
        data[size + i] := bytes[i];
      }
      assert data[..size + |bytes|] == contents + bytes;
      put := put + bytes;
      size := size + |bytes|;
    }

    method ShiftPrefix(n: nat) returns (ok: bool)
      requires Valid()
      modifies this, data
      ensures Valid() && data == old(data)
      ensures ok == (n <= old(size)) && Abs() == B.Shifted(old(Abs()), n)
    {
      if n > size {
        return false;
      }
      ghost var contents := data[..size];
      taken := taken + contents[..n];
      if n == 0 {
        return true;
      }
      var remaining := size - n;
      if remaining > 0 {
        Memmove(data, 0, n, remaining);
      }
      size := remaining;
      assert data[..size] == contents[n..];
      return true;
    }

    method Clear()
      requires Valid()
      modifies this
      ensures Valid() && data == old(data) && Abs() == B.Apply(old(Abs()), B.Clear)
    {
      taken := taken + data[..size];
      size := 0;
    }
  }
}
