/** The C library calls the legacy engine moves its buffers with. */
module Memory {
  import opened Blocks

  method Memset<T>(a: array<T>, at: nat, x: T, n: nat)
    requires at + n <= a.Length
    modifies a
    ensures a[..] == Put(old(a[..]), at, Fill(n, x))
  {
    forall i | 0 <= i < n {
      a[at + i] := x;
    }
  }

  /** All bytes are read before any is written, so source and destination may overlap. */
  method Memmove<T>(a: array<T>, dst: nat, src: nat, n: nat)
    requires dst + n <= a.Length && src + n <= a.Length
    modifies a
    ensures a[..] == Put(old(a[..]), dst, old(a[src..src + n]))
  {
    forall i | 0 <= i < n {
      a[dst + i] := a[src + i];
    }
  }

  method Memcpy<T>(to: array<T>, dst: nat, from: array<T>, src: nat, n: nat)
    requires to != from
    requires dst + n <= to.Length && src + n <= from.Length
    modifies to
    ensures to[..] == Put(old(to[..]), dst, from[src..src + n])
  {
    forall i | 0 <= i < n {
      to[dst + i] := from[src + i];
    }
  }
}
