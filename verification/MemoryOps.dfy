/** memset and memcpy of string.c, on one memory. */
module MemoryOps {
  import opened Bytes

  method MemSet(m: array<byte>, s: nat, c: byte, n: nat)
    requires s + n <= m.Length
    modifies m
    ensures forall x | 0 <= x < m.Length :: m[x] == if s <= x < s + n then c else old(m[x])
  {
    var p, left := s, n;
    while left > 0
      invariant 0 <= left <= n && p == s + (n - left)
      invariant forall x | 0 <= x < m.Length :: m[x] == if s <= x < p then c else old(m[x])
    {
      m[p] := c;
      p, left := p + 1, left - 1;
    }
  }

  /** Bytes are copied upward. Unless dest lies inside the source region they are the old ones; if it does, each byte
      is the new one that many places below. */
  method MemCpy(m: array<byte>, dest: nat, src: nat, n: nat)
    requires dest + n <= m.Length && src + n <= m.Length
    modifies m
    ensures forall x | 0 <= x < m.Length && !(dest <= x < dest + n) :: m[x] == old(m[x])
    ensures !(src < dest < src + n) ==> forall x | dest <= x < dest + n :: m[x] == old(m[x - dest + src])
    ensures src < dest < src + n ==> forall x | dest <= x < dest + n :: m[x] == m[x - dest + src]
  {
    var d, s, left := dest, src, n;
    while left > 0
      invariant 0 <= left <= n && d == dest + (n - left) && s == src + (n - left)
      invariant forall x | 0 <= x < m.Length && !(dest <= x < d) :: m[x] == old(m[x])
      invariant !(src < dest < src + n) ==> forall x | dest <= x < d :: m[x] == old(m[x - dest + src])
      invariant src < dest < src + n ==> forall x | dest <= x < d :: m[x] == m[x - dest + src]
    {
      m[d] := m[s];
      d, s, left := d + 1, s + 1, left - 1;
    }
  }
}
