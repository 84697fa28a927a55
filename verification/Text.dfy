/** NUL-terminated strings, and the string.c routines the file system calls on them. */
module Text {
  import opened Bytes

  const SLASH: byte := 47

  /** The string stored in a NUL-terminated region. */
  function CStr(m: seq<byte>): (s: seq<byte>)
    ensures |s| <= |m| && s == m[..|s|] && 0 !in s
    ensures |s| < |m| ==> m[|s|] == 0
  {
    if m == [] || m[0] == 0 then [] else [m[0]] + CStr(m[1..])
  }

  /** The string ends at its first NUL, whatever follows. */
  lemma CStrIs(m: seq<byte>, s: seq<byte>)
    requires |s| < |m| && m[..|s|] == s && m[|s|] == 0 && 0 !in s
    ensures CStr(m) == s
  {
    var t := CStr(m);
    assert forall k | 0 <= k < |s| :: s[k] == m[k];
    assert forall k | 0 <= k < |t| :: t[k] == m[k];
  }

  /** Two regions, terminators included, agree before position k and differ by r there. */
  ghost predicate FirstDiffers(a: seq<byte>, b: seq<byte>, k: nat, r: int) {
    k < |a| && k < |b| && a[..k] == b[..k] && 0 !in a[..k] && r == a[k] as int - b[k] as int
  }

  /** strcmp */
  method StrCmp(a: seq<byte>, b: seq<byte>) returns (r: int)
    requires 0 in a && 0 in b
    ensures r == 0 <==> CStr(a) == CStr(b)
    ensures r != 0 ==> exists k :: FirstDiffers(a, b, k, r)
  {
    var i := 0;
    while a[i] != 0 && a[i] == b[i]
      invariant i < |a| && i < |b| && a[..i] == b[..i] && 0 !in a[..i]
      decreases |a| - i
    {
      i := i + 1;
      StopsInside(a, i);
      StopsInside(b, i);
    }
    r := (a[i] as int) - (b[i] as int);
    if r == 0 {
      CStrIs(a, a[..i]);
      CStrIs(b, b[..i]);
    } else {
      DifferAt(a, b, i);
      assert FirstDiffers(a, b, i, r);
    }
  }

  lemma StopsInside(a: seq<byte>, i: nat)
    requires 0 in a && i <= |a| && 0 !in a[..i]
    ensures i < |a|
  {
  }

  lemma CStrReaches(a: seq<byte>, i: nat)
    requires i < |a| && 0 !in a[..i]
    ensures |CStr(a)| >= i && (a[i] == 0 <==> |CStr(a)| == i)
    ensures |CStr(a)| > i ==> CStr(a)[i] == a[i]
  {
    assert forall k | 0 <= k < i :: a[k] == a[..i][k];
  }

  lemma DifferAt(a: seq<byte>, b: seq<byte>, i: nat)
    requires i < |a| && i < |b| && 0 !in a[..i] && 0 !in b[..i] && a[i] != b[i]
    ensures CStr(a) != CStr(b)
  {
    CStrReaches(a, i);
    CStrReaches(b, i);
  }

  /** strlen */
  method StrLen(m: seq<byte>) returns (n: nat)
    requires 0 in m
    ensures n == |CStr(m)|
  {
    n := 0;
    while m[n] != 0
      invariant n < |m| && 0 !in m[..n]
      decreases |m| - n
    {
      n := n + 1;
      StopsInside(m, n);
    }
    CStrIs(m, m[..n]);
  }

  /** strchr: the position of the first c in the string, terminator included; the region's length stands for null. */
  method StrChr(m: seq<byte>, c: byte) returns (k: nat)
    requires 0 in m
    ensures k < |m| ==> k <= |CStr(m)| && m[k] == c && c !in m[..k]
    ensures k >= |m| ==> c !in CStr(m) && c != 0
  {
    k := 0;
    while m[k] != 0
      invariant k < |m| && 0 !in m[..k] && c !in m[..k]
      decreases |m| - k
    {
      if m[k] == c {
        CStrReaches(m, k);
        return;
      }
      k := k + 1;
      StopsInside(m, k);
    }
    CStrIs(m, m[..k]);
    if c != 0 {
      k := |m|;
    }
  }

  /** a with the string s and its terminator at position p. */
  ghost predicate PlacedAt(a: seq<byte>, was: seq<byte>, p: nat, s: seq<byte>) {
    && |a| == |was| && p + |s| < |a| && a[p..p + |s|] == s && a[p + |s|] == 0
    && forall x | 0 <= x < |a| && !(p <= x <= p + |s|) :: a[x] == was[x]
  }

  /** strcpy to position p of a buffer with room for the string and its terminator */
  method StrCpy(dest: array<byte>, p: nat, src: seq<byte>)
    requires 0 in src && p + |CStr(src)| < dest.Length
    modifies dest
    ensures PlacedAt(dest[..], old(dest[..]), p, CStr(src))
  {
    ghost var was, s := dest[..], CStr(src);
    CStrEnds(src);
    var i := 0;
    while src[i] != 0
      invariant i <= |s| && src[|s|] == 0
      invariant forall x | 0 <= x < dest.Length :: dest[x] == if p <= x < p + i then s[x - p] else was[x]
      decreases |s| - i
    {
      dest[p + i] := src[i];
      i := i + 1;
    }
    assert i == |s|;
    dest[p + i] := 0;
  }

  /** strcat: the string of src follows the one the buffer holds. */
  method StrCat(dest: array<byte>, src: seq<byte>)
    requires 0 in dest[..] && 0 in src && |CStr(dest[..])| + |CStr(src)| < dest.Length
    modifies dest
    ensures PlacedAt(dest[..], old(dest[..]), |CStr(old(dest[..]))|, CStr(src))
    ensures 0 in dest[..] && CStr(dest[..]) == CStr(old(dest[..])) + CStr(src)
  {
    ghost var was := dest[..];
    var end := StrLen(dest[..]);
    StrCpy(dest, end, src);
    Appended(was, dest[..], CStr(was), CStr(src));
  }

  lemma CStrEnds(m: seq<byte>)
    requires 0 in m
    ensures |CStr(m)| < |m| && m[|CStr(m)|] == 0 && forall k | 0 <= k < |CStr(m)| :: m[k] == CStr(m)[k] != 0
  {
    assert m[..|m|] == m;
    forall k | 0 <= k < |CStr(m)|
      ensures m[k] == CStr(m)[k] != 0
    {
      assert CStr(m)[k] == m[..|CStr(m)|][k];
      assert CStr(m)[k] in CStr(m);
    }
  }

  lemma Appended(was: seq<byte>, a: seq<byte>, s: seq<byte>, t: seq<byte>)
    requires s == CStr(was) && PlacedAt(a, was, |s|, t) && 0 !in t
    ensures 0 in a && CStr(a) == s + t
  {
    assert a[|s| + |t|] == 0;
    forall x | 0 <= x < |s|
      ensures a[x] == s[x]
    {
      assert s[x] == was[..|s|][x];
    }
    assert a[..|s| + |t|] == s + t;
    CStrIs(a, s + t);
  }
}
