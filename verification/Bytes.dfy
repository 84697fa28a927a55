/** Bytes of memory and of disk sectors, and the little-endian words the x86 code keeps in them. */
module Bytes {

  type byte = x: int | 0 <= x < 256

  const U32: nat := 0x1_0000_0000
  const U64: nat := 0x1_0000_0000_0000_0000

  /** How many values fit in w bytes. */
  ghost function Span(w: nat): nat {
    if w == 0 then 1 else 256 * Span(w - 1)
  }

  /** The w low-order bytes of v, least significant first. */
  function ToLE(v: nat, w: nat): (s: seq<byte>)
    ensures |s| == w
  {
    if w == 0 then [] else [v % 256] + ToLE(v / 256, w - 1)
  }

  function FromLE(s: seq<byte>): nat {
    if s == [] then 0 else s[0] + 256 * FromLE(s[1..])
  }

  lemma {:induction false} FromToLE(v: nat, w: nat)
    requires v < Span(w)
    ensures FromLE(ToLE(v, w)) == v
  {
    if w > 0 {
      FromToLE(v / 256, w - 1);
      assert ToLE(v, w)[1..] == ToLE(v / 256, w - 1);
    }
  }

  /** Storing what was loaded gives back the bytes. */
  lemma {:induction false} ToFromLE(s: seq<byte>)
    ensures ToLE(FromLE(s), |s|) == s
  {
    if s != [] {
      var rest := FromLE(s[1..]);
      assert FromLE(s) % 256 == s[0] && FromLE(s) / 256 == rest;
      ToFromLE(s[1..]);
    }
  }

  /** A field of w bytes holds v exactly when it is v's little-endian bytes. */
  lemma FieldIs(s: seq<byte>, p: nat, w: nat, v: nat)
    requires p + w <= |s| && v < Span(w)
    ensures Load(s, p, w) == v <==> s[p..p + w] == ToLE(v, w)
  {
    ToFromLE(s[p..p + w]);
    FromToLE(v, w);
  }

  lemma SpanWords()
    ensures Span(4) == U32 && Span(8) == U64
  {
    assert Span(1) == 256 && Span(2) == 0x1_0000 && Span(3) == 0x100_0000;
    assert Span(4) == U32;
    assert Span(5) == 256 * U32 && Span(6) == 0x1_0000 * U32 && Span(7) == 0x100_0000 * U32;
  }

  lemma {:induction false} FromLEBound(s: seq<byte>)
    ensures FromLE(s) < Span(|s|)
  {
    if s != [] {
      FromLEBound(s[1..]);
    }
  }

  /** The w-byte word at position p. */
  function Load(m: seq<byte>, p: nat, w: nat): nat
    requires p + w <= |m|
  {
    FromLE(m[p..p + w])
  }

  /** A word depends on its own bytes only. */
  lemma LoadFrame(m: seq<byte>, m': seq<byte>, p: nat, w: nat)
    requires p + w <= |m| && p + w <= |m'|
    requires forall x | p <= x < p + w :: m[x] == m'[x]
    ensures Load(m, p, w) == Load(m', p, w)
  {
    assert m[p..p + w] == m'[p..p + w];
  }

  /** One machine store of a w-byte word. */
  method Store(a: array<byte>, p: nat, w: nat, v: nat)
    requires p + w <= a.Length && v < Span(w)
    modifies a
    ensures Load(a[..], p, w) == v
    ensures forall x | 0 <= x < a.Length && !(p <= x < p + w) :: a[x] == old(a[x])
  {
    var bytes := ToLE(v, w);
    forall k | 0 <= k < w {
      a[p + k] := bytes[k];
    }
    assert a[..][p..p + w] == bytes;
    FromToLE(v, w);
  }
}
