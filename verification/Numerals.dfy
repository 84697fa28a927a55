/** itoa.s and atoi: signed decimal and base-n numerals. */
module Numerals {
  import opened Bytes

  const MINUS: byte := 45
  const INT_MIN: int := -0x8000_0000
  const INT_MAX: int := 0x7FFF_FFFF

  predicate Int32(v: int) {
    INT_MIN <= v <= INT_MAX
  }

  function Abs(v: int): nat {
    if v >= 0 then v else -v
  }

  /** idiv truncates toward zero; the remainder has the dividend's sign. */
  function Quot(v: int, base: int): int
    requires base > 0
  {
    if v >= 0 then Abs(v) / base else -(Abs(v) / base)
  }

  function Rem(v: int, base: int): int
    requires base > 0
  {
    if v >= 0 then Abs(v) % base else -(Abs(v) % base)
  }

  /** Quotient and remainder recombine to the dividend, with both signs. */
  lemma QuotRem(v: int, base: int)
    requires base >= 2
    ensures v == Quot(v, base) * base + Rem(v, base)
  {
    var q, r := Abs(v) / base, Abs(v) % base;
    Shrinks(Abs(v), base);
    assert v < 0 ==> Quot(v, base) == -q && Rem(v, base) == -r;
    NegatedProduct(q, base);
  }

  lemma NegatedProduct(q: int, base: int)
    ensures (-q) * base == -(q * base)
  {
  }

  lemma Shrinks(a: nat, base: nat)
    requires base >= 2
    ensures a == (a / base) * base + a % base && 0 <= a % base < base && (a > 0 ==> a / base < a)
  {
    DoubleAtMost(a / base, base);
    assert a == (a / base) * base + a % base;
  }

  lemma DoubleAtMost(q: nat, base: nat)
    requires base >= 2
    ensures q * base >= 2 * q
  {
    var k := base - 2;
    assert q * k >= 0;
    assert q * (2 + k) == 2 * q + q * k;
  }

  /** The character of digit d. */
  function DigitChar(d: nat): byte
    requires d < 36
  {
    if d < 10 then 48 + d else 87 + d
  }

  /** .LC0, "zyx...cba987654321" then "0123456789abc...xyz": digit d is at index 35 + d and again at 35 - d. */
  function TableByte(i: nat): byte
    requires i < 71
  {
    if i < 26 then 122 - i else if i < 35 then 57 - (i - 26) else if i < 45 then 48 + (i - 35) else 97 + (i - 45)
  }

  /** The table is a mirror: a negative remainder finds its digit without being negated. */
  lemma Mirror(r: int)
    requires -36 < r < 36
    ensures TableByte(35 + r) == DigitChar(Abs(r))
  {
  }

  lemma RemRange(v: int, base: int)
    requires base >= 2
    ensures -base < Rem(v, base) < base && (Quot(v, base) != 0 ==> Abs(Quot(v, base)) < Abs(v))
  {
    Shrinks(Abs(v), base);
  }

  // ---- Digits and their meaning ----

  /** itoa's digits, least significant first. */
  function DigitsOf(v: int, base: int): (s: seq<byte>)
    requires 2 <= base <= 36
    ensures s != []
    decreases Abs(v)
  {
    RemRange(v, base);
    var d := TableByte(35 + Rem(v, base));
    if Quot(v, base) == 0 then [d] else [d] + DigitsOf(Quot(v, base), base)
  }

  function Reversed(s: seq<byte>): (r: seq<byte>)
    ensures |r| == |s|
  {
    if s == [] then [] else Reversed(s[1..]) + [s[0]]
  }

  /** What itoa leaves in the buffer, up to the terminator. */
  function Numeral(v: int, base: int): (s: seq<byte>)
    requires 2 <= base <= 36
    ensures |s| == |DigitsOf(v, base)| + if v < 0 then 1 else 0
  {
    (if v < 0 then [MINUS] else []) + Reversed(DigitsOf(v, base))
  }

  function DigitValue(c: byte): int {
    if 48 <= c <= 57 then c - 48 else c - 87
  }

  /** Positional value of a string of digits, most significant first. */
  function ValueOf(s: seq<byte>, base: int): int {
    if s == [] then 0 else ValueOf(s[..|s| - 1], base) * base + DigitValue(s[|s| - 1])
  }

  /** '0' to '9', then 'a' to 'z', as far as the base goes. */
  predicate IsDigitIn(c: byte, base: int) {
    (48 <= c <= 57 && c - 48 < base) || (97 <= c <= 122 && c - 87 < base)
  }

  ghost predicate AllDigits(s: seq<byte>, base: int) {
    forall k | 0 <= k < |s| :: IsDigitIn(s[k], base)
  }

  /** A numeral for v: a minus sign exactly when v is negative, then digits of the absolute value, most significant
      first and no zero in front. */
  ghost predicate Denotes(s: seq<byte>, v: int, base: int) {
    var signed := s != [] && s[0] == MINUS;
    var digits := if signed then s[1..] else s;
    && (signed <==> v < 0)
    && digits != [] && AllDigits(digits, base) && ValueOf(digits, base) == Abs(v)
    && (|digits| > 1 ==> digits[0] != 48)
  }

  /** The digits denote the absolute value, in every base. */
  lemma {:induction false} DigitsDenote(v: int, base: int)
    requires 2 <= base <= 36
    ensures ValueOf(Reversed(DigitsOf(v, base)), base) == Abs(v)
    ensures AllDigits(Reversed(DigitsOf(v, base)), base)
    decreases Abs(v)
  {
    hide Quot, Rem, TableByte, DigitChar;
    var q, r := Quot(v, base), Rem(v, base);
    Magnitudes(v, base);
    Mirror(r);
    var d, ds := DigitChar(Abs(r)), DigitsOf(v, base);
    DigitCharValue(Abs(r));
    if q == 0 {
      assert ds[1..] == [] && Reversed(ds) == [d] && [d][..0] == [];
    } else {
      DigitsDenote(q, base);
      var up := Reversed(DigitsOf(q, base));
      assert ds[1..] == DigitsOf(q, base);
      assert Reversed(ds) == up + [d] && (up + [d])[..|up|] == up;
    }
  }

  lemma Magnitudes(v: int, base: int)
    requires base >= 2
    ensures Abs(v) == Abs(Quot(v, base)) * base + Abs(Rem(v, base))
    ensures Abs(Rem(v, base)) < base && (Quot(v, base) != 0 ==> Abs(Quot(v, base)) < Abs(v))
  {
    hide Quot, Rem;
    QuotRem(v, base);
    RemRange(v, base);
    SignsAgree(v, base);
    NegatedProduct(Quot(v, base), base);
  }

  /** Quotient and remainder have the dividend's sign. */
  lemma SignsAgree(v: int, base: int)
    requires base >= 2
    ensures v >= 0 ==> Quot(v, base) >= 0 && Rem(v, base) >= 0
    ensures v <= 0 ==> Quot(v, base) <= 0 && Rem(v, base) <= 0
  {
    Shrinks(Abs(v), base);
    assert Abs(v) / base >= 0;
  }

  lemma DigitCharValue(d: nat)
    requires d < 36
    ensures DigitValue(DigitChar(d)) == d && forall base | d < base :: IsDigitIn(DigitChar(d), base)
    ensures DigitChar(d) == 48 <==> d == 0
  {
  }

  /** The most significant digit is a zero only for 0 itself. */
  lemma {:induction false} LeadingDigit(v: int, base: int)
    requires 2 <= base <= 36
    ensures var ds := DigitsOf(v, base);
            && (v == 0 ==> |ds| == 1)
            && (v != 0 ==> ds[|ds| - 1] != 48)
    decreases Abs(v)
  {
    hide Quot, Rem, TableByte, DigitChar;
    Magnitudes(v, base);
    RemRange(v, base);
    Mirror(Rem(v, base));
    DigitCharValue(Abs(Rem(v, base)));
    var q := Quot(v, base);
    if q != 0 {
      LeadingDigit(q, base);
      var ds, up := DigitsOf(v, base), DigitsOf(q, base);
      assert ds[1..] == up;
      assert ds[|ds| - 1] == up[|up| - 1];
    }
  }

  // ---- itoa ----

  lemma {:induction false} ReversedSnoc(s: seq<byte>, c: byte)
    ensures Reversed(s + [c]) == [c] + Reversed(s)
  {
    if s != [] {
      ReversedSnoc(s[1..], c);
      assert (s + [c])[1..] == s[1..] + [c];
    } else {
      assert [c][1..] == [];
    }
  }

  lemma {:induction false} ReversedIndex(s: seq<byte>, k: nat)
    requires k < |s|
    ensures Reversed(s)[k] == s[|s| - 1 - k]
  {
    var rest := Reversed(s[1..]);
    assert Reversed(s) == rest + [s[0]] && |rest| == |s| - 1;
    if k < |s| - 1 {
      ReversedIndex(s[1..], k);
      assert rest[k] == s[1..][|s| - 2 - k];
    }
  }

  /** What itoa leaves is a numeral for its argument, in every base. */
  lemma NumeralDenotes(v: int, base: int)
    requires 2 <= base <= 36
    ensures Denotes(Numeral(v, base), v, base) && 0 !in Numeral(v, base)
  {
    hide DigitsOf, Reversed, ValueOf;
    var ds := DigitsOf(v, base);
    var digits := Reversed(ds);
    DigitsDenote(v, base);
    LeadingDigit(v, base);
    ReversedIndex(ds, 0);
    var s := Numeral(v, base);
    assert IsDigitIn(digits[0], base);
    if v < 0 {
      assert s == [MINUS] + digits && s[1..] == digits;
    } else {
      assert s == digits;
    }
  }

  /** The closing two-pointer exchange, over the first n bytes. */
  method ReversePrefix(str: array<byte>, n: nat)
    requires n <= str.Length
    modifies str
    ensures str[..n] == Reversed(old(str[..n])) && str[n..] == old(str[n..])
  {
    ghost var was := str[..];
    var lo, hi := 0, n - 1;
    while lo < hi
      invariant 0 <= lo <= hi + 1 && lo + hi == n - 1
      invariant forall x | 0 <= x < lo :: str[x] == was[n - 1 - x] && str[n - 1 - x] == was[x]
      invariant forall x | lo <= x <= hi || n <= x < str.Length :: str[x] == was[x]
    {
      str[lo], str[hi] := str[hi], str[lo];
      lo, hi := lo + 1, hi - 1;
    }
    ReversedIs(str[..], was, n);
    assert str[..][..n] == str[..n] && str[..][n..] == str[n..];
  }

  lemma ReversedIs(now: seq<byte>, was: seq<byte>, n: nat)
    requires n <= |now| == |was|
    requires forall x | 0 <= x < n :: now[x] == was[n - 1 - x]
    requires forall x | n <= x < |now| :: now[x] == was[x]
    ensures now[..n] == Reversed(was[..n]) && now[n..] == was[n..]
  {
    forall k | 0 <= k < n
      ensures now[..n][k] == Reversed(was[..n])[k]
    {
      ReversedIndex(was[..n], k);
    }
  }

  /** itoa; bytes after the terminator are left as they were. */
  method Itoa(value: int, str: array<byte>, base: int)
    requires Int32(value) && 0 < str.Length
    requires 2 <= base <= 36 ==> |Numeral(value, base)| < str.Length
    modifies str
    ensures 2 <= base <= 36 ==> var s := Numeral(value, base);
              && str[..|s|] == s && str[|s|] == 0 && str[|s| + 1..] == old(str[|s| + 1..])
              && Denotes(str[..|s|], value, base) && 0 !in str[..|s|]
    ensures !(2 <= base <= 36) ==> str[0] == 0 && str[1..] == old(str[1..])
  {
    hide DigitsOf, Reversed, Written;
    if !(0 <= base - 2 <= 34) {
      str[0] := 0;
      return;
    }
    ghost var was, raw := str[..], DigitsOf(value, base);
    var end, dividend := WriteDigits(value, str, base);
    if dividend < 0 {
      ghost var before := str[..];
      str[end] := MINUS;
      WrittenSnoc(before, str[..], was, raw, MINUS);
      ReversedSnoc(raw, MINUS);
      end, raw := end + 1, raw + [MINUS];
    }
    ghost var unended := str[..];
    str[end] := 0;
    WrittenSnoc(unended, str[..], was, raw, 0);
    ghost var before := str[..];
    ReversePrefix(str, end);
    Finished(before, str[..], was, raw);
    NumeralDenotes(value, base);
  }

  lemma WrittenSnoc(before: seq<byte>, now: seq<byte>, was: seq<byte>, raw: seq<byte>, c: byte)
    requires Written(before, was, raw, |raw|) && |raw| < |was| == |before| && now == before[|raw| := c]
    ensures Written(now, was, raw + [c], |raw| + 1)
  {
  }

  /** Digits, sign and terminator, once the part before the terminator is reversed. */
  lemma Finished(before: seq<byte>, now: seq<byte>, was: seq<byte>, raw: seq<byte>)
    requires Written(before, was, raw + [0], |raw| + 1) && |raw| < |before| == |now|
    requires now[..|raw|] == Reversed(before[..|raw|]) && now[|raw|..] == before[|raw|..]
    ensures now[..|raw|] == Reversed(raw) && now[|raw|] == 0 && |was| == |now| && now[|raw| + 1..] == was[|raw| + 1..]
  {
    hide Reversed, Written;
    Ended(before, was, raw);
    SameSuffix(now, before, |raw|);
  }

  lemma Ended(a: seq<byte>, was: seq<byte>, raw: seq<byte>)
    requires Written(a, was, raw + [0], |raw| + 1)
    ensures |raw| < |a| == |was| && a[..|raw|] == raw && a[|raw|] == 0 && a[|raw| + 1..] == was[|raw| + 1..]
  {
    assert forall k | 0 <= k < |raw| :: a[k] == raw[k];
  }

  lemma SameSuffix(a: seq<byte>, b: seq<byte>, n: nat)
    requires n < |a| == |b| && a[n..] == b[n..]
    ensures a[n] == b[n] && a[n + 1..] == b[n + 1..]
  {
    assert a[n] == a[n..][0] && b[n] == b[n..][0];
    assert a[n + 1..] == a[n..][1..] && b[n + 1..] == b[n..][1..];
  }

  /** The division loop: digits of ever smaller quotients, least significant first; also the last dividend. */
  method WriteDigits(value: int, str: array<byte>, base: int) returns (end: nat, dividend: int)
    requires 2 <= base <= 36 && |DigitsOf(value, base)| <= str.Length
    modifies str
    ensures end == |DigitsOf(value, base)| && Written(str[..], old(str[..]), DigitsOf(value, base), end)
    ensures dividend < 0 <==> value < 0
  {
    hide Quot, Rem, TableByte, DigitsOf, Written;
    ghost var was, all := str[..], DigitsOf(value, base);
    var rest := value;
    dividend, end := value, 0;
    assert all[0..] == all;
    WrittenNone(was, all);
    while true
      invariant 0 <= end < |all| && all[end..] == DigitsOf(rest, base)
      invariant rest < 0 <==> value < 0
      invariant Written(str[..], was, all, end)
      decreases Abs(rest)
    {
      DigitsStep(rest, base);
      dividend := rest;
      var remainder := Rem(rest, base);
      rest := Quot(rest, base);
      ghost var before := str[..];
      str[end] := TableByte(remainder + 35);
      WrittenMore(before, str[..], was, all, end);
      end := end + 1;
      if rest == 0 {
        break;
      }
    }
  }

  /** The first end bytes are those of all, the others as before. */
  ghost predicate Written(now: seq<byte>, was: seq<byte>, all: seq<byte>, end: nat) {
    && end <= |all| <= |was| == |now|
    && forall x | 0 <= x < |now| :: now[x] == if x < end then all[x] else was[x]
  }

  lemma WrittenNone(was: seq<byte>, all: seq<byte>)
    requires |all| <= |was|
    ensures Written(was, was, all, 0)
  {
  }

  lemma WrittenMore(before: seq<byte>, now: seq<byte>, was: seq<byte>, all: seq<byte>, end: nat)
    requires Written(before, was, all, end) && end < |all| && now == before[end := all[end..][0]]
    ensures Written(now, was, all, end + 1) && all[end + 1..] == all[end..][1..]
  {
  }

  lemma DigitsStep(v: int, base: int)
    requires 2 <= base <= 36
    ensures 0 <= Rem(v, base) + 35 < 71
    ensures DigitsOf(v, base) == [TableByte(Rem(v, base) + 35)] + DigitsOf(v, base)[1..]
    ensures DigitsOf(v, base)[1..] == if Quot(v, base) == 0 then [] else DigitsOf(Quot(v, base), base)
    ensures Quot(v, base) != 0 ==> DigitsOf(v, base)[1..] != []
    ensures Quot(v, base) != 0 ==> (Quot(v, base) < 0 <==> v < 0) && Abs(Quot(v, base)) < Abs(v)
  {
    Magnitudes(v, base);
  }

  // ---- atoi ----

  /** atoi's result; Overflow marks inputs on which its int arithmetic is undefined. */
  datatype Parsed = Overflow | Value(value: int)

  predicate IsDigit(c: byte) {
    48 <= c <= 57
  }

  function Accumulate(s: seq<byte>, i: nat, result: int): Parsed
    requires i <= |s|
    decreases |s| - i
  {
    if i == |s| || !IsDigit(s[i]) then Value(result)
    else if result * 10 + (s[i] - 48) > INT_MAX then Overflow
    else Accumulate(s, i + 1, result * 10 + (s[i] - 48))
  }

  function Parse(s: seq<byte>): Parsed {
    if s != [] && s[0] == MINUS then
      match Accumulate(s, 1, 0) case Overflow => Overflow case Value(r) => Value(-r)
    else Accumulate(s, 0, 0)
  }

  /** atoi */
  method Atoi(str: seq<byte>) returns (r: Parsed)
    requires 0 in str
    ensures r == Parse(str)
  {
    var result, sign, i := 0, 1, 0;
    if str[i] == MINUS {
      sign := -1;
      i := i + 1;
    }
    ghost var first := i;
    while i < |str| && str[i] >= 48 && str[i] <= 57
      invariant first <= i <= |str| && result >= 0
      invariant Accumulate(str, first, 0) == Accumulate(str, i, result)
    {
      if result * 10 + (str[i] - 48) > INT_MAX {
        return Overflow;
      }
      result := result * 10 + (str[i] - 48);
      i := i + 1;
    }
    return Value(sign * result);
  }

  ghost predicate Decimal(s: seq<byte>) {
    forall k | 0 <= k < |s| :: IsDigit(s[k])
  }

  lemma {:induction false} ValueGrows(s: seq<byte>, i: nat)
    requires Decimal(s) && i <= |s|
    ensures 0 <= ValueOf(s[..i], 10) <= ValueOf(s, 10)
    decreases |s|
  {
    if i < |s| {
      var t := s[..|s| - 1];
      ValueGrows(t, i);
      assert t[..i] == s[..i];
    } else {
      assert s[..i] == s;
      if s != [] {
        ValueGrows(s[..|s| - 1], |s| - 1);
        assert s[..|s| - 1][..|s| - 1] == s[..|s| - 1];
      }
    }
  }

  /** After i digits the accumulator holds the value of that prefix. */
  lemma {:induction false} AccumulateDenotes(sign: seq<byte>, s: seq<byte>, rest: seq<byte>, i: nat)
    requires Decimal(s) && (rest != [] ==> !IsDigit(rest[0])) && i <= |s| && ValueOf(s[..i], 10) <= INT_MAX
    ensures Accumulate(sign + s + rest, |sign| + i, ValueOf(s[..i], 10))
            == if ValueOf(s, 10) > INT_MAX then Overflow else Value(ValueOf(s, 10))
    decreases |s| - i
  {
    var all := sign + s + rest;
    if i == |s| {
      assert s[..i] == s;
      assert rest != [] ==> all[|sign| + i] == rest[0];
    } else {
      assert all[|sign| + i] == s[i] && IsDigit(s[i]);
      assert s[..i + 1][..i] == s[..i];
      ValueGrows(s, i + 1);
      if ValueOf(s[..i + 1], 10) <= INT_MAX {
        AccumulateDenotes(sign, s, rest, i + 1);
      }
    }
  }

  /** The longest run of digits at the front. */
  lemma {:induction false} DigitRun(s: seq<byte>) returns (digits: seq<byte>, rest: seq<byte>)
    ensures s == digits + rest && Decimal(digits) && (rest != [] ==> !IsDigit(rest[0]))
    decreases |s|
  {
    if s == [] || !IsDigit(s[0]) {
      digits, rest := [], s;
    } else {
      digits, rest := DigitRun(s[1..]);
      digits := [s[0]] + digits;
    }
  }

  /** atoi on any string: an optional minus, the digits that follow, and the value they denote. */
  lemma ParseDenotes(s: seq<byte>) returns (sign: seq<byte>, digits: seq<byte>, rest: seq<byte>)
    ensures s == sign + digits + rest && sign == (if s != [] && s[0] == MINUS then [MINUS] else [])
    ensures Decimal(digits) && (rest != [] ==> !IsDigit(rest[0]))
    ensures var n := ValueOf(digits, 10);
            Parse(s) == if n > INT_MAX then Overflow else Value(if sign == [] then n else -n)
  {
    hide Accumulate, ValueOf;
    sign := if s != [] && s[0] == MINUS then [MINUS] else [];
    digits, rest := DigitRun(s[|sign|..]);
    EmptyValue();
    assert digits[..0] == [];
    assert s == sign + digits + rest;
    AccumulateDenotes(sign, digits, rest, 0);
  }

  lemma DigitsAreDecimal(s: seq<byte>)
    requires AllDigits(s, 10)
    ensures Decimal(s)
  {
  }

  /** atoi reads back what itoa printed in base ten, for every 32-bit value but the least. */
  lemma AtoiOfItoa(v: int)
    requires Int32(v)
    ensures Parse(Numeral(v, 10) + [0]) == if v == INT_MIN then Overflow else Value(v)
    ensures Parse(Numeral(v, 10) + [0]) == Value(v) <==> v != INT_MIN
  {
    hide Accumulate, DigitsOf, Reversed, ValueOf;
    var s := Reversed(DigitsOf(v, 10));
    var sign := if v < 0 then [MINUS] else [];
    DigitsDenote(v, 10);
    DigitsAreDecimal(s);
    EmptyValue();
    assert s[..0] == [];
    AccumulateDenotes(sign, s, [0], 0);
    assert v >= 0 ==> (sign + s + [0])[0] == s[0] && IsDigit(s[0]) && sign + s == s;
  }

  lemma EmptyValue()
    ensures ValueOf([], 10) == 0
  {
  }
}
