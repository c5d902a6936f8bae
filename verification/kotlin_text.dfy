/**
 * The parts of the Kotlin standard library the core leans on, stated as
 * functions on `seq<char>`: digit and whitespace classes, `isBlank`,
 * `Int.toString`, `String.toInt`, `padStart`, `contains`, `split` with a
 * limit, `takeWhile`, `lowercase` and the truncating `/`, `%` and
 * `toInt()` of Kotlin's fixed-width integers.
 */
module KotlinText {
  import opened Wrappers

  // ---------------------------------------------------------------------
  // Fixed-width integers

  const MinInt: int := -0x8000_0000
  const MaxInt: int := 0x7FFF_FFFF
  const MinLong: int := -0x8000_0000_0000_0000
  const MaxLong: int := 0x7FFF_FFFF_FFFF_FFFF

  predicate IsInt(x: int) { MinInt <= x <= MaxInt }
  predicate IsLong(x: int) { MinLong <= x <= MaxLong }

  /** `Long.toInt()`: keeps the low 32 bits, read as two's complement. */
  function ToInt(x: int): (r: int)
    ensures IsInt(r)
    ensures (x - r) % 0x1_0000_0000 == 0
    ensures IsInt(x) ==> r == x
  {
    var m := x % 0x1_0000_0000;
    if m > MaxInt then m - 0x1_0000_0000 else m
  }

  /** Wrap-around of a 64-bit `Long` operation. */
  function ToLong(x: int): (r: int)
    ensures IsLong(r)
    ensures (x - r) % 0x1_0000_0000_0000_0000 == 0
    ensures IsLong(x) ==> r == x
  {
    var m := x % 0x1_0000_0000_0000_0000;
    if m > MaxLong then m - 0x1_0000_0000_0000_0000 else m
  }

  /** Kotlin's integer `/` for a positive divisor: truncates toward zero. */
  function Quot(a: int, b: int): (q: int)
    requires b > 0
    ensures a >= 0 ==> 0 <= q && 0 <= a - b * q < b
    ensures a < 0 ==> q <= 0 && -b < a - b * q <= 0
  {
    if a >= 0 then
      EuclidBounds(a, b);
      a / b
    else
      EuclidBounds(-a, b);
      -((-a) / b)
  }

  lemma EuclidBounds(n: int, b: int)
    requires n >= 0 && b > 0
    ensures 0 <= n / b && 0 <= n - b * (n / b) < b
    ensures b * -(n / b) == -(b * (n / b))
  {
  }

  /** Kotlin's integer `%` for a positive divisor: takes the sign of `a`. */
  function Rem(a: int, b: int): (r: int)
    requires b > 0
    ensures a == b * Quot(a, b) + r
    ensures a >= 0 ==> 0 <= r < b
    ensures a < 0 ==> -b < r <= 0
  {
    a - b * Quot(a, b)
  }

  // ---------------------------------------------------------------------
  // Character classes

  /**
   * Code points of the digit zero of each block of decimal digits
   * (general category Nd) in the Basic Multilingual Plane, as of Unicode 15;
   * each block holds the ten digits zero to nine in order.
   */
  const DigitZeros: seq<int> := [
    0x0030, 0x0660, 0x06F0, 0x07C0, 0x0966, 0x09E6, 0x0A66, 0x0AE6, 0x0B66,
    0x0BE6, 0x0C66, 0x0CE6, 0x0D66, 0x0DE6, 0x0E50, 0x0ED0, 0x0F20, 0x1040,
    0x1090, 0x17E0, 0x1810, 0x1946, 0x19D0, 0x1A80, 0x1A90, 0x1B50, 0x1BB0,
    0x1C40, 0x1C50, 0xA620, 0xA8D0, 0xA900, 0xA9D0, 0xA9F0, 0xAA50, 0xABF0,
    0xFF10]

  /** The zero of the first digit block, from index `i` on, that holds `c`. */
  function DigitZeroFrom(c: char, i: nat): (z: Option<int>)
    ensures z.Some? ==> z.value <= c as int < z.value + 10
    decreases |DigitZeros| - i
  {
    if i >= |DigitZeros| then None
    else if DigitZeros[i] <= c as int < DigitZeros[i] + 10 then Some(DigitZeros[i])
    else DigitZeroFrom(c, i + 1)
  }

  /** `Char.isDigit()`. */
  predicate IsDigit(c: char)
    ensures '0' <= c <= '9' ==> IsDigit(c)
  {
    DigitZeroFrom(c, 0).Some?
  }

  /** A character is a digit exactly when it lies in one of the blocks. */
  lemma IsDigitInBlock(c: char)
    ensures IsDigit(c) <==> exists k :: 0 <= k < |DigitZeros| && DigitZeros[k] <= c as int < DigitZeros[k] + 10
  {
    DigitZeroFromFinds(c, 0);
  }

  lemma {:induction false} DigitZeroFromFinds(c: char, i: nat)
    ensures DigitZeroFrom(c, i).Some?
      <==> exists k :: i <= k < |DigitZeros| && DigitZeros[k] <= c as int < DigitZeros[k] + 10
    decreases |DigitZeros| - i
  {
    if i < |DigitZeros| {
      DigitZeroFromFinds(c, i + 1);
    }
  }

  /** The decimal value of a digit, as `Character.digit(c, 10)`. */
  function DigitValue(c: char): (d: nat)
    requires IsDigit(c)
    ensures d < 10
  {
    c as int - DigitZeroFrom(c, 0).value
  }

  predicate IsAsciiDigit(c: char) { '0' <= c <= '9' }

  lemma AsciiDigit(c: char)
    requires IsAsciiDigit(c)
    ensures IsDigit(c) && DigitValue(c) == c as int - '0' as int
  {
  }

  /** `Char.isWhitespace()`: Java's `isWhitespace` or `isSpaceChar`. */
  predicate IsWhitespace(c: char) {
    var n := c as int;
    (0x09 <= n <= 0x0D) || (0x1C <= n <= 0x20) || n == 0xA0 || n == 0x1680
    || (0x2000 <= n <= 0x200A) || n == 0x2028 || n == 0x2029 || n == 0x202F
    || n == 0x205F || n == 0x3000
  }

  /** `CharSequence.isBlank()`: empty or whitespace only, so a text with a
      digit in it is never blank. */
  predicate IsBlank(s: string)
    ensures |s| == 0 ==> IsBlank(s)
    ensures IsBlank(s) ==> forall i :: 0 <= i < |s| ==> !IsAsciiDigit(s[i])
  {
    forall i :: 0 <= i < |s| ==> IsWhitespace(s[i])
  }

  /** `String?.isNullOrBlank()`. */
  predicate IsNullOrBlank(s: Option<string>) {
    s.None? || IsBlank(s.value)
  }

  predicate AllDigits(s: string) {
    forall i :: 0 <= i < |s| ==> IsDigit(s[i])
  }

  predicate AllAsciiDigits(s: string) {
    forall i :: 0 <= i < |s| ==> IsAsciiDigit(s[i])
  }

  lemma AsciiDigitsAreDigits(s: string)
    requires AllAsciiDigits(s)
    ensures AllDigits(s)
  {
    forall i | 0 <= i < |s| ensures IsDigit(s[i]) {
      AsciiDigit(s[i]);
    }
  }

  // ---------------------------------------------------------------------
  // Printing and parsing integers

  function DigitChar(d: nat): (c: char)
    requires d < 10
    ensures IsAsciiDigit(c) && c as int - '0' as int == d
  {
    ('0' as int + d) as char
  }

  /** The decimal digits of `n`, most significant first, no leading zero. */
  function NatToString(n: nat): (s: string)
    ensures |s| >= 1 && AllAsciiDigits(s)
    ensures |s| > 1 ==> s[0] != '0'
  {
    if n < 10 then [DigitChar(n)] else NatToString(n / 10) + [DigitChar(n % 10)]
  }

  /** `Int.toString()` / `Long.toString()` and string templates of them. */
  function IntToString(n: int): string {
    if n < 0 then "-" + NatToString(-n) else NatToString(n)
  }

  /** The value of a string of decimal digits, read most significant first. */
  function DigitsValue(s: string): nat
    requires AllDigits(s)
  {
    if |s| == 0 then 0 else DigitsValue(s[..|s| - 1]) * 10 + DigitValue(s[|s| - 1])
  }

  /** The value of a string of ASCII digits. */
  function AsciiValue(s: string): nat
    requires AllAsciiDigits(s)
  {
    if |s| == 0 then 0 else AsciiValue(s[..|s| - 1]) * 10 + (s[|s| - 1] as int - '0' as int)
  }

  lemma {:induction false} AsciiValueIsDigitsValue(s: string)
    requires AllAsciiDigits(s)
    ensures AllDigits(s) && AsciiValue(s) == DigitsValue(s)
  {
    AsciiDigitsAreDigits(s);
    if |s| > 0 {
      AsciiValueIsDigitsValue(s[..|s| - 1]);
      AsciiDigit(s[|s| - 1]);
    }
  }

  /** `k` ASCII digits denote a number below `10^k`. */
  lemma {:induction false} AsciiValueBound(s: string)
    requires AllAsciiDigits(s)
    ensures AsciiValue(s) < Pow10(|s|)
  {
    if |s| > 0 {
      AsciiValueBound(s[..|s| - 1]);
    }
  }

  /** Two digit strings of the same length that denote the same number are
      the same string. */
  lemma {:induction false} AsciiValueInjective(a: string, b: string)
    requires AllAsciiDigits(a) && AllAsciiDigits(b) && |a| == |b|
    requires AsciiValue(a) == AsciiValue(b)
    ensures a == b
  {
    if |a| > 0 {
      var n := |a| - 1;
      var da, db := a[n] as int - '0' as int, b[n] as int - '0' as int;
      assert AsciiValue(a[..n]) * 10 + da == AsciiValue(b[..n]) * 10 + db;
      assert da == db && AsciiValue(a[..n]) == AsciiValue(b[..n]);
      AsciiValueInjective(a[..n], b[..n]);
      assert a == a[..n] + [a[n]];
      assert b == b[..n] + [b[n]];
    }
  }

  /** The text after an optional leading sign. */
  function Unsigned(s: string): (body: string)
    requires |s| > 0
    ensures |body| == |s| || (|body| == |s| - 1 && (s[0] == '-' || s[0] == '+'))
  {
    if s[0] == '-' || s[0] == '+' then s[1..] else s
  }

  /**
   * `String.toInt()`: an optional `+` or `-` sign and at least one decimal
   * digit, whose value fits in 32 bits; anything else is a
   * NumberFormatException, modelled as None.
   */
  function ParseInt(s: string): (r: Option<int>)
    ensures r.Some? <==>
      |s| > 0 && |Unsigned(s)| > 0 && AllDigits(Unsigned(s))
      && (if s[0] == '-' then DigitsValue(Unsigned(s)) <= -MinInt else DigitsValue(Unsigned(s)) <= MaxInt)
    ensures r.Some? ==>
      r.value == (if s[0] == '-' then -(DigitsValue(Unsigned(s)) as int) else DigitsValue(Unsigned(s)))
    ensures r.Some? ==> IsInt(r.value)
  {
    if |s| == 0 then None
    else
      var body := Unsigned(s);
      if |body| == 0 || !AllDigits(body) then None
      else
        var v: int := if s[0] == '-' then -(DigitsValue(body) as int) else DigitsValue(body);
        if IsInt(v) then Some(v) else None
  }

  lemma {:induction false} DigitsValueOfNatToString(n: nat)
    ensures AllDigits(NatToString(n)) && DigitsValue(NatToString(n)) == n
  {
    var s := NatToString(n);
    AsciiDigitsAreDigits(s);
    if n < 10 {
      AsciiDigit(s[0]);
      assert s[..0] == [];
    } else {
      var t := NatToString(n / 10);
      assert s[..|s| - 1] == t;
      DigitsValueOfNatToString(n / 10);
      AsciiDigit(s[|s| - 1]);
    }
  }

  /** Printing a 32-bit integer and parsing it back gives the same number. */
  lemma ParseIntOfIntToString(n: int)
    requires IsInt(n)
    ensures ParseInt(IntToString(n)) == Some(n)
  {
    var digits := NatToString(if n < 0 then -n else n);
    DigitsValueOfNatToString(if n < 0 then -n else n);
    if n < 0 {
      assert IntToString(n)[1..] == digits;
    }
  }

  /** Leading zeros do not change the value of a digit string. */
  lemma {:induction false} DigitsValueLeadingZeros(z: string, s: string)
    requires forall i :: 0 <= i < |z| ==> z[i] == '0'
    requires AllDigits(s)
    ensures AllDigits(z + s) && DigitsValue(z + s) == DigitsValue(s)
  {
    assert forall i :: 0 <= i < |z| ==> IsAsciiDigit(z[i]);
    AsciiDigitsAreDigits(z);
    if |s| == 0 {
      assert z + s == z;
      if |z| > 0 {
        assert z[..|z| - 1] + [] == z[..|z| - 1];
        DigitsValueLeadingZeros(z[..|z| - 1], []);
        AsciiDigit(z[|z| - 1]);
      }
    } else {
      assert (z + s)[..|z + s| - 1] == z + s[..|s| - 1];
      DigitsValueLeadingZeros(z, s[..|s| - 1]);
    }
  }

  // ---------------------------------------------------------------------
  // Padding, searching, splitting

  /** `String.padStart(length, padChar)` for a non-negative length. */
  function PadStart(s: string, length: nat, pad: char): (r: string)
    ensures |r| == if |s| >= length then |s| else length
    ensures r == seq(|r| - |s|, _ => pad) + s
  {
    if |s| >= length then s else seq(length - |s|, _ => pad) + s
  }

  /** `Int.toString().padStart(2, '0')`, the `pad()` helpers of the app. */
  function Pad(n: int): (r: string)
    ensures |r| >= 2
    ensures 0 <= n < 10 ==> r == ['0', DigitChar(n)]
    ensures n >= 10 ==> r == IntToString(n)
  {
    PadStart(IntToString(n), 2, '0')
  }

  lemma {:induction false} NatToStringLength(n: nat, bound: nat, k: nat)
    requires k >= 1 && n < bound && bound == Pow10(k)
    ensures |NatToString(n)| <= k
  {
    if n >= 10 {
      assert k != 1;
      NatToStringLength(n / 10, Pow10(k - 1), k - 1);
    }
  }

  function Pow10(k: nat): (p: nat)
    ensures p >= 1
  {
    if k == 0 then 1 else 10 * Pow10(k - 1)
  }

  /** `Pad(n)` of a non-negative `n` has at least two characters, all digits,
      exactly two below 100, and reads back as `n`. */
  lemma PadDenotes(n: int)
    requires 0 <= n
    ensures |Pad(n)| >= 2 && AllAsciiDigits(Pad(n))
    ensures n < 100 ==> |Pad(n)| == 2
    ensures AllDigits(Pad(n)) && DigitsValue(Pad(n)) == n
    ensures n <= MaxInt ==> ParseInt(Pad(n)) == Some(n)
  {
    var s := NatToString(n);
    var z := seq(|Pad(n)| - |s|, _ => '0');
    assert Pad(n) == z + s;
    if n < 100 { NatToStringLength(n, 100, 2); }
    DigitsValueOfNatToString(n);
    DigitsValueLeadingZeros(z, s);
    AsciiDigitsAreDigits(Pad(n));
  }

  /** `s.startsWith(p)`. */
  predicate StartsWith(s: string, p: string) {
    |p| <= |s| && s[..|p|] == p
  }

  /** `p in s` for strings (`CharSequence.contains`). */
  predicate Contains(s: string, p: string)
    decreases |s|
  {
    StartsWith(s, p) || (|s| > 0 && Contains(s[1..], p))
  }

  lemma {:induction false} ContainsAt(s: string, p: string, i: nat)
    requires i <= |s| && StartsWith(s[i..], p)
    ensures Contains(s, p)
  {
    if i > 0 {
      assert s[1..][i - 1..] == s[i..];
      ContainsAt(s[1..], p, i - 1);
    }
  }

  lemma {:induction false} ContainsWitness(s: string, p: string) returns (i: nat)
    requires Contains(s, p)
    ensures i <= |s| && StartsWith(s[i..], p)
  {
    if StartsWith(s, p) {
      i := 0;
    } else {
      var j := ContainsWitness(s[1..], p);
      assert s[1..][j..] == s[j + 1..];
      i := j + 1;
    }
  }

  /** Containment is transitive: a text that holds `p` holds every part of `p`. */
  lemma ContainsTransitive(s: string, p: string, q: string)
    requires Contains(s, p) && Contains(p, q)
    ensures Contains(s, q)
  {
    var i := ContainsWitness(s, p);
    var j := ContainsWitness(p, q);
    assert i + |p| <= |s| && j + |q| <= |p|;
    forall k | 0 <= k < |q|
      ensures s[i + j + k] == q[k]
    {
      assert p[j..][..|q|][k] == q[k];
      assert s[i..][..|p|][j + k] == p[j + k];
    }
    assert s[i + j..][..|q|] == q;
    ContainsAt(s, q, i + j);
  }

  /** Index of the first `c` in `s` (`indexOf`), None when absent. */
  function IndexOf(s: string, c: char): (r: Option<nat>)
    ensures r.Some? ==> r.value < |s| && s[r.value] == c && c !in s[..r.value]
    ensures r.None? ==> c !in s
  {
    if |s| == 0 then None
    else if s[0] == c then Some(0)
    else match IndexOf(s[1..], c)
      case None => None
      case Some(i) =>
        assert s[..i + 1] == [s[0]] + s[1..][..i];
        Some(i + 1)
  }

  /**
   * `s.split(c, limit = limit)`: at most `limit` parts; the last part keeps
   * the rest of the text, separators included.
   */
  function Split(s: string, c: char, limit: nat): (parts: seq<string>)
    requires limit >= 1
    ensures 1 <= |parts| <= limit
    decreases limit
  {
    if limit == 1 then [s]
    else match IndexOf(s, c)
      case None => [s]
      case Some(i) => [s[..i]] + Split(s[i + 1..], c, limit - 1)
  }

  /** The parts joined back with the separator. */
  function Join(parts: seq<string>, c: char): string
    requires |parts| >= 1
  {
    if |parts| == 1 then parts[0] else parts[0] + [c] + Join(parts[1..], c)
  }

  /** Splitting loses nothing: joining the parts gives the text back, and
      every part but the last is free of the separator. The split is also
      as fine as the limit allows: fewer parts than the limit means the
      last part holds no separator either. */
  lemma {:induction false} SplitJoin(s: string, c: char, limit: nat)
    requires limit >= 1
    ensures Join(Split(s, c, limit), c) == s
    ensures forall k :: 0 <= k < |Split(s, c, limit)| - 1 ==> c !in Split(s, c, limit)[k]
    ensures |Split(s, c, limit)| < limit ==> c !in Split(s, c, limit)[|Split(s, c, limit)| - 1]
    decreases limit
  {
    JoinOfSplit(s, c, limit);
    SplitPartsFree(s, c, limit);
    SplitIsMaximal(s, c, limit);
  }

  lemma {:induction false} SplitIsMaximal(s: string, c: char, limit: nat)
    requires limit >= 1
    ensures |Split(s, c, limit)| < limit ==> c !in Split(s, c, limit)[|Split(s, c, limit)| - 1]
    decreases limit
  {
    if limit > 1 {
      match IndexOf(s, c)
      case None =>
      case Some(i) =>
        var rest := Split(s[i + 1..], c, limit - 1);
        SplitIsMaximal(s[i + 1..], c, limit - 1);
        assert Split(s, c, limit) == [s[..i]] + rest;
    }
  }

  lemma {:induction false} JoinOfSplit(s: string, c: char, limit: nat)
    requires limit >= 1
    ensures Join(Split(s, c, limit), c) == s
    decreases limit
  {
    var found := IndexOf(s, c);
    if limit > 1 && found.Some? {
      var i := found.value;
      var rest := Split(s[i + 1..], c, limit - 1);
      assert Split(s, c, limit) == [s[..i]] + rest;
      JoinOfSplit(s[i + 1..], c, limit - 1);
      JoinCons(s[..i], rest, c);
      Rejoin(s, c, i);
    }
  }

  lemma JoinCons(a: string, rest: seq<string>, c: char)
    requires |rest| >= 1
    ensures Join([a] + rest, c) == a + [c] + Join(rest, c)
  {
    assert ([a] + rest)[1..] == rest;
  }

  lemma Rejoin(s: string, c: char, i: nat)
    requires i < |s| && s[i] == c
    ensures s[..i] + [c] + s[i + 1..] == s
  {
  }

  lemma {:induction false} SplitPartsFree(s: string, c: char, limit: nat)
    requires limit >= 1
    ensures forall k :: 0 <= k < |Split(s, c, limit)| - 1 ==> c !in Split(s, c, limit)[k]
    decreases limit
  {
    if limit > 1 {
      match IndexOf(s, c)
      case None =>
      case Some(i) =>
        var rest := Split(s[i + 1..], c, limit - 1);
        SplitPartsFree(s[i + 1..], c, limit - 1);
        var parts := Split(s, c, limit);
        assert parts == [s[..i]] + rest;
        forall k | 0 <= k < |parts| - 1
          ensures c !in parts[k]
        {
          if k > 0 { assert parts[k] == rest[k - 1]; }
        }
    }
  }

  /** Splitting at a known first separator. */
  lemma SplitAtFirst(a: string, c: char, b: string, limit: nat)
    requires limit >= 2 && c !in a
    ensures Split(a + [c] + b, c, limit) == [a] + Split(b, c, limit - 1)
  {
    var s := a + [c] + b;
    assert s[|a|] == c;
    assert s[..|a|] == a;
    assert s[|a| + 1..] == b;
    assert IndexOf(s, c) == Some(|a|);
  }

  lemma SplitWithout(s: string, c: char, limit: nat)
    requires limit >= 1 && c !in s
    ensures Split(s, c, limit) == [s]
  {
  }

  /** `s.takeWhile { it.isDigit() || it == ':' }`. */
  predicate IsTimeChar(c: char) { IsDigit(c) || c == ':' }

  function TakeTimeChars(s: string): (r: string)
    ensures StartsWith(s, r)
    ensures forall i :: 0 <= i < |r| ==> IsTimeChar(r[i])
    ensures |r| < |s| ==> !IsTimeChar(s[|r|])
  {
    if |s| == 0 || !IsTimeChar(s[0]) then []
    else
      var rest := TakeTimeChars(s[1..]);
      TimeCharsCons(s, rest);
      [s[0]] + rest
  }

  lemma TimeCharsCons(s: string, rest: string)
    requires |s| > 0 && IsTimeChar(s[0])
    requires StartsWith(s[1..], rest) && forall i :: 0 <= i < |rest| ==> IsTimeChar(rest[i])
    requires |rest| < |s| - 1 ==> !IsTimeChar(s[1..][|rest|])
    ensures StartsWith(s, [s[0]] + rest)
    ensures forall i :: 0 <= i < |rest| + 1 ==> IsTimeChar(([s[0]] + rest)[i])
    ensures |rest| + 1 < |s| ==> !IsTimeChar(s[|rest| + 1])
  {
    assert s == [s[0]] + s[1..];
  }

  // ---------------------------------------------------------------------
  // Case conversion

  /** `Char.lowercaseChar()` for the Basic Latin and Latin-1 letters: an
      upper-case ASCII letter becomes its lower-case letter, the result is
      none of the letters that fold (so folding it again keeps it), and
      characters outside those letters are kept. */
  function LowerChar(c: char): (r: char)
    ensures 'A' <= c <= 'Z' ==> 'a' <= r <= 'z' && r as int - c as int == 'a' as int - 'A' as int
    ensures !('A' <= r <= 'Z') && !('À' <= r <= 'Þ' && r != '×')
    ensures !('A' <= c <= 'Z') && !('À' <= c <= 'Þ') ==> r == c
  {
    if 'A' <= c <= 'Z' || ('À' <= c <= 'Þ' && c != '×') then
      (c as int + 32) as char
    else c
  }

  /** `String.lowercase()`, character by character: the result holds no
      capital ASCII letter, and every character that is not a Basic Latin or
      Latin-1 capital is kept. */
  function Lowercase(s: string): (r: string)
    ensures |r| == |s|
    ensures forall i :: 0 <= i < |s| ==> r[i] == LowerChar(s[i])
    ensures forall i :: 0 <= i < |r| ==> !('A' <= r[i] <= 'Z')
    ensures forall i :: 0 <= i < |s| && !('A' <= s[i] <= 'Z') && !('À' <= s[i] <= 'Þ') ==> r[i] == s[i]
  {
    seq(|s|, i requires 0 <= i < |s| => LowerChar(s[i]))
  }

  /** Lower-casing a lower-cased text changes nothing. */
  lemma LowercaseIdempotent(s: string)
    ensures Lowercase(Lowercase(s)) == Lowercase(s)
  {
    var r := Lowercase(s);
    forall i | 0 <= i < |r| ensures LowerChar(r[i]) == r[i] {
    }
  }
}
