/**
 * The pieces of Python's string handling that the formatters rely on:
 * decimal rendering of integers (`str(n)`, `f"{n:0Wd}"`), reading decimals
 * back, `str.strip()`, `sep.join(parts)`, ASCII `str.lower()` and the
 * `find`/`rfind` searches.
 */
module Text {

  import opened Wrappers

  // ---------------------------------------------------------------------
  // Decimal digits
  // ---------------------------------------------------------------------

  predicate IsDigit(c: char) {
    '0' <= c <= '9'
  }

  predicate AllDigits(s: string) {
    forall k :: 0 <= k < |s| ==> IsDigit(s[k])
  }

  function DigitChar(d: nat): (c: char)
    requires d < 10
    ensures IsDigit(c)
  {
    ('0' as int + d) as char
  }

  function DigitValue(c: char): (d: nat)
    requires IsDigit(c)
    ensures d < 10
  {
    c as int - '0' as int
  }

  function Pow10(k: nat): (p: nat)
    ensures p >= 1
  {
    if k == 0 then 1 else 10 * Pow10(k - 1)
  }

  /** `str(n)` for a non-negative integer: its decimal digits, without
      leading zeros. */
  function NatToString(n: nat): (s: string)
    ensures |s| >= 1 && AllDigits(s)
    ensures s[0] == '0' ==> n == 0 && s == "0"
    decreases n
  {
    if n < 10 then [DigitChar(n)] else NatToString(n / 10) + [DigitChar(n % 10)]
  }

  /** The number a string of decimal digits denotes (leading zeros allowed). */
  function DigitsValue(s: string): nat
    requires AllDigits(s)
  {
    if s == [] then 0 else DigitsValue(s[..|s| - 1]) * 10 + DigitValue(s[|s| - 1])
  }

  /** Reading the decimal rendering of `n` gives `n` back. */
  lemma {:induction false} NatToStringRoundTrip(n: nat)
    ensures DigitsValue(NatToString(n)) == n
    decreases n
  {
    var s := NatToString(n);
    if n < 10 {
      assert s[..|s| - 1] == [];
    } else {
      NatToStringRoundTrip(n / 10);
      assert s[..|s| - 1] == NatToString(n / 10);
    }
  }

  /** The decimal rendering of `n` has at most `k` digits exactly when
      `n < 10^k`. */
  lemma {:induction false} NatToStringLength(n: nat, k: nat)
    ensures k >= 1 ==> (n < Pow10(k) <==> |NatToString(n)| <= k)
    decreases n
  {
    if k >= 1 && n >= 10 {
      if k == 1 {
        assert |NatToString(n)| == |NatToString(n / 10)| + 1;
      } else {
        NatToStringLength(n / 10, k - 1);
      }
    }
  }

  function Zeros(k: nat): (z: string)
    ensures |z| == k && AllDigits(z)
  {
    seq(k, _ => '0')
  }

  lemma {:induction false} DigitsValueLeadingZeros(k: nat, s: string)
    requires AllDigits(s)
    ensures AllDigits(Zeros(k) + s) && DigitsValue(Zeros(k) + s) == DigitsValue(s)
    decreases |s| + k
  {
    var t := Zeros(k) + s;
    if s == [] {
      assert t == Zeros(k);
      if k > 0 {
        assert t[..|t| - 1] == Zeros(k - 1) + [];
        DigitsValueLeadingZeros(k - 1, []);
      }
    } else {
      assert t[..|t| - 1] == Zeros(k) + s[..|s| - 1];
      DigitsValueLeadingZeros(k, s[..|s| - 1]);
    }
  }

  /** Left-pads `s` with zeros to at least `width` characters. */
  function ZeroPad(s: string, width: nat): string
    decreases width - |s|
  {
    if |s| >= width then s else ZeroPad("0" + s, width)
  }

  lemma {:induction false} ZeroPadIsZeros(s: string, width: nat)
    ensures ZeroPad(s, width) == if |s| >= width then s else Zeros(width - |s|) + s
    decreases width - |s|
  {
    if |s| < width {
      ZeroPadIsZeros("0" + s, width);
      assert Zeros(width - |s| - 1) + ("0" + s) == Zeros(width - |s|) + s;
    }
  }

  /** `f"{n:0{width}d}"` for a non-negative integer: the decimal digits of `n`,
      left-padded with zeros to `width` characters, never cut. */
  function PadNat(n: nat, width: nat): string
  {
    ZeroPad(NatToString(n), width)
  }

  /** The padded rendering is all digits, reads back as `n`, and is as long
      as the longer of `width` and the digits of `n`: it is exactly `width`
      long when `n` has at most `width` digits, and otherwise it is the
      digits of `n` with no zero added. */
  lemma PadNatSpec(n: nat, width: nat)
    ensures AllDigits(PadNat(n, width)) && DigitsValue(PadNat(n, width)) == n
    ensures |PadNat(n, width)| >= width && |PadNat(n, width)| >= |NatToString(n)|
    ensures width >= 1 ==> (|PadNat(n, width)| == width <==> n < Pow10(width))
    ensures |PadNat(n, width)| == if |NatToString(n)| >= width then |NatToString(n)| else width
    ensures |NatToString(n)| >= width ==> PadNat(n, width) == NatToString(n)
  {
    var digits := NatToString(n);
    NatToStringRoundTrip(n);
    NatToStringLength(n, width);
    ZeroPadIsZeros(digits, width);
    if |digits| < width {
      DigitsValueLeadingZeros(width - |digits|, digits);
    }
  }

  /** `str(i)` for any integer: a minus sign before the digits of `|i|`. */
  function IntToString(i: int): (s: string)
    ensures |s| >= 1
  {
    if i < 0 then "-" + NatToString(-i) else NatToString(i)
  }

  /** Reads an optionally negative decimal integer, as `int(s)` does for
      the strings `IntToString` produces. */
  function ParseInt(s: string): (r: Option<int>)
  {
    if |s| >= 2 && s[0] == '-' && AllDigits(s[1..]) then Some(-(DigitsValue(s[1..]) as int))
    else if |s| >= 1 && AllDigits(s) then Some(DigitsValue(s) as int)
    else None
  }

  lemma IntToStringRoundTrip(i: int)
    ensures ParseInt(IntToString(i)) == Some(i)
  {
    var n: nat := if i < 0 then -i else i;
    var digits := NatToString(n);
    NatToStringRoundTrip(n);
    if i < 0 {
      var s := "-" + digits;
      assert s[1..] == digits;
    } else {
      assert IsDigit(digits[0]);
    }
  }

  // ---------------------------------------------------------------------
  // str.strip()
  // ---------------------------------------------------------------------

  /** The code points for which Python's `str.isspace()` holds, which
      `str.strip()` with no argument removes from both ends, as inclusive
      ranges. */
  const SpaceRanges: seq<(int, int)> := [
    (0x09, 0x0D), (0x1C, 0x20), (0x85, 0x85), (0xA0, 0xA0), (0x1680, 0x1680),
    (0x2000, 0x200A), (0x2028, 0x2029), (0x202F, 0x202F), (0x205F, 0x205F), (0x3000, 0x3000)]

  predicate InRanges(code: int, ranges: seq<(int, int)>)
  {
    ranges != [] && ((ranges[0].0 <= code <= ranges[0].1) || InRanges(code, ranges[1..]))
  }

  predicate IsSpace(c: char) {
    InRanges(c as int, SpaceRanges)
  }

  /** The first position at or after `i` that does not hold whitespace. */
  function SkipSpaces(s: string, i: nat): (j: nat)
    requires i <= |s|
    ensures i <= j <= |s|
    decreases |s| - i
  {
    if i < |s| && IsSpace(s[i]) then SkipSpaces(s, i + 1) else i
  }

  /** The end of `s[lo..j]` once its trailing whitespace is cut off. */
  function TrimEnd(s: string, lo: nat, j: nat): (e: nat)
    requires lo <= j <= |s|
    ensures lo <= e <= j
  {
    if j > lo && IsSpace(s[j - 1]) then TrimEnd(s, lo, j - 1) else j
  }

  /** `SkipSpaces` passes over whitespace only and stops at the first
      character that is not. */
  lemma {:induction false} SkipSpacesSpec(s: string, i: nat)
    requires i <= |s|
    ensures forall k :: i <= k < SkipSpaces(s, i) ==> IsSpace(s[k])
    ensures SkipSpaces(s, i) < |s| ==> !IsSpace(s[SkipSpaces(s, i)])
    decreases |s| - i
  {
    if i < |s| && IsSpace(s[i]) {
      SkipSpacesSpec(s, i + 1);
    }
  }

  /** `TrimEnd` cuts whitespace only and stops after the last character
      that is not. */
  lemma {:induction false} TrimEndSpec(s: string, lo: nat, j: nat)
    requires lo <= j <= |s|
    ensures forall k :: TrimEnd(s, lo, j) <= k < j ==> IsSpace(s[k])
    ensures TrimEnd(s, lo, j) > lo ==> !IsSpace(s[TrimEnd(s, lo, j) - 1])
  {
    if j > lo && IsSpace(s[j - 1]) {
      TrimEndSpec(s, lo, j - 1);
    }
  }

  /** `r` is the slice `s[i..i+|r|]`, everything around it is whitespace and
      it neither starts nor ends with whitespace. */
  ghost predicate IsStripOf(r: string, s: string, i: nat) {
    && i + |r| <= |s|
    && r == s[i..i + |r|]
    && (forall k :: 0 <= k < i ==> IsSpace(s[k]))
    && (forall k :: i + |r| <= k < |s| ==> IsSpace(s[k]))
    && (r == [] || (!IsSpace(r[0]) && !IsSpace(r[|r| - 1])))
  }

  /** `s.strip()`. */
  function Strip(s: string): (r: string)
    ensures |r| <= |s|
  {
    var start := SkipSpaces(s, 0);
    s[start..TrimEnd(s, start, |s|)]
  }

  /** What `str.strip()` promises: the result is the slice of `s` left when
      all leading and trailing whitespace is cut off. */
  lemma StripSpec(s: string)
    ensures IsStripOf(Strip(s), s, SkipSpaces(s, 0))
  {
    var start := SkipSpaces(s, 0);
    var end := TrimEnd(s, start, |s|);
    SkipSpacesSpec(s, 0);
    TrimEndSpec(s, start, |s|);
    var r := s[start..end];
    if r != [] {
      assert r[0] == s[start] && r[|r| - 1] == s[end - 1];
    }
  }

  /** Stripping twice is stripping once. */
  lemma StripIdempotent(s: string)
    ensures Strip(Strip(s)) == Strip(s)
  {
    var r := Strip(s);
    StripSpec(s);
    if r != [] {
      assert SkipSpaces(r, 0) == 0;
      assert TrimEnd(r, 0, |r|) == |r|;
    }
    assert r[0..|r|] == r;
  }

  // ---------------------------------------------------------------------
  // sep.join(parts)
  // ---------------------------------------------------------------------

  /** `sep.join(parts)`: the parts in order, `sep` between neighbours. */
  function Join(parts: seq<string>, sep: string): string
  {
    if |parts| == 0 then ""
    else if |parts| == 1 then parts[0]
    else Join(parts[..|parts| - 1], sep) + sep + parts[|parts| - 1]
  }

  /** Joining one more part appends the separator and that part. */
  lemma JoinSnoc(parts: seq<string>, x: string, sep: string)
    requires parts != []
    ensures Join(parts + [x], sep) == Join(parts, sep) + sep + x
  {
    assert (parts + [x])[..|parts|] == parts;
  }

  /** Lines ending in `x` and an empty line join to a text ending in `x`
      and one separator. */
  lemma JoinEndsWithEmpty(lines: seq<string>, x: string, sep: string)
    requires |lines| >= 2 && lines[|lines| - 2] == x && lines[|lines| - 1] == ""
    ensures var doc := Join(lines, sep);
            |x + sep| <= |doc| && doc[|doc| - |x + sep|..] == x + sep
  {
    var n := |lines|;
    var init := lines[..n - 2];
    assert lines[..n - 1] == init + [x];
    var head := Join(lines[..n - 1], sep);
    assert Join(lines, sep) == head + sep + "";
    if init == [] {
      assert head == x;
    } else {
      JoinSnoc(init, x, sep);
      assert head == Join(init, sep) + sep + x;
    }
    var doc := Join(lines, sep);
    assert doc == head + sep;
    assert doc[|doc| - |x + sep|..] == x + sep;
  }

  // ---------------------------------------------------------------------
  // Searching and case
  // ---------------------------------------------------------------------

  /** `s.find(c)`, with `|s|` in place of `-1` when `c` does not occur. */
  function IndexOf(s: string, c: char): (r: nat)
    ensures r <= |s| && (r < |s| ==> s[r] == c)
    ensures forall k :: 0 <= k < r ==> s[k] != c
  {
    if s == [] then 0 else if s[0] == c then 0 else 1 + IndexOf(s[1..], c)
  }

  /** The first `c` is the one right after a prefix free of `c`. */
  lemma IndexOfFirst(x: string, c: char, y: string)
    requires c !in x
    ensures IndexOf(x + [c] + y, c) == |x|
  {
    var s := x + [c] + y;
    var r := IndexOf(s, c);
    assert s[|x|] == c;
  }

  /** `s.rfind(c)`: the last index of `c` in `s`, or `-1` when absent. */
  function LastIndexOf(s: string, c: char): (r: int)
    ensures -1 <= r < |s| && (r >= 0 ==> s[r] == c)
    ensures forall k :: r < k < |s| ==> s[k] != c
  {
    if s == [] then -1
    else if s[|s| - 1] == c then |s| - 1
    else LastIndexOf(s[..|s| - 1], c)
  }

  function LowerChar(c: char): (d: char)
  {
    if 'A' <= c <= 'Z' then (c as int - 'A' as int + 'a' as int) as char else c
  }

  /** `s.lower()` restricted to ASCII letters; every other character is
      kept as it is. */
  function Lower(s: string): (r: string)
    ensures |r| == |s|
    ensures forall k :: 0 <= k < |s| ==> r[k] == LowerChar(s[k])
  {
    seq(|s|, k requires 0 <= k < |s| => LowerChar(s[k]))
  }
}
