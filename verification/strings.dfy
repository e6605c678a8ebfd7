/** The Rust string operations the node's logic relies on, written out over `seq<char>`:
    `char::is_whitespace`, `str::trim`, `str::starts_with`, `str::contains`, the UTF-8 byte
    length `str::len`, and the decimal `Display` rendering of unsigned integers. */
module Strings {

  /** Rust's `char::is_whitespace`: the characters with the Unicode White_Space property. */
  predicate IsWhitespace(c: char) {
    || ('\t' <= c <= '\r')
    || c == ' '
    || c == '\U{85}'
    || c == '\U{A0}'
    || c == '\U{1680}'
    || ('\U{2000}' <= c <= '\U{200A}')
    || c == '\U{2028}'
    || c == '\U{2029}'
    || c == '\U{202F}'
    || c == '\U{205F}'
    || c == '\U{3000}'
  }

  /** Every character of `s` is whitespace (vacuously true of the empty string). */
  predicate Blank(s: string) {
    forall i :: 0 <= i < |s| ==> IsWhitespace(s[i])
  }

  /** The number of whitespace characters at the start of `s`. */
  function LeadingWs(s: string): (n: nat)
    ensures n <= |s|
    ensures forall i :: 0 <= i < n ==> IsWhitespace(s[i])
    ensures n < |s| ==> !IsWhitespace(s[n])
    decreases |s|
  {
    if s != [] && IsWhitespace(s[0]) then 1 + LeadingWs(s[1..]) else 0
  }

  /** The number of whitespace characters at the end of `s`. */
  function TrailingWs(s: string): (n: nat)
    ensures n <= |s|
    ensures forall i :: |s| - n <= i < |s| ==> IsWhitespace(s[i])
    ensures n < |s| ==> !IsWhitespace(s[|s| - 1 - n])
    decreases |s|
  {
    if s != [] && IsWhitespace(s[|s| - 1]) then 1 + TrailingWs(s[..|s| - 1]) else 0
  }

  /** `str::trim_start`. */
  function TrimStart(s: string): string {
    s[LeadingWs(s)..]
  }

  /** `str::trim_end`. */
  function TrimEnd(s: string): string {
    s[..|s| - TrailingWs(s)]
  }

  /** `str::trim`: both ends trimmed; the result neither starts nor ends with
      whitespace. */
  function Trim(s: string): (r: string)
    ensures |r| <= |s|
    ensures r != [] ==> !IsWhitespace(r[0]) && !IsWhitespace(r[|r| - 1])
  {
    var t := TrimStart(s);
    var r := TrimEnd(t);
    assert r != [] ==> r[0] == t[0];
    r
  }

  /** A prefix of a suffix is a middle slice. */
  lemma SliceOfSlice<T>(s: seq<T>, lo: nat, k: nat)
    requires lo + k <= |s|
    ensures s[lo..][..k] == s[lo..lo + k]
  {
  }

  /** A slice of a prefix is the same slice of the whole. */
  lemma SliceOfPrefix<T>(s: seq<T>, n: nat, lo: nat, hi: nat)
    requires lo <= hi <= n <= |s|
    ensures s[..n][lo..hi] == s[lo..hi]
  {
  }

  /** The trim is the slice between the leading and the trailing whitespace. */
  lemma {:induction false} TrimIsSlice(s: string)
    ensures var e := TrailingWs(TrimStart(s));
            && LeadingWs(s) + e <= |s|
            && Trim(s) == s[LeadingWs(s)..|s| - e]
  {
    var lo := LeadingWs(s);
    var t := TrimStart(s);
    var e := TrailingWs(t);
    assert Trim(s) == t[..|t| - e];
    SliceOfSlice(s, lo, |t| - e);
  }

  /** The trailing whitespace counted after the lead is trailing whitespace of `s`. */
  lemma {:induction false} TrailIsWhitespace(s: string)
    ensures var e := TrailingWs(TrimStart(s));
            forall i :: |s| - e <= i < |s| ==> IsWhitespace(s[i])
  {
    var lo := LeadingWs(s);
    var t := TrimStart(s);
    var e := TrailingWs(t);
    forall i | |s| - e <= i < |s| ensures IsWhitespace(s[i]) {
      assert s[i] == t[i - lo];
    }
  }

  /** The shape of a trim: `s` is a blank lead, then the trimmed string, then a blank
      trail. */
  lemma {:induction false} TrimShape(s: string)
    ensures var lo := LeadingWs(s);
            && lo + |Trim(s)| <= |s|
            && Trim(s) == s[lo..lo + |Trim(s)|]
            && (forall i :: 0 <= i < lo ==> IsWhitespace(s[i]))
            && (forall i :: lo + |Trim(s)| <= i < |s| ==> IsWhitespace(s[i]))
  {
    TrimIsSlice(s);
    TrailIsWhitespace(s);
  }

  /** The trimmed string is empty exactly when the whole string is blank. */
  lemma TrimEmptyIffBlank(s: string)
    ensures Trim(s) == [] <==> Blank(s)
  {
    TrimShape(s);
    if Trim(s) != [] {
      assert s[LeadingWs(s)] == Trim(s)[0];
    }
  }

  /** A string that neither starts nor ends with whitespace is its own trim. */
  lemma TrimOfTrimmed(s: string)
    requires s == [] || (!IsWhitespace(s[0]) && !IsWhitespace(s[|s| - 1]))
    ensures Trim(s) == s
  {
    assert LeadingWs(s) == 0;
    assert TrimStart(s) == s;
    assert TrailingWs(s) == 0;
  }

  /** Trimming twice is trimming once. */
  lemma TrimIdempotent(s: string)
    ensures Trim(Trim(s)) == Trim(s)
  {
    TrimOfTrimmed(Trim(s));
  }

  /** Every character of the trim is a character of the original string. */
  lemma TrimChars(s: string, j: nat)
    requires j < |Trim(s)|
    ensures Trim(s)[j] == s[LeadingWs(s) + j]
  {
    TrimShape(s);
  }

  /** The trim is determined by its ends: a middle slice that starts and ends with a
      non-whitespace character, with only whitespace around it, is the trim. */
  lemma {:induction false} TrimUnique(s: string, lo: nat, hi: nat)
    requires lo < hi <= |s|
    requires !IsWhitespace(s[lo]) && !IsWhitespace(s[hi - 1])
    requires forall i :: 0 <= i < lo ==> IsWhitespace(s[i])
    requires forall i :: hi <= i < |s| ==> IsWhitespace(s[i])
    ensures Trim(s) == s[lo..hi]
  {
    LeadingWsExact(s, lo);
    var t := TrimStart(s);
    assert t == s[lo..];
    forall i | hi - lo <= i < |t| ensures IsWhitespace(t[i]) {
      assert t[i] == s[lo + i];
    }
    assert t[hi - lo - 1] == s[hi - 1];
    TrailingWsExact(t, hi - lo);
    SliceOfSlice(s, lo, hi - lo);
  }

  /** Whitespace up to a non-whitespace character at `lo` is exactly the lead. */
  lemma {:induction false} LeadingWsExact(s: string, lo: nat)
    requires lo < |s| && !IsWhitespace(s[lo])
    requires forall i :: 0 <= i < lo ==> IsWhitespace(s[i])
    ensures LeadingWs(s) == lo
  {
  }

  /** Whitespace after a non-whitespace character at `m - 1` is exactly the trail. */
  lemma {:induction false} TrailingWsExact(t: string, m: nat)
    requires 0 < m <= |t| && !IsWhitespace(t[m - 1])
    requires forall i :: m <= i < |t| ==> IsWhitespace(t[i])
    ensures TrailingWs(t) == |t| - m
  {
  }

  /** A trailing whitespace character makes no difference to the trim. */
  lemma {:induction false} TrimDropTrailingWs(s: string)
    requires s != [] && IsWhitespace(s[|s| - 1])
    ensures Trim(s[..|s| - 1]) == Trim(s)
  {
    var p := s[..|s| - 1];
    TrimEmptyIffBlank(s);
    TrimEmptyIffBlank(p);
    if Blank(s) {
      assert Blank(p) by {
        forall i | 0 <= i < |p| ensures IsWhitespace(p[i]) { assert p[i] == s[i]; }
      }
    } else {
      TrimDropTrailingWsCore(s);
    }
  }

  /** `TrimDropTrailingWs` for a string with a non-whitespace character: the trim of `s`
      also sits between whitespace in `s` without its last character. */
  lemma {:induction false} TrimDropTrailingWsCore(s: string)
    requires s != [] && IsWhitespace(s[|s| - 1]) && Trim(s) != []
    ensures Trim(s[..|s| - 1]) == Trim(s)
  {
    var p := s[..|s| - 1];
    var t := Trim(s);
    var lo := LeadingWs(s);
    TrimShape(s);
    var hi := lo + |t|;
    assert s[lo] == t[0];
    assert s[hi - 1] == t[|t| - 1];
    assert hi <= |p|;
    SliceOfPrefix(s, |s| - 1, lo, hi);
    forall i | 0 <= i < lo ensures IsWhitespace(p[i]) { assert p[i] == s[i]; }
    forall i | hi <= i < |p| ensures IsWhitespace(p[i]) { assert p[i] == s[i]; }
    TrimUnique(p, lo, hi);
  }

  /** Rust's `str::starts_with`. */
  predicate IsPrefix(p: string, s: string) {
    |p| <= |s| && s[..|p|] == p
  }

  /** Rust's `str::contains` for a string pattern: `sub` occurs somewhere in `s`. */
  predicate Contains(s: string, sub: string) {
    exists i :: 0 <= i <= |s| - |sub| && IsPrefix(sub, s[i..])
  }

  /** The number of bytes UTF-8 uses for `c`. */
  function Utf8Len(c: char): (n: nat)
    ensures 1 <= n <= 4
    ensures n == 1 <==> c as int < 0x80
  {
    if c as int < 0x80 then 1
    else if c as int < 0x800 then 2
    else if c as int < 0x1_0000 then 3
    else 4
  }

  /** Rust's `str::len`: the length of the UTF-8 encoding, in bytes. */
  function ByteLen(s: string): (n: nat)
    ensures |s| <= n <= 4 * |s|
    decreases |s|
  {
    if s == [] then 0 else Utf8Len(s[0]) + ByteLen(s[1..])
  }

  /** The byte length of a concatenation is the sum of the byte lengths. */
  lemma {:induction false} ByteLenAppend(a: string, b: string)
    ensures ByteLen(a + b) == ByteLen(a) + ByteLen(b)
    decreases |a|
  {
    if a != [] {
      assert (a + b)[1..] == a[1..] + b;
      ByteLenAppend(a[1..], b);
    } else {
      assert a + b == b;
    }
  }

  /** A string of ASCII characters has one byte per character. */
  lemma {:induction false} ByteLenAscii(s: string)
    requires forall i :: 0 <= i < |s| ==> s[i] as int < 0x80
    ensures ByteLen(s) == |s|
    decreases |s|
  {
    if s != [] {
      ByteLenAscii(s[1..]);
    }
  }

  predicate IsDigits(s: string) {
    forall i :: 0 <= i < |s| ==> '0' <= s[i] <= '9'
  }

  function DigitChar(d: nat): (c: char)
    requires d < 10
    ensures '0' <= c <= '9'
  {
    ('0' as int + d) as char
  }

  /** The `Display` rendering of an unsigned integer: its decimal digits, most significant
      first, without leading zeros. */
  function Decimal(n: nat): (r: string)
    ensures 1 <= |r|
    ensures IsDigits(r)
    ensures |r| > 1 ==> r[0] != '0'
    decreases n
  {
    if n < 10 then [DigitChar(n)] else Decimal(n / 10) + [DigitChar(n % 10)]
  }

  /** The number a string of decimal digits denotes. */
  function DigitsValue(s: string): nat
    requires IsDigits(s)
    decreases |s|
  {
    if s == [] then 0 else DigitsValue(s[..|s| - 1]) * 10 + (s[|s| - 1] as int - '0' as int)
  }

  /** Reading back a rendered number gives the number. */
  lemma {:induction false} DecimalRoundTrip(n: nat)
    ensures DigitsValue(Decimal(n)) == n
    decreases n
  {
    if n >= 10 {
      var r := Decimal(n);
      assert r[..|r| - 1] == Decimal(n / 10);
      DecimalRoundTrip(n / 10);
    }
  }

  /** Distinct numbers have distinct renderings. */
  lemma DecimalInjective(a: nat, b: nat)
    requires Decimal(a) == Decimal(b)
    ensures a == b
  {
    DecimalRoundTrip(a);
    DecimalRoundTrip(b);
  }
}
