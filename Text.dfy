/**
 * ASCII versions of the string primitives the backends and the frontend use:
 * whitespace trimming (JavaScript `trim`, Python `strip`), lower-casing
 * (`toLowerCase`, `lower`), substring search (`includes`, `find`),
 * `indexOf` on a list of strings, and decimal rendering of counts. The full
 * whitespace sets of `trim` and `strip` are spelled out as well, to name the
 * strings on which the ASCII trim is exact for both languages.
 */
module Text {

  /** ASCII whitespace: space, tab, line feed, vertical tab, form feed, carriage return. */
  predicate IsSpace(c: char) {
    c == ' ' || c == '\t' || c == '\n' || c == '\U{0B}' || c == '\U{0C}' || c == '\r'
  }

  /** Unicode whitespace that JavaScript `trim` and Python `strip` both remove: U+00A0 and the other space separators, U+2028, U+2029. */
  predicate IsUnicodeSpace(c: char) {
    || c == '\U{A0}' || c == '\U{1680}' || ('\U{2000}' <= c <= '\U{200A}')
    || c == '\U{2028}' || c == '\U{2029}' || c == '\U{202F}' || c == '\U{205F}' || c == '\U{3000}'
  }

  /** Whitespace for JavaScript `trim`: also the byte-order mark U+FEFF. */
  predicate IsJsSpace(c: char) {
    IsSpace(c) || IsUnicodeSpace(c) || c == '\U{FEFF}'
  }

  /** Whitespace for Python `strip`: also the separators U+001C to U+001F and U+0085. */
  predicate IsPySpace(c: char) {
    IsSpace(c) || IsUnicodeSpace(c) || ('\U{1C}' <= c <= '\U{1F}') || c == '\U{85}'
  }

  /**
   * Every character of `s` that either language counts as whitespace is ASCII
   * whitespace; on such strings `Trim` is both `trim` and `strip`.
   */
  predicate OnlyAsciiSpace(s: string) {
    forall k :: 0 <= k < |s| ==> (IsJsSpace(s[k]) || IsPySpace(s[k]) ==> IsSpace(s[k]))
  }

  predicate AllSpace(s: string) {
    forall k :: 0 <= k < |s| ==> IsSpace(s[k])
  }

  lemma AllSpaceConcat(a: string, b: string)
    ensures AllSpace(a + b) <==> AllSpace(a) && AllSpace(b)
  {
    if AllSpace(a + b) {
      forall k | 0 <= k < |a| ensures IsSpace(a[k]) {
        assert (a + b)[k] == a[k];
      }
      forall k | 0 <= k < |b| ensures IsSpace(b[k]) {
        assert (a + b)[|a| + k] == b[k];
      }
    }
    if AllSpace(a) && AllSpace(b) {
      forall k | 0 <= k < |a + b| ensures IsSpace((a + b)[k]) {
        if k < |a| {
          assert (a + b)[k] == a[k];
        } else {
          assert (a + b)[k] == b[k - |a|];
        }
      }
    }
  }

  /** A string with no whitespace at either end. */
  predicate IsTrimmed(s: string) {
    s == [] || (!IsSpace(s[0]) && !IsSpace(s[|s| - 1]))
  }

  /** The number of whitespace characters at the start of `s`. */
  function LeadingSpace(s: string): (n: nat)
    ensures n <= |s|
    ensures n == |s| || !IsSpace(s[n])
  {
    if s != [] && IsSpace(s[0]) then
      var m := LeadingSpace(s[1..]);
      assert m < |s| - 1 ==> s[1..][m] == s[m + 1];
      1 + m
    else 0
  }

  /** The number of whitespace characters at the end of `s`. */
  function TrailingSpace(s: string): (n: nat)
    ensures n <= |s|
    ensures n == |s| || !IsSpace(s[|s| - 1 - n])
  {
    if s != [] && IsSpace(s[|s| - 1]) then
      var m := TrailingSpace(s[..|s| - 1]);
      assert m < |s| - 1 ==> s[..|s| - 1][|s| - 2 - m] == s[|s| - 2 - m];
      1 + m
    else 0
  }

  function TrimStart(s: string): (r: string) {
    s[LeadingSpace(s)..]
  }

  function TrimEnd(s: string): (r: string) {
    s[..|s| - TrailingSpace(s)]
  }

  /** Removes the whitespace at both ends (see TrimShape). */
  function Trim(s: string): (r: string)
    ensures |r| <= |s| && IsTrimmed(r)
  {
    TrimEnd(TrimStart(s))
  }

  /** The leading whitespace counted is whitespace. */
  lemma {:induction false} LeadingSpaceIsSpace(s: string)
    ensures forall k :: 0 <= k < LeadingSpace(s) ==> IsSpace(s[k])
    decreases |s|
  {
    if s != [] && IsSpace(s[0]) {
      LeadingSpaceIsSpace(s[1..]);
      forall k | 1 <= k < LeadingSpace(s) ensures IsSpace(s[k]) {
        assert s[1..][k - 1] == s[k];
      }
    }
  }

  /** The trailing whitespace counted is whitespace. */
  lemma {:induction false} TrailingSpaceIsSpace(s: string)
    ensures forall k :: |s| - TrailingSpace(s) <= k < |s| ==> IsSpace(s[k])
    decreases |s|
  {
    if s != [] && IsSpace(s[|s| - 1]) {
      TrailingSpaceIsSpace(s[..|s| - 1]);
      forall k | |s| - TrailingSpace(s) <= k < |s| - 1 ensures IsSpace(s[k]) {
        assert s[..|s| - 1][k] == s[k];
      }
    }
  }

  /**
   * What trimming keeps: the contiguous part of `s` after its leading
   * whitespace, with only whitespace on either side.
   */
  lemma TrimShape(s: string)
    ensures var i := LeadingSpace(s);
      && i + |Trim(s)| <= |s|
      && (forall k :: 0 <= k < |Trim(s)| ==> Trim(s)[k] == s[i + k])
      && (forall k :: 0 <= k < i ==> IsSpace(s[k]))
      && (forall k :: i + |Trim(s)| <= k < |s| ==> IsSpace(s[k]))
  {
    var i := LeadingSpace(s);
    var t := s[i..];
    LeadingSpaceIsSpace(s);
    TrailingSpaceIsSpace(t);
    forall k | i + |Trim(s)| <= k < |s| ensures IsSpace(s[k]) {
      assert t[k - i] == s[k];
    }
  }

  /** Trimming keeps a string free of non-ASCII whitespace. */
  lemma OnlyAsciiSpaceTrim(s: string)
    requires OnlyAsciiSpace(s)
    ensures OnlyAsciiSpace(Trim(s))
  {
    TrimShape(s);
    var i := LeadingSpace(s);
    forall k | 0 <= k < |Trim(s)| ensures IsJsSpace(Trim(s)[k]) || IsPySpace(Trim(s)[k]) ==> IsSpace(Trim(s)[k]) {
      assert Trim(s)[k] == s[i + k];
    }
  }

  lemma TrimStartFixed(s: string)
    requires s == [] || !IsSpace(s[0])
    ensures TrimStart(s) == s
  {
  }

  lemma TrimEndFixed(s: string)
    requires s == [] || !IsSpace(s[|s| - 1])
    ensures TrimEnd(s) == s
  {
  }

  lemma {:induction false} AllSpaceLeading(s: string)
    requires AllSpace(s)
    ensures LeadingSpace(s) == |s|
  {
  }

  /** Trimming leaves a string without surrounding whitespace unchanged, so `Trim` is idempotent. */
  lemma TrimIdempotent(s: string)
    ensures IsTrimmed(s) ==> Trim(s) == s
    ensures Trim(Trim(s)) == Trim(s)
  {
    forall t: string | IsTrimmed(t) ensures Trim(t) == t {
      TrimStartFixed(t);
      TrimEndFixed(t);
    }
  }

  /** Trimming yields the empty string exactly when every character is whitespace. */
  lemma TrimEmptyIffAllSpace(s: string)
    ensures Trim(s) == [] <==> AllSpace(s)
  {
    if AllSpace(s) {
      AllSpaceLeading(s);
    }
    if Trim(s) == [] {
      TrimShape(s);
    }
  }

  /** ASCII lower-casing of one character. */
  function LowerChar(c: char): (r: char)
    ensures ('A' <= c <= 'Z') ==> 'a' <= r <= 'z' && r as int - c as int == 32
    ensures !('A' <= c <= 'Z') ==> r == c
  {
    if 'A' <= c <= 'Z' then (c as int + 32) as char else c
  }

  function Lower(s: string): (r: string)
    ensures |r| == |s|
    ensures forall k :: 0 <= k < |s| ==> r[k] == LowerChar(s[k])
  {
    seq(|s|, k requires 0 <= k < |s| => LowerChar(s[k]))
  }

  predicate IsPrefix(p: string, s: string) {
    |p| <= |s| && s[..|p|] == p
  }

  /** `t` occurs in `s` starting at position `i`. */
  predicate OccursAt(s: string, t: string, i: int) {
    0 <= i <= |s| - |t| && s[i..i + |t|] == t
  }

  /** `s` contains `t` as a contiguous substring (JavaScript `includes`, Python `find(...) != -1`). */
  predicate Contains(s: string, t: string)
    decreases |s|
  {
    IsPrefix(t, s) || (s != [] && Contains(s[1..], t))
  }

  /** `Contains` holds exactly when `t` occurs at some position of `s`. */
  lemma {:induction false} ContainsIffOccurs(s: string, t: string)
    ensures Contains(s, t) <==> exists i :: OccursAt(s, t, i)
    decreases |s|
  {
    if s != [] {
      ContainsIffOccurs(s[1..], t);
      if IsPrefix(t, s) {
        assert OccursAt(s, t, 0);
      }
      if exists i :: OccursAt(s, t, i) {
        var i :| OccursAt(s, t, i);
        if i > 0 {
          assert s[1..][i - 1..i - 1 + |t|] == t;
          assert OccursAt(s[1..], t, i - 1);
        }
      }
      if exists i :: OccursAt(s[1..], t, i) {
        var i :| OccursAt(s[1..], t, i);
        assert s[i + 1..i + 1 + |t|] == t;
        assert OccursAt(s, t, i + 1);
      }
    } else {
      if exists i :: OccursAt(s, t, i) {
        var i :| OccursAt(s, t, i);
        assert |t| == 0;
        assert IsPrefix(t, s);
      }
      if IsPrefix(t, s) {
        assert OccursAt(s, t, 0);
      }
    }
  }

  /**
   * Position of the first occurrence of `x` in `xs`, or -1 (JavaScript
   * `indexOf`; Python `index` guarded by `in`).
   */
  function IndexOf(xs: seq<string>, x: string): (r: int)
    ensures -1 <= r < |xs|
    ensures r == -1 <==> x !in xs
    ensures r >= 0 ==> xs[r] == x && forall j :: 0 <= j < r ==> xs[j] != x
  {
    if xs == [] then -1
    else if xs[0] == x then 0
    else
      var r := IndexOf(xs[1..], x);
      assert x in xs[1..] ==> x in xs;
      assert x in xs ==> x in xs[1..];
      if r == -1 then -1 else r + 1
  }

  function DigitChar(d: nat): (c: char)
    requires d < 10
    ensures '0' <= c <= '9' && c as int - '0' as int == d
  {
    ('0' as int + d) as char
  }

  predicate IsDigit(c: char) {
    '0' <= c <= '9'
  }

  predicate AllDigits(s: string) {
    forall k :: 0 <= k < |s| ==> IsDigit(s[k])
  }

  /** Value of a string of decimal digits. */
  function DigitsValue(s: string): (n: nat)
    requires AllDigits(s)
  {
    if s == [] then 0 else 10 * DigitsValue(s[..|s| - 1]) + (s[|s| - 1] as int - '0' as int)
  }

  /** Decimal rendering of a count, as JavaScript template literals and Python f-strings print it. */
  function NatToString(n: nat): (s: string)
    ensures s != [] && AllDigits(s)
    ensures DigitsValue(s) == n
  {
    if n < 10 then
      var s := [DigitChar(n)];
      assert s[..0] == [];
      s
    else
      var p := NatToString(n / 10);
      var s := p + [DigitChar(n % 10)];
      assert s[..|s| - 1] == p;
      s
  }
}
