/** The string helpers the services lean on: Spring's `StringUtils.hasText`,
    Java's `String.trim`, `String.toLowerCase`, and the length and prefix of a
    Java string, which count UTF-16 code units. A Dafny `char` is a Unicode
    scalar value, so a character past U+FFFF is one `char` and two Java units. */
module Text {

  /** Java's `Character.isWhitespace`: the Unicode space, line and paragraph
      separators other than the no-break spaces U+00A0, U+2007 and U+202F, plus
      the control characters U+0009 to U+000D and U+001C to U+001F. */
  predicate IsWhitespace(c: char)
  {
    c == ' ' || ('\U{9}' <= c <= '\U{D}') || ('\U{1C}' <= c <= '\U{1F}')
    || c == '\U{1680}' || ('\U{2000}' <= c <= '\U{2006}') || ('\U{2008}' <= c <= '\U{200A}')
    || c == '\U{2028}' || c == '\U{2029}' || c == '\U{205F}' || c == '\U{3000}'
  }

  /** `StringUtils.hasText`: at least one character that is not whitespace. */
  predicate HasText(s: string)
  {
    exists i :: 0 <= i < |s| && !IsWhitespace(s[i])
  }

  lemma HasTextExamples()
    ensures !HasText("") && !HasText("  \t\n") && HasText(" a ")
  {
    assert !IsWhitespace(" a "[1]);
  }

  /** The UTF-16 code units Java spends on one character. */
  function Units(c: char): (r: nat)
    ensures 1 <= r <= 2
  {
    if c <= '\U{FFFF}' then 1 else 2
  }

  /** `String.length()`: the number of UTF-16 code units of s. */
  function JavaLength(s: string): (r: nat)
    ensures |s| <= r <= 2 * |s|
    ensures (forall i :: 0 <= i < |s| ==> s[i] <= '\U{FFFF}') ==> r == |s|
  {
    if s == [] then 0 else Units(s[0]) + JavaLength(s[1..])
  }

  /** `s.substring(0, n)` for a string of more than n units: the longest prefix of
      at most n units. It is the Java prefix exactly, unless unit n - 1 is the
      first half of a surrogate pair, which Java keeps alone and a `char` cannot
      hold; the prefix then stops one unit short. */
  function JavaPrefix(s: string, n: nat): (r: string)
    ensures r <= s
    ensures JavaLength(r) <= n
    ensures |r| < |s| ==> JavaLength(r) + Units(s[|r|]) > n
    ensures JavaLength(s) > n ==> |r| < |s| && n - 1 <= JavaLength(r)
    ensures JavaLength(s) <= n ==> r == s
  {
    if s == [] || Units(s[0]) > n then []
    else
      var t := JavaPrefix(s[1..], n - Units(s[0]));
      var r := [s[0]] + t;
      assert r[0] == s[0] && r[1..] == t;
      assert r <= s by {
        assert s == [s[0]] + s[1..];
      }
      assert |r| < |s| ==> s[|r|] == s[1..][|t|];
      r
  }

  /** On text whose characters all lie in the Basic Multilingual Plane the Java
      prefix is the plain one. */
  lemma JavaPrefixPlain(s: string, n: nat)
    ensures (forall i :: 0 <= i < |s| ==> s[i] <= '\U{FFFF}') && n <= |s| ==> JavaPrefix(s, n) == s[..n]
  {
    if !(forall i :: 0 <= i < |s| ==> s[i] <= '\U{FFFF}') || n > |s| {
      return;
    }
    var r := JavaPrefix(s, n);
    assert JavaLength(r) == |r| by {
      forall i | 0 <= i < |r| ensures r[i] <= '\U{FFFF}' {
        assert r[i] == s[i];
      }
    }
    if |r| < |s| {
      assert Units(s[|r|]) == 1;
    }
  }

  /** The index of the first character above U+0020 in s[i..], or |s| if none. */
  function SkipLow(s: string, i: nat): (r: nat)
    requires i <= |s|
    ensures i <= r <= |s|
    ensures forall k :: i <= k < r ==> s[k] <= ' '
    ensures r < |s| ==> s[r] > ' '
    decreases |s| - i
  {
    if i == |s| || s[i] > ' ' then i else SkipLow(s, i + 1)
  }

  /** One past the last character above U+0020 in s[..j], or 0 if none. */
  function SkipLowBack(s: string, j: nat): (r: nat)
    requires j <= |s|
    ensures r <= j
    ensures forall k :: r <= k < j ==> s[k] <= ' '
    ensures r > 0 ==> s[r - 1] > ' '
  {
    if j == 0 || s[j - 1] > ' ' then j else SkipLowBack(s, j - 1)
  }

  /** `String.trim`: drops every leading and trailing character up to U+0020. */
  function Trim(s: string): (r: string)
    ensures |r| <= |s|
    ensures r == [] || (r[0] > ' ' && r[|r| - 1] > ' ')
    ensures exists i, j :: 0 <= i <= j <= |s| && r == s[i..j]
                           && (forall k :: 0 <= k < i ==> s[k] <= ' ')
                           && (forall k :: j <= k < |s| ==> s[k] <= ' ')
  {
    var i := SkipLow(s, 0);
    var j := SkipLowBack(s, |s|);
    if j <= i then
      assert forall k :: 0 <= k < |s| ==> s[k] <= ' ';
      assert [] == s[0..0];
      []
    else s[i..j]
  }

  /** Bean validation's `@NotBlank` on a string: what is left after `String.trim`
      is not empty, that is, some character lies above U+0020. */
  predicate NotBlank(s: string)
  {
    exists i :: 0 <= i < |s| && s[i] > ' '
  }

  /** `@NotBlank` holds exactly when trimming leaves something. */
  lemma NotBlankTrim(s: string)
    ensures NotBlank(s) <==> Trim(s) != []
  {
    var t := Trim(s);
    if t != [] {
      var i, j :| 0 <= i <= j <= |s| && t == s[i..j];
      assert s[i] == t[0] && t[0] > ' ';
    }
  }

  /** `@NotBlank` and `StringUtils.hasText` differ: an ideographic space U+3000
      is not trimmed but is whitespace, and the control character U+0001 is
      trimmed but is not whitespace. */
  lemma NotBlankIsNotHasText()
    ensures NotBlank("\U{3000}") && !HasText("\U{3000}")
    ensures !NotBlank("\U{1}") && HasText("\U{1}")
  {
    assert "\U{3000}"[0] > ' ';
    assert !IsWhitespace("\U{1}"[0]);
  }

  /** Trimming a trimmed string changes nothing. */
  lemma TrimIdempotent(s: string)
    ensures Trim(Trim(s)) == Trim(s)
  {
    var t := Trim(s);
    if t != [] {
      assert SkipLow(t, 0) == 0;
      assert SkipLowBack(t, |t|) == |t|;
      assert t[0..|t|] == t;
    }
  }

  /** The lower-case form of an ASCII upper-case letter; other characters are
      kept. */
  function LowerChar(c: char): (r: char)
    ensures 'A' <= c <= 'Z' ==> r as int == c as int + 32
    ensures !('A' <= c <= 'Z') ==> r == c
    ensures !('A' <= r <= 'Z')
  {
    if 'A' <= c <= 'Z' then (c as int + 32) as char else c
  }

  /** `String.toLowerCase` restricted to the ASCII letters. */
  function ToLower(s: string): (r: string)
    ensures |r| == |s|
    ensures forall i :: 0 <= i < |s| ==> r[i] == LowerChar(s[i])
  {
    seq(|s|, i requires 0 <= i < |s| => LowerChar(s[i]))
  }

  lemma ToLowerIdempotent(s: string)
    ensures ToLower(ToLower(s)) == ToLower(s)
  {
  }
}
