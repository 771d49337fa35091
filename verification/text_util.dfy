/**
 * Character- and string-level helpers that several source files use
 * through Rust's standard library: `char::is_whitespace`, `len_utf8`,
 * ASCII case mapping, `str::trim`, `str::contains`, decimal printing of
 * unsigned integers and parsing of `u32`.
 */
module TextUtil {
  import opened Wrappers

  /** A `u8`. */
  type Byte = b: int | 0 <= b < 0x100

  /** The code points above ASCII that have the Unicode White_Space property. */
  const NonAsciiWhitespaceCodes: seq<int> :=
    [0x85, 0xA0, 0x1680,
     0x2000, 0x2001, 0x2002, 0x2003, 0x2004, 0x2005, 0x2006, 0x2007, 0x2008, 0x2009, 0x200A,
     0x2028, 0x2029, 0x202F, 0x205F, 0x3000]

  /** `k` is one of `codes`. */
  predicate CodeIn(k: int, codes: seq<int>)
  {
    |codes| > 0 && (codes[0] == k || CodeIn(k, codes[1..]))
  }

  /** `c` occurs in `cs` (`str::contains(char)`), unfolded one character at a time. */
  predicate CharIn(c: char, cs: string)
  {
    |cs| > 0 && (cs[0] == c || CharIn(c, cs[1..]))
  }

  /** Rust's `char::is_whitespace`: the Unicode White_Space property (TAB to CR and space in ASCII). */
  predicate IsWhitespace(c: char)
  {
    var k := c as int;
    if k < 0x80 then 0x09 <= k <= 0x0D || k == 0x20 else CodeIn(k, NonAsciiWhitespaceCodes)
  }

  /** Number of bytes of `c` in UTF-8 (`char::len_utf8`). */
  function CharUtf8Len(c: char): (n: nat)
    ensures 1 <= n <= 4
  {
    if c as int < 0x80 then 1
    else if c as int < 0x800 then 2
    else if c as int < 0x10000 then 3
    else 4
  }

  /** Number of bytes of `s` in UTF-8 (`str::len`). */
  function Utf8Len(s: string): (n: nat)
    ensures |s| <= n <= 4 * |s|
  {
    if |s| == 0 then 0 else CharUtf8Len(s[0]) + Utf8Len(s[1..])
  }

  /** Byte lengths add up under concatenation. */
  lemma {:induction false} Utf8LenAppend(a: string, b: string)
    ensures Utf8Len(a + b) == Utf8Len(a) + Utf8Len(b)
  {
    if |a| > 0 {
      assert (a + b)[1..] == a[1..] + b;
      Utf8LenAppend(a[1..], b);
    } else {
      assert a + b == b;
    }
  }

  predicate IsAscii(s: string)
  {
    forall i :: 0 <= i < |s| ==> s[i] as int < 0x80
  }

  function ToAsciiLowerChar(c: char): char
  {
    if 'A' <= c <= 'Z' then (c as int + 32) as char else c
  }

  function ToAsciiUpperChar(c: char): char
  {
    if 'a' <= c <= 'z' then (c as int - 32) as char else c
  }

  /** `str::to_lowercase` restricted to ASCII letters. */
  function ToLower(s: string): (r: string)
    ensures |r| == |s|
  {
    if |s| == 0 then [] else [ToAsciiLowerChar(s[0])] + ToLower(s[1..])
  }

  /** `str::to_uppercase` restricted to ASCII letters. */
  function ToUpper(s: string): (r: string)
    ensures |r| == |s|
  {
    if |s| == 0 then [] else [ToAsciiUpperChar(s[0])] + ToUpper(s[1..])
  }

  /** `s[at..]` starts with `p`. */
  predicate OccursAt(s: string, p: string, at: nat)
  {
    at + |p| <= |s| && s[at..at + |p|] == p
  }

  predicate StartsWith(s: string, p: string)
  {
    OccursAt(s, p, 0)
  }

  /** The pattern occurs at `at` or at some later position. */
  predicate ContainsFrom(s: string, p: string, at: nat)
    decreases |s| - at
  {
    at <= |s| && (OccursAt(s, p, at) || ContainsFrom(s, p, at + 1))
  }

  /** `str::contains`. */
  predicate Contains(s: string, p: string)
  {
    ContainsFrom(s, p, 0)
  }

  lemma {:induction false} ContainsFromIff(s: string, p: string, at: nat)
    ensures ContainsFrom(s, p, at) <==> exists k: nat | at <= k <= |s| :: OccursAt(s, p, k)
    decreases |s| - at
  {
    if at <= |s| {
      ContainsFromIff(s, p, at + 1);
      if exists k: nat | at <= k <= |s| :: OccursAt(s, p, k) {
        var k: nat :| at <= k <= |s| && OccursAt(s, p, k);
        assert k == at || (at + 1 <= k <= |s| && OccursAt(s, p, k));
      }
    }
  }

  /** `Contains` holds exactly when the pattern occurs at some position. */
  lemma ContainsIff(s: string, p: string)
    ensures Contains(s, p) <==> exists at: nat | at <= |s| :: OccursAt(s, p, at)
  {
    ContainsFromIff(s, p, 0);
  }

  lemma OccursContains(s: string, p: string, at: nat)
    requires OccursAt(s, p, at)
    ensures Contains(s, p)
  {
    ContainsIff(s, p);
  }

  /** The pattern cannot occur when its `j`-th character is missing from `s` past position `j`. */
  lemma NotContains(s: string, p: string, j: nat, rest: string)
    requires j < |p| && j <= |s| && s[j..] == rest && p[j] !in rest
    ensures !Contains(s, p)
  {
    ContainsIff(s, p);
    forall at: nat | at <= |s|
      ensures !OccursAt(s, p, at)
    {
      if at + |p| <= |s| {
        assert s[at..at + |p|][j] == rest[at];
      }
    }
  }

  /** `str::trim_start_matches` with a non-empty pattern: drop the pattern as often as it leads. */
  function TrimStartMatches(s: string, p: string): (r: string)
    requires |p| > 0
    ensures |r| <= |s| && r == s[|s| - |r|..] && !StartsWith(r, p)
    decreases |s|
  {
    if StartsWith(s, p) then TrimStartMatches(s[|p|..], p) else s
  }

  /** `str::trim_start`: drop leading whitespace. */
  function TrimStart(s: string): (r: string)
    ensures |r| <= |s| && r == s[|s| - |r|..]
    ensures |r| > 0 ==> !IsWhitespace(r[0])
  {
    if |s| > 0 && IsWhitespace(s[0]) then TrimStart(s[1..]) else s
  }

  /** What `trim_start` drops is whitespace. */
  lemma {:induction false} TrimStartDropsBlanks(s: string)
    ensures forall i | 0 <= i < |s| - |TrimStart(s)| :: IsWhitespace(s[i])
  {
    if |s| > 0 && IsWhitespace(s[0]) {
      TrimStartDropsBlanks(s[1..]);
      assert forall i | 1 <= i < |s| :: s[i] == s[1..][i - 1];
    }
  }

  /** `str::trim_end`: drop trailing whitespace. */
  function TrimEnd(s: string): (r: string)
    ensures |r| <= |s| && r == s[..|r|]
    ensures |r| > 0 ==> !IsWhitespace(r[|r| - 1])
  {
    if |s| > 0 && IsWhitespace(s[|s| - 1]) then TrimEnd(s[..|s| - 1]) else s
  }

  /** What `trim_end` drops is whitespace. */
  lemma {:induction false} TrimEndDropsBlanks(s: string)
    ensures forall i | |TrimEnd(s)| <= i < |s| :: IsWhitespace(s[i])
  {
    if |s| > 0 && IsWhitespace(s[|s| - 1]) {
      TrimEndDropsBlanks(s[..|s| - 1]);
    }
  }

  /** `str::trim`. */
  function Trim(s: string): (r: string)
  {
    TrimEnd(TrimStart(s))
  }

  predicate AllWhitespace(s: string)
  {
    forall i :: 0 <= i < |s| ==> IsWhitespace(s[i])
  }

  /** A trimmed string is empty exactly when the input is all whitespace. */
  lemma TrimEmptyIff(s: string)
    ensures Trim(s) == [] <==> AllWhitespace(s)
  {
    var a := TrimStart(s);
    TrimStartDropsBlanks(s);
    TrimEndDropsBlanks(a);
    if Trim(s) == [] {
      assert |a| == 0;
    }
  }

  /** Remove every occurrence of `c` (`str::replace(c, "")`). */
  function RemoveChar(s: string, c: char): (r: string)
    ensures c !in r
    ensures |r| <= |s|
  {
    if |s| == 0 then []
    else if s[0] == c then RemoveChar(s[1..], c)
    else [s[0]] + RemoveChar(s[1..], c)
  }

  lemma {:induction false} RemoveCharKeepsAbsent(s: string, c: char, d: char)
    requires d !in s
    ensures d !in RemoveChar(s, c)
  {
    if |s| > 0 {
      assert s[0] != d && d !in s[1..];
      RemoveCharKeepsAbsent(s[1..], c, d);
    }
  }

  /** Removing a character that is not there changes nothing. */
  lemma {:induction false} RemoveCharAbsent(s: string, c: char)
    requires c !in s
    ensures RemoveChar(s, c) == s
  {
    if |s| > 0 {
      assert c !in s[1..];
      RemoveCharAbsent(s[1..], c);
      assert s == [s[0]] + s[1..];
    }
  }

  /** Trimming only drops characters. */
  lemma TrimKeepsAbsent(s: string, d: char)
    requires d !in s
    ensures d !in Trim(s)
  {
    var a := TrimStart(s);
    assert forall k | 0 <= k < |a| :: a[k] == s[|s| - |a| + k];
    var b := TrimEnd(a);
    assert forall k | 0 <= k < |b| :: b[k] == a[k];
  }

  /** Stripping a prefix only drops characters. */
  lemma TrimStartMatchesKeepsAbsent(s: string, p: string, d: char)
    requires |p| > 0 && d !in s
    ensures d !in TrimStartMatches(s, p)
  {
    var r := TrimStartMatches(s, p);
    assert forall k | 0 <= k < |r| :: r[k] == s[|s| - |r| + k];
  }

  lemma {:induction false} RemoveCharAppend(a: string, b: string, c: char)
    ensures RemoveChar(a + b, c) == RemoveChar(a, c) + RemoveChar(b, c)
  {
    if |a| > 0 {
      assert (a + b)[1..] == a[1..] + b;
      RemoveCharAppend(a[1..], b, c);
    } else {
      assert a + b == b;
    }
  }

  /** Text that begins and ends with a non-space is its own trim. */
  lemma TrimNoOp(s: string)
    requires |s| > 0 && !IsWhitespace(s[0]) && !IsWhitespace(s[|s| - 1])
    ensures Trim(s) == s
  {
  }

  /** Stripping a pattern that prefixes the text exactly once. */
  lemma TrimStartMatchesOnce(p: string, rest: string)
    requires |p| > 0 && |rest| > 0 && rest[0] != p[0]
    ensures TrimStartMatches(p + rest, p) == rest
  {
    assert !StartsWith(rest, p) by {
      if |p| <= |rest| {
        assert rest[..|p|][0] != p[0];
      }
    }
    assert (p + rest)[..|p|] == p;
    assert (p + rest)[|p|..] == rest;
  }

  /** Trimming text with one leading blank and a non-blank after it. */
  lemma TrimOneBlank(c: char, rest: string)
    requires IsWhitespace(c) && |rest| > 0 && !IsWhitespace(rest[0]) && !IsWhitespace(rest[|rest| - 1])
    ensures Trim([c] + rest) == rest
  {
    assert ([c] + rest)[1..] == rest;
    TrimNoOp(rest);
  }

  /** Removing a character from text that holds it only at both ends. */
  lemma RemoveCharQuoted(c: char, inner: string)
    requires c !in inner
    ensures RemoveChar([c] + inner + [c], c) == inner
  {
    RemoveCharAppend([c], inner + [c], c);
    RemoveCharAppend(inner, [c], c);
    RemoveCharAbsent(inner, c);
    assert [c] + inner + [c] == [c] + (inner + [c]);
  }

  /** Removing a character from text that holds it only at the front. */
  lemma RemoveCharLeading(c: char, rest: string)
    requires c !in rest
    ensures RemoveChar([c] + rest, c) == rest
  {
    RemoveCharAppend([c], rest, c);
    RemoveCharAbsent(rest, c);
  }

  /** `str::replace(c, rep)` for a single character `c`. */
  function ReplaceChar(s: string, c: char, rep: string): (r: string)
    ensures c !in rep ==> c !in r
  {
    if |s| == 0 then [] else (if s[0] == c then rep else [s[0]]) + ReplaceChar(s[1..], c, rep)
  }

  /** Replacing introduces no character that neither the text nor the replacement holds. */
  lemma {:induction false} ReplaceCharKeepsAbsent(s: string, c: char, rep: string, d: char)
    requires d !in s && d !in rep
    ensures d !in ReplaceChar(s, c, rep)
  {
    if |s| > 0 {
      ReplaceCharKeepsAbsent(s[1..], c, rep, d);
    }
  }

  /** Replacing distributes over concatenation. */
  lemma {:induction false} ReplaceCharAppend(a: string, b: string, c: char, rep: string)
    ensures ReplaceChar(a + b, c, rep) == ReplaceChar(a, c, rep) + ReplaceChar(b, c, rep)
  {
    if |a| > 0 {
      assert (a + b)[1..] == a[1..] + b;
      ReplaceCharAppend(a[1..], b, c, rep);
    } else {
      assert a + b == b;
    }
  }

  /** A string without `c` is left alone. */
  lemma {:induction false} ReplaceCharAbsent(s: string, c: char, rep: string)
    requires c !in s
    ensures ReplaceChar(s, c, rep) == s
  {
    if |s| > 0 {
      ReplaceCharAbsent(s[1..], c, rep);
    }
  }

  /** Number of occurrences of `c` in `s`. */
  function CountChar(s: string, c: char): (n: nat)
    ensures n <= |s|
  {
    if |s| == 0 then 0 else (if s[|s| - 1] == c then 1 else 0) + CountChar(s[..|s| - 1], c)
  }

  lemma CountCharAppend(a: string, b: string, c: char)
    ensures CountChar(a + b, c) == CountChar(a, c) + CountChar(b, c)
    decreases |b|
  {
    if |b| > 0 {
      assert (a + b)[..|a + b| - 1] == a + b[..|b| - 1];
      CountCharAppend(a, b[..|b| - 1], c);
    } else {
      assert a + b == a;
    }
  }

  /** Counting over one more character. */
  lemma CountCharSnoc(text: string, i: nat)
    requires i < |text|
    ensures CountChar(text[..i + 1], '\n') == CountChar(text[..i], '\n') + (if text[i] == '\n' then 1 else 0)
  {
    assert text[..i + 1][..i] == text[..i];
  }

  /** Offset of the first character of the line holding `o`: just after the last newline before `o`. */
  function LineStart(text: string, o: nat): (r: nat)
    requires o <= |text|
    ensures r <= o
    ensures r > 0 ==> text[r - 1] == '\n'
    ensures forall j :: r <= j < o ==> text[j] != '\n'
  {
    if o == 0 then 0 else if text[o - 1] == '\n' then o else LineStart(text, o - 1)
  }

  /** Offsets with no newline between them share a line start. */
  lemma {:induction false} LineStartNoNewline(text: string, a: nat, b: nat)
    requires a <= b <= |text|
    requires forall j :: a <= j < b ==> text[j] != '\n'
    ensures LineStart(text, a) == LineStart(text, b)
    decreases b - a
  {
    if a < b {
      LineStartNoNewline(text, a, b - 1);
    }
  }

  /** A newline between two offsets puts the later one on a later line. */
  lemma {:induction false} NewlineAdvancesLine(text: string, a: nat, b: nat)
    requires a <= b <= |text|
    ensures CountChar(text[..a], '\n') <= CountChar(text[..b], '\n')
    ensures (exists j :: a <= j < b && text[j] == '\n') ==> CountChar(text[..a], '\n') < CountChar(text[..b], '\n')
    decreases b - a
  {
    if a < b {
      NewlineAdvancesLine(text, a, b - 1);
      CountCharSnoc(text, b - 1);
    }
  }

  // ---------------------------------------------------------------
  // Decimal numbers
  // ---------------------------------------------------------------

  function DigitChar(d: nat): char
    requires d < 10
  {
    ('0' as int + d) as char
  }

  predicate IsDigit(c: char)
  {
    '0' <= c <= '9'
  }

  function DigitValue(c: char): nat
    requires IsDigit(c)
  {
    c as int - '0' as int
  }

  /** The value of a string of decimal digits (leading zeros allowed). */
  function DigitsValue(s: string): nat
    requires forall i :: 0 <= i < |s| ==> IsDigit(s[i])
  {
    if |s| == 0 then 0 else DigitsValue(s[..|s| - 1]) * 10 + DigitValue(s[|s| - 1])
  }

  /** `n.to_string()` for an unsigned integer. */
  function NatToString(n: nat): (r: string)
    ensures |r| >= 1
    ensures forall i :: 0 <= i < |r| ==> IsDigit(r[i])
    ensures |r| > 1 ==> r[0] != '0'
  {
    if n < 10 then [DigitChar(n)] else NatToString(n / 10) + [DigitChar(n % 10)]
  }

  /** Decimal printing is inverted by reading the digits back. */
  lemma {:induction false} NatToStringRoundTrip(n: nat)
    ensures DigitsValue(NatToString(n)) == n
  {
    if n >= 10 {
      var s := NatToString(n);
      assert s[..|s| - 1] == NatToString(n / 10);
      NatToStringRoundTrip(n / 10);
    }
  }

  /** Rust's `str::parse::<u32>()`: an optional `+`, then one or more ASCII digits, value below 2^32. */
  function ParseU32(s: string): (r: Option<nat>)
    ensures r.Some? ==> r.value < 0x1_0000_0000
    ensures r.Some? ==> |s| >= 1
  {
    var digits := if |s| > 0 && s[0] == '+' then s[1..] else s;
    if |digits| == 0 then None
    else if !(forall i :: 0 <= i < |digits| ==> IsDigit(digits[i])) then None
    else if DigitsValue(digits) >= 0x1_0000_0000 then None
    else Some(DigitsValue(digits))
  }

  lemma ParseU32OfNatToString(n: nat)
    requires n < 0x1_0000_0000
    ensures ParseU32(NatToString(n)) == Some(n)
  {
    NatToStringRoundTrip(n);
  }

  // ---------------------------------------------------------------
  // XML escaping
  // ---------------------------------------------------------------

  /** The text an XML escaper writes for `c`: the five predefined entities, other characters as they are. */
  function EscapeXmlChar(c: char): string
  {
    if c == '&' then "&amp;"
    else if c == '<' then "&lt;"
    else if c == '>' then "&gt;"
    else if c == '"' then "&quot;"
    else if c == '\'' then "&apos;"
    else [c]
  }

  /** Escaping character by character. */
  function EscapeXmlEach(text: string): string
  {
    if |text| == 0 then "" else EscapeXmlChar(text[0]) + EscapeXmlEach(text[1..])
  }

  lemma {:induction false} EscapeXmlEachAppend(a: string, b: string)
    ensures EscapeXmlEach(a + b) == EscapeXmlEach(a) + EscapeXmlEach(b)
  {
    if |a| > 0 {
      assert (a + b)[1..] == a[1..] + b;
      EscapeXmlEachAppend(a[1..], b);
    } else {
      assert a + b == b;
    }
  }

  /** Escaped text holds no markup character other than the `&` of its entities. */
  lemma {:induction false} EscapeXmlEachNoMarkup(text: string)
    ensures var r := EscapeXmlEach(text); '<' !in r && '>' !in r && '"' !in r && '\'' !in r
  {
    if |text| > 0 {
      EscapeXmlEachNoMarkup(text[1..]);
    }
  }

  /** A character the escaper copies unchanged. */
  predicate XmlPlain(c: char)
  {
    c != '&' && c != '<' && c != '>' && c != '"' && c != '\''
  }

  /** Text without the five special characters comes out of the escaper as it went in. */
  lemma {:induction false} EscapeXmlEachPlain(text: string)
    requires forall k | 0 <= k < |text| :: XmlPlain(text[k])
    ensures EscapeXmlEach(text) == text
  {
    if |text| > 0 {
      EscapeXmlEachPlain(text[1..]);
      assert text == [text[0]] + text[1..];
    }
  }

  // ---------------------------------------------------------------
  // Splitting
  // ---------------------------------------------------------------

  /** The text before the first `c` and the text after it, if `c` occurs. */
  function SplitAt(s: string, c: char): (r: Option<(string, string)>)
    ensures r.Some? ==> c !in r.value.0 && s == r.value.0 + ([c] + r.value.1)
    ensures r.None? ==> c !in s
  {
    if |s| == 0 then None
    else if s[0] == c then Some(([], s[1..]))
    else match SplitAt(s[1..], c)
      case None => None
      case Some(p) => Some(([s[0]] + p.0, p.1))
  }

  /** Text free of `c` followed by `c` splits exactly there. */
  lemma {:induction false} SplitAtOf(a: string, c: char, x: string)
    requires c !in a
    ensures SplitAt(a + ([c] + x), c) == Some((a, x))
  {
    if |a| > 0 {
      assert (a + ([c] + x))[1..] == a[1..] + ([c] + x);
      SplitAtOf(a[1..], c, x);
      assert [a[0]] + a[1..] == a;
    } else {
      assert a + ([c] + x) == [c] + x;
    }
  }

  /** `s` with the literal prefix `p` removed, when it starts with it. */
  function AfterPrefix(s: string, p: string): (r: Option<string>)
    ensures r.Some? <==> StartsWith(s, p)
    ensures r.Some? ==> s == p + r.value
  {
    if StartsWith(s, p) then
      assert s == p + s[|p|..] by { assert s[..|p|] == p; }
      Some(s[|p|..])
    else None
  }

  lemma AfterPrefixOf(p: string, x: string)
    ensures AfterPrefix(p + x, p) == Some(x)
  {
    assert (p + x)[..|p|] == p;
    assert (p + x)[|p|..] == x;
  }
}
