/**
 * Number-to-text conversions shared by footnotes and page numbers: Roman
 * numerals (greedy over the subtractive table) and bijective base-26
 * letter numbering (A … Z, AA …).
 */
module Numbering {
  import opened TextUtil

  // ---------------------------------------------------------------
  // Roman numerals
  // ---------------------------------------------------------------

  /** The value/symbol table both Rust formatters walk, largest first. */
  const RomanValues: seq<nat> := [1000, 900, 500, 400, 100, 90, 50, 40, 10, 9, 5, 4, 1]
  const RomanSymbols: seq<string> := ["M", "CM", "D", "CD", "C", "XC", "L", "XL", "X", "IX", "V", "IV", "I"]

  /** The greedy loop from table row `i` on: while the remainder is at least the row's value, emit its symbol. */
  function RomanFrom(n: nat, i: nat): string
    requires i <= 13
    decreases 13 - i, n
  {
    if i == 13 then ""
    else if n >= RomanValues[i] then RomanSymbols[i] + RomanFrom(n - RomanValues[i], i)
    else RomanFrom(n, i + 1)
  }

  /** `to_roman_upper` / `format_roman_upper`. */
  function RomanUpper(n: nat): string
  {
    RomanFrom(n, 0)
  }

  /** `to_roman_lower` / `format_roman_lower`. */
  function RomanLower(n: nat): string
  {
    ToLower(RomanUpper(n))
  }

  /** The conventional pattern of one decimal digit written with the symbols for one, five and ten of its place. */
  function RomanDigit(d: nat, one: char, five: char, ten: char): (r: string)
    requires d < 10
  {
    match d
    case 0 => ""
    case 1 => [one]
    case 2 => [one, one]
    case 3 => [one, one, one]
    case 4 => [one, five]
    case 5 => [five]
    case 6 => [five, one]
    case 7 => [five, one, one]
    case 8 => [five, one, one, one]
    case _ => [one, ten]
  }

  function Repeat(c: char, k: nat): (r: string)
    ensures |r| == k
    ensures forall i :: 0 <= i < k ==> r[i] == c
  {
    if k == 0 then "" else [c] + Repeat(c, k - 1)
  }

  /**
   * Standard Roman numerals, written place by place: one `M` per thousand,
   * then the hundreds, tens and ones digits in their conventional patterns.
   */
  function StandardRoman(n: nat): string
  {
    var m := n % 1000;
    Repeat('M', n / 1000)
    + RomanDigit(m / 100, 'C', 'D', 'M')
    + RomanDigit(m % 100 / 10, 'X', 'L', 'C')
    + RomanDigit(m % 100 % 10, 'I', 'V', 'X')
  }

  /** The table rows `s .. s+3` form one decimal place: nine, five, four and one unit of it. */
  predicate PlaceRows(s: nat, u: nat, one: char, five: char, ten: char)
  {
    s + 4 <= 13 && u >= 1
    && RomanValues[s] == 9 * u && RomanSymbols[s] == [one, ten]
    && RomanValues[s + 1] == 5 * u && RomanSymbols[s + 1] == [five]
    && RomanValues[s + 2] == 4 * u && RomanSymbols[s + 2] == [one, five]
    && RomanValues[s + 3] == u && RomanSymbols[s + 3] == [one]
  }

  /** Row `i` is skipped when the remainder is below its value. */
  lemma SkipRow(n: nat, i: nat)
    requires i < 13 && n < RomanValues[i]
    ensures RomanFrom(n, i) == RomanFrom(n, i + 1)
  {
  }

  lemma UnitStep(x: nat, s: nat, u: nat, one: char, five: char, ten: char)
    requires PlaceRows(s, u, one, five, ten) && x >= u
    ensures RomanFrom(x, s + 3) == [one] + RomanFrom(x - u, s + 3)
  {
  }

  /** `k` units of size `u`, added up one at a time (keeps the place lemmas free of products). */
  function Units(k: nat, u: nat): nat
  {
    if k == 0 then 0 else Units(k - 1, u) + u
  }

  lemma {:induction false} UnitsIsProduct(k: nat, u: nat)
    ensures Units(k, u) == k * u
  {
    if k > 0 {
      UnitsIsProduct(k - 1, u);
    }
  }

  lemma {:induction false} UnitsAdd(a: nat, b: nat, u: nat)
    ensures Units(a + b, u) == Units(a, u) + Units(b, u)
  {
    if b > 0 {
      UnitsAdd(a, b - 1, u);
    }
  }

  lemma UnitsAtMostThree(k: nat, u: nat)
    requires k <= 3
    ensures Units(k, u) <= 3 * u
  {
    UnitsIsProduct(k, u);
    if k == 0 { } else if k == 1 { } else if k == 2 { } else { UnitsIsProduct(3, u); }
  }

  lemma UnitRunOne(r: nat, s: nat, u: nat, one: char, five: char, ten: char)
    requires PlaceRows(s, u, one, five, ten) && r < u
    ensures RomanFrom(u + r, s + 3) == [one] + RomanFrom(r, s + 4)
  {
    SkipRow(r, s + 3);
    UnitStep(u + r, s, u, one, five, ten);
  }

  lemma UnitRunTwo(r: nat, s: nat, u: nat, one: char, five: char, ten: char)
    requires PlaceRows(s, u, one, five, ten) && r < u
    ensures RomanFrom(2 * u + r, s + 3) == [one, one] + RomanFrom(r, s + 4)
  {
    UnitStep(2 * u + r, s, u, one, five, ten);
    UnitRunOne(r, s, u, one, five, ten);
  }

  lemma UnitRunThree(r: nat, s: nat, u: nat, one: char, five: char, ten: char)
    requires PlaceRows(s, u, one, five, ten) && r < u
    ensures RomanFrom(3 * u + r, s + 3) == [one, one, one] + RomanFrom(r, s + 4)
  {
    UnitStep(3 * u + r, s, u, one, five, ten);
    assert 3 * u + r - u == 2 * u + r;
    UnitRunTwo(r, s, u, one, five, ten);
    AppendAssoc([one], [one, one], RomanFrom(r, s + 4));
    assert [one] + [one, one] == [one, one, one];
  }

  /** Up to three repetitions of the unit row. */
  lemma UnitRun(k: nat, r: nat, s: nat, u: nat, one: char, five: char, ten: char)
    requires PlaceRows(s, u, one, five, ten)
    requires k <= 3 && r < u
    ensures RomanFrom(Units(k, u) + r, s + 3) == Repeat(one, k) + RomanFrom(r, s + 4)
  {
    if k == 0 {
      SkipRow(r, s + 3);
      assert Repeat(one, 0) == [];
    } else if k == 1 {
      UnitsIsProduct(1, u);
      UnitRunOne(r, s, u, one, five, ten);
      assert Repeat(one, 1) == [one];
    } else if k == 2 {
      UnitsIsProduct(2, u);
      UnitRunTwo(r, s, u, one, five, ten);
      assert Repeat(one, 2) == [one, one];
    } else {
      UnitsIsProduct(3, u);
      UnitRunThree(r, s, u, one, five, ten);
      assert Repeat(one, 3) == [one, one, one];
    }
  }

  lemma PlaceNine(r: nat, s: nat, u: nat, one: char, five: char, ten: char)
    requires PlaceRows(s, u, one, five, ten) && r < u
    ensures RomanFrom(9 * u + r, s) == [one, ten] + RomanFrom(r, s + 4)
  {
    assert RomanFrom(9 * u + r, s) == [one, ten] + RomanFrom(r, s);
    SkipRow(r, s);
    SkipRow(r, s + 1);
    SkipRow(r, s + 2);
    SkipRow(r, s + 3);
  }

  lemma PlaceFour(r: nat, s: nat, u: nat, one: char, five: char, ten: char)
    requires PlaceRows(s, u, one, five, ten) && r < u
    ensures RomanFrom(4 * u + r, s) == [one, five] + RomanFrom(r, s + 4)
  {
    SkipRow(4 * u + r, s);
    SkipRow(4 * u + r, s + 1);
    assert RomanFrom(4 * u + r, s + 2) == [one, five] + RomanFrom(r, s + 2);
    SkipRow(r, s + 2);
    SkipRow(r, s + 3);
  }

  lemma PlaceFive(k: nat, r: nat, s: nat, u: nat, one: char, five: char, ten: char)
    requires PlaceRows(s, u, one, five, ten) && k <= 3 && r < u
    ensures RomanFrom(5 * u + Units(k, u) + r, s) == [five] + Repeat(one, k) + RomanFrom(r, s + 4)
  {
    var m := Units(k, u) + r;
    UnitsAtMostThree(k, u);
    SkipRow(5 * u + m, s);
    FiveStep(m, s, u, one, five, ten);
    SkipRow(m, s + 1);
    SkipRow(m, s + 2);
    UnitRun(k, r, s, u, one, five, ten);
    AppendAssoc([five], Repeat(one, k), RomanFrom(r, s + 4));
  }

  lemma FiveStep(m: nat, s: nat, u: nat, one: char, five: char, ten: char)
    requires PlaceRows(s, u, one, five, ten)
    ensures RomanFrom(5 * u + m, s + 1) == [five] + RomanFrom(m, s + 1)
  {
  }

  lemma AppendAssoc(a: string, b: string, c: string)
    ensures a + b + c == a + (b + c)
  {
  }

  lemma PlaceLow(k: nat, r: nat, s: nat, u: nat, one: char, five: char, ten: char)
    requires PlaceRows(s, u, one, five, ten) && k <= 3 && r < u
    ensures RomanFrom(Units(k, u) + r, s) == Repeat(one, k) + RomanFrom(r, s + 4)
  {
    var m := Units(k, u) + r;
    UnitsAtMostThree(k, u);
    SkipRow(m, s);
    SkipRow(m, s + 1);
    SkipRow(m, s + 2);
    UnitRun(k, r, s, u, one, five, ten);
  }

  /** The greedy loop spends the rows of one decimal place on exactly the conventional digit pattern. */
  lemma Place(d: nat, r: nat, s: nat, u: nat, one: char, five: char, ten: char)
    requires PlaceRows(s, u, one, five, ten)
    requires d < 10 && r < u
    ensures RomanFrom(Units(d, u) + r, s) == RomanDigit(d, one, five, ten) + RomanFrom(r, s + 4)
  {
    if d == 9 {
      UnitsIsProduct(9, u);
      PlaceNine(r, s, u, one, five, ten);
    } else if d >= 5 {
      PlaceFiveDigit(d, r, s, u, one, five, ten);
    } else if d == 4 {
      UnitsIsProduct(4, u);
      PlaceFour(r, s, u, one, five, ten);
    } else {
      PlaceLow(d, r, s, u, one, five, ten);
      assert RomanDigit(d, one, five, ten) == Repeat(one, d);
    }
  }

  lemma PlaceFiveDigit(d: nat, r: nat, s: nat, u: nat, one: char, five: char, ten: char)
    requires PlaceRows(s, u, one, five, ten)
    requires 5 <= d < 9 && r < u
    ensures RomanFrom(Units(d, u) + r, s) == RomanDigit(d, one, five, ten) + RomanFrom(r, s + 4)
  {
    UnitsAdd(5, d - 5, u);
    UnitsIsProduct(5, u);
    PlaceFive(d - 5, r, s, u, one, five, ten);
    assert RomanDigit(d, one, five, ten) == [five] + Repeat(one, d - 5);
  }

  lemma {:induction false} ThousandsRun(n: nat)
    ensures RomanFrom(n, 0) == Repeat('M', n / 1000) + RomanFrom(n % 1000, 1)
  {
    if n >= 1000 {
      ThousandsRun(n - 1000);
      assert Repeat('M', n / 1000) == "M" + Repeat('M', (n - 1000) / 1000);
    }
  }

  lemma Hundreds(m: nat)
    requires m < 1000
    ensures RomanFrom(m, 1) == RomanDigit(m / 100, 'C', 'D', 'M') + RomanFrom(m % 100, 5)
  {
    assert PlaceRows(1, 100, 'C', 'D', 'M');
    UnitsIsProduct(m / 100, 100);
    Place(m / 100, m % 100, 1, 100, 'C', 'D', 'M');
  }

  lemma Tens(t: nat)
    requires t < 100
    ensures RomanFrom(t, 5) == RomanDigit(t / 10, 'X', 'L', 'C') + RomanFrom(t % 10, 9)
  {
    assert PlaceRows(5, 10, 'X', 'L', 'C');
    UnitsIsProduct(t / 10, 10);
    Place(t / 10, t % 10, 5, 10, 'X', 'L', 'C');
  }

  lemma Ones(o: nat)
    requires o < 10
    ensures RomanFrom(o, 9) == RomanDigit(o, 'I', 'V', 'X')
  {
    assert PlaceRows(9, 1, 'I', 'V', 'X');
    UnitsIsProduct(o, 1);
    Place(o, 0, 9, 1, 'I', 'V', 'X');
    assert RomanFrom(0, 13) == "";
  }

  /** The greedy formatter produces the standard numeral of every number. */
  lemma RomanUpperIsStandard(n: nat)
    ensures RomanUpper(n) == StandardRoman(n)
  {
    ThousandsRun(n);
    var m := n % 1000;
    Hundreds(m);
    Tens(m % 100);
    Ones(m % 100 % 10);
  }

  lemma RomanExamples()
    ensures RomanUpper(1) == "I" && RomanUpper(4) == "IV" && RomanUpper(9) == "IX"
    ensures RomanUpper(100) == "C"
  {
    RomanUpperIsStandard(1);
    RomanUpperIsStandard(4);
    RomanUpperIsStandard(9);
    RomanUpperIsStandard(100);
  }

  lemma RomanExampleLargest()
    ensures RomanUpper(3999) == "MMMCMXCIX"
  {
    RomanUpperIsStandard(3999);
    assert Repeat('M', 3) == "MMM";
  }

  lemma RomanLowerExamples()
    ensures RomanLower(1) == "i" && RomanLower(4) == "iv" && RomanLower(9) == "ix"
  {
    RomanExamples();
  }

  predicate IsUpperWord(s: string)
  {
    forall i :: 0 <= i < |s| ==> 'A' <= s[i] <= 'Z'
  }

  lemma {:induction false} RomanFromIsUpper(n: nat, i: nat)
    requires i <= 13
    ensures IsUpperWord(RomanFrom(n, i))
    decreases 13 - i, n
  {
    if i < 13 {
      if n >= RomanValues[i] {
        RomanFromIsUpper(n - RomanValues[i], i);
      } else {
        RomanFromIsUpper(n, i + 1);
      }
    }
  }

  lemma {:induction false} UpperOfLower(s: string)
    requires IsUpperWord(s)
    ensures ToUpper(ToLower(s)) == s
  {
    if |s| > 0 {
      UpperOfLower(s[1..]);
      assert ToLower(s)[1..] == ToLower(s[1..]);
    }
  }

  /** Lower-case numerals are the upper-case ones in small letters: upper-casing them gives the upper-case numeral back. */
  lemma RomanLowerUpcases(n: nat)
    ensures ToUpper(RomanLower(n)) == RomanUpper(n)
    ensures |RomanLower(n)| == |RomanUpper(n)|
  {
    RomanFromIsUpper(n, 0);
    UpperOfLower(RomanUpper(n));
  }

  // ---------------------------------------------------------------
  // Letters: bijective base 26
  // ---------------------------------------------------------------

  function Letter(d: nat): char
    requires d < 26
  {
    ('A' as int + d) as char
  }

  /** The letter loop run on `num = n - 1`: last letter from `num % 26`, then the rest from `num / 26 - 1`. */
  function LettersFrom(num: nat): (r: string)
    ensures |r| >= 1
  {
    if num < 26 then [Letter(num)]
    else LettersFrom(num / 26 - 1) + [Letter(num % 26)]
  }

  /** `to_letter_upper`: 0 has no letters. */
  function LetterUpper(n: nat): string
  {
    if n == 0 then "" else LettersFrom(n - 1)
  }

  /** `to_letter_lower`. */
  function LetterLower(n: nat): string
  {
    ToLower(LetterUpper(n))
  }

  /** Reading a letter word back: A..Z are the digits 1..26 of a base-26 numeral. */
  function LetterValue(s: string): nat
    requires IsUpperWord(s)
  {
    if |s| == 0 then 0
    else LetterValue(s[..|s| - 1]) * 26 + (s[|s| - 1] as int - 'A' as int + 1)
  }

  lemma {:induction false} LettersFromIsUpper(num: nat)
    ensures IsUpperWord(LettersFrom(num))
  {
    if num >= 26 {
      LettersFromIsUpper(num / 26 - 1);
    }
  }

  /** Every number is read back from its letters. */
  lemma {:induction false} LetterRoundTrip(n: nat)
    ensures IsUpperWord(LetterUpper(n))
    ensures LetterValue(LetterUpper(n)) == n
  {
    if n > 0 {
      LettersFromIsUpper(n - 1);
      var num := n - 1;
      if num >= 26 {
        var s := LettersFrom(num);
        assert s[..|s| - 1] == LettersFrom(num / 26 - 1);
        LetterRoundTrip(num / 26);
      }
    }
  }

  /** Every non-empty word of capitals is the letter numeral of exactly its value. */
  lemma {:induction false} LetterWordRoundTrip(s: string)
    requires IsUpperWord(s) && |s| >= 1
    ensures LetterValue(s) >= 1
    ensures LetterUpper(LetterValue(s)) == s
  {
    var p := s[..|s| - 1];
    var d := s[|s| - 1] as int - 'A' as int;
    if |p| == 0 {
      assert s == [Letter(d)];
    } else {
      LetterWordRoundTrip(p);
      var num := LetterValue(s) - 1;
      assert num == LetterValue(p) * 26 + d;
      assert num / 26 == LetterValue(p) && num % 26 == d;
      assert s == p + [Letter(d)];
    }
  }

  lemma LetterExamples()
    ensures LetterUpper(0) == ""
    ensures LetterUpper(1) == "A" && LetterUpper(26) == "Z" && LetterUpper(27) == "AA"
  {
    LetterWordRoundTrip("A");
    LetterWordRoundTrip("Z");
    LetterWordRoundTrip("AA");
  }

  lemma LetterExamplesSecondRound()
    ensures LetterUpper(52) == "AZ" && LetterUpper(53) == "BA"
  {
    LetterWordRoundTrip("AZ");
    LetterWordRoundTrip("BA");
  }

  lemma LetterLowerExamples()
    ensures LetterLower(1) == "a" && LetterLower(26) == "z" && LetterLower(27) == "aa"
  {
    LetterExamples();
  }
}
