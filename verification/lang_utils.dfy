/**
  Numeral lookup: the glyph shown on a button for a digit, in the numeral
  system selected by the player's language id.
 */
module LangUtils {
  import opened Wrappers

  /** The language ids that have a numeral table. */
  const KnownLanguages: set<int> := {1, 2, 3, 4, 5, 6}

  const Devanagari: seq<string> := ["०", "१", "२", "३", "४", "५", "६", "७", "८", "९"]
  const Chinese: seq<string> := ["零", "一", "二", "三", "四", "五", "六", "七", "八", "九"]
  const Khmer: seq<string> := ["០", "១", "២", "៣", "៤", "៥", "៦", "៧", "៨", "៩"]
  const ChineseFinancial: seq<string> := ["零", "壹", "貳", "參", "肆", "伍", "陸", "柒", "捌", "玖"]
  const Hangul: seq<string> := ["공", "일", "이", "삼", "사", "오", "육", "칠", "팔", "구"]
  /** Glagolitic has no zero: its entry 0 is the empty string. */
  const Glagolitic: seq<string> := ["", "Ⰰ", "Ⰱ", "Ⰲ", "Ⰳ", "Ⰴ", "Ⰵ", "Ⰶ", "Ⰷ", "Ⰸ"]

  /** The numeral tables, keyed by language id and indexed by digit. */
  const LanguageMap: map<int, seq<string>> :=
    map[1 := Devanagari, 2 := Chinese, 3 := Khmer, 4 := ChineseFinancial, 5 := Hangul, 6 := Glagolitic]

  // ---------------------------------------------------------------------
  // Decimal strings (the fallback rendering, as String.valueOf(int))
  // ---------------------------------------------------------------------

  predicate IsDigitChar(c: char) {
    '0' <= c <= '9'
  }

  function DigitChar(d: int): (c: char)
    requires 0 <= d <= 9
    ensures IsDigitChar(c)
    ensures DigitValue(c) == d
  {
    (('0' as int) + d) as char
  }

  function DigitValue(c: char): (d: int)
    requires IsDigitChar(c)
  {
    (c as int) - ('0' as int)
  }

  predicate AllDigits(s: string) {
    forall k :: 0 <= k < |s| ==> IsDigitChar(s[k])
  }

  /** Most significant digit first, no leading zeros. */
  function NatDigits(n: nat): (s: string)
    ensures |s| >= 1
    ensures AllDigits(s)
    ensures |s| > 1 ==> s[0] != '0'
    decreases n
  {
    if n < 10 then [DigitChar(n)] else NatDigits(n / 10) + [DigitChar(n % 10)]
  }

  /**
    The decimal rendering of any integer: a '-' exactly when negative, then
    a non-empty run of digits with no leading zero; a digit renders as itself.
   */
  function DecimalString(i: int): (s: string)
    ensures |s| >= 1
    ensures s[0] == '-' <==> i < 0
    ensures i < 0 ==> |s| >= 2 && AllDigits(s[1..]) && (|s| > 2 ==> s[1] != '0')
    ensures i >= 0 ==> AllDigits(s) && (|s| > 1 ==> s[0] != '0')
    ensures 0 <= i <= 9 ==> s == [DigitChar(i)]
  {
    if i < 0 then "-" + NatDigits(-i) else NatDigits(i)
  }

  /** Reads a non-empty run of digits, most significant first. */
  function ParseNat(s: string): (n: nat)
    requires AllDigits(s)
  {
    if |s| == 0 then 0
    else 10 * ParseNat(s[..|s| - 1]) + DigitValue(s[|s| - 1])
  }

  /** The inverse of DecimalString: an optional '-' and at least one digit. */
  function ParseDecimal(s: string): (r: Option<int>) {
    if |s| >= 2 && s[0] == '-' && AllDigits(s[1..]) then Some(0 - ParseNat(s[1..]))
    else if |s| >= 1 && AllDigits(s) then Some(ParseNat(s))
    else None
  }

  lemma {:induction false} ParseNatDigits(n: nat)
    ensures ParseNat(NatDigits(n)) == n
    decreases n
  {
    if n >= 10 {
      var a := NatDigits(n / 10);
      var s := a + [DigitChar(n % 10)];
      assert s[..|s| - 1] == a;
      ParseNatDigits(n / 10);
    }
  }

  /** Reading back the decimal rendering of any integer gives that integer. */
  lemma DecimalRoundTrip(i: int)
    ensures ParseDecimal(DecimalString(i)) == Some(i)
  {
    var s := DecimalString(i);
    if i < 0 {
      assert s[1..] == NatDigits(-i);
      ParseNatDigits(-i);
    } else {
      assert IsDigitChar(s[0]);
      ParseNatDigits(i);
    }
  }

  /** Distinct integers never share a decimal rendering. */
  lemma DecimalStringInjective(i: int, j: int)
    requires i != j
    ensures DecimalString(i) != DecimalString(j)
  {
    DecimalRoundTrip(i);
    DecimalRoundTrip(j);
  }

  // ---------------------------------------------------------------------
  // Translation
  // ---------------------------------------------------------------------

  /**
    The glyph for digit i in language `language`. A known language indexes
    its table (an index outside the table would throw, hence the
    precondition); any other id falls back to the decimal string of i.
   */
  function GetTranslation(language: int, i: int): (s: string)
    requires language in LanguageMap ==> 0 <= i < 10
    ensures language !in KnownLanguages ==> ParseDecimal(s) == Some(i)
  {
    if language in LanguageMap then LanguageMap[language][i]
    else DecimalRoundTrip(i); DecimalString(i)
  }

  /** The tables cover exactly the known ids, and each has one entry per digit 0..9. */
  lemma TablesHaveTenEntries(language: int)
    ensures language in LanguageMap <==> language in KnownLanguages
    ensures language in LanguageMap ==> |LanguageMap[language]| == 10
  {
  }

  /** Known ids read their table; e.g. digit 9 in Khmer (id 3) is the Khmer nine. */
  lemma KnownLanguageGlyphs()
    ensures GetTranslation(1, 9) == "९"
    ensures GetTranslation(3, 9) == "៩"
    ensures GetTranslation(5, 1) == "일"
    ensures GetTranslation(6, 0) == ""
  {
  }

  /** Unknown ids, including the default id 0, render the plain digit. */
  lemma {:induction false} UnknownLanguageGlyphs(language: int, d: int)
    requires language !in KnownLanguages
    requires 0 <= d <= 9
    ensures GetTranslation(language, d) == [DigitChar(d)]
  {
    assert DecimalString(d) == NatDigits(d) == [DigitChar(d)];
  }

  /** Glyphs 1..9 of a table are non-empty single symbols, none is "?", and they differ pairwise. */
  predicate GlyphsDistinct(t: seq<string>)
    requires |t| == 10
  {
    && (forall a :: 1 <= a <= 9 ==> |t[a]| == 1 && t[a] != "?")
    && (forall a, b :: 1 <= a < b <= 9 ==> t[a][0] != t[b][0])
  }

  lemma DevanagariDistinct()
    ensures GlyphsDistinct(Devanagari)
  {
  }

  lemma ChineseDistinct()
    ensures GlyphsDistinct(Chinese)
  {
  }

  lemma KhmerDistinct()
    ensures GlyphsDistinct(Khmer)
  {
  }

  lemma ChineseFinancialDistinct()
    ensures GlyphsDistinct(ChineseFinancial)
  {
  }

  lemma HangulDistinct()
    ensures GlyphsDistinct(Hangul)
  {
  }

  lemma GlagoliticDistinct()
    ensures GlyphsDistinct(Glagolitic)
  {
  }

  lemma TableGlyphsDistinct(language: int)
    requires language in KnownLanguages
    ensures |LanguageMap[language]| == 10
    ensures GlyphsDistinct(LanguageMap[language])
  {
    if language == 1 {
      DevanagariDistinct();
    } else if language == 2 {
      ChineseDistinct();
    } else if language == 3 {
      KhmerDistinct();
    } else if language == 4 {
      ChineseFinancialDistinct();
    } else if language == 5 {
      HangulDistinct();
    } else {
      GlagoliticDistinct();
    }
  }

  /**
    The nine button labels are always told apart: in every language the
    glyphs of 1..9 are non-empty, are not the hidden-value mark "?", and
    differ pairwise.
   */
  lemma LabelsDistinguishable(language: int, a: int, b: int)
    requires 1 <= a <= 9 && 1 <= b <= 9
    ensures GetTranslation(language, a) != ""
    ensures GetTranslation(language, a) != "?"
    ensures a != b ==> GetTranslation(language, a) != GetTranslation(language, b)
  {
    if language !in KnownLanguages {
      UnknownLanguageGlyphs(language, a);
      UnknownLanguageGlyphs(language, b);
    } else {
      TableGlyphsDistinct(language);
      var t := LanguageMap[language];
      if a < b {
        assert t[a][0] != t[b][0];
      } else if b < a {
        assert t[b][0] != t[a][0];
      }
    }
  }
}
