/**
 * The parts of Python's text handling that the settings store relies on:
 * `int(s)` on a base-10 literal, `str(n)` on an integer, and `s.lower()`.
 */
module PyText {
  import opened Wrappers

  /**
   * The whitespace `int()` ignores around a literal: the ASCII blanks
   * `\t \n \v \f \r` and space, and every non-ASCII character for which
   * `str.isspace()` holds. The ASCII separators U+001C to U+001F are
   * `str.isspace()` characters too, but `int()` does not skip them.
   */
  predicate IsSpace(c: char)
  {
    || c == ' '
    || ('\t' <= c <= '\r')
    || c == '\U{85}' || c == '\U{A0}' || c == '\U{1680}'
    || ('\U{2000}' <= c <= '\U{200A}')
    || c == '\U{2028}' || c == '\U{2029}' || c == '\U{202F}' || c == '\U{205F}' || c == '\U{3000}'
  }

  predicate AllSpace(s: string)
  {
    forall i :: 0 <= i < |s| ==> IsSpace(s[i])
  }

  /** Drops leading whitespace. */
  function LStrip(s: string): string
  {
    if s != [] && IsSpace(s[0]) then LStrip(s[1..]) else s
  }

  /** Drops trailing whitespace. */
  function RStrip(s: string): string
  {
    if s != [] && IsSpace(s[|s| - 1]) then RStrip(s[..|s| - 1]) else s
  }

  function Strip(s: string): string
  {
    RStrip(LStrip(s))
  }

  predicate IsDigit(c: char)
  {
    '0' <= c <= '9'
  }

  predicate AllDigits(s: string)
  {
    forall i :: 0 <= i < |s| ==> IsDigit(s[i])
  }

  function DigitValue(c: char): (d: nat)
    requires IsDigit(c)
    ensures d < 10
  {
    (c as int) - ('0' as int)
  }

  function DigitChar(d: nat): (c: char)
    requires d < 10
    ensures IsDigit(c) && DigitValue(c) == d
  {
    ('0' as int + d) as char
  }

  /**
   * The digit part of a base-10 `int()` literal: digits, where a single
   * underscore may separate two digits ("1_000"), but may not lead, trail
   * or be doubled.
   */
  predicate IsDigitGroups(s: string)
  {
    && |s| > 0
    && IsDigit(s[0])
    && IsDigit(s[|s| - 1])
    && (forall i :: 0 <= i < |s| ==> IsDigit(s[i]) || s[i] == '_')
    && (forall i :: 0 <= i < |s| - 1 ==> s[i] == '_' ==> s[i + 1] != '_')
  }

  function DropUnderscores(s: string): (r: string)
    ensures (forall i :: 0 <= i < |s| ==> IsDigit(s[i]) || s[i] == '_') ==> AllDigits(r)
  {
    if s == [] then []
    else if s[|s| - 1] == '_' then DropUnderscores(s[..|s| - 1])
    else DropUnderscores(s[..|s| - 1]) + [s[|s| - 1]]
  }

  /** The number a string of decimal digits denotes, most significant first. */
  function DecimalValue(ds: string): nat
    requires AllDigits(ds)
  {
    if ds == [] then 0 else DecimalValue(ds[..|ds| - 1]) * 10 + DigitValue(ds[|ds| - 1])
  }

  function ParseUnsigned(s: string): Option<int>
  {
    if IsDigitGroups(s) then Some(DecimalValue(DropUnderscores(s))) else None
  }

  /**
   * Python's `int(text)`: `None` where Python raises `ValueError`.
   * Surrounding whitespace is ignored, one sign is allowed, and the rest
   * must be digit groups.
   */
  function ParseInt(text: string): Option<int>
  {
    var t := Strip(text);
    if t != [] && (t[0] == '-' || t[0] == '+') then
      match ParseUnsigned(t[1..])
      case None => None
      case Some(m) => Some(if t[0] == '-' then -m else m)
    else
      ParseUnsigned(t)
  }

  /** Python's `str(n)` for a non-negative integer. */
  function FormatNat(n: nat): (r: string)
    ensures |r| > 0 && AllDigits(r)
  {
    if n < 10 then [DigitChar(n)] else FormatNat(n / 10) + [DigitChar(n % 10)]
  }

  /** Python's `str(n)`. */
  function FormatInt(n: int): string
  {
    if n < 0 then "-" + FormatNat(-n) else FormatNat(n)
  }

  /** Python's `s.lower()`, on ASCII letters. */
  function LowerChar(c: char): char
  {
    if 'A' <= c <= 'Z' then (c as int + 32) as char else c
  }

  function Lower(s: string): string
  {
    seq(|s|, i requires 0 <= i < |s| => LowerChar(s[i]))
  }

  /** Equal up to the case of ASCII letters. */
  predicate EqualIgnoringCase(s: string, t: string)
  {
    |s| == |t| && forall i :: 0 <= i < |s| ==> LowerChar(s[i]) == LowerChar(t[i])
  }

  // ---------------------------------------------------------------------
  // Lemmas

  lemma {:induction false} DecimalValueOfFormat(n: nat)
    ensures DecimalValue(FormatNat(n)) == n
  {
    if n >= 10 {
      var s := FormatNat(n);
      assert s[..|s| - 1] == FormatNat(n / 10);
      DecimalValueOfFormat(n / 10);
    }
  }

  lemma {:induction false} DropUnderscoresOfDigits(s: string)
    requires AllDigits(s)
    ensures DropUnderscores(s) == s
  {
    if s != [] {
      DropUnderscoresOfDigits(s[..|s| - 1]);
      assert s[..|s| - 1] + [s[|s| - 1]] == s;
    }
  }

  lemma {:induction false} LStripSpacePrefix(ws: string, s: string)
    requires AllSpace(ws)
    requires s != [] && !IsSpace(s[0])
    ensures LStrip(ws + s) == s
  {
    if ws != [] {
      assert (ws + s)[1..] == ws[1..] + s;
      LStripSpacePrefix(ws[1..], s);
    }
  }

  lemma {:induction false} RStripSpaceSuffix(s: string, ws: string)
    requires AllSpace(ws)
    requires s != [] && !IsSpace(s[|s| - 1])
    ensures RStrip(s + ws) == s
  {
    if ws != [] {
      assert (s + ws)[..|s + ws| - 1] == s + ws[..|ws| - 1];
      RStripSpaceSuffix(s, ws[..|ws| - 1]);
    }
  }

  lemma StripPadded(before: string, s: string, after: string)
    requires AllSpace(before) && AllSpace(after)
    requires s != [] && !IsSpace(s[0]) && !IsSpace(s[|s| - 1])
    ensures Strip(before + s + after) == s
  {
    assert before + s + after == before + (s + after);
    LStripSpacePrefix(before, s + after);
    RStripSpaceSuffix(s, after);
  }

  lemma ParseUnsignedOfFormat(m: nat)
    ensures ParseUnsigned(FormatNat(m)) == Some(m)
  {
    DropUnderscoresOfDigits(FormatNat(m));
    DecimalValueOfFormat(m);
  }

  /** `int(str(n)) == n`, and whitespace around the literal does not matter. */
  lemma ParseIntOfFormat(n: int, before: string, after: string)
    requires AllSpace(before) && AllSpace(after)
    ensures ParseInt(before + FormatInt(n) + after) == Some(n)
  {
    var lit := FormatInt(n);
    var digits := FormatNat(if n < 0 then -n else n);
    assert lit[|lit| - 1] == digits[|digits| - 1];
    StripPadded(before, lit, after);
    ParseUnsignedOfFormat(if n < 0 then -n else n);
    if n < 0 {
      assert lit[1..] == digits;
    }
  }

  /** `int()` raises on the empty string and on blanks. */
  lemma ParseIntRejectsBlank()
    ensures ParseInt("") == None
    ensures ParseInt("   ") == None
  {
    assert Strip("   ") == [];
  }

  /** `int()` raises on a word instead of defaulting. */
  lemma ParseIntRejectsWord()
    ensures ParseInt("abc") == None
  {
  }

  /** `int()` raises on a decimal point. */
  lemma ParseIntRejectsFraction()
    ensures ParseInt("1.5") == None
  {
  }

  /** `int()` does not skip the ASCII separator characters around a literal. */
  lemma ParseIntRejectsSeparators()
    ensures ParseInt("\U{1C}5") == None
    ensures ParseInt("5\U{1F}") == None
  {
    assert Strip("\U{1C}5") == "\U{1C}5";
    assert Strip("5\U{1F}") == "5\U{1F}";
  }

  /** `int()` raises on a doubled underscore. */
  lemma ParseIntRejectsDoubleUnderscore()
    ensures ParseInt("1__0") == None
  {
    assert Strip("1__0") == "1__0";
    assert "1__0"[1] == '_' && "1__0"[2] == '_';
  }

  /** `int()` raises on a space between the sign and the digits. */
  lemma ParseIntRejectsSpacedSign()
    ensures ParseInt("- 5") == None
  {
  }

  /** `int()` accepts leading zeros. */
  lemma ParseIntLeadingZeros()
    ensures ParseInt("007") == Some(7)
  {
    assert Strip("007") == "007";
    assert IsDigitGroups("007");
    DropUnderscoresOfDigits("007");
    assert "007"[..2] == "00" && "00"[..1] == "0" && "0"[..0] == [];
    assert DecimalValue("007") == 7;
    assert ParseUnsigned("007") == Some(7);
  }

  lemma DropUnderscoresExample()
    ensures DropUnderscores("1_000") == "1000"
  {
    assert DropUnderscores("1") == "1" by { assert "1"[..0] == []; }
    assert DropUnderscores("1_") == "1" by { assert "1_"[..1] == "1"; }
    assert DropUnderscores("1_0") == "10" by { assert "1_0"[..2] == "1_"; }
    assert DropUnderscores("1_00") == "100" by { assert "1_00"[..3] == "1_0"; }
    assert "1_000"[..4] == "1_00";
  }

  lemma DecimalValueExample()
    ensures AllDigits("1000") && DecimalValue("1000") == 1000
  {
    assert "1000"[..3] == "100" && "100"[..2] == "10" && "10"[..1] == "1" && "1"[..0] == [];
  }

  /** `int()` accepts single underscores between digits. */
  lemma ParseUnsignedUnderscores()
    ensures ParseUnsigned("1_000") == Some(1000)
  {
    DropUnderscoresExample();
    DecimalValueExample();
    assert IsDigitGroups("1_000");
  }

  /** `int()` accepts a sign, surrounding whitespace and underscores between digits. */
  lemma ParseIntUnderscores()
    ensures ParseInt(" -1_000\n") == Some(-1000)
  {
    StripPadded(" ", "-1_000", "\n");
    assert " " + "-1_000" + "\n" == " -1_000\n";
    assert "-1_000"[1..] == "1_000";
    ParseUnsignedUnderscores();
  }

  /** Lower-casing identifies exactly the strings that are equal ignoring case. */
  lemma LowerEqualIff(s: string, t: string)
    requires Lower(t) == t
    ensures Lower(s) == t <==> EqualIgnoringCase(s, t)
  {
  }
}
