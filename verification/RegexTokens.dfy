/** The characters of the pattern language of jimtcl/jimregexp.c: its signs, the escapes of single characters, and the
    classes with names. */
module RegexTokens {
  import opened RegexSyntax
  import opened RegexParser
  import opened RegexCode

  /** The characters of a text. */
  function Codes(t: string): (s: seq<int>)
    ensures |s| == |t| && forall k :: 0 <= k < |t| ==> s[k] == t[k] as int
  {
    seq(|t|, k requires 0 <= k < |t| => t[k] as int)
  }

  lemma CodeAt(s: seq<int>, i: nat, t: string, k: nat)
    requires Has(s, i, Codes(t)) && k < |t|
    ensures CharAt(s, i + k) == t[k] as int && i + k < |s|
  {
    HasAt(s, i, Codes(t), k);
  }

  lemma SignsAreAscii()
    ensures STAR == '*' as int && PLUS == '+' as int && QUESTION == '?' as int && LBRACE == '{' as int && RBRACE == '}' as int
    ensures BAR == '|' as int && LPAREN == '(' as int && RPAREN == ')' as int && COLON == ':' as int && DOT == '.' as int
    ensures CARET == '^' as int && DOLLAR == '$' as int && LBRACKET == '[' as int && RBRACKET == ']' as int
    ensures MINUS == '-' as int && BACKSLASH == '\\' as int && SPACE == ' ' as int
  {
  }

  // ----- Escapes of characters -----

  /** The characters that letters stand for after a backslash: backspace, escape, form feed, line feed, carriage return,
      tab and vertical tab; every other ASCII character that is not listed stands for itself. */
  lemma LetterEscapes(s: seq<int>, i: nat)
    requires i < |s| && 1 <= s[i] <= 127
    ensures s[i] == 'b' as int ==> DecodeEscape(s, i) == (8, 1)
    ensures s[i] == 'e' as int ==> DecodeEscape(s, i) == (27, 1)
    ensures s[i] == 'f' as int ==> DecodeEscape(s, i) == (12, 1)
    ensures s[i] == 'n' as int ==> DecodeEscape(s, i) == ('\n' as int, 1)
    ensures s[i] == 'r' as int ==> DecodeEscape(s, i) == ('\r' as int, 1)
    ensures s[i] == 't' as int ==> DecodeEscape(s, i) == ('\t' as int, 1)
    ensures s[i] == 'v' as int ==> DecodeEscape(s, i) == (11, 1)
    ensures s[i] as char !in "befnrtvuUx" ==> DecodeEscape(s, i) == (s[i], 1)
  {
    var l := "befnrtvuUx";
    assert l[0] == 'b' && l[1] == 'e' && l[2] == 'f' && l[3] == 'n' && l[4] == 'r' && l[5] == 't' && l[6] == 'v';
    assert l[7] == 'u' && l[8] == 'U' && l[9] == 'x';
  }

  const HEX := "0123456789abcdef"

  function Pow16(n: nat): (p: nat)
    ensures p > 0
  {
    if n == 0 then 1 else 16 * Pow16(n - 1)
  }

  /** A number as `n` hexadecimal digits. */
  function HexText(v: nat, n: nat): (t: seq<int>)
    ensures |t| == n
  {
    if n == 0 then [] else HexText(v / 16, n - 1) + [HEX[v % 16] as int]
  }

  lemma DigitReads(d: nat)
    requires d < 16
    ensures HexDigitVal(HEX[d] as int) == d
  {
  }

  predicate IsHexAt(s: seq<int>, i: nat, k: nat) {
    HexDigitVal(CharAt(s, i + k)) != -1
  }

  ghost predicate AllHex(s: seq<int>, i: nat, n: nat) {
    forall k :: 0 <= k < n ==> IsHexAt(s, i, k)
  }

  /** The digits of a number read as that number. */
  lemma {:induction false} HexReads(s: seq<int>, i: nat, v: nat, n: nat)
    requires Has(s, i, HexText(v, n)) && v < Pow16(n)
    ensures HexValue(s, i, n) == v && AllHex(s, i, n)
    decreases n
  {
    if n > 0 {
      var d := HEX[v % 16] as int;
      HasSplit(s, i, HexText(v / 16, n - 1), [d]);
      HexReads(s, i, v / 16, n - 1);
      HasAt(s, i + n - 1, [d], 0);
      DigitReads(v % 16);
      LastHex(s, i, n, d);
    }
  }

  lemma LastHex(s: seq<int>, i: nat, n: nat, d: int)
    requires n > 0 && AllHex(s, i, n - 1) && CharAt(s, i + n - 1) == d && HexDigitVal(d) != -1
    ensures AllHex(s, i, n)
  {
    forall k | 0 <= k < n ensures IsHexAt(s, i, k) {
      if k == n - 1 {
        assert i + k == i + n - 1;
      }
    }
  }

  lemma {:induction false} HexCounts(s: seq<int>, i: nat, n: nat)
    requires AllHex(s, i, n)
    ensures HexCount(s, i, n) == n
    decreases n
  {
    if n > 0 {
      assert IsHexAt(s, i, 0);
      var j := i + 1;
      forall k | 0 <= k < n - 1 ensures IsHexAt(s, j, k) {
        assert IsHexAt(s, i, k + 1);
        assert j + k == i + (k + 1);
      }
      HexCounts(s, j, n - 1);
    }
  }

  /** The letters x, u and U with two, four or eight hexadecimal digits stand for the number of the digits. */
  lemma HexEscapes(s: seq<int>, i: nat, v: nat, n: nat)
    requires i < |s| && Has(s, i + 1, HexText(v, n)) && v < Pow16(n) && v < 0x8000_0000
    requires (s[i] == 'x' as int && n == 2) || (s[i] == 'u' as int && n == 4) || (s[i] == 'U' as int && n == 8)
    ensures DecodeEscape(s, i) == (v, 1 + n)
  {
    HexReads(s, i + 1, v, n);
    HexCounts(s, i + 1, n);
    assert IsHexAt(s, i + 1, 0);
    NoBrace(CharAt(s, i + 1));
    assert ToInt32(v) == v;
  }

  lemma NoBrace(c: int)
    requires HexDigitVal(c) != -1
    ensures c != LBRACE
  {
  }

  // ----- Classes with names -----

  predicate IsLetter(c: int) {
    'a' as int <= c <= 'z' as int || 'A' as int <= c <= 'Z' as int
  }

  predicate IsDecimal(c: int) {
    '0' as int <= c <= '9' as int
  }

  predicate IsBlank(c: int) {
    c == ' ' as int || c == '\t' as int || c == '\r' as int || c == '\n' as int || c == 11 || c == 12
  }

  lemma InJoin(c: int, a: seq<Range>, b: seq<Range>)
    ensures InClass(c, a + b) <==> InClass(c, a) || InClass(c, b)
  {
    if InClass(c, a) {
      var k :| 0 <= k < |a| && InRange(c, a[k]);
      assert InRange(c, (a + b)[k]);
    }
    if InClass(c, b) {
      var k :| 0 <= k < |b| && InRange(c, b[k]);
      assert InRange(c, (a + b)[|a| + k]);
    }
    if InClass(c, a + b) {
      var k :| 0 <= k < |a + b| && InRange(c, (a + b)[k]);
      assert k < |a| ==> InRange(c, a[k]);
      assert k >= |a| ==> InRange(c, b[k - |a|]);
    }
  }

  lemma InOne(c: int, r: Range)
    ensures InClass(c, [r]) <==> InRange(c, r)
  {
    assert [r][0] == r;
  }

  lemma LettersAre(c: int)
    ensures InClass(c, LETTERS) <==> IsLetter(c)
  {
    assert LETTERS == [Range(97, 122)] + [Range(65, 90)];
    InJoin(c, [Range(97, 122)], [Range(65, 90)]);
    InOne(c, Range(97, 122));
    InOne(c, Range(65, 90));
  }

  lemma DigitsAre(c: int)
    ensures InClass(c, DIGITS) <==> IsDecimal(c)
  {
    InOne(c, Range(48, 57));
  }

  lemma SpacesAre(c: int)
    ensures InClass(c, SPACES) <==> IsBlank(c)
  {
    var a, b := [Range(32, 32), Range(9, 9), Range(13, 13)], [Range(10, 10), Range(12, 12), Range(11, 11)];
    assert SPACES == a + b;
    InJoin(c, a, b);
    ThreeAre(c, 32, 9, 13);
    ThreeAre(c, 10, 12, 11);
  }

  lemma ThreeAre(c: int, x: int, y: int, z: int)
    ensures InClass(c, [Range(x, x), Range(y, y), Range(z, z)]) <==> c == x || c == y || c == z
  {
    var t := [Range(x, x), Range(y, y), Range(z, z)];
    assert t == [t[0]] + ([t[1]] + [t[2]]);
    InJoin(c, [t[0]], [t[1]] + [t[2]]);
    InJoin(c, [t[1]], [t[2]]);
    InOne(c, t[0]);
    InOne(c, t[1]);
    InOne(c, t[2]);
  }

  lemma WordsAre(c: int)
    ensures InClass(c, LETTERS + DIGITS + [Range(95, 95)]) <==> IsWordChar(c)
    ensures InClass(c, LETTERS + DIGITS) <==> IsLetter(c) || IsDecimal(c)
    ensures IsWordChar(c) <==> IsLetter(c) || IsDecimal(c) || c == '_' as int
  {
    InJoin(c, LETTERS + DIGITS, [Range(95, 95)]);
    InJoin(c, LETTERS, DIGITS);
    InOne(c, Range(95, 95));
    LettersAre(c);
    DigitsAre(c);
  }

  /** The letters d, w and s after a backslash take the decimal digits, the characters of words and the blanks. */
  lemma LetterClasses(s: seq<int>, i: nat, letter: char, c: int)
    requires IsCString(s) && Has(s, i, Codes(['\\', letter])) && letter in "dws"
    ensures CharAt(s, i) != LPAREN
    ensures ParseLeaf(s, i).Ok? && ParseLeaf(s, i).pos == i + 2 && ParseLeaf(s, i).value.Class? && !ParseLeaf(s, i).value.negated
    ensures InClass(c, ParseLeaf(s, i).value.ranges) <==>
            if letter == 'd' then IsDecimal(c) else if letter == 'w' then IsLetter(c) || IsDecimal(c) || c == '_' as int else IsBlank(c)
  {
    CodeAt(s, i, ['\\', letter], 0);
    CodeAt(s, i, ['\\', letter], 1);
    DigitsAre(c);
    WordsAre(c);
    SpacesAre(c);
  }

  /** The letters m and M, or the angle brackets, after a backslash mean the start and the end of a word. */
  lemma WordAnchors(s: seq<int>, i: nat, letter: char)
    requires IsCString(s) && Has(s, i, Codes(['\\', letter])) && letter in "<m>M"
    ensures CharAt(s, i) != LPAREN && ParseLeaf(s, i) == Ok(if letter in "<m" then WordStart else WordEnd, i + 2, 0)
  {
    CodeAt(s, i, ['\\', letter], 0);
    CodeAt(s, i, ['\\', letter], 1);
  }

  lemma LooksAtCodes(s: seq<int>, i: nat, t: string)
    requires Has(s, i, Codes(t))
    ensures LooksAt(s, i, Codes(t))
  {
    assert s[i..i + |t|] == Codes(t);
  }

  lemma NamesAre()
    ensures ALPHA == Codes(":alpha:]") && ALNUM == Codes(":alnum:]") && SPACE_NAME == Codes(":space:]")
  {
  }

  lemma LooksHas(s: seq<int>, i: nat, t: seq<int>, k: nat)
    requires LooksAt(s, i, t) && k < |t|
    ensures s[i + k] == t[k]
  {
    assert s[i..i + |t|][k] == s[i + k];
  }

  lemma DifferAt(s: seq<int>, i: nat, a: seq<int>, b: seq<int>, k: nat)
    requires LooksAt(s, i, a) && k < |a| && k < |b| && a[k] != b[k]
    ensures !LooksAt(s, i, b)
  {
    LooksHas(s, i, a, k);
    if LooksAt(s, i, b) {
      LooksHas(s, i, b, k);
    }
  }

  /** The names alpha, alnum and space in a class take the letters, the letters and digits, and the blanks. */
  lemma NamedClasses(s: seq<int>, i: nat, name: string, c: int)
    requires IsCString(s) && (name == ":alpha:]" || name == ":alnum:]" || name == ":space:]")
    requires i < |s| && s[i] == '[' as int && Has(s, i + 1, Codes(name))
    ensures ParseClassItem(s, i).Ok? && ParseClassItem(s, i).pos == i + 9
    ensures InClass(c, ParseClassItem(s, i).value) <==>
            if name == ":alpha:]" then IsLetter(c) else if name == ":alnum:]" then IsLetter(c) || IsDecimal(c) else IsBlank(c)
  {
    CodeAt(s, i + 1, name, 0);
    LooksAtCodes(s, i + 1, name);
    NamesAre();
    if name != ":alpha:]" {
      DifferAt(s, i + 1, Codes(name), ALPHA, 3);
    }
    if name == ":space:]" {
      DifferAt(s, i + 1, Codes(name), ALNUM, 1);
    }
    LettersAre(c);
    WordsAre(c);
    SpacesAre(c);
  }

  // ----- Bounds -----

  /** Whatever is read as a repeat has a lower bound below 100, and an upper bound that is below 100 or stands for none. */
  lemma BoundsAreSmall(s: seq<int>, i: nat, width: bool)
    requires i <= |s| && ParseCount(s, i, width).Ok? && ParseCount(s, i, width).value.Repeat?
    ensures var c := ParseCount(s, i, width).value; c.min < 100 && c.min <= c.max && (c.max < 100 || c.max == MAX_REP_COUNT)
  {
  }
}
