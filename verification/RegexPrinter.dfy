/** A pattern text for every syntax tree in canonical form, and the proof that parsing the text gives the tree
    back: the grammar of jimtcl/jimregexp.c reaches all these trees, and reads them as they are meant. */
module RegexPrinter {
  import opened RegexSyntax
  import opened RegexParser
  import opened RegexCode
  import opened RegexCaptures

  const COMMA := 44

  predicate IsByte(c: int) {
    1 <= c <= 255
  }

  // ----- Canonical trees -----

  predicate CanonicalCount(c: Count) {
    c.Repeat? ==> 0 <= c.min <= c.max && c.min < 100 && (c.max < 100 || c.max == MAX_REP_COUNT)
  }

  /** A literal that no repeat follows. */
  predicate Lone(p: Piece) {
    p.atom.Literal? && p.count.Once?
  }

  ghost predicate CanonicalAtom(a: Atom) {
    match a
    case Literal(chars) => chars != [] && forall k :: 0 <= k < |chars| ==> IsByte(chars[k])
    case Class(_, ranges) => ranges != [] && forall k :: 0 <= k < |ranges| ==> IsByte(ranges[k].lo) && IsByte(ranges[k].hi)
    case Group(no, alts) => alts != [] && CanonicalAlts(alts)
    case _ => true
  }

  /** A repeat follows a single character, and only an optional atom may be without width. */
  ghost predicate CanonicalPiece(p: Piece) {
    && CanonicalAtom(p.atom) && CanonicalCount(p.count)
    && (p.count.Repeat? ==>
          && (p.atom.Literal? ==> |p.atom.chars| == 1)
          && (AtomHasWidth(p.atom) || (p.count.min == 0 && p.count.max == 1)))
  }

  /** Runs of ordinary characters are as long as they can be. */
  ghost predicate CanonicalPieces(ps: seq<Piece>) {
    ps == [] ||
    (CanonicalPiece(ps[0]) && CanonicalPieces(ps[1..]) && (|ps| > 1 ==> !(Lone(ps[0]) && Lone(ps[1]))))
  }

  ghost predicate CanonicalAlts(alts: seq<Branch>) {
    alts == [] || (CanonicalPieces(alts[0].pieces) && CanonicalAlts(alts[1..]))
  }

  // ----- Their texts -----

  function ShowChar(c: int): (t: seq<int>)
    ensures 1 <= |t| <= 2
  {
    if IsMeta(c) || c == BACKSLASH then [BACKSLASH, c] else [c]
  }

  function ShowChars(chars: seq<int>): seq<int> {
    if chars == [] then [] else ShowChar(chars[0]) + ShowChars(chars[1..])
  }

  predicate IsClassMeta(c: int) {
    c == RBRACKET || c == LBRACKET || c == BACKSLASH || c == CARET || c == MINUS
  }

  function ShowClassChar(c: int): (t: seq<int>)
    ensures 1 <= |t| <= 2
  {
    if IsClassMeta(c) then [BACKSLASH, c] else [c]
  }

  function ShowRange(r: Range): seq<int> {
    ShowClassChar(r.lo) + ([MINUS] + ShowClassChar(r.hi))
  }

  function ShowRanges(rs: seq<Range>): seq<int> {
    if rs == [] then [] else ShowRange(rs[0]) + ShowRanges(rs[1..])
  }

  /** A number below 100 in decimal. */
  function Decimal(n: int): (t: seq<int>)
    ensures 1 <= |t| <= 2
  {
    if n < 10 then [48 + n] else [48 + n / 10, 48 + n % 10]
  }

  /** The two ways in which a repeat is written: with `*`, `+`, `?` and `{n}` where these can be used, or with two
      bounds in braces; what may be without width has to be written with `?`. */
  datatype Way = Short | Braced

  function ShowBraces(min: int, max: int): (t: seq<int>)
    ensures t != [] && IsMult(t[0])
  {
    [LBRACE] + Decimal(min) + [COMMA] + ShowMax(max) + [RBRACE]
  }

  function ShowBounds(w: Way, min: int, max: int, width: bool): (t: seq<int>)
    ensures t != [] && IsMult(t[0])
  {
    if min == 0 && max == 1 && (w.Short? || !width) then [QUESTION]
    else if w.Short? && min == 0 && max == MAX_REP_COUNT then [STAR]
    else if w.Short? && min == 1 && max == MAX_REP_COUNT then [PLUS]
    else if w.Short? && min == max then [LBRACE] + Decimal(min) + [RBRACE]
    else ShowBraces(min, max)
  }

  function ShowCount(w: Way, c: Count, width: bool): seq<int> {
    match c
    case Once => []
    case Repeat(min, max, greedy) => ShowBounds(w, min, max, width) + if greedy then [] else [QUESTION]
  }

  function ShowAtom(w: Way, a: Atom): seq<int>
    decreases a, 0
  {
    match a
    case Bol => [CARET]
    case Eol => [DOLLAR]
    case WordStart => [BACKSLASH, 60]
    case WordEnd => [BACKSLASH, 62]
    case Any => [DOT]
    case Class(negated, ranges) => [LBRACKET] + (if negated then [CARET] else []) + ShowRanges(ranges) + [RBRACKET]
    case Literal(chars) => ShowChars(chars)
    case Group(no, alts) => [LPAREN] + (if no == -1 then [QUESTION, COLON] else []) + ShowAlts(w, alts) + [RPAREN]
  }

  function ShowPiece(w: Way, p: Piece): seq<int>
    decreases p, 0
  {
    ShowAtom(w, p.atom) + ShowCount(w, p.count, AtomHasWidth(p.atom))
  }

  function ShowPieces(w: Way, ps: seq<Piece>): seq<int>
    decreases ps, 0
  {
    if ps == [] then [] else ShowPiece(w, ps[0]) + ShowPieces(w, ps[1..])
  }

  function ShowAlts(w: Way, alts: seq<Branch>): seq<int>
    decreases alts, 0
  {
    if alts == [] then []
    else if |alts| == 1 then ShowPieces(w, alts[0].pieces)
    else ShowPieces(w, alts[0].pieces) + ([BAR] + ShowAlts(w, alts[1..]))
  }

  // ----- Literals -----

  /** A run of ordinary characters ends here. */
  ghost predicate RunStops(s: seq<int>, i: nat) {
    !StartsLiteral(s, i) || (LiteralChar(s, i).0 != 0 && IsMult(CharAt(s, i + LiteralChar(s, i).1)))
  }

  lemma CharReads(s: seq<int>, i: nat, c: int)
    requires IsByte(c) && Has(s, i, ShowChar(c))
    ensures StartsLiteral(s, i) && LiteralChar(s, i) == (c, |ShowChar(c)|) && !IsMult(CharAt(s, i))
  {
    HasAt(s, i, ShowChar(c), 0);
    if IsMeta(c) || c == BACKSLASH {
      HasAt(s, i, [BACKSLASH, c], 1);
    }
  }

  /** No repeat follows the first of several characters. */
  lemma NoRepeatAfter(s: seq<int>, i: nat, rest: seq<int>, end: nat)
    requires IsCString(s) && Has(s, i, ShowChars(rest)) && end == i + |ShowChars(rest)| && !IsMult(CharAt(s, end))
    requires forall k :: 0 <= k < |rest| ==> IsByte(rest[k])
    ensures !IsMult(CharAt(s, i))
  {
    if rest != [] {
      HasSplit(s, i, ShowChar(rest[0]), ShowChars(rest[1..]));
      CharReads(s, i, rest[0]);
    }
  }

  lemma {:induction false} LiteralReads(s: seq<int>, i: nat, acc: seq<int>, chars: seq<int>, end: nat)
    requires IsCString(s) && Has(s, i, ShowChars(chars)) && end == i + |ShowChars(chars)|
    requires (forall k :: 0 <= k < |chars| ==> IsByte(chars[k])) && (forall k :: 0 <= k < |acc| ==> acc[k] != 0)
    requires RunStops(s, end) && !IsMult(CharAt(s, end)) && acc + chars != []
    ensures ParseLiteral(s, i, acc) == Ok(acc + chars, end, 0)
    decreases |chars|
  {
    if chars == [] {
      assert acc + chars == acc;
    } else {
      var j := i + |ShowChar(chars[0])|;
      HasSplit(s, i, ShowChar(chars[0]), ShowChars(chars[1..]));
      CharReads(s, i, chars[0]);
      NoRepeatAfter(s, j, chars[1..], end);
      NonZeroSnoc(acc, chars[0]);
      LiteralStep(s, i, acc, chars[0], j);
      LiteralReads(s, j, acc + [chars[0]], chars[1..], end);
      FirstMoves(acc, chars);
    }
  }

  /** A single character that a repeat follows. */
  lemma RepeatedReads(s: seq<int>, i: nat, c: int)
    requires IsCString(s) && IsByte(c) && Has(s, i, ShowChar(c)) && IsMult(CharAt(s, i + |ShowChar(c)|))
    ensures ParseLiteral(s, i, []) == Ok([c], i + |ShowChar(c)|, 0)
  {
    CharReads(s, i, c);
  }

  // ----- Classes -----

  lemma ClassCharReads(s: seq<int>, i: nat, c: int)
    requires IsCString(s) && IsByte(c) && Has(s, i, ShowClassChar(c))
    ensures ParseClassChar(s, i) == Ok(c, i + |ShowClassChar(c)|, 0)
    ensures s[i] != RBRACKET && s[i] != MINUS && s[i] != CARET && s[i] != 0
  {
    HasAt(s, i, ShowClassChar(c), 0);
    if IsClassMeta(c) {
      HasAt(s, i, [BACKSLASH, c], 1);
    }
  }

  lemma RangeReads(s: seq<int>, i: nat, r: Range)
    requires IsCString(s) && IsByte(r.lo) && IsByte(r.hi) && Has(s, i, ShowRange(r))
    ensures ParseClassItem(s, i) == Ok([r], i + |ShowRange(r)|, 0)
    ensures s[i] != RBRACKET && s[i] != MINUS && s[i] != CARET
  {
    var a, b := ShowClassChar(r.lo), ShowClassChar(r.hi);
    HasSplit(s, i, a, [MINUS] + b);
    HasSplit(s, i + |a|, [MINUS], b);
    HasAt(s, i + |a|, [MINUS], 0);
    ClassCharReads(s, i, r.lo);
    ClassCharReads(s, i + |a| + 1, r.hi);
  }

  predicate ByteRanges(rs: seq<Range>) {
    forall k :: 0 <= k < |rs| ==> IsByte(rs[k].lo) && IsByte(rs[k].hi)
  }

  lemma ItemStep(s: seq<int>, i: nat, acc: seq<Range>, r: Range, j: nat)
    requires IsCString(s) && i < |s| && s[i] != RBRACKET && WellFormedRanges(acc)
    requires ParseClassItem(s, i) == Ok([r], j, 0)
    ensures WellFormedRanges(acc + [r]) && j <= |s|
    ensures ParseClassItems(s, i, acc) == ParseClassItems(s, j, acc + [r])
  {
  }

  lemma NextRange(s: seq<int>, i: nat, acc: seq<Range>, rs: seq<Range>, j: nat)
    requires IsCString(s) && rs != [] && ByteRanges(rs) && Has(s, i, ShowRanges(rs)) && WellFormedRanges(acc)
    requires j == i + |ShowRange(rs[0])|
    ensures Has(s, j, ShowRanges(rs[1..])) && j <= |s| && ByteRanges(rs[1..]) && WellFormedRanges(acc + [rs[0]])
    ensures ParseClassItems(s, i, acc) == ParseClassItems(s, j, acc + [rs[0]])
    ensures CharAt(s, i) != RBRACKET && CharAt(s, i) != MINUS && CharAt(s, i) != CARET
  {
    HasSplit(s, i, ShowRange(rs[0]), ShowRanges(rs[1..]));
    RangeReads(s, i, rs[0]);
    ItemStep(s, i, acc, rs[0], j);
  }

  lemma {:induction false} RangesRead(s: seq<int>, i: nat, acc: seq<Range>, rs: seq<Range>, end: nat)
    requires IsCString(s) && Has(s, i, ShowRanges(rs)) && end == i + |ShowRanges(rs)| && WellFormedRanges(acc)
    requires ByteRanges(rs) && CharAt(s, end) == RBRACKET
    ensures ParseClassItems(s, i, acc) == Ok(acc + rs, end + 1, 0)
    decreases |rs|
  {
    if rs == [] {
      assert acc + rs == acc;
    } else {
      var j := i + |ShowRange(rs[0])|;
      NextRange(s, i, acc, rs, j);
      RangesRead(s, j, acc + [rs[0]], rs[1..], end);
      FirstMoves(acc, rs);
    }
  }

  lemma FirstMoves<T>(acc: seq<T>, rs: seq<T>)
    requires rs != []
    ensures (acc + [rs[0]]) + rs[1..] == acc + rs
  {
  }

  lemma ClassParts(s: seq<int>, i: nat, sign: seq<int>, body: seq<int>, at: nat, end: nat)
    requires Has(s, i, [LBRACKET] + sign + body + [RBRACKET]) && at == i + 1 + |sign| && end == at + |body|
    ensures CharAt(s, i) == LBRACKET && Has(s, i + 1, sign) && Has(s, at, body) && end < |s| && s[end] == RBRACKET
  {
    HasSplit(s, i, [LBRACKET] + sign + body, [RBRACKET]);
    HasSplit(s, i, [LBRACKET] + sign, body);
    HasSplit(s, i, [LBRACKET], sign);
    HasAt(s, i, [LBRACKET], 0);
    HasAt(s, end, [RBRACKET], 0);
  }

  /** The ranges of a class, past its sign. */
  lemma RangesClose(s: seq<int>, at: nat, rs: seq<Range>, end: nat)
    requires IsCString(s) && rs != [] && ByteRanges(rs) && Has(s, at, ShowRanges(rs))
    requires end == at + |ShowRanges(rs)| && CharAt(s, end) == RBRACKET
    ensures ParseClassItems(s, at, []) == Ok(rs, end + 1, 0)
    ensures CharAt(s, at) != RBRACKET && CharAt(s, at) != MINUS && CharAt(s, at) != CARET
  {
    NextRange(s, at, [], rs, at + |ShowRange(rs[0])|);
    assert WellFormedRanges([]);
    RangesRead(s, at, [], rs, end);
    NoneBefore(rs);
  }

  lemma NoneBefore<T>(rs: seq<T>)
    ensures [] + rs == rs
  {
  }

  lemma SignRead(s: seq<int>, i: nat, negated: bool, sign: seq<int>, at: nat)
    requires Has(s, i, sign) && sign == (if negated then [CARET] else []) && at == i + |sign|
    requires CharAt(s, at) != CARET
    ensures if negated then CharAt(s, i) == CARET && at == i + 1 else CharAt(s, i) != CARET && at == i
  {
    if negated {
      HasAt(s, i, [CARET], 0);
    }
  }

  lemma BodyReads(s: seq<int>, i: nat, negated: bool, rs: seq<Range>, at: nat, end: nat)
    requires IsCString(s) && at <= |s| && end >= 1
    requires if negated then CharAt(s, i) == CARET && at == i + 1 else CharAt(s, i) != CARET && at == i
    requires CharAt(s, at) != RBRACKET && CharAt(s, at) != MINUS && ParseClassItems(s, at, []) == Ok(rs, end, 0)
    ensures ParseClass(s, i) == Ok(Class(negated, rs), end, 0)
  {
  }

  lemma SignedBodyReads(s: seq<int>, i: nat, negated: bool, rs: seq<Range>, sign: seq<int>, body: seq<int>, at: nat, end: nat)
    requires IsCString(s) && rs != [] && ByteRanges(rs) && sign == (if negated then [CARET] else []) && i <= |s|
    requires Has(s, i, sign) && Has(s, at, body) && at == i + |sign| && end == at + |body| && body == ShowRanges(rs)
    requires end < |s| && s[end] == RBRACKET
    ensures ParseClass(s, i) == Ok(Class(negated, rs), end + 1, 0)
  {
    RangesClose(s, at, rs, end);
    SignRead(s, i, negated, sign, at);
    BodyReads(s, i, negated, rs, at, end + 1);
  }

  lemma SignedClassReads(s: seq<int>, i: nat, negated: bool, rs: seq<Range>, sign: seq<int>, body: seq<int>, at: nat, end: nat)
    requires IsCString(s) && rs != [] && ByteRanges(rs) && sign == (if negated then [CARET] else [])
    requires Has(s, i, [LBRACKET] + sign + body + [RBRACKET]) && body == ShowRanges(rs)
    requires at == i + 1 + |sign| && end == at + |body|
    ensures CharAt(s, i) == LBRACKET && ParseClass(s, i + 1) == Ok(Class(negated, rs), end + 1, 0)
  {
    ClassParts(s, i, sign, body, at, end);
    SignedBodyReads(s, i + 1, negated, rs, sign, body, at, end);
  }

  lemma ClassReads(w: Way, s: seq<int>, i: nat, negated: bool, rs: seq<Range>, end: nat)
    requires IsCString(s) && rs != [] && ByteRanges(rs) && Has(s, i, ShowAtom(w, Class(negated, rs)))
    requires end == i + |ShowAtom(w, Class(negated, rs))|
    ensures CharAt(s, i) == LBRACKET && ParseClass(s, i + 1) == Ok(Class(negated, rs), end, 0)
  {
    var sign: seq<int> := if negated then [CARET] else [];
    SignedClassReads(s, i, negated, rs, sign, ShowRanges(rs), i + 1 + |sign|, end - 1);
  }

  // ----- Counts -----

  lemma DecimalReads(s: seq<int>, i: nat, n: int)
    requires 0 <= n < 100 && Has(s, i, Decimal(n)) && !IsDigit(CharAt(s, i + |Decimal(n)|))
    ensures StrToULong(s, i) == (n, i + |Decimal(n)|)
  {
    HasAt(s, i, Decimal(n), 0);
    if n >= 10 {
      HasAt(s, i, Decimal(n), 1);
      assert SkipDigits(s, i + 2) == i + 2;
      assert SkipDigits(s, i + 1) == i + 2;
      assert DecimalValue(s, i, i + 1) == n / 10;
    } else {
      assert SkipDigits(s, i + 1) == i + 1;
      assert SkipDigits(s, i) == i + 1;
      assert DecimalValue(s, i, i) == 0;
    }
  }

  lemma BracesParts(s: seq<int>, i: nat, a: seq<int>, b: seq<int>, at: nat, end: nat)
    requires Has(s, i, [LBRACE] + a + [COMMA] + b + [RBRACE]) && at == i + 1 + |a| && end == at + 1 + |b|
    ensures CharAt(s, i) == LBRACE && Has(s, i + 1, a) && CharAt(s, at) == COMMA && Has(s, at + 1, b)
    ensures end < |s| && s[end] == RBRACE
  {
    HasSplit(s, i, [LBRACE] + a + [COMMA] + b, [RBRACE]);
    HasSplit(s, i, [LBRACE] + a + [COMMA], b);
    HasSplit(s, i, [LBRACE] + a, [COMMA]);
    HasSplit(s, i, [LBRACE], a);
    HasAt(s, i, [LBRACE], 0);
    HasAt(s, at, [COMMA], 0);
    HasAt(s, end, [RBRACE], 0);
  }

  /** The upper bound in braces; none stands for any number. */
  function ShowMax(max: int): (t: seq<int>) {
    if max == MAX_REP_COUNT then [] else Decimal(max)
  }

  lemma MaxReads(s: seq<int>, i: nat, max: int, end: nat)
    requires (0 <= max < 100 || max == MAX_REP_COUNT) && Has(s, i, ShowMax(max)) && end == i + |ShowMax(max)|
    requires CharAt(s, end) == RBRACE
    ensures StrToULong(s, i) == if max == MAX_REP_COUNT then (0, i) else (max, end)
    ensures max != MAX_REP_COUNT ==> end > i
  {
    if max != MAX_REP_COUNT {
      DecimalReads(s, i, max);
    }
  }

  /** Bounds in braces. */
  lemma BracesRead(s: seq<int>, i: nat, min: int, max: int, end: nat)
    requires 0 <= min <= max && min < 100 && (max < 100 || max == MAX_REP_COUNT)
    requires Has(s, i, ShowBraces(min, max))
    requires end == i + 2 + |Decimal(min)| + |ShowMax(max)|
    ensures CharAt(s, i) == LBRACE && ParseBraces(s, i) == Ok((min, max), end, 0)
  {
    var at := i + 1 + |Decimal(min)|;
    BracesParts(s, i, Decimal(min), ShowMax(max), at, end);
    DecimalReads(s, i + 1, min);
    MaxReads(s, at + 1, max, end);
  }

  lemma ExactReads(s: seq<int>, i: nat, n: int, end: nat)
    requires 0 <= n < 100 && Has(s, i, [LBRACE] + Decimal(n) + [RBRACE]) && end == i + 1 + |Decimal(n)|
    ensures CharAt(s, i) == LBRACE && ParseBraces(s, i) == Ok((n, n), end, 0)
  {
    HasSplit(s, i, [LBRACE] + Decimal(n), [RBRACE]);
    HasSplit(s, i, [LBRACE], Decimal(n));
    HasAt(s, i, [LBRACE], 0);
    HasAt(s, end, [RBRACE], 0);
    DecimalReads(s, i + 1, n);
  }

  lemma BoundsRead(w: Way, s: seq<int>, i: nat, min: int, max: int, width: bool, end: nat)
    requires 0 <= min <= max && min < 100 && (max < 100 || max == MAX_REP_COUNT) && (width || (min == 0 && max == 1))
    requires Has(s, i, ShowBounds(w, min, max, width)) && end + 1 == i + |ShowBounds(w, min, max, width)|
    ensures IsMult(CharAt(s, i)) && ParseBounds(s, i) == Ok((min, max), end, 0)
    ensures width || CharAt(s, i) == QUESTION
  {
    if min == 0 && max == 1 && (w.Short? || !width) {
      HasAt(s, i, [QUESTION], 0);
    } else if w.Short? && min == 0 && max == MAX_REP_COUNT {
      HasAt(s, i, [STAR], 0);
    } else if w.Short? && min == 1 && max == MAX_REP_COUNT {
      HasAt(s, i, [PLUS], 0);
    } else if w.Short? && min == max {
      ExactReads(s, i, min, end);
    } else {
      BracesRead(s, i, min, max, end);
    }
  }

  lemma CountReads(w: Way, s: seq<int>, i: nat, c: Count, width: bool, end: nat)
    requires CanonicalCount(c) && Has(s, i, ShowCount(w, c, width)) && end == i + |ShowCount(w, c, width)|
    requires !IsMult(CharAt(s, end)) && (c.Repeat? ==> width || (c.min == 0 && c.max == 1))
    ensures ParseCount(s, i, width) == Ok(c, end, 0)
    ensures c.Repeat? ==> IsMult(CharAt(s, i))
  {
    if c.Repeat? {
      RepeatReads(w, s, i, c.min, c.max, c.greedy, width, ShowBounds(w, c.min, c.max, width),
                  if c.greedy then [] else [QUESTION], end);
    }
  }

  lemma RepeatReads(w: Way, s: seq<int>, i: nat, min: int, max: int, greedy: bool, width: bool, b: seq<int>, lazy: seq<int>, end: nat)
    requires 0 <= min <= max && min < 100 && (max < 100 || max == MAX_REP_COUNT) && (width || (min == 0 && max == 1))
    requires b == ShowBounds(w, min, max, width) && lazy == (if greedy then [] else [QUESTION])
    requires Has(s, i, b + lazy) && end == i + |b| + |lazy| && !IsMult(CharAt(s, end))
    ensures IsMult(CharAt(s, i)) && ParseCount(s, i, width) == Ok(Repeat(min, max, greedy), end, 0)
  {
    var j := i + |b| - 1;
    HasSplit(s, i, b, lazy);
    BoundsRead(w, s, i, min, max, width, j);
    GreedyReads(s, j + 1, greedy, lazy, end);
    CountIs(s, i, width, min, max, j, greedy, end);
  }

  /** A repeat of a repeat is an error. */
  lemma RepeatOfRepeatFails(w: Way, s: seq<int>, i: nat, c: Count, end: nat)
    requires CanonicalCount(c) && c.Repeat? && Has(s, i, ShowCount(w, c, true)) && end == i + |ShowCount(w, c, true)|
    requires IsMult(CharAt(s, end)) && (c.greedy ==> CharAt(s, end) != QUESTION)
    ensures ParseCount(s, i, true) == Err(NestedCount)
  {
    var b, lazy: seq<int> := ShowBounds(w, c.min, c.max, true), if c.greedy then [] else [QUESTION];
    var j := i + |b| - 1;
    HasSplit(s, i, b, lazy);
    BoundsRead(w, s, i, c.min, c.max, true, j);
    if !c.greedy {
      HasAt(s, j + 1, lazy, 0);
    }
    CountIs(s, i, true, c.min, c.max, j, c.greedy, end);
  }

  lemma GreedyReads(s: seq<int>, i: nat, greedy: bool, lazy: seq<int>, end: nat)
    requires lazy == (if greedy then [] else [QUESTION]) && Has(s, i, lazy) && end == i + |lazy| && !IsMult(CharAt(s, end))
    ensures greedy == (CharAt(s, i) != QUESTION) && end == if greedy then i else i + 1
  {
    if !greedy {
      HasAt(s, i, [QUESTION], 0);
    }
  }

  // ----- Leaves -----

  /** What follows a leaf: a literal must end there. */
  ghost predicate EndsLeaf(s: seq<int>, a: Atom, end: nat) {
    a.Literal? ==> (RunStops(s, end) && !IsMult(CharAt(s, end))) || (|a.chars| == 1 && IsMult(CharAt(s, end)))
  }

  lemma LiteralLeafReads(s: seq<int>, i: nat, chars: seq<int>, end: nat)
    requires IsCString(s) && CanonicalAtom(Literal(chars)) && Has(s, i, ShowChars(chars)) && end == i + |ShowChars(chars)|
    requires EndsLeaf(s, Literal(chars), end)
    ensures StartsLiteral(s, i) && !IsMult(CharAt(s, i)) && ParseLiteral(s, i, []) == Ok(chars, end, 0)
    ensures CharAt(s, i) == BACKSLASH ==> i + 1 < |s|
  {
    HasSplit(s, i, ShowChar(chars[0]), ShowChars(chars[1..]));
    CharReads(s, i, chars[0]);
    if CharAt(s, i) == BACKSLASH {
      HasAt(s, i, ShowChar(chars[0]), 0);
    }
    if IsMult(CharAt(s, end)) {
      assert chars == [chars[0]];
      RepeatedReads(s, i, chars[0]);
    } else {
      assert [] + chars == chars;
      LiteralReads(s, i, [], chars, end);
    }
  }

  lemma LeafReads(w: Way, s: seq<int>, i: nat, a: Atom, end: nat)
    requires IsCString(s) && CanonicalAtom(a) && !a.Group? && Has(s, i, ShowAtom(w, a)) && end == i + |ShowAtom(w, a)|
    requires EndsLeaf(s, a, end)
    ensures CharAt(s, i) != LPAREN && CharAt(s, i) != RPAREN && CharAt(s, i) != BAR && CharAt(s, i) != 0
    ensures !IsMult(CharAt(s, i)) && ParseLeaf(s, i) == Ok(a, end, 0)
  {
    match a {
      case Class(negated, rs) => ClassReads(w, s, i, negated, rs, end);
      case Literal(chars) => LiteralLeafReads(s, i, chars, end);
      case WordStart =>
        HasAt(s, i, [BACKSLASH, 60], 0);
        HasAt(s, i, [BACKSLASH, 60], 1);
      case WordEnd =>
        HasAt(s, i, [BACKSLASH, 62], 0);
        HasAt(s, i, [BACKSLASH, 62], 1);
      case Bol => HasAt(s, i, [CARET], 0);
      case Eol => HasAt(s, i, [DOLLAR], 0);
      case Any => HasAt(s, i, [DOT], 0);
    }
  }

  // ----- Pieces, alternatives and groups -----

  /** What stands at the start of a piece. */
  ghost predicate StartsPiece(s: seq<int>, i: nat) {
    var c := CharAt(s, i);
    c != 0 && c != RPAREN && c != BAR && !IsMult(c)
  }

  lemma GroupParts(s: seq<int>, i: nat, sign: seq<int>, body: seq<int>, at: nat, end: nat)
    requires Has(s, i, [LPAREN] + sign + body + [RPAREN]) && at == i + 1 + |sign| && end == at + |body|
    ensures CharAt(s, i) == LPAREN && Has(s, i + 1, sign) && Has(s, at, body) && end < |s| && s[end] == RPAREN
  {
    HasSplit(s, i, [LPAREN] + sign + body, [RPAREN]);
    HasSplit(s, i, [LPAREN] + sign, body);
    HasSplit(s, i, [LPAREN], sign);
    HasAt(s, i, [LPAREN], 0);
    HasAt(s, end, [RPAREN], 0);
  }

  /** Where an atom of a piece ends, and what is there. */
  lemma PieceParts(w: Way, s: seq<int>, i: nat, p: Piece, mid: nat, end: nat)
    requires CanonicalPiece(p) && Has(s, i, ShowPiece(w, p)) && mid == i + |ShowAtom(w, p.atom)| && end == i + |ShowPiece(w, p)|
    requires !IsMult(CharAt(s, end)) && (Lone(p) ==> RunStops(s, end))
    ensures Has(s, i, ShowAtom(w, p.atom)) && Has(s, mid, ShowCount(w, p.count, AtomHasWidth(p.atom))) && end == mid + |ShowCount(w, p.count, AtomHasWidth(p.atom))|
    ensures EndsLeaf(s, p.atom, mid)
  {
    HasSplit(s, i, ShowAtom(w, p.atom), ShowCount(w, p.count, AtomHasWidth(p.atom)));
    if p.count.Repeat? {
      HasAt(s, mid, ShowCount(w, p.count, AtomHasWidth(p.atom)), 0);
    }
  }

  lemma PieceStarts(w: Way, s: seq<int>, i: nat, p: Piece)
    requires IsCString(s) && CanonicalPiece(p) && Has(s, i, ShowPiece(w, p))
    ensures StartsPiece(s, i) && i < |s|
    ensures !Lone(p) ==> RunStops(s, i)
  {
    HasSplit(s, i, ShowAtom(w, p.atom), ShowCount(w, p.count, AtomHasWidth(p.atom)));
    AtomStarts(w, s, i, p.atom);
    if p.atom.Literal? && !Lone(p) {
      var c := p.atom.chars[0];
      assert p.atom.chars == [c] && ShowChars([c]) == ShowChar(c) + ShowChars([]);
      assert ShowChar(c) + [] == ShowChar(c);
      CharReads(s, i, c);
      HasAt(s, i + |ShowChar(c)|, ShowCount(w, p.count, AtomHasWidth(p.atom)), 0);
    }
  }

  lemma AtomStarts(w: Way, s: seq<int>, i: nat, a: Atom)
    requires IsCString(s) && CanonicalAtom(a) && Has(s, i, ShowAtom(w, a))
    ensures StartsPiece(s, i) && i < |s|
    ensures !a.Literal? ==> !StartsLiteral(s, i)
  {
    match a {
      case Class(negated, rs) =>
        ClassParts(s, i, if negated then [CARET] else [], ShowRanges(rs), i + 1 + (if negated then 1 else 0), i + |ShowAtom(w, a)| - 1);
      case Literal(chars) =>
        HasSplit(s, i, ShowChar(chars[0]), ShowChars(chars[1..]));
        CharReads(s, i, chars[0]);
        HasAt(s, i, ShowChar(chars[0]), 0);
      case Group(no, alts) =>
        var sign := if no == -1 then [QUESTION, COLON] else [];
        GroupParts(s, i, sign, ShowAlts(w, alts), i + 1 + |sign|, i + |ShowAtom(w, a)| - 1);
      case WordStart =>
        HasAt(s, i, [BACKSLASH, 60], 0);
        HasAt(s, i, [BACKSLASH, 60], 1);
      case WordEnd =>
        HasAt(s, i, [BACKSLASH, 62], 0);
        HasAt(s, i, [BACKSLASH, 62], 1);
      case Bol => HasAt(s, i, [CARET], 0);
      case Eol => HasAt(s, i, [DOLLAR], 0);
      case Any => HasAt(s, i, [DOT], 0);
    }
  }

  lemma PieceReads(w: Way, s: seq<int>, i: nat, n: nat, p: Piece, end: nat)
    requires IsCString(s) && CanonicalPiece(p) && NumberedPiece(p, n) && Has(s, i, ShowPiece(w, p)) && end == i + |ShowPiece(w, p)|
    requires !IsMult(CharAt(s, end)) && (Lone(p) ==> RunStops(s, end))
    ensures ParsePiece(s, i, n) == Ok(p, end, n + CountPiece(p))
    decreases p, 0
  {
    var mid := i + |ShowAtom(w, p.atom)|;
    PieceParts(w, s, i, p, mid, end);
    CountReads(w, s, mid, p.count, AtomHasWidth(p.atom), end);
    AtomReads(w, s, i, n, p.atom, mid);
  }

  lemma AtomReads(w: Way, s: seq<int>, i: nat, n: nat, a: Atom, end: nat)
    requires IsCString(s) && CanonicalAtom(a) && NumberedAtom(a, n) && Has(s, i, ShowAtom(w, a)) && end == i + |ShowAtom(w, a)|
    requires EndsLeaf(s, a, end)
    ensures ParseAtom(s, i, n) == Ok(a, end, n + CountAtom(a))
    decreases a, 1
  {
    if a.Group? {
      GroupReads(w, s, i, n, a.no, a.alts, end);
    } else {
      LeafReads(w, s, i, a, end);
    }
  }

  lemma GroupReads(w: Way, s: seq<int>, i: nat, n: nat, no: int, alts: seq<Branch>, end: nat)
    requires IsCString(s) && CanonicalAtom(Group(no, alts)) && NumberedAtom(Group(no, alts), n)
    requires Has(s, i, ShowAtom(w, Group(no, alts))) && end == i + |ShowAtom(w, Group(no, alts))|
    ensures CharAt(s, i) == LPAREN && ParseGroup(s, i + 1, n) == Ok(Group(no, alts), end, n + CountAtom(Group(no, alts)))
    decreases alts, 4
  {
    var sign: seq<int> := if no == -1 then [QUESTION, COLON] else [];
    var at := i + 1 + |sign|;
    GroupParts(s, i, sign, ShowAlts(w, alts), at, end - 1);
    if no == -1 {
      HasAt(s, i + 1, [QUESTION, COLON], 0);
      HasAt(s, i + 1, [QUESTION, COLON], 1);
      AltsRead(w, s, at, n, [], alts, end - 1);
    } else {
      AltsStart(w, s, at, alts, end - 1);
      AltsRead(w, s, at, n + 1, [], alts, end - 1);
    }
    assert [] + alts == alts;
  }

  /** A choice starts with a piece, or with what ends its first alternative. */
  lemma AltsStart(w: Way, s: seq<int>, i: nat, alts: seq<Branch>, end: nat)
    requires IsCString(s) && alts != [] && CanonicalAlts(alts) && Has(s, i, ShowAlts(w, alts)) && end == i + |ShowAlts(w, alts)|
    requires CharAt(s, end) == RPAREN || CharAt(s, end) == 0
    ensures CharAt(s, i) != QUESTION
  {
    AltsParts(w, s, i, alts, i + |ShowPieces(w, alts[0].pieces)|, end);
    var ps := alts[0].pieces;
    if ps != [] {
      HasSplit(s, i, ShowPiece(w, ps[0]), ShowPieces(w, ps[1..]));
      PieceStarts(w, s, i, ps[0]);
    }
  }

  /** The first alternative, and what stands after it. */
  lemma AltsParts(w: Way, s: seq<int>, i: nat, alts: seq<Branch>, mid: nat, end: nat)
    requires alts != [] && Has(s, i, ShowAlts(w, alts)) && mid == i + |ShowPieces(w, alts[0].pieces)| && end == i + |ShowAlts(w, alts)|
    ensures Has(s, i, ShowPieces(w, alts[0].pieces))
    ensures |alts| == 1 ==> mid == end
    ensures |alts| > 1 ==>
              && CharAt(s, mid) == BAR && Has(s, mid + 1, ShowAlts(w, alts[1..])) && mid + 1 <= |s|
              && end == mid + 1 + |ShowAlts(w, alts[1..])|
  {
    if |alts| > 1 {
      ChoiceParts(s, i, ShowPieces(w, alts[0].pieces), ShowAlts(w, alts[1..]), mid);
    }
  }

  lemma ChoiceParts(s: seq<int>, i: nat, a: seq<int>, b: seq<int>, mid: nat)
    requires Has(s, i, a + ([BAR] + b)) && mid == i + |a|
    ensures Has(s, i, a) && CharAt(s, mid) == BAR && Has(s, mid + 1, b) && mid + 1 <= |s|
  {
    HasSplit(s, i, a, [BAR] + b);
    HasSplit(s, mid, [BAR], b);
    HasAt(s, mid, [BAR], 0);
  }

  /** One step through a choice. */
  lemma AltsStep(s: seq<int>, i: nat, n: nat, acc: seq<Branch>, b: Branch, j: nat, m: nat)
    requires IsCString(s) && i <= |s| && (acc == [] || WellFormedAlts(acc)) && ParsePieces(s, i, n, []) == Ok(b.pieces, j, m)
    ensures j <= |s| && WellFormedAlts(acc + [b])
    ensures CharAt(s, j) == BAR ==> j < |s| && ParseAlts(s, i, n, acc) == ParseAlts(s, j + 1, m, acc + [b])
    ensures CharAt(s, j) != BAR ==> ParseAlts(s, i, n, acc) == Ok(acc + [b], j, m)
  {
    assert b == Branch(b.pieces);
  }

  /** The first alternative of a choice, and what is left to read. */
  lemma FirstAltReads(w: Way, s: seq<int>, i: nat, n: nat, acc: seq<Branch>, alts: seq<Branch>, mid: nat, m: nat, end: nat)
    requires IsCString(s) && alts != [] && CanonicalAlts(alts) && NumberedAlts(alts, n)
    requires Has(s, i, ShowAlts(w, alts)) && end == i + |ShowAlts(w, alts)| && (acc == [] || WellFormedAlts(acc))
    requires CharAt(s, end) == 0 || CharAt(s, end) == RPAREN
    requires mid == i + |ShowPieces(w, alts[0].pieces)| && m == n + CountPieces(alts[0].pieces)
    ensures WellFormedAlts(acc + [alts[0]])
    ensures |alts| == 1 ==> ParseAlts(s, i, n, acc) == Ok(acc + [alts[0]], end, m)
    ensures |alts| > 1 ==>
              && mid < |s| && Has(s, mid + 1, ShowAlts(w, alts[1..])) && end == mid + 1 + |ShowAlts(w, alts[1..])|
              && ParseAlts(s, i, n, acc) == ParseAlts(s, mid + 1, m, acc + [alts[0]])
    decreases alts, 2
  {
    AltsParts(w, s, i, alts, mid, end);
    PiecesRead(w, s, i, n, [], alts[0].pieces, mid);
    NoneBefore(alts[0].pieces);
    AltsStep(s, i, n, acc, alts[0], mid, m);
  }

  lemma RestIsCanonical(alts: seq<Branch>, n: nat, m: nat)
    requires alts != [] && CanonicalAlts(alts) && NumberedAlts(alts, n) && m == n + CountPieces(alts[0].pieces)
    ensures CanonicalAlts(alts[1..]) && NumberedAlts(alts[1..], m) && n + CountAlts(alts) == m + CountAlts(alts[1..])
  {
  }

  lemma {:induction false} AltsRead(w: Way, s: seq<int>, i: nat, n: nat, acc: seq<Branch>, alts: seq<Branch>, end: nat)
    requires IsCString(s) && alts != [] && CanonicalAlts(alts) && NumberedAlts(alts, n)
    requires Has(s, i, ShowAlts(w, alts)) && end == i + |ShowAlts(w, alts)| && (acc == [] || WellFormedAlts(acc))
    requires CharAt(s, end) == 0 || CharAt(s, end) == RPAREN
    ensures ParseAlts(s, i, n, acc) == Ok(acc + alts, end, n + CountAlts(alts))
    decreases alts, 3
  {
    var mid, m := i + |ShowPieces(w, alts[0].pieces)|, n + CountPieces(alts[0].pieces);
    FirstAltReads(w, s, i, n, acc, alts, mid, m, end);
    RestIsCanonical(alts, n, m);
    if |alts| > 1 {
      AltsRead(w, s, mid + 1, m, acc + [alts[0]], alts[1..], end);
      FirstMoves(acc, alts);
    } else {
      OneAlone(alts);
      assert CountAlts(alts[1..]) == 0;
    }
  }

  lemma OneAlone<T>(xs: seq<T>)
    requires |xs| == 1
    ensures xs == [xs[0]]
  {
  }

  /** What a piece needs to end: the next piece or what ends the alternative. */
  lemma PieceEnds(w: Way, s: seq<int>, ps: seq<Piece>, j: nat, end: nat)
    requires IsCString(s) && ps != [] && CanonicalPieces(ps) && Has(s, j, ShowPieces(w, ps[1..])) && end == j + |ShowPieces(w, ps[1..])|
    requires CharAt(s, end) == 0 || CharAt(s, end) == RPAREN || CharAt(s, end) == BAR
    ensures !IsMult(CharAt(s, j)) && (Lone(ps[0]) ==> RunStops(s, j))
  {
    if |ps| > 1 {
      HasSplit(s, j, ShowPiece(w, ps[1]), ShowPieces(w, ps[1..][1..]));
      PieceStarts(w, s, j, ps[1]);
    }
  }

  lemma PiecesStep(s: seq<int>, i: nat, n: nat, acc: seq<Piece>, p: Piece, j: nat, m: nat)
    requires IsCString(s) && StartsPiece(s, i) && WellFormedPieces(acc) && i <= |s| && ParsePiece(s, i, n) == Ok(p, j, m)
    ensures j <= |s| && WellFormedPieces(acc + [p]) && ParsePieces(s, i, n, acc) == ParsePieces(s, j, m, acc + [p])
  {
  }

  /** The first piece of an alternative, and what is left to read. */
  lemma FirstPieceReads(w: Way, s: seq<int>, i: nat, n: nat, acc: seq<Piece>, ps: seq<Piece>, j: nat, m: nat, end: nat)
    requires IsCString(s) && ps != [] && CanonicalPieces(ps) && NumberedPieces(ps, n) && WellFormedPieces(acc)
    requires Has(s, i, ShowPieces(w, ps)) && end == i + |ShowPieces(w, ps)|
    requires CharAt(s, end) == 0 || CharAt(s, end) == RPAREN || CharAt(s, end) == BAR
    requires j == i + |ShowPiece(w, ps[0])| && m == n + CountPiece(ps[0])
    ensures CanonicalPieces(ps[1..]) && NumberedPieces(ps[1..], m) && WellFormedPieces(acc + [ps[0]])
    ensures Has(s, j, ShowPieces(w, ps[1..])) && j <= |s| && end == j + |ShowPieces(w, ps[1..])|
    ensures CountPieces(ps) == CountPiece(ps[0]) + CountPieces(ps[1..])
    ensures ParsePieces(s, i, n, acc) == ParsePieces(s, j, m, acc + [ps[0]])
    decreases ps, 1
  {
    HasSplit(s, i, ShowPiece(w, ps[0]), ShowPieces(w, ps[1..]));
    PieceStarts(w, s, i, ps[0]);
    PieceEnds(w, s, ps, j, end);
    PieceReads(w, s, i, n, ps[0], j);
    PiecesStep(s, i, n, acc, ps[0], j, m);
  }

  lemma {:induction false} PiecesRead(w: Way, s: seq<int>, i: nat, n: nat, acc: seq<Piece>, ps: seq<Piece>, end: nat)
    requires IsCString(s) && CanonicalPieces(ps) && NumberedPieces(ps, n) && WellFormedPieces(acc)
    requires Has(s, i, ShowPieces(w, ps)) && end == i + |ShowPieces(w, ps)|
    requires CharAt(s, end) == 0 || CharAt(s, end) == RPAREN || CharAt(s, end) == BAR
    ensures ParsePieces(s, i, n, acc) == Ok(acc + ps, end, n + CountPieces(ps))
    decreases ps, 2
  {
    if ps == [] {
      assert acc + ps == acc;
    } else {
      var j, m := i + |ShowPiece(w, ps[0])|, n + CountPiece(ps[0]);
      FirstPieceReads(w, s, i, n, acc, ps, j, m, end);
      PiecesRead(w, s, j, m, acc + [ps[0]], ps[1..], end);
      FirstMoves(acc, ps);
    }
  }

  // ----- The texts are C strings -----

  lemma TextJoin(a: seq<int>, b: seq<int>)
    requires IsCString(a) && IsCString(b)
    ensures IsCString(a + b)
  {
  }

  lemma {:induction false} CharsAreText(chars: seq<int>)
    requires forall k :: 0 <= k < |chars| ==> IsByte(chars[k])
    ensures IsCString(ShowChars(chars))
    decreases |chars|
  {
    if chars != [] {
      CharsAreText(chars[1..]);
      TextJoin(ShowChar(chars[0]), ShowChars(chars[1..]));
    }
  }

  lemma {:induction false} RangesAreText(rs: seq<Range>)
    requires ByteRanges(rs)
    ensures IsCString(ShowRanges(rs))
    decreases |rs|
  {
    if rs != [] {
      RangesAreText(rs[1..]);
      TextJoin([MINUS], ShowClassChar(rs[0].hi));
      TextJoin(ShowClassChar(rs[0].lo), [MINUS] + ShowClassChar(rs[0].hi));
      TextJoin(ShowRange(rs[0]), ShowRanges(rs[1..]));
    }
  }

  lemma BracesAreText(min: int, max: int)
    requires 0 <= min < 100 && (0 <= max < 100 || max == MAX_REP_COUNT)
    ensures IsCString(ShowBraces(min, max)) && IsCString([LBRACE] + Decimal(min) + [RBRACE])
  {
    TextJoin([LBRACE], Decimal(min));
    TextJoin([LBRACE] + Decimal(min), [RBRACE]);
    TextJoin([LBRACE] + Decimal(min), [COMMA]);
    TextJoin([LBRACE] + Decimal(min) + [COMMA], ShowMax(max));
    TextJoin([LBRACE] + Decimal(min) + [COMMA] + ShowMax(max), [RBRACE]);
  }

  lemma CountIsText(w: Way, c: Count, width: bool)
    requires CanonicalCount(c)
    ensures IsCString(ShowCount(w, c, width))
  {
    if c.Repeat? {
      BracesAreText(c.min, c.max);
      TextJoin(ShowBounds(w, c.min, c.max, width), if c.greedy then [] else [QUESTION]);
    }
  }

  /** A text between brackets, with a sign after the first. */
  lemma WrappedText(open: int, sign: seq<int>, body: seq<int>, close: int)
    requires IsByte(open) && IsCString(sign) && IsCString(body) && IsByte(close)
    ensures IsCString([open] + sign + body + [close])
  {
    TextJoin([open], sign);
    TextJoin([open] + sign, body);
    TextJoin([open] + sign + body, [close]);
  }

  lemma AtomIsText(w: Way, a: Atom)
    requires CanonicalAtom(a)
    ensures IsCString(ShowAtom(w, a))
    decreases a, 0
  {
    match a {
      case Literal(chars) => CharsAreText(chars);
      case Class(negated, rs) =>
        RangesAreText(rs);
        WrappedText(LBRACKET, if negated then [CARET] else [], ShowRanges(rs), RBRACKET);
      case Group(no, alts) =>
        AltsAreText(w, alts);
        WrappedText(LPAREN, if no == -1 then [QUESTION, COLON] else [], ShowAlts(w, alts), RPAREN);
      case _ =>
    }
  }

  lemma PieceIsText(w: Way, p: Piece)
    requires CanonicalPiece(p)
    ensures IsCString(ShowPiece(w, p))
    decreases p, 0
  {
    AtomIsText(w, p.atom);
    CountIsText(w, p.count, AtomHasWidth(p.atom));
    TextJoin(ShowAtom(w, p.atom), ShowCount(w, p.count, AtomHasWidth(p.atom)));
  }

  lemma {:induction false} PiecesAreText(w: Way, ps: seq<Piece>)
    requires CanonicalPieces(ps)
    ensures IsCString(ShowPieces(w, ps))
    decreases ps, 1
  {
    if ps != [] {
      PieceIsText(w, ps[0]);
      PiecesAreText(w, ps[1..]);
      TextJoin(ShowPiece(w, ps[0]), ShowPieces(w, ps[1..]));
    }
  }

  lemma {:induction false} AltsAreText(w: Way, alts: seq<Branch>)
    requires CanonicalAlts(alts)
    ensures IsCString(ShowAlts(w, alts))
    decreases alts, 2
  {
    if alts != [] {
      PiecesAreText(w, alts[0].pieces);
      if |alts| > 1 {
        AltsAreText(w, alts[1..]);
        TextJoin([BAR], ShowAlts(w, alts[1..]));
        TextJoin(ShowPieces(w, alts[0].pieces), [BAR] + ShowAlts(w, alts[1..]));
      }
    }
  }

  // ----- There and back -----

  /** Parsing the text of a canonical tree, its groups numbered in order, gives the tree, or an error if there are a
      hundred groups or more. */
  lemma ShowReads(w: Way, alts: seq<Branch>)
    requires alts != [] && CanonicalAlts(alts) && NumberedAlts(alts, 0)
    ensures IsCString(ShowAlts(w, alts))
    ensures Parse(ShowAlts(w, alts)) ==
            if CountAlts(alts) < 100 then Ok(alts, |ShowAlts(w, alts)|, CountAlts(alts)) else Err(TooBig)
  {
    var s := ShowAlts(w, alts);
    AltsAreText(w, alts);
    AltsRead(w, s, 0, 0, [], alts, |s|);
    assert [] + alts == alts;
  }

  lemma HasWhole(a: seq<int>, b: seq<int>, c: seq<int>)
    ensures Has(a + b + c, |a|, b)
  {
  }

  /** A closing parenthesis after such a text is an error, and so is an opening one before it. */
  lemma ParenthesesMustMatch(w: Way, alts: seq<Branch>)
    requires alts != [] && CanonicalAlts(alts)
    ensures NumberedAlts(alts, 0) ==>
              IsCString(ShowAlts(w, alts) + [RPAREN]) && Parse(ShowAlts(w, alts) + [RPAREN]) == Err(UnmatchedParen)
    ensures NumberedAlts(alts, 1) ==>
              IsCString([LPAREN] + ShowAlts(w, alts)) && Parse([LPAREN] + ShowAlts(w, alts)) == Err(UnmatchedParen)
  {
    AltsAreText(w, alts);
    TextJoin(ShowAlts(w, alts), [RPAREN]);
    TextJoin([LPAREN], ShowAlts(w, alts));
    if NumberedAlts(alts, 0) {
      Unopened(w, alts, ShowAlts(w, alts));
    }
    if NumberedAlts(alts, 1) {
      Unclosed(w, alts, ShowAlts(w, alts));
    }
  }

  lemma Unopened(w: Way, alts: seq<Branch>, t: seq<int>)
    requires alts != [] && CanonicalAlts(alts) && NumberedAlts(alts, 0) && t == ShowAlts(w, alts) && IsCString(t + [RPAREN])
    ensures Parse(t + [RPAREN]) == Err(UnmatchedParen)
  {
    var s := t + [RPAREN];
    HasWhole([], t, [RPAREN]);
    assert [] + t + [RPAREN] == s;
    AltsRead(w, s, 0, 0, [], alts, |t|);
  }

  lemma Unclosed(w: Way, alts: seq<Branch>, t: seq<int>)
    requires alts != [] && CanonicalAlts(alts) && NumberedAlts(alts, 1) && t == ShowAlts(w, alts) && IsCString([LPAREN] + t)
    ensures Parse([LPAREN] + t) == Err(UnmatchedParen)
  {
    var s := [LPAREN] + t;
    HasWhole([LPAREN], t, []);
    assert [LPAREN] + t + [] == s;
    AltsStart(w, s, 1, alts, |s|);
    AltsRead(w, s, 1, 1, [], alts, |s|);
    OpenFails(s, |s|);
  }

  /** A group whose alternatives go on to the end of the pattern. */
  lemma OpenFails(s: seq<int>, end: nat)
    requires IsCString(s) && |s| > 0 && s[0] == LPAREN && CharAt(s, 1) != QUESTION
    requires ParseAlts(s, 1, 1, []).Ok? && CharAt(s, ParseAlts(s, 1, 1, []).pos) != RPAREN
    ensures Parse(s) == Err(UnmatchedParen)
  {
    assert ParseGroup(s, 1, 0) == Err(UnmatchedParen);
    assert ParsePiece(s, 0, 0) == Err(UnmatchedParen);
    assert ParsePieces(s, 0, 0, []) == Err(UnmatchedParen);
  }
}
