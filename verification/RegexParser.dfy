/** The grammar of jimtcl/jimregexp.c as a recursive-descent parser from the pattern text to its syntax
    tree: the specification of what regcomp reads, including every error it can report. */
module RegexParser {
  import opened RegexSyntax

  datatype Error =
    | NoError | TooBig | UnmatchedParen | UnmatchedBraces | BadCount | JunkOnEnd | OperandCouldBeEmpty
    | NestedCount | Internal | CountFollowsNothing | TrailingBackslash | NullChar

  /** A parsed value, the position after it and the number of capturing groups opened so far. */
  datatype Parsed<+T> = Ok(value: T, pos: nat, nsub: nat) | Err(error: Error)

  const REG_MAX_PAREN := 100

  const SPACE := 32
  const DOLLAR := 36
  const LPAREN := 40
  const RPAREN := 41
  const STAR := 42
  const PLUS := 43
  const MINUS := 45
  const DOT := 46
  const COLON := 58
  const QUESTION := 63
  const LBRACKET := 91
  const BACKSLASH := 92
  const RBRACKET := 93
  const CARET := 94
  const LBRACE := 123
  const BAR := 124
  const RBRACE := 125

  predicate IsMult(c: int) {
    c == STAR || c == PLUS || c == QUESTION || c == LBRACE
  }

  predicate IsMeta(c: int) {
    IsMult(c) || c == CARET || c == DOLLAR || c == DOT || c == LBRACKET || c == LPAREN || c == RPAREN || c == BAR
  }

  /** The characters of `<>mMwds`, whose escapes are nodes of their own. */
  predicate IsSpecialEscape(c: int) {
    c == 60 || c == 62 || c == 109 || c == 77 || c == 119 || c == 100 || c == 115
  }

  // ----- What regcomp knows about a tree: the HASWIDTH and SPSTART flags -----

  predicate AtomHasWidth(a: Atom) {
    a.Any? || a.Class? || a.Literal? ||
    (a.Group? && forall k :: 0 <= k < |a.alts| ==> PiecesHaveWidth(a.alts[k].pieces))
  }

  predicate PiecesHaveWidth(ps: seq<Piece>) {
    exists k :: 0 <= k < |ps| && PieceHasWidth(ps[k])
  }

  predicate PieceHasWidth(p: Piece) {
    match p.count
    case Once => AtomHasWidth(p.atom)
    case Repeat(min, _, _) => min != 0
  }

  predicate AtomStartsLoop(a: Atom) {
    a.Group? && exists k :: 0 <= k < |a.alts| && PiecesStartLoop(a.alts[k].pieces)
  }

  predicate PiecesStartLoop(ps: seq<Piece>) {
    ps != [] && PieceStartsLoop(ps[0])
  }

  predicate PieceStartsLoop(p: Piece) {
    match p.count
    case Once => AtomStartsLoop(p.atom)
    case Repeat(min, _, _) => min == 0
  }

  lemma WidthSnoc(ps: seq<Piece>, p: Piece)
    ensures PiecesHaveWidth(ps + [p]) == (PiecesHaveWidth(ps) || PieceHasWidth(p))
  {
    assert (ps + [p])[|ps|] == p;
    assert forall k :: 0 <= k < |ps| ==> (ps + [p])[k] == ps[k];
  }

  lemma GroupFlagsSnoc(no: int, alts: seq<Branch>, b: Branch)
    ensures AtomHasWidth(Group(no, alts + [b])) == (AtomHasWidth(Group(no, alts)) && PiecesHaveWidth(b.pieces))
    ensures AtomStartsLoop(Group(no, alts + [b])) == (AtomStartsLoop(Group(no, alts)) || PiecesStartLoop(b.pieces))
  {
    var all := alts + [b];
    assert all[|alts|] == b;
    assert forall k :: 0 <= k < |alts| ==> all[k] == alts[k];
  }

  // ----- What every parsed tree satisfies -----

  ghost predicate WellFormedAlts(alts: seq<Branch>) {
    alts != [] && forall k :: 0 <= k < |alts| ==> WellFormedPieces(alts[k].pieces)
  }

  ghost predicate WellFormedPieces(ps: seq<Piece>) {
    forall k :: 0 <= k < |ps| ==> WellFormedPiece(ps[k])
  }

  ghost predicate WellFormedPiece(p: Piece) {
    WellFormedAtom(p.atom) && (p.count.Repeat? ==> p.count.min <= p.count.max)
  }

  ghost predicate WellFormedAtom(a: Atom) {
    match a
    case Literal(chars) => chars != [] && forall k :: 0 <= k < |chars| ==> chars[k] != 0
    case Class(_, ranges) => WellFormedRanges(ranges)
    case Group(no, alts) => (no == -1 || 0 < no) && WellFormedAlts(alts)
    case _ => true
  }

  lemma LiteralIsWellFormed(p: Piece)
    requires WellFormedPiece(p) && p.atom.Literal?
    ensures p.atom.chars != [] && forall k :: 0 <= k < |p.atom.chars| ==> p.atom.chars[k] != 0
  {
    assert WellFormedAtom(p.atom);
  }

  ghost predicate WellFormedRanges(ranges: seq<Range>) {
    forall k :: 0 <= k < |ranges| ==> ranges[k].lo != 0 && ranges[k].hi != 0
  }

  // ----- Numbers and escapes -----

  function SignedChar(c: int): int {
    if c < 128 then c else c - 256
  }

  /** The conversion to a 32-bit signed integer. */
  function ToInt32(n: int): int {
    var m := n % 0x1_0000_0000;
    if m < 0x8000_0000 then m else m - 0x1_0000_0000
  }

  function HexDigitVal(c: int): int {
    if 48 <= c <= 57 then c - 48
    else if 97 <= c <= 102 then c - 97 + 10
    else if 65 <= c <= 70 then c - 65 + 10
    else -1
  }

  /** The number of hexadecimal digits at `i`, at most `n`. */
  function HexCount(s: seq<int>, i: nat, n: nat): (k: nat)
    ensures k <= n && (i <= |s| ==> i + k <= |s|)
    decreases n
  {
    if n == 0 || HexDigitVal(CharAt(s, i)) == -1 then 0 else 1 + HexCount(s, i + 1, n - 1)
  }

  /** The value of the `k` hexadecimal digits at `i`. */
  function HexValue(s: seq<int>, i: nat, k: nat): int {
    if k == 0 then 0 else 16 * HexValue(s, i, k - 1) + HexDigitVal(CharAt(s, i + k - 1))
  }

  /** The character that the escape after a backslash stands for, and the bytes it takes. */
  function DecodeEscape(s: seq<int>, i: nat): (r: (int, nat))
    requires i <= |s|
    ensures i + r.1 <= |s|
  {
    var c := CharAt(s, i);
    if c == 0 then (BACKSLASH, 0)
    else if c == 98 then (8, 1)
    else if c == 101 then (27, 1)
    else if c == 102 then (12, 1)
    else if c == 110 then (10, 1)
    else if c == 114 then (13, 1)
    else if c == 116 then (9, 1)
    else if c == 118 then (11, 1)
    else if c == 117 && CharAt(s, i + 1) == LBRACE then
      var n := HexCount(s, i + 2, 6);
      var v := ToInt32(HexValue(s, i + 2, n));
      if n > 0 && CharAt(s, i + 2 + n) == RBRACE && 0 <= v <= 0x1fffff then (v, n + 3) else (c, 1)
    else if c == 117 || c == 85 || c == 120 then
      var n := HexCount(s, i + 1, if c == 117 then 4 else if c == 85 then 8 else 2);
      if n > 0 then (ToInt32(HexValue(s, i + 1, n)), 1 + n) else (c, 1)
    else (SignedChar(c), 1)
  }

  predicate IsSpace(c: int) {
    c == SPACE || 9 <= c <= 13
  }

  function SkipSpaces(s: seq<int>, i: nat): (j: nat)
    ensures i <= j && (i <= |s| ==> j <= |s|)
    decreases |s| - i
  {
    if IsSpace(CharAt(s, i)) then SkipSpaces(s, i + 1) else i
  }

  predicate IsDigit(c: int) {
    48 <= c <= 57
  }

  function SkipDigits(s: seq<int>, i: nat): (j: nat)
    ensures i <= j && (i <= |s| ==> j <= |s|)
    decreases |s| - i
  {
    if IsDigit(CharAt(s, i)) then SkipDigits(s, i + 1) else i
  }

  function DecimalValue(s: seq<int>, i: nat, j: nat): nat
    requires i <= j
  {
    if i == j || !IsDigit(CharAt(s, j - 1)) then 0
    else 10 * DecimalValue(s, i, j - 1) + (CharAt(s, j - 1) - 48)
  }

  /** C's strtoul in base 10, stored in an int: the value and the position after it (`i` if no digits). */
  function StrToULong(s: seq<int>, i: nat): (r: (int, nat))
    ensures i <= r.1 && (i <= |s| ==> r.1 <= |s|)
  {
    var start := SkipSpaces(s, i);
    var sign := CharAt(s, start);
    var digits := if sign == MINUS || sign == PLUS then start + 1 else start;
    var end := SkipDigits(s, digits);
    if end == digits then (0, i)
    else
      var v: int := DecimalValue(s, digits, end);
      if v > 0xffff_ffff_ffff_ffff then (-1, end)
      else if sign == MINUS then (ToInt32(0 - v), end)
      else (ToInt32(v), end)
  }

  // ----- Classes and literals -----

  const DIGITS := [Range(48, 57)]
  const LETTERS := [Range(97, 122), Range(65, 90)]
  const SPACES := [Range(32, 32), Range(9, 9), Range(13, 13), Range(10, 10), Range(12, 12), Range(11, 11)]
  const ALPHA := [COLON, 97, 108, 112, 104, 97, COLON, RBRACKET]
  const ALNUM := [COLON, 97, 108, 110, 117, 109, COLON, RBRACKET]
  const SPACE_NAME := [COLON, 115, 112, 97, 99, 101, COLON, RBRACKET]

  predicate LooksAt(s: seq<int>, i: nat, text: seq<int>) {
    i + |text| <= |s| && s[i..i + |text|] == text
  }

  /** A character of a class, possibly escaped; an escape that yields NUL is an error. */
  function ParseClassChar(s: seq<int>, i: nat): (r: Parsed<int>)
    requires i < |s|
    ensures r.Ok? ==> i < r.pos <= |s| && (s[i] != 0 ==> r.value != 0)
  {
    if s[i] != BACKSLASH then Ok(s[i], i + 1, 0)
    else
      var (c, n) := DecodeEscape(s, i + 1);
      if c == 0 then Err(NullChar) else Ok(c, i + 1 + n, 0)
  }

  /** A named class, or the character that has been read. */
  function NamedOrSingle(s: seq<int>, c: int, j: nat): (r: (seq<Range>, nat))
    requires j <= |s|
    ensures j <= r.1 <= |s| && (c != 0 ==> WellFormedRanges(r.0))
  {
    if c == LBRACKET && LooksAt(s, j, ALPHA) then (LETTERS, j + 8)
    else if c == LBRACKET && LooksAt(s, j, ALNUM) then (LETTERS + DIGITS, j + 8)
    else if c == LBRACKET && LooksAt(s, j, SPACE_NAME) then (SPACES, j + 8)
    else ([Range(c, c)], j)
  }

  /** The rest of an item whose first character has been read: a range, a named class or a single character. */
  function ParseItemRest(s: seq<int>, c: int, j: nat): (r: Parsed<seq<Range>>)
    requires j <= |s| && IsCString(s) && c != 0
    ensures r.Ok? ==> j <= r.pos <= |s| && WellFormedRanges(r.value)
  {
    if CharAt(s, j) == MINUS && CharAt(s, j + 1) != 0 && CharAt(s, j + 1) != RBRACKET then
      match ParseClassChar(s, j + 1)
      case Err(e) => Err(e)
      case Ok(end, k, _) => Ok([Range(c, end)], k, 0)
    else
      var (ranges, pos) := NamedOrSingle(s, c, j);
      Ok(ranges, pos, 0)
  }

  /** The ranges of one item. */
  function ParseClassItem(s: seq<int>, i: nat): (r: Parsed<seq<Range>>)
    requires i < |s| && IsCString(s)
    ensures r.Ok? ==> i < r.pos <= |s| && WellFormedRanges(r.value)
  {
    match ParseClassChar(s, i)
    case Err(e) => Err(e)
    case Ok(c, j, _) => ParseItemRest(s, c, j)
  }

  /** The items of a class up to its bracket; a class may also end with the pattern. */
  function ParseClassItems(s: seq<int>, i: nat, acc: seq<Range>): (r: Parsed<seq<Range>>)
    requires i <= |s| && IsCString(s) && WellFormedRanges(acc)
    ensures r.Ok? ==> i <= r.pos <= |s| && WellFormedRanges(r.value)
    decreases |s| - i
  {
    if i == |s| then Ok(acc, i, 0)
    else if s[i] == RBRACKET then Ok(acc, i + 1, 0)
    else
      match ParseClassItem(s, i)
      case Err(e) => Err(e)
      case Ok(item, j, _) => ParseClassItems(s, j, acc + item)
  }

  /** All the items of a class; a first `]` or `-` stands for itself. */
  function ParseClassBody(s: seq<int>, i: nat): (r: Parsed<seq<Range>>)
    requires i <= |s| && IsCString(s)
    ensures r.Ok? ==> i <= r.pos <= |s| && WellFormedRanges(r.value)
  {
    var first := CharAt(s, i);
    if first == RBRACKET || first == MINUS then ParseClassItems(s, i + 1, [Range(first, first)])
    else ParseClassItems(s, i, [])
  }

  /** A class whose opening bracket has been read. */
  function ParseClass(s: seq<int>, i: nat): (r: Parsed<Atom>)
    requires i <= |s| && IsCString(s)
    ensures r.Ok? ==> i <= r.pos <= |s| && WellFormedAtom(r.value) && r.value.Class?
  {
    var negated := CharAt(s, i) == CARET;
    match ParseClassBody(s, if negated then i + 1 else i)
    case Err(e) => Err(e)
    case Ok(ranges, pos, _) => Ok(Class(negated, ranges), pos, 0)
  }

  /** Whether the character at `i` can be part of a run of ordinary characters. */
  predicate StartsLiteral(s: seq<int>, i: nat) {
    i < |s| && !IsMeta(s[i]) && !(s[i] == BACKSLASH && IsSpecialEscape(CharAt(s, i + 1)))
  }

  /** The ordinary or escaped character at `i`, and its length; a final backslash stands for itself. */
  function LiteralChar(s: seq<int>, i: nat): (r: (int, nat))
    requires i < |s|
    ensures 0 < r.1 && i + r.1 <= |s|
  {
    if s[i] == BACKSLASH && i + 1 < |s| then
      var (c, n) := DecodeEscape(s, i + 1);
      (c, n + 1)
    else (s[i], 1)
  }

  /** A run of ordinary characters. It stops before a character that a repeat follows, unless that
      character is the whole run. */
  function ParseLiteral(s: seq<int>, i: nat, acc: seq<int>): (r: Parsed<seq<int>>)
    requires i <= |s| && IsCString(s)
    requires forall k :: 0 <= k < |acc| ==> acc[k] != 0
    ensures r.Ok? ==> i <= r.pos <= |s| && acc <= r.value
    ensures r.Ok? ==> forall k :: 0 <= k < |r.value| ==> r.value[k] != 0
    ensures r.Ok? && acc == [] && StartsLiteral(s, i) ==> i < r.pos && r.value != []
    decreases |s| - i
  {
    if !StartsLiteral(s, i) then Ok(acc, i, 0)
    else
      var (c, n) := LiteralChar(s, i);
      if c == 0 then Err(NullChar)
      else if IsMult(CharAt(s, i + n)) then
        if acc != [] then Ok(acc, i, 0) else Ok([c], i + n, 0)
      else ParseLiteral(s, i + n, acc + [c])
  }

  lemma NonZeroSnoc(acc: seq<int>, c: int)
    requires c != 0 && forall k :: 0 <= k < |acc| ==> acc[k] != 0
    ensures forall k :: 0 <= k < |acc + [c]| ==> (acc + [c])[k] != 0
  {
  }

  /** One more character of a run. */
  lemma LiteralStep(s: seq<int>, i: nat, acc: seq<int>, c: int, j: nat)
    requires IsCString(s) && StartsLiteral(s, i) && LiteralChar(s, i) == (c, j - i) && i <= j && c != 0
    requires !IsMult(CharAt(s, j)) && forall k :: 0 <= k < |acc| ==> acc[k] != 0
    requires forall k :: 0 <= k < |acc + [c]| ==> (acc + [c])[k] != 0
    ensures j <= |s| && ParseLiteral(s, i, acc) == ParseLiteral(s, j, acc + [c])
  {
  }

  /** Where a run of characters ends. */
  lemma LiteralStops(s: seq<int>, i: nat, acc: seq<int>)
    requires IsCString(s) && i <= |s| && forall k :: 0 <= k < |acc| ==> acc[k] != 0
    ensures !StartsLiteral(s, i) ==> ParseLiteral(s, i, acc) == Ok(acc, i, 0)
    ensures StartsLiteral(s, i) && LiteralChar(s, i).0 == 0 ==> ParseLiteral(s, i, acc) == Err(NullChar)
    ensures StartsLiteral(s, i) && LiteralChar(s, i).0 != 0 && IsMult(CharAt(s, i + LiteralChar(s, i).1)) ==>
              ParseLiteral(s, i, acc) ==
              if acc != [] then Ok(acc, i, 0) else Ok(acc + [LiteralChar(s, i).0], i + LiteralChar(s, i).1, 0)
  {
    if acc == [] && StartsLiteral(s, i) {
      assert acc + [LiteralChar(s, i).0] == [LiteralChar(s, i).0];
    }
  }

  // ----- Repeat counts -----

  /** The count after an atom, if there is one. */
  function ParseCount(s: seq<int>, i: nat, width: bool): (r: Parsed<Count>)
    requires i <= |s|
    ensures r.Ok? ==> i <= r.pos <= |s|
    ensures r.Ok? && r.value.Repeat? ==> r.value.min <= r.value.max
  {
    var op := CharAt(s, i);
    if !IsMult(op) then Ok(Once, i, 0)
    else if !width && op != QUESTION then Err(OperandCouldBeEmpty)
    else
      match ParseBounds(s, i)
      case Err(e) => Err(e)
      case Ok((min, max), j, _) =>
        var lazy := CharAt(s, j + 1) == QUESTION;
        var end := if lazy then j + 2 else j + 1;
        if IsMult(CharAt(s, end)) then Err(NestedCount)
        else Ok(Repeat(min, max, !lazy), end, 0)
  }

  /** A count that is there and may be there. */
  lemma CountIs(s: seq<int>, i: nat, width: bool, min: int, max: int, j: nat, greedy: bool, end: nat)
    requires i < |s| && IsMult(s[i]) && (width || s[i] == QUESTION)
    requires ParseBounds(s, i).Ok? && ParseBounds(s, i).value == (min, max) && ParseBounds(s, i).pos == j
    requires greedy == (CharAt(s, j + 1) != QUESTION) && end == if greedy then j + 1 else j + 2
    ensures ParseCount(s, i, width) ==
            if IsMult(CharAt(s, end)) then Err(NestedCount) else Ok(Repeat(min, max, greedy), end, 0)
  {
  }

  /** The least and greatest count that the operator at `i` stands for, and the position of its last character. */
  function ParseBounds(s: seq<int>, i: nat): (r: Parsed<(int, int)>)
    requires i < |s|
    ensures r.Ok? ==> i <= r.pos < |s| && r.value.0 <= r.value.1
  {
    var op := CharAt(s, i);
    if op == LBRACE then ParseBraces(s, i)
    else Ok((if op == PLUS then 1 else 0, if op == QUESTION then 1 else MAX_REP_COUNT), i, 0)
  }

  /** The bounds of `{n}`, `{n,}` or `{n,m}` whose brace is at `i`, and the position of the closing brace. */
  function ParseBraces(s: seq<int>, i: nat): (r: Parsed<(int, int)>)
    requires i < |s|
    ensures r.Ok? ==> i < r.pos < |s| && r.value.0 <= r.value.1
  {
    var (min, end) := StrToULong(s, i + 1);
    if end == i + 1 then Err(BadCount)
    else if CharAt(s, end) == RBRACE then
      if min >= 100 then Err(BadCount) else Ok((min, min), end, 0)
    else
      var (max, end2) := StrToULong(s, end + 1);
      if CharAt(s, end2) != RBRACE then Err(UnmatchedBraces)
      else if end2 != end + 1 && (max < min || max >= 100) then Err(BadCount)
      else if min >= 100 then Err(BadCount)
      else Ok((min, if end2 == end + 1 then MAX_REP_COUNT else max), end2, 0)
  }

  // ----- The grammar -----

  /** An atom other than a group. */
  function ParseLeaf(s: seq<int>, i: nat): (r: Parsed<Atom>)
    requires i <= |s| && IsCString(s) && CharAt(s, i) != LPAREN
    ensures r.Ok? ==> i < r.pos <= |s| && WellFormedAtom(r.value) && !r.value.Group?
  {
    var c := CharAt(s, i);
    if c == 0 || c == BAR || c == RPAREN then Err(Internal)
    else if c == CARET then Ok(Bol, i + 1, 0)
    else if c == DOLLAR then Ok(Eol, i + 1, 0)
    else if c == DOT then Ok(Any, i + 1, 0)
    else if IsMult(c) then Err(CountFollowsNothing)
    else if c == LBRACKET then ParseClass(s, i + 1)
    else if c == BACKSLASH && i + 1 == |s| then Err(TrailingBackslash)
    else if c == BACKSLASH && IsSpecialEscape(s[i + 1]) then Ok(SpecialEscape(s[i + 1]), i + 2, 0)
    else
      match ParseLiteral(s, i, [])
      case Err(e) => Err(e)
      case Ok(chars, pos, _) => Ok(Literal(chars), pos, 0)
  }

  /** An atom; a group's number is -1 when it does not capture. */
  function ParseAtom(s: seq<int>, i: nat, nsub: nat): (r: Parsed<Atom>)
    requires i <= |s| && IsCString(s)
    ensures r.Ok? ==> i < r.pos <= |s| && WellFormedAtom(r.value)
    decreases |s| - i, 0
  {
    if CharAt(s, i) == LPAREN then ParseGroup(s, i + 1, nsub)
    else
      match ParseLeaf(s, i)
      case Err(e) => Err(e)
      case Ok(a, pos, _) => Ok(a, pos, nsub)
  }

  /** A group whose opening parenthesis has been read. */
  function ParseGroup(s: seq<int>, i: nat, nsub: nat): (r: Parsed<Atom>)
    requires i <= |s| && IsCString(s)
    ensures r.Ok? ==> i < r.pos <= |s| && WellFormedAtom(r.value) && r.value.Group?
    decreases |s| - i, 4
  {
    var quiet := CharAt(s, i) == QUESTION && CharAt(s, i + 1) == COLON;
    var no := if quiet then -1 else nsub + 1;
    match ParseAlts(s, if quiet then i + 2 else i, if quiet then nsub else nsub + 1, [])
    case Err(e) => Err(e)
    case Ok(alts, pos, n) =>
      if CharAt(s, pos) != RPAREN then Err(UnmatchedParen) else Ok(Group(no, alts), pos + 1, n)
  }

  function SpecialEscape(c: int): (a: Atom)
    requires IsSpecialEscape(c)
    ensures WellFormedAtom(a)
  {
    if c == 60 || c == 109 then WordStart
    else if c == 62 || c == 77 then WordEnd
    else if c == 100 then Class(false, DIGITS)
    else if c == 119 then Class(false, LETTERS + DIGITS + [Range(95, 95)])
    else Class(false, SPACES)
  }

  function ParsePiece(s: seq<int>, i: nat, nsub: nat): (r: Parsed<Piece>)
    requires i <= |s| && IsCString(s)
    ensures r.Ok? ==> i < r.pos <= |s| && WellFormedPiece(r.value)
    decreases |s| - i, 1
  {
    match ParseAtom(s, i, nsub)
    case Err(e) => Err(e)
    case Ok(a, j, n) =>
      match ParseCount(s, j, AtomHasWidth(a))
      case Err(e) => Err(e)
      case Ok(count, k, _) => Ok(Piece(a, count), k, n)
  }

  function ParsePieces(s: seq<int>, i: nat, nsub: nat, acc: seq<Piece>): (r: Parsed<seq<Piece>>)
    requires i <= |s| && IsCString(s) && WellFormedPieces(acc)
    ensures r.Ok? ==> i <= r.pos <= |s| && WellFormedPieces(r.value)
    decreases |s| - i, 2
  {
    var c := CharAt(s, i);
    if c == 0 || c == RPAREN || c == BAR then Ok(acc, i, nsub)
    else
      match ParsePiece(s, i, nsub)
      case Err(e) => Err(e)
      case Ok(p, j, n) => ParsePieces(s, j, n, acc + [p])
  }

  function ParseAlts(s: seq<int>, i: nat, nsub: nat, acc: seq<Branch>): (r: Parsed<seq<Branch>>)
    requires i <= |s| && IsCString(s) && (acc == [] || WellFormedAlts(acc))
    ensures r.Ok? ==> i <= r.pos <= |s| && WellFormedAlts(r.value)
    decreases |s| - i, 3
  {
    match ParsePieces(s, i, nsub, [])
    case Err(e) => Err(e)
    case Ok(ps, j, n) =>
      if CharAt(s, j) == BAR then ParseAlts(s, j + 1, n, acc + [Branch(ps)])
      else Ok(acc + [Branch(ps)], j, n)
  }

  /** Alternatives that must end with the pattern. */
  function ParseMain(s: seq<int>, i: nat, nsub: nat): (r: Parsed<seq<Branch>>)
    requires i <= |s| && IsCString(s)
    ensures r.Ok? ==> WellFormedAlts(r.value)
  {
    match ParseAlts(s, i, nsub, [])
    case Err(e) => Err(e)
    case Ok(alts, pos, n) =>
      if CharAt(s, pos) == RPAREN then Err(UnmatchedParen)
      else if CharAt(s, pos) != 0 then Err(JunkOnEnd)
      else Ok(alts, pos, n)
  }

  /** A whole pattern, its alternatives. */
  function Parse(s: seq<int>): (r: Parsed<seq<Branch>>)
    requires IsCString(s)
    ensures r.Ok? ==> WellFormedAlts(r.value) && r.nsub < REG_MAX_PAREN
  {
    var r := ParseMain(s, 0, 0);
    if r.Ok? && r.nsub >= REG_MAX_PAREN then Err(TooBig) else r
  }
}
