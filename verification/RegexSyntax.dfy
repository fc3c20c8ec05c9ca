/** The abstract syntax of the patterns that jimtcl/jimregexp.c compiles, and what a pattern means:
    the derivations of a span of the input, each with the group marks it leaves. */
module RegexSyntax {

  /** One item of a bracketed class; `hi` may be below `lo`. */
  datatype Range = Range(lo: int, hi: int)

  datatype Atom =
    | Bol
    | Eol
    | WordStart
    | WordEnd
    | Any
    | Class(negated: bool, ranges: seq<Range>)
    | Literal(chars: seq<int>)
    | Group(no: int, alts: seq<Branch>)

  datatype Count = Once | Repeat(min: int, max: int, greedy: bool)

  /** One alternative: pieces matched one after the other. */
  datatype Branch = Branch(pieces: seq<Piece>)

  datatype Piece = Piece(atom: Atom, count: Count)

  /** A mark left by a capturing group: it opened, or closed, at a position. */
  datatype Mark = OpenMark(no: int, at: nat) | CloseMark(no: int, at: nat)

  /** The stand-in for the unbounded maximum of `*`, `+` and `{n,}`. */
  const MAX_REP_COUNT := 1000000

  // ----- Characters -----

  /** The character at a position; the terminating NUL from the end on. */
  function CharAt(s: seq<int>, i: nat): int {
    if i < |s| then s[i] else 0
  }

  /** A C string: every character is a nonzero byte. */
  ghost predicate IsCString(s: seq<int>) {
    forall i :: 0 <= i < |s| ==> 1 <= s[i] <= 255
  }

  predicate InRange(c: int, r: Range) {
    r.lo <= c <= r.hi || r.hi <= c <= r.lo
  }

  predicate InClass(c: int, ranges: seq<Range>) {
    exists k :: 0 <= k < |ranges| && InRange(c, ranges[k])
  }

  predicate IsWordChar(c: int) {
    48 <= c <= 57 || 65 <= c <= 90 || 97 <= c <= 122 || c == 95
  }

  // ----- Shape -----

  /** An atom that a simple repeat can count: it always takes exactly one character. */
  predicate IsSimple(a: Atom) {
    a.Any? || a.Class? || (a.Literal? && |a.chars| == 1)
  }

  // ----- Meaning -----

  /** Whether a simple atom takes the character `c`. */
  predicate Takes(a: Atom, c: int)
    requires IsSimple(a)
  {
    match a
    case Any => true
    case Class(negated, ranges) => InClass(c, ranges) != negated
    case Literal(chars) => c == chars[0]
  }

  /** Where an atom that is not a group ends when it is matched at `i`, if it matches at all. */
  ghost predicate StepsTo(a: Atom, s: seq<int>, i: nat, j: nat)
    requires !a.Group?
  {
    match a
    case Bol => i == j == 0
    case Eol => i == j == |s|
    case WordStart => i == j < |s| && IsWordChar(s[i]) && (i == 0 || !IsWordChar(s[i - 1]))
    case WordEnd => 0 < i == j <= |s| && IsWordChar(s[i - 1])
    case Any => i < |s| && j == i + 1
    case Class(negated, ranges) => i < |s| && j == i + 1 && InClass(s[i], ranges) != negated
    case Literal(chars) => j == i + |chars| <= |s| && s[i..j] == chars
  }

  /** The end of a word, as the anchor is documented: after a word character, and not before one. */
  predicate EndOfWord(s: seq<int>, i: nat) {
    0 < i <= |s| && IsWordChar(s[i - 1]) && (i == |s| || !IsWordChar(s[i]))
  }

  /** The anchor and its documentation agree exactly where the position is not inside a word. */
  lemma WordEndAgreesIff(s: seq<int>, i: nat)
    ensures (StepsTo(WordEnd, s, i, i) <==> EndOfWord(s, i))
       <==> !(0 < i < |s| && IsWordChar(s[i - 1]) && IsWordChar(s[i]))
  {
  }

  /** Between the letters of ab the anchor matches, though the word goes on. */
  lemma WordEndInsideWord()
    ensures StepsTo(WordEnd, [97, 98], 1, 1) && !EndOfWord([97, 98], 1)
  {
  }

  /** All characters from `i` up to `j` are characters of words. */
  predicate OneWord(s: seq<int>, i: nat, j: nat) {
    i <= j <= |s| && forall k :: i <= k < j ==> IsWordChar(s[k])
  }

  /** The start-of-word anchor matches once in every word: for every character of a word there is exactly one place at
      or before it from which the word reaches it and at which the anchor matches. */
  lemma {:induction false} WordStartsOnce(s: seq<int>, k: nat) returns (i: nat)
    requires k < |s| && IsWordChar(s[k])
    ensures i <= k && OneWord(s, i, k + 1) && StepsTo(WordStart, s, i, i)
    ensures forall j: nat :: j <= k && OneWord(s, j, k + 1) && StepsTo(WordStart, s, j, j) ==> j == i
    decreases k
  {
    if k > 0 && IsWordChar(s[k - 1]) {
      i := WordStartsOnce(s, k - 1);
      forall j: nat | j <= k && OneWord(s, j, k + 1) && StepsTo(WordStart, s, j, j) ensures j == i {
        assert j < k && OneWord(s, j, k);
      }
    } else {
      i := k;
    }
  }

  /** The marks of a derivation of s[i..j] from some alternative. */
  ghost predicate DerivesAlts(alts: seq<Branch>, s: seq<int>, i: nat, j: nat, marks: seq<Mark>) {
    exists k :: 0 <= k < |alts| && DerivesPieces(alts[k].pieces, s, i, j, marks)
  }

  /** Concatenation. */
  ghost predicate DerivesPieces(ps: seq<Piece>, s: seq<int>, i: nat, j: nat, marks: seq<Mark>) {
    if ps == [] then i == j && marks == []
    else
      exists m: nat, cut: nat ::
        && cut <= |marks|
        && DerivesPiece(ps[0], s, i, m, marks[..cut])
        && DerivesPieces(ps[1..], s, m, j, marks[cut..])
  }

  ghost predicate DerivesPiece(p: Piece, s: seq<int>, i: nat, j: nat, marks: seq<Mark>)
    decreases p, 1
  {
    match p.count
    case Once => DerivesAtom(p.atom, s, i, j, marks)
    case Repeat(min, max, _) =>
      exists n: nat :: min <= n <= max && DerivesTimes(p.atom, n, s, i, j, marks)
  }

  /** Exactly `n` derivations of the atom, one after the other. */
  ghost predicate DerivesTimes(a: Atom, n: nat, s: seq<int>, i: nat, j: nat, marks: seq<Mark>)
    decreases a, 1, n
  {
    if n == 0 then i == j && marks == []
    else
      exists m: nat, cut: nat ::
        && cut <= |marks|
        && DerivesAtom(a, s, i, m, marks[..cut])
        && DerivesTimes(a, n - 1, s, m, j, marks[cut..])
  }

  /** A capturing group (its number is positive) puts its marks around those of its content. */
  ghost predicate DerivesAtom(a: Atom, s: seq<int>, i: nat, j: nat, marks: seq<Mark>)
    decreases a, 0
  {
    match a
    case Group(no, alts) =>
      if no <= 0 then DerivesAlts(alts, s, i, j, marks)
      else
        && |marks| >= 2
        && marks[0] == OpenMark(no, i)
        && marks[|marks| - 1] == CloseMark(no, j)
        && DerivesAlts(alts, s, i, j, marks[1..|marks| - 1])
    case _ => StepsTo(a, s, i, j) && marks == []
  }

  /** The language of a pattern. */
  ghost predicate Matches(alts: seq<Branch>, s: seq<int>, i: nat, j: nat) {
    exists marks :: DerivesAlts(alts, s, i, j, marks)
  }
}
