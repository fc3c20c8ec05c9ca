/** From the text of a pattern to its language, for the simplest patterns: what the signs of the language mean. */
module RegexLaws {
  import opened RegexSyntax
  import opened RegexParser
  import opened RegexCode
  import opened RegexCaptures
  import opened RegexRun
  import opened RegexTokens
  import opened RegexPrinter

  /** A pattern of a single piece. */
  function Only(p: Piece): seq<Branch> {
    [Branch([p])]
  }

  lemma OnlyDerives(p: Piece, s: seq<int>, i: nat, j: nat, marks: seq<Mark>)
    ensures DerivesAlts(Only(p), s, i, j, marks) <==> DerivesPiece(p, s, i, j, marks)
  {
    assert Only(p)[0].pieces == [p];
    if DerivesPiece(p, s, i, j, marks) {
      assert DerivesPieces([], s, j, j, []);
      ConsIntro(p, [], s, i, j, j, marks, []);
      assert [p] + [] == [p] && marks + [] == marks;
    }
    if DerivesPieces([p], s, i, j, marks) {
      var m, a, b := ConsElim([p], s, i, j, marks);
      assert [p][1..] == [] && a + [] == a;
    }
  }

  lemma OnlyLeaf(a: Atom, s: seq<int>, i: nat, j: nat)
    requires !a.Group?
    ensures Matches(Only(Piece(a, Once)), s, i, j) <==> StepsTo(a, s, i, j)
  {
    var p := Piece(a, Once);
    if StepsTo(a, s, i, j) {
      assert DerivesAtom(a, s, i, j, []);
      OnlyDerives(p, s, i, j, []);
    }
    if Matches(Only(p), s, i, j) {
      var marks :| DerivesAlts(Only(p), s, i, j, marks);
      OnlyDerives(p, s, i, j, marks);
      LeafElim(p, s, i, j, marks);
    }
  }

  /** The text of a single piece is parsed as that piece. */
  lemma OnlyReads(w: Way, p: Piece, text: seq<int>)
    requires CanonicalPiece(p) && !p.atom.Group? && text == ShowPiece(w, p)
    ensures IsCString(text) && Parse(text) == Ok(Only(p), |text|, 0)
  {
    var alts := Only(p);
    assert [p][1..] == [] && alts[1..] == [] && text + [] == text;
    assert ShowPieces(w, [p]) == ShowPiece(w, p) + ShowPieces(w, []);
    assert CanonicalPieces([p]) && CanonicalAlts(alts);
    ShowReads(w, alts);
  }

  // ----- Anchors and the dot -----

  lemma LeafText(a: Atom, text: seq<int>)
    requires CanonicalAtom(a) && !a.Group? && text == ShowAtom(Short, a)
    ensures IsCString(text) && Parse(text) == Ok(Only(Piece(a, Once)), |text|, 0)
  {
    assert text + [] == text;
    OnlyReads(Short, Piece(a, Once), text);
  }

  /** A text of any characters, with a backslash before those that would be signs, matches itself and nothing else. */
  lemma TextMatchesItself(chars: seq<int>, text: seq<int>, s: seq<int>, i: nat, j: nat)
    requires chars != [] && (forall k :: 0 <= k < |chars| ==> IsByte(chars[k])) && text == ShowChars(chars)
    ensures IsCString(text) && Parse(text).Ok?
    ensures Matches(Parse(text).value, s, i, j) <==> j == i + |chars| <= |s| && s[i..j] == chars
  {
    LeafText(Literal(chars), text);
    OnlyLeaf(Literal(chars), s, i, j);
  }

  /** What the signs `^`, `$` and `.` match. */
  lemma SignsMean(s: seq<int>, i: nat, j: nat)
    ensures IsCString(['^' as int]) && IsCString(['$' as int]) && IsCString(['.' as int])
    ensures Parse(['^' as int]).Ok? && Parse(['$' as int]).Ok? && Parse(['.' as int]).Ok?
    ensures Matches(Parse(['^' as int]).value, s, i, j) <==> i == j == 0
    ensures Matches(Parse(['$' as int]).value, s, i, j) <==> i == j == |s|
    ensures Matches(Parse(['.' as int]).value, s, i, j) <==> i < |s| && j == i + 1
  {
    LeafText(Bol, ['^' as int]);
    LeafText(Eol, ['$' as int]);
    LeafText(Any, ['.' as int]);
    OnlyLeaf(Bol, s, i, j);
    OnlyLeaf(Eol, s, i, j);
    OnlyLeaf(Any, s, i, j);
  }

  // ----- Classes -----

  function ClassText(negated: bool, lo: int, hi: int): seq<int> {
    ['[' as int] + (if negated then ['^' as int] else []) + (ShowClassChar(lo) + (['-' as int] + ShowClassChar(hi))) + [']' as int]
  }

  /** A class of one range takes the characters between its ends, and with `^` all the others. */
  lemma RangeMeans(negated: bool, lo: int, hi: int, s: seq<int>, i: nat, j: nat)
    requires IsByte(lo) && IsByte(hi) && lo <= hi
    ensures IsCString(ClassText(negated, lo, hi)) && Parse(ClassText(negated, lo, hi)).Ok?
    ensures Matches(Parse(ClassText(negated, lo, hi)).value, s, i, j) <==> i < |s| && j == i + 1 && (lo <= s[i] <= hi) != negated
  {
    var rs := [Range(lo, hi)];
    var a := Class(negated, rs);
    assert rs[1..] == [] && ShowRanges(rs) == ShowRange(rs[0]) + [];
    assert ShowRange(rs[0]) + [] == ShowRange(rs[0]);
    LeafText(a, ClassText(negated, lo, hi));
    OnlyLeaf(a, s, i, j);
    if i < |s| {
      InOne(s[i], Range(lo, hi));
    }
  }

  // ----- Repeats -----

  /** An atom of one character with a repeat, in either way of writing it, matches the runs of characters that it
      takes whose length is within the bounds. */
  lemma RepeatedAtom(w: Way, a: Atom, min: nat, max: nat, greedy: bool, text: seq<int>, s: seq<int>, i: nat, j: nat)
    requires IsSimple(a) && CanonicalAtom(a) && (a.Class? ==> NothingLost(a.ranges))
    requires CanonicalCount(Repeat(min, max, greedy)) && i <= |s|
    requires text == ShowPiece(w, Piece(a, Repeat(min, max, greedy)))
    ensures IsCString(text) && Parse(text).Ok?
    ensures Matches(Parse(text).value, s, i, j) <==>
            i + min <= j <= i + max && j <= |s| && forall k :: i <= k < j ==> Takes(a, s[k])
  {
    var p := Piece(a, Repeat(min, max, greedy));
    OnlyReads(w, p, text);
    if i <= j {
      TakenMeans(a, s, i, j - i, max);
    }
    RepeatMeans(p, s, i, j, []);
    OnlyDerives(p, s, i, j, []);
    if Matches(Only(p), s, i, j) {
      var marks :| DerivesAlts(Only(p), s, i, j, marks);
      OnlyDerives(p, s, i, j, marks);
      RepeatMeans(p, s, i, j, marks);
    }
  }

  /** So `*` means any number, `+` at least one and `?` at most one. */
  lemma OperatorsMean(c: int, s: seq<int>, i: nat, j: nat)
    requires IsByte(c) && i <= |s|
    ensures forall op :: op in ['*' as int, '+' as int, '?' as int] ==>
              IsCString(ShowChar(c) + [op]) && Parse(ShowChar(c) + [op]).Ok?
    ensures Matches(Parse(ShowChar(c) + ['*' as int]).value, s, i, j) <==>
            i <= j <= i + MAX_REP_COUNT && j <= |s| && forall k :: i <= k < j ==> s[k] == c
    ensures Matches(Parse(ShowChar(c) + ['+' as int]).value, s, i, j) <==>
            i + 1 <= j <= i + MAX_REP_COUNT && j <= |s| && forall k :: i <= k < j ==> s[k] == c
    ensures Matches(Parse(ShowChar(c) + ['?' as int]).value, s, i, j) <==>
            i <= j <= i + 1 && j <= |s| && forall k :: i <= k < j ==> s[k] == c
  {
    OperatorText(c, 0, MAX_REP_COUNT, '*' as int);
    OperatorText(c, 1, MAX_REP_COUNT, '+' as int);
    OperatorText(c, 0, 1, '?' as int);
    RepeatedAtom(Short, Literal([c]), 0, MAX_REP_COUNT, true, ShowChar(c) + ['*' as int], s, i, j);
    RepeatedAtom(Short, Literal([c]), 1, MAX_REP_COUNT, true, ShowChar(c) + ['+' as int], s, i, j);
    RepeatedAtom(Short, Literal([c]), 0, 1, true, ShowChar(c) + ['?' as int], s, i, j);
  }

  lemma OperatorText(c: int, min: nat, max: nat, op: int)
    requires ShowBounds(Short, min, max, true) == [op]
    ensures ShowPiece(Short, Piece(Literal([c]), Repeat(min, max, true))) == ShowChar(c) + [op]
  {
    assert [c][1..] == [];
    assert ShowChars([c]) == ShowChar(c) + [] == ShowChar(c);
    assert [op] + [] == [op];
  }
}
