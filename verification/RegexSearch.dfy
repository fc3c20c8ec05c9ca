/** Why the shortcuts of regexec are sound, and which start it reports. */
module RegexSearch {
  import opened RegexSyntax
  import opened RegexParser
  import opened RegexCode
  import opened RegexHints
  import opened RegexRun
  import opened RegexMachine

  /** The first start at or after `i` from which the pattern matches; |s| + 1 if there is none. */
  ghost function FirstStart(alts: seq<Branch>, s: seq<int>, i: nat): (st: nat)
    requires Searchable(alts) && i <= |s|
    ensures i <= st <= |s| + 1
    ensures forall j :: i <= j < st && j <= |s| ==> Results(alts, s, j) == []
    ensures st <= |s| ==> Results(alts, s, st) != []
    decreases |s| - i
  {
    if Results(alts, s, i) != [] then i
    else if i == |s| then |s| + 1
    else FirstStart(alts, s, i + 1)
  }

  /** Starts without results may be passed over. */
  lemma {:induction false} SkipStarts(alts: seq<Branch>, s: seq<int>, i: nat, k: nat)
    requires Searchable(alts) && i <= k <= |s| + 1
    requires forall j :: i <= j < k ==> j <= |s| ==> Results(alts, s, j) == []
    ensures i <= |s| && k <= |s| ==> FirstStart(alts, s, i) == FirstStart(alts, s, k)
    ensures i <= |s| && k == |s| + 1 ==> FirstStart(alts, s, i) == |s| + 1
    decreases k - i
  {
    if i < k && i < |s| {
      SkipStarts(alts, s, i + 1, k);
    }
  }

  // ----- What every match must contain -----

  lemma WholeDerives(alts: seq<Branch>, s: seq<int>, i: nat) returns (o: Out)
    requires Searchable(alts) && i <= |s| && Results(alts, s, i) != []
    ensures DerivesAlts(alts, s, i, o.end, o.marks)
  {
    o := Results(alts, s, i)[0];
    assert o in Results(alts, s, i);
    ResultsMean(alts, s, i, o);
  }

  lemma LoneDerives(alts: seq<Branch>, s: seq<int>, i: nat) returns (o: Out)
    requires Searchable(alts) && i <= |s| && Results(alts, s, i) != [] && |alts| == 1
    ensures DerivesPieces(alts[0].pieces, s, i, o.end, o.marks)
  {
    o := WholeDerives(alts, s, i);
  }

  lemma LiteralDerives(x: Piece, s: seq<int>, i: nat, j: nat, marks: seq<Mark>)
    requires IsPlainLiteral(x) && DerivesPiece(x, s, i, j, marks)
    ensures i + |x.atom.chars| <= |s| && s[i..i + |x.atom.chars|] == x.atom.chars
  {
    LeafElim(x, s, i, j, marks);
  }

  /** A pattern that starts with a literal matches only where its first character is. */
  lemma FirstCharSound(alts: seq<Branch>, s: seq<int>, i: nat)
    requires Searchable(alts) && i <= |s| && FirstChar(alts) != 0 && Results(alts, s, i) != []
    ensures i < |s| && s[i] == FirstChar(alts)
  {
    var o := LoneDerives(alts, s, i);
    var ps := alts[0].pieces;
    var m, a, b := ConsElim(ps, s, i, o.end, o.marks);
    LiteralDerives(ps[0], s, i, m, a);
    var chars := ps[0].atom.chars;
    assert s[i] == s[i..i + |chars|][0];
  }

  /** An anchored pattern matches only at the start. */
  lemma AnchorSound(alts: seq<Branch>, s: seq<int>, i: nat)
    requires Searchable(alts) && i <= |s| && IsAnchored(alts) && Results(alts, s, i) != []
    ensures i == 0
  {
    var o := LoneDerives(alts, s, i);
    var m, a, b := ConsElim(alts[0].pieces, s, i, o.end, o.marks);
    LeafElim(alts[0].pieces[0], s, i, m, a);
  }

  ghost predicate OccursAt(chars: seq<int>, s: seq<int>, p: nat) {
    p + |chars| <= |s| && s[p..p + |chars|] == chars
  }

  ghost predicate Occurs(chars: seq<int>, s: seq<int>) {
    exists p: nat :: OccursAt(chars, s, p)
  }

  /** Each plain literal of a run of pieces occurs in every input that the run matches. */
  lemma {:induction false} LiteralOccurs(ps: seq<Piece>, k: nat, s: seq<int>, i: nat, j: nat, marks: seq<Mark>)
    requires k < |ps| && IsPlainLiteral(ps[k]) && DerivesPieces(ps, s, i, j, marks)
    ensures Occurs(ps[k].atom.chars, s)
    decreases |ps|
  {
    var m, a, b := ConsElim(ps, s, i, j, marks);
    if k == 0 {
      LiteralDerives(ps[0], s, i, m, a);
      assert OccursAt(ps[0].atom.chars, s, i);
    } else {
      LiteralOccurs(ps[1..], k - 1, s, m, j, b);
    }
  }

  /** The must-appear string of a pattern. */
  function MustChars(alts: seq<Branch>): seq<int>
    requires Must(alts).0 != 0
  {
    alts[0].pieces[LongestLiteral(alts[0].pieces)].atom.chars
  }

  lemma MustSound(alts: seq<Branch>, s: seq<int>, i: nat)
    requires Searchable(alts) && i <= |s| && Must(alts).0 != 0 && Results(alts, s, i) != []
    ensures Occurs(MustChars(alts), s)
  {
    var o := LoneDerives(alts, s, i);
    LiteralOccurs(alts[0].pieces, LongestLiteral(alts[0].pieces), s, i, o.end, o.marks);
  }

  /** The must-appear string is in the program where the hint says. */
  lemma MustThere(prog: seq<int>, alts: seq<Branch>)
    requires WellFormedAlts(alts) && prog == CodeProgram(alts) && Must(alts).0 != 0
    ensures Has(prog, Must(alts).0, MustChars(alts)) && Must(alts).1 == |MustChars(alts)|
    ensures MustChars(alts) != [] && MustChars(alts)[0] != 0
  {
    var ps := alts[0].pieces;
    var k := LongestLiteral(ps);
    assert WellFormedPieces(ps);
    LiteralIsWellFormed(ps[k]);
    NodeAtPiece(prog, alts, k, PieceAt(ps, k), PieceAt(ps, k + 1));
    HasSplit(prog, PieceAt(ps, k) + 2, MustChars(alts), [0]);
  }

  /** Without the must-appear string no start matches. */
  lemma NoStart(alts: seq<Branch>, s: seq<int>)
    requires Searchable(alts) && Must(alts).0 != 0 && !Occurs(MustChars(alts), s)
    ensures FirstStart(alts, s, 0) == |s| + 1
  {
    var st := FirstStart(alts, s, 0);
    if st <= |s| {
      MustSound(alts, s, st);
    }
  }

  /** An anchored pattern is decided by the first start. */
  lemma OnlyStart(alts: seq<Branch>, s: seq<int>)
    requires Searchable(alts) && IsAnchored(alts)
    ensures FirstStart(alts, s, 0) == if Results(alts, s, 0) != [] then 0 else |s| + 1
  {
    var st := FirstStart(alts, s, 0);
    if st <= |s| {
      AnchorSound(alts, s, st);
    }
  }

  /** Starts without the first character may be passed over. */
  lemma SkipToChar(alts: seq<Branch>, s: seq<int>, i: nat, k: nat)
    requires Searchable(alts) && FirstChar(alts) != 0 && i <= k <= |s| + 1
    requires forall j :: i <= j < k && j < |s| ==> s[j] != FirstChar(alts)
    ensures i <= |s| && k <= |s| ==> FirstStart(alts, s, i) == FirstStart(alts, s, k)
    ensures i <= |s| && k == |s| + 1 ==> FirstStart(alts, s, i) == |s| + 1
  {
    forall j | i <= j < k && j <= |s| ensures Results(alts, s, j) == [] {
      if Results(alts, s, j) != [] {
        FirstCharSound(alts, s, j);
      }
    }
    SkipStarts(alts, s, i, k);
  }

  // ----- What a search decides -----

  /** A search succeeds exactly when some stretch of the input is in the language of the pattern, and the
      start it reports is the leftmost from which that is so. */
  lemma SearchMeans(alts: seq<Branch>, s: seq<int>)
    requires Searchable(alts)
    ensures var st := FirstStart(alts, s, 0);
      && (st <= |s| <==> exists i: nat, j: nat :: i <= |s| && Matches(alts, s, i, j))
      && (st <= |s| ==> exists j: nat :: Matches(alts, s, st, j))
      && (forall i: nat, j: nat :: i < st && i <= |s| ==> !Matches(alts, s, i, j))
  {
    var st := FirstStart(alts, s, 0);
    if st <= |s| {
      ResultsExist(alts, s, st);
      var j: nat :| Matches(alts, s, st, j);
    }
    forall i: nat, j: nat | i < st && i <= |s| ensures !Matches(alts, s, i, j) {
      ResultsExist(alts, s, i);
    }
  }

  /** The stand-in maximum of an unbounded repeat is felt only by runs that are longer than it. */
  lemma UnboundedRepeat(x: Piece, n: nat, s: seq<int>, i: nat, j: nat, marks: seq<Mark>)
    requires FitPiece(x) && x.count.Repeat? && x.count.max == MAX_REP_COUNT && i <= |s|
    requires x.count.min <= n && DerivesTimes(x.atom, n, s, i, j, marks)
    ensures DerivesPiece(x, s, i, j, marks) <==> j - i <= 1000000
  {
    TimesMeans(x.atom, n, s, i, j, marks);
    TakenMeans(x.atom, s, i, n, MAX_REP_COUNT);
    RepeatMeans(x, s, i, j, marks);
  }
}
