/** The backtracking search of regmatch on syntax trees: what is left to match is a continuation, and its
    outcomes are listed in the order in which the search finds them. */
module RegexRun {
  import opened RegexSyntax
  import opened RegexParser
  import opened RegexCode

  /** What is left to match. `distance` and the shape follow the compiled program: a run of pieces whose
      tail leads `distance` words past its end, the NOTHING node of an empty branch, a choice, the CLOSE
      node of a group, the END node. */
  datatype Cont =
    | Done
    | Close(no: int, k: Cont)
    | Pieces(ps: seq<Piece>, distance: nat, k: Cont)
    | Empty(k: Cont)
    | Choice(alts: seq<Branch>, k: Cont)

  /** A successful search: where it ends and the group marks on its way. */
  datatype Out = Out(end: nat, marks: seq<Mark>)

  function Rest(ps: seq<Piece>, d: nat, k: Cont): Cont {
    if ps == [] then k else Pieces(ps, d, k)
  }

  function Body(ps: seq<Piece>, d: nat, k: Cont): Cont {
    if ps == [] then Empty(k) else Pieces(ps, d, k)
  }

  function Weight(k: Cont): nat {
    match k
    case Done => 0
    case Close(_, k') => 1 + Weight(k')
    case Pieces(ps, _, k') => SizePieces(ps) + 1 + Weight(k')
    case Empty(k') => 1 + Weight(k')
    case Choice(alts, k') => SizeAlts(alts) + 1 + Weight(k')
  }

  // ----- Steps -----

  /** Where a match of a leaf at `i` ends, -1 if there is none. */
  function Step(a: Atom, s: seq<int>, i: nat): (j: int)
    requires !a.Group? && i <= |s|
    ensures j == -1 || i <= j <= |s|
  {
    match a
    case Bol => if i == 0 then i else -1
    case Eol => if i == |s| then i else -1
    case WordStart =>
      if !IsWordChar(CharAt(s, i)) || (i > 0 && IsWordChar(s[i - 1])) then -1 else i
    case WordEnd => if i > 0 && IsWordChar(s[i - 1]) then i else -1
    case Any => if i < |s| then i + 1 else -1
    case Class(negated, ranges) => if i < |s| && InClass(s[i], ranges) != negated then i + 1 else -1
    case Literal(chars) => if i + |chars| <= |s| && s[i..i + |chars|] == chars then i + |chars| else -1
  }

  lemma StepMeans(a: Atom, s: seq<int>, i: nat, j: nat)
    requires !a.Group? && i <= |s|
    ensures Step(a, s, i) == j <==> StepsTo(a, s, i, j)
  {
    if a.WordStart? && i == |s| {
      assert CharAt(s, i) == 0;
    }
  }

  /** How many characters from `i` on a simple atom takes, at most `max`. */
  function Taken(a: Atom, s: seq<int>, i: nat, max: int): (n: nat)
    requires IsSimple(a) && i <= |s|
    ensures i + n <= |s| && (n <= max || n == 0)
    decreases |s| - i
  {
    if i < |s| && 0 < max && Takes(a, s[i]) then 1 + Taken(a, s, i + 1, max - 1) else 0
  }

  // ----- Outcomes -----

  /** The restriction under which the search is the one regmatch performs. */
  ghost predicate Fit(k: Cont) {
    match k
    case Done => true
    case Close(no, k') => FitNo(no) && Fit(k')
    case Pieces(ps, _, k') => ps != [] && FitPieces(ps) && Fit(k')
    case Empty(k') => Fit(k')
    case Choice(alts, k') => alts != [] && FitAlts(alts) && Fit(k')
  }

  /** No reversed class item has neighbouring ends: such an item would be stored with length zero. */
  predicate SaneRanges(ranges: seq<Range>) {
    forall j :: 0 <= j < |ranges| ==> ranges[j].hi != ranges[j].lo - 1
  }

  /** The items of a class that a scan considers: those up to the first reversed one with neighbouring ends. */
  function Effective(ranges: seq<Range>): seq<Range> {
    if ranges == [] then []
    else if ranges[0].hi == ranges[0].lo - 1 then [ranges[0]]
    else [ranges[0]] + Effective(ranges[1..])
  }

  ghost predicate Covered(r: Range, ranges: seq<Range>) {
    forall c :: InRange(c, r) ==> InClass(c, ranges)
  }

  /** The items a scan does not consider add no character to those it considers. */
  ghost predicate NothingLost(ranges: seq<Range>) {
    forall k :: |Effective(ranges)| <= k < |ranges| ==> Covered(ranges[k], Effective(ranges))
  }

  /** Without reversed neighbours a scan considers all items. */
  lemma {:induction false} SaneIsEffective(ranges: seq<Range>)
    requires SaneRanges(ranges)
    ensures Effective(ranges) == ranges && NothingLost(ranges)
    decreases |ranges|
  {
    if ranges != [] {
      assert forall j :: 0 <= j < |ranges[1..]| ==> ranges[1..][j] == ranges[j + 1];
      SaneIsEffective(ranges[1..]);
    }
  }

  lemma {:induction false} EffectiveIsPrefix(ranges: seq<Range>)
    ensures |Effective(ranges)| <= |ranges| && forall k :: 0 <= k < |Effective(ranges)| ==> Effective(ranges)[k] == ranges[k]
    decreases |ranges|
  {
    if ranges != [] {
      EffectiveIsPrefix(ranges[1..]);
    }
  }

  /** The characters of the items that a scan considers are all characters of the class. */
  lemma NothingLostIs(ranges: seq<Range>, c: int)
    requires NothingLost(ranges)
    ensures InClass(c, Effective(ranges)) == InClass(c, ranges)
  {
    EffectiveIsPrefix(ranges);
    if InClass(c, ranges) {
      var k :| 0 <= k < |ranges| && InRange(c, ranges[k]);
      if k < |Effective(ranges)| {
        assert InRange(c, Effective(ranges)[k]);
      } else {
        assert Covered(ranges[k], Effective(ranges));
      }
    }
    if InClass(c, Effective(ranges)) {
      var k :| 0 <= k < |Effective(ranges)| && InRange(c, Effective(ranges)[k]);
      assert InRange(c, ranges[k]);
    }
  }

  /** The atom as the scan of its stored class takes it. */
  function Scanned(a: Atom): Atom {
    if a.Class? then Class(a.negated, Effective(a.ranges)) else a
  }

  lemma {:induction false} ScannedIsTaken(a: Atom, s: seq<int>, i: nat, max: int)
    requires IsSimple(a) && i <= |s| && (a.Class? ==> NothingLost(a.ranges))
    ensures Taken(Scanned(a), s, i, max) == Taken(a, s, i, max)
    decreases |s| - i
  {
    if i < |s| && 0 < max {
      if a.Class? {
        NothingLostIs(a.ranges, s[i]);
      }
      ScannedIsTaken(a, s, i + 1, max - 1);
    }
  }

  lemma InClassCons(c: int, r: Range, rest: seq<Range>)
    ensures InClass(c, [r] + rest) == (InRange(c, r) || InClass(c, rest))
  {
    var all := [r] + rest;
    assert all[0] == r && forall k :: 0 <= k < |rest| ==> all[k + 1] == rest[k];
    if InClass(c, rest) {
      var k :| 0 <= k < |rest| && InRange(c, rest[k]);
      assert InRange(c, all[k + 1]);
    }
    if InClass(c, all) && !InRange(c, r) {
      var k :| 0 <= k < |all| && InRange(c, all[k]);
      assert InRange(c, rest[k - 1]);
    }
  }

  predicate FitNo(no: int) {
    no == -1 || 0 < no < REG_MAX_PAREN
  }

  /** Well-formed, with no complex repeat, with counts that are not negative, with valid group numbers and with
      classes whose scan is right for every character. */
  ghost predicate FitAlts(alts: seq<Branch>) {
    forall j :: 0 <= j < |alts| ==> FitPieces(alts[j].pieces)
  }

  ghost predicate FitPieces(ps: seq<Piece>) {
    forall j :: 0 <= j < |ps| ==> FitPiece(ps[j])
  }

  ghost predicate FitPiece(p: Piece) {
    && WellFormedPiece(p)
    && (p.count.Repeat? ==> IsSimple(p.atom) && 0 <= p.count.min)
    && (p.atom.Group? ==> FitNo(p.atom.no) && p.atom.alts != [] && FitAlts(p.atom.alts))
    && (p.atom.Class? ==> NothingLost(p.atom.ranges))
  }

  function Prepend(m: Mark, outs: seq<Out>): (r: seq<Out>)
    ensures |r| == |outs|
  {
    seq(|outs|, i requires 0 <= i < |outs| => Out(outs[i].end, [m] + outs[i].marks))
  }

  lemma FitHead(ps: seq<Piece>, d: nat, k: Cont)
    requires Fit(Pieces(ps, d, k))
    ensures FitPiece(ps[0]) && Fit(Rest(ps[1..], d, k))
    ensures Weight(Rest(ps[1..], d, k)) + SizePiece(ps[0]) <= Weight(Pieces(ps, d, k))
  {
    assert SizePieces(ps) == SizePiece(ps[0]) + SizePieces(ps[1..]);
  }

  lemma FitChoice(alts: seq<Branch>, k: Cont, d: nat)
    requires Fit(Choice(alts, k))
    ensures Fit(Body(alts[0].pieces, d, k)) && Weight(Body(alts[0].pieces, d, k)) < Weight(Choice(alts, k))
    ensures |alts| > 1 ==> Fit(Choice(alts[1..], k)) && Weight(Choice(alts[1..], k)) < Weight(Choice(alts, k))
  {
    assert SizeAlts(alts) == 2 + SizeBody(alts[0].pieces) + SizeAlts(alts[1..]);
  }

  lemma FitGroup(x: Piece, rest: Cont)
    requires FitPiece(x) && x.count.Once? && x.atom.Group? && Fit(rest)
    ensures Fit(Choice(x.atom.alts, Close(x.atom.no, rest)))
    ensures Weight(Choice(x.atom.alts, Close(x.atom.no, rest))) < Weight(rest) + SizePiece(x)
  {
    assert SizePiece(x) == SizeAtom(x.atom) == 4 + SizeAlts(x.atom.alts);
  }

  /** The outcomes of matching `k` from `i` on, in the order of the search. */
  ghost function Outcomes(k: Cont, s: seq<int>, i: nat): seq<Out>
    requires Fit(k) && i <= |s|
    decreases Weight(k), 2, 0
  {
    match k
    case Done => [Out(i, [])]
    case Close(no, k') =>
      if no > 0 then Prepend(CloseMark(no, i), Outcomes(k', s, i)) else Outcomes(k', s, i)
    case Empty(k') => Outcomes(k', s, i)
    case Choice(alts, k') =>
      FitChoice(alts, k', SizeAlts(alts[1..]));
      Outcomes(Body(alts[0].pieces, SizeAlts(alts[1..]), k'), s, i)
      + if |alts| == 1 then [] else Outcomes(Choice(alts[1..], k'), s, i)
    case Pieces(ps, d, k') =>
      FitHead(ps, d, k');
      PieceOutcomes(ps[0], Rest(ps[1..], d, k'), s, i)
  }

  /** The outcomes of a piece and then `rest`. */
  ghost function PieceOutcomes(x: Piece, rest: Cont, s: seq<int>, i: nat): seq<Out>
    requires FitPiece(x) && Fit(rest) && i <= |s|
    decreases Weight(rest) + SizePiece(x), 1, 0
  {
    match x.count
    case Repeat(min, max, greedy) =>
      var n := Taken(x.atom, s, i, max);
      if n < min then []
      else if greedy then Down(rest, s, i, n, min)
      else Up(rest, s, i, min, n)
    case Once =>
      if x.atom.Group? then
        FitGroup(x, rest);
        var outs := Outcomes(Choice(x.atom.alts, Close(x.atom.no, rest)), s, i);
        if x.atom.no > 0 then Prepend(OpenMark(x.atom.no, i), outs) else outs
      else
        var j := Step(x.atom, s, i);
        if j == -1 then [] else Outcomes(rest, s, j)
  }

  /** The outcomes after `n`, then fewer, down to `min` characters. */
  ghost function Down(k: Cont, s: seq<int>, i: nat, n: nat, min: nat): seq<Out>
    requires Fit(k) && min <= n && i + n <= |s|
    decreases Weight(k), 3, n
  {
    Outcomes(k, s, i + n) + if n == min then [] else Down(k, s, i, n - 1, min)
  }

  /** The outcomes after `n`, then more, up to `max` characters. */
  ghost function Up(k: Cont, s: seq<int>, i: nat, n: nat, max: nat): seq<Out>
    requires Fit(k) && n <= max && i + max <= |s|
    decreases Weight(k), 3, max - n
  {
    Outcomes(k, s, i + n) + if n == max then [] else Up(k, s, i, n + 1, max)
  }

  // ----- The outcomes are the derivations -----

  /** The derivations of a continuation. */
  ghost predicate DerivesCont(k: Cont, s: seq<int>, i: nat, j: nat, marks: seq<Mark>) {
    match k
    case Done => i == j && marks == []
    case Close(no, k') =>
      if no > 0 then marks != [] && marks[0] == CloseMark(no, i) && DerivesCont(k', s, i, j, marks[1..])
      else DerivesCont(k', s, i, j, marks)
    case Empty(k') => DerivesCont(k', s, i, j, marks)
    case Pieces(ps, _, k') =>
      exists m: nat, cut: nat ::
        cut <= |marks| && DerivesPieces(ps, s, i, m, marks[..cut]) && DerivesCont(k', s, m, j, marks[cut..])
    case Choice(alts, k') =>
      exists m: nat, cut: nat ::
        cut <= |marks| && DerivesAlts(alts, s, i, m, marks[..cut]) && DerivesCont(k', s, m, j, marks[cut..])
  }

  lemma PiecesIntro(ps: seq<Piece>, d: nat, k: Cont, s: seq<int>, i: nat, m: nat, j: nat, a: seq<Mark>, b: seq<Mark>)
    requires DerivesPieces(ps, s, i, m, a) && DerivesCont(k, s, m, j, b)
    ensures DerivesCont(Pieces(ps, d, k), s, i, j, a + b)
  {
    assert (a + b)[..|a|] == a && (a + b)[|a|..] == b;
  }

  lemma PiecesElim(ps: seq<Piece>, d: nat, k: Cont, s: seq<int>, i: nat, j: nat, marks: seq<Mark>)
    returns (m: nat, a: seq<Mark>, b: seq<Mark>)
    requires DerivesCont(Pieces(ps, d, k), s, i, j, marks)
    ensures marks == a + b && DerivesPieces(ps, s, i, m, a) && DerivesCont(k, s, m, j, b)
  {
    var m': nat, cut: nat :|
      cut <= |marks| && DerivesPieces(ps, s, i, m', marks[..cut]) && DerivesCont(k, s, m', j, marks[cut..]);
    m, a, b := m', marks[..cut], marks[cut..];
  }

  lemma ConsIntro(x: Piece, ps: seq<Piece>, s: seq<int>, i: nat, m: nat, j: nat, a: seq<Mark>, b: seq<Mark>)
    requires DerivesPiece(x, s, i, m, a) && DerivesPieces(ps, s, m, j, b)
    ensures DerivesPieces([x] + ps, s, i, j, a + b)
  {
    assert ([x] + ps)[1..] == ps;
    assert (a + b)[..|a|] == a && (a + b)[|a|..] == b;
  }

  lemma ConsElim(ps: seq<Piece>, s: seq<int>, i: nat, j: nat, marks: seq<Mark>)
    returns (m: nat, a: seq<Mark>, b: seq<Mark>)
    requires ps != [] && DerivesPieces(ps, s, i, j, marks)
    ensures marks == a + b && DerivesPiece(ps[0], s, i, m, a) && DerivesPieces(ps[1..], s, m, j, b)
  {
    var m': nat, cut: nat :|
      cut <= |marks| && DerivesPiece(ps[0], s, i, m', marks[..cut]) && DerivesPieces(ps[1..], s, m', j, marks[cut..]);
    m, a, b := m', marks[..cut], marks[cut..];
  }

  /** A piece and what is left after it derive the run of pieces it starts. */
  lemma HeadIntro(ps: seq<Piece>, d: nat, k: Cont, s: seq<int>, i: nat, m: nat, j: nat, a: seq<Mark>, b: seq<Mark>)
    requires ps != [] && DerivesPiece(ps[0], s, i, m, a) && DerivesCont(Rest(ps[1..], d, k), s, m, j, b)
    ensures DerivesCont(Pieces(ps, d, k), s, i, j, a + b)
  {
    assert ps == [ps[0]] + ps[1..];
    if ps[1..] == [] {
      assert DerivesPieces([], s, m, m, []);
      ConsIntro(ps[0], [], s, i, m, m, a, []);
      assert a + [] == a;
      PiecesIntro(ps, d, k, s, i, m, j, a, b);
    } else {
      var n, c, e := PiecesElim(ps[1..], d, k, s, m, j, b);
      ConsIntro(ps[0], ps[1..], s, i, m, n, a, c);
      PiecesIntro(ps, d, k, s, i, n, j, a + c, e);
      assert a + c + e == a + b;
    }
  }

  lemma HeadElim(ps: seq<Piece>, d: nat, k: Cont, s: seq<int>, i: nat, j: nat, marks: seq<Mark>)
    returns (m: nat, a: seq<Mark>, b: seq<Mark>)
    requires ps != [] && DerivesCont(Pieces(ps, d, k), s, i, j, marks)
    ensures marks == a + b && DerivesPiece(ps[0], s, i, m, a) && DerivesCont(Rest(ps[1..], d, k), s, m, j, b)
  {
    var n, c, e := PiecesElim(ps, d, k, s, i, j, marks);
    var f;
    m, a, f := ConsElim(ps, s, i, n, c);
    b := f + e;
    assert marks == a + b;
    if ps[1..] == [] {
      assert b == e;
    } else {
      PiecesIntro(ps[1..], d, k, s, m, n, j, f, e);
    }
  }

  lemma ChoiceFirst(alts: seq<Branch>, d: nat, k: Cont, s: seq<int>, i: nat, j: nat, marks: seq<Mark>)
    requires alts != [] && DerivesCont(Body(alts[0].pieces, d, k), s, i, j, marks)
    ensures DerivesCont(Choice(alts, k), s, i, j, marks)
  {
    if alts[0].pieces == [] {
      assert DerivesPieces(alts[0].pieces, s, i, i, marks[..0]) && marks[0..] == marks;
    } else {
      var m, a, b := PiecesElim(alts[0].pieces, d, k, s, i, j, marks);
      assert marks[..|a|] == a && marks[|a|..] == b;
      assert DerivesAlts(alts, s, i, m, marks[..|a|]);
    }
  }

  lemma ChoiceLater(alts: seq<Branch>, k: Cont, s: seq<int>, i: nat, j: nat, marks: seq<Mark>)
    requires alts != [] && DerivesCont(Choice(alts[1..], k), s, i, j, marks)
    ensures DerivesCont(Choice(alts, k), s, i, j, marks)
  {
    var m: nat, cut: nat :|
      cut <= |marks| && DerivesAlts(alts[1..], s, i, m, marks[..cut]) && DerivesCont(k, s, m, j, marks[cut..]);
    var n :| 0 <= n < |alts[1..]| && DerivesPieces(alts[1..][n].pieces, s, i, m, marks[..cut]);
    assert alts[n + 1] == alts[1..][n];
    assert DerivesAlts(alts, s, i, m, marks[..cut]);
  }

  lemma ChoiceParts(alts: seq<Branch>, k: Cont, s: seq<int>, i: nat, j: nat, marks: seq<Mark>)
    returns (m: nat, a: seq<Mark>, b: seq<Mark>)
    requires DerivesCont(Choice(alts, k), s, i, j, marks)
    ensures marks == a + b && DerivesAlts(alts, s, i, m, a) && DerivesCont(k, s, m, j, b)
  {
    var end: nat, cut: nat :|
      cut <= |marks| && DerivesAlts(alts, s, i, end, marks[..cut]) && DerivesCont(k, s, end, j, marks[cut..]);
    m, a, b := end, marks[..cut], marks[cut..];
  }

  lemma ChoiceElim(alts: seq<Branch>, d: nat, k: Cont, s: seq<int>, i: nat, j: nat, marks: seq<Mark>)
    requires alts != [] && DerivesCont(Choice(alts, k), s, i, j, marks)
    ensures DerivesCont(Body(alts[0].pieces, d, k), s, i, j, marks)
         || (|alts| > 1 && DerivesCont(Choice(alts[1..], k), s, i, j, marks))
  {
    var m, a, b := ChoiceParts(alts, k, s, i, j, marks);
    var n :| 0 <= n < |alts| && DerivesPieces(alts[n].pieces, s, i, m, a);
    if n > 0 {
      assert alts[1..][n - 1] == alts[n];
      ChoiceIntro(alts[1..], k, s, i, m, j, a, b);
    } else if alts[0].pieces == [] {
      assert [] + b == b;
    } else {
      PiecesIntro(alts[0].pieces, d, k, s, i, m, j, a, b);
    }
  }

  // ----- Taking derivations of a piece apart -----

  lemma LeafElim(x: Piece, s: seq<int>, i: nat, j: nat, marks: seq<Mark>)
    requires x.count.Once? && !x.atom.Group? && DerivesPiece(x, s, i, j, marks)
    ensures StepsTo(x.atom, s, i, j) && marks == []
  {
    assert DerivesAtom(x.atom, s, i, j, marks);
  }

  lemma GroupAtomElim(x: Piece, s: seq<int>, i: nat, j: nat, marks: seq<Mark>)
    requires x.count.Once? && x.atom.Group? && DerivesPiece(x, s, i, j, marks)
    ensures x.atom.no <= 0 ==> DerivesAlts(x.atom.alts, s, i, j, marks)
    ensures x.atom.no > 0 ==>
      && |marks| >= 2 && marks[0] == OpenMark(x.atom.no, i) && marks[|marks| - 1] == CloseMark(x.atom.no, j)
      && DerivesAlts(x.atom.alts, s, i, j, marks[1..|marks| - 1])
  {
    assert DerivesAtom(x.atom, s, i, j, marks);
  }

  lemma RepeatElim(x: Piece, s: seq<int>, i: nat, j: nat, marks: seq<Mark>) returns (n: nat)
    requires x.count.Repeat? && DerivesPiece(x, s, i, j, marks)
    ensures x.count.min <= n <= x.count.max && DerivesTimes(x.atom, n, s, i, j, marks)
  {
    n :| x.count.min <= n <= x.count.max && DerivesTimes(x.atom, n, s, i, j, marks);
  }

  lemma TimesElim(a: Atom, n: nat, s: seq<int>, i: nat, j: nat, marks: seq<Mark>) returns (m: nat, cut: nat)
    requires n > 0 && DerivesTimes(a, n, s, i, j, marks)
    ensures cut <= |marks| && DerivesAtom(a, s, i, m, marks[..cut]) && DerivesTimes(a, n - 1, s, m, j, marks[cut..])
  {
    m, cut :| cut <= |marks| && DerivesAtom(a, s, i, m, marks[..cut]) && DerivesTimes(a, n - 1, s, m, j, marks[cut..]);
  }

  // ----- Simple repeats -----

  ghost predicate AllTaken(a: Atom, s: seq<int>, i: nat, n: nat)
    requires IsSimple(a)
  {
    i + n <= |s| && forall t :: i <= t < i + n ==> Takes(a, s[t])
  }

  lemma {:induction false} TakenMeans(a: Atom, s: seq<int>, i: nat, n: nat, max: nat)
    requires IsSimple(a) && i <= |s|
    ensures n <= Taken(a, s, i, max) <==> n <= max && AllTaken(a, s, i, n)
    decreases n
  {
    if n > 0 && i < |s| && max > 0 {
      if Takes(a, s[i]) {
        TakenMeans(a, s, i + 1, n - 1, max - 1);
      }
    }
  }

  lemma SimpleStep(a: Atom, s: seq<int>, i: nat, j: nat, marks: seq<Mark>)
    requires IsSimple(a)
    ensures DerivesAtom(a, s, i, j, marks) <==> j == i + 1 && marks == [] && AllTaken(a, s, i, 1)
  {
    if a.Literal? {
      assert i < |s| ==> (s[i..i + 1] == a.chars <==> s[i] == a.chars[0]);
    }
  }

  lemma {:induction false} TimesMeans(a: Atom, n: nat, s: seq<int>, i: nat, j: nat, marks: seq<Mark>)
    requires IsSimple(a) && i <= |s|
    ensures DerivesTimes(a, n, s, i, j, marks) <==> j == i + n && marks == [] && AllTaken(a, s, i, n)
    decreases n
  {
    if n > 0 {
      if DerivesTimes(a, n, s, i, j, marks) {
        var m, cut := TimesElim(a, n, s, i, j, marks);
        SimpleStep(a, s, i, m, marks[..cut]);
        TimesMeans(a, n - 1, s, m, j, marks[cut..]);
      } else if j == i + n && marks == [] && AllTaken(a, s, i, n) {
        SimpleStep(a, s, i, i + 1, marks[..0]);
        TimesMeans(a, n - 1, s, i + 1, j, marks[0..]);
      }
    }
  }

  /** A simple repeat derives a run of characters whose length is in its bounds. */
  lemma RepeatMeans(x: Piece, s: seq<int>, i: nat, j: nat, marks: seq<Mark>)
    requires FitPiece(x) && x.count.Repeat? && i <= |s|
    ensures DerivesPiece(x, s, i, j, marks) <==>
      marks == [] && i + x.count.min <= j <= i + Taken(x.atom, s, i, x.count.max)
  {
    var min, max := x.count.min, x.count.max;
    if DerivesPiece(x, s, i, j, marks) {
      var n := RepeatElim(x, s, i, j, marks);
      TimesMeans(x.atom, n, s, i, j, marks);
      TakenMeans(x.atom, s, i, n, max);
    }
    if marks == [] && i + min <= j <= i + Taken(x.atom, s, i, max) {
      TakenMeans(x.atom, s, i, j - i, max);
      TimesMeans(x.atom, j - i, s, i, j, marks);
    }
  }

  // ----- Soundness and completeness -----

  lemma PrependMeans(m: Mark, outs: seq<Out>, o: Out)
    ensures o in Prepend(m, outs) <==> o.marks != [] && o.marks[0] == m && Out(o.end, o.marks[1..]) in outs
  {
    var r := Prepend(m, outs);
    if o in r {
      var n :| 0 <= n < |r| && r[n] == o;
      assert o.marks[1..] == outs[n].marks;
    }
    if o.marks != [] && o.marks[0] == m && Out(o.end, o.marks[1..]) in outs {
      var n :| 0 <= n < |outs| && outs[n] == Out(o.end, o.marks[1..]);
      assert [m] + o.marks[1..] == o.marks;
      assert r[n] == o;
    }
  }

  /** A derivation of the piece and then of the rest. */
  ghost predicate Follows(x: Piece, rest: Cont, s: seq<int>, i: nat, j: nat, marks: seq<Mark>) {
    exists m: nat, cut: nat ::
      cut <= |marks| && DerivesPiece(x, s, i, m, marks[..cut]) && DerivesCont(rest, s, m, j, marks[cut..])
  }

  lemma FollowsIntro(x: Piece, rest: Cont, s: seq<int>, i: nat, m: nat, j: nat, a: seq<Mark>, b: seq<Mark>)
    requires DerivesPiece(x, s, i, m, a) && DerivesCont(rest, s, m, j, b)
    ensures Follows(x, rest, s, i, j, a + b)
  {
    assert (a + b)[..|a|] == a && (a + b)[|a|..] == b;
  }

  /** The outcomes of a continuation are exactly its derivations. */
  lemma {:induction false} OutcomesMean(k: Cont, s: seq<int>, i: nat, o: Out)
    requires Fit(k) && i <= |s|
    ensures o in Outcomes(k, s, i) <==> DerivesCont(k, s, i, o.end, o.marks)
    decreases Weight(k), 2, 0
  {
    match k {
      case Done =>
      case Empty(k') => OutcomesMean(k', s, i, o);
      case Close(no, k') =>
        PrependMeans(CloseMark(no, i), Outcomes(k', s, i), o);
        OutcomesMean(k', s, i, o);
        if o.marks != [] {
          OutcomesMean(k', s, i, Out(o.end, o.marks[1..]));
        }
      case Choice(alts, k') => ChoiceMeans(alts, k', s, i, o);
      case Pieces(ps, d, k') =>
        FitHead(ps, d, k');
        PieceMeans(ps[0], Rest(ps[1..], d, k'), s, i, o);
        HeadMeans(ps, d, k', s, i, o.end, o.marks);
    }
  }

  lemma HeadMeans(ps: seq<Piece>, d: nat, k: Cont, s: seq<int>, i: nat, j: nat, marks: seq<Mark>)
    requires ps != []
    ensures Follows(ps[0], Rest(ps[1..], d, k), s, i, j, marks) <==> DerivesCont(Pieces(ps, d, k), s, i, j, marks)
  {
    var rest := Rest(ps[1..], d, k);
    if Follows(ps[0], rest, s, i, j, marks) {
      var m: nat, cut: nat :|
        cut <= |marks| && DerivesPiece(ps[0], s, i, m, marks[..cut]) && DerivesCont(rest, s, m, j, marks[cut..]);
      HeadIntro(ps, d, k, s, i, m, j, marks[..cut], marks[cut..]);
      assert marks[..cut] + marks[cut..] == marks;
    }
    if DerivesCont(Pieces(ps, d, k), s, i, j, marks) {
      var m, a, b := HeadElim(ps, d, k, s, i, j, marks);
      FollowsIntro(ps[0], rest, s, i, m, j, a, b);
    }
  }

  lemma {:induction false} ChoiceMeans(alts: seq<Branch>, k: Cont, s: seq<int>, i: nat, o: Out)
    requires Fit(Choice(alts, k)) && i <= |s|
    ensures o in Outcomes(Choice(alts, k), s, i) <==> DerivesCont(Choice(alts, k), s, i, o.end, o.marks)
    decreases Weight(Choice(alts, k)), 1, 0
  {
    var d := SizeAlts(alts[1..]);
    FitChoice(alts, k, d);
    OutcomesMean(Body(alts[0].pieces, d, k), s, i, o);
    if |alts| > 1 {
      OutcomesMean(Choice(alts[1..], k), s, i, o);
      if DerivesCont(Choice(alts[1..], k), s, i, o.end, o.marks) {
        ChoiceLater(alts, k, s, i, o.end, o.marks);
      }
    }
    if DerivesCont(Body(alts[0].pieces, d, k), s, i, o.end, o.marks) {
      ChoiceFirst(alts, d, k, s, i, o.end, o.marks);
    }
    if DerivesCont(Choice(alts, k), s, i, o.end, o.marks) {
      ChoiceElim(alts, d, k, s, i, o.end, o.marks);
    }
  }

  lemma {:induction false} PieceMeans(x: Piece, rest: Cont, s: seq<int>, i: nat, o: Out)
    requires FitPiece(x) && Fit(rest) && i <= |s|
    ensures o in PieceOutcomes(x, rest, s, i) <==> Follows(x, rest, s, i, o.end, o.marks)
    decreases Weight(rest) + SizePiece(x), 1, 0
  {
    if x.count.Repeat? {
      RepeatFollows(x, rest, s, i, o);
    } else if x.atom.Group? {
      GroupFollows(x, rest, s, i, o);
    } else {
      LeafFollows(x, rest, s, i, o);
    }
  }

  lemma LeafFollows(x: Piece, rest: Cont, s: seq<int>, i: nat, o: Out)
    requires FitPiece(x) && x.count.Once? && !x.atom.Group? && Fit(rest) && i <= |s|
    ensures o in PieceOutcomes(x, rest, s, i) <==> Follows(x, rest, s, i, o.end, o.marks)
    decreases Weight(rest) + SizePiece(x), 0, 0
  {
    var j := Step(x.atom, s, i);
    if j != -1 {
      StepMeans(x.atom, s, i, j);
      OutcomesMean(rest, s, j, o);
      if DerivesCont(rest, s, j, o.end, o.marks) {
        assert DerivesPiece(x, s, i, j, []);
        FollowsIntro(x, rest, s, i, j, o.end, [], o.marks);
        assert [] + o.marks == o.marks;
      }
    }
    if Follows(x, rest, s, i, o.end, o.marks) {
      var m: nat, cut: nat :|
        cut <= |o.marks| && DerivesPiece(x, s, i, m, o.marks[..cut]) && DerivesCont(rest, s, m, o.end, o.marks[cut..]);
      LeafElim(x, s, i, m, o.marks[..cut]);
      assert o.marks[cut..] == o.marks;
      StepMeans(x.atom, s, i, m);
    }
  }

  /** What is left can be derived from some position between the two. */
  ghost predicate FromSome(k: Cont, s: seq<int>, lo: nat, hi: nat, j: nat, marks: seq<Mark>) {
    exists m: nat :: lo <= m <= hi && DerivesCont(k, s, m, j, marks)
  }

  lemma FromSomeOne(k: Cont, s: seq<int>, p: nat, j: nat, marks: seq<Mark>)
    ensures FromSome(k, s, p, p, j, marks) <==> DerivesCont(k, s, p, j, marks)
  {
  }

  lemma FromSomeBelow(k: Cont, s: seq<int>, lo: nat, hi: nat, j: nat, marks: seq<Mark>)
    requires lo < hi
    ensures FromSome(k, s, lo, hi, j, marks) <==> DerivesCont(k, s, hi, j, marks) || FromSome(k, s, lo, hi - 1, j, marks)
  {
  }

  lemma FromSomeAbove(k: Cont, s: seq<int>, lo: nat, hi: nat, j: nat, marks: seq<Mark>)
    requires lo < hi
    ensures FromSome(k, s, lo, hi, j, marks) <==> DerivesCont(k, s, lo, j, marks) || FromSome(k, s, lo + 1, hi, j, marks)
  {
  }

  lemma DownHas(k: Cont, s: seq<int>, i: nat, n: nat, min: nat, p: nat, o: Out)
    requires Fit(k) && min <= n && p == i + n <= |s|
    ensures o in Down(k, s, i, n, min) <==> o in Outcomes(k, s, p) || (n > min && o in Down(k, s, i, n - 1, min))
  {
    var rest := if n == min then [] else Down(k, s, i, n - 1, min);
    assert Down(k, s, i, n, min) == Outcomes(k, s, p) + rest;
    InJoin(Outcomes(k, s, p), rest, o);
  }

  lemma UpHas(k: Cont, s: seq<int>, i: nat, n: nat, max: nat, p: nat, o: Out)
    requires Fit(k) && n <= max && i + max <= |s| && p == i + n
    ensures o in Up(k, s, i, n, max) <==> o in Outcomes(k, s, p) || (n < max && o in Up(k, s, i, n + 1, max))
  {
    var rest := if n == max then [] else Up(k, s, i, n + 1, max);
    assert Up(k, s, i, n, max) == Outcomes(k, s, p) + rest;
    InJoin(Outcomes(k, s, p), rest, o);
  }

  lemma InJoin<T>(a: seq<T>, b: seq<T>, x: T)
    ensures x in a + b <==> x in a || x in b
  {
  }

  lemma {:induction false} DownMeans(k: Cont, s: seq<int>, i: nat, n: nat, min: nat, lo: nat, hi: nat, o: Out)
    requires Fit(k) && min <= n && lo == i + min && hi == i + n <= |s|
    ensures o in Down(k, s, i, n, min) <==> FromSome(k, s, lo, hi, o.end, o.marks)
    decreases Weight(k), 3, n
  {
    OutcomesMean(k, s, hi, o);
    DownHas(k, s, i, n, min, hi, o);
    if n > min {
      DownMeans(k, s, i, n - 1, min, lo, hi - 1, o);
      FromSomeBelow(k, s, lo, hi, o.end, o.marks);
    } else {
      FromSomeOne(k, s, lo, o.end, o.marks);
    }
  }

  lemma {:induction false} UpMeans(k: Cont, s: seq<int>, i: nat, n: nat, max: nat, lo: nat, hi: nat, o: Out)
    requires Fit(k) && n <= max && lo == i + n && hi == i + max <= |s|
    ensures o in Up(k, s, i, n, max) <==> FromSome(k, s, lo, hi, o.end, o.marks)
    decreases Weight(k), 3, max - n
  {
    OutcomesMean(k, s, lo, o);
    UpHas(k, s, i, n, max, lo, o);
    if n < max {
      UpMeans(k, s, i, n + 1, max, lo + 1, hi, o);
      FromSomeAbove(k, s, lo, hi, o.end, o.marks);
    } else {
      FromSomeOne(k, s, lo, o.end, o.marks);
    }
  }

  lemma RepeatFollows(x: Piece, rest: Cont, s: seq<int>, i: nat, o: Out)
    requires FitPiece(x) && x.count.Repeat? && Fit(rest) && i <= |s|
    ensures o in PieceOutcomes(x, rest, s, i) <==> Follows(x, rest, s, i, o.end, o.marks)
    decreases Weight(rest) + SizePiece(x), 0, 0
  {
    var min, n := x.count.min, Taken(x.atom, s, i, x.count.max);
    if min <= n {
      if x.count.greedy {
        DownMeans(rest, s, i, n, min, i + min, i + n, o);
      } else {
        UpMeans(rest, s, i, min, n, i + min, i + n, o);
      }
      if FromSome(rest, s, i + min, i + n, o.end, o.marks) {
        var m: nat :| i + min <= m <= i + n && DerivesCont(rest, s, m, o.end, o.marks);
        RepeatMeans(x, s, i, m, []);
        FollowsIntro(x, rest, s, i, m, o.end, [], o.marks);
        assert [] + o.marks == o.marks;
      }
    }
    if Follows(x, rest, s, i, o.end, o.marks) {
      var m: nat, cut: nat :|
        cut <= |o.marks| && DerivesPiece(x, s, i, m, o.marks[..cut]) && DerivesCont(rest, s, m, o.end, o.marks[cut..]);
      RepeatMeans(x, s, i, m, o.marks[..cut]);
      assert o.marks[cut..] == o.marks;
    }
  }

  /** A group's marks around those of its content. */
  lemma GroupIntro(x: Piece, rest: Cont, s: seq<int>, i: nat, j: nat, marks: seq<Mark>)
    requires x.count.Once? && x.atom.Group?
    requires DerivesCont(Choice(x.atom.alts, Close(x.atom.no, rest)), s, i, j, marks)
    ensures Follows(x, rest, s, i, j, if x.atom.no > 0 then [OpenMark(x.atom.no, i)] + marks else marks)
  {
    var no, alts := x.atom.no, x.atom.alts;
    var m: nat, cut: nat :| cut <= |marks| && DerivesAlts(alts, s, i, m, marks[..cut])
      && DerivesCont(Close(no, rest), s, m, j, marks[cut..]);
    var a, c := marks[..cut], marks[cut..];
    assert marks == a + c;
    if no > 0 {
      GroupInner(x.atom, s, i, m, a);
      FollowsIntro(x, rest, s, i, m, j, [OpenMark(no, i)] + a + [CloseMark(no, m)], c[1..]);
      MarksAround(OpenMark(no, i), a, CloseMark(no, m), c);
    } else {
      FollowsIntro(x, rest, s, i, m, j, a, c);
    }
  }

  lemma GroupInner(a: Atom, s: seq<int>, i: nat, m: nat, marks: seq<Mark>)
    requires a.Group? && a.no > 0 && DerivesAlts(a.alts, s, i, m, marks)
    ensures DerivesAtom(a, s, i, m, [OpenMark(a.no, i)] + marks + [CloseMark(a.no, m)])
  {
    var inner := [OpenMark(a.no, i)] + marks + [CloseMark(a.no, m)];
    assert inner[1..|inner| - 1] == marks;
  }

  lemma MarksAround(o: Mark, a: seq<Mark>, e: Mark, c: seq<Mark>)
    requires c != [] && c[0] == e
    ensures [o] + a + [e] + c[1..] == [o] + (a + c)
  {
  }

  lemma ChoiceIntro(alts: seq<Branch>, k: Cont, s: seq<int>, i: nat, m: nat, j: nat, a: seq<Mark>, b: seq<Mark>)
    requires DerivesAlts(alts, s, i, m, a) && DerivesCont(k, s, m, j, b)
    ensures DerivesCont(Choice(alts, k), s, i, j, a + b)
  {
    assert (a + b)[..|a|] == a && (a + b)[|a|..] == b;
  }

  lemma GroupElim(x: Piece, rest: Cont, s: seq<int>, i: nat, j: nat, marks: seq<Mark>)
    requires x.count.Once? && x.atom.Group? && Follows(x, rest, s, i, j, marks)
    ensures x.atom.no > 0 ==> marks != [] && marks[0] == OpenMark(x.atom.no, i)
    ensures DerivesCont(Choice(x.atom.alts, Close(x.atom.no, rest)), s, i, j, if x.atom.no > 0 then marks[1..] else marks)
  {
    var no, alts := x.atom.no, x.atom.alts;
    var m: nat, cut: nat :|
      cut <= |marks| && DerivesPiece(x, s, i, m, marks[..cut]) && DerivesCont(rest, s, m, j, marks[cut..]);
    var inner, c := marks[..cut], marks[cut..];
    GroupAtomElim(x, s, i, m, inner);
    if no > 0 {
      var a := inner[1..cut - 1];
      var after := [CloseMark(no, m)] + c;
      assert after[1..] == c && DerivesCont(Close(no, rest), s, m, j, after);
      ChoiceIntro(alts, Close(no, rest), s, i, m, j, a, after);
      WithoutFirst(marks, inner, c);
    } else {
      assert DerivesCont(Close(no, rest), s, m, j, c);
      ChoiceIntro(alts, Close(no, rest), s, i, m, j, inner, c);
      assert marks == inner + c;
    }
  }

  lemma WithoutFirst(marks: seq<Mark>, inner: seq<Mark>, c: seq<Mark>)
    requires |inner| >= 2 && |inner| <= |marks| && inner == marks[..|inner|] && c == marks[|inner|..]
    ensures marks[1..] == inner[1..|inner| - 1] + ([inner[|inner| - 1]] + c)
  {
  }

  lemma GroupFollows(x: Piece, rest: Cont, s: seq<int>, i: nat, o: Out)
    requires FitPiece(x) && x.count.Once? && x.atom.Group? && Fit(rest) && i <= |s|
    ensures o in PieceOutcomes(x, rest, s, i) <==> Follows(x, rest, s, i, o.end, o.marks)
    decreases Weight(rest) + SizePiece(x), 0, 0
  {
    var no := x.atom.no;
    var k := Choice(x.atom.alts, Close(no, rest));
    FitGroup(x, rest);
    PrependMeans(OpenMark(no, i), Outcomes(k, s, i), o);
    if no <= 0 {
      OutcomesMean(k, s, i, o);
    } else if o.marks != [] {
      OutcomesMean(k, s, i, Out(o.end, o.marks[1..]));
    }
    var inner := if no > 0 && o.marks != [] then o.marks[1..] else o.marks;
    if DerivesCont(k, s, i, o.end, inner) {
      GroupIntro(x, rest, s, i, o.end, inner);
      assert no > 0 && o.marks != [] ==> [o.marks[0]] + inner == o.marks;
    }
    if Follows(x, rest, s, i, o.end, o.marks) {
      GroupElim(x, rest, s, i, o.end, o.marks);
    }
  }
}
