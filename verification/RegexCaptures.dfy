/** The capture slots of a successful search: each is unset or the span that its group matched, inside the
    span of the group around it. Group numbers are those the parser gives out, in the order of opening. */
module RegexCaptures {
  import opened RegexSyntax
  import opened RegexParser
  import opened RegexCode
  import opened RegexRun
  import opened RegexMachine

  // ----- Group numbers -----

  function CountAtom(a: Atom): nat {
    match a
    case Group(no, alts) => (if no == -1 then 0 else 1) + CountAlts(alts)
    case _ => 0
  }

  function CountPieces(ps: seq<Piece>): nat
    decreases ps, 0
  {
    if ps == [] then 0 else CountPiece(ps[0]) + CountPieces(ps[1..])
  }

  function CountPiece(p: Piece): nat {
    CountAtom(p.atom)
  }

  function CountAlts(alts: seq<Branch>): nat {
    if alts == [] then 0 else CountPieces(alts[0].pieces) + CountAlts(alts[1..])
  }

  /** The capturing groups are numbered from n + 1 on in the order of their opening parentheses. */
  ghost predicate NumberedAtom(a: Atom, n: nat) {
    match a
    case Group(no, alts) => if no == -1 then NumberedAlts(alts, n) else no == n + 1 && NumberedAlts(alts, n + 1)
    case _ => true
  }

  ghost predicate NumberedPiece(p: Piece, n: nat) {
    NumberedAtom(p.atom, n)
  }

  ghost predicate NumberedPieces(ps: seq<Piece>, n: nat) {
    ps == [] || (NumberedPiece(ps[0], n) && NumberedPieces(ps[1..], n + CountPiece(ps[0])))
  }

  ghost predicate NumberedAlts(alts: seq<Branch>, n: nat) {
    alts == [] || (NumberedPieces(alts[0].pieces, n) && NumberedAlts(alts[1..], n + CountPieces(alts[0].pieces)))
  }

  lemma {:induction false} NumberedPiecesSnoc(ps: seq<Piece>, p: Piece, n: nat)
    requires NumberedPieces(ps, n) && NumberedPiece(p, n + CountPieces(ps))
    ensures NumberedPieces(ps + [p], n) && CountPieces(ps + [p]) == CountPieces(ps) + CountPiece(p)
    decreases |ps|
  {
    if ps == [] {
      assert ([] + [p])[1..] == [];
    } else {
      assert (ps + [p])[1..] == ps[1..] + [p];
      NumberedPiecesSnoc(ps[1..], p, n + CountPiece(ps[0]));
    }
  }

  lemma {:induction false} NumberedAltsSnoc(alts: seq<Branch>, b: Branch, n: nat)
    requires NumberedAlts(alts, n) && NumberedPieces(b.pieces, n + CountAlts(alts))
    ensures NumberedAlts(alts + [b], n) && CountAlts(alts + [b]) == CountAlts(alts) + CountPieces(b.pieces)
    decreases |alts|
  {
    if alts == [] {
      assert ([] + [b])[1..] == [];
    } else {
      assert (alts + [b])[1..] == alts[1..] + [b];
      NumberedAltsSnoc(alts[1..], b, n + CountPieces(alts[0].pieces));
    }
  }

  lemma {:induction false} PiecesNumbered(s: seq<int>, i: nat, nsub: nat, acc: seq<Piece>, n: nat)
    requires i <= |s| && IsCString(s) && WellFormedPieces(acc)
    requires NumberedPieces(acc, n) && nsub == n + CountPieces(acc)
    ensures var r := ParsePieces(s, i, nsub, acc);
      r.Ok? ==> NumberedPieces(r.value, n) && r.nsub == n + CountPieces(r.value)
    decreases |s| - i, 2
  {
    var c := CharAt(s, i);
    if c != 0 && c != RPAREN && c != BAR {
      PieceNumbered(s, i, nsub);
      var r := ParsePiece(s, i, nsub);
      if r.Ok? {
        NumberedPiecesSnoc(acc, r.value, n);
        PiecesNumbered(s, r.pos, r.nsub, acc + [r.value], n);
      }
    }
  }

  lemma PieceNumbered(s: seq<int>, i: nat, nsub: nat)
    requires i <= |s| && IsCString(s)
    ensures var r := ParsePiece(s, i, nsub); r.Ok? ==> NumberedPiece(r.value, nsub) && r.nsub == nsub + CountPiece(r.value)
    decreases |s| - i, 1
  {
    if CharAt(s, i) == LPAREN {
      GroupNumbered(s, i + 1, nsub);
      assert ParseAtom(s, i, nsub) == ParseGroup(s, i + 1, nsub);
    }
  }

  lemma GroupNumbered(s: seq<int>, i: nat, nsub: nat)
    requires i <= |s| && IsCString(s)
    ensures var r := ParseGroup(s, i, nsub); r.Ok? ==> NumberedAtom(r.value, nsub) && r.nsub == nsub + CountAtom(r.value)
    decreases |s| - i, 4
  {
    var quiet := CharAt(s, i) == QUESTION && CharAt(s, i + 1) == COLON;
    var n := if quiet then nsub else nsub + 1;
    AltsNumbered(s, if quiet then i + 2 else i, n, [], n);
  }

  lemma {:induction false} AltsNumbered(s: seq<int>, i: nat, nsub: nat, acc: seq<Branch>, n: nat)
    requires i <= |s| && IsCString(s) && (acc == [] || WellFormedAlts(acc))
    requires NumberedAlts(acc, n) && nsub == n + CountAlts(acc)
    ensures var r := ParseAlts(s, i, nsub, acc); r.Ok? ==> NumberedAlts(r.value, n) && r.nsub == n + CountAlts(r.value)
    decreases |s| - i, 3
  {
    PiecesNumbered(s, i, nsub, [], nsub);
    var r := ParsePieces(s, i, nsub, []);
    if r.Ok? {
      NumberedAltsSnoc(acc, Branch(r.value), n);
      if CharAt(s, r.pos) == BAR {
        AltsNumbered(s, r.pos + 1, r.nsub, acc + [Branch(r.value)], n);
      }
    }
  }

  /** The capturing groups of a parsed pattern are numbered from 1 on, and there are fewer than 100. */
  lemma ParsedIsNumbered(exp: seq<int>)
    requires IsCString(exp) && Parse(exp).Ok?
    ensures NumberedAlts(Parse(exp).value, 0) && CountAlts(Parse(exp).value) == Parse(exp).nsub < REG_MAX_PAREN
  {
    AltsNumbered(exp, 0, 0, [], 0);
  }

  // ----- Which patterns are searched as they mean -----

  /** No complex repeat, no negative count and no class that loses a character. */
  ghost predicate SupportedAlts(alts: seq<Branch>) {
    forall k :: 0 <= k < |alts| ==> SupportedPieces(alts[k].pieces)
  }

  ghost predicate SupportedPieces(ps: seq<Piece>) {
    forall k :: 0 <= k < |ps| ==> SupportedPiece(ps[k])
  }

  ghost predicate SupportedPiece(p: Piece) {
    && (p.count.Repeat? ==> IsSimple(p.atom) && 0 <= p.count.min)
    && (p.atom.Class? ==> NothingLost(p.atom.ranges))
    && (p.atom.Group? ==> SupportedAlts(p.atom.alts))
  }

  /** Every parsed pattern of that kind is searchable. */
  lemma ParsedIsSearchable(exp: seq<int>)
    requires IsCString(exp) && Parse(exp).Ok? && SupportedAlts(Parse(exp).value)
    ensures Searchable(Parse(exp).value)
  {
    ParsedIsNumbered(exp);
    AltsFit(Parse(exp).value, 0);
  }

  lemma {:induction false} AltsFit(alts: seq<Branch>, n: nat)
    requires WellFormedAlts(alts) && SupportedAlts(alts) && NumberedAlts(alts, n) && n + CountAlts(alts) < REG_MAX_PAREN
    ensures FitAlts(alts)
    decreases alts, 2
  {
    var rest := alts[1..];
    assert WellFormedPieces(alts[0].pieces) && SupportedPieces(alts[0].pieces);
    PiecesFit(alts[0].pieces, n);
    if rest != [] {
      assert forall k :: 0 <= k < |rest| ==> rest[k] == alts[k + 1];
      AltsFit(rest, n + CountPieces(alts[0].pieces));
      assert forall k :: 1 <= k < |alts| ==> alts[k] == rest[k - 1];
    }
  }

  lemma {:induction false} PiecesFit(ps: seq<Piece>, n: nat)
    requires WellFormedPieces(ps) && SupportedPieces(ps) && NumberedPieces(ps, n) && n + CountPieces(ps) < REG_MAX_PAREN
    ensures FitPieces(ps)
    decreases ps, 1
  {
    if ps != [] {
      var rest := ps[1..];
      PieceFits(ps[0], n);
      assert forall k :: 0 <= k < |rest| ==> rest[k] == ps[k + 1];
      PiecesFit(rest, n + CountPiece(ps[0]));
      assert forall k :: 1 <= k < |ps| ==> ps[k] == rest[k - 1];
    }
  }

  lemma PieceFits(p: Piece, n: nat)
    requires WellFormedPiece(p) && SupportedPiece(p) && NumberedPiece(p, n) && n + CountPiece(p) < REG_MAX_PAREN
    ensures FitPiece(p)
    decreases p, 0
  {
    if p.atom.Group? {
      AltsFit(p.atom.alts, if p.atom.no == -1 then n else n + 1);
    }
  }

  // ----- The marks of a derivation -----

  /** Where the last OPEN mark of a group is, -1 if there is none. */
  function OpenOf(marks: seq<Mark>, no: int): int {
    if marks == [] then -1
    else
      var later := OpenOf(marks[1..], no);
      if later != -1 then later
      else if marks[0].OpenMark? && marks[0].no == no then marks[0].at
      else -1
  }

  function CloseOf(marks: seq<Mark>, no: int): int {
    if marks == [] then -1
    else
      var later := CloseOf(marks[1..], no);
      if later != -1 then later
      else if marks[0].CloseMark? && marks[0].no == no then marks[0].at
      else -1
  }

  /** What the slots record is what the marks say. */
  lemma {:induction false} RecordAllMeans(n: nat, marks: seq<Mark>, no: nat)
    requires no < n
    ensures RecordAll(Unset(n), marks)[no] == Span(OpenOf(marks, no), CloseOf(marks, no))
    decreases |marks|
  {
    if marks != [] {
      RecordAllMeans(n, marks[1..], no);
    }
  }

  lemma {:induction false} OfConcat(a: seq<Mark>, b: seq<Mark>, no: int)
    ensures OpenOf(a + b, no) == if OpenOf(b, no) != -1 then OpenOf(b, no) else OpenOf(a, no)
    ensures CloseOf(a + b, no) == if CloseOf(b, no) != -1 then CloseOf(b, no) else CloseOf(a, no)
    decreases |a|
  {
    if a == [] {
      assert a + b == b;
    } else {
      assert (a + b)[1..] == a[1..] + b;
      OfConcat(a[1..], b, no);
    }
  }

  /** All marks are of groups numbered above `lo` and up to `hi`. */
  ghost predicate MarksWithin(marks: seq<Mark>, lo: int, hi: int) {
    forall k :: 0 <= k < |marks| ==> lo < marks[k].no <= hi
  }

  lemma {:induction false} OutsideUnset(marks: seq<Mark>, lo: int, hi: int, no: int)
    requires MarksWithin(marks, lo, hi) && !(lo < no <= hi)
    ensures OpenOf(marks, no) == -1 && CloseOf(marks, no) == -1
    decreases |marks|
  {
    if marks != [] {
      assert forall k :: 0 <= k < |marks[1..]| ==> marks[1..][k] == marks[k + 1];
      OutsideUnset(marks[1..], lo, hi, no);
    }
  }

  lemma WithinConcat(a: seq<Mark>, b: seq<Mark>, lo: int, mid: int, hi: int)
    requires MarksWithin(a, lo, mid) && MarksWithin(b, mid, hi) && lo <= mid <= hi
    ensures MarksWithin(a + b, lo, hi)
  {
  }

  lemma {:induction false} AltsMarks(alts: seq<Branch>, n: nat, s: seq<int>, i: nat, j: nat, marks: seq<Mark>)
    requires NumberedAlts(alts, n) && FitAlts(alts) && DerivesAlts(alts, s, i, j, marks)
    ensures MarksWithin(marks, n, n + CountAlts(alts))
    decreases alts, 2
  {
    var k :| 0 <= k < |alts| && DerivesPieces(alts[k].pieces, s, i, j, marks);
    if k == 0 {
      assert FitPieces(alts[0].pieces);
      PiecesMarks(alts[0].pieces, n, s, i, j, marks);
    } else {
      var rest := alts[1..];
      assert rest[k - 1] == alts[k];
      assert forall m :: 0 <= m < |rest| ==> rest[m] == alts[m + 1];
      assert DerivesAlts(rest, s, i, j, marks);
      AltsMarks(rest, n + CountPieces(alts[0].pieces), s, i, j, marks);
    }
  }

  lemma {:induction false} PiecesMarks(ps: seq<Piece>, n: nat, s: seq<int>, i: nat, j: nat, marks: seq<Mark>)
    requires NumberedPieces(ps, n) && FitPieces(ps) && DerivesPieces(ps, s, i, j, marks)
    ensures MarksWithin(marks, n, n + CountPieces(ps))
    decreases ps, 1
  {
    if ps != [] {
      var m, a, b := ConsElim(ps, s, i, j, marks);
      var mid := n + CountPiece(ps[0]);
      PieceMarks(ps[0], n, s, i, m, a);
      assert forall k :: 0 <= k < |ps[1..]| ==> ps[1..][k] == ps[k + 1];
      PiecesMarks(ps[1..], mid, s, m, j, b);
      WithinConcat(a, b, n, mid, mid + CountPieces(ps[1..]));
    }
  }

  lemma PieceMarks(p: Piece, n: nat, s: seq<int>, i: nat, j: nat, marks: seq<Mark>)
    requires NumberedPiece(p, n) && FitPiece(p) && DerivesPiece(p, s, i, j, marks)
    ensures MarksWithin(marks, n, n + CountPiece(p))
    decreases p, 0
  {
    if p.count.Repeat? {
      var t := RepeatElim(p, s, i, j, marks);
      NoMarksInTimes(p.atom, t, s, i, j, marks);
    } else if p.atom.Group? {
      GroupAtomElim(p, s, i, j, marks);
      if p.atom.no > 0 {
        var inner := marks[1..|marks| - 1];
        AltsMarks(p.atom.alts, n + 1, s, i, j, inner);
        assert forall k :: 1 <= k < |marks| - 1 ==> marks[k] == inner[k - 1];
      } else {
        AltsMarks(p.atom.alts, n, s, i, j, marks);
      }
    } else {
      LeafElim(p, s, i, j, marks);
    }
  }

  lemma {:induction false} NoMarksInTimes(a: Atom, n: nat, s: seq<int>, i: nat, j: nat, marks: seq<Mark>)
    requires IsSimple(a) && DerivesTimes(a, n, s, i, j, marks)
    ensures marks == []
    decreases n
  {
    if n > 0 {
      var m, cut := TimesElim(a, n, s, i, j, marks);
      SimpleStep(a, s, i, m, marks[..cut]);
      NoMarksInTimes(a, n - 1, s, m, j, marks[cut..]);
    }
  }

  // ----- Derivations go forwards -----

  lemma {:induction false} AltsForward(alts: seq<Branch>, s: seq<int>, i: nat, j: nat, marks: seq<Mark>)
    requires FitAlts(alts) && DerivesAlts(alts, s, i, j, marks) && i <= |s|
    ensures i <= j <= |s|
    decreases alts, 2
  {
    var k :| 0 <= k < |alts| && DerivesPieces(alts[k].pieces, s, i, j, marks);
    PiecesForward(alts[k].pieces, s, i, j, marks);
  }

  lemma {:induction false} PiecesForward(ps: seq<Piece>, s: seq<int>, i: nat, j: nat, marks: seq<Mark>)
    requires FitPieces(ps) && DerivesPieces(ps, s, i, j, marks) && i <= |s|
    ensures i <= j <= |s|
    decreases ps, 1
  {
    if ps != [] {
      var m, a, b := ConsElim(ps, s, i, j, marks);
      PieceForward(ps[0], s, i, m, a);
      assert forall k :: 0 <= k < |ps[1..]| ==> ps[1..][k] == ps[k + 1];
      PiecesForward(ps[1..], s, m, j, b);
    }
  }

  lemma PieceForward(p: Piece, s: seq<int>, i: nat, j: nat, marks: seq<Mark>)
    requires FitPiece(p) && DerivesPiece(p, s, i, j, marks) && i <= |s|
    ensures i <= j <= |s|
    decreases p, 0
  {
    if p.count.Repeat? {
      RepeatMeans(p, s, i, j, marks);
    } else if p.atom.Group? {
      GroupAtomElim(p, s, i, j, marks);
      AltsForward(p.atom.alts, s, i, j, if p.atom.no > 0 then marks[1..|marks| - 1] else marks);
    } else {
      LeafElim(p, s, i, j, marks);
    }
  }

  // ----- What the slots hold -----

  /** The slots of all groups numbered above `lo` and up to `hi` are unset. */
  ghost predicate UnsetBetween(slots: seq<Span>, lo: nat, hi: nat) {
    forall no :: lo < no <= hi && no < |slots| ==> slots[no] == Span(-1, -1)
  }

  /** Exactly one alternative was taken: its groups are captured inside `lo..hi`, those of the others unset.
      The groups are numbered from n + 1 on. */
  ghost predicate CapturedAlts(alts: seq<Branch>, n: nat, slots: seq<Span>, s: seq<int>, lo: int, hi: int) {
    alts != [] &&
    var mid := n + CountPieces(alts[0].pieces);
    ((CapturedPieces(alts[0].pieces, n, slots, s, lo, hi) && UnsetBetween(slots, mid, n + CountAlts(alts)))
     || (UnsetBetween(slots, n, mid) && CapturedAlts(alts[1..], mid, slots, s, lo, hi)))
  }

  ghost predicate CapturedPieces(ps: seq<Piece>, n: nat, slots: seq<Span>, s: seq<int>, lo: int, hi: int) {
    ps == [] ||
    (CapturedPiece(ps[0], n, slots, s, lo, hi) && CapturedPieces(ps[1..], n + CountPiece(ps[0]), slots, s, lo, hi))
  }

  /** A group on the way has captured a stretch of `lo..hi` that its content matches, and the groups in it
      are captured inside that stretch. */
  ghost predicate CapturedPiece(p: Piece, n: nat, slots: seq<Span>, s: seq<int>, lo: int, hi: int) {
    match p.atom
    case Group(no, alts) =>
      (no == -1 ==> CapturedAlts(alts, n, slots, s, lo, hi)) &&
      (0 < no < |slots| ==>
         var so, eo := slots[no].so, slots[no].eo;
         0 <= lo <= so <= eo <= hi && Matches(alts, s, so, eo) && CapturedAlts(alts, n + 1, slots, s, so, eo))
    case _ => true
  }

  /** The slots of the groups numbered above `lo` and up to `hi` are what the marks say. */
  ghost predicate Agree(slots: seq<Span>, marks: seq<Mark>, lo: nat, hi: nat) {
    forall no :: lo < no <= hi && no < |slots| ==> slots[no] == Span(OpenOf(marks, no), CloseOf(marks, no))
  }

  /** Agreement with two stretches of marks of different groups is agreement with each. */
  lemma AgreeSplit(slots: seq<Span>, a: seq<Mark>, b: seq<Mark>, lo: nat, mid: nat, hi: nat)
    requires Agree(slots, a + b, lo, hi) && MarksWithin(a, lo, mid) && MarksWithin(b, mid, hi) && lo <= mid <= hi
    ensures Agree(slots, a, lo, mid) && Agree(slots, b, mid, hi)
  {
    forall no | lo < no <= hi && no < |slots|
      ensures no <= mid ==> slots[no] == Span(OpenOf(a, no), CloseOf(a, no))
      ensures mid < no ==> slots[no] == Span(OpenOf(b, no), CloseOf(b, no))
    {
      OfConcat(a, b, no);
      if no <= mid {
        OutsideUnset(b, mid, hi, no);
      } else {
        OutsideUnset(a, lo, mid, no);
      }
    }
  }

  lemma AgreeUnset(slots: seq<Span>, marks: seq<Mark>, lo: nat, hi: nat, mlo: int, mhi: int)
    requires Agree(slots, marks, lo, hi) && MarksWithin(marks, mlo, mhi) && (hi <= mlo || mhi <= lo)
    ensures UnsetBetween(slots, lo, hi)
  {
    forall no | lo < no <= hi && no < |slots| ensures slots[no] == Span(-1, -1) {
      OutsideUnset(marks, mlo, mhi, no);
    }
  }

  lemma {:induction false} AltsCaptured(alts: seq<Branch>, n: nat, s: seq<int>, i: nat, j: nat, marks: seq<Mark>,
                                        slots: seq<Span>, lo: int, hi: int)
    requires NumberedAlts(alts, n) && FitAlts(alts) && DerivesAlts(alts, s, i, j, marks) && i <= |s|
    requires Agree(slots, marks, n, n + CountAlts(alts)) && 0 <= lo <= i && j <= hi
    ensures CapturedAlts(alts, n, slots, s, lo, hi)
    decreases alts, 2
  {
    var k :| 0 <= k < |alts| && DerivesPieces(alts[k].pieces, s, i, j, marks);
    var mid := n + CountPieces(alts[0].pieces);
    assert FitPieces(alts[0].pieces);
    if k == 0 {
      PiecesMarks(alts[0].pieces, n, s, i, j, marks);
      AgreeUnset(slots, marks, mid, n + CountAlts(alts), n, mid);
      PiecesCaptured(alts[0].pieces, n, s, i, j, marks, slots, lo, hi);
    } else {
      var rest := alts[1..];
      assert rest[k - 1] == alts[k];
      assert forall m :: 0 <= m < |rest| ==> rest[m] == alts[m + 1];
      assert DerivesAlts(rest, s, i, j, marks);
      AltsMarks(rest, mid, s, i, j, marks);
      AgreeUnset(slots, marks, n, mid, mid, mid + CountAlts(rest));
      AltsCaptured(rest, mid, s, i, j, marks, slots, lo, hi);
    }
  }

  lemma {:induction false} PiecesCaptured(ps: seq<Piece>, n: nat, s: seq<int>, i: nat, j: nat, marks: seq<Mark>,
                                          slots: seq<Span>, lo: int, hi: int)
    requires NumberedPieces(ps, n) && FitPieces(ps) && DerivesPieces(ps, s, i, j, marks) && i <= |s|
    requires Agree(slots, marks, n, n + CountPieces(ps)) && 0 <= lo <= i && j <= hi
    ensures CapturedPieces(ps, n, slots, s, lo, hi)
    decreases ps, 1
  {
    if ps != [] {
      var mid := n + CountPiece(ps[0]);
      var m, a, b := PiecesParts(ps, n, mid, s, i, j, marks, slots);
      PieceCaptured(ps[0], n, s, i, m, a, slots, lo, hi);
      PiecesCaptured(ps[1..], mid, s, m, j, b, slots, lo, hi);
    }
  }

  /** The parts of the derivation of pieces, and the slots they decide. */
  lemma PiecesParts(ps: seq<Piece>, n: nat, mid: nat, s: seq<int>, i: nat, j: nat, marks: seq<Mark>, slots: seq<Span>)
    returns (m: nat, a: seq<Mark>, b: seq<Mark>)
    requires ps != [] && NumberedPieces(ps, n) && FitPieces(ps) && DerivesPieces(ps, s, i, j, marks) && i <= |s|
    requires Agree(slots, marks, n, n + CountPieces(ps)) && mid == n + CountPiece(ps[0])
    ensures NumberedPieces(ps[1..], mid) && FitPieces(ps[1..])
    ensures i <= m <= j && m <= |s| && DerivesPiece(ps[0], s, i, m, a) && DerivesPieces(ps[1..], s, m, j, b)
    ensures Agree(slots, a, n, mid) && Agree(slots, b, mid, mid + CountPieces(ps[1..]))
  {
    m, a, b := ConsElim(ps, s, i, j, marks);
    assert forall k :: 0 <= k < |ps[1..]| ==> ps[1..][k] == ps[k + 1];
    PieceMarks(ps[0], n, s, i, m, a);
    PiecesMarks(ps[1..], mid, s, m, j, b);
    AgreeSplit(slots, a, b, n, mid, n + CountPieces(ps));
    PieceForward(ps[0], s, i, m, a);
    PiecesForward(ps[1..], s, m, j, b);
  }

  lemma PieceCaptured(p: Piece, n: nat, s: seq<int>, i: nat, j: nat, marks: seq<Mark>,
                      slots: seq<Span>, lo: int, hi: int)
    requires NumberedPiece(p, n) && FitPiece(p) && DerivesPiece(p, s, i, j, marks) && i <= |s|
    requires Agree(slots, marks, n, n + CountPiece(p)) && 0 <= lo <= i && j <= hi
    ensures CapturedPiece(p, n, slots, s, lo, hi)
    decreases p, 0
  {
    if p.count.Once? && p.atom.Group? {
      var no, alts := p.atom.no, p.atom.alts;
      GroupAtomElim(p, s, i, j, marks);
      assert CountPiece(p) == CountAtom(p.atom) == (if no == -1 then 0 else 1) + CountAlts(alts);
      if no == -1 {
        AltsCaptured(alts, n, s, i, j, marks, slots, lo, hi);
      } else {
        var inner := marks[1..|marks| - 1];
        AltsMarks(alts, no, s, i, j, inner);
        GroupMarks(slots, marks, inner, no, i, j, no + CountAlts(alts));
        AltsForward(alts, s, i, j, inner);
        AltsCaptured(alts, no, s, i, j, inner, slots, i, j);
      }
    }
  }

  /** The marks around a group's content decide its own slot and no other. */
  lemma GroupMarks(slots: seq<Span>, marks: seq<Mark>, inner: seq<Mark>, no: nat, i: nat, j: nat, hi: nat)
    requires no >= 1 && |marks| >= 2 && marks[0] == OpenMark(no, i) && marks[|marks| - 1] == CloseMark(no, j)
    requires inner == marks[1..|marks| - 1] && MarksWithin(inner, no, hi) && Agree(slots, marks, no - 1, hi)
    ensures no < |slots| && no <= hi ==> slots[no] == Span(i, j)
    ensures Agree(slots, inner, no, hi)
  {
    assert marks == [marks[0]] + inner + [marks[|marks| - 1]];
    forall x: int
      ensures OpenOf(marks, x) == if OpenOf(inner, x) != -1 then OpenOf(inner, x) else if x == no then i else -1
      ensures CloseOf(marks, x) == if x == no then j else CloseOf(inner, x)
    {
      OfConcat([marks[0]] + inner, [marks[|marks| - 1]], x);
      OfConcat([marks[0]], inner, x);
    }
    OutsideUnset(inner, no, hi, no);
  }

  // ----- The slots after a successful search -----

  /** After a successful try at `at`, slot 0 is the whole match, which the pattern derives, and the group slots
      are those of one alternative: captured inside the match, each with a text that its group matches. */
  lemma SlotsAreCaptures(alts: seq<Branch>, s: seq<int>, at: nat, n: nat)
    requires Searchable(alts) && NumberedAlts(alts, 0) && at <= |s| && n >= 1 && Results(alts, s, at) != []
    ensures var o := Results(alts, s, at)[0];
      var slots := Slots(n, at, o);
      && slots[0] == Span(at, o.end) && at <= o.end <= |s| && Matches(alts, s, at, o.end)
      && CapturedAlts(alts, 0, slots, s, at, o.end)
  {
    var o := Results(alts, s, at)[0];
    var slots := Slots(n, at, o);
    assert o in Results(alts, s, at);
    ResultsMean(alts, s, at, o);
    AltsForward(alts, s, at, o.end, o.marks);
    forall no | 0 < no <= CountAlts(alts) && no < |slots|
      ensures slots[no] == Span(OpenOf(o.marks, no), CloseOf(o.marks, no))
    {
      RecordAllMeans(n, o.marks, no);
    }
    AltsCaptured(alts, 0, s, at, o.end, o.marks, slots, at, o.end);
  }
}
