/** The program that regcomp emits for a syntax tree, as a function of the tree. Next offsets are relative,
    so the code of a subtree does not depend on where it is placed. */
module RegexCode {
  import opened RegexSyntax
  import opened RegexParser

  // ----- Opcodes -----

  const REG_MAGIC := 0xFADED00D

  const END := 0
  const BOL := 1
  const EOL := 2
  const ANY := 3
  const ANYOF := 4
  const ANYBUT := 5
  const BRANCH := 6
  const BACK := 7
  const EXACTLY := 8
  const NOTHING := 9
  const REP := 10
  const REPMIN := 11
  const REPX := 12
  const REPXMIN := 13
  const WORDA := 15
  const WORDZ := 16
  const OPENNC := 1000
  const OPEN := 1001
  const CLOSENC := 2000
  const CLOSE := 2001
  const CLOSE_END := CLOSE + REG_MAX_PAREN

  function Opcode(a: Atom): int
    requires !a.Group?
  {
    match a
    case Bol => BOL
    case Eol => EOL
    case WordStart => WORDA
    case WordEnd => WORDZ
    case Any => ANY
    case Class(negated, _) => if negated then ANYBUT else ANYOF
    case Literal(_) => EXACTLY
  }

  function RepeatOpcode(a: Atom, greedy: bool): int {
    if IsSimple(a) then if greedy then REP else REPMIN
    else if greedy then REPX else REPXMIN
  }

  /** A class item as length and first character; a reversed one is added once more as it stands. */
  function RangeCode(r: Range): seq<int> {
    (if r.lo > r.hi then [r.lo - r.hi + 1, r.hi] else []) + [r.hi - r.lo + 1, r.lo]
  }

  function RangesCode(ranges: seq<Range>): seq<int> {
    if ranges == [] then [] else RangeCode(ranges[0]) + RangesCode(ranges[1..])
  }

  /** What follows the two words of an atom's node. */
  function Operand(a: Atom): seq<int> {
    match a
    case Class(_, ranges) => RangesCode(ranges) + [0]
    case Literal(chars) => chars + [0]
    case _ => []
  }

  // ----- Sizes, in words -----

  function SizeAtom(a: Atom): (n: nat)
    ensures n >= 2
  {
    match a
    case Group(_, alts) => 2 + SizeAlts(alts) + 2
    case _ => 2 + |Operand(a)|
  }

  function SizePiece(p: Piece): (n: nat)
    ensures n >= 2
  {
    if p.count.Once? then SizeAtom(p.atom)
    else 5 + SizeAtom(p.atom) + if IsSimple(p.atom) then 0 else 2
  }

  function SizePieces(ps: seq<Piece>): (n: nat)
    ensures ps != [] ==> n >= 2
    decreases ps, 0
  {
    if ps == [] then 0 else SizePiece(ps[0]) + SizePieces(ps[1..])
  }

  function SizeBody(ps: seq<Piece>): (n: nat)
    ensures n >= 2
    decreases ps, 1
  {
    if ps == [] then 2 else SizePieces(ps)
  }

  function SizeAlts(alts: seq<Branch>): nat {
    if alts == [] then 0 else 2 + SizeBody(alts[0].pieces) + SizeAlts(alts[1..])
  }

  // ----- Code -----

  /** Where the last node of a piece of code leads: nowhere yet, or `distance` words past its end. */
  datatype Tail = Loose | To(distance: nat)

  /** The next offset of a node whose start is `n` words before the end of the code. */
  function Off(t: Tail, n: nat): nat {
    match t
    case Loose => 0
    case To(distance) => n + distance
  }

  function CodeAtom(a: Atom, t: Tail): (c: seq<int>)
    ensures |c| == SizeAtom(a)
    decreases a, 0
  {
    match a
    case Group(no, alts) => [OPEN + no, 2] + CodeAlts(alts, 0) + [CLOSE + no, Off(t, 2)]
    case _ => [Opcode(a), Off(t, 2 + |Operand(a)|)] + Operand(a)
  }

  function CodePiece(p: Piece, t: Tail): (c: seq<int>)
    ensures |c| == SizePiece(p)
    decreases p, 1
  {
    match p.count
    case Once => CodeAtom(p.atom, t)
    case Repeat(min, max, greedy) =>
      var n := SizeAtom(p.atom);
      if IsSimple(p.atom) then
        [RepeatOpcode(p.atom, greedy), Off(t, 5 + n), max, min, 0] + CodeAtom(p.atom, Loose)
      else
        [RepeatOpcode(p.atom, greedy), Off(t, 5 + n + 2), max, min, 0] + CodeAtom(p.atom, To(0)) + [BACK, 5 + n]
  }

  function CodePieces(ps: seq<Piece>, t: Tail): (c: seq<int>)
    ensures |c| == SizePieces(ps)
    decreases ps, 0
  {
    if ps == [] then []
    else CodePiece(ps[0], if |ps| == 1 then t else To(0)) + CodePieces(ps[1..], t)
  }

  function CodeBody(ps: seq<Piece>, t: Tail): (c: seq<int>)
    ensures |c| == SizeBody(ps)
    decreases ps, 1
  {
    if ps == [] then [NOTHING, Off(t, 2)] else CodePieces(ps, t)
  }

  function CodeBranch(b: Branch, t: Tail, next: nat): (c: seq<int>)
    ensures |c| == 2 + SizeBody(b.pieces)
    decreases b, 1
  {
    [BRANCH, next] + CodeBody(b.pieces, t)
  }

  /** Alternatives, each linked to the one after it, the tail of each led `extra` words past the last. */
  function CodeAlts(alts: seq<Branch>, extra: nat): (c: seq<int>)
    ensures |c| == SizeAlts(alts)
    decreases alts, 2
  {
    if alts == [] then []
    else
      CodeBranch(alts[0], To(SizeAlts(alts[1..]) + extra), 2 + SizeBody(alts[0].pieces)) + CodeAlts(alts[1..], extra)
  }

  /** The whole program, with the magic number in front. */
  function CodeProgram(alts: seq<Branch>): seq<int> {
    [REG_MAGIC] + CodeAlts(alts, 0) + [END, 0]
  }

  /** Alternatives linked to one another whose tails are still loose. */
  function LinkedAlts(alts: seq<Branch>): (c: seq<int>)
    ensures |c| == SizeAlts(alts)
  {
    if alts == [] then []
    else CodeBranch(alts[0], Loose, 2 + SizeBody(alts[0].pieces)) + LinkedAlts(alts[1..])
  }

  // ----- The last node of a chain -----

  /** The offset in its code of the node that leads out of an atom. */
  function TailAtom(a: Atom): (n: nat)
    ensures n + 2 <= SizeAtom(a)
  {
    if a.Group? then 2 + SizeAlts(a.alts) else 0
  }

  function TailPiece(p: Piece): (n: nat)
    ensures n + 2 <= SizePiece(p)
  {
    if p.count.Once? then TailAtom(p.atom) else 0
  }

  function TailBody(ps: seq<Piece>): (n: nat)
    ensures n + 2 <= SizeBody(ps)
  {
    if ps == [] then 0
    else if |ps| == 1 then TailPiece(ps[0])
    else SizePiece(ps[0]) + TailBody(ps[1..])
  }

  // ----- Code inside a program -----

  /** The program holds the code `c` at `p`. */
  ghost predicate Has(prog: seq<int>, p: int, c: seq<int>) {
    0 <= p && p + |c| <= |prog| && forall k {:trigger c[k]} :: 0 <= k < |c| ==> prog[p + k] == c[k]
  }

  lemma HasAt(prog: seq<int>, p: int, c: seq<int>, k: nat)
    requires Has(prog, p, c) && k < |c|
    ensures prog[p + k] == c[k]
  {
  }

  lemma HasSplit(prog: seq<int>, p: int, a: seq<int>, b: seq<int>)
    ensures Has(prog, p, a + b) <==> Has(prog, p, a) && Has(prog, p + |a|, b)
  {
    if Has(prog, p, a + b) {
      assert forall k :: 0 <= k < |a| ==> (a + b)[k] == a[k];
      forall k | 0 <= k < |b| ensures prog[p + |a| + k] == b[k] {
        assert (a + b)[|a| + k] == b[k];
      }
    }
  }

  lemma HasParts(prog: seq<int>, p: int, c: seq<int>, a: seq<int>, b: seq<int>)
    requires c == a + b && Has(prog, p, c)
    ensures Has(prog, p, a) && Has(prog, p + |a|, b)
  {
    HasSplit(prog, p, a, b);
  }

  lemma HasMiddle(pre: seq<int>, c: seq<int>, post: seq<int>)
    ensures Has(pre + c + post, |pre|, c)
  {
    assert (pre + c + post)[|pre|..|pre| + |c|] == c;
  }

  /** Following next offsets forwards from `p` arrives at `q`. */
  ghost predicate Reaches(prog: seq<int>, p: int, q: int)
    decreases q - p
  {
    p == q ||
    (0 <= p < q && p + 1 < |prog| && prog[p] != BACK && prog[p + 1] > 0 && Reaches(prog, p + prog[p + 1], q))
  }

  lemma ReachesTrans(prog: seq<int>, p: int, q: int, r: int)
    requires Reaches(prog, p, q) && Reaches(prog, q, r)
    ensures Reaches(prog, p, r)
    decreases q - p
  {
    if p != q {
      ReachesTrans(prog, p + prog[p + 1], q, r);
      ReachesIsForward(prog, q, r);
    }
  }

  lemma {:induction false} ReachesIsForward(prog: seq<int>, p: int, q: int)
    requires Reaches(prog, p, q)
    ensures p <= q
  {
  }

  lemma ReachesNext(prog: seq<int>, p: int, q: int)
    requires Reaches(prog, p, q) && 0 <= p && q + 1 < |prog|
    ensures p <= q && p + 1 < |prog|
    ensures p != q ==> prog[p] != BACK && prog[p + 1] > 0 && Reaches(prog, p + prog[p + 1], q)
  {
    ReachesIsForward(prog, p, q);
  }

  lemma StepReaches(prog: seq<int>, p: int, n: nat, q: int)
    requires 0 <= p && p + 1 < |prog| && prog[p] != BACK && prog[p + 1] == n > 0
    requires Reaches(prog, p + n, q)
    ensures Reaches(prog, p, q)
  {
    ReachesIsForward(prog, p + n, q);
  }

  /** The parts of a group's code. */
  lemma GroupSplit(prog: seq<int>, p: int, no: int, alts: seq<Branch>, next: nat)
    requires Has(prog, p, [OPEN + no, 2] + CodeAlts(alts, 0) + [CLOSE + no, next])
    ensures prog[p] == OPEN + no && prog[p + 1] == 2
    ensures Has(prog, p + 2, CodeAlts(alts, 0))
    ensures p + 2 + SizeAlts(alts) + 2 <= |prog|
    ensures prog[p + 2 + SizeAlts(alts)] == CLOSE + no && prog[p + 2 + SizeAlts(alts) + 1] == next
  {
    WrappedSplit(prog, p, OPEN + no, 2, CodeAlts(alts, 0), CLOSE + no, next, p + 2 + SizeAlts(alts));
  }

  lemma WrappedSplit(prog: seq<int>, p: int, x: int, y: int, body: seq<int>, u: int, v: int, q: int)
    requires Has(prog, p, [x, y] + body + [u, v]) && q == p + 2 + |body|
    ensures prog[p] == x && prog[p + 1] == y && Has(prog, p + 2, body)
    ensures q + 2 <= |prog| && prog[q] == u && prog[q + 1] == v
  {
    SplitThree(prog, p, [x, y], body, [u, v]);
    HasTwo(prog, p, x, y);
    HasTwo(prog, q, u, v);
  }

  lemma HasTwo(prog: seq<int>, p: int, x: int, y: int)
    requires Has(prog, p, [x, y])
    ensures prog[p] == x && prog[p + 1] == y
  {
    HasAt(prog, p, [x, y], 0);
    HasAt(prog, p, [x, y], 1);
  }

  lemma SplitThree(prog: seq<int>, p: int, a: seq<int>, b: seq<int>, c: seq<int>)
    requires Has(prog, p, a + b + c)
    ensures Has(prog, p, a) && Has(prog, p + |a|, b) && Has(prog, p + |a| + |b|, c)
  {
    HasSplit(prog, p, a + b, c);
    HasSplit(prog, p, a, b);
  }

  /** The parts of a branch's code. */
  lemma BranchSplit(prog: seq<int>, p: int, b: Branch, t: Tail, next: nat)
    requires Has(prog, p, CodeBranch(b, t, next))
    ensures prog[p] == BRANCH && prog[p + 1] == next
    ensures Has(prog, p + 2, CodeBody(b.pieces, t))
  {
    HasSplit(prog, p, [BRANCH, next], CodeBody(b.pieces, t));
    HasTwo(prog, p, BRANCH, next);
  }

  /** The parts of linked alternatives: the first branch and the rest. */
  lemma LinkedSplit(prog: seq<int>, p: int, alts: seq<Branch>)
    requires alts != [] && Has(prog, p, LinkedAlts(alts))
    ensures Has(prog, p, CodeBranch(alts[0], Loose, 2 + SizeBody(alts[0].pieces)))
    ensures Has(prog, p + 2 + SizeBody(alts[0].pieces), LinkedAlts(alts[1..]))
  {
    HasSplit(prog, p, CodeBranch(alts[0], Loose, 2 + SizeBody(alts[0].pieces)), LinkedAlts(alts[1..]));
  }

  lemma AltsSplit(prog: seq<int>, p: int, alts: seq<Branch>, extra: nat)
    requires alts != [] && Has(prog, p, CodeAlts(alts, extra))
    ensures Has(prog, p, CodeBranch(alts[0], To(SizeAlts(alts[1..]) + extra), 2 + SizeBody(alts[0].pieces)))
    ensures Has(prog, p + 2 + SizeBody(alts[0].pieces), CodeAlts(alts[1..], extra))
  {
    HasSplit(prog, p, CodeBranch(alts[0], To(SizeAlts(alts[1..]) + extra), 2 + SizeBody(alts[0].pieces)),
             CodeAlts(alts[1..], extra));
  }

  /** Linked alternatives chain from the first to what follows the last. */
  lemma {:induction false} LinkedReaches(prog: seq<int>, p: int, alts: seq<Branch>, q: int)
    requires Has(prog, p, LinkedAlts(alts)) && q == p + SizeAlts(alts)
    ensures Reaches(prog, p, q)
    decreases |alts|
  {
    if alts != [] {
      var n := 2 + SizeBody(alts[0].pieces);
      LinkedSplit(prog, p, alts);
      BranchSplit(prog, p, alts[0], Loose, n);
      LinkedReaches(prog, p + n, alts[1..], q);
      StepReaches(prog, p, n, q);
    }
  }

  lemma {:induction false} AltsReach(prog: seq<int>, p: int, alts: seq<Branch>, extra: nat, q: int)
    requires Has(prog, p, CodeAlts(alts, extra)) && q == p + SizeAlts(alts)
    ensures Reaches(prog, p, q)
    decreases |alts|
  {
    if alts != [] {
      var n := 2 + SizeBody(alts[0].pieces);
      AltsSplit(prog, p, alts, extra);
      BranchSplit(prog, p, alts[0], To(SizeAlts(alts[1..]) + extra), n);
      AltsReach(prog, p + n, alts[1..], extra, q);
      StepReaches(prog, p, n, q);
    }
  }

  /** The chain from `p` ends at `q`, whose next offset is `next`. */
  ghost predicate ChainEnds(prog: seq<int>, p: int, q: int, next: nat) {
    Reaches(prog, p, q) && 0 <= q && q + 1 < |prog| && prog[q] != BACK && prog[q + 1] == next
  }

  lemma ChainTrans(prog: seq<int>, p: int, q: int, r: int, next: nat)
    requires Reaches(prog, p, q) && ChainEnds(prog, q, r, next)
    ensures ChainEnds(prog, p, r, next)
  {
    ReachesTrans(prog, p, q, r);
  }

  lemma NodeEnds(prog: seq<int>, p: int, op: int, next: nat, c: seq<int>)
    requires Has(prog, p, [op, next] + c) && op != BACK
    ensures ChainEnds(prog, p, p, next)
  {
    HasAt(prog, p, [op, next] + c, 0);
    HasAt(prog, p, [op, next] + c, 1);
  }

  /** The chain of an atom ends at its tail node, whose next offset is the one its tail asks for. */
  lemma AtomReaches(prog: seq<int>, p: int, a: Atom, t: Tail, q: int, next: nat)
    requires WellFormedAtom(a) && Has(prog, p, CodeAtom(a, t))
    requires q == p + TailAtom(a) && next == Off(t, SizeAtom(a) - TailAtom(a))
    ensures ChainEnds(prog, p, q, next)
  {
    if a.Group? {
      GroupReaches(prog, p, a.no, a.alts, q, next);
    } else {
      NodeEnds(prog, p, Opcode(a), next, Operand(a));
    }
  }

  lemma GroupReaches(prog: seq<int>, p: int, no: int, alts: seq<Branch>, q: int, next: nat)
    requires -1 <= no && Has(prog, p, [OPEN + no, 2] + CodeAlts(alts, 0) + [CLOSE + no, next])
    requires q == p + 2 + SizeAlts(alts)
    ensures ChainEnds(prog, p, q, next)
  {
    WrappedSplit(prog, p, OPEN + no, 2, CodeAlts(alts, 0), CLOSE + no, next, q);
    AltsReach(prog, p + 2, alts, 0, q);
    StepReaches(prog, p, 2, q);
  }

  lemma PieceReaches(prog: seq<int>, p: int, x: Piece, t: Tail, q: int, next: nat)
    requires WellFormedPiece(x) && Has(prog, p, CodePiece(x, t))
    requires q == p + TailPiece(x) && next == Off(t, SizePiece(x) - TailPiece(x))
    ensures ChainEnds(prog, p, q, next)
  {
    if x.count.Once? {
      AtomReaches(prog, p, x.atom, t, q, next);
    } else {
      HeadOfRepeat(prog, p, x, t);
    }
  }

  lemma HeadOfRepeat(prog: seq<int>, p: int, x: Piece, t: Tail)
    requires x.count.Repeat? && Has(prog, p, CodePiece(x, t))
    ensures 0 <= p && p + 1 < |prog| && prog[p] != BACK && prog[p + 1] == Off(t, SizePiece(x))
  {
    HasAt(prog, p, CodePiece(x, t), 0);
    HasAt(prog, p, CodePiece(x, t), 1);
  }

  /** A piece whose tail leads to its end chains to its end. */
  lemma PieceSteps(prog: seq<int>, p: int, x: Piece, q: int)
    requires WellFormedPiece(x) && Has(prog, p, CodePiece(x, To(0))) && q == p + SizePiece(x)
    ensures Reaches(prog, p, q)
  {
    var last, n := p + TailPiece(x), SizePiece(x) - TailPiece(x);
    PieceReaches(prog, p, x, To(0), last, n);
    assert Reaches(prog, last + n, q);
    StepReaches(prog, last, n, q);
    ReachesTrans(prog, p, last, q);
  }

  /** The code of pieces, first piece first. */
  lemma PiecesCons(prog: seq<int>, p: int, ps: seq<Piece>, t: Tail)
    requires ps != [] && Has(prog, p, CodePieces(ps, t))
    ensures Has(prog, p, CodePiece(ps[0], if |ps| == 1 then t else To(0)))
    ensures Has(prog, p + SizePiece(ps[0]), CodePieces(ps[1..], t))
  {
    HasParts(prog, p, CodePieces(ps, t), CodePiece(ps[0], if |ps| == 1 then t else To(0)), CodePieces(ps[1..], t));
  }

  lemma SizesOf(ps: seq<Piece>)
    requires ps != []
    ensures SizePieces(ps) == SizePiece(ps[0]) + SizePieces(ps[1..])
    ensures |ps| == 1 ==> SizePieces(ps[1..]) == 0 && TailBody(ps) == TailPiece(ps[0])
    ensures |ps| > 1 ==> TailBody(ps) == SizePiece(ps[0]) + TailBody(ps[1..])
  {
  }

  lemma {:induction false} PiecesReach(prog: seq<int>, p: int, ps: seq<Piece>, t: Tail, q: int, next: nat)
    requires ps != [] && WellFormedPieces(ps) && Has(prog, p, CodePieces(ps, t))
    requires q == p + TailBody(ps) && next == Off(t, SizePieces(ps) - TailBody(ps))
    ensures ChainEnds(prog, p, q, next)
    decreases |ps|
  {
    PiecesCons(prog, p, ps, t);
    SizesOf(ps);
    if |ps| == 1 {
      PieceReaches(prog, p, ps[0], t, q, next);
    } else {
      var second := p + SizePiece(ps[0]);
      PieceSteps(prog, p, ps[0], second);
      PiecesReach(prog, second, ps[1..], t, q, next);
      ChainTrans(prog, p, second, q, next);
    }
  }

  lemma BodyReaches(prog: seq<int>, p: int, ps: seq<Piece>, t: Tail, q: int, next: nat)
    requires WellFormedPieces(ps) && Has(prog, p, CodeBody(ps, t))
    requires q == p + TailBody(ps) && next == Off(t, SizeBody(ps) - TailBody(ps))
    ensures ChainEnds(prog, p, q, next)
  {
    if ps == [] {
      NodeEnds(prog, p, NOTHING, next, []);
    } else {
      PiecesReach(prog, p, ps, t, q, next);
    }
  }

  // ----- Setting the loose end of a chain -----

  lemma Assoc(a: seq<int>, b: seq<int>, c: seq<int>)
    ensures a + b + c == a + (b + c)
  {
  }

  lemma UpdateLeft(a: seq<int>, b: seq<int>, k: nat, v: int)
    requires k < |a|
    ensures (a + b)[k := v] == a[k := v] + b
  {
  }

  lemma UpdateRight(a: seq<int>, b: seq<int>, k: nat, v: int)
    requires k < |b|
    ensures (a + b)[|a| + k := v] == a + b[k := v]
  {
  }

  lemma PatchAtom(a: Atom, d: nat, k: nat, v: int)
    requires k == TailAtom(a) + 1 && v == SizeAtom(a) - TailAtom(a) + d
    ensures CodeAtom(a, Loose)[k := v] == CodeAtom(a, To(d))
  {
    match a {
      case Group(no, alts) =>
        UpdateRight([OPEN + no, 2] + CodeAlts(alts, 0), [CLOSE + no, 0], 1, v);
      case _ =>
        UpdateLeft([Opcode(a), 0], Operand(a), 1, v);
    }
  }

  lemma UpdateHead(op: int, max: int, min: int, code: seq<int>, v: int)
    ensures ([op, 0, max, min, 0] + code)[1 := v] == [op, v, max, min, 0] + code
  {
  }

  lemma PatchPiece(p: Piece, d: nat, k: nat, v: int)
    requires k == TailPiece(p) + 1 && v == SizePiece(p) - TailPiece(p) + d
    ensures CodePiece(p, Loose)[k := v] == CodePiece(p, To(d))
  {
    match p.count {
      case Once =>
        PatchAtom(p.atom, d, k, v);
      case Repeat(min, max, greedy) =>
        var op := RepeatOpcode(p.atom, greedy);
        if IsSimple(p.atom) {
          UpdateHead(op, max, min, CodeAtom(p.atom, Loose), v);
        } else {
          var back := [BACK, 5 + SizeAtom(p.atom)];
          Assoc([op, 0, max, min, 0], CodeAtom(p.atom, To(0)), back);
          UpdateHead(op, max, min, CodeAtom(p.atom, To(0)) + back, v);
          Assoc([op, v, max, min, 0], CodeAtom(p.atom, To(0)), back);
        }
    }
  }

  lemma {:induction false} PatchPieces(ps: seq<Piece>, d: nat, k: nat, v: int)
    requires ps != [] && k == TailBody(ps) + 1 && v == SizePieces(ps) - TailBody(ps) + d
    ensures CodePieces(ps, Loose)[k := v] == CodePieces(ps, To(d))
    decreases |ps|
  {
    if |ps| == 1 {
      assert SizePieces(ps[1..]) == 0;
      PatchPiece(ps[0], d, k, v);
      UpdateLeft(CodePiece(ps[0], Loose), [], k, v);
    } else {
      var rest := ps[1..];
      PatchPieces(rest, d, k - SizePiece(ps[0]), v);
      UpdateRight(CodePiece(ps[0], To(0)), CodePieces(rest, Loose), k - SizePiece(ps[0]), v);
    }
  }

  lemma PatchBody(ps: seq<Piece>, d: nat, k: nat, v: int)
    requires k == TailBody(ps) + 1 && v == SizeBody(ps) - TailBody(ps) + d
    ensures CodeBody(ps, Loose)[k := v] == CodeBody(ps, To(d))
  {
    if ps != [] {
      PatchPieces(ps, d, k, v);
    }
  }

  // ----- Appending -----

  lemma {:induction false} PiecesSnoc(ps: seq<Piece>, p: Piece, t: Tail)
    ensures SizePieces(ps + [p]) == SizePieces(ps) + SizePiece(p)
    ensures CodePieces(ps + [p], t) == CodePieces(ps, To(0)) + CodePiece(p, t)
    decreases |ps|
  {
    var all := ps + [p];
    if ps == [] {
      assert all[1..] == [];
    } else {
      assert all[1..] == ps[1..] + [p];
      PiecesSnoc(ps[1..], p, t);
      var first := CodePiece(ps[0], To(0));
      assert first + (CodePieces(ps[1..], To(0)) + CodePiece(p, t)) == first + CodePieces(ps[1..], To(0)) + CodePiece(p, t);
    }
  }

  lemma {:induction false} LinkedSnoc(alts: seq<Branch>, b: Branch)
    ensures SizeAlts(alts + [b]) == SizeAlts(alts) + 2 + SizeBody(b.pieces)
    ensures LinkedAlts(alts + [b]) == LinkedAlts(alts) + CodeBranch(b, Loose, 2 + SizeBody(b.pieces))
    decreases |alts|
  {
    var all := alts + [b];
    var last := CodeBranch(b, Loose, 2 + SizeBody(b.pieces));
    if alts == [] {
      assert all[1..] == [];
      assert LinkedAlts(all) == last + [];
    } else {
      assert all[1..] == alts[1..] + [b];
      LinkedSnoc(alts[1..], b);
      var first := CodeBranch(alts[0], Loose, 2 + SizeBody(alts[0].pieces));
      assert first + (LinkedAlts(alts[1..]) + last) == first + LinkedAlts(alts[1..]) + last;
    }
  }

  lemma {:induction false} AltsSnoc(alts: seq<Branch>, b: Branch, extra: nat, outer: nat)
    requires outer == 2 + SizeBody(b.pieces) + extra
    ensures CodeAlts(alts + [b], extra)
         == CodeAlts(alts, outer) + CodeBranch(b, To(extra), 2 + SizeBody(b.pieces))
    decreases |alts|
  {
    var all := alts + [b];
    var last := CodeBranch(b, To(extra), 2 + SizeBody(b.pieces));
    if alts == [] {
      assert all[1..] == [];
      assert CodeAlts(all, extra) == last + [];
    } else {
      var rest := alts[1..];
      assert all[1..] == rest + [b];
      AltsSnoc(rest, b, extra, outer);
      LinkedSnoc(rest, b);
      Assoc(CodeBranch(alts[0], To(SizeAlts(rest) + outer), 2 + SizeBody(alts[0].pieces)), CodeAlts(rest, outer), last);
    }
  }

  lemma {:induction false} RangesAppend(a: seq<Range>, b: seq<Range>)
    ensures RangesCode(a + b) == RangesCode(a) + RangesCode(b)
    decreases |a|
  {
    if a == [] {
      assert a + b == b;
    } else {
      assert (a + b)[1..] == a[1..] + b;
      RangesAppend(a[1..], b);
      var first := RangeCode(a[0]);
      assert first + (RangesCode(a[1..]) + RangesCode(b)) == first + RangesCode(a[1..]) + RangesCode(b);
    }
  }

  lemma RangesSnoc(ranges: seq<Range>, r: Range)
    ensures RangesCode(ranges + [r]) == RangesCode(ranges) + RangeCode(r)
  {
    RangesAppend(ranges, [r]);
    assert RangesCode([r]) == RangeCode(r) + RangesCode([]);
  }

  // ----- Linking the branches of a choice -----

  /** Alternatives while they are read: linked, but for the last one, with loose tails. */
  function LooseAlts(alts: seq<Branch>): seq<int>
    requires alts != []
  {
    LinkedAlts(alts[..|alts| - 1]) + CodeBranch(alts[|alts| - 1], Loose, 0)
  }

  lemma UpdateMiddle(a: seq<int>, b: seq<int>, c: seq<int>, k: nat, v: int, at: nat)
    requires k < |b| && at == |a| + k
    ensures at < |a + b + c| && (a + b + c)[at := v] == a + b[k := v] + c
  {
  }

  lemma Regroup(a: seq<int>, b: seq<int>, c: seq<int>, d: seq<int>)
    ensures a + (b + c) + d == (a + b) + c + d
    ensures (a + b) + c + d == a + b + (c + d)
  {
  }

  /** A branch with a loose tail between two stretches of code. */
  lemma BranchInside(prog: seq<int>, head: seq<int>, b: Branch, next: nat, tail: seq<int>, last: nat)
    requires WellFormedPieces(b.pieces) && prog == head + CodeBranch(b, Loose, next) + tail
    requires last == |head| + 2 + TailBody(b.pieces)
    ensures prog[|head|] == BRANCH && prog[|head| + 1] == next
    ensures ChainEnds(prog, |head| + 2, last, 0)
  {
    HasMiddle(head, CodeBranch(b, Loose, next), tail);
    BranchSplit(prog, |head|, b, Loose, next);
    BodyReaches(prog, |head| + 2, b.pieces, Loose, last, 0);
  }

  lemma PatchBranch(b: Branch, next: nat, d: nat, k: nat, v: int)
    requires k == 2 + TailBody(b.pieces) + 1 && v == SizeBody(b.pieces) - TailBody(b.pieces) + d
    ensures CodeBranch(b, Loose, next)[k := v] == CodeBranch(b, To(d), next)
  {
    PatchBody(b.pieces, d, k - 2, v);
    UpdateRight([BRANCH, next], CodeBody(b.pieces, Loose), k - 2, v);
  }

  lemma LinkBranch(b: Branch, next: nat)
    ensures CodeBranch(b, Loose, 0)[1 := next] == CodeBranch(b, Loose, next)
  {
    UpdateLeft([BRANCH, 0], CodeBody(b.pieces, Loose), 1, next);
  }

  lemma LooseSplit(alts: seq<Branch>, b: Branch)
    ensures LooseAlts(alts + [b]) == LinkedAlts(alts) + CodeBranch(b, Loose, 0)
    ensures SizeAlts(alts + [b]) == |LooseAlts(alts + [b])| == SizeAlts(alts) + 2 + SizeBody(b.pieces)
  {
    assert (alts + [b])[..|alts|] == alts;
    LinkedSnoc(alts, b);
  }

  /** The last branch is at the end of the chain from `start`. */
  lemma LastReached(prog: seq<int>, start: nat, pre: seq<int>, init: seq<Branch>, b: Branch, post: seq<int>, last: nat)
    requires WellFormedPieces(b.pieces)
    requires prog == pre + LinkedAlts(init) + CodeBranch(b, Loose, 0) + post && Reaches(prog, start, |pre|)
    requires last == |pre| + SizeAlts(init)
    ensures last + 1 < |prog| && Reaches(prog, start, last) && prog[last] == BRANCH && prog[last + 1] == 0
  {
    BranchInside(prog, pre + LinkedAlts(init), b, 0, post, last + 2 + TailBody(b.pieces));
    Regroup(pre, LinkedAlts(init), CodeBranch(b, Loose, 0), post);
    assert pre + LinkedAlts(init) + (CodeBranch(b, Loose, 0) + post) == prog;
    HasMiddle(pre, LinkedAlts(init), CodeBranch(b, Loose, 0) + post);
    LinkedReaches(prog, |pre|, init, last);
    ReachesTrans(prog, start, |pre|, last);
  }

  /** Linking the last branch to what follows it. */
  lemma LastLinked(prog: seq<int>, pre: seq<int>, init: seq<Branch>, b: Branch, post: seq<int>, at: nat, n: nat)
    requires prog == pre + LinkedAlts(init) + CodeBranch(b, Loose, 0) + post
    requires at == |pre| + SizeAlts(init) + 1 && n == 2 + SizeBody(b.pieces)
    ensures at < |prog| && prog[at := n] == pre + LinkedAlts(init + [b]) + post
  {
    UpdateMiddle(pre + LinkedAlts(init), CodeBranch(b, Loose, 0), post, 1, n, at);
    LinkBranch(b, n);
    LinkedSnoc(init, b);
    Regroup(pre, LinkedAlts(init), CodeBranch(b, Loose, n), post);
  }

  /** The code while the tails are led one by one to what follows the choice: those of `rest` are loose. */
  function TyingAlts(done: seq<Branch>, rest: seq<Branch>): seq<int> {
    CodeAlts(done, SizeAlts(rest)) + LinkedAlts(rest)
  }

  lemma TieRegroup(a: seq<int>, b: seq<int>, c: seq<int>, d: seq<int>, e: seq<int>)
    ensures a + (b + (c + d)) + e == (a + b) + c + (d + e)
    ensures a + ((b + c) + d) + e == (a + b) + c + (d + e)
  {
  }

  lemma UpdateTied(pre: seq<int>, a: seq<int>, b: seq<int>, c: seq<int>, post: seq<int>, k: nat, at: nat, v: int)
    requires k < |b| && at == |pre| + |a| + k
    ensures at < |pre + (a + (b + c)) + post|
    ensures (pre + (a + (b + c)) + post)[at := v] == pre + ((a + b[k := v]) + c) + post
  {
    TieRegroup(pre, a, b, c, post);
    UpdateMiddle(pre + a, b, c + post, k, v, at);
    TieRegroup(pre, a, b[k := v], c, post);
  }

  /** Leading the tail of the first loose branch to what follows the choice. */
  lemma TieFirst(pre: seq<int>, done: seq<Branch>, b: Branch, rest: seq<Branch>, post: seq<int>, at: nat, v: int)
    requires at == |pre| + SizeAlts(done) + 2 + TailBody(b.pieces) + 1
    requires v == SizeBody(b.pieces) - TailBody(b.pieces) + SizeAlts(rest)
    ensures at < |pre + TyingAlts(done, [b] + rest) + post|
    ensures (pre + TyingAlts(done, [b] + rest) + post)[at := v] == pre + TyingAlts(done + [b], rest) + post
  {
    var all, n := SizeAlts([b] + rest), 2 + SizeBody(b.pieces);
    var k := 2 + TailBody(b.pieces) + 1;
    TyingCons(done, b, rest, all);
    PatchBranch(b, n, SizeAlts(rest), k, v);
    UpdateTied(pre, CodeAlts(done, all), CodeBranch(b, Loose, n), LinkedAlts(rest), post, k, at, v);
    TyingSnoc(done, b, rest, all);
  }

  lemma TyingCons(done: seq<Branch>, b: Branch, rest: seq<Branch>, all: nat)
    requires all == SizeAlts([b] + rest)
    ensures all == 2 + SizeBody(b.pieces) + SizeAlts(rest)
    ensures TyingAlts(done, [b] + rest)
         == CodeAlts(done, all) + (CodeBranch(b, Loose, 2 + SizeBody(b.pieces)) + LinkedAlts(rest))
  {
    assert ([b] + rest)[1..] == rest;
  }

  lemma TyingSnoc(done: seq<Branch>, b: Branch, rest: seq<Branch>, all: nat)
    requires all == 2 + SizeBody(b.pieces) + SizeAlts(rest)
    ensures TyingAlts(done + [b], rest)
         == (CodeAlts(done, all) + CodeBranch(b, To(SizeAlts(rest)), 2 + SizeBody(b.pieces))) + LinkedAlts(rest)
  {
    AltsSnoc(done, b, SizeAlts(rest), all);
  }

  // ----- Turning an atom into a repeat -----

  /** The five words in front of a repeated atom. */
  function RepeatHead(a: Atom, min: int, max: int, greedy: bool): (c: seq<int>)
    ensures |c| == 5
  {
    [RepeatOpcode(a, greedy), 0, max, min, 0]
  }

  lemma SimpleRepeat(base: seq<int>, a: Atom, min: int, max: int, greedy: bool)
    requires IsSimple(a)
    ensures base + RepeatHead(a, min, max, greedy) + CodeAtom(a, Loose)
         == base + CodePiece(Piece(a, Repeat(min, max, greedy)), Loose)
  {
    Assoc(base, RepeatHead(a, min, max, greedy), CodeAtom(a, Loose));
  }

  /** The loop of a complex repeat: the atom leads to a node that leads back to the repeat. */
  lemma ComplexRepeat(prog: seq<int>, base: seq<int>, a: Atom, min: int, max: int, greedy: bool, last: nat, v: int)
    requires !IsSimple(a) && WellFormedAtom(a) && last == |base| + 5 + TailAtom(a) && v == SizeAtom(a) - TailAtom(a)
    requires prog == base + RepeatHead(a, min, max, greedy) + CodeAtom(a, Loose) + [BACK, 5 + SizeAtom(a)]
    ensures ChainEnds(prog, |base| + 5, last, 0)
    ensures prog[last + 1 := v] == base + CodePiece(Piece(a, Repeat(min, max, greedy)), Loose)
  {
    var head, back := RepeatHead(a, min, max, greedy), [BACK, 5 + SizeAtom(a)];
    ComplexChain(prog, base + head, a, back, last);
    UpdateMiddle(base + head, CodeAtom(a, Loose), back, TailAtom(a) + 1, v, last + 1);
    PatchAtom(a, 0, TailAtom(a) + 1, v);
    Regroup(base, head, CodeAtom(a, To(0)), back);
    Assoc(base, head + CodeAtom(a, To(0)), back);
  }

  lemma ComplexChain(prog: seq<int>, before: seq<int>, a: Atom, back: seq<int>, last: nat)
    requires WellFormedAtom(a) && prog == before + CodeAtom(a, Loose) + back && last == |before| + TailAtom(a)
    ensures ChainEnds(prog, |before|, last, 0)
  {
    HasMiddle(before, CodeAtom(a, Loose), back);
    AtomReaches(prog, |before|, a, Loose, last, 0);
  }

  // ----- Linking the pieces of a branch -----

  lemma {:induction false} TailOfSnoc(init: seq<Piece>, x: Piece)
    ensures TailBody(init + [x]) == SizePieces(init) + TailPiece(x)
    ensures SizePieces(init + [x]) == SizePieces(init) + SizePiece(x)
    decreases |init|
  {
    if init != [] {
      assert (init + [x])[1..] == init[1..] + [x];
      TailOfSnoc(init[1..], x);
    } else {
      assert ([] + [x])[1..] == [];
    }
  }

  /** The last piece read so far, whose tail is loose, in front of the next piece. */
  lemma LastPieceReached(prog: seq<int>, base: seq<int>, init: seq<Piece>, x: Piece, code: seq<int>, chain: nat, last: nat)
    requires WellFormedPiece(x) && prog == base + CodePieces(init + [x], Loose) + code
    requires chain == |base| + SizePieces(init) && last == chain + TailPiece(x)
    ensures ChainEnds(prog, chain, last, 0)
  {
    PieceAppended(base, init, x);
    PieceReachedIn(prog, base + CodePieces(init, To(0)), x, code, chain, last);
  }

  /** Leading the last of the pieces read so far to the next one. */
  lemma ChainFacts(prog: seq<int>, base: seq<int>, ps: seq<Piece>, p: Piece, chain: nat, latest: nat) returns (last: nat)
    requires ps != [] && WellFormedPieces(ps) && prog == base + CodePieces(ps, Loose) + CodePiece(p, Loose)
    requires latest == |base| + SizePieces(ps) && chain == |base| + SizePieces(ps[..|ps| - 1])
    ensures ChainEnds(prog, chain, last, 0) && last + 1 < |prog|
    ensures prog[last + 1 := latest - last] == base + CodePieces(ps + [p], Loose)
  {
    last := |base| + TailBody(ps);
    LastOfReached(prog, base, ps, CodePiece(p, Loose), chain, last);
    PieceLinked(prog, base, ps, p, last + 1, latest - last);
  }

  lemma LastOfReached(prog: seq<int>, base: seq<int>, ps: seq<Piece>, code: seq<int>, chain: nat, last: nat)
    requires ps != [] && WellFormedPieces(ps) && prog == base + CodePieces(ps, Loose) + code
    requires chain == |base| + SizePieces(ps[..|ps| - 1]) && last == |base| + TailBody(ps)
    ensures ChainEnds(prog, chain, last, 0)
  {
    var init, x := ps[..|ps| - 1], ps[|ps| - 1];
    LastOf(ps);
    TailOfSnoc(init, x);
    LastPieceReached(prog, base, init, x, code, chain, last);
  }

  lemma LastOf(ps: seq<Piece>)
    requires ps != []
    ensures ps == ps[..|ps| - 1] + [ps[|ps| - 1]]
  {
  }

  lemma FirstPiece(base: seq<int>, p: Piece)
    ensures base + CodePieces([], Loose) + CodePiece(p, Loose) == base + CodePieces([] + [p], Loose)
  {
    PieceAppended(base, [], p);
  }

  lemma PieceReachedIn(prog: seq<int>, before: seq<int>, x: Piece, code: seq<int>, chain: nat, last: nat)
    requires WellFormedPiece(x) && prog == before + CodePiece(x, Loose) + code
    requires chain == |before| && last == chain + TailPiece(x)
    ensures ChainEnds(prog, chain, last, 0)
  {
    HasMiddle(before, CodePiece(x, Loose), code);
    PieceReaches(prog, chain, x, Loose, last, 0);
  }

  /** Leading the pieces read so far to the next one. */
  lemma PieceLinked(prog: seq<int>, base: seq<int>, ps: seq<Piece>, p: Piece, at: nat, v: int)
    requires ps != [] && prog == base + CodePieces(ps, Loose) + CodePiece(p, Loose)
    requires at == |base| + TailBody(ps) + 1 && v == SizePieces(ps) - TailBody(ps)
    ensures at < |prog| && prog[at := v] == base + CodePieces(ps + [p], Loose)
  {
    PatchPieces(ps, 0, TailBody(ps) + 1, v);
    PieceAppended(base, ps, p);
    PatchedInside(prog, base, CodePieces(ps, Loose), CodePieces(ps, To(0)), CodePiece(p, Loose), TailBody(ps) + 1, v, at);
  }

  lemma PatchedInside(prog: seq<int>, base: seq<int>, a: seq<int>, b: seq<int>, c: seq<int>, k: nat, v: int, at: nat)
    requires prog == base + a + c && k < |a| && a[k := v] == b && at == |base| + k
    ensures at < |prog| && prog[at := v] == base + b + c
  {
    UpdateMiddle(base, a, c, k, v, at);
  }

  lemma PieceAppended(base: seq<int>, ps: seq<Piece>, p: Piece)
    ensures base + CodePieces(ps, To(0)) + CodePiece(p, Loose) == base + CodePieces(ps + [p], Loose)
  {
    PiecesSnoc(ps, p, Loose);
    Assoc(base, CodePieces(ps, To(0)), CodePiece(p, Loose));
  }

  // ----- A choice, with the OPEN node of its group if it has one -----

  /** The program in front of the first branch. */
  function Opened(base: seq<int>, paren: bool, no: int): seq<int> {
    if paren then base + [OPEN + no, 2] else base
  }

  lemma OpenedReaches(prog: seq<int>, base: seq<int>, paren: bool, no: int, code: seq<int>)
    requires -1 <= no && prog == Opened(base, paren, no) + code
    ensures Reaches(prog, |base|, |Opened(base, paren, no)|)
    ensures paren ==> prog[|base|] == OPEN + no && prog[|base| + 1] == 2
  {
    if paren {
      HasMiddle(base, [OPEN + no, 2], code);
      HasTwo(prog, |base|, OPEN + no, 2);
      assert Reaches(prog, |base| + 2, |base| + 2);
      StepReaches(prog, |base|, 2, |base| + 2);
    }
  }

  /** The state of tying while the branch after `done` is next. */
  lemma TyingAt(prog: seq<int>, pre: seq<int>, done: seq<Branch>, b: Branch, rest: seq<Branch>, post: seq<int>,
                br: nat, last: nat)
    requires WellFormedPieces(b.pieces) && prog == pre + TyingAlts(done, [b] + rest) + post
    requires br == |pre| + SizeAlts(done) && last == br + 2 + TailBody(b.pieces)
    ensures prog[br] == BRANCH && prog[br + 1] == 2 + SizeBody(b.pieces)
    ensures ChainEnds(prog, br + 2, last, 0)
  {
    var all, n := SizeAlts([b] + rest), 2 + SizeBody(b.pieces);
    TyingCons(done, b, rest, all);
    TieRegroup(pre, CodeAlts(done, all), CodeBranch(b, Loose, n), LinkedAlts(rest), post);
    BranchInside(prog, pre + CodeAlts(done, all), b, n, LinkedAlts(rest) + post, last);
  }

  /** Once all tails are tied, what is left is the node that closes the choice. */
  lemma TyingDone(prog: seq<int>, pre: seq<int>, done: seq<Branch>, e: int, ender: nat)
    requires prog == pre + TyingAlts(done, []) + [e, 0] && ender == |pre| + SizeAlts(done)
    ensures prog[ender] == e && prog[ender + 1] == 0
    ensures prog == pre + CodeAlts(done, 0) + [e, 0]
  {
    assert TyingAlts(done, []) == CodeAlts(done, 0);
  }

  lemma TyingStart(alts: seq<Branch>)
    ensures TyingAlts([], alts) == LinkedAlts(alts)
  {
  }

  /** The node at which the chain of a choice starts. */
  lemma OpenedStart(prog: seq<int>, base: seq<int>, paren: bool, no: int, alts: seq<Branch>, post: seq<int>)
    requires -1 <= no && alts != [] && prog == Opened(base, paren, no) + LinkedAlts(alts) + post
    ensures |base| + 1 < |prog|
    ensures if paren then prog[|base|] == OPEN + no && prog[|base| + 1] == 2 else prog[|base|] == BRANCH
  {
    var pre := Opened(base, paren, no);
    Assoc(pre, LinkedAlts(alts), post);
    OpenedReaches(prog, base, paren, no, LinkedAlts(alts) + post);
    if !paren {
      HasMiddle(pre, LinkedAlts(alts), post);
      LinkedSplit(prog, |pre|, alts);
      BranchSplit(prog, |pre|, alts[0], Loose, 2 + SizeBody(alts[0].pieces));
    }
  }

  /** All that one turn of tying needs: where the chain of the first loose branch ends, and what setting it does. */
  lemma TieFacts(prog: seq<int>, pre: seq<int>, done: seq<Branch>, rest: seq<Branch>, post: seq<int>,
                 br: nat, last: nat, ender: nat)
    requires rest != [] && WellFormedAlts(rest) && prog == pre + TyingAlts(done, rest) + post
    requires br == |pre| + SizeAlts(done) && ender == br + SizeAlts(rest)
    requires last == br + 2 + TailBody(rest[0].pieces)
    ensures last + 1 < |prog| && prog[br] == BRANCH && prog[br + 1] == 2 + SizeBody(rest[0].pieces)
    ensures ChainEnds(prog, br + 2, last, 0)
    ensures prog[last + 1 := ender - last] == pre + TyingAlts(done + [rest[0]], rest[1..]) + post
    ensures SizeAlts(done + [rest[0]]) == SizeAlts(done) + 2 + SizeBody(rest[0].pieces)
    ensures SizeAlts(rest) == 2 + SizeBody(rest[0].pieces) + SizeAlts(rest[1..])
  {
    FirstAndRest(rest);
    TieFactsAt(prog, pre, done, rest[0], rest[1..], post, br, last, ender);
  }

  /** What ties the next branch, if there is one: its tail, and the branches done and left. */
  lemma TiePlan(prog: seq<int>, pre: seq<int>, done: seq<Branch>, rest: seq<Branch>, e: int, br: nat, ender: nat)
    returns (last: nat, done': seq<Branch>, rest': seq<Branch>)
    requires |pre| > 0 && prog == pre + TyingAlts(done, rest) + [e, 0] && e != BRANCH
    requires rest == [] || WellFormedAlts(rest)
    requires br == |pre| + SizeAlts(done) && ender == br + SizeAlts(rest)
    ensures br + 1 < |prog| && (prog[br] == BRANCH <==> rest != []) && done' + rest' == done + rest
    ensures rest' == [] || WellFormedAlts(rest')
    ensures ender == |pre| + SizeAlts(done') + SizeAlts(rest')
    ensures rest == [] ==> prog[br + 1] == 0 && rest' == [] && prog == pre + TyingAlts(done', rest') + [e, 0]
    ensures rest != [] ==>
              && |rest'| < |rest| && ChainEnds(prog, br + 2, last, 0) && last + 1 < |prog|
              && prog[br + 1] > 0 && br + prog[br + 1] == |pre| + SizeAlts(done')
              && prog[last + 1 := ender - last] == pre + TyingAlts(done', rest') + [e, 0]
  {
    last, done', rest' := 0, done, rest;
    if rest == [] {
      TyingDone(prog, pre, done, e, ender);
    } else {
      done', rest' := done + [rest[0]], rest[1..];
      last := br + 2 + TailBody(rest[0].pieces);
      TieFacts(prog, pre, done, rest, [e, 0], br, last, ender);
      MoveOne(done, rest);
    }
  }

  lemma MoveOne(done: seq<Branch>, rest: seq<Branch>)
    requires rest != []
    ensures (done + [rest[0]]) + rest[1..] == done + rest
  {
  }

  lemma FirstAndRest(rest: seq<Branch>)
    requires rest != []
    ensures rest == [rest[0]] + rest[1..]
  {
  }

  lemma SizesOfTie(done: seq<Branch>, b: Branch, rest: seq<Branch>)
    ensures SizeAlts(done + [b]) == SizeAlts(done) + 2 + SizeBody(b.pieces)
    ensures SizeAlts([b] + rest) == 2 + SizeBody(b.pieces) + SizeAlts(rest)
  {
    TyingCons(done, b, rest, SizeAlts([b] + rest));
    LinkedSnoc(done, b);
  }

  lemma TieFactsAt(prog: seq<int>, pre: seq<int>, done: seq<Branch>, b: Branch, rest: seq<Branch>, post: seq<int>,
                   br: nat, last: nat, ender: nat)
    requires WellFormedPieces(b.pieces) && prog == pre + TyingAlts(done, [b] + rest) + post
    requires br == |pre| + SizeAlts(done) && ender == br + SizeAlts([b] + rest)
    requires last == br + 2 + TailBody(b.pieces)
    ensures last + 1 < |prog| && prog[br] == BRANCH && prog[br + 1] == 2 + SizeBody(b.pieces)
    ensures ChainEnds(prog, br + 2, last, 0)
    ensures prog[last + 1 := ender - last] == pre + TyingAlts(done + [b], rest) + post
    ensures SizeAlts(done + [b]) == SizeAlts(done) + 2 + SizeBody(b.pieces)
    ensures SizeAlts([b] + rest) == 2 + SizeBody(b.pieces) + SizeAlts(rest)
  {
    SizesOfTie(done, b, rest);
    TyingAt(prog, pre, done, b, rest, post, br, last);
    TieFirst(pre, done, b, rest, post, last + 1, ender - last);
  }

  /** Linking the OPEN node of a group to its first branch. */
  lemma FirstBranch(base: seq<int>, paren: bool, no: int, b: Branch)
    ensures LooseAlts([b]) == CodeBranch(b, Loose, 0)
    ensures paren ==>
      (base + [OPEN + no, 0] + CodeBranch(b, Loose, 0))[|base| + 1 := 2] == Opened(base, paren, no) + LooseAlts([b])
  {
    LooseSplit([], b);
    assert [] + [b] == [b] && LinkedAlts([]) + CodeBranch(b, Loose, 0) == CodeBranch(b, Loose, 0);
    UpdateMiddle(base, [OPEN + no, 0], CodeBranch(b, Loose, 0), 1, 2, |base| + 1);
  }

  lemma NextBranch(pre: seq<int>, alts: seq<Branch>, b: Branch)
    ensures pre + LinkedAlts(alts) + CodeBranch(b, Loose, 0) == pre + LooseAlts(alts + [b])
  {
    LooseSplit(alts, b);
    Assoc(pre, LinkedAlts(alts), CodeBranch(b, Loose, 0));
  }

  lemma LooseSize(alts: seq<Branch>)
    requires alts != []
    ensures |LooseAlts(alts)| == SizeAlts(alts)
  {
    assert alts == alts[..|alts| - 1] + [alts[|alts| - 1]];
    LooseSplit(alts[..|alts| - 1], alts[|alts| - 1]);
  }

  lemma GroupClosed(base: seq<int>, no: int, alts: seq<Branch>)
    ensures Opened(base, true, no) + CodeAlts(alts, 0) + [CLOSE + no, 0] == base + CodeAtom(Group(no, alts), Loose)
  {
    Assoc(base, [OPEN + no, 2], CodeAlts(alts, 0));
    Assoc(base, [OPEN + no, 2] + CodeAlts(alts, 0), [CLOSE + no, 0]);
  }
}
