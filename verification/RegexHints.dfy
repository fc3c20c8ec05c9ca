/** What regcomp digs out of a compiled pattern for regexec's shortcuts: the first character, the anchor
    and the longest literal of a pattern with one alternative, found along the chain of its nodes. */
module RegexHints {
  import opened RegexSyntax
  import opened RegexParser
  import opened RegexCode

  /** A literal that is matched exactly once. */
  predicate IsPlainLiteral(p: Piece) {
    p.count.Once? && p.atom.Literal?
  }

  /** The character that every match must start with; 0 if none is known. */
  function FirstChar(alts: seq<Branch>): int {
    if |alts| == 1 && alts[0].pieces != [] && IsPlainLiteral(alts[0].pieces[0])
    then CharAt(alts[0].pieces[0].atom.chars, 0)
    else 0
  }

  /** Every match must be at the start of the input. */
  predicate IsAnchored(alts: seq<Branch>) {
    |alts| == 1 && alts[0].pieces != [] && alts[0].pieces[0] == Piece(Bol, Once)
  }

  /** The index of the last of the longest plain literals; |ps| if there is none. */
  function LongestLiteral(ps: seq<Piece>): (k: nat)
    ensures k <= |ps| && (k < |ps| ==> IsPlainLiteral(ps[k]))
  {
    if ps == [] then 0
    else
      var init, x := ps[..|ps| - 1], ps[|ps| - 1];
      var k := LongestLiteral(init);
      if IsPlainLiteral(x) && (k == |init| || |x.atom.chars| >= |init[k].atom.chars|) then |init|
      else if k == |init| then |ps|
      else k
  }

  /** The literal is as long as any other. */
  lemma {:induction false} LongestIsLongest(ps: seq<Piece>, j: nat)
    requires j < |ps| && IsPlainLiteral(ps[j])
    ensures LongestLiteral(ps) < |ps|
    ensures |ps[j].atom.chars| <= |ps[LongestLiteral(ps)].atom.chars|
    decreases |ps|
  {
    var init := ps[..|ps| - 1];
    if j < |init| {
      LongestIsLongest(init, j);
    }
  }

  /** The position of the k-th piece of a lone branch. */
  function PieceAt(ps: seq<Piece>, k: nat): nat
    requires k <= |ps|
  {
    3 + SizePieces(ps[..k])
  }

  /** Where the last of the longest plain literals is in the program, 0 if there is none, and its length. */
  function MustOf(ps: seq<Piece>): (nat, nat) {
    var k := LongestLiteral(ps);
    if k < |ps| then (PieceAt(ps, k) + 2, |ps[k].atom.chars|) else (0, 0)
  }

  /** The must-appear string of a pattern: only one that starts with a loop has one. */
  function Must(alts: seq<Branch>): (nat, nat) {
    if |alts| == 1 && PiecesStartLoop(alts[0].pieces) then MustOf(alts[0].pieces) else (0, 0)
  }

  /** One more piece considered. */
  lemma MustStep(ps: seq<Piece>, k: nat)
    requires k < |ps|
    ensures !IsPlainLiteral(ps[k]) ==> MustOf(ps[..k + 1]) == MustOf(ps[..k])
    ensures IsPlainLiteral(ps[k]) && |ps[k].atom.chars| >= MustOf(ps[..k]).1 ==>
      MustOf(ps[..k + 1]) == (PieceAt(ps, k) + 2, |ps[k].atom.chars|)
    ensures IsPlainLiteral(ps[k]) && |ps[k].atom.chars| < MustOf(ps[..k]).1 ==> MustOf(ps[..k + 1]) == MustOf(ps[..k])
  {
    var next := ps[..k + 1];
    assert next[..|next| - 1] == ps[..k] && next[|next| - 1] == ps[k];
    var j, i := LongestLiteral(ps[..k]), LongestLiteral(next);
    assert j < k ==> ps[..k][..j] == ps[..j];
    assert i <= k ==> next[..i] == ps[..i];
  }

  // ----- The chain of nodes -----

  /** Next offsets lead from `p` to `q` past nodes that are not literals. */
  ghost predicate Quiet(prog: seq<int>, p: int, q: int)
    decreases q - p
  {
    p == q ||
    (0 <= p < q && p + 1 < |prog| && prog[p] != BACK && prog[p] != EXACTLY && prog[p + 1] > 0
     && Quiet(prog, p + prog[p + 1], q))
  }

  lemma {:induction false} QuietForward(prog: seq<int>, p: int, q: int)
    requires Quiet(prog, p, q)
    ensures p <= q
  {
  }

  lemma QuietNext(prog: seq<int>, p: nat, q: int)
    requires Quiet(prog, p, q) && p != q
    ensures p + 1 < |prog| && prog[p] != BACK && prog[p] != EXACTLY && prog[p + 1] > 0
    ensures Quiet(prog, p + prog[p + 1], q) && p + prog[p + 1] <= q
  {
    QuietForward(prog, p + prog[p + 1], q);
  }

  lemma QuietStep(prog: seq<int>, p: int, n: nat, q: int)
    requires 0 <= p && p + 1 < |prog| && prog[p] != BACK && prog[p] != EXACTLY && prog[p + 1] == n > 0
    requires Quiet(prog, p + n, q)
    ensures Quiet(prog, p, q)
  {
    QuietForward(prog, p + n, q);
  }

  lemma {:induction false} QuietTrans(prog: seq<int>, p: int, q: int, r: int)
    requires Quiet(prog, p, q) && Quiet(prog, q, r)
    ensures Quiet(prog, p, r)
    decreases q - p
  {
    if p != q {
      QuietTrans(prog, p + prog[p + 1], q, r);
      QuietForward(prog, q, r);
    }
  }

  lemma {:induction false} AltsQuiet(prog: seq<int>, p: int, alts: seq<Branch>, extra: nat, q: int)
    requires Has(prog, p, CodeAlts(alts, extra)) && q == p + SizeAlts(alts)
    ensures Quiet(prog, p, q)
    decreases |alts|
  {
    if alts != [] {
      var n := 2 + SizeBody(alts[0].pieces);
      AltsSplit(prog, p, alts, extra);
      BranchSplit(prog, p, alts[0], To(SizeAlts(alts[1..]) + extra), n);
      AltsQuiet(prog, p + n, alts[1..], extra, q);
      QuietStep(prog, p, n, q);
    }
  }

  /** A piece that is not a plain literal is passed over quietly. */
  lemma PieceQuiet(prog: seq<int>, p: int, x: Piece, q: int)
    requires WellFormedPiece(x) && !IsPlainLiteral(x)
    requires Has(prog, p, CodePiece(x, To(0))) && q == p + SizePiece(x)
    ensures Quiet(prog, p, q)
  {
    if x.count.Once? && x.atom.Group? {
      assert CodePiece(x, To(0)) == CodeAtom(x.atom, To(0));
      GroupQuiet(prog, p, x.atom.no, x.atom.alts, q);
    } else {
      HasAt(prog, p, CodePiece(x, To(0)), 0);
      HasAt(prog, p, CodePiece(x, To(0)), 1);
      assert Quiet(prog, q, q);
      QuietStep(prog, p, SizePiece(x), q);
    }
  }

  lemma GroupQuiet(prog: seq<int>, p: int, no: int, alts: seq<Branch>, q: int)
    requires -1 <= no && Has(prog, p, [OPEN + no, 2] + CodeAlts(alts, 0) + [CLOSE + no, 2])
    requires q == p + 2 + SizeAlts(alts) + 2
    ensures Quiet(prog, p, q)
  {
    GroupSplit(prog, p, no, alts, 2);
    var close := p + 2 + SizeAlts(alts);
    assert Quiet(prog, q, q);
    QuietStep(prog, close, 2, q);
    AltsQuiet(prog, p + 2, alts, 0, close);
    QuietTrans(prog, p + 2, close, q);
    QuietStep(prog, p, 2, q);
  }

  /** A plain literal is one node. */
  lemma LiteralNode(prog: seq<int>, p: int, x: Piece, q: int)
    requires IsPlainLiteral(x) && Has(prog, p, CodePiece(x, To(0))) && q == p + SizePiece(x)
    ensures prog[p] == EXACTLY && prog[p + 1] == q - p
    ensures Has(prog, p + 2, x.atom.chars + [0])
  {
    assert CodePiece(x, To(0)) == CodeAtom(x.atom, To(0));
    HasSplit(prog, p, [EXACTLY, 2 + |x.atom.chars + [0]|], x.atom.chars + [0]);
    HasTwo(prog, p, EXACTLY, 2 + |x.atom.chars + [0]|);
  }

  /** The k-th piece of a branch whose tail leads to its end is where PieceAt says. */
  lemma {:induction false} PieceThere(prog: seq<int>, p: int, ps: seq<Piece>, k: nat, at: int)
    requires k < |ps| && Has(prog, p, CodePieces(ps, To(0))) && at == p + SizePieces(ps[..k])
    ensures p <= at && at + SizePiece(ps[k]) <= p + SizePieces(ps)
    ensures Has(prog, at, CodePiece(ps[k], To(0)))
    ensures SizePieces(ps[..k + 1]) == SizePieces(ps[..k]) + SizePiece(ps[k])
    decreases |ps|
  {
    PiecesCons(prog, p, ps, To(0));
    if k > 0 {
      assert ps[..k] == [ps[0]] + ps[1..][..k - 1];
      assert ps[..k + 1] == [ps[0]] + ps[1..][..k];
      SizeCons(ps[0], ps[1..][..k - 1]);
      SizeCons(ps[0], ps[1..][..k]);
      PieceThere(prog, p + SizePiece(ps[0]), ps[1..], k - 1, at);
    } else {
      assert ps[..1] == [ps[0]] + [];
      SizeCons(ps[0], []);
    }
  }

  lemma SizeCons(x: Piece, ps: seq<Piece>)
    ensures SizePieces([x] + ps) == SizePiece(x) + SizePieces(ps)
  {
    assert ([x] + ps)[1..] == ps;
  }

  // ----- The chain through the lone branch of a program -----

  /** The code of the pieces of a lone branch, and the end of the program. */
  lemma LoneBranch(prog: seq<int>, alts: seq<Branch>)
    requires |alts| == 1 && prog == CodeProgram(alts)
    ensures |prog| == 3 + SizeBody(alts[0].pieces) + 2
    ensures prog[1] == BRANCH && prog[2] == |prog| - 3
    ensures Has(prog, 3, CodeBody(alts[0].pieces, To(0)))
    ensures prog[|prog| - 2] == END && prog[|prog| - 1] == 0
  {
    var b := alts[0];
    var n := 2 + SizeBody(b.pieces);
    assert alts[1..] == [];
    assert CodeAlts(alts, 0) == CodeBranch(b, To(0), n) + [];
    HasMiddle([REG_MAGIC], CodeAlts(alts, 0), [END, 0]);
    HasMiddle([REG_MAGIC] + CodeAlts(alts, 0), [END, 0], []);
    assert [REG_MAGIC] + CodeAlts(alts, 0) + [END, 0] + [] == prog;
    HasTwo(prog, 1 + n, END, 0);
    HasSplit(prog, 1, CodeBranch(b, To(0), n), []);
    BranchSplit(prog, 1, b, To(0), n);
  }

  /** The first node of a pattern with several alternatives is followed by another branch. */
  lemma SeveralBranches(prog: seq<int>, alts: seq<Branch>)
    requires |alts| > 1 && prog == CodeProgram(alts)
    ensures |prog| > 2 && prog[1] == BRANCH && 0 < prog[2] < |prog| - 2 && prog[1 + prog[2]] == BRANCH
  {
    HasMiddle([REG_MAGIC], CodeAlts(alts, 0), [END, 0]);
    var n := 2 + SizeBody(alts[0].pieces);
    BranchNode(prog, 1, alts, n);
    BranchNode(prog, 1 + n, alts[1..], 2 + SizeBody(alts[1].pieces));
  }

  /** The node of the first of several alternatives, and where the others are. */
  lemma BranchNode(prog: seq<int>, p: nat, alts: seq<Branch>, n: nat)
    requires alts != [] && Has(prog, p, CodeAlts(alts, 0)) && n == 2 + SizeBody(alts[0].pieces)
    ensures p + 1 < |prog| && prog[p] == BRANCH && prog[p + 1] == n && Has(prog, p + n, CodeAlts(alts[1..], 0))
  {
    AltsSplit(prog, p, alts, 0);
    BranchSplit(prog, p, alts[0], To(SizeAlts(alts[1..]) + 0), n);
  }

  /** What the node at the k-th piece is. */
  lemma NodeAtPiece(prog: seq<int>, alts: seq<Branch>, k: nat, p: int, q: int)
    requires |alts| == 1 && prog == CodeProgram(alts) && WellFormedPieces(alts[0].pieces) && k < |alts[0].pieces|
    requires p == PieceAt(alts[0].pieces, k) && q == PieceAt(alts[0].pieces, k + 1)
    ensures 0 < p < q <= |prog| - 2
    ensures IsPlainLiteral(alts[0].pieces[k]) ==>
      prog[p] == EXACTLY && prog[p + 1] == q - p && Has(prog, p + 2, alts[0].pieces[k].atom.chars + [0])
    ensures !IsPlainLiteral(alts[0].pieces[k]) ==> Quiet(prog, p, q)
  {
    var ps := alts[0].pieces;
    LoneBranch(prog, alts);
    PieceThere(prog, 3, ps, k, p);
    if IsPlainLiteral(ps[k]) {
      LiteralNode(prog, p, ps[k], q);
    } else {
      PieceQuiet(prog, p, ps[k], q);
    }
  }

  /** Passing over the pieces that start at `scan` without a literal: what the walk finds there. */
  lemma Settle(prog: seq<int>, alts: seq<Branch>, scan: nat, k0: nat) returns (k: nat)
    requires |alts| == 1 && prog == CodeProgram(alts) && WellFormedAlts(alts) && k0 <= |alts[0].pieces|
    requires alts[0].pieces != []
    requires 0 < scan && scan + 1 < |prog| && Quiet(prog, scan, PieceAt(alts[0].pieces, k0))
    ensures k0 <= k <= |alts[0].pieces| && MustOf(alts[0].pieces[..k]) == MustOf(alts[0].pieces[..k0])
    ensures var at := PieceAt(alts[0].pieces, k);
      if prog[scan] == EXACTLY then k < |alts[0].pieces| && scan == at && IsPlainLiteral(alts[0].pieces[k])
      else if prog[scan + 1] == 0 then k == |alts[0].pieces|
      else prog[scan] != BACK && prog[scan + 1] > 0 && Quiet(prog, scan + prog[scan + 1], at) && scan + prog[scan + 1] < |prog| - 1
  {
    var ps := alts[0].pieces;
    k := k0;
    LoneBranch(prog, alts);
    assert ps[..|ps|] == ps;
    if scan == PieceAt(ps, k) && k < |ps| {
      NodeAtPiece(prog, alts, k, scan, PieceAt(ps, k + 1));
      if !IsPlainLiteral(ps[k]) {
        MustStep(ps, k);
        k := k + 1;
      }
    }
    if scan != PieceAt(ps, k) {
      QuietNext(prog, scan, PieceAt(ps, k));
      if k < |ps| {
        NodeAtPiece(prog, alts, k, PieceAt(ps, k), PieceAt(ps, k + 1));
      }
    }
  }

  /** The opcode that the code of a piece starts with. */
  lemma FirstWord(x: Piece, t: Tail)
    requires WellFormedPiece(x)
    ensures CodePiece(x, t)[0] == EXACTLY <==> IsPlainLiteral(x)
    ensures CodePiece(x, t)[0] == BOL <==> x == Piece(Bol, Once)
  {
    if x.count.Once? {
      assert CodePiece(x, t) == CodeAtom(x.atom, t);
    }
  }

  /** The first node of a lone branch. */
  lemma FirstNode(prog: seq<int>, alts: seq<Branch>)
    requires |alts| == 1 && prog == CodeProgram(alts) && WellFormedAlts(alts)
    ensures |prog| > 5
    ensures prog[3] == EXACTLY ==> prog[5] == FirstChar(alts)
    ensures prog[3] != EXACTLY ==> FirstChar(alts) == 0
    ensures prog[3] == BOL <==> IsAnchored(alts)
  {
    LoneBranch(prog, alts);
    var ps := alts[0].pieces;
    if ps == [] {
      HasTwo(prog, 3, NOTHING, 2);
    } else {
      assert WellFormedPieces(ps);
      PiecesCons(prog, 3, ps, To(0));
      FirstNodeOf(prog, ps[0]);
    }
  }

  lemma FirstNodeOf(prog: seq<int>, x: Piece)
    requires WellFormedPiece(x) && Has(prog, 3, CodePiece(x, To(0)))
    ensures prog[3] == EXACTLY <==> IsPlainLiteral(x)
    ensures prog[3] == BOL <==> x == Piece(Bol, Once)
    ensures IsPlainLiteral(x) ==> |prog| > 5 && prog[5] == CharAt(x.atom.chars, 0)
  {
    HasAt(prog, 3, CodePiece(x, To(0)), 0);
    FirstWord(x, To(0));
    if IsPlainLiteral(x) {
      LiteralNode(prog, 3, x, 3 + SizePiece(x));
      HasAt(prog, 5, x.atom.chars + [0], 0);
    }
  }
}
