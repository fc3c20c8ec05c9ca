/** The layout of a compiled program: a walk by node sizes visits every node, and every next offset leads
    from a node to the start of another, forwards except from BACK nodes. */
module RegexLayout {
  import opened RegexSyntax
  import opened RegexParser
  import opened RegexCode
  import opened RegexRun

  /** The position of the first zero word at or after `p`. */
  function ZeroAt(prog: seq<int>, p: nat): (z: nat)
    ensures p <= z
    decreases |prog| - p
  {
    if p < |prog| && prog[p] != 0 then ZeroAt(prog, p + 1) else p
  }

  /** The number of words of the node at `p`, as regopsize computes it. */
  function OpSize(prog: seq<int>, p: nat): (n: nat)
    requires p < |prog|
    ensures n >= 2
  {
    var op := prog[p];
    if op == REP || op == REPMIN || op == REPX || op == REPXMIN then 5
    else if op == ANYOF || op == ANYBUT || op == EXACTLY then ZeroAt(prog, p + 2) + 1 - p
    else 2
  }

  /** Node sizes lead from `p` to `q`. */
  ghost predicate Walks(prog: seq<int>, p: int, q: int)
    decreases q - p
  {
    p == q || (0 <= p < q && p < |prog| && Walks(prog, p + OpSize(prog, p), q))
  }

  lemma {:induction false} WalksForward(prog: seq<int>, p: int, q: int)
    requires Walks(prog, p, q)
    ensures p <= q
  {
  }

  lemma WalksStep(prog: seq<int>, p: int, n: nat, q: int)
    requires 0 <= p < |prog| && OpSize(prog, p) == n && Walks(prog, p + n, q)
    ensures Walks(prog, p, q)
  {
    WalksForward(prog, p + n, q);
  }

  lemma {:induction false} WalksTrans(prog: seq<int>, p: int, q: int, r: int)
    requires Walks(prog, p, q) && Walks(prog, q, r)
    ensures Walks(prog, p, r)
    decreases q - p
  {
    if p != q {
      WalksTrans(prog, p + OpSize(prog, p), q, r);
      WalksForward(prog, q, r);
    }
  }

  /** Two walks from one place: the shorter is part of the longer. */
  lemma {:induction false} WalksSplit(prog: seq<int>, p: int, q: int, r: int)
    requires Walks(prog, p, q) && Walks(prog, p, r) && q <= r
    ensures Walks(prog, q, r)
    decreases q - p
  {
    if p != q {
      WalksForward(prog, p, q);
      WalksSplit(prog, p + OpSize(prog, p), q, r);
    }
  }

  /** A node before the END node; its next offset is zero, or the distance to a node of the stretch or to one of
      its exits, and the counter of a complex repeat is zero. */
  ghost predicate NodeGood(prog: seq<int>, lo: int, hi: int, exits: set<int>, n: int) {
    && 0 <= n && n + 1 < |prog| && prog[n] != END
    && (prog[n + 1] != 0 ==>
          var target := if prog[n] == BACK then n - prog[n + 1] else n + prog[n + 1];
          && ((lo <= target < hi && Walks(prog, lo, target)) || target in exits)
          && (if prog[n] == BACK then target < n else n < target))
    && (prog[n] == REPX || prog[n] == REPXMIN ==> n + 4 < |prog| && prog[n + 4] == 0)
  }

  /** A stretch of whole nodes, each of which is good. */
  ghost predicate Stretch(prog: seq<int>, lo: int, hi: int, exits: set<int>) {
    Walks(prog, lo, hi) && forall n :: lo <= n < hi && Walks(prog, lo, n) ==> NodeGood(prog, lo, hi, exits, n)
  }

  /** Two stretches side by side. */
  lemma StretchJoin(prog: seq<int>, a: int, b: int, c: int, e: set<int>, f: set<int>)
    requires Stretch(prog, a, b, e) && Stretch(prog, b, c, f)
    ensures Stretch(prog, a, c, e + f)
  {
    WalksTrans(prog, a, b, c);
    forall n | a <= n < c && Walks(prog, a, n) ensures NodeGood(prog, a, c, e + f, n) {
      JoinNode(prog, a, b, c, e, f, n);
    }
  }

  lemma JoinNode(prog: seq<int>, a: int, b: int, c: int, e: set<int>, f: set<int>, n: int)
    requires Stretch(prog, a, b, e) && Stretch(prog, b, c, f) && a <= n < c && Walks(prog, a, n)
    ensures NodeGood(prog, a, c, e + f, n)
  {
    WalksForward(prog, b, c);
    if n < b {
      assert NodeGood(prog, a, b, e, n);
    } else {
      WalksSplit(prog, a, b, n);
      assert NodeGood(prog, b, c, f, n);
      if prog[n + 1] != 0 {
        var target := if prog[n] == BACK then n - prog[n + 1] else n + prog[n + 1];
        if b <= target < c && Walks(prog, b, target) {
          WalksTrans(prog, a, b, target);
          WalksForward(prog, a, b);
        }
      }
    }
  }

  /** An exit that is a node of the stretch is no exit. */
  lemma StretchClose(prog: seq<int>, lo: int, hi: int, exits: set<int>, inner: int)
    requires Stretch(prog, lo, hi, exits + {inner}) && lo <= inner < hi && Walks(prog, lo, inner)
    ensures Stretch(prog, lo, hi, exits)
  {
    forall n | lo <= n < hi && Walks(prog, lo, n) ensures NodeGood(prog, lo, hi, exits, n) {
      assert NodeGood(prog, lo, hi, exits + {inner}, n);
    }
  }

  /** One node. */
  lemma StretchNode(prog: seq<int>, p: int, q: int, exits: set<int>)
    requires 0 <= p && p + 1 < |prog| && OpSize(prog, p) == q - p && NodeGood(prog, p, q, exits, p)
    ensures Stretch(prog, p, q, exits)
  {
    assert Walks(prog, q, q);
    WalksStep(prog, p, q - p, q);
    forall n | p <= n < q && Walks(prog, p, n) ensures n == p {
      if n != p {
        WalksForward(prog, q, n);
      }
    }
  }

  // ----- Nodes with operands -----

  lemma {:induction false} ZeroFound(prog: seq<int>, p: nat, code: seq<int>)
    requires Has(prog, p, code + [0]) && forall k :: 0 <= k < |code| ==> code[k] != 0
    ensures ZeroAt(prog, p) == p + |code|
    decreases |code|
  {
    HasAt(prog, p, code + [0], 0);
    if code != [] {
      assert code + [0] == [code[0]] + (code[1..] + [0]);
      HasSplit(prog, p, [code[0]], code[1..] + [0]);
      ZeroFound(prog, p + 1, code[1..]);
    }
  }

  lemma {:induction false} RangesNonzero(ranges: seq<Range>)
    requires WellFormedRanges(ranges) && SaneRanges(ranges)
    ensures forall k :: 0 <= k < |RangesCode(ranges)| ==> RangesCode(ranges)[k] != 0
    decreases |ranges|
  {
    if ranges != [] {
      var r, rest := ranges[0], ranges[1..];
      assert forall j :: 0 <= j < |rest| ==> rest[j] == ranges[j + 1];
      RangesNonzero(rest);
      assert forall k :: 0 <= k < |RangeCode(r)| ==> RangeCode(r)[k] != 0;
    }
  }

  /** No class anywhere has a reversed item with neighbouring ends. */
  ghost predicate SaneAlts(alts: seq<Branch>) {
    forall k :: 0 <= k < |alts| ==> SanePieces(alts[k].pieces)
  }

  ghost predicate SanePieces(ps: seq<Piece>) {
    forall k :: 0 <= k < |ps| ==> SanePiece(ps[k])
  }

  ghost predicate SanePiece(p: Piece) {
    SaneAtom(p.atom)
  }

  ghost predicate SaneAtom(a: Atom) {
    (a.Class? ==> SaneRanges(a.ranges)) && (a.Group? ==> SaneAlts(a.alts))
  }

  /** A leaf's node fills its code. */
  lemma LeafSize(prog: seq<int>, p: nat, a: Atom, next: nat)
    requires !a.Group? && WellFormedAtom(a) && SaneAtom(a)
    requires Has(prog, p, [Opcode(a), next] + Operand(a))
    ensures prog[p] == Opcode(a) && prog[p + 1] == next && OpSize(prog, p) == 2 + |Operand(a)|
  {
    HasSplit(prog, p, [Opcode(a), next], Operand(a));
    HasTwo(prog, p, Opcode(a), next);
    match a {
      case Class(_, ranges) =>
        RangesNonzero(ranges);
        ZeroFound(prog, p + 2, RangesCode(ranges));
      case Literal(chars) => ZeroFound(prog, p + 2, chars);
      case _ =>
    }
  }

  // ----- Every piece of code is a stretch -----

  /** Where the tail of code that ends at `q` leads. */
  function Exits(t: Tail, q: int): set<int> {
    if t.Loose? then {} else {q + t.distance}
  }

  lemma LeafStretch(prog: seq<int>, p: int, a: Atom, t: Tail, q: int)
    requires !a.Group? && WellFormedAtom(a) && SaneAtom(a) && Has(prog, p, CodeAtom(a, t)) && q == p + SizeAtom(a)
    ensures Stretch(prog, p, q, Exits(t, q))
  {
    LeafSize(prog, p, a, Off(t, 2 + |Operand(a)|));
    StretchNode(prog, p, q, Exits(t, q));
  }

  /** A node of two words that leads forwards out of itself. */
  lemma TwoStretch(prog: seq<int>, p: int, next: nat, e: int)
    requires 0 <= p && p + 1 < |prog| && OpSize(prog, p) == 2
    requires prog[p] != END && prog[p] != BACK && prog[p] != REPX && prog[p] != REPXMIN
    requires prog[p + 1] == next && (next != 0 ==> p + next == e)
    ensures Stretch(prog, p, p + 2, if next == 0 then {} else {e})
  {
    StretchNode(prog, p, p + 2, if next == 0 then {} else {e});
  }

  lemma {:induction false} AtomStretch(prog: seq<int>, p: int, a: Atom, t: Tail, q: int)
    requires WellFormedAtom(a) && SaneAtom(a) && Has(prog, p, CodeAtom(a, t)) && q == p + SizeAtom(a)
    ensures Stretch(prog, p, q, Exits(t, q))
    decreases a, 0
  {
    match a {
      case Group(no, alts) =>
        var close := q - 2;
        GroupSplit(prog, p, no, alts, Off(t, 2));
        TwoStretch(prog, p, 2, p + 2);
        AltsStretch(prog, p + 2, alts, close, close);
        TwoStretch(prog, close, Off(t, 2), q + if t.Loose? then 0 else t.distance);
        GroupJoin(prog, p, close, q, Exits(t, q));
      case _ => LeafStretch(prog, p, a, t, q);
    }
  }

  lemma GroupJoin(prog: seq<int>, p: int, close: int, q: int, exits: set<int>)
    requires Stretch(prog, p, p + 2, {p + 2}) && Stretch(prog, p + 2, close, {close}) && Stretch(prog, close, q, exits)
    requires p + 2 < close < q
    ensures Stretch(prog, p, q, exits)
  {
    StretchJoin(prog, p + 2, close, q, {close}, exits);
    assert {close} + exits == exits + {close};
    StretchClose(prog, p + 2, q, exits, close);
    StretchJoin(prog, p, p + 2, q, {p + 2}, exits);
    assert {p + 2} + exits == exits + {p + 2};
    StretchClose(prog, p, q, exits, p + 2);
  }

  lemma {:induction false} PieceStretch(prog: seq<int>, p: int, x: Piece, t: Tail, q: int)
    requires WellFormedPiece(x) && SanePiece(x) && Has(prog, p, CodePiece(x, t)) && q == p + SizePiece(x)
    ensures Stretch(prog, p, q, Exits(t, q))
    decreases x, 1
  {
    if x.count.Once? {
      AtomStretch(prog, p, x.atom, t, q);
    } else {
      var at := RepeatSplit(prog, p, x, t, q);
      if IsSimple(x.atom) {
        AtomStretch(prog, at, x.atom, Loose, q);
        StretchJoin(prog, p, at, q, Exits(t, q), {});
        assert Exits(t, q) + {} == Exits(t, q);
      } else {
        AtomStretch(prog, at, x.atom, To(0), q - 2);
        LoopJoin(prog, p, q - 2, q, Exits(t, q));
      }
    }
  }

  /** The head of a repeat, where its operand is, and for a loop the BACK node at its end. */
  lemma RepeatSplit(prog: seq<int>, p: int, x: Piece, t: Tail, q: int) returns (at: int)
    requires WellFormedPiece(x) && SanePiece(x) && x.count.Repeat? && Has(prog, p, CodePiece(x, t)) && q == p + SizePiece(x)
    ensures at == p + 5 && Stretch(prog, p, at, Exits(t, q))
    ensures IsSimple(x.atom) ==> Has(prog, at, CodeAtom(x.atom, Loose)) && q == at + SizeAtom(x.atom)
    ensures !IsSimple(x.atom) ==>
              && Has(prog, at, CodeAtom(x.atom, To(0))) && q - 2 == at + SizeAtom(x.atom) && q <= |prog|
              && prog[q - 2] == BACK && prog[q - 1] == q - 2 - p
  {
    at := p + 5;
    var head := [RepeatOpcode(x.atom, x.count.greedy), Off(t, SizePiece(x)), x.count.max, x.count.min, 0];
    if IsSimple(x.atom) {
      HasSplit(prog, p, head, CodeAtom(x.atom, Loose));
    } else {
      LoopSplit(prog, p, head, CodeAtom(x.atom, To(0)), 5 + SizeAtom(x.atom), q - 2);
    }
    RepeatHeadStretch(prog, p, head, Exits(t, q), q);
  }

  lemma LoopSplit(prog: seq<int>, p: int, head: seq<int>, body: seq<int>, n: int, back: int)
    requires |head| == 5 && Has(prog, p, head + body + [BACK, n]) && back == p + 5 + |body|
    ensures Has(prog, p, head) && Has(prog, p + 5, body) && back + 2 <= |prog| && prog[back] == BACK && prog[back + 1] == n
  {
    SplitThree(prog, p, head, body, [BACK, n]);
    HasTwo(prog, back, BACK, n);
  }

  lemma RepeatHeadStretch(prog: seq<int>, p: int, head: seq<int>, exits: set<int>, q: int)
    requires Has(prog, p, head) && |head| == 5 && REP <= head[0] <= REPXMIN && head[4] == 0 && head[1] >= 0
    requires head[1] != 0 ==> exits == {p + head[1]}
    ensures Stretch(prog, p, p + 5, exits)
  {
    HasAt(prog, p, head, 0);
    HasAt(prog, p, head, 1);
    HasAt(prog, p, head, 4);
    StretchNode(prog, p, p + 5, exits);
  }

  /** A loop: its body leads to the BACK node, which leads back to the repeat. */
  lemma LoopJoin(prog: seq<int>, p: int, back: int, q: int, exits: set<int>)
    requires Stretch(prog, p, p + 5, exits) && Stretch(prog, p + 5, back, {back}) && p + 5 < back && q == back + 2 <= |prog|
    requires 0 <= p && prog[back] == BACK && prog[back + 1] == back - p
    ensures Stretch(prog, p, q, exits)
  {
    StretchNode(prog, back, q, {p});
    StretchJoin(prog, p + 5, back, q, {back}, {p});
    assert {back} + {p} == {p} + {back};
    StretchClose(prog, p + 5, q, {p}, back);
    StretchJoin(prog, p, p + 5, q, exits, {p});
    assert Walks(prog, p, p);
    StretchClose(prog, p, q, exits, p);
  }

  lemma {:induction false} PiecesStretch(prog: seq<int>, p: int, ps: seq<Piece>, t: Tail, q: int)
    requires ps != [] && WellFormedPieces(ps) && SanePieces(ps)
    requires Has(prog, p, CodePieces(ps, t)) && q == p + SizePieces(ps)
    ensures Stretch(prog, p, q, Exits(t, q))
    decreases ps, 0
  {
    PiecesCons(prog, p, ps, t);
    var mid := p + SizePiece(ps[0]);
    assert SizePieces(ps) == SizePiece(ps[0]) + SizePieces(ps[1..]);
    if |ps| == 1 {
      assert SizePieces(ps[1..]) == 0;
      PieceStretch(prog, p, ps[0], t, q);
    } else {
      PieceStretch(prog, p, ps[0], To(0), mid);
      PiecesStretch(prog, mid, ps[1..], t, q);
      StretchTwo(prog, p, mid, q, Exits(t, q));
    }
  }

  lemma StretchTwo(prog: seq<int>, p: int, mid: int, q: int, exits: set<int>)
    requires Stretch(prog, p, mid, {mid}) && Stretch(prog, mid, q, exits) && p <= mid < q
    ensures Stretch(prog, p, q, exits)
  {
    StretchJoin(prog, p, mid, q, {mid}, exits);
    assert {mid} + exits == exits + {mid};
    StretchClose(prog, p, q, exits, mid);
  }

  lemma {:induction false} BodyStretch(prog: seq<int>, p: int, ps: seq<Piece>, d: nat, q: int)
    requires WellFormedPieces(ps) && SanePieces(ps)
    requires Has(prog, p, CodeBody(ps, To(d))) && q == p + SizeBody(ps)
    ensures Stretch(prog, p, q, {q + d})
    decreases ps, 1
  {
    if ps == [] {
      HasTwo(prog, p, NOTHING, 2 + d);
      TwoStretch(prog, p, 2 + d, q + d);
    } else {
      PiecesStretch(prog, p, ps, To(d), q);
    }
  }

  /** Alternatives whose last branch ends at `q`; they all lead to `e`, which is there. */
  lemma {:induction false} AltsStretch(prog: seq<int>, p: int, alts: seq<Branch>, q: int, e: int)
    requires alts != [] && WellFormedAlts(alts) && SaneAlts(alts)
    requires Has(prog, p, CodeAlts(alts, 0)) && q == p + SizeAlts(alts) && e == q
    ensures Stretch(prog, p, q, {e}) && p < q
    decreases alts, 2
  {
    var b, rest := alts[0], alts[1..];
    var mid := p + 2 + SizeBody(b.pieces);
    AltsSplit(prog, p, alts, 0);
    BranchSplit(prog, p, b, To(SizeAlts(rest) + 0), 2 + SizeBody(b.pieces));
    assert WellFormedPieces(b.pieces) && SanePieces(b.pieces);
    TwoStretch(prog, p, 2 + SizeBody(b.pieces), mid);
    BodyStretch(prog, p + 2, b.pieces, SizeAlts(rest) + 0, mid);
    StretchJoin(prog, p, p + 2, mid, {mid}, {e});
    if rest == [] {
      assert {mid} + {e} == {e};
    } else {
      AltsStretch(prog, mid, rest, q, e);
      StretchJoin(prog, p, mid, q, {mid} + {e}, {e});
      assert {mid} + {e} + {e} == {e} + {mid};
      StretchClose(prog, p, q, {e}, mid);
    }
  }

  // ----- Where the nodes of a tree start -----

  /** The starts of the nodes emitted for an atom at `p`: of a group its opening node, those inside and the
      closing node. */
  function StartsAtom(a: Atom, p: int): seq<int>
    decreases a, 0
  {
    match a
    case Group(_, alts) => [p] + StartsAlts(alts, p + 2) + [p + 2 + SizeAlts(alts)]
    case _ => [p]
  }

  /** Of a repeat the head, its operand and, for a loop, the BACK node. */
  function StartsPiece(x: Piece, p: int): seq<int>
    decreases x, 1
  {
    if x.count.Once? then StartsAtom(x.atom, p)
    else [p] + StartsAtom(x.atom, p + 5) + if IsSimple(x.atom) then [] else [p + 5 + SizeAtom(x.atom)]
  }

  function StartsPieces(ps: seq<Piece>, p: int): seq<int>
    decreases ps, 0
  {
    if ps == [] then [] else StartsPiece(ps[0], p) + StartsPieces(ps[1..], p + SizePiece(ps[0]))
  }

  function StartsBody(ps: seq<Piece>, p: int): seq<int>
    decreases ps, 1
  {
    if ps == [] then [p] else StartsPieces(ps, p)
  }

  /** Of a choice each BRANCH node and what is in the branch. */
  function StartsAlts(alts: seq<Branch>, p: int): seq<int>
    decreases alts, 2
  {
    if alts == [] then []
    else [p] + StartsBody(alts[0].pieces, p + 2) + StartsAlts(alts[1..], p + 2 + SizeBody(alts[0].pieces))
  }

  /** Of a program all of these and the END node. */
  function Starts(alts: seq<Branch>): seq<int> {
    StartsAlts(alts, 1) + [1 + SizeAlts(alts)]
  }

  /** The positions that a walk by node sizes visits between `p` and `q`. */
  function Visited(prog: seq<int>, p: nat, q: int): seq<int>
    decreases q - p
  {
    if p < q && p < |prog| then [p] + Visited(prog, p + OpSize(prog, p), q) else []
  }

  ghost predicate Visits(prog: seq<int>, p: int, q: int, starts: seq<int>) {
    0 <= p && Walks(prog, p, q) && Visited(prog, p, q) == starts
  }

  lemma {:induction false} VisitsJoin(prog: seq<int>, p: int, q: int, r: int, a: seq<int>, b: seq<int>)
    requires Visits(prog, p, q, a) && Visits(prog, q, r, b)
    ensures Visits(prog, p, r, a + b)
    decreases q - p
  {
    WalksTrans(prog, p, q, r);
    if p == q {
      assert a == [] && [] + b == b;
    } else {
      WalksForward(prog, p + OpSize(prog, p), q);
      WalksForward(prog, q, r);
      var rest := Visited(prog, p + OpSize(prog, p), q);
      VisitsJoin(prog, p + OpSize(prog, p), q, r, rest, b);
      assert a + b == [p] + (rest + b);
    }
  }

  lemma NodeVisits(prog: seq<int>, p: int, q: int)
    requires 0 <= p < |prog| && OpSize(prog, p) == q - p
    ensures Visits(prog, p, q, [p])
  {
    assert Walks(prog, q, q);
    WalksStep(prog, p, q - p, q);
    assert Visited(prog, q, q) == [];
  }

  /** A part between two nodes. */
  lemma WrappedVisits(prog: seq<int>, p: int, a: int, b: int, q: int, starts: seq<int>)
    requires Visits(prog, p, a, [p]) && Visits(prog, a, b, starts) && Visits(prog, b, q, [b])
    ensures Visits(prog, p, q, [p] + starts + [b])
  {
    VisitsJoin(prog, p, a, b, [p], starts);
    VisitsJoin(prog, p, b, q, [p] + starts, [b]);
  }

  lemma {:induction false} AtomVisits(prog: seq<int>, p: int, a: Atom, t: Tail, q: int)
    requires WellFormedAtom(a) && SaneAtom(a) && Has(prog, p, CodeAtom(a, t)) && q == p + SizeAtom(a)
    ensures Visits(prog, p, q, StartsAtom(a, p))
    decreases a, 0
  {
    match a {
      case Group(no, alts) =>
        var close := q - 2;
        GroupSplit(prog, p, no, alts, Off(t, 2));
        NodeVisits(prog, p, p + 2);
        AltsVisit(prog, p + 2, alts, close);
        NodeVisits(prog, close, q);
        WrappedVisits(prog, p, p + 2, close, q, StartsAlts(alts, p + 2));
      case _ =>
        LeafSize(prog, p, a, Off(t, 2 + |Operand(a)|));
        NodeVisits(prog, p, q);
    }
  }

  lemma {:induction false} PieceVisits(prog: seq<int>, p: int, x: Piece, t: Tail, q: int)
    requires WellFormedPiece(x) && SanePiece(x) && Has(prog, p, CodePiece(x, t)) && q == p + SizePiece(x)
    ensures Visits(prog, p, q, StartsPiece(x, p))
    decreases x, 1
  {
    if x.count.Once? {
      AtomVisits(prog, p, x.atom, t, q);
    } else {
      var at := RepeatSplit(prog, p, x, t, q);
      HasAt(prog, p, CodePiece(x, t), 0);
      NodeVisits(prog, p, at);
      if IsSimple(x.atom) {
        AtomVisits(prog, at, x.atom, Loose, q);
        VisitsJoin(prog, p, at, q, [p], StartsAtom(x.atom, at));
        NoneAfter([p] + StartsAtom(x.atom, at));
      } else {
        AtomVisits(prog, at, x.atom, To(0), q - 2);
        NodeVisits(prog, q - 2, q);
        WrappedVisits(prog, p, at, q - 2, q, StartsAtom(x.atom, at));
      }
    }
  }

  lemma NoneAfter(a: seq<int>)
    ensures a + [] == a
  {
  }

  lemma {:induction false} PiecesVisit(prog: seq<int>, p: int, ps: seq<Piece>, t: Tail, q: int)
    requires WellFormedPieces(ps) && SanePieces(ps)
    requires Has(prog, p, CodePieces(ps, t)) && q == p + SizePieces(ps)
    ensures Visits(prog, p, q, StartsPieces(ps, p))
    decreases ps, 0
  {
    if ps != [] {
      var mid := p + SizePiece(ps[0]);
      PiecesCons(prog, p, ps, t);
      PieceVisits(prog, p, ps[0], if |ps| == 1 then t else To(0), mid);
      PiecesVisit(prog, mid, ps[1..], t, q);
      VisitsJoin(prog, p, mid, q, StartsPiece(ps[0], p), StartsPieces(ps[1..], mid));
    }
  }

  lemma {:induction false} BodyVisits(prog: seq<int>, p: int, ps: seq<Piece>, t: Tail, q: int)
    requires WellFormedPieces(ps) && SanePieces(ps) && Has(prog, p, CodeBody(ps, t)) && q == p + SizeBody(ps)
    ensures Visits(prog, p, q, StartsBody(ps, p))
    decreases ps, 1
  {
    if ps == [] {
      HasTwo(prog, p, NOTHING, Off(t, 2));
      NodeVisits(prog, p, q);
    } else {
      PiecesVisit(prog, p, ps, t, q);
    }
  }

  lemma {:induction false} AltsVisit(prog: seq<int>, p: int, alts: seq<Branch>, q: int)
    requires (forall k :: 0 <= k < |alts| ==> WellFormedPieces(alts[k].pieces)) && SaneAlts(alts)
    requires Has(prog, p, CodeAlts(alts, 0)) && q == p + SizeAlts(alts)
    ensures Visits(prog, p, q, StartsAlts(alts, p))
    decreases alts, 2
  {
    if alts != [] {
      var b, rest := alts[0], alts[1..];
      var mid := p + 2 + SizeBody(b.pieces);
      AltsSplit(prog, p, alts, 0);
      BranchSplit(prog, p, b, To(SizeAlts(rest) + 0), 2 + SizeBody(b.pieces));
      NodeVisits(prog, p, p + 2);
      BodyVisits(prog, p + 2, b.pieces, To(SizeAlts(rest) + 0), mid);
      VisitsJoin(prog, p, p + 2, mid, [p], StartsBody(b.pieces, p + 2));
      AltsVisit(prog, mid, rest, q);
      VisitsJoin(prog, p, mid, q, [p] + StartsBody(b.pieces, p + 2), StartsAlts(rest, mid));
    }
  }

  // ----- The whole program -----

  lemma ProgramParts(prog: seq<int>, alts: seq<Branch>)
    requires prog == CodeProgram(alts)
    ensures |prog| == SizeAlts(alts) + 3 && Has(prog, 1, CodeAlts(alts, 0))
    ensures prog[|prog| - 2] == END && prog[|prog| - 1] == 0
  {
    var code := CodeAlts(alts, 0);
    HasMiddle([REG_MAGIC], code, [END, 0]);
    HasMiddle([REG_MAGIC] + code, [END, 0], []);
    assert [REG_MAGIC] + code + [END, 0] + [] == prog;
    HasTwo(prog, |prog| - 2, END, 0);
  }

  lemma ProgramStretch(prog: seq<int>, alts: seq<Branch>)
    requires WellFormedAlts(alts) && SaneAlts(alts) && prog == CodeProgram(alts)
    ensures |prog| > 5 && Stretch(prog, 1, |prog| - 2, {|prog| - 2})
    ensures prog[|prog| - 2] == END && prog[|prog| - 1] == 0
  {
    ProgramParts(prog, alts);
    AltsStretch(prog, 1, alts, |prog| - 2, |prog| - 2);
  }

  /** The walk by node sizes visits exactly the nodes of the tree, each once and in order, before the END node. */
  lemma WalkVisitsAll(alts: seq<Branch>)
    requires WellFormedAlts(alts) && SaneAlts(alts)
    ensures var prog := CodeProgram(alts);
      && Walks(prog, 1, |prog| - 2) && Visited(prog, 1, |prog| - 2) + [|prog| - 2] == Starts(alts)
      && prog[|prog| - 2] == END
  {
    var prog := CodeProgram(alts);
    ProgramParts(prog, alts);
    AltsVisit(prog, 1, alts, |prog| - 2);
  }

  /** And so does the walk from the operand of the first branch on, but for that branch. */
  lemma WalkReachesEnd(alts: seq<Branch>)
    requires WellFormedAlts(alts) && SaneAlts(alts)
    ensures var prog := CodeProgram(alts);
      && Walks(prog, 3, |prog| - 2) && [1] + Visited(prog, 3, |prog| - 2) + [|prog| - 2] == Starts(alts)
      && prog[|prog| - 2] == END
  {
    var prog := CodeProgram(alts);
    ProgramStretch(prog, alts);
    FirstIsBranch(prog, alts);
    assert Walks(prog, 3, 3);
    WalksStep(prog, 1, 2, 3);
    WalksSplit(prog, 1, 3, |prog| - 2);
    WalkVisitsAll(alts);
  }

  lemma FirstIsBranch(prog: seq<int>, alts: seq<Branch>)
    requires alts != [] && prog == CodeProgram(alts)
    ensures |prog| > 1 && prog[1] == BRANCH
  {
    ProgramParts(prog, alts);
    AltsSplit(prog, 1, alts, 0);
    BranchSplit(prog, 1, alts[0], To(SizeAlts(alts[1..]) + 0), 2 + SizeBody(alts[0].pieces));
  }

  lemma {:induction false} VisitedIsWalk(prog: seq<int>, p: nat, q: int, n: int)
    requires Walks(prog, p, q)
    ensures n in Visited(prog, p, q) <==> n < q && Walks(prog, p, n)
    decreases q - p
  {
    if p != q {
      VisitedIsWalk(prog, p + OpSize(prog, p), q, n);
      if Walks(prog, p + OpSize(prog, p), n) {
        WalksForward(prog, p + OpSize(prog, p), n);
      }
    } else if Walks(prog, p, n) {
      WalksForward(prog, p, n);
    }
  }

  /** The nodes of a program are where node sizes lead from the first branch. */
  lemma StartIsWalk(alts: seq<Branch>, n: int)
    requires WellFormedAlts(alts) && SaneAlts(alts)
    ensures n in Starts(alts) <==> n <= |CodeProgram(alts)| - 2 && Walks(CodeProgram(alts), 1, n)
  {
    var prog := CodeProgram(alts);
    WalkVisitsAll(alts);
    VisitedIsWalk(prog, 1, |prog| - 2, n);
  }

  /** Every next offset of a node leads to the start of a node, forwards except from a BACK node. */
  lemma NextIsNode(alts: seq<Branch>, n: int)
    requires WellFormedAlts(alts) && SaneAlts(alts) && n in Starts(alts)
    ensures var prog := CodeProgram(alts);
      && 0 < n && n + 1 < |prog|
      && (prog[n + 1] != 0 ==>
            var target := if prog[n] == BACK then n - prog[n + 1] else n + prog[n + 1];
            target in Starts(alts) && (if prog[n] == BACK then target < n else n < target))
  {
    var prog := CodeProgram(alts);
    ProgramStretch(prog, alts);
    StartIsWalk(alts, n);
    WalksForward(prog, 1, n);
    if prog[n + 1] != 0 {
      assert NodeGood(prog, 1, |prog| - 2, {|prog| - 2}, n);
      var target := if prog[n] == BACK then n - prog[n + 1] else n + prog[n + 1];
      StartIsWalk(alts, target);
    }
  }

  // ----- The counters of complex repeats -----

  /** The word is the counter of a complex repeat of the program. */
  ghost predicate IsCounter(alts: seq<Branch>, k: int) {
    var prog := CodeProgram(alts);
    k - 4 in Starts(alts) && 0 <= k - 4 < |prog| && (prog[k - 4] == REPX || prog[k - 4] == REPXMIN)
  }

  /** The program as it was compiled, but for its counters. */
  ghost predicate CountersAside(alts: seq<Branch>, prog: seq<int>) {
    var code := CodeProgram(alts);
    |prog| == |code| && forall k :: 0 <= k < |code| && !IsCounter(alts, k) ==> prog[k] == code[k]
  }

  /** A counter is inside the node of its repeat. */
  lemma CounterIsInside(alts: seq<Branch>, n: int, k: int)
    requires WellFormedAlts(alts) && SaneAlts(alts)
    requires n in Starts(alts) && IsCounter(alts, k) && 0 <= n < |CodeProgram(alts)|
    requires n <= k < n + OpSize(CodeProgram(alts), n)
    ensures k == n + 4
  {
    var prog := CodeProgram(alts);
    var m := k - 4;
    StartIsWalk(alts, n);
    StartIsWalk(alts, m);
    if m < n {
      WalksSplit(prog, 1, m, n);
      WalksForward(prog, m + OpSize(prog, m), n);
    } else if n < m {
      WalksSplit(prog, 1, n, m);
      WalksForward(prog, n + OpSize(prog, n), m);
    }
  }

  /** And so neither before the second node nor at the end of the program. */
  lemma CounterBounds(alts: seq<Branch>, k: int)
    requires WellFormedAlts(alts) && SaneAlts(alts) && IsCounter(alts, k)
    ensures 5 <= k < |CodeProgram(alts)| - 2
  {
    var prog := CodeProgram(alts);
    WalkVisitsAll(alts);
    StartIsWalk(alts, k - 4);
    WalksForward(prog, 1, k - 4);
    WalksSplit(prog, 1, k - 4, |prog| - 2);
    WalksForward(prog, k - 4 + OpSize(prog, k - 4), |prog| - 2);
  }

  lemma {:induction false} SameZero(a: seq<int>, b: seq<int>, p: nat)
    requires |a| == |b| && ZeroAt(b, p) < |b| && forall k :: p <= k <= ZeroAt(b, p) ==> a[k] == b[k]
    ensures ZeroAt(a, p) == ZeroAt(b, p)
    decreases |a| - p
  {
    if p < |b| && b[p] != 0 {
      SameZero(a, b, p + 1);
    }
  }

  predicate IsSized(op: int) {
    op == ANYOF || op == ANYBUT || op == EXACTLY
  }

  /** Equal words make a node of equal size. */
  lemma SameSize(a: seq<int>, b: seq<int>, p: nat)
    requires |a| == |b| && p < |b| && p + OpSize(b, p) <= |b|
    requires forall k :: p <= k < p + OpSize(b, p) ==> a[k] == b[k]
    ensures a[p] == b[p] && OpSize(a, p) == OpSize(b, p)
    ensures IsSized(a[p]) ==> ZeroAt(a, p + 2) < |a|
  {
    if IsSized(b[p]) {
      SameZero(a, b, p + 2);
    }
  }

  /** Up to `scan` the counters are clear too. */
  ghost predicate ClearTo(alts: seq<Branch>, prog: seq<int>, scan: int) {
    var code := CodeProgram(alts);
    |prog| == |code| && forall k :: 0 <= k < |code| && (k < scan || !IsCounter(alts, k)) ==> prog[k] == code[k]
  }

  lemma ClearStarts(alts: seq<Branch>, prog: seq<int>)
    requires WellFormedAlts(alts) && SaneAlts(alts) && CountersAside(alts, prog)
    ensures ClearTo(alts, prog, 3)
  {
    forall k | IsCounter(alts, k) ensures k >= 5 {
      CounterBounds(alts, k);
    }
  }

  lemma ClearEnds(alts: seq<Branch>, prog: seq<int>)
    requires WellFormedAlts(alts) && SaneAlts(alts) && ClearTo(alts, prog, |CodeProgram(alts)| - 2)
    ensures prog == CodeProgram(alts)
  {
    forall k | IsCounter(alts, k) ensures k < |CodeProgram(alts)| - 2 {
      CounterBounds(alts, k);
    }
  }

  /** The next node of the walk, whatever its counter. */
  lemma NodeAside(alts: seq<Branch>, prog: seq<int>, scan: nat)
    requires WellFormedAlts(alts) && SaneAlts(alts) && ClearTo(alts, prog, scan)
    requires Walks(CodeProgram(alts), 1, scan) && scan < |CodeProgram(alts)| - 2
    ensures var code := CodeProgram(alts);
      && prog[scan] == code[scan] != END && scan + OpSize(code, scan) <= |code| - 2
      && Walks(code, 1, scan + OpSize(code, scan))
      && (code[scan] == REPX || code[scan] == REPXMIN ==> code[scan + 4] == 0)
  {
    var code := CodeProgram(alts);
    ProgramStretch(code, alts);
    assert NodeGood(code, 1, |code| - 2, {|code| - 2}, scan);
    WalksSplit(code, 1, scan, |code| - 2);
    WalksForward(code, scan + OpSize(code, scan), |code| - 2);
    StartIsWalk(alts, scan);
    if IsCounter(alts, scan) {
      CounterIsInside(alts, scan, scan);
    }
    assert Walks(code, scan + OpSize(code, scan), scan + OpSize(code, scan));
    WalksStep(code, scan, OpSize(code, scan), scan + OpSize(code, scan));
    WalksTrans(code, 1, scan, scan + OpSize(code, scan));
  }

  /** The walk is at a node, and at the END node only at its end. */
  lemma ScanIsNode(alts: seq<Branch>, prog: seq<int>, scan: nat, end: nat)
    requires WellFormedAlts(alts) && SaneAlts(alts) && ClearTo(alts, prog, scan)
    requires Walks(CodeProgram(alts), 1, scan) && scan <= end == |CodeProgram(alts)| - 2
    ensures prog[scan] == END <==> scan == end
    ensures prog[scan] == CodeProgram(alts)[scan]
    ensures scan < end ==> scan + OpSize(CodeProgram(alts), scan) <= end
    ensures scan < end ==> Walks(CodeProgram(alts), 1, scan + OpSize(CodeProgram(alts), scan))
  {
    if scan < end {
      NodeAside(alts, prog, scan);
    } else {
      ProgramParts(CodeProgram(alts), alts);
      if IsCounter(alts, scan) {
        CounterBounds(alts, scan);
      }
    }
  }

  /** With its counter cleared, a node is as it was compiled. */
  lemma ClearNode(alts: seq<Branch>, prog: seq<int>, scan: nat, clear: seq<int>)
    requires WellFormedAlts(alts) && SaneAlts(alts) && ClearTo(alts, prog, scan)
    requires Walks(CodeProgram(alts), 1, scan) && scan < |CodeProgram(alts)| - 2
    requires var code := CodeProgram(alts);
      clear == if (code[scan] == REPX || code[scan] == REPXMIN) && scan + 4 < |prog| then prog[scan + 4 := 0] else prog
    ensures var code := CodeProgram(alts);
      ClearTo(alts, clear, scan + OpSize(code, scan)) && OpSize(clear, scan) == OpSize(code, scan)
    ensures IsSized(clear[scan]) ==> ZeroAt(clear, scan + 2) < |clear|
  {
    var code := CodeProgram(alts);
    NodeAside(alts, prog, scan);
    StartIsWalk(alts, scan);
    forall k | scan <= k < scan + OpSize(code, scan) ensures clear[k] == code[k] {
      if IsCounter(alts, k) {
        CounterIsInside(alts, scan, k);
      }
    }
    SameSize(clear, code, scan);
  }
}
