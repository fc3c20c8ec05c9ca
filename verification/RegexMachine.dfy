/** How a continuation lies in a compiled program, and what each node of it says. */
module RegexMachine {
  import opened RegexSyntax
  import opened RegexParser
  import opened RegexCode
  import opened RegexRun

  /** The program realises the continuation `k` from position `q` on. */
  ghost predicate At(prog: seq<int>, q: int, k: Cont)
    decreases k
  {
    match k
    case Done => Has(prog, q, [END, 0])
    case Close(no, k') =>
      0 <= q && q + 1 < |prog| && prog[q] == CLOSE + no && prog[q + 1] > 0 && At(prog, q + prog[q + 1], k')
    case Empty(k') =>
      0 <= q && q + 1 < |prog| && prog[q] == NOTHING && prog[q + 1] > 0 && At(prog, q + prog[q + 1], k')
    case Pieces(ps, d, k') =>
      ps != [] && Has(prog, q, CodePieces(ps, To(d))) && At(prog, q + SizePieces(ps) + d, k')
    case Choice(alts, k') =>
      alts != [] && Has(prog, q, CodeAlts(alts, 0)) && At(prog, q + SizeAlts(alts), k') && (k'.Done? || k'.Close?)
  }

  /** The head of a run of pieces: its code, and where what follows it is. */
  lemma AtHead(prog: seq<int>, q: int, ps: seq<Piece>, d: nat, k: Cont) returns (t: Tail)
    requires At(prog, q, Pieces(ps, d, k))
    ensures t == (if |ps| == 1 then To(d) else To(0)) && Has(prog, q, CodePiece(ps[0], t))
    ensures At(prog, q + Off(t, SizePiece(ps[0])), Rest(ps[1..], d, k))
  {
    t := if |ps| == 1 then To(d) else To(0);
    PiecesCons(prog, q, ps, To(d));
    AtRest(prog, q, ps, d, k, t, q + SizePieces(ps) + d);
  }

  /** The rest of a continuation is after its first piece. */
  lemma AtRest(prog: seq<int>, q: int, ps: seq<Piece>, d: nat, k: Cont, t: Tail, e: int)
    requires ps != [] && t == (if |ps| == 1 then To(d) else To(0)) && e == q + SizePieces(ps) + d && At(prog, e, k)
    requires |ps| > 1 ==> Has(prog, q + SizePiece(ps[0]), CodePieces(ps[1..], To(d)))
    ensures At(prog, q + Off(t, SizePiece(ps[0])), Rest(ps[1..], d, k))
  {
    assert SizePieces(ps) == SizePiece(ps[0]) + SizePieces(ps[1..]);
    if |ps| == 1 {
      assert ps[1..] == [];
    } else {
      AtMore(prog, q + SizePiece(ps[0]), ps[1..], d, k, e);
    }
  }

  lemma AtMore(prog: seq<int>, q: int, ps: seq<Piece>, d: nat, k: Cont, e: int)
    requires ps != [] && e == q + SizePieces(ps) + d && At(prog, e, k) && Has(prog, q, CodePieces(ps, To(d)))
    ensures At(prog, q, Pieces(ps, d, k))
  {
  }

  lemma AtSame(prog: seq<int>, p: int, q: int, k: Cont)
    requires p == q && At(prog, p, k)
    ensures At(prog, q, k)
  {
  }

  /** A leaf that is matched once: its node, its operand and its successor. */
  lemma AtLeaf(prog: seq<int>, q: int, ps: seq<Piece>, d: nat, k: Cont)
    requires At(prog, q, Pieces(ps, d, k)) && ps[0].count.Once? && !ps[0].atom.Group?
    ensures 0 <= q && q + 1 < |prog| && prog[q] == Opcode(ps[0].atom) && prog[q + 1] > 0
    ensures Has(prog, q + 2, Operand(ps[0].atom))
    ensures At(prog, q + prog[q + 1], Rest(ps[1..], d, k))
  {
    var t := AtHead(prog, q, ps, d, k);
    LeafNode(prog, q, ps[0], t);
  }

  lemma LeafNode(prog: seq<int>, q: int, x: Piece, t: Tail)
    requires x.count.Once? && !x.atom.Group? && Has(prog, q, CodePiece(x, t))
    ensures prog[q] == Opcode(x.atom) && prog[q + 1] == Off(t, SizePiece(x)) && Has(prog, q + 2, Operand(x.atom))
  {
    var n := Off(t, 2 + |Operand(x.atom)|);
    assert CodePiece(x, t) == CodeAtom(x.atom, t) == [Opcode(x.atom), n] + Operand(x.atom);
    HasSplit(prog, q, [Opcode(x.atom), n], Operand(x.atom));
    HasTwo(prog, q, Opcode(x.atom), n);
  }

  /** A simple repeat: its node, its counts, its operand's node and its successor. */
  lemma AtRepeat(prog: seq<int>, q: int, ps: seq<Piece>, d: nat, k: Cont)
    requires At(prog, q, Pieces(ps, d, k)) && ps[0].count.Repeat? && IsSimple(ps[0].atom)
    ensures 0 <= q && q + 6 < |prog|
    ensures prog[q] == (if ps[0].count.greedy then REP else REPMIN) && prog[q + 1] > 0
    ensures prog[q + 2] == ps[0].count.max && prog[q + 3] == ps[0].count.min
    ensures prog[q + 5] == Opcode(ps[0].atom) && Has(prog, q + 7, Operand(ps[0].atom))
    ensures At(prog, q + prog[q + 1], Rest(ps[1..], d, k))
  {
    var t := AtHead(prog, q, ps, d, k);
    var a := ps[0].atom;
    var head := [RepeatOpcode(a, ps[0].count.greedy), Off(t, SizePiece(ps[0])), ps[0].count.max, ps[0].count.min, 0];
    assert CodePiece(ps[0], t) == head + CodeAtom(a, Loose);
    RepeatParts(prog, q, head, Opcode(a), Operand(a));
  }

  /** The parts of a repeat of a simple atom. */
  lemma RepeatParts(prog: seq<int>, q: int, head: seq<int>, op: int, operand: seq<int>)
    requires |head| == 5 && Has(prog, q, head + ([op, 0] + operand))
    ensures 0 <= q && q + 6 < |prog| && prog[q] == head[0] && prog[q + 1] == head[1] && prog[q + 2] == head[2]
    ensures prog[q + 3] == head[3] && prog[q + 5] == op && Has(prog, q + 7, operand)
  {
    HasSplit(prog, q, head, [op, 0] + operand);
    HasAt(prog, q, head, 0);
    HasAt(prog, q, head, 1);
    HasAt(prog, q, head, 2);
    HasAt(prog, q, head, 3);
    HasSplit(prog, q + 5, [op, 0], operand);
    HasTwo(prog, q + 5, op, 0);
  }

  /** A group: its OPEN node and its choice, which ends at its CLOSE node. */
  lemma AtGroup(prog: seq<int>, q: int, ps: seq<Piece>, d: nat, k: Cont)
    requires At(prog, q, Pieces(ps, d, k)) && ps[0].count.Once? && ps[0].atom.Group? && ps[0].atom.alts != []
    ensures 0 <= q && q + 1 < |prog| && prog[q] == OPEN + ps[0].atom.no && prog[q + 1] == 2
    ensures At(prog, q + 2, Choice(ps[0].atom.alts, Close(ps[0].atom.no, Rest(ps[1..], d, k))))
  {
    var t := AtHead(prog, q, ps, d, k);
    var a := ps[0].atom;
    assert CodePiece(ps[0], t) == CodeAtom(a, t) == [OPEN + a.no, 2] + CodeAlts(a.alts, 0) + [CLOSE + a.no, Off(t, 2)];
    AtGroupCode(prog, q, a.no, a.alts, Off(t, 2), Rest(ps[1..], d, k), q + Off(t, SizePiece(ps[0])));
  }

  lemma AtGroupCode(prog: seq<int>, q: int, no: int, alts: seq<Branch>, n: nat, rest: Cont, e: int)
    requires alts != [] && n > 0 && Has(prog, q, [OPEN + no, 2] + CodeAlts(alts, 0) + [CLOSE + no, n])
    requires At(prog, e, rest) && e == q + 2 + SizeAlts(alts) + n
    ensures 0 <= q && q + 1 < |prog| && prog[q] == OPEN + no && prog[q + 1] == 2
    ensures At(prog, q + 2, Choice(alts, Close(no, rest)))
  {
    GroupSplit(prog, q, no, alts, n);
    var close := q + 2 + SizeAlts(alts);
    assert close + prog[close + 1] == e;
    AtSame(prog, e, close + prog[close + 1], rest);
    assert At(prog, close, Close(no, rest));
  }

  /** A choice: its BRANCH node and the body of its first branch. */
  lemma AtChoice(prog: seq<int>, q: int, alts: seq<Branch>, k: Cont)
    requires At(prog, q, Choice(alts, k))
    ensures 0 <= q && q + 1 < |prog| && prog[q] == BRANCH && prog[q + 1] == 2 + SizeBody(alts[0].pieces)
    ensures At(prog, q + 2, Body(alts[0].pieces, SizeAlts(alts[1..]), k))
    ensures Has(prog, q + prog[q + 1], CodeAlts(alts[1..], 0))
  {
    var b, d := alts[0], SizeAlts(alts[1..]);
    AltsSplit(prog, q, alts, 0);
    BranchSplit(prog, q, b, To(d), 2 + SizeBody(b.pieces));
    AtBody(prog, q + 2, b.pieces, d, k, q + SizeAlts(alts));
  }

  /** The next branch of a choice, or what follows the last one. */
  lemma AtNextBranch(prog: seq<int>, q: int, alts: seq<Branch>, k: Cont, next: int)
    requires At(prog, q, Choice(alts, k)) && Fit(Choice(alts, k))
    requires next == q + 2 + SizeBody(alts[0].pieces) && Has(prog, next, CodeAlts(alts[1..], 0))
    ensures q < next && 0 <= next && next + 1 < |prog|
    ensures if |alts| > 1 then prog[next] == BRANCH && At(prog, next, Choice(alts[1..], k)) else prog[next] != BRANCH
  {
    var rest := alts[1..];
    var e := q + SizeAlts(alts);
    assert SizeAlts(alts) == 2 + SizeBody(alts[0].pieces) + SizeAlts(rest);
    if |alts| > 1 {
      AtSame(prog, e, next + SizeAlts(rest), k);
      AltsSplit(prog, next, rest, 0);
      BranchSplit(prog, next, rest[0], To(SizeAlts(rest[1..]) + 0), 2 + SizeBody(rest[0].pieces));
    } else {
      assert SizeAlts(rest) == 0;
      EnderNode(prog, next, k);
    }
  }

  /** What closes a choice is not a branch. */
  lemma EnderNode(prog: seq<int>, q: int, k: Cont)
    requires At(prog, q, k) && (k.Done? || k.Close?) && Fit(k)
    ensures 0 <= q && q + 1 < |prog| && prog[q] != BRANCH
  {
    if k.Done? {
      HasTwo(prog, q, END, 0);
    }
  }

  lemma AtBody(prog: seq<int>, q: int, ps: seq<Piece>, d: nat, k: Cont, e: int)
    requires Has(prog, q, CodeBody(ps, To(d))) && At(prog, e, k) && e == q + SizeBody(ps) + d
    ensures At(prog, q, Body(ps, d, k))
  {
    if ps == [] {
      HasTwo(prog, q, NOTHING, 2 + d);
      AtSame(prog, e, q + prog[q + 1], k);
    } else {
      AtSame(prog, e, q + SizePieces(ps) + d, k);
    }
  }

  // ----- Stored classes -----

  /** A class item as it is stored: a length and a first character. */
  datatype Stored = Stored(len: int, start: int)

  function StoredItem(r: Range): seq<Stored> {
    (if r.lo > r.hi then [Stored(r.lo - r.hi + 1, r.hi)] else []) + [Stored(r.hi - r.lo + 1, r.lo)]
  }

  function StoredItems(ranges: seq<Range>): seq<Stored> {
    if ranges == [] then [] else StoredItem(ranges[0]) + StoredItems(ranges[1..])
  }

  function StoredCode(items: seq<Stored>): seq<int> {
    if items == [] then [] else [items[0].len, items[0].start] + StoredCode(items[1..])
  }

  /** What a scan of stored items finds: it stops at the first length that is zero. */
  predicate Finds(items: seq<Stored>, c: int) {
    items != [] && items[0].len != 0 &&
    (items[0].start <= c <= items[0].start + items[0].len - 1 || Finds(items[1..], c))
  }

  lemma {:induction false} StoredAppend(a: seq<Stored>, b: seq<Stored>)
    ensures StoredCode(a + b) == StoredCode(a) + StoredCode(b)
    decreases |a|
  {
    if a == [] {
      assert a + b == b;
    } else {
      assert (a + b)[1..] == a[1..] + b;
      StoredAppend(a[1..], b);
      Assoc([a[0].len, a[0].start], StoredCode(a[1..]), StoredCode(b));
    }
  }

  lemma {:induction false} StoredIsCode(ranges: seq<Range>)
    ensures StoredCode(StoredItems(ranges)) == RangesCode(ranges)
    decreases |ranges|
  {
    if ranges != [] {
      StoredIsCode(ranges[1..]);
      StoredAppend(StoredItem(ranges[0]), StoredItems(ranges[1..]));
      StoredOne(ranges[0]);
    }
  }

  lemma StoredOne(r: Range)
    ensures StoredCode(StoredItem(r)) == RangeCode(r)
  {
    var last := Stored(r.hi - r.lo + 1, r.lo);
    assert StoredCode([last]) == [last.len, last.start] + StoredCode([last][1..]);
    if r.lo > r.hi {
      var both := StoredItem(r);
      assert both[1..] == [last];
    } else {
      assert StoredItem(r) == [last];
    }
  }

  /** A scan finds exactly the characters of the items it considers. */
  lemma {:induction false} FindsEffective(ranges: seq<Range>, c: int)
    ensures Finds(StoredItems(ranges), c) == InClass(c, Effective(ranges))
    decreases |ranges|
  {
    if ranges != [] {
      var r, rest := ranges[0], ranges[1..];
      FindsEffective(rest, c);
      FindsOne(r, StoredItems(rest), c);
      if r.hi == r.lo - 1 {
        InClassCons(c, r, []);
        assert [r] + [] == [r];
      } else {
        InClassCons(c, r, Effective(rest));
      }
    }
  }

  lemma FindsOne(r: Range, rest: seq<Stored>, c: int)
    ensures Finds(StoredItem(r) + rest, c)
         == (InRange(c, r) || (r.hi != r.lo - 1 && Finds(rest, c)))
  {
    var last := Stored(r.hi - r.lo + 1, r.lo);
    var all := StoredItem(r) + rest;
    if r.lo > r.hi {
      assert all[1..] == [last] + rest;
      assert ([last] + rest)[1..] == rest;
    } else {
      assert all[1..] == rest;
    }
  }

  /** A scan is right for every character exactly if no character is lost with the items it does not consider. */
  lemma ScanIsRightIff(ranges: seq<Range>)
    ensures (forall c :: Finds(StoredItems(ranges), c) == InClass(c, ranges)) <==> NothingLost(ranges)
  {
    forall c ensures Finds(StoredItems(ranges), c) == InClass(c, Effective(ranges)) {
      FindsEffective(ranges, c);
    }
    if NothingLost(ranges) {
      forall c ensures Finds(StoredItems(ranges), c) == InClass(c, ranges) {
        NothingLostIs(ranges, c);
      }
    } else {
      var c := SomethingLost(ranges);
      assert Finds(StoredItems(ranges), c) != InClass(c, ranges);
    }
  }

  lemma SomethingLost(ranges: seq<Range>) returns (c: int)
    requires !NothingLost(ranges)
    ensures InClass(c, ranges) && !InClass(c, Effective(ranges))
  {
    var k :| |Effective(ranges)| <= k < |ranges| && !Covered(ranges[k], Effective(ranges));
    c :| InRange(c, ranges[k]) && !InClass(c, Effective(ranges));
  }

  /** The class written b-a and then z does not take z; the class b-a alone is scanned rightly. */
  lemma ReversedNeighboursLoseItems()
    ensures var ranges := [Range(98, 97), Range(122, 122)];
      InClass(122, ranges) && !Finds(StoredItems(ranges), 122) && !NothingLost(ranges)
    ensures NothingLost([Range(98, 97)]) && !SaneRanges([Range(98, 97)])
  {
    var ranges := [Range(98, 97), Range(122, 122)];
    assert InRange(122, ranges[1]);
    FindsEffective(ranges, 122);
    assert Effective(ranges) == [Range(98, 97)];
    InClassCons(122, Range(98, 97), []);
    assert [Range(98, 97)] + [] == [Range(98, 97)];
    ScanIsRightIff(ranges);
    assert [Range(98, 97)][0].hi == 97;
  }

  lemma StoredStep(prog: seq<int>, p: int, items: seq<Stored>)
    requires Has(prog, p, StoredCode(items) + [0])
    ensures items == [] ==> prog[p] == 0
    ensures items != [] ==> prog[p] == items[0].len && prog[p + 1] == items[0].start
    ensures items != [] ==> Has(prog, p + 2, StoredCode(items[1..]) + [0])
  {
    HasAt(prog, p, StoredCode(items) + [0], 0);
    if items != [] {
      var two := [items[0].len, items[0].start];
      Assoc(two, StoredCode(items[1..]), [0]);
      HasSplit(prog, p, two, StoredCode(items[1..]) + [0]);
      HasTwo(prog, p, items[0].len, items[0].start);
    }
  }

  // ----- Captures -----

  /** A capture slot; -1 when it is not set. */
  datatype Span = Span(so: int, eo: int)

  /** What a group node records: its position, unless a node of the same group after it has done so. */
  function Record(slots: seq<Span>, m: Mark): (r: seq<Span>)
    ensures |r| == |slots|
  {
    if !(0 <= m.no < |slots|) then slots
    else if m.OpenMark? && slots[m.no].so == -1 then slots[m.no := slots[m.no].(so := m.at)]
    else if m.CloseMark? && slots[m.no].eo == -1 then slots[m.no := slots[m.no].(eo := m.at)]
    else slots
  }

  /** The slots after a successful search: its marks are recorded from the last to the first. */
  function RecordAll(slots: seq<Span>, marks: seq<Mark>): (r: seq<Span>)
    ensures |r| == |slots|
  {
    if marks == [] then slots else Record(RecordAll(slots, marks[1..]), marks[0])
  }

  lemma LiteralOperand(prog: seq<int>, p: int, a: Atom)
    requires a.Literal? && WellFormedAtom(a) && Has(prog, p, Operand(a))
    ensures Has(prog, p, a.chars + [0]) && Has(prog, p, a.chars)
    ensures a.chars != [] && forall k :: 0 <= k < |a.chars| ==> a.chars[k] != 0
  {
    HasSplit(prog, p, a.chars, [0]);
  }

  // ----- Which node starts a continuation -----

  predicate IsLeafOp(op: int) {
    op == BOL || op == EOL || op == WORDA || op == WORDZ || op == ANY || op == ANYOF || op == ANYBUT || op == EXACTLY
  }

  /** The opcode tells which continuation is meant. */
  lemma NodeKind(prog: seq<int>, q: int, k: Cont)
    requires At(prog, q, k) && Fit(k)
    ensures 0 <= q && q + 1 < |prog|
    ensures prog[q] == END <==> k.Done?
    ensures prog[q] == NOTHING <==> k.Empty?
    ensures prog[q] == BRANCH <==> k.Choice?
    ensures prog[q] >= CLOSENC <==> k.Close?
    ensures IsLeafOp(prog[q]) <==> k.Pieces? && k.ps[0].count.Once? && !k.ps[0].atom.Group?
    ensures prog[q] == REP || prog[q] == REPMIN <==> k.Pieces? && k.ps[0].count.Repeat?
    ensures OPENNC <= prog[q] < CLOSENC <==> k.Pieces? && k.ps[0].count.Once? && k.ps[0].atom.Group?
  {
    match k {
      case Done => HasTwo(prog, q, END, 0);
      case Choice(alts, k') => AtChoice(prog, q, alts, k');
      case Pieces(ps, d, k') => PiecesKind(prog, q, ps, d, k');
      case _ =>
    }
  }

  lemma PiecesKind(prog: seq<int>, q: int, ps: seq<Piece>, d: nat, k: Cont)
    requires At(prog, q, Pieces(ps, d, k)) && Fit(Pieces(ps, d, k))
    ensures 0 <= q && q + 1 < |prog|
    ensures if ps[0].count.Repeat? then prog[q] == REP || prog[q] == REPMIN
            else if ps[0].atom.Group? then OPENNC <= prog[q] < CLOSENC
            else IsLeafOp(prog[q])
  {
    FitHead(ps, d, k);
    if ps[0].count.Repeat? {
      AtRepeat(prog, q, ps, d, k);
    } else if ps[0].atom.Group? {
      AtGroup(prog, q, ps, d, k);
    } else {
      AtLeaf(prog, q, ps, d, k);
    }
  }

  /** The outcome of a search against its expected outcomes: the first of them, or failure. */
  ghost predicate IsFirst(found: bool, end: nat, slots: seq<Span>, before: seq<Span>, outs: seq<Out>) {
    if outs == [] then !found && slots == before
    else found && end == outs[0].end && slots == RecordAll(before, outs[0].marks)
  }

  /** A literal first in line fails where the input does not have its first character. */
  lemma LookaheadFails(prog: seq<int>, q: int, k: Cont, s: seq<int>, i: nat)
    requires At(prog, q, k) && Fit(k) && i <= |s| && IsCString(s)
    requires q + 2 < |prog| && prog[q] == EXACTLY && prog[q + 2] != CharAt(s, i)
    ensures Outcomes(k, s, i) == []
  {
    NodeKind(prog, q, k);
    AtLeaf(prog, q, k.ps, k.distance, k.k);
    FitHead(k.ps, k.distance, k.k);
    var a := k.ps[0].atom;
    LiteralOperand(prog, q + 2, a);
    HasAt(prog, q + 2, a.chars, 0);
    assert i + |a.chars| <= |s| ==> s[i..i + |a.chars|][0] == s[i];
  }

  /** A literal's first character is in the program and is not NUL. */
  lemma LiteralThere(prog: seq<int>, q: int, k: Cont)
    requires At(prog, q, k) && Fit(k)
    ensures 0 <= q && q + 1 < |prog|
    ensures prog[q] == EXACTLY ==> q + 2 < |prog| && prog[q + 2] != 0
  {
    NodeKind(prog, q, k);
    if prog[q] == EXACTLY {
      AtLeaf(prog, q, k.ps, k.distance, k.k);
      FitHead(k.ps, k.distance, k.k);
      LiteralOperand(prog, q + 2, k.ps[0].atom);
      HasAt(prog, q + 2, k.ps[0].atom.chars, 0);
    }
  }

  /** Recording a group node's mark after what follows it has been matched. */
  lemma FirstPrepend(found: bool, end: nat, slots: seq<Span>, before: seq<Span>, outs: seq<Out>, m: Mark)
    requires IsFirst(found, end, slots, before, outs)
    ensures IsFirst(found, end, if found then Record(slots, m) else slots, before, Prepend(m, outs))
  {
    if outs != [] {
      var o := Prepend(m, outs)[0];
      assert o.marks[1..] == outs[0].marks;
    }
  }

  /** The successor of a group node, and what the search after it has to do with the search from it. */
  lemma GroupStep(prog: seq<int>, q: int, k: Cont, s: seq<int>, i: nat) returns (rest: Cont, m: Mark)
    requires At(prog, q, k) && Fit(k) && i <= |s| && prog[q] >= OPENNC
    ensures 0 <= q && q + 1 < |prog| && prog[q + 1] > 0 && At(prog, q + prog[q + 1], rest) && Fit(rest)
    ensures prog[q] == OPENNC || prog[q] == CLOSENC || OPEN < prog[q] < OPEN + REG_MAX_PAREN || CLOSE < prog[q] < CLOSE_END
    ensures m == if prog[q] < CLOSENC then OpenMark(prog[q] - OPEN, i) else CloseMark(prog[q] - CLOSE, i)
    ensures Outcomes(k, s, i)
      == if prog[q] == OPENNC || prog[q] == CLOSENC then Outcomes(rest, s, i) else Prepend(m, Outcomes(rest, s, i))
  {
    NodeKind(prog, q, k);
    m := if prog[q] < CLOSENC then OpenMark(prog[q] - OPEN, i) else CloseMark(prog[q] - CLOSE, i);
    if k.Close? {
      rest := k.k;
    } else {
      var x := k.ps[0];
      FitHead(k.ps, k.distance, k.k);
      AtGroup(prog, q, k.ps, k.distance, k.k);
      FitGroup(x, Rest(k.ps[1..], k.distance, k.k));
      rest := Choice(x.atom.alts, Close(x.atom.no, Rest(k.ps[1..], k.distance, k.k)));
    }
  }

  /** The successor of a node that the matching loop walks through without recursion. */
  lemma PlainStep(prog: seq<int>, q: int, k: Cont, s: seq<int>, i: nat) returns (rest: Cont)
    requires At(prog, q, k) && Fit(k) && i <= |s|
    requires k.Empty? || (k.Choice? && |k.alts| == 1) || IsLeafOp(prog[q])
    ensures 0 <= q && q + 1 < |prog| && prog[q + 1] > 0 && Fit(rest)
    ensures At(prog, if k.Choice? then q + 2 else q + prog[q + 1], rest)
    ensures !IsLeafOp(prog[q]) ==> Outcomes(rest, s, i) == Outcomes(k, s, i)
    ensures IsLeafOp(prog[q]) ==>
      && k.Pieces? && !k.ps[0].atom.Group? && FitPiece(k.ps[0])
      && prog[q] == Opcode(k.ps[0].atom) && Has(prog, q + 2, Operand(k.ps[0].atom))
      && var j := Step(k.ps[0].atom, s, i); Outcomes(k, s, i) == if j == -1 then [] else Outcomes(rest, s, j)
  {
    NodeKind(prog, q, k);
    match k {
      case Choice(alts, k') =>
        FitChoice(alts, k', SizeAlts(alts[1..]));
        AtChoice(prog, q, alts, k');
        rest := Body(alts[0].pieces, SizeAlts(alts[1..]), k');
      case Pieces(ps, d, k') =>
        FitHead(ps, d, k');
        AtLeaf(prog, q, ps, d, k');
        rest := Rest(ps[1..], d, k');
      case Empty(k') => rest := k';
      case _ => rest := k; assert false;
    }
  }

  /** One turn of the loop over the branches of a choice. */
  lemma BranchStep(prog: seq<int>, q: int, alts: seq<Branch>, k: Cont, s: seq<int>, i: nat) returns (body: Cont)
    requires At(prog, q, Choice(alts, k)) && Fit(Choice(alts, k)) && i <= |s|
    ensures 0 <= q && q + 1 < |prog| && prog[q] == BRANCH && prog[q + 1] > 0 && q + prog[q + 1] + 1 < |prog|
    ensures At(prog, q + 2, body) && Fit(body)
    ensures |alts| > 1 ==> At(prog, q + prog[q + 1], Choice(alts[1..], k)) && Fit(Choice(alts[1..], k))
    ensures prog[q + prog[q + 1]] == BRANCH <==> |alts| > 1
    ensures Outcomes(Choice(alts, k), s, i)
      == Outcomes(body, s, i) + if |alts| == 1 then [] else Outcomes(Choice(alts[1..], k), s, i)
  {
    FitChoice(alts, k, SizeAlts(alts[1..]));
    AtChoice(prog, q, alts, k);
    AtNextBranch(prog, q, alts, k, q + prog[q + 1]);
    body := Body(alts[0].pieces, SizeAlts(alts[1..]), k);
  }

  /** A branch and what is left to try after it. */
  lemma TryStep(prog: seq<int>, q: int, k: Cont, s: seq<int>, i: nat) returns (body: Cont, rest: Cont, last: bool)
    requires At(prog, q, k) && Fit(k) && k.Choice? && i <= |s|
    ensures 0 <= q && q + 1 < |prog| && prog[q] == BRANCH && prog[q + 1] > 0 && q + prog[q + 1] + 1 < |prog|
    ensures At(prog, q + 2, body) && Fit(body) && (last <==> prog[q + prog[q + 1]] != BRANCH)
    ensures !last ==> At(prog, q + prog[q + 1], rest) && Fit(rest) && rest.Choice?
    ensures Outcomes(k, s, i) == Outcomes(body, s, i) + if last then [] else Outcomes(rest, s, i)
  {
    body := BranchStep(prog, q, k.alts, k.k, s, i);
    last := |k.alts| == 1;
    rest := if last then k else Choice(k.alts[1..], k.k);
  }

  /** The first of two lists of successes is that of the first list, or that of the second if there is none. */
  lemma FirstOfTwo(found: bool, end: nat, slots: seq<Span>, before: seq<Span>, a: seq<Out>, b: seq<Out>)
    requires IsFirst(found, end, slots, before, a)
    ensures found ==> IsFirst(found, end, slots, before, a + b)
    ensures !found ==> slots == before && a + b == b
  {
  }

  /** A simple repeat's node, its operand and what is left after it. */
  lemma RepeatStep(prog: seq<int>, q: int, k: Cont, s: seq<int>, i: nat) returns (x: Piece, rest: Cont)
    requires At(prog, q, k) && Fit(k) && i <= |s| && k.Pieces? && k.ps[0].count.Repeat?
    ensures x == k.ps[0] && FitPiece(x) && x.count.Repeat?
    ensures 0 <= q && q + 7 < |prog| + 1 && prog[q + 1] > 0 && At(prog, q + prog[q + 1], rest) && Fit(rest)
    ensures prog[q] == (if x.count.greedy then REP else REPMIN)
    ensures prog[q + 2] == x.count.max && prog[q + 3] == x.count.min
    ensures prog[q + 5] == Opcode(x.atom) && Has(prog, q + 7, Operand(x.atom))
    ensures Outcomes(k, s, i) == PieceOutcomes(x, rest, s, i)
  {
    x, rest := k.ps[0], Rest(k.ps[1..], k.distance, k.k);
    FitHead(k.ps, k.distance, k.k);
    AtRepeat(prog, q, k.ps, k.distance, k.k);
  }

  /** A node that the matching loop leaves: the end, a repeat, a group node or a choice of several branches. */
  predicate Forks(prog: seq<int>, q: nat)
    requires q + 1 < |prog|
  {
    var op := prog[q];
    op == END || op == REP || op == REPMIN || op >= OPENNC
    || (op == BRANCH && 0 <= q + prog[q + 1] < |prog| && prog[q + prog[q + 1]] == BRANCH)
  }

  /** Where the matching loop goes from a node that it does not leave. */
  function Onward(prog: seq<int>, q: nat): int
    requires q + 1 < |prog|
  {
    if prog[q] == BRANCH then q + 2 else q + prog[q + 1]
  }

  lemma AdvanceStep(prog: seq<int>, q: nat, k: Cont, s: seq<int>, i: nat) returns (rest: Cont)
    requires At(prog, q, k) && Fit(k) && i <= |s| && q + 1 < |prog| && !Forks(prog, q)
    ensures prog[q] == BRANCH || prog[q] == NOTHING || IsLeafOp(prog[q])
    ensures q < Onward(prog, q) && Onward(prog, q) + 1 < |prog|
    ensures At(prog, Onward(prog, q), rest) && Fit(rest) && prog[q + 1] > 0
    ensures !IsLeafOp(prog[q]) ==> Outcomes(rest, s, i) == Outcomes(k, s, i)
    ensures IsLeafOp(prog[q]) ==>
      && k.Pieces? && !k.ps[0].atom.Group? && FitPiece(k.ps[0])
      && prog[q] == Opcode(k.ps[0].atom) && Has(prog, q + 2, Operand(k.ps[0].atom))
      && var j := Step(k.ps[0].atom, s, i); Outcomes(k, s, i) == if j == -1 then [] else Outcomes(rest, s, j)
  {
    NodeKind(prog, q, k);
    if k.Choice? {
      var body := BranchStep(prog, q, k.alts, k.k, s, i);
    }
    rest := PlainStep(prog, q, k, s, i);
    NodeKind(prog, Onward(prog, q), rest);
  }

  // ----- A whole search -----

  /** The continuation of a whole pattern. */
  function Whole(alts: seq<Branch>): Cont {
    Choice(alts, Done)
  }

  /** The patterns for which the search is the one regmatch performs. */
  ghost predicate Searchable(alts: seq<Branch>) {
    alts != [] && FitAlts(alts)
  }

  lemma WholeAt(prog: seq<int>, alts: seq<Branch>)
    requires Searchable(alts) && prog == CodeProgram(alts)
    ensures At(prog, 1, Whole(alts)) && Fit(Whole(alts))
  {
    HasMiddle([REG_MAGIC], CodeAlts(alts, 0), [END, 0]);
    HasMiddle([REG_MAGIC] + CodeAlts(alts, 0), [END, 0], []);
    assert [REG_MAGIC] + CodeAlts(alts, 0) + [END, 0] + [] == prog;
  }

  /** The outcomes of a whole pattern at a start. */
  ghost function Results(alts: seq<Branch>, s: seq<int>, i: nat): seq<Out>
    requires Searchable(alts) && i <= |s|
  {
    Outcomes(Whole(alts), s, i)
  }

  /** The results at a start are the derivations from there. */
  lemma ResultsMean(alts: seq<Branch>, s: seq<int>, i: nat, o: Out)
    requires Searchable(alts) && i <= |s|
    ensures o in Results(alts, s, i) <==> DerivesAlts(alts, s, i, o.end, o.marks)
  {
    OutcomesMean(Whole(alts), s, i, o);
    if DerivesAlts(alts, s, i, o.end, o.marks) {
      assert DerivesCont(Done, s, o.end, o.end, []);
      ChoiceIntro(alts, Done, s, i, o.end, o.end, o.marks, []);
      assert o.marks + [] == o.marks;
    }
    if DerivesCont(Whole(alts), s, i, o.end, o.marks) {
      var m: nat, cut: nat :|
        cut <= |o.marks| && DerivesAlts(alts, s, i, m, o.marks[..cut]) && DerivesCont(Done, s, m, o.end, o.marks[cut..]);
      assert o.marks[..cut] == o.marks;
    }
  }

  /** A start has results exactly when some stretch of the input from it is in the language of the pattern. */
  lemma ResultsExist(alts: seq<Branch>, s: seq<int>, i: nat)
    requires Searchable(alts) && i <= |s|
    ensures Results(alts, s, i) != [] <==> exists j: nat :: Matches(alts, s, i, j)
  {
    var outs := Results(alts, s, i);
    if outs != [] {
      ResultsMean(alts, s, i, outs[0]);
      assert outs[0] in outs;
      assert Matches(alts, s, i, outs[0].end);
    }
    if exists j: nat :: Matches(alts, s, i, j) {
      var j: nat :| Matches(alts, s, i, j);
      var marks :| DerivesAlts(alts, s, i, j, marks);
      ResultsMean(alts, s, i, Out(j, marks));
    }
  }

  function Unset(n: nat): seq<Span> {
    seq(n, _ => Span(-1, -1))
  }

  /** The slots that a successful try at `at` leaves. */
  function Slots(n: nat, at: nat, o: Out): seq<Span>
    requires n >= 1
  {
    RecordAll(Unset(n), o.marks)[0 := Span(at, o.end)]
  }
}
