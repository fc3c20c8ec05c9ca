/** The compiler of jimtcl/jimregexp.c over its mutable state: each method emits the code of what it parses. */
module RegexCompiler {
  import opened RegexSyntax
  import opened RegexParser
  import opened RegexCode
  import opened RegexHints
  import opened RegexRun
  import opened RegexMachine
  import opened RegexLayout
  import opened RegexSearch

  /** The target of a node's next offset; 0 when it has none. */
  function Next(prog: seq<int>, p: nat): int
    requires p + 1 < |prog|
  {
    if prog[p + 1] == 0 then 0
    else if prog[p] == BACK then p - prog[p + 1]
    else p + prog[p + 1]
  }

  function Zeros(n: nat): (z: seq<int>)
    ensures |z| == n && forall k :: 0 <= k < n ==> z[k] == 0
  {
    seq(n, _ => 0)
  }

  class Regex {
    var exp: seq<int>
    var regparse: nat
    var program: seq<int>
    var nsub: nat
    var err: Error
    var regstart: int
    var reganch: bool
    var regmust: nat
    var regmlen: nat
    var input: seq<int>
    var reginput: nat
    var pmatch: array<Span>

    /** The program is that of `alts`, with the hints that go with it. */
    ghost predicate Compiled(alts: seq<Branch>)
      reads this
    {
      WellFormedAlts(alts) && program == CodeProgram(alts) && Hinted(alts)
    }

    /** The hints of a search are those of the pattern. */
    ghost predicate Hinted(alts: seq<Branch>)
      reads this
    {
      && regstart == FirstChar(alts) && reganch == IsAnchored(alts)
      && (regmust, regmlen) == Must(alts)
    }

    constructor ()
    {
      pmatch := new Span[0];
    }

    method RegNode(op: int) returns (ret: nat)
      modifies `program
      ensures ret == |old(program)| && program == old(program) + [op, 0]
    {
      ret := |program|;
      program := program + [op, 0];
    }

    method RegC(b: int)
      modifies `program
      ensures program == old(program) + [b]
    {
      program := program + [b];
    }

    /** Inserts an operator in front of the code at `opnd`; returns where that code is now. */
    method RegInsert(op: int, size: nat, opnd: nat) returns (ret: nat)
      requires size >= 1 && opnd <= |program|
      modifies `program
      ensures ret == opnd + size
      ensures program == old(program)[..opnd] + ([op] + Zeros(size - 1)) + old(program)[opnd..]
    {
      program := program[..opnd] + Zeros(size) + program[opnd..];
      program := program[opnd := op];
      ret := opnd + size;
    }

    /** Sets the next offset at the end of the chain from `p`, which is the node `last`. */
    method RegTail(p: nat, val: nat, ghost last: nat)
      requires last + 1 < |program| && Reaches(program, p, last) && program[last + 1] == 0
      modifies `program
      ensures program == old(program)[last + 1 := if old(program)[last] == BACK then last - val else val - last]
    {
      var scan := p;
      ReachesNext(program, scan, last);
      var temp := Next(program, scan);
      while temp != 0
        invariant program == old(program)
        invariant scan <= last && Reaches(program, scan, last) && temp == Next(program, scan)
        decreases last - scan
      {
        ReachesNext(program, scan, last);
        scan := temp;
        ReachesNext(program, scan, last);
        temp := Next(program, scan);
      }
      ReachesNext(program, scan, last);
      var offset := if program[scan] == BACK then scan - val else val - scan;
      program := program[scan + 1 := offset];
    }

    // ----- Classes -----

    /** Adds a class item; a reversed one is added the right way round first. */
    method RegAddRange(lower: int, upper: int)
      modifies `program
      ensures program == old(program) + RangeCode(Range(lower, upper))
      decreases lower > upper
    {
      if lower > upper {
        RegAddRange(upper, lower);
      }
      RegC(upper - lower + 1);
      RegC(lower);
    }

    method RegAddLetters()
      modifies `program
      ensures program == old(program) + RangesCode(LETTERS)
    {
      RegAddRange(97, 122);
      RegAddRange(65, 90);
      assert RangesCode(LETTERS) == RangeCode(LETTERS[0]) + RangeCode(LETTERS[1]) by {
        RangesSnoc([LETTERS[0]], LETTERS[1]);
        RangesSnoc([], LETTERS[0]);
      }
    }

    method RegAddAlnum()
      modifies `program
      ensures program == old(program) + RangesCode(LETTERS + DIGITS)
    {
      RegAddLetters();
      RegAddRange(48, 57);
      RangesSnoc(LETTERS, Range(48, 57));
    }

    /** Adds each character of a string as an item. */
    method RegAddStr(str: seq<int>)
      modifies `program
      ensures program == old(program) + RangesCode(Singles(str))
    {
      for k := 0 to |str|
        invariant program == old(program) + RangesCode(Singles(str[..k]))
      {
        RegAddRange(str[k], str[k]);
        RangesSnoc(Singles(str[..k]), Range(str[k], str[k]));
        assert Singles(str[..k]) + [Range(str[k], str[k])] == Singles(str[..k + 1]);
      }
      assert str[..|str|] == str;
    }

    /** Reads one character of a class; 0 stands for the error. */
    method RegClassChar(pattern: nat) returns (c: int, next: nat)
      requires IsCString(exp) && pattern < |exp|
      ensures match ParseClassChar(exp, pattern)
        case Err(e) => c == 0 && e == NullChar
        case Ok(v, pos, _) => c == v != 0 && next == pos
    {
      c, next := exp[pattern], pattern + 1;
      if c == BACKSLASH {
        var n: nat;
        c, n := RegDecodeEscape(exp, next);
        next := next + n;
      }
    }

    /** Adds one item of a class; `ok` is false for an escape that yields NUL. */
    method RegClassItem(start: nat) returns (ok: bool, pattern: nat)
      requires IsCString(exp) && start < |exp|
      modifies `program, `err
      ensures match ParseClassItem(exp, start)
        case Err(e) => !ok && err == e
        case Ok(item, pos, _) =>
          ok && err == old(err) && pattern == pos && program == old(program) + RangesCode(item)
    {
      var from, next := RegClassChar(start);
      if from == 0 {
        err := NullChar;
        return false, next;
      }
      ok, pattern := RegItemRest(from, next);
    }

    /** The rest of an item after its first character. */
    method RegItemRest(from: int, next: nat) returns (ok: bool, pattern: nat)
      requires IsCString(exp) && next <= |exp| && from != 0
      modifies `program, `err
      ensures match ParseItemRest(exp, from, next)
        case Err(e) => !ok && err == e
        case Ok(item, pos, _) =>
          ok && err == old(err) && pattern == pos && program == old(program) + RangesCode(item)
    {
      ok, pattern := true, next;
      if CharAt(exp, next) == MINUS && CharAt(exp, next + 1) != 0 && CharAt(exp, next + 1) != RBRACKET {
        var to, after := RegClassChar(next + 1);
        if to == 0 {
          err := NullChar;
          return false, pattern;
        }
        RegAddItem(from, to);
        pattern := after;
      } else {
        pattern := RegNamedOrSingle(from, next);
      }
    }

    method RegAddItem(from: int, to: int)
      modifies `program
      ensures program == old(program) + RangesCode([Range(from, to)])
    {
      RangesSnoc([], Range(from, to));
      RegAddRange(from, to);
    }

    /** Adds a named class, or the one character that has been read. */
    method RegNamedOrSingle(c: int, next: nat) returns (pattern: nat)
      requires next <= |exp|
      modifies `program
      ensures var r := NamedOrSingle(exp, c, next); program == old(program) + RangesCode(r.0) && pattern == r.1
    {
      pattern := next + 8;
      if c == LBRACKET && LooksAt(exp, next, ALPHA) {
        RegAddLetters();
      } else if c == LBRACKET && LooksAt(exp, next, ALNUM) {
        RegAddAlnum();
      } else if c == LBRACKET && LooksAt(exp, next, SPACE_NAME) {
        RegAddStr(SPACE_CHARS);
        assert Singles(SPACE_CHARS) == SPACES;
      } else {
        RegAddItem(c, c);
        pattern := next;
      }
    }

    /** Adds the items of a class and its terminator. */
    method RegClassItems(start: nat, ghost base: seq<int>, ghost first: seq<Range>) returns (ok: bool, pattern: nat)
      requires IsCString(exp) && start <= |exp| && WellFormedRanges(first)
      requires program == base + RangesCode(first)
      modifies `program, `err
      ensures match ParseClassItems(exp, start, first)
        case Err(e) => !ok && err == e
        case Ok(ranges, pos, _) =>
          ok && err == old(err) && pattern == pos && program == base + (RangesCode(ranges) + [0])
    {
      pattern := start;
      ghost var acc := first;
      while pattern < |exp| && exp[pattern] != RBRACKET
        invariant pattern <= |exp| && WellFormedRanges(acc)
        invariant program == base + RangesCode(acc) && err == old(err)
        invariant ParseClassItems(exp, start, first) == ParseClassItems(exp, pattern, acc)
        decreases |exp| - pattern
      {
        ghost var item := ParseClassItem(exp, pattern);
        ok, pattern := RegClassItem(pattern);
        if !ok {
          return;
        }
        RangesAppend(acc, item.value);
        Assoc(base, RangesCode(acc), RangesCode(item.value));
        acc := acc + item.value;
      }
      RegC(0);
      Assoc(base, RangesCode(acc), [0]);
      if pattern < |exp| {
        pattern := pattern + 1;
      }
      ok := true;
    }

    // ----- Literals -----

    method RegLiteralChar() returns (ch: int, n: nat)
      requires regparse < |exp|
      ensures (ch, n) == LiteralChar(exp, regparse)
    {
      ch, n := exp[regparse], 1;
      if ch == BACKSLASH && regparse + 1 < |exp| {
        ch, n := RegDecodeEscape(exp, regparse + 1);
        n := n + 1;
      }
    }

    /** Adds a run of ordinary characters and its terminator; `added` is its length. */
    method RegLiteral(ghost base: seq<int>) returns (ok: bool, added: nat)
      requires IsCString(exp) && regparse <= |exp| && program == base
      modifies `program, `regparse, `err
      ensures match ParseLiteral(exp, old(regparse), [])
        case Err(e) => !ok && err == e
        case Ok(chars, pos, _) =>
          ok && err == old(err) && regparse == pos && added == |chars| && program == base + (chars + [0])
    {
      added, ok := 0, true;
      ghost var parsed := ParseLiteral(exp, regparse, []);
      ghost var acc: seq<int> := [];
      var more := StartsLiteral(exp, regparse);
      while more
        invariant regparse <= |exp| && err == old(err) && ok
        invariant forall k :: 0 <= k < |acc| ==> acc[k] != 0
        invariant added == |acc| && program == base + acc
        invariant if more then StartsLiteral(exp, regparse) && parsed == ParseLiteral(exp, regparse, acc)
                  else parsed == Ok(acc, regparse, 0)
        decreases more, |exp| - regparse
      {
        ok, more, added, acc := RegLiteralStep(base, acc, added);
        if !ok {
          return;
        }
      }
      RegC(0);
      Assoc(base, acc, [0]);
    }

    /** One more character, unless a repeat follows it; whether there may be another one. */
    method RegLiteralStep(ghost base: seq<int>, ghost acc: seq<int>, added: nat)
      returns (ok: bool, more: bool, longer: nat, ghost acc': seq<int>)
      requires IsCString(exp) && StartsLiteral(exp, regparse) && program == base + acc && added == |acc|
      requires forall k :: 0 <= k < |acc| ==> acc[k] != 0
      modifies `program, `regparse, `err
      ensures !ok ==> ParseLiteral(exp, old(regparse), acc) == Err(err)
      ensures ok ==> err == old(err) && program == base + acc' && longer == |acc'| && regparse <= |exp|
      ensures ok ==> forall k :: 0 <= k < |acc'| ==> acc'[k] != 0
      ensures ok && more ==> old(regparse) < regparse && StartsLiteral(exp, regparse)
      ensures ok && more ==> ParseLiteral(exp, old(regparse), acc) == ParseLiteral(exp, regparse, acc')
      ensures ok && !more ==> ParseLiteral(exp, old(regparse), acc) == Ok(acc', regparse, 0)
    {
      ok, more, longer, acc' := true, false, added, acc;
      LiteralStops(exp, regparse, acc);
      var ch, n := RegLiteralChar();
      if ch == 0 {
        err := NullChar;
        return false, false, added, acc;
      }
      var mult := IsMult(CharAt(exp, regparse + n));
      if mult && added > 0 {
        return;
      }
      RegC(ch);
      Assoc(base, acc, [ch]);
      NonZeroSnoc(acc, ch);
      if !mult {
        LiteralStep(exp, regparse, acc, ch, regparse + n);
      }
      acc' := acc + [ch];
      longer := added + 1;
      regparse := regparse + n;
      LiteralStops(exp, regparse, acc');
      more := !mult && StartsLiteral(exp, regparse);
    }

    // ----- Atoms -----

    /** Adds all the items of a class and its terminator. */
    method RegClassBody(start: nat, ghost base: seq<int>) returns (ok: bool, pattern: nat)
      requires IsCString(exp) && start <= |exp| && program == base
      modifies `program, `err
      ensures match ParseClassBody(exp, start)
        case Err(e) => !ok && err == e
        case Ok(ranges, pos, _) =>
          ok && err == old(err) && pattern == pos && program == base + (RangesCode(ranges) + [0])
    {
      var first := CharAt(exp, start);
      if first == RBRACKET || first == MINUS {
        RegAddRange(first, first);
        RangesSnoc([], Range(first, first));
        ok, pattern := RegClassItems(start + 1, base, [Range(first, first)]);
      } else {
        ok, pattern := RegClassItems(start, base, []);
      }
    }

    /** A class whose opening bracket has been read. */
    method RegClass() returns (ret: nat)
      requires IsCString(exp) && regparse <= |exp| && |program| >= 1
      modifies `program, `regparse, `err
      ensures match ParseClass(exp, old(regparse))
        case Err(e) => ret == 0 && err == e
        case Ok(a, pos, _) =>
          && ret == |old(program)| && program == old(program) + CodeAtom(a, Loose)
          && regparse == pos && err == old(err)
    {
      var negated := CharAt(exp, regparse) == CARET;
      var op := if negated then ANYBUT else ANYOF;
      ghost var body := ParseClassBody(exp, if negated then regparse + 1 else regparse);
      ret := RegNode(op);
      var ok, pattern := RegClassBody(if negated then regparse + 1 else regparse, program);
      if ok {
        Assoc(old(program), [op, 0], RangesCode(body.value) + [0]);
        regparse := pattern;
      } else {
        ret := 0;
      }
    }

    /** The escapes `<`, `m`, `>`, `M`, `d`, `w` and `s`, whose letter has been read. */
    method RegSpecialEscape(c: int) returns (ret: nat)
      requires IsSpecialEscape(c)
      modifies `program
      ensures ret == |old(program)| && program == old(program) + CodeAtom(SpecialEscape(c), Loose)
    {
      var base := program;
      if c == 60 || c == 109 {
        ret := RegNode(WORDA);
        assert CodeAtom(WordStart, Loose) == [WORDA, 0];
      } else if c == 62 || c == 77 {
        ret := RegNode(WORDZ);
        assert CodeAtom(WordEnd, Loose) == [WORDZ, 0];
      } else {
        ret := RegNode(ANYOF);
        if c == 100 {
          RegAddRange(48, 57);
          RangesSnoc([], Range(48, 57));
        } else if c == 119 {
          RegAddAlnum();
          RegAddRange(95, 95);
          RangesSnoc(LETTERS + DIGITS, Range(95, 95));
          Assoc(base + [ANYOF, 0], RangesCode(LETTERS + DIGITS), RangeCode(Range(95, 95)));
        } else {
          RegAddStr(SPACE_CHARS);
          assert Singles(SPACE_CHARS) == SPACES;
        }
        ghost var ranges := SpecialEscape(c).ranges;
        RegC(0);
        Assoc(base + [ANYOF, 0], RangesCode(ranges), [0]);
        Assoc(base, [ANYOF, 0], RangesCode(ranges) + [0]);
      }
    }

    /** A run of ordinary characters as one node. */
    method RegExactly() returns (ret: nat, added: nat)
      requires IsCString(exp) && regparse <= |exp| && |program| >= 1
      modifies `program, `regparse, `err
      ensures match ParseLiteral(exp, old(regparse), [])
        case Err(e) => ret == 0 && err == e
        case Ok(chars, pos, _) =>
          && ret == |old(program)| && program == old(program) + CodeAtom(Literal(chars), Loose)
          && regparse == pos && err == old(err) && added == |chars|
    {
      ghost var chars := ParseLiteral(exp, regparse, []);
      ret := RegNode(EXACTLY);
      var ok: bool;
      ok, added := RegLiteral(program);
      if ok {
        Assoc(old(program), [EXACTLY, 0], chars.value + [0]);
      } else {
        ret := 0;
      }
    }

    /** An atom other than a group. */
    method RegLeaf() returns (ret: nat, width: bool, simple: bool)
      requires IsCString(exp) && regparse <= |exp| && |program| >= 1 && CharAt(exp, regparse) != LPAREN
      modifies `program, `regparse, `err
      ensures match ParseLeaf(exp, old(regparse))
        case Err(e) => ret == 0 && err == e
        case Ok(a, pos, n) =>
          && ret == |old(program)| && program == old(program) + CodeAtom(a, Loose)
          && regparse == pos && err == old(err)
          && width == AtomHasWidth(a) && simple == IsSimple(a)
    {
      ret, width, simple := 0, false, false;
      var ch := CharAt(exp, regparse);
      if ch == 0 || ch == BAR || ch == RPAREN {
        err := Internal;
      } else if ch == CARET || ch == DOLLAR || ch == DOT {
        regparse := regparse + 1;
        ret := RegNode(if ch == CARET then BOL else if ch == DOLLAR then EOL else ANY);
        width := ch == DOT;
        simple := width;
      } else if IsMult(ch) {
        err := CountFollowsNothing;
      } else if ch == LBRACKET {
        regparse := regparse + 1;
        ret := RegClass();
        width, simple := true, true;
      } else if ch == BACKSLASH && regparse + 1 == |exp| {
        err := TrailingBackslash;
      } else if ch == BACKSLASH && IsSpecialEscape(exp[regparse + 1]) {
        var c := exp[regparse + 1];
        ret := RegSpecialEscape(c);
        width := c == 100 || c == 119 || c == 115;
        simple := width;
        regparse := regparse + 2;
      } else {
        var added: nat;
        ret, added := RegExactly();
        width, simple := true, added == 1;
      }
    }

    /** The lowest level of the grammar. */
    method RegAtom() returns (ret: nat, width: bool, simple: bool, loop: bool)
      requires IsCString(exp) && regparse <= |exp| && |program| >= 1
      modifies `program, `regparse, `nsub, `err
      ensures match ParseAtom(exp, old(regparse), old(nsub))
        case Err(e) => ret == 0 && err == e
        case Ok(a, pos, n) =>
          && ret == |old(program)| && program == old(program) + CodeAtom(a, Loose)
          && regparse == pos && nsub == n && err == old(err)
          && width == AtomHasWidth(a) && simple == IsSimple(a) && loop == AtomStartsLoop(a)
      decreases |exp| - regparse, 0
    {
      simple, loop := false, false;
      if CharAt(exp, regparse) == LPAREN {
        regparse := regparse + 1;
        ret, width, loop := Reg(true);
      } else {
        ret, width, simple := RegLeaf();
      }
    }

    // ----- Pieces -----

    /** Reads the bounds of the repeat operator at `regparse` and moves to its last character. */
    method RegBounds() returns (ok: bool, min: int, max: int)
      requires regparse < |exp|
      modifies `regparse, `err
      ensures match ParseBounds(exp, old(regparse))
        case Err(e) => !ok && err == e
        case Ok((lo, hi), pos, _) => ok && err == old(err) && min == lo && max == hi && regparse == pos
    {
      var op := exp[regparse];
      ok, min, max := true, if op == PLUS then 1 else 0, if op == QUESTION then 1 else MAX_REP_COUNT;
      if op == LBRACE {
        var end: nat;
        min, end := StrToULong(exp, regparse + 1).0, StrToULong(exp, regparse + 1).1;
        if end == regparse + 1 {
          err := BadCount;
          return false, min, max;
        }
        if CharAt(exp, end) == RBRACE {
          max := min;
        } else {
          regparse := end;
          max, end := StrToULong(exp, regparse + 1).0, StrToULong(exp, regparse + 1).1;
          if CharAt(exp, end) != RBRACE {
            err := UnmatchedBraces;
            return false, min, max;
          }
        }
        if end == regparse + 1 {
          max := MAX_REP_COUNT;
        } else if max < min || max >= 100 {
          err := BadCount;
          return false, min, max;
        }
        if min >= 100 {
          err := BadCount;
          return false, min, max;
        }
        regparse := end;
      }
    }

    /** Puts a repeat node in front of the atom at `ret`. */
    method RegRepeat(ret: nat, simple: bool, greedy: bool, min: int, max: int, ghost base: seq<int>, ghost a: Atom)
      requires WellFormedAtom(a) && simple == IsSimple(a)
      requires program == base + CodeAtom(a, Loose) && ret == |base|
      modifies `program
      ensures program == base + CodePiece(Piece(a, Repeat(min, max, greedy)), Loose)
    {
      var op := if simple then if greedy then REP else REPMIN else if greedy then REPX else REPXMIN;
      var next := RegInsertHead(op, min, max, ret, base, CodeAtom(a, Loose));
      if simple {
        SimpleRepeat(base, a, min, max, greedy);
      } else {
        var back := RegNode(BACK);
        RegTail(back, ret, back);
        ComplexRepeat(program, base, a, min, max, greedy, ret + 5 + TailAtom(a), SizeAtom(a) - TailAtom(a));
        RegTail(next, back, ret + 5 + TailAtom(a));
      }
    }

    method RegInsertHead(op: int, min: int, max: int, ret: nat, ghost base: seq<int>, ghost code: seq<int>)
      returns (next: nat)
      requires program == base + code && ret == |base|
      modifies `program
      ensures next == ret + 5 && program == base + [op, 0, max, min, 0] + code
    {
      next := RegInsert(op, 5, ret);
      assert program == base + ([op] + Zeros(4)) + code;
      program := program[ret + 2 := max][ret + 3 := min][ret + 4 := 0];
      assert program == base + [op, 0, max, min, 0] + code;
    }

    /** The repeat operator at `regparse`, after the atom at `ret`. */
    method RegCount(ret: nat, width: bool, simple: bool, ghost base: seq<int>, ghost a: Atom)
      returns (ok: bool, min: int)
      requires regparse <= |exp| && IsMult(CharAt(exp, regparse))
      requires WellFormedAtom(a) && simple == IsSimple(a) && program == base + CodeAtom(a, Loose) && ret == |base|
      modifies `program, `regparse, `err
      ensures match ParseCount(exp, old(regparse), width)
        case Err(e) => !ok && err == e
        case Ok(count, pos, _) =>
          && ok && count.Repeat? && min == count.min && regparse == pos && err == old(err)
          && program == base + CodePiece(Piece(a, count), Loose)
    {
      if !width && exp[regparse] != QUESTION {
        err := OperandCouldBeEmpty;
        return false, 0;
      }
      var max: int;
      ok, min, max := RegBounds();
      if !ok {
        return;
      }
      ghost var at := regparse;
      var greedy := RegGreedy();
      RegRepeat(ret, simple, greedy, min, max, base, a);
      regparse := regparse + 1;
      CountIs(exp, old(regparse), width, min, max, at, greedy, regparse);
      if IsMult(CharAt(exp, regparse)) {
        err := NestedCount;
        ok := false;
      }
    }

    /** Whether the repeat takes as much as it can; a question mark after the operator says that it does not. */
    method RegGreedy() returns (greedy: bool)
      requires regparse < |exp|
      modifies `regparse
      ensures greedy == (CharAt(exp, old(regparse) + 1) != QUESTION)
      ensures regparse == (if greedy then old(regparse) else old(regparse) + 1) && regparse < |exp|
    {
      greedy := true;
      if CharAt(exp, regparse + 1) == QUESTION {
        regparse := regparse + 1;
        greedy := false;
      }
    }

    /** An atom and the repeat operator that may follow it. */
    method RegPiece() returns (ret: nat, width: bool, loop: bool)
      requires IsCString(exp) && regparse <= |exp| && |program| >= 1
      modifies `program, `regparse, `nsub, `err
      ensures match ParsePiece(exp, old(regparse), old(nsub))
        case Err(e) => ret == 0 && err == e
        case Ok(p, pos, n) =>
          && ret == |old(program)| && program == old(program) + CodePiece(p, Loose)
          && regparse == pos && nsub == n && err == old(err)
          && width == PieceHasWidth(p) && loop == PieceStartsLoop(p)
      decreases |exp| - regparse, 1
    {
      ghost var atom := ParseAtom(exp, regparse, nsub);
      var simple: bool;
      ret, width, simple, loop := RegAtom();
      if ret != 0 && IsMult(CharAt(exp, regparse)) {
        var ok, min := RegCount(ret, width, simple, old(program), atom.value);
        width, loop := min != 0, min == 0;
        if !ok {
          ret := 0;
        }
      }
    }

    /** The pieces of one alternative, each led to the next. */
    method RegPieces(ghost base: seq<int>) returns (ok: bool, some: bool, width: bool, loop: bool)
      requires IsCString(exp) && regparse <= |exp| && program == base && |base| >= 1
      modifies `program, `regparse, `nsub, `err
      ensures match ParsePieces(exp, old(regparse), old(nsub), [])
        case Err(e) => !ok && err == e
        case Ok(ps, pos, n) =>
          && ok && program == base + CodePieces(ps, Loose) && some == (ps != [])
          && regparse == pos && nsub == n && err == old(err)
          && width == PiecesHaveWidth(ps) && loop == PiecesStartLoop(ps)
      decreases |exp| - regparse, 3
    {
      ok, width, loop := true, false, false;
      ghost var acc: seq<Piece> := [];
      var chain := 0;
      while ok && CharAt(exp, regparse) != 0 && CharAt(exp, regparse) != RPAREN && CharAt(exp, regparse) != BAR
        invariant !ok ==> ParsePieces(exp, old(regparse), old(nsub), []) == Err(err)
        invariant ok ==> old(regparse) <= regparse <= |exp| && err == old(err) && WellFormedPieces(acc)
        invariant ok ==> program == base + CodePieces(acc, Loose)
        invariant ok ==> if acc == [] then chain == 0 else chain == |base| + SizePieces(acc[..|acc| - 1])
        invariant ok ==> ParsePieces(exp, old(regparse), old(nsub), []) == ParsePieces(exp, regparse, nsub, acc)
        invariant ok ==> width == PiecesHaveWidth(acc) && loop == PiecesStartLoop(acc)
        decreases ok, |exp| - regparse
      {
        ghost var piece := ParsePiece(exp, regparse, nsub);
        var latest, w, l := RegNextPiece(chain, base, acc);
        ok := latest != 0;
        if ok {
          WidthSnoc(acc, piece.value);
          width := width || w;
          loop := if chain == 0 then l else loop;
          acc := acc + [piece.value];
          chain := latest;
        }
      }
      some := chain != 0;
    }

    /** One more piece, to which the pieces before it are led. */
    method RegNextPiece(chain: nat, ghost base: seq<int>, ghost acc: seq<Piece>) returns (latest: nat, width: bool, loop: bool)
      requires IsCString(exp) && regparse <= |exp| && |base| >= 1
      requires WellFormedPieces(acc) && program == base + CodePieces(acc, Loose)
      requires if acc == [] then chain == 0 else chain == |base| + SizePieces(acc[..|acc| - 1])
      modifies `program, `regparse, `nsub, `err
      ensures match ParsePiece(exp, old(regparse), old(nsub))
        case Err(e) => latest == 0 && err == e
        case Ok(p, pos, n) =>
          && latest == |base| + SizePieces(acc) && program == base + CodePieces(acc + [p], Loose)
          && regparse == pos && nsub == n && err == old(err)
          && width == PieceHasWidth(p) && loop == PieceStartsLoop(p)
      decreases |exp| - regparse, 2
    {
      ghost var piece := ParsePiece(exp, regparse, nsub);
      latest, width, loop := RegPiece();
      if latest != 0 {
        RegChain(chain, latest, base, acc, piece.value);
      }
    }

    /** One alternative. */
    method RegBranch() returns (ret: nat, width: bool, loop: bool)
      requires IsCString(exp) && regparse <= |exp| && |program| >= 1
      modifies `program, `regparse, `nsub, `err
      ensures match ParsePieces(exp, old(regparse), old(nsub), [])
        case Err(e) => ret == 0 && err == e
        case Ok(ps, pos, n) =>
          && ret == |old(program)| && program == old(program) + CodeBranch(Branch(ps), Loose, 0)
          && regparse == pos && nsub == n && err == old(err)
          && width == PiecesHaveWidth(ps) && loop == PiecesStartLoop(ps)
      decreases |exp| - regparse, 4
    {
      ghost var pieces := ParsePieces(exp, regparse, nsub, []);
      ret := RegNode(BRANCH);
      ghost var base := program;
      var ok, some;
      ok, some, width, loop := RegPieces(base);
      if !ok {
        return 0, width, loop;
      }
      if !some {
        var nothing := RegNode(NOTHING);
        assert base + [] == base;
      }
      Assoc(old(program), [BRANCH, 0], CodeBody(pieces.value, Loose));
    }

    /** Leads the pieces read so far, if any, to the one just read. */
    method RegChain(chain: nat, latest: nat, ghost base: seq<int>, ghost ps: seq<Piece>, ghost p: Piece)
      requires WellFormedPieces(ps) && |base| > 0
      requires program == base + CodePieces(ps, Loose) + CodePiece(p, Loose) && latest == |base| + SizePieces(ps)
      requires if ps == [] then chain == 0 else chain == |base| + SizePieces(ps[..|ps| - 1])
      modifies `program
      ensures program == base + CodePieces(ps + [p], Loose)
    {
      if chain != 0 {
        ghost var last := ChainFacts(program, base, ps, p, chain, latest);
        RegTail(chain, latest, last);
      } else {
        FirstPiece(base, p);
      }
    }

    // ----- Choices -----

    /** Links the last branch, at the end of the chain from `ret`, to what was emitted after it. */
    method RegLink(ret: nat, br: nat, ghost pre: seq<int>, ghost alts: seq<Branch>, ghost post: seq<int>)
      requires WellFormedAlts(alts) && program == pre + LooseAlts(alts) + post
      requires br == |pre| + SizeAlts(alts) && Reaches(program, ret, |pre|)
      modifies `program
      ensures program == pre + LinkedAlts(alts) + post
    {
      ghost var init, b := alts[..|alts| - 1], alts[|alts| - 1];
      assert alts == init + [b];
      LinkedSnoc(init, b);
      Regroup(pre, LinkedAlts(init), CodeBranch(b, Loose, 0), post);
      ghost var last := |pre| + SizeAlts(init);
      LastReached(program, ret, pre, init, b, post, last);
      LastLinked(program, pre, init, b, post, last + 1, br - last);
      RegTail(ret, br, last);
    }

    /** Leads the tail of the branch at `br` to the closing node; nothing happens for another node. */
    method RegOpTail(br: nat, ender: nat, ghost last: nat)
      requires br + 1 < |program|
      requires program[br] == BRANCH ==> ChainEnds(program, br + 2, last, 0)
      modifies `program
      ensures program == if old(program)[br] == BRANCH then old(program)[last + 1 := ender - last] else old(program)
    {
      if program[br] == BRANCH {
        RegTail(br + 2, ender, last);
      }
    }

    /** Leads the tail of every branch, found along the chain from `ret`, to the closing node. */
    method RegTie(ret: nat, ender: nat, e: int, ghost base: seq<int>, ghost paren: bool, ghost no: int,
                  ghost alts: seq<Branch>)
      requires |base| > 0 && ret == |base| && -1 <= no && WellFormedAlts(alts) && e != BRANCH
      requires program == Opened(base, paren, no) + LinkedAlts(alts) + [e, 0]
      requires ender == |Opened(base, paren, no)| + SizeAlts(alts)
      modifies `program
      ensures program == Opened(base, paren, no) + CodeAlts(alts, 0) + [e, 0]
    {
      OpenedStart(program, base, paren, no, alts, [e, 0]);
      var br := ret;
      if program[br] != BRANCH {
        br := Next(program, br);
      }
      RegTieBranches(br, ender, e, Opened(base, paren, no), alts);
    }

    method RegTieBranches(first: nat, ender: nat, e: int, ghost pre: seq<int>, ghost alts: seq<Branch>)
      requires first == |pre| > 0 && WellFormedAlts(alts) && e != BRANCH
      requires program == pre + LinkedAlts(alts) + [e, 0] && ender == |pre| + SizeAlts(alts)
      modifies `program
      ensures program == pre + CodeAlts(alts, 0) + [e, 0]
    {
      TyingStart(alts);
      ghost var done, rest := [], alts;
      var br := first;
      while br != 0
        invariant done + rest == alts && program == pre + TyingAlts(done, rest) + [e, 0]
        invariant rest == [] || WellFormedAlts(rest)
        invariant ender == |pre| + SizeAlts(done) + SizeAlts(rest)
        invariant br == if br == 0 && rest == [] then 0 else |pre| + SizeAlts(done)
        decreases br != 0, |rest|
      {
        br, done, rest := RegTieStep(br, ender, e, pre, done, rest);
      }
      assert done == alts;
      TyingDone(program, pre, done, e, ender);
    }

    /** One turn of the loop: ties the branch at `br` if there is one and moves along the chain. */
    method RegTieStep(br: nat, ender: nat, e: int, ghost pre: seq<int>, ghost done: seq<Branch>, ghost rest: seq<Branch>)
      returns (next: int, ghost done': seq<Branch>, ghost rest': seq<Branch>)
      requires |pre| > 0 && program == pre + TyingAlts(done, rest) + [e, 0] && e != BRANCH
      requires rest == [] || WellFormedAlts(rest)
      requires br == |pre| + SizeAlts(done) && ender == br + SizeAlts(rest)
      modifies `program
      ensures done' + rest' == done + rest && program == pre + TyingAlts(done', rest') + [e, 0]
      ensures rest' == [] || WellFormedAlts(rest')
      ensures ender == |pre| + SizeAlts(done') + SizeAlts(rest')
      ensures if rest == [] then next == 0 && rest' == [] else next == |pre| + SizeAlts(done') && |rest'| < |rest|
    {
      ghost var last, d, r := TiePlan(program, pre, done, rest, e, br, ender);
      done', rest' := d, r;
      next := Next(program, br);
      RegOpTail(br, ender, last);
    }

    /** The number of a group, -1 if it does not capture, and its opening node. */
    method RegOpenNode() returns (parno: int)
      requires regparse <= |exp|
      modifies `program, `regparse, `nsub
      ensures var quiet := CharAt(exp, old(regparse)) == QUESTION && CharAt(exp, old(regparse) + 1) == COLON;
        && parno == (if quiet then -1 else old(nsub) + 1) && nsub == (if quiet then old(nsub) else old(nsub) + 1)
        && regparse == (if quiet then old(regparse) + 2 else old(regparse)) <= |exp|
      ensures program == old(program) + [OPEN + parno, 0]
    {
      if CharAt(exp, regparse) == QUESTION && CharAt(exp, regparse + 1) == COLON {
        regparse := regparse + 2;
        parno := -1;
      } else {
        nsub := nsub + 1;
        parno := nsub;
      }
      var ret := RegNode(OPEN + parno);
    }

    /** Reads the alternatives after the OPEN node at `ret`, or from `ret` on if there is none. */
    method RegAlts(ret: nat, paren: bool, ghost base: seq<int>, ghost no: int)
      returns (ok: bool, ghost alts: seq<Branch>, width: bool, loop: bool)
      requires IsCString(exp) && regparse <= |exp| && -1 <= no
      requires ret == |base| > 0 && program == if paren then base + [OPEN + no, 0] else base
      modifies `program, `regparse, `nsub, `err
      ensures match ParseAlts(exp, old(regparse), old(nsub), [])
        case Err(e) => !ok && err == e
        case Ok(value, pos, n) =>
          && ok && alts == value && program == Opened(base, paren, no) + LooseAlts(alts)
          && regparse == pos && nsub == n && err == old(err)
          && width == AtomHasWidth(Group(no, alts)) && loop == AtomStartsLoop(Group(no, alts))
      decreases |exp| - regparse, 6
    {
      ok, alts, width, loop := RegFirstBranch(ret, paren, base, no);
      while ok && CharAt(exp, regparse) == BAR
        invariant ok || ParseAlts(exp, old(regparse), old(nsub), []) == Err(err)
        invariant ok ==> old(regparse) <= regparse <= |exp| && err == old(err) && WellFormedAlts(alts)
        invariant ok ==> program == Opened(base, paren, no) + LooseAlts(alts)
        invariant ok ==> width == AtomHasWidth(Group(no, alts)) && loop == AtomStartsLoop(Group(no, alts))
        invariant ok ==> ParseAlts(exp, old(regparse), old(nsub), []) == MoreAlts(exp, regparse, nsub, alts)
        decreases ok, |exp| - regparse
      {
        ok, alts, width, loop := RegNextBranch(ret, paren, base, no, alts, width, loop);
      }
    }

    /** The first alternative, to which the OPEN node is led. */
    method RegFirstBranch(ret: nat, paren: bool, ghost base: seq<int>, ghost no: int)
      returns (ok: bool, ghost alts: seq<Branch>, width: bool, loop: bool)
      requires IsCString(exp) && regparse <= |exp| && -1 <= no
      requires ret == |base| > 0 && program == if paren then base + [OPEN + no, 0] else base
      modifies `program, `regparse, `nsub, `err
      ensures !ok ==> ParseAlts(exp, old(regparse), old(nsub), []) == Err(err)
      ensures ok ==> old(regparse) <= regparse <= |exp| && err == old(err) && WellFormedAlts(alts)
      ensures ok ==> program == Opened(base, paren, no) + LooseAlts(alts)
      ensures ok ==> width == AtomHasWidth(Group(no, alts)) && loop == AtomStartsLoop(Group(no, alts))
      ensures ok ==> ParseAlts(exp, old(regparse), old(nsub), []) == MoreAlts(exp, regparse, nsub, alts)
      decreases |exp| - regparse, 5
    {
      ghost var pieces := ParsePieces(exp, regparse, nsub, []);
      var br: nat;
      br, width, loop := RegBranch();
      ok := br != 0;
      if !ok {
        alts := [];
      } else {
        ghost var b := Branch(pieces.value);
        alts := [b];
        GroupFlagsSnoc(no, [], b);
        assert [] + [b] == alts;
        RegOpen(ret, br, paren, base, no, b);
      }
    }

    /** Leads the OPEN node, if there is one, to the first branch. */
    method RegOpen(ret: nat, br: nat, paren: bool, ghost base: seq<int>, ghost no: int, ghost b: Branch)
      requires -1 <= no && ret == |base|
      requires program == (if paren then base + [OPEN + no, 0] else base) + CodeBranch(b, Loose, 0)
      requires br == if paren then |base| + 2 else |base|
      modifies `program
      ensures program == Opened(base, paren, no) + LooseAlts([b])
    {
      FirstBranch(base, paren, no, b);
      if paren {
        assert Reaches(program, ret, ret);
        HasMiddle(base, [OPEN + no, 0], CodeBranch(b, Loose, 0));
        HasTwo(program, ret, OPEN + no, 0);
        RegTail(ret, br, ret);
      }
    }

    /** A further alternative, whose `|` is at `regparse`; the one before it is linked to it. */
    method RegNextBranch(ret: nat, paren: bool, ghost base: seq<int>, ghost no: int, ghost before: seq<Branch>,
                         width0: bool, loop0: bool)
      returns (ok: bool, ghost alts: seq<Branch>, width: bool, loop: bool)
      requires IsCString(exp) && regparse < |exp| && -1 <= no && WellFormedAlts(before)
      requires ret == |base| > 0 && program == Opened(base, paren, no) + LooseAlts(before)
      requires width0 == AtomHasWidth(Group(no, before)) && loop0 == AtomStartsLoop(Group(no, before))
      modifies `program, `regparse, `nsub, `err
      ensures !ok ==> ParseAlts(exp, old(regparse) + 1, old(nsub), before) == Err(err)
      ensures ok ==> old(regparse) < regparse <= |exp| && err == old(err) && WellFormedAlts(alts)
      ensures ok ==> program == Opened(base, paren, no) + LooseAlts(alts)
      ensures ok ==> width == AtomHasWidth(Group(no, alts)) && loop == AtomStartsLoop(Group(no, alts))
      ensures ok ==> ParseAlts(exp, old(regparse) + 1, old(nsub), before) == MoreAlts(exp, regparse, nsub, alts)
      decreases |exp| - regparse, 5
    {
      regparse := regparse + 1;
      ghost var pieces := ParsePieces(exp, regparse, nsub, []);
      var br: nat;
      br, width, loop := RegBranch();
      ok := br != 0;
      alts := before;
      if ok {
        ghost var b := Branch(pieces.value);
        alts := before + [b];
        GroupFlagsSnoc(no, before, b);
        RegLinkNext(ret, br, paren, base, no, before, b);
      }
      width, loop := width0 && width, loop0 || loop;
    }

    /** Links the alternatives before the branch at `br` to it. */
    method RegLinkNext(ret: nat, br: nat, ghost paren: bool, ghost base: seq<int>, ghost no: int,
                       ghost before: seq<Branch>, ghost b: Branch)
      requires -1 <= no && WellFormedAlts(before) && ret == |base|
      requires program == Opened(base, paren, no) + LooseAlts(before) + CodeBranch(b, Loose, 0)
      requires br == |Opened(base, paren, no) + LooseAlts(before)|
      modifies `program
      ensures program == Opened(base, paren, no) + LooseAlts(before + [b])
    {
      ghost var pre := Opened(base, paren, no);
      Assoc(pre, LooseAlts(before), CodeBranch(b, Loose, 0));
      OpenedReaches(program, base, paren, no, LooseAlts(before) + CodeBranch(b, Loose, 0));
      LooseSize(before);
      RegLink(ret, br, pre, before, CodeBranch(b, Loose, 0));
      NextBranch(pre, before, b);
    }

    /** Closes a choice: a node at its end, to which every branch leads. */
    method RegClose(ret: nat, e: int, ghost base: seq<int>, ghost paren: bool, ghost no: int, ghost alts: seq<Branch>)
      requires ret == |base| > 0 && -1 <= no && WellFormedAlts(alts) && e != BRANCH
      requires program == Opened(base, paren, no) + LooseAlts(alts)
      modifies `program
      ensures program == Opened(base, paren, no) + CodeAlts(alts, 0) + [e, 0]
    {
      var ender := RegNode(e);
      ghost var pre := Opened(base, paren, no);
      Assoc(pre, LooseAlts(alts), [e, 0]);
      OpenedReaches(program, base, paren, no, LooseAlts(alts) + [e, 0]);
      LooseSize(alts);
      RegLink(ret, ender, pre, alts, [e, 0]);
      RegTie(ret, ender, e, base, paren, no, alts);
    }

    /** A parenthesised group, whose opening parenthesis has been read, or a whole pattern. */
    method Reg(paren: bool) returns (ret: nat, width: bool, loop: bool)
      requires IsCString(exp) && regparse <= |exp| && |program| >= 1
      modifies `program, `regparse, `nsub, `err
      ensures paren ==> match ParseGroup(exp, old(regparse), old(nsub))
        case Err(e) => ret == 0 && err == e
        case Ok(a, pos, n) =>
          && ret == |old(program)| && program == old(program) + CodeAtom(a, Loose)
          && regparse == pos && nsub == n && err == old(err)
          && width == AtomHasWidth(a) && loop == AtomStartsLoop(a)
      ensures !paren ==> match ParseMain(exp, old(regparse), old(nsub))
        case Err(e) => ret == 0 && err == e
        case Ok(alts, pos, n) =>
          && ret == |old(program)| && program == old(program) + CodeAlts(alts, 0) + [END, 0]
          && nsub == n && err == old(err)
          && width == AtomHasWidth(Group(0, alts)) && loop == AtomStartsLoop(Group(0, alts))
      decreases |exp| - regparse, 7
    {
      ghost var base := program;
      var parno := 0;
      ret := |program|;
      if paren {
        parno := RegOpenNode();
      }
      var ok;
      ghost var alts;
      ok, alts, width, loop := RegAlts(ret, paren, base, parno);
      if !ok {
        return 0, width, loop;
      }
      RegClose(ret, if paren then CLOSE + parno else END, base, paren, parno, alts);
      if paren {
        GroupClosed(base, parno, alts);
      }
      ok := RegTerminated(paren);
      if !ok {
        ret := 0;
      }
    }

    /** Checks what stands after a choice and moves past the closing parenthesis. */
    method RegTerminated(paren: bool) returns (ok: bool)
      requires regparse <= |exp|
      modifies `regparse, `err
      ensures ok == (CharAt(exp, old(regparse)) == if paren then RPAREN else 0)
      ensures ok ==> err == old(err) && regparse == if paren then old(regparse) + 1 else old(regparse)
      ensures !ok ==> err == if paren || CharAt(exp, old(regparse)) == RPAREN then UnmatchedParen else JunkOnEnd
    {
      ok := true;
      if paren {
        if CharAt(exp, regparse) != RPAREN {
          err := UnmatchedParen;
          ok := false;
        }
        regparse := regparse + 1;
      } else if CharAt(exp, regparse) != 0 {
        err := if CharAt(exp, regparse) == RPAREN then UnmatchedParen else JunkOnEnd;
        ok := false;
      }
    }

    // ----- The entry point -----

    /** Compiles a pattern: the program and hints of its syntax tree, or the error that parsing it gives. */
    method RegComp(pattern: seq<int>) returns (r: Error)
      requires IsCString(pattern)
      modifies this
      ensures exp == pattern
      ensures match Parse(pattern)
        case Err(e) => r == e
        case Ok(alts, _, n) => r == NoError && Compiled(alts) && nsub == n
    {
      exp, regparse, nsub, err, program := pattern, 0, 0, NoError, [];
      RegC(REG_MAGIC);
      var ret, width, loop := Reg(false);
      if ret == 0 {
        return err;
      }
      if nsub >= REG_MAX_PAREN {
        return TooBig;
      }
      RegHints(loop, ParseMain(pattern, 0, 0).value);
      r := NoError;
    }

    /** Digs out information for the shortcuts of regexec. */
    method RegHints(loop: bool, ghost alts: seq<Branch>)
      requires WellFormedAlts(alts) && program == CodeProgram(alts) && loop == AtomStartsLoop(Group(0, alts))
      modifies `regstart, `reganch, `regmust, `regmlen
      ensures Compiled(alts)
    {
      regstart, reganch, regmust, regmlen := 0, false, 0, 0;
      if |alts| == 1 {
        LoneBranch(program, alts);
      } else {
        SeveralBranches(program, alts);
      }
      if program[Next(program, 1)] == END {
        FirstNode(program, alts);
        if program[3] == EXACTLY {
          regstart := program[5];
        } else if program[3] == BOL {
          reganch := true;
        }
        if loop {
          assert PiecesStartLoop(alts[0].pieces);
          regmust, regmlen := RegFindMust(alts);
        }
      }
    }

    /** Follows the chain from the first node and keeps the last of the longest literals on it. */
    method RegFindMust(ghost alts: seq<Branch>) returns (longest: nat, len: nat)
      requires |alts| == 1 && alts[0].pieces != [] && WellFormedAlts(alts) && program == CodeProgram(alts)
      ensures (longest, len) == MustOf(alts[0].pieces)
    {
      ghost var ps := alts[0].pieces;
      ghost var k := 0;
      longest, len := 0, 0;
      var scan := 3;
      LoneBranch(program, alts);
      assert ps[..0] == [] && Quiet(program, 3, PieceAt(ps, 0));
      while scan != 0
        invariant k <= |ps| && (longest, len) == MustOf(ps[..k])
        invariant if scan == 0 then k == |ps| else 0 < scan < |program| - 1 && Quiet(program, scan, PieceAt(ps, k))
        decreases scan != 0, |program| - scan
      {
        k := Settle(program, alts, scan, k);
        longest, len, k := RegMustStep(scan, longest, len, alts, k);
        scan := Next(program, scan);
      }
      assert ps[..|ps|] == ps;
    }

    /** Looks at one node: a literal that is no shorter than the longest so far replaces it. */
    method RegMustStep(scan: nat, longest0: nat, len0: nat, ghost alts: seq<Branch>, ghost k: nat)
      returns (longest: nat, len: nat, ghost k': nat)
      requires |alts| == 1 && WellFormedAlts(alts) && program == CodeProgram(alts) && scan < |program|
      requires k <= |alts[0].pieces| && (longest0, len0) == MustOf(alts[0].pieces[..k])
      requires program[scan] == EXACTLY ==>
        k < |alts[0].pieces| && scan == PieceAt(alts[0].pieces, k) && IsPlainLiteral(alts[0].pieces[k])
      ensures k' == (if program[scan] == EXACTLY then k + 1 else k) <= |alts[0].pieces|
      ensures (longest, len) == MustOf(alts[0].pieces[..k'])
      ensures program[scan] == EXACTLY ==>
        scan + 1 < |program| && scan < Next(program, scan) == PieceAt(alts[0].pieces, k') <= |program| - 2
    {
      longest, len, k' := longest0, len0, k;
      if program[scan] == EXACTLY {
        ghost var ps := alts[0].pieces;
        assert WellFormedPieces(ps);
        LiteralIsWellFormed(ps[k]);
        NodeAtPiece(program, alts, k, scan, PieceAt(ps, k + 1));
        MustStep(ps, k);
        var plen := StrIntLen(program, scan + 2, ps[k].atom.chars);
        if plen >= len {
          longest, len := scan + 2, plen;
        }
        k' := k + 1;
      }
    }

    // ----- Matching one node -----

    /** Whether `c` is in the class stored at `p`. */
    method RegRangeFind(p: nat, c: int, ghost ranges: seq<Range>) returns (found: bool)
      requires Has(program, p, RangesCode(ranges) + [0])
      ensures found == InClass(c, Effective(ranges))
    {
      ghost var items := StoredItems(ranges);
      StoredIsCode(ranges);
      FindsEffective(ranges, c);
      found := false;
      var range := p;
      StoredStep(program, range, items);
      while program[range] != 0
        invariant Has(program, range, StoredCode(items) + [0])
        invariant Finds(items, c) == Finds(StoredItems(ranges), c)
        decreases |items|
      {
        StoredStep(program, range, items);
        if program[range + 1] <= c <= program[range] + program[range + 1] - 1 {
          return true;
        }
        range := range + 2;
        items := items[1..];
      }
      StoredStep(program, range, items);
    }

    /** The length of the literal at `prog` if the input has it at `at`, otherwise -1. */
    method PrefixCmp(prog: nat, proglen: nat, at: nat, ghost chars: seq<int>) returns (n: int)
      requires Has(program, prog, chars) && proglen == |chars| && at <= |input|
      ensures n == if at + |chars| <= |input| && input[at..at + |chars|] == chars then |chars| else -1
    {
      var k := 0;
      while k < proglen && at + k < |input|
        invariant k <= proglen && at + k <= |input|
        invariant forall t :: 0 <= t < k ==> input[at + t] == chars[t]
      {
        HasAt(program, prog, chars, k);
        if input[at + k] != program[prog + k] {
          assert at + |chars| <= |input| ==> input[at..at + |chars|][k] == input[at + k];
          return -1;
        }
        k := k + 1;
      }
      n := if k == proglen then k else -1;
    }

    /** Matches a leaf's node at the current position and moves past what it takes. */
    method RegLeafStep(scan: nat, ghost a: Atom) returns (ok: bool)
      requires IsCString(input) && reginput <= |input|
      requires !a.Group? && WellFormedAtom(a) && (a.Class? ==> NothingLost(a.ranges))
      requires scan + 1 < |program| && program[scan] == Opcode(a) && Has(program, scan + 2, Operand(a))
      modifies `reginput
      ensures reginput <= |input| && ok == (Step(a, input, old(reginput)) != -1)
      ensures ok ==> reginput == Step(a, input, old(reginput))
    {
      var c := CharAt(input, reginput);
      var op := program[scan];
      ok := true;
      if op == BOL {
        ok := reginput == 0;
      } else if op == EOL {
        ok := c == 0;
      } else if op == WORDA {
        ok := IsWordChar(c) && !(reginput > 0 && IsWordChar(input[reginput - 1]));
      } else if op == WORDZ {
        ok := reginput > 0 && IsWordChar(input[reginput - 1]);
      } else if op == ANY {
        ok := c != 0;
        reginput := if ok then reginput + 1 else reginput;
      } else if op == EXACTLY {
        LiteralOperand(program, scan + 2, a);
        var len := StrIntLen(program, scan + 2, a.chars);
        var n := PrefixCmp(scan + 2, len, reginput, a.chars);
        ok := n >= 0;
        reginput := if ok then reginput + n else reginput;
      } else {
        NothingLostIs(a.ranges, c);
        var found := RegRangeFind(scan + 2, c, a.ranges);
        ok := c != 0 && found == (op == ANYOF);
        reginput := if ok then reginput + 1 else reginput;
      }
    }

    /** How many characters from the current position on a simple atom takes, at most `max`. */
    method RegRepeatCount(p: nat, max: int, ghost a: Atom) returns (count: nat)
      requires IsCString(input) && reginput <= |input|
      requires IsSimple(a) && WellFormedAtom(a)
      requires p + 2 < |program| && program[p] == Opcode(a) && Has(program, p + 2, Operand(a))
      ensures count == Taken(Scanned(a), input, reginput, max)
    {
      count := 0;
      var scan := reginput;
      var more := true;
      while count < max && more
        invariant scan == reginput + count <= |input|
        invariant more ==> count + Taken(Scanned(a), input, scan, max - count) == Taken(Scanned(a), input, reginput, max)
        invariant !more ==> count == Taken(Scanned(a), input, reginput, max)
        decreases more, |input| - scan
      {
        more := RegTakes(p, scan, a);
        if more {
          count := count + 1;
          scan := scan + 1;
        }
      }
    }

    /** Whether a simple atom takes the character at `scan`. */
    method RegTakes(p: nat, scan: nat, ghost a: Atom) returns (takes: bool)
      requires IsCString(input) && scan <= |input|
      requires IsSimple(a) && WellFormedAtom(a)
      requires p + 2 < |program| && program[p] == Opcode(a) && Has(program, p + 2, Operand(a))
      ensures takes == (scan < |input| && Takes(Scanned(a), input[scan]))
    {
      var ch := CharAt(input, scan);
      if program[p] == ANY {
        takes := ch != 0;
      } else if program[p] == EXACTLY {
        LiteralOperand(program, p + 2, a);
        HasAt(program, p + 2, a.chars + [0], 0);
        takes := program[p + 2] == ch;
      } else {
        var found := RegRangeFind(p + 2, ch, a.ranges);
        takes := ch != 0 && found == (program[p] == ANYOF);
      }
    }

    // ----- The main matching routine -----

    /** Matches the program from `prog` on: the first outcome of the continuation it realises. */
    method RegMatch(prog: nat, ghost k: Cont) returns (found: bool)
      requires IsCString(input) && reginput <= |input| && At(program, prog, k) && Fit(k)
      modifies `reginput, pmatch
      ensures reginput <= |input|
      ensures IsFirst(found, reginput, pmatch[..], old(pmatch[..]), old(Outcomes(k, input, reginput)))
      decreases |program| - prog, 2
    {
      var scan;
      ghost var rest;
      found, scan, rest := RegWalk(prog, k);
      if found {
        NodeKind(program, scan, rest);
        var op := program[scan];
        if op == BRANCH {
          found := RegMatchBranches(scan, rest);
        } else if op == REP || op == REPMIN {
          found := RegMatchSimpleRepeat(scan, rest);
        } else if op >= OPENNC {
          found := RegMatchGroup(scan, rest);
        }
      }
    }

    /** The part of the matching loop that goes through nodes without recursion. */
    method RegWalk(prog: nat, ghost k: Cont) returns (ok: bool, scan: nat, ghost rest: Cont)
      requires IsCString(input) && reginput <= |input| && At(program, prog, k) && Fit(k)
      modifies `reginput
      ensures reginput <= |input|
      ensures !ok ==> old(Outcomes(k, input, reginput)) == []
      ensures ok ==> prog <= scan && scan + 1 < |program| && Forks(program, scan)
      ensures ok ==> At(program, scan, rest) && Fit(rest)
      ensures ok ==> Outcomes(rest, input, reginput) == old(Outcomes(k, input, reginput))
    {
      ok, scan, rest := true, prog, k;
      NodeKind(program, scan, rest);
      while ok && !Forks(program, scan)
        invariant prog <= scan && scan + 1 < |program| && reginput <= |input|
        invariant ok ==> At(program, scan, rest) && Fit(rest)
        invariant ok ==> Outcomes(rest, input, reginput) == old(Outcomes(k, input, reginput))
        invariant !ok ==> old(Outcomes(k, input, reginput)) == []
        decreases ok, |program| - scan
      {
        ok, scan, rest := RegAdvance(scan, rest);
      }
    }

    /** Passes one node that needs no recursion. */
    method RegAdvance(scan: nat, ghost k: Cont) returns (ok: bool, next: nat, ghost rest: Cont)
      requires IsCString(input) && reginput <= |input| && At(program, scan, k) && Fit(k)
      requires scan + 1 < |program| && !Forks(program, scan)
      modifies `reginput
      ensures reginput <= |input| && scan < next && next + 1 < |program|
      ensures !ok ==> old(Outcomes(k, input, reginput)) == []
      ensures ok ==> At(program, next, rest) && Fit(rest)
      ensures ok ==> Outcomes(rest, input, reginput) == old(Outcomes(k, input, reginput))
    {
      rest := AdvanceStep(program, scan, k, input, reginput);
      NextIsOnward(program, scan);
      ok := true;
      next := if program[scan] == BRANCH then scan + 2 else Next(program, scan);
      if IsLeafOp(program[scan]) {
        ok := RegLeafStep(scan, k.ps[0].atom);
      }
    }

    /** Tries the branches of a choice in turn, each from the same position. */
    method RegMatchBranches(first: nat, ghost k: Cont) returns (found: bool)
      requires IsCString(input) && reginput <= |input| && At(program, first, k) && Fit(k) && k.Choice?
      modifies `reginput, pmatch
      ensures reginput <= |input|
      ensures IsFirst(found, reginput, pmatch[..], old(pmatch[..]), old(Outcomes(k, input, reginput)))
      decreases |program| - first, 1
    {
      var scan, more := first, true;
      ghost var kc := k;
      found := false;
      while more
        invariant first <= scan && reginput <= |input|
        invariant more ==> At(program, scan, kc) && Fit(kc) && kc.Choice?
        invariant more ==> reginput == old(reginput) && pmatch[..] == old(pmatch[..])
        invariant more ==> Outcomes(kc, input, reginput) == old(Outcomes(k, input, reginput))
        invariant !more ==>
          IsFirst(found, reginput, pmatch[..], old(pmatch[..]), old(Outcomes(k, input, reginput)))
        decreases more, |program| - scan
      {
        found, more, scan, kc := RegTryBranch(scan, kc);
      }
    }

    /** Tries one branch; `more` says that it failed and that `next` is another. */
    method RegTryBranch(scan: nat, ghost k: Cont) returns (found: bool, more: bool, next: nat, ghost rest: Cont)
      requires IsCString(input) && reginput <= |input| && At(program, scan, k) && Fit(k) && k.Choice?
      modifies `reginput, pmatch
      ensures reginput <= |input| && scan < next && next < |program|
      ensures more ==> At(program, next, rest) && Fit(rest) && rest.Choice?
      ensures more ==> reginput == old(reginput) && pmatch[..] == old(pmatch[..])
      ensures more ==> Outcomes(rest, input, reginput) == old(Outcomes(k, input, reginput))
      ensures !more ==> IsFirst(found, reginput, pmatch[..], old(pmatch[..]), old(Outcomes(k, input, reginput)))
      decreases |program| - scan, 0
    {
      var save := reginput;
      var body, other, last := TryNext(program, scan, k, input, reginput, Next(program, scan));
      next := Next(program, scan);
      rest := other;
      found := RegMatch(scan + 2, body);
      FirstOfTwo(found, reginput, pmatch[..], old(pmatch[..]), Outcomes(body, input, save),
                 if last then [] else Outcomes(rest, input, save));
      more := !found && program[next] == BRANCH;
      if !found {
        reginput := save;
      }
    }

    /** Simple repeats: counts what the operand takes, then tries to go on after each allowed count. */
    method RegMatchSimpleRepeat(scan: nat, ghost k: Cont) returns (found: bool)
      requires IsCString(input) && reginput <= |input| && At(program, scan, k) && Fit(k)
      requires k.Pieces? && k.ps[0].count.Repeat?
      modifies `reginput, pmatch
      ensures reginput <= |input|
      ensures IsFirst(found, reginput, pmatch[..], old(pmatch[..]), old(Outcomes(k, input, reginput)))
      decreases |program| - scan, 1
    {
      var next := Next(program, scan);
      var x, rest := RepeatNext(program, scan, k, input, reginput, next);
      var max, min := program[scan + 2], program[scan + 3];
      LiteralThere(program, next, rest);
      var nextch := if program[next] == EXACTLY then program[next + 2] else 0;
      var no := RegRepeatCount(scan + 5, max, x.atom);
      RepeatOutcomes(x, rest, input, reginput, no);
      if no < min {
        return false;
      }
      if program[scan] == REPMIN {
        found := RegTryUp(next, nextch, reginput, min, no, rest);
      } else {
        found := RegTryDown(next, nextch, reginput, no, min, rest);
      }
    }

    /** From the greatest count down to the least. */
    method RegTryDown(next: nat, nextch: int, save: nat, n: nat, min: nat, ghost rest: Cont) returns (found: bool)
      requires IsCString(input) && min <= n && save + n <= |input| && At(program, next, rest) && Fit(rest)
      requires next + 1 < |program| && (nextch != 0 ==>
        next + 2 < |program| && program[next] == EXACTLY && program[next + 2] == nextch)
      modifies `reginput, pmatch
      ensures reginput <= |input|
      ensures IsFirst(found, reginput, pmatch[..], old(pmatch[..]), Down(rest, input, save, n, min))
      decreases |program| - next, 4
    {
      found := false;
      var no: int := n;
      reginput := save + n;
      while no >= min && !found
        invariant min - 1 <= no <= n && reginput <= |input|
        invariant !found ==> pmatch[..] == old(pmatch[..])
        invariant !found && no >= min ==> Down(rest, input, save, n, min) == Down(rest, input, save, no, min)
        invariant !found && no < min ==> Down(rest, input, save, n, min) == []
        invariant found ==>
          IsFirst(found, reginput, pmatch[..], old(pmatch[..]), Down(rest, input, save, n, min))
        decreases !found, no
      {
        found := RegTryCount(next, nextch, save + no, rest);
        no := no - 1;
      }
    }

    /** From the least count up to the greatest. */
    method RegTryUp(next: nat, nextch: int, save: nat, n: nat, max: nat, ghost rest: Cont) returns (found: bool)
      requires IsCString(input) && n <= max && save + max <= |input| && At(program, next, rest) && Fit(rest)
      requires next + 1 < |program| && (nextch != 0 ==>
        next + 2 < |program| && program[next] == EXACTLY && program[next + 2] == nextch)
      modifies `reginput, pmatch
      ensures reginput <= |input|
      ensures IsFirst(found, reginput, pmatch[..], old(pmatch[..]), Up(rest, input, save, n, max))
      decreases |program| - next, 4
    {
      found := false;
      var no := n;
      reginput := save + n;
      while no <= max && !found
        invariant n <= no <= max + 1 && reginput <= |input|
        invariant !found ==> pmatch[..] == old(pmatch[..])
        invariant !found && no <= max ==> Up(rest, input, save, n, max) == Up(rest, input, save, no, max)
        invariant !found && no > max ==> Up(rest, input, save, n, max) == []
        invariant found ==>
          IsFirst(found, reginput, pmatch[..], old(pmatch[..]), Up(rest, input, save, n, max))
        decreases !found, max - no
      {
        found := RegTryCount(next, nextch, save + no, rest);
        no := no + 1;
      }
    }

    /** Goes on from `at`, unless the next character shows that it would be useless. */
    method RegTryCount(next: nat, nextch: int, at: nat, ghost rest: Cont) returns (found: bool)
      requires IsCString(input) && at <= |input| && At(program, next, rest) && Fit(rest)
      requires next + 1 < |program| && (nextch != 0 ==>
        next + 2 < |program| && program[next] == EXACTLY && program[next + 2] == nextch)
      modifies `reginput, pmatch
      ensures reginput <= |input|
      ensures IsFirst(found, reginput, pmatch[..], old(pmatch[..]), Outcomes(rest, input, at))
      decreases |program| - next, 3
    {
      reginput := at;
      found := false;
      if nextch == 0 || CharAt(input, reginput) == nextch {
        found := RegMatch(next, rest);
      } else {
        LookaheadFails(program, next, rest, input, at);
      }
    }

    /** OPEN and CLOSE nodes: what follows is matched first, then the position is recorded. */
    method RegMatchGroup(scan: nat, ghost k: Cont) returns (found: bool)
      requires IsCString(input) && reginput <= |input| && At(program, scan, k) && Fit(k)
      requires scan < |program| && program[scan] >= OPENNC
      modifies `reginput, pmatch
      ensures reginput <= |input|
      ensures IsFirst(found, reginput, pmatch[..], old(pmatch[..]), old(Outcomes(k, input, reginput)))
      decreases |program| - scan, 1
    {
      var rest, m := GroupStep(program, scan, k, input, reginput);
      var save := reginput;
      var op := program[scan];
      found := RegMatch(Next(program, scan), rest);
      if op != OPENNC && op != CLOSENC {
        FirstPrepend(found, reginput, pmatch[..], old(pmatch[..]), old(Outcomes(rest, input, reginput)), m);
        if found {
          RegRecord(op, save);
        }
      }
    }

    /** Records where a capturing group opened or closed, unless its slot is set already. */
    method RegRecord(op: int, save: nat)
      requires OPEN < op < OPEN + REG_MAX_PAREN || CLOSE < op < CLOSE_END
      modifies pmatch
      ensures pmatch[..] == Record(old(pmatch[..]), if op < CLOSE then OpenMark(op - OPEN, save) else CloseMark(op - CLOSE, save))
    {
      if op < CLOSE {
        var no := op - OPEN;
        if no < pmatch.Length && pmatch[no].so == -1 {
          pmatch[no] := pmatch[no].(so := save);
        }
      } else {
        var no := op - CLOSE;
        if no < pmatch.Length && pmatch[no].eo == -1 {
          pmatch[no] := pmatch[no].(eo := save);
        }
      }
    }

    // ----- Executing -----

    /** Tries a match at one start. */
    method RegTry(at: nat, ghost alts: seq<Branch>) returns (found: bool)
      requires Searchable(alts) && program == CodeProgram(alts)
      requires IsCString(input) && at <= |input| && pmatch.Length >= 1
      modifies `reginput, pmatch
      ensures found == (Results(alts, input, at) != [])
      ensures pmatch[..] == if found then Slots(pmatch.Length, at, Results(alts, input, at)[0]) else Unset(pmatch.Length)
    {
      reginput := at;
      RegUnset();
      WholeAt(program, alts);
      found := RegMatch(1, Whole(alts));
      if found {
        pmatch[0] := Span(at, reginput);
      }
    }

    method RegUnset()
      modifies pmatch
      ensures pmatch[..] == Unset(pmatch.Length)
    {
      for i := 0 to pmatch.Length
        invariant forall k :: 0 <= k < i ==> pmatch[k] == Span(-1, -1)
      {
        pmatch[i] := Span(-1, -1);
      }
    }

    /** The size of a node in words. */
    method RegOpSize(p: nat) returns (n: nat)
      requires p < |program|
      requires IsSized(program[p]) ==> ZeroAt(program, p + 2) < |program|
      ensures n == OpSize(program, p)
    {
      var op := program[p];
      if op == REP || op == REPMIN || op == REPX || op == REPXMIN {
        n := 5;
      } else if IsSized(op) {
        var s := p + 2;
        while program[s] != 0
          invariant p + 2 <= s <= ZeroAt(program, p + 2) == ZeroAt(program, s)
          decreases ZeroAt(program, p + 2) - s
        {
          s := s + 1;
        }
        n := s + 1 - p;
      } else {
        n := 2;
      }
    }

    /** Clears the counters of complex repeats, whatever a search has left in them: the program is again what
        was compiled. */
    method RegClearCounters(ghost alts: seq<Branch>)
      requires WellFormedAlts(alts) && SaneAlts(alts) && CountersAside(alts, program)
      modifies `program
      ensures program == CodeProgram(alts)
    {
      ghost var code := CodeProgram(alts);
      ghost var end := |code| - 2;
      WalkReachesEnd(alts);
      StartIsWalk(alts, 3);
      ClearStarts(alts, program);
      var scan := 3;
      while program[scan] != END
        invariant 3 <= scan <= end == |code| - 2 && Walks(code, 1, scan)
        invariant ClearTo(alts, program, scan)
        decreases end - scan
      {
        ScanIsNode(alts, program, scan, end);
        ghost var was := program;
        if program[scan] == REPX || program[scan] == REPXMIN {
          program := program[scan + 4 := 0];
        }
        ClearNode(alts, was, scan, program);
        var n := RegOpSize(scan);
        scan := scan + n;
      }
      ScanIsNode(alts, program, scan, end);
      ClearEnds(alts, program);
    }

    /** The first position at or after `at` that holds `c`; -1 if there is none. */
    method StrFind(at: nat, c: int) returns (p: int)
      requires at <= |input| && c != 0
      ensures p == -1 || at <= p < |input|
      ensures p != -1 ==> input[p] == c
      ensures forall j :: at <= j < (if p == -1 then |input| else p) ==> input[j] != c
    {
      p := at;
      while p < |input|
        invariant at <= p <= |input| && forall j :: at <= j < p ==> input[j] != c
      {
        if input[p] == c {
          return;
        }
        p := p + 1;
      }
      p := -1;
    }

    /** Whether the must-appear string is anywhere in the input. */
    method RegMustAppear(ghost chars: seq<int>) returns (found: bool)
      requires Has(program, regmust, chars) && regmlen == |chars| && chars != [] && chars[0] != 0
      ensures found == Occurs(chars, input)
    {
      HasAt(program, regmust, chars, 0);
      var s := StrFind(0, program[regmust]);
      found := false;
      while s != -1
        invariant s == -1 || 0 <= s < |input|
        invariant forall j: nat :: j < (if s == -1 then |input| else s) ==> !OccursAt(chars, input, j)
        decreases if s == -1 then 0 else |input| - s
      {
        var n := PrefixCmp(regmust, regmlen, s, chars);
        if n >= 0 {
          assert OccursAt(chars, input, s);
          return true;
        }
        var at := s + 1;
        s := StrFind(at, program[regmust]);
        forall j: nat | at <= j < (if s == -1 then |input| else s) ensures !OccursAt(chars, input, j) {
          assert j + |chars| <= |input| ==> input[j..j + |chars|][0] == input[j];
        }
      }
    }

    /** Searches the input: the first outcome at the first start from which the pattern matches. */
    method RegExec(str: seq<int>, slots: array<Span>, ghost alts: seq<Branch>) returns (found: bool)
      requires WellFormedAlts(alts) && SaneAlts(alts) && CountersAside(alts, program) && Hinted(alts)
      requires Searchable(alts) && IsCString(str) && slots.Length >= 1
      modifies `input, `pmatch, `reginput, `program, slots
      ensures Compiled(alts)
      ensures found == (FirstStart(alts, str, 0) <= |str|)
      ensures found ==> var st := FirstStart(alts, str, 0);
        slots[..] == Slots(slots.Length, st, Results(alts, str, st)[0])
    {
      input, pmatch := str, slots;
      RegClearCounters(alts);
      if regmust != 0 {
        MustThere(program, alts);
        var appears := RegMustAppear(MustChars(alts));
        if !appears {
          NoStart(alts, input);
          return false;
        }
      }
      if reganch {
        found := RegTry(0, alts);
        OnlyStart(alts, input);
      } else if regstart != 0 {
        found := RegSearchChar(alts);
      } else {
        found := RegSearchAll(alts);
      }
    }

    /** Tries every start in order, the end of the input included. */
    method RegSearchAll(ghost alts: seq<Branch>) returns (found: bool)
      requires program == CodeProgram(alts) && Searchable(alts) && IsCString(input) && pmatch.Length >= 1
      modifies `reginput, pmatch
      ensures found == (FirstStart(alts, input, 0) <= |input|)
      ensures found ==> var st := FirstStart(alts, input, 0);
        pmatch[..] == Slots(pmatch.Length, st, Results(alts, input, st)[0])
    {
      var s := 0;
      while true
        invariant s <= |input| && FirstStart(alts, input, 0) == FirstStart(alts, input, s)
        decreases |input| - s
      {
        found := RegTry(s, alts);
        if found || s == |input| {
          return;
        }
        s := s + 1;
      }
    }

    /** Tries the starts that hold the first character of the pattern. */
    method RegSearchChar(ghost alts: seq<Branch>) returns (found: bool)
      requires program == CodeProgram(alts) && Searchable(alts) && IsCString(input) && pmatch.Length >= 1
      requires regstart == FirstChar(alts) != 0
      modifies `reginput, pmatch
      ensures found == (FirstStart(alts, input, 0) <= |input|)
      ensures found ==> var st := FirstStart(alts, input, 0);
        pmatch[..] == Slots(pmatch.Length, st, Results(alts, input, st)[0])
    {
      var s := StrFind(0, regstart);
      SkipToChar(alts, input, 0, if s == -1 then |input| + 1 else s);
      found := false;
      while s != -1 && !found
        invariant s == -1 || 0 <= s < |input|
        invariant !found ==> FirstStart(alts, input, 0) == if s == -1 then |input| + 1 else FirstStart(alts, input, s)
        invariant found ==> s != -1 && FirstStart(alts, input, 0) == s
        invariant found ==> pmatch[..] == Slots(pmatch.Length, s, Results(alts, input, s)[0])
        decreases !found, if s == -1 then 0 else |input| - s
      {
        found := RegTry(s, alts);
        if !found {
          var at := s + 1;
          s := StrFind(at, regstart);
          SkipToChar(alts, input, at, if s == -1 then |input| + 1 else s);
        }
      }
    }
  }

  /** The outcomes of a simple repeat, by the characters that its stored atom takes. */
  lemma RepeatOutcomes(x: Piece, rest: Cont, s: seq<int>, i: nat, n: nat)
    requires FitPiece(x) && x.count.Repeat? && Fit(rest) && i <= |s| && n == Taken(Scanned(x.atom), s, i, x.count.max)
    ensures i + n <= |s|
    ensures n < x.count.min ==> PieceOutcomes(x, rest, s, i) == []
    ensures n >= x.count.min ==>
              PieceOutcomes(x, rest, s, i) == if x.count.greedy then Down(rest, s, i, n, x.count.min) else Up(rest, s, i, x.count.min, n)
  {
    ScannedIsTaken(x.atom, s, i, x.count.max);
  }

  lemma NextIsOnward(prog: seq<int>, q: nat)
    requires q + 1 < |prog| && prog[q + 1] > 0 && prog[q] != BACK
    ensures (if prog[q] == BRANCH then q + 2 else Next(prog, q)) == Onward(prog, q)
  {
  }

  /** A simple repeat, and what comes after it. */
  lemma RepeatNext(prog: seq<int>, q: nat, k: Cont, s: seq<int>, i: nat, next: int) returns (x: Piece, rest: Cont)
    requires At(prog, q, k) && Fit(k) && i <= |s| && k.Pieces? && k.ps[0].count.Repeat? && q + 1 < |prog| && next == Next(prog, q)
    ensures x == k.ps[0] && FitPiece(x) && x.count.Repeat? && q + 7 <= |prog|
    ensures q < next && At(prog, next, rest) && Fit(rest)
    ensures prog[q] == (if x.count.greedy then REP else REPMIN)
    ensures prog[q + 2] == x.count.max && prog[q + 3] == x.count.min
    ensures prog[q + 5] == Opcode(x.atom) && Has(prog, q + 7, Operand(x.atom))
    ensures Outcomes(k, s, i) == PieceOutcomes(x, rest, s, i)
  {
    x, rest := RepeatStep(prog, q, k, s, i);
  }

  /** A branch of a choice, and the one after it. */
  lemma TryNext(prog: seq<int>, q: nat, k: Cont, s: seq<int>, i: nat, next: int) returns (body: Cont, rest: Cont, last: bool)
    requires At(prog, q, k) && Fit(k) && k.Choice? && i <= |s| && q + 1 < |prog| && next == Next(prog, q)
    ensures q < next && next + 1 < |prog| && At(prog, q + 2, body) && Fit(body) && (last <==> prog[next] != BRANCH)
    ensures !last ==> At(prog, next, rest) && Fit(rest) && rest.Choice?
    ensures Outcomes(k, s, i) == Outcomes(body, s, i) + if last then [] else Outcomes(rest, s, i)
  {
    body, rest, last := TryStep(prog, q, k, s, i);
  }

  /** The length of the zero-terminated string at `p`. */
  method StrIntLen(prog: seq<int>, p: nat, ghost chars: seq<int>) returns (n: nat)
    requires Has(prog, p, chars + [0]) && forall k :: 0 <= k < |chars| ==> chars[k] != 0
    ensures n == |chars|
  {
    n := 0;
    HasAt(prog, p, chars + [0], 0);
    while prog[p + n] != 0
      invariant n <= |chars| && prog[p + n] == (chars + [0])[n]
      decreases |chars| - n
    {
      n := n + 1;
      HasAt(prog, p, chars + [0], n);
    }
  }

  /** What is left to parse once `alts` have been read. */
  ghost function MoreAlts(s: seq<int>, i: nat, nsub: nat, alts: seq<Branch>): Parsed<seq<Branch>>
    requires i <= |s| && IsCString(s) && WellFormedAlts(alts)
  {
    if CharAt(s, i) == BAR then ParseAlts(s, i + 1, nsub, alts) else Ok(alts, i, nsub)
  }

  const SPACE_CHARS := [32, 9, 13, 10, 12, 11]

  function Singles(str: seq<int>): seq<Range> {
    seq(|str|, k requires 0 <= k < |str| => Range(str[k], str[k]))
  }

  /** Decodes up to `n` hexadecimal digits. */
  method ParseHex(s: seq<int>, i: nat, n: nat) returns (k: nat, val: int)
    ensures k == HexCount(s, i, n) && val == ToInt32(HexValue(s, i, k))
  {
    k, val := 0, 0;
    while k < n
      invariant k <= n && k + HexCount(s, i + k, n - k) == HexCount(s, i, n)
      invariant val == ToInt32(HexValue(s, i, k))
    {
      var c := HexDigitVal(CharAt(s, i + k));
      if c == -1 {
        break;
      }
      ShiftHex(HexValue(s, i, k), c);
      val := ToInt32(16 * val + c);
      k := k + 1;
    }
  }

  /** Appending a digit commutes with wrapping. */
  lemma ShiftHex(v: int, c: int)
    ensures ToInt32(16 * ToInt32(v) + c) == ToInt32(16 * v + c)
  {
    var w := ToInt32(v);
    var q := v / 0x1_0000_0000 + if v % 0x1_0000_0000 < 0x8000_0000 then 0 else 1;
    assert v == w + q * 0x1_0000_0000;
    assert (16 * v + c) % 0x1_0000_0000 == (16 * w + c) % 0x1_0000_0000;
  }

  /** Decodes the escape at `i`: the character and the number of bytes taken. */
  method RegDecodeEscape(s: seq<int>, i: nat) returns (c: int, n: nat)
    requires i <= |s|
    ensures (c, n) == DecodeEscape(s, i)
  {
    c, n := SignedChar(CharAt(s, i)), 1;
    match CharAt(s, i) {
      case 98 => c := 8;
      case 101 => c := 27;
      case 102 => c := 12;
      case 110 => c := 10;
      case 114 => c := 13;
      case 116 => c := 9;
      case 118 => c := 11;
      case 117 =>
        if CharAt(s, i + 1) == LBRACE {
          var k, v := ParseHex(s, i + 2, 6);
          if k > 0 && CharAt(s, i + 2 + k) == RBRACE && 0 <= v <= 0x1fffff {
            c, n := v, k + 3;
          }
        } else {
          var k, v := ParseHex(s, i + 1, 4);
          if k > 0 {
            c, n := v, 1 + k;
          }
        }
      case 85 =>
        var k, v := ParseHex(s, i + 1, 8);
        if k > 0 {
          c, n := v, 1 + k;
        }
      case 120 =>
        var k, v := ParseHex(s, i + 1, 2);
        if k > 0 {
          c, n := v, 1 + k;
        }
      case 0 => c, n := BACKSLASH, 0;
      case _ =>
    }
  }
}
