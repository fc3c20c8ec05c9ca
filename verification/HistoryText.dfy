/** The bounded history of linenoise.c as a sequence of lines, and the text it is saved as. */
module HistoryText {

  const MAX_LINE := 4096

  datatype Option<+T> = None | Some(value: T)

  // ----- The history -----

  /** The last `n` entries. */
  function Newest(s: seq<string>, n: nat): (r: seq<string>)
    ensures |r| == if |s| > n then n else |s|
  {
    if |s| > n then s[|s| - n..] else s
  }

  lemma NewestOfMore(s: seq<string>, line: string, n: nat)
    requires |s| <= n && n > 0
    ensures Newest(s + [line], n) == (if |s| == n then s[1..] else s) + [line]
  {
    if |s| == n {
      assert (s + [line])[1..] == s[1..] + [line];
    }
  }

  predicate IsRepeat(s: seq<string>, line: string) {
    s != [] && s[|s| - 1] == line
  }

  /** A line that repeats the last one is not taken. */
  predicate Takes(s: seq<string>, max: nat, line: string) {
    max != 0 && !IsRepeat(s, line)
  }

  /** The history after a line. */
  function Added(s: seq<string>, max: nat, line: string): seq<string> {
    if Takes(s, max, line) then Newest(s + [line], max) else s
  }

  /** No line follows itself. */
  ghost predicate NoRepeats(s: seq<string>) {
    forall i, j :: 0 <= i < j < |s| && j == i + 1 ==> s[i] != s[j]
  }

  lemma NewestKeepsNoRepeats(s: seq<string>, n: nat)
    requires NoRepeats(s)
    ensures NoRepeats(Newest(s, n))
  {
    var r := Newest(s, n);
    var k := |s| - |r|;
    forall i, j | 0 <= i < j < |r| && j == i + 1 ensures r[i] != r[j] {
      assert r[i] == s[k + i] && r[j] == s[k + j];
    }
  }

  lemma AddedKeepsNoRepeats(s: seq<string>, max: nat, line: string)
    requires NoRepeats(s)
    ensures NoRepeats(Added(s, max, line))
  {
    if Takes(s, max, line) {
      var all := s + [line];
      assert NoRepeats(all);
      NewestKeepsNoRepeats(all, max);
    }
  }

  // ----- Writing lines -----

  function EscapeChar(c: char): string {
    if c == '\\' then "\\\\" else if c == '\n' then "\\n" else if c == '\r' then "\\r" else [c]
  }

  function Escape(line: string): string {
    if line == "" then "" else EscapeChar(line[0]) + Escape(line[1..])
  }

  function Saved(s: seq<string>): string {
    if s == [] then "" else Escape(s[0]) + "\n" + Saved(s[1..])
  }

  // ----- Reading lines -----

  /** What one call of fgets reads: up to and with a newline, and at most so many characters. */
  function Chunk(text: string, room: nat): (r: string)
    ensures |r| <= room && r <= text
    ensures text != "" && room > 0 ==> r != ""
  {
    if text == "" || room == 0 then ""
    else if text[0] == '\n' then [text[0]]
    else [text[0]] + Chunk(text[1..], room - 1)
  }

  /** The text of a C string. */
  function CText(s: string): (r: string)
    ensures r <= s && '\0' !in r && (|r| < |s| ==> s[|r|] == '\0')
  {
    if s == "" || s[0] == '\0' then "" else [s[0]] + CText(s[1..])
  }

  function UnescapeChar(c: char): char {
    if c == 'n' then '\n' else if c == 'r' then '\r' else c
  }

  function Cons(c: char, rest: Option<string>): Option<string> {
    if rest.Some? then Some([c] + rest.value) else None
  }

  /** The text with its escapes undone; None if it ends in the middle of one. */
  function Unescape(s: string): Option<string> {
    if s == "" then Some("")
    else if s[0] != '\\' then Cons(s[0], Unescape(s[1..]))
    else if |s| == 1 then None
    else Cons(UnescapeChar(s[1]), Unescape(s[2..]))
  }

  predicate IsEnd(c: char) {
    c == '\n' || c == '\r'
  }

  function WithoutEnd(s: string): string {
    if s != "" && IsEnd(s[|s| - 1]) then s[..|s| - 1] else s
  }

  /** The history after a text is loaded; None if a piece of the text ends in the middle of an escape. */
  function Loaded(s: seq<string>, max: nat, text: string): Option<seq<string>>
    decreases |text|
  {
    if text == "" then Some(s)
    else
      var chunk := Chunk(text, MAX_LINE - 1);
      match Unescape(CText(chunk))
      case None => None
      case Some(line) => Loaded(Added(s, max, WithoutEnd(line)), max, text[|chunk|..])
  }

  // ----- There and back -----

  lemma UnescapeChars(c: char, rest: string)
    ensures Unescape(EscapeChar(c) + rest) == Cons(c, Unescape(rest))
  {
    var s := EscapeChar(c) + rest;
    if |EscapeChar(c)| == 2 {
      assert s[2..] == rest;
    } else {
      assert s[1..] == rest;
    }
  }

  /** The line feed, character 10, is written as a backslash and an n, the carriage return, 13, with an r, the
      backslash twice, and every other character as it is; and they are read so. */
  lemma EscapesAreOfC(c: char)
    ensures EscapeChar(c) == "\\n" <==> c as int == 10
    ensures EscapeChar(c) == "\\r" <==> c as int == 13
    ensures EscapeChar(c) == "\\\\" <==> c as int == 92
    ensures c as int != 10 && c as int != 13 && c as int != 92 ==> EscapeChar(c) == [c]
    ensures Unescape("\\n") == Some([10 as char]) && Unescape("\\r") == Some([13 as char])
  {
    UnescapeChars('\n', "");
    UnescapeChars('\r', "");
    assert ['\n'] + "" == [10 as char] && ['\r'] + "" == [13 as char];
    assert EscapeChar('\n') + "" == "\\n" && EscapeChar('\r') + "" == "\\r";
    assert EscapeChar(c) == "\\n" ==> EscapeChar(c)[1] == 'n';
    assert EscapeChar(c) == "\\r" ==> EscapeChar(c)[1] == 'r';
    assert EscapeChar(c) == "\\\\" ==> EscapeChar(c)[1] == '\\';
  }

  lemma UnescapeNewline()
    ensures Unescape("\n") == Some("\n")
  {
    assert "\n"[1..] == "" && ['\n'] + "" == "\n";
  }

  lemma EscapeSplits(c: char, rest: string)
    ensures Escape([c] + rest) + "\n" == EscapeChar(c) + (Escape(rest) + "\n")
    ensures [c] + (rest + "\n") == [c] + rest + "\n"
  {
    assert ([c] + rest)[1..] == rest;
  }

  /** Undoing the escapes of a line gives the line. */
  lemma {:induction false} UnescapeEscaped(line: string)
    ensures Unescape(Escape(line) + "\n") == Some(line + "\n")
    decreases |line|
  {
    if line == "" {
      UnescapeNewline();
      assert "" + "\n" == "\n";
    } else {
      var c, rest := line[0], line[1..];
      UnescapeEscaped(rest);
      UnescapeChars(c, Escape(rest) + "\n");
      EscapeSplits(c, rest);
      assert line == [c] + rest;
    }
  }

  predicate NoNul(s: string) {
    '\0' !in s
  }

  lemma {:induction false} EscapeIsClean(line: string)
    ensures '\n' !in Escape(line) && (NoNul(line) ==> NoNul(Escape(line)))
    decreases |line|
  {
    if line != "" {
      EscapeIsClean(line[1..]);
      assert '\n' !in EscapeChar(line[0]);
    }
  }

  /** A line that fits into the buffer is read whole. */
  lemma {:induction false} ChunkIsLine(line: string, rest: string, room: nat)
    requires '\n' !in line && |line| < room
    ensures Chunk(line + "\n" + rest, room) == line + "\n"
    decreases |line|
  {
    var text := line + "\n" + rest;
    if line == "" {
      assert text[0] == '\n' && line + "\n" == ['\n'];
    } else {
      ChunkIsLine(line[1..], rest, room - 1);
      assert text[0] == line[0] && text[1..] == line[1..] + "\n" + rest;
      assert [line[0]] + (line[1..] + "\n") == line + "\n";
    }
  }

  lemma {:induction false} CTextOfClean(s: string)
    requires NoNul(s)
    ensures CText(s) == s
    decreases |s|
  {
    if s != "" {
      assert s[0] in s;
      CTextOfClean(s[1..]);
    }
  }

  /** An entry and its newline fit into what one fgets reads. */
  predicate Fits(line: string) {
    NoNul(line) && |Escape(line)| + 1 <= MAX_LINE - 1
  }

  lemma LoadLine(s: seq<string>, max: nat, line: string, rest: string)
    requires Fits(line)
    ensures Loaded(s, max, Escape(line) + "\n" + rest) == Loaded(Added(s, max, line), max, rest)
  {
    var text := Escape(line) + "\n" + rest;
    EscapeIsClean(line);
    ChunkIsLine(Escape(line), rest, MAX_LINE - 1);
    CTextOfClean(Escape(line) + "\n");
    UnescapeEscaped(line);
    assert (line + "\n")[..|line|] == line;
    assert text[|Escape(line) + "\n"|..] == rest;
  }

  // ----- Which histories come back -----

  /** An entry that fills the reader's buffer up, so that its newline is left for the next read, and that does
      not itself end in a line end. */
  predicate Fills(line: string) {
    NoNul(line) && |Escape(line)| == MAX_LINE - 1 && line != "" && !IsEnd(line[|line| - 1])
  }

  /** The entry comes back: it fits, or it fills the buffer and the empty entry that is then read after it is
      there anyway. */
  predicate ComesBack(s: seq<string>, i: nat)
    requires i < |s|
  {
    Fits(s[i]) || (Fills(s[i]) && i + 1 < |s| && s[i + 1] == "")
  }

  ghost predicate AllComeBack(s: seq<string>) {
    forall i :: 0 <= i < |s| ==> ComesBack(s, i)
  }

  ghost predicate AllFitOrFill(s: seq<string>) {
    forall i :: 0 <= i < |s| ==> Fits(s[i]) || Fills(s[i])
  }

  /** Undoing the escapes of a line that has no newline after it. */
  lemma {:induction false} UnescapeWhole(line: string)
    ensures Unescape(Escape(line)) == Some(line)
    decreases |line|
  {
    if line != "" {
      UnescapeWhole(line[1..]);
      UnescapeChars(line[0], Escape(line[1..]));
      assert line == [line[0]] + line[1..];
    }
  }

  /** What is read of a text that goes on after the buffer is full. */
  lemma LoadFull(s: seq<string>, max: nat, chunk: string, line: string, rest: string)
    requires |chunk| == MAX_LINE - 1 && '\n' !in chunk && NoNul(chunk) && Unescape(chunk) == Some(line)
    ensures Loaded(s, max, chunk + rest) == Loaded(Added(s, max, WithoutEnd(line)), max, rest)
  {
    ChunkIsFull(chunk, rest);
    CTextOfClean(chunk);
    assert (chunk + rest)[|chunk|..] == rest;
  }

  lemma LoadBroken(s: seq<string>, max: nat, chunk: string, rest: string)
    requires |chunk| == MAX_LINE - 1 && '\n' !in chunk && NoNul(chunk) && Unescape(chunk) == None
    ensures Loaded(s, max, chunk + rest) == None
  {
    ChunkIsFull(chunk, rest);
    CTextOfClean(chunk);
  }

  /** A line that fills the buffer comes back with an empty line after it. */
  lemma LoadFilling(s: seq<string>, max: nat, line: string, rest: string)
    requires Fills(line)
    ensures Loaded(s, max, Escape(line) + "\n" + rest) == Loaded(Added(Added(s, max, line), max, ""), max, rest)
  {
    EscapeIsClean(line);
    UnescapeWhole(line);
    LoadFull(s, max, Escape(line), line, "\n" + rest);
    assert Escape(line) + ("\n" + rest) == Escape(line) + "\n" + rest;
    LoadLine(Added(s, max, line), max, "", rest);
    assert Escape("") + "\n" + rest == "\n" + rest;
  }

  lemma NewestNewest(a: seq<string>, b: seq<string>, n: nat)
    ensures Newest(Newest(a, n) + b, n) == Newest(a + b, n)
  {
  }

  lemma ComesBackTail(s: seq<string>, k: nat)
    requires k <= |s| && AllComeBack(s) && NoRepeats(s)
    ensures AllComeBack(s[k..]) && NoRepeats(s[k..])
  {
    var t := s[k..];
    forall i | 0 <= i < |t| ensures ComesBack(t, i) {
      assert ComesBack(s, k + i);
    }
    forall i, j | 0 <= i < j < |t| && j == i + 1 ensures t[i] != t[j] {
      assert t[i] == s[k + i] && t[j] == s[k + j];
    }
  }

  /** The history after an entry that fits or fills the buffer is read. */
  function TakenIn(s: seq<string>, max: nat, line: string): seq<string> {
    if Fits(line) then Added(s, max, line) else Added(Added(s, max, line), max, "")
  }

  function Refilled(done: seq<string>, max: nat, s: seq<string>): seq<string>
    decreases |s|
  {
    if s == [] then done else Refilled(TakenIn(done, max, s[0]), max, s[1..])
  }

  lemma LoadOne(done: seq<string>, max: nat, line: string, rest: string)
    requires Fits(line) || Fills(line)
    ensures Loaded(done, max, Escape(line) + "\n" + rest) == Loaded(TakenIn(done, max, line), max, rest)
  {
    if Fits(line) {
      LoadLine(done, max, line, rest);
    } else {
      LoadFilling(done, max, line, rest);
    }
  }

  /** Loading a saved history whose entries all fit or fill the buffer takes them in one by one. */
  lemma {:induction false} LoadedIsRefilled(done: seq<string>, max: nat, s: seq<string>)
    requires AllFitOrFill(s)
    ensures Loaded(done, max, Saved(s)) == Some(Refilled(done, max, s))
    decreases |s|
  {
    if s != [] {
      LoadOne(done, max, s[0], Saved(s[1..]));
      LoadedIsRefilled(TakenIn(done, max, s[0]), max, s[1..]);
    }
  }

  /** If every entry comes back, the history is added to whatever is there already. */
  lemma {:induction false} RefilledIsAdded(done: seq<string>, max: nat, s: seq<string>)
    requires max > 0 && AllComeBack(s) && NoRepeats(s) && (s != [] ==> !IsRepeat(done, s[0])) && |done| <= max
    ensures Refilled(done, max, s) == Newest(done + s, max)
    decreases |s|
  {
    if s == [] {
      assert done + s == done;
    } else {
      assert ComesBack(s, 0);
      var k := if Fits(s[0]) then 1 else 2;
      var next := Newest(done + s[..k], max);
      HeadIsAdded(done, max, s, k);
      TailComesBack(done, max, s, k);
      RefilledIsAdded(next, max, s[k..]);
      NewestNewest(done + s[..k], s[k..], max);
      TakeDrop(done, s, k);
    }
  }

  lemma TakeDrop(done: seq<string>, s: seq<string>, k: nat)
    requires k <= |s|
    ensures done + s[..k] + s[k..] == done + s
  {
  }

  lemma TailComesBack(done: seq<string>, max: nat, s: seq<string>, k: nat)
    requires max > 0 && 0 < k <= |s| && AllComeBack(s) && NoRepeats(s)
    ensures AllComeBack(s[k..]) && NoRepeats(s[k..]) && |Newest(done + s[..k], max)| <= max
    ensures k < |s| ==> !IsRepeat(Newest(done + s[..k], max), s[k..][0])
  {
    ComesBackTail(s, k);
    if k < |s| {
      assert s[k - 1] != s[k];
      assert (done + s[..k])[|done + s[..k]| - 1] == s[k - 1];
    }
  }

  /** The first entry, with the empty one after it if it fills the buffer. */
  lemma HeadIsAdded(done: seq<string>, max: nat, s: seq<string>, k: nat)
    requires max > 0 && s != [] && ComesBack(s, 0) && !IsRepeat(done, s[0]) && k == if Fits(s[0]) then 1 else 2
    ensures k <= |s| && Refilled(done, max, s) == Refilled(Newest(done + s[..k], max), max, s[k..])
  {
    if k == 1 {
      FirstOne(s, s[0]);
    } else {
      FirstTwo(s, s[0]);
      FillingIsAdded(done, max, s[0]);
      RefilledTwo(done, max, s);
    }
  }

  lemma FirstOne(s: seq<string>, a: string)
    requires s != [] && s[0] == a
    ensures s[..1] == [a]
  {
  }

  lemma FirstTwo(s: seq<string>, a: string)
    requires |s| >= 2 && s[0] == a && s[1] == ""
    ensures s[..2] == [a, ""]
  {
  }

  lemma RefilledTwo(done: seq<string>, max: nat, s: seq<string>)
    requires |s| >= 2
    ensures Refilled(done, max, s) == Refilled(TakenIn(TakenIn(done, max, s[0]), max, s[1]), max, s[2..])
  {
    assert s[1..][1..] == s[2..];
  }

  lemma FillingIsAdded(done: seq<string>, max: nat, line: string)
    requires max > 0 && line != "" && !IsRepeat(done, line)
    ensures Added(Added(done, max, line), max, "") == Newest(done + [line, ""], max)
    ensures TakenIn(Newest(done + [line, ""], max), max, "") == Newest(done + [line, ""], max)
  {
    NewestNewest(done + [line], [""], max);
    assert done + [line] + [""] == done + [line, ""];
  }

  // ----- And which do not -----

  /** The buffer is filled at the end of a whole escape, or in the middle of one. */
  lemma {:induction false} CutEscape(line: string, n: nat) returns (k: nat)
    requires n <= |Escape(line)|
    ensures k <= |line|
    ensures Unescape(Escape(line)[..n]) == None ||
            (Escape(line)[..n] == Escape(line[..k]) && Escape(line)[n..] == Escape(line[k..]))
    decreases |line|
  {
    if n == 0 {
      k := 0;
      assert line[0..] == line;
    } else {
      var e, rest := EscapeChar(line[0]), line[1..];
      if n < |e| {
        k := 0;
        assert Escape(line)[..n] == "\\";
      } else {
        var j := CutEscape(rest, n - |e|);
        k := j + 1;
        CutEscapeStep(line, n, j, e, rest, n - |e|);
      }
    }
  }

  /** A cut behind the first escape. */
  lemma CutEscapeStep(line: string, n: nat, j: nat, e: string, rest: string, m: nat)
    requires line != "" && e == EscapeChar(line[0]) && rest == line[1..]
    requires |e| <= n <= |Escape(line)| && m == n - |e| && j <= |rest|
    ensures m <= |Escape(rest)|
    ensures Unescape(Escape(rest)[..m]) == None ==> Unescape(Escape(line)[..n]) == None
    ensures Escape(rest)[..m] == Escape(rest[..j]) ==> Escape(line)[..n] == Escape(line[..j + 1])
    ensures Escape(rest)[m..] == Escape(rest[j..]) ==> Escape(line)[n..] == Escape(line[j + 1..])
  {
    CutBehind(e, Escape(rest), n, m);
    UnescapeChars(line[0], Escape(rest)[..m]);
    CutBehind([line[0]], rest, j + 1, j);
    assert line == [line[0]] + rest;
    assert line[..j + 1][0] == line[0] && line[..j + 1][1..] == rest[..j];
  }

  lemma CutBehind(a: string, b: string, n: nat, m: nat)
    requires n == |a| + m && m <= |b|
    ensures (a + b)[..n] == a + b[..m] && (a + b)[n..] == b[m..]
  {
  }

  /** Every entry that loading a saved history gives fits the buffer or fills it. */
  lemma {:induction false} LoadedFitOrFill(done: seq<string>, max: nat, line: string, s: seq<string>, text: string)
    requires NoNul(line) && (forall i :: 0 <= i < |s| ==> NoNul(s[i])) && AllFitOrFill(done)
    requires text == Escape(line) + "\n" + Saved(s) && Loaded(done, max, text).Some?
    ensures AllFitOrFill(Loaded(done, max, text).value)
    decreases |s|, |line|
  {
    if Fits(line) {
      LoadLine(done, max, line, Saved(s));
      AddedFitOrFill(done, max, line);
      if s != [] {
        LoadedFitOrFill(Added(done, max, line), max, s[0], s[1..], Saved(s));
      }
    } else {
      var next, k, rest := LoadPiece(done, max, line, Saved(s), text);
      LoadedFitOrFill(next, max, line[k..], s, rest);
    }
  }

  /** A line that is too long for the buffer: its first piece is taken as an entry. */
  lemma LoadPiece(done: seq<string>, max: nat, line: string, more: string, text: string)
    returns (next: seq<string>, k: nat, rest: string)
    requires NoNul(line) && !Fits(line) && AllFitOrFill(done)
    requires text == Escape(line) + "\n" + more && Loaded(done, max, text).Some?
    ensures 0 < k <= |line| && AllFitOrFill(next) && rest == Escape(line[k..]) + "\n" + more
    ensures Loaded(done, max, text) == Loaded(next, max, rest)
  {
    k := CutEscape(line, MAX_LINE - 1);
    var chunk, tail := Escape(line)[..MAX_LINE - 1], Escape(line)[MAX_LINE - 1..];
    rest := tail + "\n" + more;
    TextIsCut(Escape(line), chunk, tail, more, text, rest);
    EscapeIsClean(line);
    next := done;
    if Unescape(chunk) == None {
      LoadBroken(done, max, chunk, rest);
    } else {
      var piece := line[..k];
      UnescapeWhole(piece);
      LoadFull(done, max, chunk, piece, rest);
      PieceFitsOrFills(piece);
      next := Added(done, max, WithoutEnd(piece));
      AddedFitOrFill(done, max, WithoutEnd(piece));
    }
  }

  lemma TextIsCut(e: string, chunk: string, tail: string, more: string, text: string, rest: string)
    requires |e| >= MAX_LINE - 1 && chunk == e[..MAX_LINE - 1] && tail == e[MAX_LINE - 1..]
    requires text == e + "\n" + more && rest == tail + "\n" + more
    ensures text == chunk + rest
  {
  }

  lemma AddedFitOrFill(s: seq<string>, max: nat, line: string)
    requires AllFitOrFill(s) && (Fits(line) || Fills(line))
    ensures AllFitOrFill(Added(s, max, line))
  {
  }

  lemma PieceFitsOrFills(piece: string)
    requires NoNul(piece) && |Escape(piece)| == MAX_LINE - 1 && piece != ""
    ensures Fits(WithoutEnd(piece)) || Fills(WithoutEnd(piece))
  {
    if IsEnd(piece[|piece| - 1]) {
      LastIsSplit(piece);
      EndedFits(piece[..|piece| - 1], piece[|piece| - 1]);
    }
  }

  lemma LastIsSplit(piece: string)
    requires piece != ""
    ensures piece == piece[..|piece| - 1] + [piece[|piece| - 1]]
  {
  }

  /** Without its line end, a line that fills the buffer fits it. */
  lemma EndedFits(line: string, c: char)
    requires NoNul(line + [c]) && |Escape(line + [c])| == MAX_LINE - 1 && IsEnd(c)
    ensures Fits(line)
  {
    EscapeSnoc(line, c);
    assert forall x :: x in line ==> x in line + [c];
  }

  lemma {:induction false} EscapeSnoc(line: string, c: char)
    ensures Escape(line + [c]) == Escape(line) + EscapeChar(c)
    decreases |line|
  {
    if line != "" {
      EscapeSnoc(line[1..], c);
      assert (line + [c])[1..] == line[1..] + [c];
    } else {
      assert line + [c] == [c];
    }
  }

  /** The n-th entry from the end is empty in the one and not in the other. */
  predicate EmptyInstead(s: seq<string>, r: seq<string>, n: nat) {
    0 < n <= |s| && n <= |r| && s[|s| - n] != "" && r[|r| - n] == ""
  }

  lemma EmptyInTail(s: seq<string>, r: seq<string>, n: nat)
    requires s != [] && EmptyInstead(s[1..], r, n)
    ensures EmptyInstead(s, r, n)
  {
  }

  /** An entry that fills the buffer and has no empty one after it gives an empty entry in its own place, counted
      from the end. */
  lemma {:induction false} FillingShifts(done: seq<string>, max: nat, s: seq<string>) returns (n: nat)
    requires AllFitOrFill(s) && NoRepeats(s) && |s| <= max && !AllComeBack(s) && |done| <= max
    ensures EmptyInstead(s, Refilled(done, max, s), n)
    decreases |s|
  {
    TailFitOrFill(s);
    TakenInBounds(done, max, s[0]);
    if AllComeBack(s[1..]) {
      n := |s|;
      FirstShifts(done, max, s, s[1..]);
    } else {
      n := FillingShifts(TakenIn(done, max, s[0]), max, s[1..]);
      EmptyInTail(s, Refilled(done, max, s), n);
    }
  }

  lemma FirstShifts(done: seq<string>, max: nat, s: seq<string>, t: seq<string>)
    requires AllFitOrFill(s) && |s| <= max && !AllComeBack(s) && |done| <= max
    requires s != [] && t == s[1..] && NoRepeats(t) && AllComeBack(t)
    ensures EmptyInstead(s, Refilled(done, max, s), |s|)
  {
    var d := TakenIn(done, max, s[0]);
    FirstDoesNot(s);
    FillingEndsEmpty(done, max, s[0]);
    RefilledIsAdded(d, max, t);
    EmptyBefore(d, t, max);
  }

  lemma TakenInBounds(done: seq<string>, max: nat, line: string)
    requires |done| <= max
    ensures |TakenIn(done, max, line)| <= max
  {
  }

  lemma FillingEndsEmpty(done: seq<string>, max: nat, line: string)
    requires max > 0 && Fills(line) && !Fits(line) && |done| <= max
    ensures IsRepeat(TakenIn(done, max, line), "") && |TakenIn(done, max, line)| <= max
  {
  }

  lemma EmptyBefore(d: seq<string>, t: seq<string>, max: nat)
    requires IsRepeat(d, "") && |t| + 1 <= max
    ensures var r := Newest(d + t, max); |t| + 1 <= |r| && r[|r| - (|t| + 1)] == ""
  {
    assert (d + t)[|d| - 1] == "";
  }

  lemma ComeBackFitOrFill(s: seq<string>)
    requires AllComeBack(s)
    ensures AllFitOrFill(s)
  {
    forall i | 0 <= i < |s| ensures Fits(s[i]) || Fills(s[i]) {
      assert ComesBack(s, i);
    }
  }

  lemma TailFitOrFill(s: seq<string>)
    requires s != [] && AllFitOrFill(s) && NoRepeats(s)
    ensures AllFitOrFill(s[1..]) && NoRepeats(s[1..])
  {
    var t := s[1..];
    forall i, j | 0 <= i < j < |t| && j == i + 1 ensures t[i] != t[j] {
      assert t[i] == s[1 + i] && t[j] == s[1 + j];
    }
  }

  lemma FirstDoesNot(s: seq<string>)
    requires s != [] && AllFitOrFill(s) && !AllComeBack(s) && AllComeBack(s[1..])
    ensures !Fits(s[0]) && Fills(s[0]) && s[0] != "" && (|s| > 1 ==> s[1] != "")
  {
    forall i | 0 < i < |s| ensures ComesBack(s, i) {
      assert ComesBack(s[1..], i - 1);
    }
    assert !ComesBack(s, 0);
  }

  /** Saving a history of C strings and loading it into an empty one gives the same history back exactly if each
      entry fits the buffer of the reader with its newline, or fills it, does not end in a line end and is
      followed by an empty entry. */
  lemma RoundTripIff(s: seq<string>, max: nat)
    requires NoRepeats(s) && |s| <= max && forall i :: 0 <= i < |s| ==> NoNul(s[i])
    ensures Loaded([], max, Saved(s)) == Some(s) <==> AllComeBack(s)
  {
    if s != [] {
      if AllFitOrFill(s) {
        FitOrFillIff(s, max);
      } else {
        if AllComeBack(s) {
          ComeBackFitOrFill(s);
        }
        if Loaded([], max, Saved(s)).Some? {
          LoadedFitOrFill([], max, s[0], s[1..], Saved(s));
        }
      }
    }
  }

  lemma FitOrFillIff(s: seq<string>, max: nat)
    requires NoRepeats(s) && 0 < |s| <= max && AllFitOrFill(s)
    ensures Loaded([], max, Saved(s)) == Some(s) <==> AllComeBack(s)
  {
    LoadedIsRefilled([], max, s);
    if AllComeBack(s) {
      RefilledIsAdded([], max, s);
      assert [] + s == s;
    } else {
      var n := FillingShifts([], max, s);
      AreDifferent(s, Refilled([], max, s), n);
    }
  }

  lemma AreDifferent(s: seq<string>, r: seq<string>, n: nat)
    requires EmptyInstead(s, r, n)
    ensures r != s
  {
  }

  lemma {:induction false} LoadedKeepsNoRepeats(s: seq<string>, max: nat, text: string)
    requires NoRepeats(s) && |s| <= max && Loaded(s, max, text).Some?
    ensures NoRepeats(Loaded(s, max, text).value) && |Loaded(s, max, text).value| <= max
    decreases |text|
  {
    if text != "" {
      var chunk := Chunk(text, MAX_LINE - 1);
      var line := WithoutEnd(Unescape(CText(chunk)).value);
      AddedKeepsNoRepeats(s, max, line);
      LoadedKeepsNoRepeats(Added(s, max, line), max, text[|chunk|..]);
    }
  }

  // ----- A line that does not fit -----

  predicate Plain(line: string) {
    forall i :: 0 <= i < |line| ==> line[i] != '\\' && line[i] != '\n' && line[i] != '\r' && line[i] != '\0'
  }

  lemma {:induction false} PlainIsItself(line: string)
    requires Plain(line)
    ensures Escape(line) == line && Unescape(line) == Some(line) && CText(line) == line
    decreases |line|
  {
    if line != "" {
      PlainIsItself(line[1..]);
      assert line == [line[0]] + line[1..];
    }
  }

  lemma {:induction false} ChunkIsFull(line: string, rest: string)
    requires '\n' !in line
    ensures Chunk(line + rest, |line|) == line
    decreases |line|
  {
    if line != "" {
      ChunkIsFull(line[1..], rest);
      assert (line + rest)[1..] == line[1..] + rest;
      assert line[0] in line;
      assert line == [line[0]] + line[1..];
    } else {
      assert line + rest == rest;
    }
  }

  lemma LoadNewline(s: seq<string>, max: nat)
    ensures Loaded(s, max, "\n") == Some(Added(s, max, ""))
  {
    UnescapeNewline();
    assert Chunk("\n", MAX_LINE - 1) == "\n";
    CTextOfClean("\n");
    assert "\n"[|"\n"|..] == "";
  }

  /** The shortest plain line that does not fit comes back with an empty line after it: the newline is left for
      the next read. */
  lemma LongLineIsSplit(line: string, max: nat)
    requires Plain(line) && |line| == MAX_LINE - 1 && max >= 2
    ensures Saved([line]) == line + "\n" && Loaded([], max, Saved([line])) == Some([line, ""])
  {
    PlainIsItself(line);
    assert Escape(line) + "\n" + "" == line + "\n";
    ChunkIsFull(line, "\n");
    assert (line + "\n")[|line|..] == "\n";
    assert Added([], max, line) == [line];
    LoadNewline([line], max);
    assert Added([line], max, "") == [line, ""];
  }

  // ----- Runs -----

  /** What can happen to a history. */
  datatype Op = Add(line: string) | SetMax(n: int) | Load(text: string)

  datatype State = State(entries: seq<string>, max: nat)

  /** The effect of an operation, which History.Perform ties to the methods of History; None where loading goes
      wrong. */
  function After(s: State, op: Op): Option<State> {
    match op
    case Add(line) => Some(State(Added(s.entries, s.max, line), s.max))
    case SetMax(n) => if n < 1 then Some(s) else Some(State(Newest(s.entries, n), n))
    case Load(text) =>
      match Loaded(s.entries, s.max, text)
      case None => None
      case Some(l) => Some(State(l, s.max))
  }

  function Run(ops: seq<Op>): Option<State> {
    if ops == [] then Some(State([], 100))
    else
      match Run(ops[..|ops| - 1])
      case None => None
      case Some(s) => After(s, ops[|ops| - 1])
  }

  /** However a history came about, it is within its bound and no line in it follows itself. */
  lemma {:induction false} RunKeepsBounds(ops: seq<Op>)
    requires Run(ops).Some?
    ensures var s := Run(ops).value; |s.entries| <= s.max && NoRepeats(s.entries)
    decreases |ops|
  {
    if ops != [] {
      RunKeepsBounds(ops[..|ops| - 1]);
      AfterKeepsBounds(Run(ops[..|ops| - 1]).value, ops[|ops| - 1]);
    }
  }

  lemma AfterKeepsBounds(s: State, op: Op)
    requires |s.entries| <= s.max && NoRepeats(s.entries) && After(s, op).Some?
    ensures |After(s, op).value.entries| <= After(s, op).value.max && NoRepeats(After(s, op).value.entries)
  {
    match op
    case Add(line) => AddedKeepsNoRepeats(s.entries, s.max, line);
    case SetMax(n) =>
      if n >= 1 {
        NewestKeepsNoRepeats(s.entries, n);
      }
    case Load(text) => LoadedKeepsNoRepeats(s.entries, s.max, text);
  }

  /** Any history of C strings there can be comes back exactly if its entries do. */
  lemma ReachableRoundTrip(ops: seq<Op>)
    requires Run(ops).Some? && forall i :: 0 <= i < |Run(ops).value.entries| ==> NoNul(Run(ops).value.entries[i])
    ensures var s := Run(ops).value; Loaded([], s.max, Saved(s.entries)) == Some(s.entries) <==> AllComeBack(s.entries)
  {
    RunKeepsBounds(ops);
    RoundTripIff(Run(ops).value.entries, Run(ops).value.max);
  }
}
