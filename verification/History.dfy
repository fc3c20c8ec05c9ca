/** The line history of linenoise.c: the array of lines, and its reader and writer. */
module LineHistory {
  import opened HistoryText

  class History {
    var lines: array?<string>
    var len: nat
    var maxLen: nat

    ghost predicate Valid()
      reads this, lines
    {
      && (if lines == null then len == 0 else lines.Length == maxLen)
      && len <= maxLen
    }

    ghost function Entries(): seq<string>
      reads this, lines
    {
      if lines != null && len <= lines.Length then lines[..len] else []
    }

    constructor ()
      ensures Valid() && Entries() == [] && maxLen == 100 && lines == null
    {
      lines, len, maxLen := null, 0, 100;
    }

    /** Drops the oldest line. */
    method DropFirst()
      requires lines != null && 0 < len <= lines.Length
      modifies this`len, lines
      ensures len == old(len) - 1 && lines[..len] == old(lines[1..len])
    {
      forall i | 0 <= i < lines.Length - 1 {
        lines[i] := lines[i + 1];
      }
      len := len - 1;
    }

    /** The array is made when the first line comes. */
    method Allocate()
      requires Valid() && maxLen > 0
      modifies this`lines
      ensures Valid() && lines != null && Entries() == old(Entries())
      ensures lines == old(lines) || fresh(lines)
    {
      if lines == null {
        lines := new string[maxLen](_ => "");
      }
    }

    /** Adds a line, unless it repeats the last one. */
    method Add(line: string) returns (added: bool)
      requires Valid()
      modifies this`lines, this`len, lines
      ensures Valid() && Entries() == Added(old(Entries()), maxLen, line)
      ensures added == Takes(old(Entries()), maxLen, line)
      ensures lines == old(lines) || fresh(lines)
    {
      added := AddLine(line, Entries());
    }

    method AddLine(line: string, ghost s: seq<string>) returns (added: bool)
      requires Valid() && s == Entries()
      modifies this`lines, this`len, lines
      ensures Valid() && Entries() == Added(s, maxLen, line) && added == Takes(s, maxLen, line)
      ensures lines == old(lines) || fresh(lines)
    {
      added := false;
      if maxLen != 0 {
        assert !Takes(s, 0, line) && Added(s, 0, line) == s;
        Allocate();
        added := AddTo(line, s);
      }
    }

    method Repeats(line: string, ghost s: seq<string>) returns (repeats: bool)
      requires lines != null && len <= lines.Length && lines[..len] == s
      ensures repeats == IsRepeat(s, line)
    {
      repeats := len > 0 && line == lines[len - 1];
    }

    method AddTo(line: string, ghost s: seq<string>) returns (added: bool)
      requires lines != null && len <= lines.Length == maxLen && maxLen > 0 && lines[..len] == s
      modifies this`len, lines
      ensures len <= maxLen && lines[..len] == Added(s, maxLen, line) && added == Takes(s, maxLen, line)
    {
      var repeats := Repeats(line, s);
      added := !repeats;
      if added {
        Append(line, s);
      }
    }

    method Append(line: string, ghost s: seq<string>)
      requires lines != null && len <= lines.Length == maxLen && maxLen > 0 && lines[..len] == s
      modifies this`len, lines
      ensures len <= maxLen && lines[..len] == Newest(s + [line], maxLen)
    {
      NewestOfMore(s, line, maxLen);
      if len == maxLen {
        DropFirst();
      }
      PushLast(line);
    }

    method PushLast(line: string)
      requires lines != null && len < lines.Length
      modifies this`len, lines
      ensures len == old(len) + 1 && lines[..len] == old(lines[..len]) + [line]
    {
      lines[len] := line;
      len := len + 1;
    }

    /** Sets the bound, and keeps the newest lines. */
    method SetMaxLen(n: int) returns (ok: bool)
      requires Valid()
      modifies this
      ensures ok == (n >= 1) && Valid()
      ensures ok ==> maxLen == n && Entries() == Newest(old(Entries()), n)
      ensures !ok ==> maxLen == old(maxLen) && Entries() == old(Entries())
    {
      if n < 1 {
        return false;
      }
      if lines != null {
        Resize(n);
      }
      maxLen := n;
      ok := true;
    }

    /** The newest lines go to an array of the new length. */
    method Resize(n: nat)
      requires lines != null && len <= lines.Length
      modifies this`lines, this`len
      ensures lines != null && fresh(lines) && lines.Length == n && len <= n
      ensures lines[..len] == Newest(old(lines[..len]), n)
    {
      var tocopy := if n < len then n else len;
      var kept := lines[len - tocopy..len];
      KeptIsNewest(lines[..len], lines[..], len, n);
      lines := new string[n](i => if 0 <= i < |kept| then kept[i] else "");
      len := tocopy;
      assert lines[..len] == kept;
    }

    /** The text of the saved file. */
    method Save() returns (text: string)
      requires Valid()
      ensures text == Saved(Entries())
    {
      text := "";
      var j := 0;
      ghost var s, rest := Entries(), Entries();
      while j < len
        invariant j <= len && |s| == len && rest == s[j..] && text + Saved(rest) == Saved(s)
      {
        SavedStep(s, j, rest, text);
        text := SaveLine(text, lines[j]);
        j := j + 1;
        rest := s[j..];
      }
      assert text + "" == text;
    }

    /** One line, with backslashes and line ends escaped. */
    static method SaveLine(before: string, str: string) returns (text: string)
      ensures text == before + (Escape(str) + "\n")
    {
      text := before;
      var i := 0;
      ghost var rest := str;
      while i < |str|
        invariant i <= |str| && rest == str[i..] && text + (Escape(rest) + "\n") == before + (Escape(str) + "\n")
      {
        var c := str[i];
        EscapeStep(rest, text);
        if c == '\\' {
          text := text + "\\\\";
        } else if c == '\n' {
          text := text + "\\n";
        } else if c == '\r' {
          text := text + "\\r";
        } else {
          text := text + [c];
        }
        i := i + 1;
        rest := rest[1..];
      }
      assert Escape("") + "\n" == "\n";
      text := text + "\n";
    }

    /** Loads the lines of a text; false if a piece of it ends in the middle of an escape. */
    method Load(text: string) returns (ok: bool)
      requires Valid()
      modifies this, lines
      ensures ok == Loaded(old(Entries()), maxLen, text).Some? && maxLen == old(maxLen)
      ensures ok ==> Valid() && Some(Entries()) == Loaded(old(Entries()), maxLen, text)
    {
      var buf := new char[MAX_LINE];
      var rest := text;
      ok := true;
      while rest != "" && ok
        invariant Valid() && maxLen == old(maxLen) && (lines == old(lines) || fresh(lines)) && fresh(buf) && buf.Length == MAX_LINE
        invariant if ok then Loaded(Entries(), maxLen, rest) == Loaded(old(Entries()), maxLen, text)
                  else Loaded(old(Entries()), maxLen, text) == None
        decreases |rest|, ok
      {
        ghost var was := rest;
        ok, rest := LoadPiece(buf, rest);
        assert |rest| < |was|;
      }
    }

    /** The lines and the bound, as a run of the history sees them. */
    ghost function Now(): State
      reads this, lines
    {
      State(Entries(), maxLen)
    }

    /** One step of a run; false if loading goes wrong. */
    method Perform(op: Op) returns (ok: bool)
      requires Valid()
      modifies this, lines
      ensures ok == After(old(Now()), op).Some?
      ensures ok ==> Valid() && Some(Now()) == After(old(Now()), op)
    {
      ok := true;
      match op
      case Add(line) => var added := Add(line);
      case SetMax(n) => var changed := SetMaxLen(n);
      case Load(text) => ok := Load(text);
    }

    /** One piece of the text: reads, decodes and adds a line. */
    method LoadPiece(buf: array<char>, text: string) returns (ok: bool, rest: string)
      requires Valid() && buf.Length == MAX_LINE && text != ""
      modifies this`lines, this`len, lines, buf
      ensures Valid() && (lines == old(lines) || fresh(lines)) && |rest| < |text|
      ensures if ok then Loaded(old(Entries()), maxLen, text) == Loaded(Entries(), maxLen, rest)
              else Loaded(old(Entries()), maxLen, text) == None
    {
      var n := Fgets(buf, text);
      var line;
      ok, line := DecodeLine(buf, text[..n]);
      if ok {
        var added := Add(line);
      }
      rest := text[n..];
    }

    /** Reads a piece of the text into the buffer. */
    static method Fgets(buf: array<char>, text: string) returns (n: nat)
      requires buf.Length == MAX_LINE
      modifies buf
      ensures n == |Chunk(text, MAX_LINE - 1)| && n <= |text| && text[..n] == Chunk(text, MAX_LINE - 1)
      ensures text != "" ==> n > 0
      ensures buf[..n + 1] == text[..n] + ['\0']
    {
      var chunk := Chunk(text, MAX_LINE - 1);
      n := |chunk|;
      forall i | 0 <= i < n {
        buf[i] := chunk[i];
      }
      buf[n] := '\0';
    }
  
    /** Undoes the escapes of the C string in the buffer, in place, and drops the line end. */
    static method DecodeLine(buf: array<char>, ghost chunk: string) returns (ok: bool, line: string)
      requires |chunk| < buf.Length && buf[..|chunk| + 1] == chunk + ['\0']
      modifies buf
      ensures ok == Unescape(CText(chunk)).Some?
      ensures ok ==> line == WithoutEnd(Unescape(CText(chunk)).value)
    {
      ghost var text := CText(chunk);
      var src, dest := 0, 0;
      ok, line := true, "";
      BufferText(buf[..], chunk);
      JoinNothing(Unescape(text), []);
      TakeNothing(text, buf[..]);
      while buf[src] != '\0' && ok
        invariant 0 <= dest <= src <= |text| < buf.Length
        invariant forall i :: src <= i <= |text| ==> buf[i] == (if i < |text| then text[i] else '\0')
        invariant if ok then Unescape(text) == Join(buf[..dest], Unescape(text[src..])) else Unescape(text) == None
        decreases |text| - src, ok
      {
        ok, src, dest := DecodeChar(buf, src, dest, text);
      }
      if ok {
        JoinNothing(None, buf[..dest]);
        line := TakeLine(buf, dest);
      }
    }

    /** What was decoded, without the line end. */
    static method TakeLine(buf: array<char>, dest: nat) returns (line: string)
      requires dest <= buf.Length
      ensures line == WithoutEnd(buf[..dest])
    {
      var n := dest;
      if n != 0 && IsEnd(buf[n - 1]) {
        n := n - 1;
      }
      line := buf[..n];
    }

    /** One pass of the loop: one character, or one escape. */
    static method DecodeChar(buf: array<char>, src: nat, dest: nat, ghost text: string)
      returns (ok: bool, src': nat, dest': nat)
      requires dest <= src < |text| < buf.Length && '\0' !in text
      requires forall i :: src <= i <= |text| ==> buf[i] == (if i < |text| then text[i] else '\0')
      requires Unescape(text) == Join(buf[..dest], Unescape(text[src..]))
      modifies buf
      ensures dest' <= src' <= |text| && (ok ==> src' > src) && src' >= src
      ensures forall i :: src' <= i <= |text| ==> buf[i] == (if i < |text| then text[i] else '\0')
      ensures if ok then Unescape(text) == Join(buf[..dest'], Unescape(text[src'..])) else Unescape(text) == None
    {
      var ch := buf[src];
      ok, src', dest' := true, src, dest;
      if ch == '\\' {
        if buf[src + 1] == '\0' {
          StrayEscape(text, src, buf[..dest]);
          return false, src, dest;
        }
        src' := src + 1;
        ch := UnescapeChar(buf[src']);
        TakeEscape(text, src, buf[..dest]);
      } else {
        TakeChar(text, src, buf[..dest]);
      }
      ghost var before := buf[..dest];
      buf[dest] := ch;
      assert buf[..dest + 1] == before + [ch];
      dest', src' := dest + 1, src' + 1;
    }
  }

  // ----- Steps of the proofs -----

  ghost function Join(a: string, rest: Option<string>): Option<string> {
    if rest.Some? then Some(a + rest.value) else None
  }

  lemma JoinCons(a: string, c: char, rest: Option<string>)
    ensures Join(a, Cons(c, rest)) == Join(a + [c], rest)
  {
    if rest.Some? {
      assert a + ([c] + rest.value) == (a + [c]) + rest.value;
    }
  }

  lemma JoinNothing(rest: Option<string>, a: string)
    ensures Join([], rest) == rest && Join(a, Some("")) == Some(a)
  {
    assert a + "" == a;
    if rest.Some? {
      assert [] + rest.value == rest.value;
    }
  }

  lemma KeptIsNewest(s: seq<string>, all: seq<string>, len: nat, n: nat)
    requires len <= |all| && s == all[..len]
    ensures Newest(s, n) == all[len - (if n < len then n else len)..len]
  {
  }

  lemma TakeNothing(text: string, buf: string)
    ensures text[0..] == text && buf[..0] == []
  {
  }

  lemma TakeChar(text: string, src: nat, a: string)
    requires src < |text| && text[src] != '\\' && Unescape(text) == Join(a, Unescape(text[src..]))
    ensures Unescape(text) == Join(a + [text[src]], Unescape(text[src + 1..]))
  {
    assert text[src..][1..] == text[src + 1..];
    JoinCons(a, text[src], Unescape(text[src + 1..]));
  }

  lemma TakeEscape(text: string, src: nat, a: string)
    requires src + 1 < |text| && text[src] == '\\' && Unescape(text) == Join(a, Unescape(text[src..]))
    ensures Unescape(text) == Join(a + [UnescapeChar(text[src + 1])], Unescape(text[src + 2..]))
  {
    assert text[src..][2..] == text[src + 2..];
    JoinCons(a, UnescapeChar(text[src + 1]), Unescape(text[src + 2..]));
  }

  lemma StrayEscape(text: string, src: nat, a: string)
    requires src + 1 == |text| && text[src] == '\\' && Unescape(text) == Join(a, Unescape(text[src..]))
    ensures Unescape(text) == None
  {
  }

  /** The buffer has the C text of the piece and a NUL after it. */
  lemma BufferText(buf: string, chunk: string)
    requires |chunk| < |buf| && buf[..|chunk| + 1] == chunk + ['\0']
    ensures forall i :: 0 <= i <= |CText(chunk)| ==> buf[i] == (if i < |CText(chunk)| then CText(chunk)[i] else '\0')
  {
    var text := CText(chunk);
    forall i | 0 <= i <= |text| ensures buf[i] == if i < |text| then text[i] else '\0' {
      assert buf[..|chunk| + 1][i] == buf[i];
      assert i < |chunk| ==> (chunk + ['\0'])[i] == chunk[i];
    }
  }

  lemma SavedStep(s: seq<string>, j: nat, rest: seq<string>, text: string)
    requires j < |s| && rest == s[j..]
    ensures text + Saved(rest) == text + (Escape(s[j]) + "\n") + Saved(s[j + 1..])
  {
    assert rest[0] == s[j] && rest[1..] == s[j + 1..];
    assert text + (Escape(s[j]) + "\n" + Saved(s[j + 1..])) == text + (Escape(s[j]) + "\n") + Saved(s[j + 1..]);
  }

  lemma EscapeStep(rest: string, text: string)
    requires rest != ""
    ensures text + (Escape(rest) + "\n") == text + EscapeChar(rest[0]) + (Escape(rest[1..]) + "\n")
  {
    assert text + (EscapeChar(rest[0]) + Escape(rest[1..]) + "\n") == text + EscapeChar(rest[0]) + (Escape(rest[1..]) + "\n");
  }
}
