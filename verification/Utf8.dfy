/** The UTF-8 functions of utf8.c, for code points of up to 21 bits. */
module Utf8 {

  type Byte = bv8
  type Code = bv32

  // ----- Encoding -----

  function Encode1(uc: Code): seq<Byte>
    requires uc <= 0x7f
  {
    [uc as Byte]
  }

  function Encode2(uc: Code): seq<Byte> {
    [(0xc0 | ((uc & 0x7c0) >> 6)) as Byte, (0x80 | (uc & 0x3f)) as Byte]
  }

  function Encode3(uc: Code): seq<Byte> {
    [(0xe0 | ((uc & 0xf000) >> 12)) as Byte, (0x80 | ((uc & 0xfc0) >> 6)) as Byte, (0x80 | (uc & 0x3f)) as Byte]
  }

  function Encode4(uc: Code): seq<Byte> {
    [(0xf0 | ((uc & 0x1c0000) >> 18)) as Byte, (0x80 | ((uc & 0x3f000) >> 12)) as Byte,
     (0x80 | ((uc & 0xfc0) >> 6)) as Byte, (0x80 | (uc & 0x3f)) as Byte]
  }

  function Encode(uc: Code): (s: seq<Byte>)
    ensures 1 <= |s| <= 4
  {
    if uc <= 0x7f then Encode1(uc) else if uc <= 0x7ff then Encode2(uc)
    else if uc <= 0xffff then Encode3(uc) else Encode4(uc)
  }

  // ----- Decoding -----

  predicate Cont(b: Byte) {
    b & 0xc0 == 0x80
  }

  function Join2(a: Byte, b: Byte): Code {
    (((a as Code) & !0xc0) << 6) | ((b as Code) & !0x80)
  }

  function Join3(a: Byte, b: Byte, c: Byte): Code {
    (((a as Code) & !0xe0) << 12) | (((b as Code) & !0x80) << 6) | ((c as Code) & !0x80)
  }

  function Join4(a: Byte, b: Byte, c: Byte, d: Byte): Code {
    (((a as Code) & !0xf0) << 18) | (((b as Code) & !0x80) << 12) | (((c as Code) & !0x80) << 6) | ((d as Code) & !0x80)
  }

  /** A NUL-terminated string. */
  predicate IsCString(s: seq<Byte>) {
    s != [] && s[|s| - 1] == 0
  }

  /** The code point at a position and the number of bytes it takes. A byte that does not start a sequence
      stands for itself. */
  function Decode(s: seq<Byte>, p: nat): (r: (Code, nat))
    requires IsCString(s) && p < |s|
    ensures 1 <= r.1 <= 4 && p + r.1 <= |s|
    ensures s[p] != 0 ==> forall i :: p <= i < p + r.1 ==> s[i] != 0
  {
    if s[p] < 0xc0 then (s[p] as Code, 1)
    else if s[p] < 0xe0 then
      if Cont(s[p + 1]) then (Join2(s[p], s[p + 1]), 2) else (s[p] as Code, 1)
    else if s[p] < 0xf0 then
      if Cont(s[p + 1]) && Cont(s[p + 2]) then (Join3(s[p], s[p + 1], s[p + 2]), 3) else (s[p] as Code, 1)
    else if s[p] < 0xf8 then
      if Cont(s[p + 1]) && Cont(s[p + 2]) && Cont(s[p + 3]) then
        (Join4(s[p], s[p + 1], s[p + 2], s[p + 3]), 4)
      else (s[p] as Code, 1)
    else (s[p] as Code, 1)
  }

  // ----- One code point there and back -----

  lemma Bytes2(uc: Code)
    requires 0x7f < uc <= 0x7ff
    ensures var e := Encode2(uc); 0xc0 <= e[0] < 0xe0 && Cont(e[1]) && Join2(e[0], e[1]) == uc
  {
  }

  lemma Bytes3(uc: Code)
    requires 0x7ff < uc <= 0xffff
    ensures var e := Encode3(uc); 0xe0 <= e[0] < 0xf0 && Cont(e[1]) && Cont(e[2]) && Join3(e[0], e[1], e[2]) == uc
  {
  }

  lemma Bytes4(uc: Code)
    ensures var e := Encode4(uc);
            0xf0 <= e[0] < 0xf8 && Cont(e[1]) && Cont(e[2]) && Cont(e[3]) && Join4(e[0], e[1], e[2], e[3]) == uc & 0x1fffff
  {
  }

  lemma Below21Bits(uc: Code)
    requires uc <= 0x1fffff
    ensures uc & 0x1fffff == uc
  {
  }

  lemma DecodeOf2(s: seq<Byte>, p: nat, e: seq<Byte>)
    requires IsCString(s) && |e| == 2 && p + 2 <= |s| && s[p] == e[0] && s[p + 1] == e[1]
    requires 0xc0 <= e[0] < 0xe0 && Cont(e[1])
    ensures Decode(s, p) == (Join2(e[0], e[1]), 2)
  {
  }

  lemma DecodeOf3(s: seq<Byte>, p: nat, e: seq<Byte>)
    requires IsCString(s) && |e| == 3 && p + 3 <= |s| && s[p] == e[0] && s[p + 1] == e[1] && s[p + 2] == e[2]
    requires 0xe0 <= e[0] < 0xf0 && Cont(e[1]) && Cont(e[2])
    ensures Decode(s, p) == (Join3(e[0], e[1], e[2]), 3)
  {
  }

  lemma DecodeOf4(s: seq<Byte>, p: nat, e: seq<Byte>)
    requires IsCString(s) && |e| == 4 && p + 4 <= |s|
    requires s[p] == e[0] && s[p + 1] == e[1] && s[p + 2] == e[2] && s[p + 3] == e[3]
    requires 0xf0 <= e[0] < 0xf8 && Cont(e[1]) && Cont(e[2]) && Cont(e[3])
    ensures Decode(s, p) == (Join4(e[0], e[1], e[2], e[3]), 4)
  {
  }

  /** The bytes of a sequence at a position of a string. */
  predicate Holds<T(==)>(s: seq<T>, p: nat, e: seq<T>) {
    p + |e| <= |s| && forall i :: 0 <= i < |e| ==> s[p + i] == e[i]
  }

  /** What was encoded is decoded, wherever it stands; a code point of more than 21 bits loses the rest. */
  lemma DecodeEncoded(s: seq<Byte>, p: nat, uc: Code)
    requires IsCString(s) && Holds(s, p, Encode(uc))
    ensures Decode(s, p) == (uc & 0x1fffff, |Encode(uc)|)
  {
    if uc <= 0x7f {
      Decode1Encoded(s, p, uc);
    } else if uc <= 0x7ff {
      Decode2Encoded(s, p, uc);
    } else if uc <= 0xffff {
      Decode3Encoded(s, p, uc);
    } else {
      Decode4Encoded(s, p, uc);
    }
  }

  lemma Decode1Encoded(s: seq<Byte>, p: nat, uc: Code)
    requires IsCString(s) && uc <= 0x7f && Holds(s, p, Encode1(uc))
    ensures Decode(s, p) == (uc & 0x1fffff, 1)
  {
    Below21Bits(uc);
    assert s[p + 0] == Encode1(uc)[0];
  }

  lemma Decode2Encoded(s: seq<Byte>, p: nat, uc: Code)
    requires IsCString(s) && 0x7f < uc <= 0x7ff && Holds(s, p, Encode2(uc))
    ensures Decode(s, p) == (uc & 0x1fffff, 2)
  {
    Below21Bits(uc);
    Bytes2(uc);
    var e := Encode2(uc);
    assert s[p + 0] == e[0] && s[p + 1] == e[1];
    DecodeOf2(s, p, e);
  }

  lemma Decode3Encoded(s: seq<Byte>, p: nat, uc: Code)
    requires IsCString(s) && 0x7ff < uc <= 0xffff && Holds(s, p, Encode3(uc))
    ensures Decode(s, p) == (uc & 0x1fffff, 3)
  {
    Below21Bits(uc);
    Bytes3(uc);
    var e := Encode3(uc);
    assert s[p + 0] == e[0] && s[p + 1] == e[1] && s[p + 2] == e[2];
    DecodeOf3(s, p, e);
  }

  lemma Decode4Encoded(s: seq<Byte>, p: nat, uc: Code)
    requires IsCString(s) && Holds(s, p, Encode4(uc))
    ensures Decode(s, p) == (uc & 0x1fffff, 4)
  {
    Bytes4(uc);
    var e := Encode4(uc);
    assert s[p + 0] == e[0] && s[p + 1] == e[1] && s[p + 2] == e[2] && s[p + 3] == e[3];
    DecodeOf4(s, p, e);
  }

  /** The buffer with some bytes put over those at a position. */
  lemma PutIsSplice(before: seq<Byte>, after: seq<Byte>, p: nat, e: seq<Byte>)
    requires p + |e| <= |before| == |after| && Holds(after, p, e)
    requires forall i :: 0 <= i < p || p + |e| <= i < |before| ==> after[i] == before[i]
    ensures after == before[..p] + e + before[p + |e|..]
  {
    var all := before[..p] + e + before[p + |e|..];
    forall i | 0 <= i < |all| ensures all[i] == after[i] {
      if p <= i < p + |e| {
        assert after[p + (i - p)] == e[i - p];
      }
    }
  }

  method Put2(buf: array<Byte>, p: nat, uc: Code)
    requires p + 2 <= buf.Length
    modifies buf
    ensures buf[..] == old(buf[..])[..p] + Encode2(uc) + old(buf[..])[p + 2..]
  {
    ghost var before := buf[..];
    buf[p] := (0xc0 | ((uc & 0x7c0) >> 6)) as Byte;
    buf[p + 1] := (0x80 | (uc & 0x3f)) as Byte;
    PutIsSplice(before, buf[..], p, Encode2(uc));
  }

  method Put3(buf: array<Byte>, p: nat, uc: Code)
    requires p + 3 <= buf.Length
    modifies buf
    ensures buf[..] == old(buf[..])[..p] + Encode3(uc) + old(buf[..])[p + 3..]
  {
    ghost var before := buf[..];
    buf[p] := (0xe0 | ((uc & 0xf000) >> 12)) as Byte;
    buf[p + 1] := (0x80 | ((uc & 0xfc0) >> 6)) as Byte;
    buf[p + 2] := (0x80 | (uc & 0x3f)) as Byte;
    PutIsSplice(before, buf[..], p, Encode3(uc));
  }

  method Put4(buf: array<Byte>, p: nat, uc: Code)
    requires p + 4 <= buf.Length
    modifies buf
    ensures buf[..] == old(buf[..])[..p] + Encode4(uc) + old(buf[..])[p + 4..]
  {
    ghost var before := buf[..];
    buf[p] := (0xf0 | ((uc & 0x1c0000) >> 18)) as Byte;
    buf[p + 1] := (0x80 | ((uc & 0x3f000) >> 12)) as Byte;
    buf[p + 2] := (0x80 | ((uc & 0xfc0) >> 6)) as Byte;
    buf[p + 3] := (0x80 | (uc & 0x3f)) as Byte;
    PutIsSplice(before, buf[..], p, Encode4(uc));
  }

  /** Stores a code point at a position of a buffer. */
  method FromUnicode(buf: array<Byte>, p: nat, uc: Code) returns (n: nat)
    requires p + |Encode(uc)| <= buf.Length
    modifies buf
    ensures n == |Encode(uc)|
    ensures buf[..] == old(buf[..])[..p] + Encode(uc) + old(buf[..])[p + n..]
  {
    if uc <= 0x7f {
      ghost var before := buf[..];
      buf[p] := uc as Byte;
      n := 1;
      PutIsSplice(before, buf[..], p, Encode(uc));
    } else if uc <= 0x7ff {
      Put2(buf, p, uc);
      n := 2;
    } else if uc <= 0xffff {
      Put3(buf, p, uc);
      n := 3;
    } else {
      Put4(buf, p, uc);
      n := 4;
    }
  }

  // ----- The number that a sequence of bytes is -----

  // Section 3 of RFC 3629, extended to 21 bits: digits in base 64, the most significant one first. The first byte
  // counts from 0xc0, 0xe0 or 0xf0 in a sequence of two, three or four bytes, the others from 0x80.

  function Number2(a: Byte, b: Byte): Code {
    64 * (a as Code - 0xc0) + (b as Code - 0x80)
  }

  function Number3(a: Byte, b: Byte, c: Byte): Code {
    64 * (64 * (a as Code - 0xe0) + (b as Code - 0x80)) + (c as Code - 0x80)
  }

  function Number4(a: Byte, b: Byte, c: Byte, d: Byte): Code {
    64 * (64 * (64 * (a as Code - 0xf0) + (b as Code - 0x80)) + (c as Code - 0x80)) + (d as Code - 0x80)
  }

  function Number(e: seq<Byte>): Code
    requires 1 <= |e| <= 4
  {
    if |e| == 1 then e[0] as Code else if |e| == 2 then Number2(e[0], e[1])
    else if |e| == 3 then Number3(e[0], e[1], e[2]) else Number4(e[0], e[1], e[2], e[3])
  }

  lemma Encoded2(uc: Code)
    requires uc <= 0x7ff
    ensures Number(Encode2(uc)) == uc
  {
  }

  lemma Encoded3(uc: Code)
    requires uc <= 0xffff
    ensures Number(Encode3(uc)) == uc
  {
  }

  lemma Encoded4(uc: Code)
    requires uc <= 0x1fffff
    ensures Number(Encode4(uc)) == uc
  {
  }

  /** The bytes of an encoding are the digits of its code point. */
  lemma EncodeIsNumber(uc: Code)
    requires uc <= 0x1fffff
    ensures Number(Encode(uc)) == uc
  {
    if uc <= 0x7f {
    } else if uc <= 0x7ff {
      Encoded2(uc);
    } else if uc <= 0xffff {
      Encoded3(uc);
    } else {
      Encoded4(uc);
    }
  }

  /** A code point takes as few bytes as its bits allow: 7 bits one, 11 bits two, 16 bits three. */
  lemma EncodeIsShortest(uc: Code)
    ensures |Encode(uc)| <= 1 <==> uc < 1 << 7
    ensures |Encode(uc)| <= 2 <==> uc < 1 << 11
    ensures |Encode(uc)| <= 3 <==> uc < 1 << 16
  {
  }

  lemma Joined2(a: Byte, b: Byte)
    requires 0xc0 <= a < 0xe0 && Cont(b)
    ensures Join2(a, b) == Number2(a, b)
  {
  }

  lemma Joined3(a: Byte, b: Byte, c: Byte)
    requires 0xe0 <= a < 0xf0 && Cont(b) && Cont(c)
    ensures Join3(a, b, c) == Number3(a, b, c)
  {
  }

  lemma Joined4(a: Byte, b: Byte, c: Byte, d: Byte)
    requires 0xf0 <= a < 0xf8 && Cont(b) && Cont(c) && Cont(d)
    ensures Join4(a, b, c, d) == Number4(a, b, c, d)
  {
  }

  /** The length of the sequence that a byte starts, 1 if it starts none. */
  function Announced(b: Byte): (n: nat)
    ensures 1 <= n <= 4
  {
    if 0xc0 <= b < 0xe0 then 2 else if 0xe0 <= b < 0xf0 then 3 else if 0xf0 <= b < 0xf8 then 4 else 1
  }

  /** Whatever the bytes, a sequence that is complete is decoded to the number of its digits, and a byte that does
      not start one stands for itself. */
  lemma DecodeIsNumber(s: seq<Byte>, p: nat)
    requires IsCString(s) && p < |s|
    ensures var (c, n) := Decode(s, p);
      && c == Number(s[p..p + n])
      && (n == Announced(s[p]) || n == 1)
      && (forall i :: p < i < p + n ==> Cont(s[i]))
      && (n < Announced(s[p]) ==> exists i :: p < i < p + Announced(s[p]) && i < |s| && !Cont(s[i]))
  {
    var n := Decode(s, p).1;
    var e := s[p..p + n];
    assert e[0] == s[p] && forall i :: 0 <= i < n ==> e[i] == s[p + i];
    if n == 2 {
      Joined2(e[0], e[1]);
    } else if n == 3 {
      Joined3(e[0], e[1], e[2]);
    } else if n == 4 {
      Joined4(e[0], e[1], e[2], e[3]);
    }
  }

  // ----- Whole strings -----

  function EncodeAll(cps: seq<Code>): seq<Byte> {
    if cps == [] then [] else Encode(cps[0]) + EncodeAll(cps[1..])
  }

  /** The code points of a string from a position up to its first NUL. */
  function DecodeAll(s: seq<Byte>, p: nat): seq<Code>
    requires IsCString(s) && p < |s|
    decreases |s| - p
  {
    if s[p] == 0 then [] else [Decode(s, p).0] + DecodeAll(s, p + Decode(s, p).1)
  }

  predicate Codes(cps: seq<Code>) {
    forall i :: 0 <= i < |cps| ==> 1 <= cps[i] <= 0x1fffff
  }

  lemma FirstByte(uc: Code)
    requires 1 <= uc
    ensures Encode(uc)[0] != 0
  {
    if uc <= 0x7f {
    } else if uc <= 0x7ff {
      Bytes2(uc);
    } else if uc <= 0xffff {
      Bytes3(uc);
    } else {
      Bytes4(uc);
    }
  }

  lemma HoldsParts<T>(s: seq<T>, p: nat, a: seq<T>, b: seq<T>)
    requires Holds(s, p, a + b)
    ensures Holds(s, p, a) && Holds(s, p + |a|, b)
  {
    forall i | 0 <= i < |a| ensures s[p + i] == a[i] {
      assert (a + b)[i] == a[i];
    }
    forall i | 0 <= i < |b| ensures s[p + |a| + i] == b[i] {
      assert (a + b)[|a| + i] == b[i] && s[p + (|a| + i)] == (a + b)[|a| + i];
    }
  }

  lemma HoldsThree<T>(s: seq<T>, p: nat, a: seq<T>, b: seq<T>, c: seq<T>)
    requires Holds(s, p, a + b + c)
    ensures Holds(s, p, a) && Holds(s, p + |a|, b + c)
  {
    assert a + b + c == a + (b + c);
    HoldsParts(s, p, a, b + c);
  }

  lemma HoldsAtEnd<T>(s: seq<T>, p: nat, x: T)
    requires Holds(s, p, [] + [x])
    ensures p < |s| && s[p] == x
  {
    assert ([] + [x])[0] == x && s[p + 0] == x;
  }

  lemma CodesRest(cps: seq<Code>)
    requires Codes(cps) && cps != []
    ensures 1 <= cps[0] <= 0x1fffff && Codes(cps[1..])
  {
  }

  /** Where the first code point of an encoded string ends. */
  lemma HoldsFirst(s: seq<Byte>, p: nat, cps: seq<Code>, rest: seq<Byte>)
    requires cps != [] && Codes(cps) && IsCString(s) && Holds(s, p, EncodeAll(cps) + rest)
    ensures p < |s| && s[p] != 0 && Decode(s, p) == (cps[0], |Encode(cps[0])|)
    ensures Codes(cps[1..]) && Holds(s, p + |Encode(cps[0])|, EncodeAll(cps[1..]) + rest)
  {
    CodesRest(cps);
    HoldsThree(s, p, Encode(cps[0]), EncodeAll(cps[1..]), rest);
    DecodeFirst(s, p, cps[0]);
  }

  lemma DecodeFirst(s: seq<Byte>, p: nat, uc: Code)
    requires IsCString(s) && 1 <= uc <= 0x1fffff && Holds(s, p, Encode(uc))
    ensures p < |s| && s[p] != 0 && Decode(s, p) == (uc, |Encode(uc)|)
  {
    DecodeEncoded(s, p, uc);
    Below21Bits(uc);
    FirstByte(uc);
    HoldsHead(s, p, Encode(uc));
  }

  lemma HoldsHead<T>(s: seq<T>, p: nat, e: seq<T>)
    requires Holds(s, p, e) && e != []
    ensures p < |s| && s[p] == e[0]
  {
    assert s[p + 0] == e[0];
  }

  /** Encoding code points and decoding the string gives them back. */
  lemma {:induction false} DecodeAllEncoded(s: seq<Byte>, p: nat, cps: seq<Code>)
    requires Codes(cps) && IsCString(s) && Holds(s, p, EncodeAll(cps) + [0])
    ensures DecodeAll(s, p) == cps
    decreases |cps|
  {
    if cps == [] {
      HoldsAtEnd(s, p, 0);
    } else {
      HoldsFirst(s, p, cps, [0]);
      DecodeAllEncoded(s, p + |Encode(cps[0])|, cps[1..]);
      assert cps == [cps[0]] + cps[1..];
    }
  }

  lemma RoundTrip(cps: seq<Code>)
    requires Codes(cps)
    ensures DecodeAll(EncodeAll(cps) + [0], 0) == cps
  {
    var s := EncodeAll(cps) + [0];
    DecodeAllEncoded(s, 0, cps);
  }

  // ----- Lengths and positions -----

  /** Decoding from `p` meets `q` between two code points. */
  predicate Boundary(s: seq<Byte>, p: nat, q: nat)
    requires IsCString(s) && p <= |s| && q <= |s|
    decreases |s| - p
  {
    p == q || (p < q && Boundary(s, p + Decode(s, p).1, q))
  }

  /** How many code points there are between two boundaries. */
  function CountTo(s: seq<Byte>, p: nat, q: nat): nat
    requires IsCString(s) && p <= |s| && q <= |s| && Boundary(s, p, q)
    decreases |s| - p
  {
    if p == q then 0 else 1 + CountTo(s, p + Decode(s, p).1, q)
  }

  function Strlen(s: seq<Byte>, p: nat): (n: nat)
    requires IsCString(s) && p < |s|
    ensures p + n < |s| && s[p + n] == 0 && forall i :: p <= i < p + n ==> s[i] != 0
    decreases |s| - p
  {
    if s[p] == 0 then 0 else 1 + Strlen(s, p + 1)
  }

  lemma {:induction false} StrlenSkips(s: seq<Byte>, p: nat, n: nat)
    requires IsCString(s) && p + n < |s| && forall i :: p <= i < p + n ==> s[i] != 0
    ensures Strlen(s, p) == n + Strlen(s, p + n)
    decreases n
  {
    if n > 0 {
      StrlenSkips(s, p + 1, n - 1);
    }
  }

  lemma BoundaryStep(s: seq<Byte>, p: nat, end: nat)
    requires IsCString(s) && p < end < |s| && s[p] != 0
    requires p + Decode(s, p).1 <= end && Boundary(s, p + Decode(s, p).1, end)
    ensures Boundary(s, p, end) && CountTo(s, p, end) == 1 + CountTo(s, p + Decode(s, p).1, end)
  {
  }

  /** Decoding does not run over the NUL. */
  lemma EndIsAhead(s: seq<Byte>, p: nat, q: nat, end: nat)
    requires IsCString(s) && p < |s| && s[p] != 0 && q == p + Decode(s, p).1 && end == p + Strlen(s, p)
    ensures p < q < |s| && end == q + Strlen(s, q)
  {
    assert s[|s| - 1] == 0;
    StrlenSkips(s, p, q - p);
  }

  /** The end of a string is always a boundary, valid UTF-8 or not: decoding never runs over the NUL. */
  lemma {:induction false} EndIsBoundary(s: seq<Byte>, p: nat, end: nat)
    requires IsCString(s) && p < |s| && end == p + Strlen(s, p)
    ensures Boundary(s, p, end) && CountTo(s, p, end) == |DecodeAll(s, p)|
    decreases |s| - p
  {
    if s[p] != 0 {
      EndIsAhead(s, p, p + Decode(s, p).1, end);
      EndIsBoundary(s, p + Decode(s, p).1, end);
      BoundaryStep(s, p, end);
    }
  }

  /** The number of code points in the first bytes of a string, or in all of it if no length is given. */
  method StrLen(s: seq<Byte>, bytelen: int) returns (charlen: nat)
    requires IsCString(s) && bytelen < |s| && (bytelen >= 0 ==> Boundary(s, 0, bytelen))
    ensures charlen == if bytelen < 0 then |DecodeAll(s, 0)| else CountTo(s, 0, bytelen)
  {
    var end := bytelen;
    if bytelen < 0 {
      end := Strlen(s, 0);
      EndIsBoundary(s, 0, end);
    }
    charlen := 0;
    var p := 0;
    while p != end
      invariant p <= end && Boundary(s, p, end) && charlen + CountTo(s, p, end) == CountTo(s, 0, end)
      decreases end - p
    {
      charlen := charlen + 1;
      BoundaryIsAhead(s, p, end);
      p := p + Decode(s, p).1;
    }
  }

  lemma BoundaryIsAhead(s: seq<Byte>, p: nat, q: nat)
    requires IsCString(s) && p < q < |s| && Boundary(s, p, q)
    ensures p + Decode(s, p).1 <= q && Boundary(s, p + Decode(s, p).1, q)
  {
  }

  /** The position after `k` code points. */
  function Offset(s: seq<Byte>, p: nat, k: nat): (q: nat)
    requires IsCString(s) && p < |s| && k <= |DecodeAll(s, p)|
    ensures p <= q < |s|
    decreases k
  {
    if k == 0 then p else Offset(s, p + Decode(s, p).1, k - 1)
  }

  lemma OffsetStep(s: seq<Byte>, p: nat, k: nat)
    requires IsCString(s) && p < |s| && 0 < k <= |DecodeAll(s, p)|
    ensures p + Decode(s, p).1 < |s| && k - 1 <= |DecodeAll(s, p + Decode(s, p).1)|
    ensures Offset(s, p, k) == Offset(s, p + Decode(s, p).1, k - 1)
  {
    assert s[|s| - 1] == 0;
  }

  method Index(s: seq<Byte>, index: nat) returns (p: nat)
    requires IsCString(s) && index <= |DecodeAll(s, 0)|
    ensures p == Offset(s, 0, index)
  {
    p := 0;
    var k := index;
    while k > 0
      invariant 0 <= p < |s| && 0 <= k <= |DecodeAll(s, p)| && Offset(s, p, k) == Offset(s, 0, index)
    {
      OffsetStep(s, p, k);
      p := p + Decode(s, p).1;
      k := k - 1;
    }
  }

  /** The positions of the code points of an encoded string are where their encodings meet. */
  lemma {:induction false} OffsetOfEncoded(s: seq<Byte>, p: nat, cps: seq<Code>, k: nat)
    requires Codes(cps) && IsCString(s) && Holds(s, p, EncodeAll(cps) + [0]) && k <= |cps|
    ensures p < |s| && DecodeAll(s, p) == cps && Offset(s, p, k) == p + |EncodeAll(cps[..k])|
    decreases k
  {
    DecodeAllEncoded(s, p, cps);
    if k > 0 {
      HoldsFirst(s, p, cps, [0]);
      OffsetOfEncoded(s, p + |Encode(cps[0])|, cps[1..], k - 1);
      assert cps[..k][1..] == cps[1..][..k - 1];
    }
  }

  // ----- Stepping back -----

  predicate StartsChar(b: Byte) {
    b & 0x80 == 0 || b & 0xc0 == 0xc0
  }

  /** How far back the code point before a position starts, looking at no more than `len` bytes. */
  method PrevLen(s: seq<Byte>, p: nat, len: nat) returns (n: nat)
    requires 0 < len <= p <= |s|
    ensures 1 <= n <= len && (n < len ==> StartsChar(s[p - n]))
    ensures forall i :: p - n < i < p ==> !StartsChar(s[i])
  {
    n := 1;
    var left := len - 1;
    while left != 0 && !StartsChar(s[p - n])
      invariant n + left == len && 1 <= n
      invariant forall i :: p - n < i < p ==> !StartsChar(s[i])
      decreases left
    {
      n := n + 1;
      left := left - 1;
    }
  }

  lemma StartsOrContinues(b: Byte)
    ensures StartsChar(b) <==> !Cont(b)
    ensures b >= 0xc0 ==> StartsChar(b)
    ensures b <= 0x7f ==> StartsChar(b)
  {
  }

  /** Only the first byte of an encoded code point starts one. */
  lemma StartsOfEncoded(uc: Code)
    ensures StartsChar(Encode(uc)[0]) && forall i :: 1 <= i < |Encode(uc)| ==> !StartsChar(Encode(uc)[i])
  {
    var e := Encode(uc);
    if uc <= 0x7f {
      StartsOrContinues(e[0]);
    } else {
      if uc <= 0x7ff {
        Bytes2(uc);
      } else if uc <= 0xffff {
        Bytes3(uc);
      } else {
        Bytes4(uc);
      }
      forall i | 0 <= i < |e| ensures StartsChar(e[i]) <==> i == 0 {
        StartsOrContinues(e[i]);
      }
    }
  }

  /** Stepping back from the end of an encoded code point finds its start, or stops at the limit. */
  lemma PrevOfEncoded(s: seq<Byte>, p: nat, len: nat, n: nat, uc: Code)
    requires 0 < len <= p <= |s| && |Encode(uc)| <= p && Holds(s, p - |Encode(uc)|, Encode(uc))
    requires 1 <= n <= len && (n < len ==> StartsChar(s[p - n]))
    requires forall i :: p - n < i < p ==> !StartsChar(s[i])
    ensures n == if len < |Encode(uc)| then len else |Encode(uc)|
  {
    var e, q := Encode(uc), p - |Encode(uc)|;
    StartsOfEncoded(uc);
    forall i | q <= i < p ensures StartsChar(s[i]) <==> i == q {
      assert s[q + (i - q)] == e[i - q];
    }
  }

  /** One more code point on. */
  lemma {:induction false} OffsetNext(s: seq<Byte>, p: nat, k: nat)
    requires IsCString(s) && p < |s| && k < |DecodeAll(s, p)|
    ensures Offset(s, p, k + 1) == Offset(s, p, k) + Decode(s, Offset(s, p, k)).1
    decreases k
  {
    OffsetStep(s, p, k + 1);
    if k > 0 {
      OffsetStep(s, p, k);
      OffsetNext(s, p + Decode(s, p).1, k - 1);
    }
  }

  /** At each boundary of a string of code points is the next one. */
  lemma {:induction false} CodeAtOffset(s: seq<Byte>, p: nat, q: nat, cps: seq<Code>, k: nat)
    requires Codes(cps) && IsCString(s) && Holds(s, p, EncodeAll(cps) + [0]) && k < |cps|
    requires p < |s| && k <= |DecodeAll(s, p)| && q == Offset(s, p, k)
    ensures Holds(s, q, Encode(cps[k]))
    decreases k
  {
    if k == 0 {
      HoldsThree(s, p, Encode(cps[0]), EncodeAll(cps[1..]), [0]);
    } else {
      HoldsFirst(s, p, cps, [0]);
      OffsetStep(s, p, k);
      CodeAtOffset(s, p + |Encode(cps[0])|, q, cps[1..], k - 1);
    }
  }

  lemma OffsetAfterCode(s: seq<Byte>, cps: seq<Code>, k: nat, p: nat, q: nat)
    requires Codes(cps) && IsCString(s) && Holds(s, 0, EncodeAll(cps) + [0]) && 0 < k <= |cps|
    requires k <= |DecodeAll(s, 0)| && p == Offset(s, 0, k) && q == Offset(s, 0, k - 1)
    ensures p == q + |Encode(cps[k - 1])| && Holds(s, q, Encode(cps[k - 1]))
  {
    CodeAtOffset(s, 0, q, cps, k - 1);
    OffsetNext(s, 0, k - 1);
    DecodeEncoded(s, q, cps[k - 1]);
  }

  /** Stepping back from a boundary of a string of code points finds the boundary before it. */
  lemma PrevOfOffset(s: seq<Byte>, cps: seq<Code>, k: nat, p: nat, n: nat)
    requires Codes(cps) && IsCString(s) && Holds(s, 0, EncodeAll(cps) + [0]) && 0 < k <= |cps|
    requires k <= |DecodeAll(s, 0)| && p == Offset(s, 0, k)
    requires 1 <= n <= p && (n < p ==> StartsChar(s[p - n])) && forall i :: p - n < i < p ==> !StartsChar(s[i])
    ensures p - n == Offset(s, 0, k - 1)
  {
    OffsetAfterCode(s, cps, k, p, Offset(s, 0, k - 1));
    PrevOfEncoded(s, p, p, n, cps[k - 1]);
  }

  // ----- The length from the first byte -----

  function CharLen(c: Byte): int {
    if c & 0x80 == 0 then 1 else if c & 0xe0 == 0xc0 then 2 else if c & 0xf0 == 0xe0 then 3
    else if c & 0xf8 == 0xf0 then 4 else -1
  }

  lemma CharLenByRange(c: Byte)
    ensures c <= 0x7f ==> CharLen(c) == 1
    ensures 0xc0 <= c < 0xe0 ==> CharLen(c) == 2
    ensures 0xe0 <= c < 0xf0 ==> CharLen(c) == 3
    ensures 0xf0 <= c < 0xf8 ==> CharLen(c) == 4
    ensures Cont(c) || c >= 0xf8 ==> CharLen(c) == -1
  {
  }

  /** The first byte of an encoded code point tells its length. */
  lemma CharLenOfEncoded(uc: Code)
    ensures CharLen(Encode(uc)[0]) == |Encode(uc)|
  {
    CharLenByRange(Encode(uc)[0]);
    if uc <= 0x7f {
    } else if uc <= 0x7ff {
      Bytes2(uc);
    } else if uc <= 0xffff {
      Bytes3(uc);
    } else {
      Bytes4(uc);
    }
  }
}
