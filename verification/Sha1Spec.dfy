/** The secure hash of FIPS 180-2: padding (section 5.1.1), initial value (section 5.3.1), computation
    (section 6.1.2). Messages are sequences of bytes. */
module Sha1Spec {

  type Byte = bv8
  type Word = bv32

  /** The working variables, and also the intermediate hash value. */
  datatype Regs = Regs(a: Word, b: Word, c: Word, d: Word, e: Word)

  const INITIAL := Regs(0x67452301, 0xefcdab89, 0x98badcfe, 0x10325476, 0xc3d2e1f0)

  // ----- One block -----

  function Ch(x: Word, y: Word, z: Word): Word {
    (x & y) ^ (!x & z)
  }

  function Parity(x: Word, y: Word, z: Word): Word {
    x ^ y ^ z
  }

  function Maj(x: Word, y: Word, z: Word): Word {
    (x & y) ^ (x & z) ^ (y & z)
  }

  function F(t: nat, x: Word, y: Word, z: Word): Word {
    if t < 20 then Ch(x, y, z) else if t < 40 then Parity(x, y, z) else if t < 60 then Maj(x, y, z) else Parity(x, y, z)
  }

  function K(t: nat): Word {
    if t < 20 then 0x5a827999 else if t < 40 then 0x6ed9eba1 else if t < 60 then 0x8f1bbcdc else 0xca62c1d6
  }

  /** The word of four bytes, the most significant one first. */
  function JoinBytes(a: Byte, b: Byte, c: Byte, d: Byte): Word {
    ((a as Word) << 24) | ((b as Word) << 16) | ((c as Word) << 8) | (d as Word)
  }

  function WordAt(block: seq<Byte>, t: nat): Word
    requires |block| == 64 && t < 16
  {
    JoinBytes(block[4 * t], block[4 * t + 1], block[4 * t + 2], block[4 * t + 3])
  }

  /** The message schedule. */
  function W(block: seq<Byte>, t: nat): Word
    requires |block| == 64
  {
    if t < 16 then WordAt(block, t)
    else Expanded(W(block, t - 3), W(block, t - 8), W(block, t - 14), W(block, t - 16))
  }

  function Expanded(w3: Word, w8: Word, w14: Word, w16: Word): Word {
    (w3 ^ w8 ^ w14 ^ w16).RotateLeft(1)
  }

  function Mix(a: Word, f: Word, e: Word, k: Word, w: Word): Word {
    a.RotateLeft(5) + f + e + k + w
  }

  function Round(r: Regs, t: nat, w: Word): Regs {
    Regs(Mix(r.a, F(t, r.b, r.c, r.d), r.e, K(t), w), r.a, r.b.RotateLeft(30), r.c, r.d)
  }

  /** The working variables after the first `t` rounds. */
  function Rounds(h: Regs, block: seq<Byte>, t: nat): Regs
    requires |block| == 64
  {
    if t == 0 then h else Round(Rounds(h, block, t - 1), t - 1, W(block, t - 1))
  }

  function Sum(x: Regs, y: Regs): Regs {
    Regs(x.a + y.a, x.b + y.b, x.c + y.c, x.d + y.d, x.e + y.e)
  }

  function Compress(h: Regs, block: seq<Byte>): Regs
    requires |block| == 64
  {
    Sum(h, Rounds(h, block, 80))
  }

  /** The hash value after all the blocks of a padded message. */
  function Blocks(h: Regs, s: seq<Byte>): Regs
    requires |s| % 64 == 0
  {
    if s == [] then h else Compress(Blocks(h, s[..|s| - 64]), s[|s| - 64..])
  }

  lemma BlocksSnoc(h: Regs, s: seq<Byte>, block: seq<Byte>)
    requires |s| % 64 == 0 && |block| == 64
    ensures Blocks(h, s + block) == Compress(Blocks(h, s), block)
  {
    var all := s + block;
    assert all[..|all| - 64] == s && all[|all| - 64..] == block;
  }

  // ----- Padding -----

  function Zeros(n: nat): (s: seq<Byte>)
    ensures |s| == n && forall i :: 0 <= i < n ==> s[i] == 0
  {
    seq(n, i => 0)
  }

  predicate Fills(n: nat, k: nat) {
    (n + 1 + k) % 64 == 56
  }

  /** How many zero bytes bring a message of `n` bytes and the byte after it to 8 bytes before the end of a block. */
  function ZeroCount(n: nat): (k: nat)
    ensures k < 64 && Fills(n, k)
    ensures forall j :: 0 <= j < k ==> !Fills(n, j)
  {
    if n % 64 < 56 then 55 - n % 64 else 119 - n % 64
  }

  const TWO64 := 0x1_0000_0000_0000_0000

  function Low(n: nat): Byte {
    (n % 256) as Byte
  }

  /** A number as 8 bytes, the most significant one first. */
  function Bytes8(n: nat): (s: seq<Byte>)
    ensures |s| == 8
  {
    [Low(n / 0x100_0000_0000_0000), Low(n / 0x1_0000_0000_0000), Low(n / 0x100_0000_0000), Low(n / 0x1_0000_0000),
     Low(n / 0x100_0000), Low(n / 0x1_0000), Low(n / 0x100), Low(n)]
  }

  function PadTail(n: nat): (s: seq<Byte>)
    ensures |s| == ZeroCount(n) + 9
  {
    [0x80] + Zeros(ZeroCount(n)) + Bytes8(8 * n % TWO64)
  }

  /** The padded message. The length is that of the standard for messages of less than 2^61 bytes. */
  function Pad(m: seq<Byte>): (s: seq<Byte>)
    ensures |s| % 64 == 0
  {
    PadFills(|m|, ZeroCount(|m|));
    m + PadTail(|m|)
  }

  lemma PadFills(n: nat, k: nat)
    requires Fills(n, k)
    ensures (n + (k + 9)) % 64 == 0
  {
    var q := (n + 1 + k) / 64;
    assert n + (k + 9) == 64 * (q + 1);
  }

  /** Different messages are never padded to the same blocks. */
  lemma PadIsInjective(m: seq<Byte>, n: seq<Byte>)
    requires Pad(m) == Pad(n)
    ensures m == n
  {
    var p := Pad(m);
    MarkIsLast(m, p);
    MarkIsLast(n, p);
    assert m == p[..|m|] && n == p[..|n|];
  }

  /** The byte after the message is the last one that is not zero before the length. */
  lemma MarkIsLast(m: seq<Byte>, p: seq<Byte>)
    requires p == Pad(m)
    ensures |m| < |p| - 8 && p[..|m|] == m && p[|m|] == 0x80
    ensures forall i :: |m| < i < |p| - 8 ==> p[i] == 0
  {
    var z := Zeros(ZeroCount(|m|));
    var tail := PadTail(|m|);
    forall i | |m| < i < |p| - 8 ensures p[i] == 0 {
      assert p[i] == tail[i - |m|];
      assert tail[i - |m|] == z[i - |m| - 1];
    }
    assert tail[0] == 0x80;
  }

  // ----- The hash -----

  /** Byte `i` of a word, counted from the most significant one. */
  function ByteAt(w: Word, i: nat): Byte
    requires i < 4
  {
    if i == 0 then (w >> 24) as Byte else if i == 1 then ((w >> 16) & 0xff) as Byte
    else if i == 2 then ((w >> 8) & 0xff) as Byte else (w & 0xff) as Byte
  }

  function WordBytes(w: Word): (s: seq<Byte>)
    ensures |s| == 4
  {
    [ByteAt(w, 0), ByteAt(w, 1), ByteAt(w, 2), ByteAt(w, 3)]
  }

  /** The bytes of a word give the word back, as the standard reads words. */
  lemma WordFromBytes(w: Word, block: seq<Byte>, t: nat)
    requires |block| == 64 && t < 16 && block[4 * t..4 * t + 4] == WordBytes(w)
    ensures WordAt(block, t) == w
  {
    var s := block[4 * t..4 * t + 4];
    assert s[0] == block[4 * t] && s[1] == block[4 * t + 1] && s[2] == block[4 * t + 2] && s[3] == block[4 * t + 3];
    FourBytes(w);
  }

  lemma FourBytes(w: Word)
    ensures JoinBytes(ByteAt(w, 0), ByteAt(w, 1), ByteAt(w, 2), ByteAt(w, 3)) == w
  {
  }

  function Digest(h: Regs): (s: seq<Byte>)
    ensures |s| == 20
  {
    WordBytes(h.a) + WordBytes(h.b) + WordBytes(h.c) + WordBytes(h.d) + WordBytes(h.e)
  }

  function Sha1(m: seq<Byte>): (s: seq<Byte>)
    ensures |s| == 20
  {
    Digest(Blocks(INITIAL, Pad(m)))
  }

  // ----- Text -----

  /** The text of a C string: the bytes before the first NUL. */
  function CText(s: seq<Byte>): (r: seq<Byte>)
    ensures |r| <= |s| && r == s[..|r|] && 0 !in r && (|r| < |s| ==> s[|r|] == 0)
  {
    if s == [] || s[0] == 0 then [] else [s[0]] + CText(s[1..])
  }

  const DIGITS := "0123456789abcdef"

  function HexByte(b: Byte): string {
    [DIGITS[b as int / 16], DIGITS[b as int % 16]]
  }

  /** Two digits for every byte. */
  function Hex(s: seq<Byte>): (t: string)
    ensures |t| == 2 * |s|
  {
    if s == [] then "" else Hex(s[..|s| - 1]) + HexByte(s[|s| - 1])
  }

  lemma HexByteIsInjective(a: Byte, b: Byte)
    requires HexByte(a) == HexByte(b)
    ensures a == b
  {
    assert HexByte(a)[0] == HexByte(b)[0] && HexByte(a)[1] == HexByte(b)[1];
    NumberFromDigits(a as int, b as int);
  }

  lemma NumberFromDigits(a: nat, b: nat)
    requires a < 256 && b < 256
    requires DIGITS[a / 16] == DIGITS[b / 16] && DIGITS[a % 16] == DIGITS[b % 16]
    ensures a == b
  {
    DigitsDiffer(a / 16, b / 16);
    DigitsDiffer(a % 16, b % 16);
  }

  lemma DigitsDiffer(i: nat, j: nat)
    requires i < 16 && j < 16
    ensures DIGITS[i] == DIGITS[j] ==> i == j
  {
  }

  /** Different digests of the same size are written differently. */
  lemma {:induction false} HexIsInjective(s: seq<Byte>, t: seq<Byte>)
    requires Hex(s) == Hex(t)
    ensures s == t
    decreases |s|
  {
    assert |s| == |t|;
    if s != [] {
      var i, j, x, y := s[..|s| - 1], t[..|t| - 1], s[|s| - 1], t[|t| - 1];
      assert Hex(i) == Hex(s)[..2 * |i|] == Hex(j);
      assert HexByte(x) == Hex(s)[2 * |i|..] == HexByte(y);
      HexByteIsInjective(x, y);
      HexIsInjective(i, j);
      assert s == i + [x] && t == j + [y];
    }
  }

  /** What a digit counts: its place among the digits, as characters. */
  function DigitValue(c: char): int {
    if '0' <= c <= '9' then c as int - '0' as int else if 'a' <= c <= 'f' then 10 + (c as int - 'a' as int) else -1
  }

  lemma DigitIs(i: nat)
    requires i < 16
    ensures DigitValue(DIGITS[i]) == i
  {
  }

  /** A byte is written with its higher digit first, and each byte at its place: the text reads as the bytes. */
  lemma {:induction false} HexReads(s: seq<Byte>, k: nat)
    requires k < |s|
    ensures 16 * DigitValue(Hex(s)[2 * k]) + DigitValue(Hex(s)[2 * k + 1]) == s[k] as int
    ensures 0 <= DigitValue(Hex(s)[2 * k]) < 16 && 0 <= DigitValue(Hex(s)[2 * k + 1]) < 16
    decreases |s|
  {
    var init, last := s[..|s| - 1], s[|s| - 1];
    if k < |init| {
      HexReads(init, k);
      assert Hex(s)[2 * k] == Hex(init)[2 * k] && Hex(s)[2 * k + 1] == Hex(init)[2 * k + 1];
    } else {
      assert Hex(s)[2 * k] == HexByte(last)[0] && Hex(s)[2 * k + 1] == HexByte(last)[1];
      DigitIs(last as int / 16);
      DigitIs(last as int % 16);
    }
  }
}
