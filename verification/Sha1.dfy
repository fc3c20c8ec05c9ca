/** The streaming hash of tm_crypto.c and the functions that use it. */
module Sha1Stream {
  import opened Sha1Spec

  lemma RotateLeftIs(x: Word)
    ensures (x << 1) | (x >> 31) == x.RotateLeft(1)
    ensures (x << 5) | (x >> 27) == x.RotateLeft(5)
    ensures (x << 30) | (x >> 2) == x.RotateLeft(30)
  {
  }

  lemma SumOfBytes(a: Word, b: Word, c: Word, d: Word)
    requires a < 256 && b < 256 && c < 256 && d < 256
    ensures (a << 24) + (b << 16) + (c << 8) + d == (a << 24) | (b << 16) | (c << 8) | d
  {
  }

  method LoadWord(b0: Byte, b1: Byte, b2: Byte, b3: Byte) returns (w: Word)
    ensures w == JoinBytes(b0, b1, b2, b3)
  {
    SumOfBytes(b0 as Word, b1 as Word, b2 as Word, b3 as Word);
    w := ((b0 as Word) << 24) + ((b1 as Word) << 16) + ((b2 as Word) << 8) + (b3 as Word);
  }

  method Expand(w3: Word, w8: Word, w14: Word, w16: Word) returns (w: Word)
    ensures w == Expanded(w3, w8, w14, w16)
  {
    w := w3 ^ w8 ^ w14 ^ w16;
    RotateLeftIs(w);
    w := (w << 1) | (w >> 31);
  }

  method MixWords(a: Word, f: Word, e: Word, k: Word, w: Word) returns (t: Word)
    ensures t == Mix(a, f, e, k, w)
  {
    RotateLeftIs(a);
    t := ((a << 5) | (a >> 27)) + f + e + k + w;
  }

  method Turn(b: Word) returns (c: Word)
    ensures c == b.RotateLeft(30)
  {
    RotateLeftIs(b);
    c := (b << 30) | (b >> 2);
  }

  lemma FirstWords(block: seq<Byte>, i: nat, j: nat, b0: Byte, b1: Byte, b2: Byte, b3: Byte)
    requires |block| == 64 && i < 16 && j == 4 * i
    requires block[j] == b0 && block[j + 1] == b1 && block[j + 2] == b2 && block[j + 3] == b3
    ensures W(block, i) == JoinBytes(b0, b1, b2, b3)
  {
  }

  lemma RoundsStep(h: Regs, block: seq<Byte>, t: nat)
    requires |block| == 64
    ensures Rounds(h, block, t + 1) == Round(Rounds(h, block, t), t, W(block, t))
  {
  }

  class Sha1Ctx {
    const data: array<Byte>
    var datalen: nat
    var bitlen: nat
    const state: array<Word>
    const k: array<Word>
    /** The blocks that are hashed, and the bytes in the buffer. */
    ghost var hashed: seq<Byte>
    ghost var rest: seq<Byte>

    ghost predicate Shaped() {
      data.Length == 64 && state.Length == 5 && k.Length == 4 && k != state
    }

    /** The intermediate hash value. */
    ghost function Value(): Regs
      requires Shaped()
      reads state
    {
      Regs(state[0], state[1], state[2], state[3], state[4])
    }

    ghost predicate Constants()
      requires Shaped()
      reads k
    {
      k[0] == K(0) && k[1] == K(20) && k[2] == K(40) && k[3] == K(60)
    }

    /** All that is known while `rest` is in the buffer, which may be full. */
    ghost predicate Buffered()
      reads this, data, state, k
    {
      && Shaped() && Constants()
      && |hashed| % 64 == 0 && bitlen == 8 * |hashed| % TWO64 && Value() == Blocks(INITIAL, hashed)
      && datalen == |rest| <= 64 && data[..datalen] == rest
    }

    ghost predicate Valid()
      reads this, data, state, k
    {
      Buffered() && datalen < 64
    }

    /** The message so far. */
    ghost function Taken(): seq<Byte>
      reads this`hashed, this`rest
    {
      hashed + rest
    }

    constructor ()
      ensures Valid() && Taken() == [] && fresh(data) && fresh(state) && fresh(k)
    {
      data, state, k := new Byte[64], new Word[5], new Word[4];
      datalen, bitlen, hashed, rest := 0, 0, [], [];
      new;
      state[0], state[1], state[2], state[3], state[4] := 0x67452301, 0xEFCDAB89, 0x98BADCFE, 0x10325476, 0xc3d2e1f0;
      k[0], k[1], k[2], k[3] := 0x5a827999, 0x6ed9eba1, 0x8f1bbcdc, 0xca62c1d6;
    }

    method Schedule() returns (m: array<Word>)
      requires Shaped()
      ensures fresh(m) && m.Length == 80
      ensures forall t :: 0 <= t < 80 ==> m[t] == W(data[..], t)
    {
      m := new Word[80];
      LoadWords(m, data[..]);
      ExpandWords(m, data[..]);
    }

    /** Word `i` of the block in the buffer; `j` is its first byte. */
    method LoadAt(i: nat, j: nat, ghost block: seq<Byte>) returns (w: Word)
      requires Shaped() && block == data[..] && i < 16 && j == 4 * i
      ensures w == W(block, i)
    {
      var b0, b1, b2, b3 := data[j], data[j + 1], data[j + 2], data[j + 3];
      FirstWords(block, i, j, b0, b1, b2, b3);
      w := LoadWord(b0, b1, b2, b3);
    }

    method LoadWords(m: array<Word>, ghost block: seq<Byte>)
      requires Shaped() && m.Length == 80 && block == data[..] && m != state && m != k
      modifies m
      ensures forall t :: 0 <= t < 16 ==> m[t] == W(block, t)
    {
      var i, j := 0, 0;
      while i < 16
        invariant i <= 16 && j == 4 * i
        invariant forall t :: 0 <= t < i ==> m[t] == W(block, t)
      {
        m[i] := LoadAt(i, j, block);
        i, j := i + 1, j + 4;
      }
    }

    static method ExpandWords(m: array<Word>, ghost block: seq<Byte>)
      requires m.Length == 80 && |block| == 64 && forall t :: 0 <= t < 16 ==> m[t] == W(block, t)
      modifies m
      ensures forall t :: 0 <= t < 80 ==> m[t] == W(block, t)
    {
      var i := 16;
      while i < 80
        invariant 16 <= i <= 80
        invariant forall t :: 0 <= t < i ==> m[t] == W(block, t)
      {
        m[i] := Expand(m[i - 3], m[i - 8], m[i - 14], m[i - 16]);
        i := i + 1;
      }
    }

    /** One round, given the value of the function and the constant of its quarter. */
    static method TakeRound(a: Word, b: Word, c: Word, d: Word, e: Word, f: Word, kk: Word, w: Word,
                            ghost h: Regs, ghost block: seq<Byte>, ghost i: nat)
      returns (a': Word, b': Word, c': Word, d': Word, e': Word)
      requires |block| == 64 && Regs(a, b, c, d, e) == Rounds(h, block, i)
      requires f == F(i, b, c, d) && kk == K(i) && w == W(block, i)
      ensures Regs(a', b', c', d', e') == Rounds(h, block, i + 1)
    {
      var t := MixWords(a, f, e, kk, w);
      RoundsStep(h, block, i);
      e', d' := d, c;
      c' := Turn(b);
      b', a' := a, t;
    }

    /** What the rounds read. */
    ghost predicate Scheduled(m: array<Word>, block: seq<Byte>)
      reads m, k
    {
      && |block| == 64 && m.Length == 80 && k.Length == 4
      && k[0] == K(0) && k[1] == K(20) && k[2] == K(40) && k[3] == K(60)
      && forall t :: 0 <= t < 80 ==> m[t] == W(block, t)
    }

    method Quarter0(m: array<Word>, v: Regs, ghost h: Regs, ghost block: seq<Byte>) returns (r: Regs)
      requires Scheduled(m, block) && v == Rounds(h, block, 0)
      ensures r == Rounds(h, block, 20)
    {
      var a, b, c, d, e := v.a, v.b, v.c, v.d, v.e;
      var i := 0;
      while i < 20
        invariant i <= 20 && Regs(a, b, c, d, e) == Rounds(h, block, i)
      {
        a, b, c, d, e := TakeRound(a, b, c, d, e, (b & c) ^ (!b & d), k[0], m[i], h, block, i);
        i := i + 1;
      }
      r := Regs(a, b, c, d, e);
    }

    method Quarter1(m: array<Word>, v: Regs, ghost h: Regs, ghost block: seq<Byte>) returns (r: Regs)
      requires Scheduled(m, block) && v == Rounds(h, block, 20)
      ensures r == Rounds(h, block, 40)
    {
      var a, b, c, d, e := v.a, v.b, v.c, v.d, v.e;
      var i := 20;
      while i < 40
        invariant 20 <= i <= 40 && Regs(a, b, c, d, e) == Rounds(h, block, i)
      {
        a, b, c, d, e := TakeRound(a, b, c, d, e, b ^ c ^ d, k[1], m[i], h, block, i);
        i := i + 1;
      }
      r := Regs(a, b, c, d, e);
    }

    method Quarter2(m: array<Word>, v: Regs, ghost h: Regs, ghost block: seq<Byte>) returns (r: Regs)
      requires Scheduled(m, block) && v == Rounds(h, block, 40)
      ensures r == Rounds(h, block, 60)
    {
      var a, b, c, d, e := v.a, v.b, v.c, v.d, v.e;
      var i := 40;
      while i < 60
        invariant 40 <= i <= 60 && Regs(a, b, c, d, e) == Rounds(h, block, i)
      {
        a, b, c, d, e := TakeRound(a, b, c, d, e, (b & c) ^ (b & d) ^ (c & d), k[2], m[i], h, block, i);
        i := i + 1;
      }
      r := Regs(a, b, c, d, e);
    }

    method Quarter3(m: array<Word>, v: Regs, ghost h: Regs, ghost block: seq<Byte>) returns (r: Regs)
      requires Scheduled(m, block) && v == Rounds(h, block, 60)
      ensures r == Rounds(h, block, 80)
    {
      var a, b, c, d, e := v.a, v.b, v.c, v.d, v.e;
      var i := 60;
      while i < 80
        invariant 60 <= i <= 80 && Regs(a, b, c, d, e) == Rounds(h, block, i)
      {
        a, b, c, d, e := TakeRound(a, b, c, d, e, b ^ c ^ d, k[3], m[i], h, block, i);
        i := i + 1;
      }
      r := Regs(a, b, c, d, e);
    }

    /** Adds the working variables to the hash value, word by word. */
    method Accumulate(v: Regs)
      requires Shaped()
      modifies state
      ensures Value() == Sum(old(Value()), v)
    {
      var r := Sum(Regs(state[0], state[1], state[2], state[3], state[4]), v);
      state[0] := r.a;
      state[1] := r.b;
      state[2] := r.c;
      state[3] := r.d;
      state[4] := r.e;
    }

    /** Hashes the block in the buffer. */
    method Transform()
      requires Shaped() && Constants()
      modifies state
      ensures Value() == Compress(old(Value()), data[..])
    {
      var m := Schedule();
      ghost var h, block := Value(), data[..];
      var v := Regs(state[0], state[1], state[2], state[3], state[4]);
      v := Quarter0(m, v, h, block);
      v := Quarter1(m, v, h, block);
      v := Quarter2(m, v, h, block);
      v := Quarter3(m, v, h, block);
      Accumulate(v);
    }
  
    /** A full buffer is hashed and becomes empty. */
    method Flush()
      requires Buffered() && datalen == 64
      modifies this`datalen, this`bitlen, this`hashed, this`rest, state
      ensures Valid() && Taken() == old(Taken())
    {
      OneBlockMore(hashed, rest);
      TakeWhole(data[..]);
      Transform();
      bitlen := (bitlen + 512) % TWO64;
      datalen := 0;
      hashed, rest := hashed + rest, [];
      NothingMore(hashed);
    }

    /** One byte of the message goes to the buffer. */
    method Store(b: Byte)
      requires Valid()
      modifies this`datalen, this`rest, data
      ensures Buffered() && Taken() == old(Taken()) + [b]
    {
      StoredAt(data[..], datalen, b);
      OneMore(hashed, rest, b);
      data[datalen] := b;
      datalen := datalen + 1;
      rest := rest + [b];
    }

    method UpdateByte(b: Byte)
      requires Valid()
      modifies this`datalen, this`bitlen, this`hashed, this`rest, data, state
      ensures Valid() && Taken() == old(Taken()) + [b]
    {
      Store(b);
      if datalen == 64 {
        Flush();
      }
    }

    method Update(chunk: seq<Byte>)
      requires Valid()
      modifies this`datalen, this`bitlen, this`hashed, this`rest, data, state
      ensures Valid() && Taken() == old(Taken()) + chunk
    {
      var i := 0;
      ghost var m, part := Taken(), chunk[..0];
      NothingMore(m);
      while i < |chunk|
        invariant i <= |chunk| && Valid() && part == chunk[..i] && Taken() == m + part
      {
        UpdateByte(chunk[i]);
        OneMore(m, part, chunk[i]);
        NextPart(chunk, i);
        i := i + 1;
        part := chunk[..i];
      }
      TakeWhole(chunk);
    }

    /** Fills the buffer with zero bytes from one position to another. */
    method Clear(lo: nat, hi: nat)
      requires Shaped() && lo <= hi <= 64
      modifies data
      ensures data[..] == old(data[..lo]) + Zeros(hi - lo) + old(data[hi..])
    {
      var i := lo;
      while i < hi
        invariant lo <= i <= hi
        invariant data[..lo] == old(data[..lo]) && data[hi..] == old(data[hi..])
        invariant forall j :: lo <= j < i ==> data[j] == 0
      {
        data[i] := 0;
        i := i + 1;
      }
    }

    /** The length of the message in bits goes to the end of the buffer. */
    method AppendLength()
      requires Shaped()
      modifies data
      ensures data[..] == old(data[..56]) + Bytes8(bitlen)
    {
      data[63] := Low(bitlen);
      data[62] := Low(bitlen / 0x100);
      data[61] := Low(bitlen / 0x1_0000);
      data[60] := Low(bitlen / 0x100_0000);
      data[59] := Low(bitlen / 0x1_0000_0000);
      data[58] := Low(bitlen / 0x100_0000_0000);
      data[57] := Low(bitlen / 0x1_0000_0000_0000);
      data[56] := Low(bitlen / 0x100_0000_0000_0000);
    }

    /** The mark after the message, and zero bytes up to a position. */
    method PadTo(end: nat)
      requires Valid() && datalen < end <= 64
      modifies data
      ensures data[..end] == rest + [0x80] + Zeros(end - 1 - |rest|)
    {
      StoredAt(data[..], datalen, 0x80);
      data[datalen] := 0x80;
      Clear(datalen + 1, end);
    }

    /** The padding that fits into the block in the buffer, and a block of its own if the length does not fit. */
    method PadBlock()
      requires Valid()
      modifies data, state
      ensures Value() == Blocks(INITIAL, FullPart(hashed, rest)) && data[..56] == LastPart(rest)
    {
      if datalen < 56 {
        PadTo(56);
      } else {
        PadTo(64);
        BlocksSnoc(INITIAL, hashed, data[..64]);
        TakeWhole(data[..]);
        Transform();
        Clear(0, 56);
      }
    }

    /** The length goes into the last block, and that is hashed. */
    method FinishBlock()
      requires Shaped() && Constants() && |hashed| % 64 == 0 && |rest| < 64
      requires Value() == Blocks(INITIAL, FullPart(hashed, rest)) && data[..56] == LastPart(rest)
      requires datalen == |rest| && bitlen == 8 * |hashed| % TWO64
      modifies this`bitlen, data, state
      ensures Value() == Blocks(INITIAL, Pad(Taken()))
    {
      TotalLength(|hashed|, |rest|);
      bitlen := (bitlen + datalen * 8) % TWO64;
      AppendLength();
      PaddedBlocks(hashed, rest, data[..]);
      Transform();
    }

    method Final(hash: array<Byte>)
      requires Valid() && hash.Length == 20 && hash != data
      modifies this`bitlen, data, state, hash
      ensures hash[..] == Sha1(Taken())
    {
      PadBlock();
      FinishBlock();
      DigestSpells(Value());
      Output(hash, Digest(Value()));
    }

    /** Byte `i` of word `q` of the hash value. */
    method PutByte(hash: array<Byte>, q: nat, i: nat, ghost d: seq<Byte>)
      requires Shaped() && hash.Length == 20 && q < 5 && i < 4 && Spells(d)
      modifies hash
      ensures hash[..] == old(hash[..])[i + 4 * q := d[i + 4 * q]]
    {
      assert [state[0], state[1], state[2], state[3], state[4]][q] == state[q];
      hash[i + 4 * q] := ByteOf(state[q], i);
    }

    /** These are the bytes of the words of the hash value. */
    ghost predicate Spells(d: seq<Byte>)
      requires Shaped()
      reads state
    {
      IsSpelt(d, [state[0], state[1], state[2], state[3], state[4]])
    }

    /** The first `i` bytes of each word are in place. */
    ghost predicate Put(hash: array<Byte>, d: seq<Byte>, i: nat)
      requires hash.Length == 20 && |d| == 20 && i <= 4
      reads hash
    {
      PutSoFar(hash[..], d, i)
    }

    method PutBytes(hash: array<Byte>, i: nat, ghost d: seq<Byte>)
      requires Shaped() && hash.Length == 20 && i < 4 && Spells(d)
      requires Put(hash, d, i)
      modifies hash
      ensures Put(hash, d, i + 1)
    {
      PutAll(hash[..], d, i);
      PutByte(hash, 0, i, d);
      PutByte(hash, 1, i, d);
      PutByte(hash, 2, i, d);
      PutByte(hash, 3, i, d);
      PutByte(hash, 4, i, d);
    }

    method Output(hash: array<Byte>, ghost d: seq<Byte>)
      requires Shaped() && hash.Length == 20 && Spells(d)
      modifies hash
      ensures hash[..] == d
    {
      var i := 0;
      while i < 4
        invariant i <= 4 && Put(hash, d, i)
      {
        PutBytes(hash, i, d);
        i := i + 1;
      }
      SameFives(hash[..], d);
    }
  }

  method ByteOf(w: Word, i: nat) returns (b: Byte)
    requires i < 4
    ensures b == ByteAt(w, i)
  {
    b := ((w >> (24 - i * 8)) & 0xff) as Byte;
  }

  lemma JoinFive<T>(a: seq<T>, b: seq<T>, c: seq<T>, d: seq<T>, e: seq<T>, q: nat, i: nat)
    requires |a| == |b| == |c| == |d| == |e| == 4 && q < 5 && i < 4
    ensures (a + b + c + d + e)[i + 4 * q] == [a, b, c, d, e][q][i]
  {
  }

  /** Byte `j` of each of five words. */
  ghost predicate SameColumn<T>(h: seq<T>, d: seq<T>, j: nat)
    requires |h| == 20 == |d| && j < 4
  {
    h[j] == d[j] && h[j + 4] == d[j + 4] && h[j + 8] == d[j + 8] && h[j + 12] == d[j + 12] && h[j + 16] == d[j + 16]
  }

  ghost predicate PutSoFar<T>(h: seq<T>, d: seq<T>, i: nat) {
    |h| == 20 == |d| && i <= 4 && forall j :: 0 <= j < i ==> SameColumn(h, d, j)
  }

  lemma PutAll<T>(h: seq<T>, d: seq<T>, i: nat)
    requires PutSoFar(h, d, i) && i < 4
    ensures PutSoFar(h[i := d[i]][i + 4 := d[i + 4]][i + 8 := d[i + 8]][i + 12 := d[i + 12]][i + 16 := d[i + 16]], d, i + 1)
  {
    var r := h[i := d[i]][i + 4 := d[i + 4]][i + 8 := d[i + 8]][i + 12 := d[i + 12]][i + 16 := d[i + 16]];
    forall j | 0 <= j < i + 1 ensures SameColumn(r, d, j) {
      assert j < i ==> SameColumn(h, d, j);
    }
  }

  lemma SameFives<T>(h: seq<T>, d: seq<T>)
    requires |h| == 20 == |d|
    requires PutSoFar(h, d, 4)
    ensures h == d
  {
    assert SameColumn(h, d, 0) && SameColumn(h, d, 1) && SameColumn(h, d, 2) && SameColumn(h, d, 3);
  }

  lemma WordBytesAt(w: Word, i: nat)
    requires i < 4
    ensures WordBytes(w)[i] == ByteAt(w, i)
  {
    if i == 0 {
    } else if i == 1 {
    } else if i == 2 {
    }
  }

  ghost predicate IsSpelt(d: seq<Byte>, words: seq<Word>)
    requires |words| == 5
  {
    |d| == 20 && forall q, i :: 0 <= q < 5 && 0 <= i < 4 ==> d[i + 4 * q] == ByteAt(words[q], i)
  }

  lemma DigestSpells(h: Regs)
    ensures IsSpelt(Digest(h), [h.a, h.b, h.c, h.d, h.e])
  {
    forall q, i | 0 <= q < 5 && 0 <= i < 4 ensures Digest(h)[i + 4 * q] == ByteAt([h.a, h.b, h.c, h.d, h.e][q], i) {
      DigestAt(h, q, i);
    }
  }

  lemma DigestAt(h: Regs, q: nat, i: nat)
    requires q < 5 && i < 4
    ensures Digest(h)[i + 4 * q] == ByteAt([h.a, h.b, h.c, h.d, h.e][q], i)
  {
    JoinFive(WordBytes(h.a), WordBytes(h.b), WordBytes(h.c), WordBytes(h.d), WordBytes(h.e), q, i);
    WordBytesAt([h.a, h.b, h.c, h.d, h.e][q], i);
  }

  // ----- Hashing a string and a file -----

  /** The length of the C string that starts at `p`. */
  method StrLen(data: array<Byte>, p: nat) returns (n: nat)
    requires p <= data.Length && 0 in data[p..]
    ensures n == |CText(data[p..])|
  {
    n := 0;
    while data[p + n] != 0
      invariant p + n < data.Length && 0 in data[p + n..]
      invariant CText(data[p..]) == data[p..p + n] + CText(data[p + n..])
      decreases data.Length - n
    {
      CTextStep(data[..], p, p + n);
      n := n + 1;
    }
  }

  lemma CTextStep(s: seq<Byte>, p: nat, q: nat)
    requires p <= q < |s| && s[q] != 0 && 0 in s[q..]
    ensures s[p..q] + CText(s[q..]) == s[p..q + 1] + CText(s[q + 1..]) && 0 in s[q + 1..]
  {
    assert s[q..][1..] == s[q + 1..];
    assert s[p..q + 1] == s[p..q] + [s[q]];
  }

  /** One piece of a C string: what is left of it, or 64 bytes. */
  method UpdatePiece(ctx: Sha1Ctx, data: array<Byte>, p: nat, ghost text: seq<Byte>) returns (n: nat)
    requires ctx.data != data && 0 in data[..] && text == CText(data[..]) && p < |text|
    requires ctx.Valid() && ctx.Taken() == text[..p]
    modifies ctx`datalen, ctx`bitlen, ctx`hashed, ctx`rest, ctx.data, ctx.state
    ensures n == (if |text| - p < 64 then |text| - p else 64) && ctx.Valid() && ctx.Taken() == text[..p + n]
  {
    RestOfText(data[..], p);
    var left := StrLen(data, p);
    n := if left < 64 then left else 64;
    ctx.Update(data[p..p + n]);
    TakeMore(data[..], text, p, n);
  }

  method UpdateText(ctx: Sha1Ctx, data: array<Byte>, len: nat, ghost text: seq<Byte>)
    requires ctx.data != data && 0 in data[..] && text == CText(data[..]) && len == |text|
    requires ctx.Valid() && ctx.Taken() == []
    modifies ctx`datalen, ctx`bitlen, ctx`hashed, ctx`rest, ctx.data, ctx.state
    ensures ctx.Valid() && ctx.Taken() == text
  {
    var p := 0;
    ghost var done := 0;
    TakeWhole(text);
    while p < len
      invariant done == (if p < len then p else len) && ctx.Valid() && ctx.Taken() == text[..done]
    {
      var n := UpdatePiece(ctx, data, p, text);
      done := done + n;
      p := p + 64;
    }
  }

  method UpdateString(ctx: Sha1Ctx, data: array<Byte>)
    requires ctx.data != data && 0 in data[..] && ctx.Valid() && ctx.Taken() == []
    modifies ctx`datalen, ctx`bitlen, ctx`hashed, ctx`rest, ctx.data, ctx.state
    ensures ctx.Valid() && ctx.Taken() == CText(data[..])
  {
    DropNone(data[..]);
    var len := StrLen(data, 0);
    UpdateText(ctx, data, len, CText(data[..]));
  }

  /** The digest of a C string, taken 64 bytes at a time; a null pointer stands for the empty string. */
  method HashData(data: array?<Byte>, digest: array<Byte>)
    requires digest.Length == 20 && digest != data && (data != null ==> 0 in data[..])
    modifies digest
    ensures digest[..] == Sha1(if data == null then [] else old(CText(data[..])))
  {
    var ctx := new Sha1Ctx();
    if data != null {
      UpdateString(ctx, data);
    }
    ctx.Final(digest);
  }

  lemma TakeMore<T>(s: seq<T>, text: seq<T>, p: nat, n: nat)
    requires p + n <= |text| <= |s| && text == s[..|text|]
    ensures text[..p] + s[p..p + n] == text[..p + n]
  {
  }

  lemma DropNone<T>(s: seq<T>)
    ensures s[0..] == s
  {
  }

  lemma TakeWhole<T>(s: seq<T>)
    ensures s[..|s|] == s && s[..0] == []
  {
  }

  lemma RestOfText(s: seq<Byte>, p: nat)
    requires 0 in s && p <= |CText(s)|
    ensures 0 in s[p..] && |CText(s[p..])| == |CText(s)| - p
  {
    if p > 0 {
      assert s[p..] == s[1..][p - 1..];
      RestOfText(s[1..], p - 1);
    }
  }

  /** One piece of a file: what one read returns, which is at most 64 bytes. */
  method UpdateRead(ctx: Sha1Ctx, content: seq<Byte>, p: nat) returns (n: nat)
    requires p < |content| && ctx.Valid() && ctx.Taken() == content[..p]
    modifies ctx`datalen, ctx`bitlen, ctx`hashed, ctx`rest, ctx.data, ctx.state
    ensures 1 <= n <= 64 && p + n <= |content| && ctx.Valid() && ctx.Taken() == content[..p + n]
  {
    n :| 1 <= n <= 64 && p + n <= |content|;
    ctx.Update(content[p..p + n]);
    TakeMore(content, content, p, n);
  }

  method UpdateFile(ctx: Sha1Ctx, content: seq<Byte>)
    requires ctx.Valid() && ctx.Taken() == []
    modifies ctx`datalen, ctx`bitlen, ctx`hashed, ctx`rest, ctx.data, ctx.state
    ensures ctx.Valid() && ctx.Taken() == content
  {
    var p := 0;
    TakeWhole(content);
    while p < |content|
      invariant p <= |content| && ctx.Valid() && ctx.Taken() == content[..p]
    {
      var n := UpdateRead(ctx, content, p);
      p := p + n;
    }
  }

  /** The digest of a file, however the reads cut it. */
  method HashFile(content: seq<Byte>, digest: array<Byte>)
    requires digest.Length == 20
    modifies digest
    ensures digest[..] == Sha1(content)
  {
    var ctx := new Sha1Ctx();
    UpdateFile(ctx, content);
    ctx.Final(digest);
  }

  /** The digest in lower-case hexadecimal. */
  method HashToString(digest: seq<Byte>) returns (hash: string)
    ensures hash == Hex(digest)
  {
    hash := "";
    var i := 0;
    while i < |digest|
      invariant i <= |digest| && hash == Hex(digest[..i])
    {
      hash := hash + HexByte(digest[i]);
      i := i + 1;
      assert digest[..i][..i - 1] == digest[..i - 1];
    }
    assert digest[..i] == digest;
  }

  // ----- Steps of the proofs -----

  /** The padded message up to its last block, for a message of blocks and a rest. */
  ghost function FullPart(h: seq<Byte>, r: seq<Byte>): (s: seq<Byte>)
    requires |h| % 64 == 0 && |r| < 64
    ensures |s| % 64 == 0
  {
    if |r| < 56 then h else h + (r + [0x80] + Zeros(63 - |r|))
  }

  /** The last block without the length. */
  ghost function LastPart(r: seq<Byte>): (s: seq<Byte>)
    requires |r| < 64
    ensures |s| == 56
  {
    if |r| < 56 then r + [0x80] + Zeros(55 - |r|) else Zeros(56)
  }

  lemma CountAfterBlocks(n: nat, r: nat)
    requires n % 64 == 0 && r < 64
    ensures ZeroCount(n + r) == if r < 56 then 55 - r else 63 - r + 56
  {
    assert (n + r) % 64 == r;
  }

  lemma ZerosSplit(a: nat, b: nat)
    ensures Zeros(a + b) == Zeros(a) + Zeros(b)
  {
  }

  lemma PadSplits(h: seq<Byte>, r: seq<Byte>)
    requires |h| % 64 == 0 && |r| < 64
    ensures Pad(h + r) == FullPart(h, r) + (LastPart(r) + Bytes8(8 * (|h| + |r|) % TWO64))
  {
    CountAfterBlocks(|h|, |r|);
    if |r| < 56 {
      JoinShort(h, r, [0x80], Zeros(55 - |r|), Bytes8(8 * (|h| + |r|) % TWO64));
    } else {
      ZerosSplit(63 - |r|, 56);
      JoinLong(h, r, [0x80], Zeros(63 - |r|), Zeros(56), Bytes8(8 * (|h| + |r|) % TWO64));
    }
  }

  lemma PaddedBlocks(h: seq<Byte>, r: seq<Byte>, block: seq<Byte>)
    requires |h| % 64 == 0 && |r| < 64 && block == LastPart(r) + Bytes8(8 * (|h| + |r|) % TWO64)
    ensures Blocks(INITIAL, Pad(h + r)) == Compress(Blocks(INITIAL, FullPart(h, r)), block)
  {
    PadSplits(h, r);
    BlocksSnoc(INITIAL, FullPart(h, r), block);
  }

  lemma JoinShort<T>(h: seq<T>, r: seq<T>, m: seq<T>, z: seq<T>, l: seq<T>)
    ensures h + r + (m + z + l) == h + (r + m + z + l)
  {
  }

  lemma JoinLong<T>(h: seq<T>, r: seq<T>, m: seq<T>, z: seq<T>, y: seq<T>, l: seq<T>)
    ensures h + r + (m + (z + y) + l) == h + (r + m + z) + (y + l)
  {
  }

  lemma StoredAt<T>(a: seq<T>, n: nat, b: T)
    requires n < |a|
    ensures a[n := b][..n + 1] == a[..n] + [b]
  {
  }

  lemma OneMore<T>(a: seq<T>, b: seq<T>, x: T)
    ensures a + (b + [x]) == a + b + [x]
  {
  }

  lemma NothingMore<T>(a: seq<T>)
    ensures a + [] == a
  {
  }

  lemma NextPart<T>(s: seq<T>, i: nat)
    requires i < |s|
    ensures s[..i + 1] == s[..i] + [s[i]] && s[..0] == []
  {
  }

  lemma OneBlockMore(h: seq<Byte>, r: seq<Byte>)
    requires |h| % 64 == 0 && |r| == 64
    ensures |h + r| % 64 == 0 && 8 * |h + r| % TWO64 == (8 * |h| % TWO64 + 512) % TWO64
    ensures Blocks(INITIAL, h + r) == Compress(Blocks(INITIAL, h), r)
  {
    BlockLength(|h|, |h + r|);
    BlocksSnoc(INITIAL, h, r);
  }

  lemma BlockLength(n: nat, m: nat)
    requires n % 64 == 0 && m == n + 64
    ensures m % 64 == 0 && 8 * m % TWO64 == (8 * n % TWO64 + 512) % TWO64
  {
    TotalLength(n, 64);
  }

  lemma TotalLength(n: nat, r: nat)
    ensures (8 * n % TWO64 + r * 8) % TWO64 == 8 * (n + r) % TWO64
  {
  }
}
