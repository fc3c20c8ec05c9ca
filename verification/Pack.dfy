/** Bit fields of jim-pack.c: integers of up to 64 bits at any bit position of a string, in two bit orders. */
module Pack {

  type Byte = b: int | 0 <= b < 256 witness 0

  datatype Order = BigEndian | LittleEndian

  // ----- The bits of a number -----

  function Pow2(n: nat): (p: nat)
    ensures p >= 1
  {
    if n == 0 then 1 else 2 * Pow2(n - 1)
  }

  /** The number without its lowest `i` bits, in two's complement. */
  function Shr(v: int, i: nat): int
    decreases i
  {
    if i == 0 then v else Shr(v / 2, i - 1)
  }

  function BitOf(v: int, i: nat): (b: int)
    ensures 0 <= b <= 1
  {
    Shr(v, i) % 2
  }

  /** The number that the lowest `w` bits make. */
  function Low(v: int, w: nat): (r: nat)
    ensures r < Pow2(w)
    decreases w
  {
    if w == 0 then 0 else v % 2 + 2 * Low(v / 2, w - 1)
  }

  lemma {:induction false} ShrStep(v: int, i: nat)
    ensures Shr(v, i + 1) == Shr(v, i) / 2
    decreases i
  {
    if i > 0 {
      ShrStep(v / 2, i - 1);
    }
  }

  lemma MulAtLeast(a: int, p: int)
    requires p >= 0
    ensures a >= 1 ==> a * p >= p
    ensures a <= -1 ==> a * p <= -p
  {
    if a >= 1 {
      assert a * p == (a - 1) * p + p;
      assert (a - 1) * p >= 0;
    } else if a <= -1 {
      assert a * p == (a + 1) * p - p;
      assert (a + 1) * p <= 0;
    }
  }

  lemma ModOf(x: int, p: nat, k: int, r: int)
    requires p >= 1 && 0 <= r < p && x == k * p + r
    ensures x % p == r
  {
    var q, m := x / p, x % p;
    Regroup(q, k, p);
    MulAtLeast(q - k, p);
  }

  lemma Regroup(q: int, k: int, p: int)
    ensures (q - k) * p == q * p - k * p
  {
  }

  /** The lowest bits are the remainder by a power of two. */
  lemma {:induction false} LowIsMod(v: int, w: nat)
    ensures Low(v, w) == v % Pow2(w)
    decreases w
  {
    if w > 0 {
      var p, q := Pow2(w - 1), v / 2;
      LowIsMod(q, w - 1);
      var k := q / p;
      assert v == k * (2 * p) + (2 * (q % p) + v % 2) by {
        assert q == k * p + q % p;
        assert k * (2 * p) == 2 * (k * p);
      }
      ModOf(v, 2 * p, k, 2 * (q % p) + v % 2);
    }
  }

  /** The number with `n` zero bits below it. */
  function Shl(v: nat, n: nat): nat
    decreases n
  {
    if n == 0 then v else 2 * Shl(v, n - 1)
  }

  lemma {:induction false} ShlIsTimes(v: nat, n: nat)
    ensures Shl(v, n) == v * Pow2(n)
    decreases n
  {
    if n > 0 {
      ShlIsTimes(v, n - 1);
      Twice(v, Pow2(n - 1));
    }
  }

  lemma Twice(v: int, p: int)
    ensures 2 * (v * p) == v * (2 * p)
  {
  }

  /** The highest of `w` bits says whether the number is at least half of what they can hold. */
  lemma {:induction false} TopBit(n: nat, w: nat)
    requires w >= 1 && n < Pow2(w)
    ensures BitOf(n, w - 1) == if n >= Pow2(w - 1) then 1 else 0
    decreases w
  {
    if w > 1 {
      TopBit(n / 2, w - 1);
    }
  }

  // ----- Bits of a string -----

  /** The place of bit `b` in its byte. */
  function Place(o: Order, b: nat): (k: nat)
    ensures k < 8
  {
    if o.BigEndian? then 7 - b % 8 else b % 8
  }

  function Bit(s: seq<Byte>, o: Order, b: nat): (r: int)
    requires b < 8 * |s|
    ensures 0 <= r <= 1
  {
    BitOf(s[b / 8], Place(o, b))
  }

  /** Where bit `i` of a field is, counted from the lowest. */
  function At(o: Order, pos: nat, width: nat, i: nat): nat
    requires i < width
  {
    if o.BigEndian? then pos + width - i - 1 else pos + i
  }

  /** The number in a field without its lowest `i` bits. */
  function FieldFrom(s: seq<Byte>, o: Order, pos: nat, width: nat, i: nat): (r: nat)
    requires i <= width && pos + width <= 8 * |s|
    ensures r < Pow2(width - i)
    decreases width - i
  {
    if i == width then 0 else Bit(s, o, At(o, pos, width, i)) + 2 * FieldFrom(s, o, pos, width, i + 1)
  }

  function Field(s: seq<Byte>, o: Order, pos: nat, width: nat): (r: nat)
    requires pos + width <= 8 * |s|
    ensures r < Pow2(width)
  {
    FieldFrom(s, o, pos, width, 0)
  }

  lemma {:induction false} FieldIsLow(s: seq<Byte>, o: Order, pos: nat, width: nat, v: int, i: nat)
    requires i <= width && pos + width <= 8 * |s|
    requires forall j :: 0 <= j < width ==> Bit(s, o, At(o, pos, width, j)) == BitOf(v, j)
    ensures FieldFrom(s, o, pos, width, i) == Low(Shr(v, i), width - i)
    decreases width - i
  {
    if i < width {
      FieldIsLow(s, o, pos, width, v, i + 1);
      ShrStep(v, i);
    }
  }

  /** The bits of a number in a field make the number up to a power of two. */
  lemma FieldIsMod(s: seq<Byte>, o: Order, pos: nat, width: nat, v: int)
    requires pos + width <= 8 * |s|
    requires forall j :: 0 <= j < width ==> Bit(s, o, At(o, pos, width, j)) == BitOf(v, j)
    ensures Field(s, o, pos, width) == v % Pow2(width)
  {
    FieldIsLow(s, o, pos, width, v, 0);
    LowIsMod(v, width);
  }

  // ----- Fields of whole bytes -----

  /** The bits of a byte make the byte. */
  lemma FieldOfByte(s: seq<Byte>, o: Order, pos: nat, w: nat)
    requires w == 8 && pos % 8 == 0 && pos + w <= 8 * |s|
    ensures Field(s, o, pos, w) == s[pos / 8]
  {
    BitsOfByte(s, o, pos, w);
    FieldIsMod(s, o, pos, w, s[pos / 8]);
    Pow2Is256(w);
    SmallMod(s[pos / 8], Pow2(w));
  }

  lemma SmallMod(x: nat, p: nat)
    requires x < p
    ensures x % p == x
  {
  }

  lemma Pow2Is256(w: nat)
    requires w == 8
    ensures Pow2(w) == 256
  {
    assert Pow2(4) == 16;
  }

  lemma BitsOfByte(s: seq<Byte>, o: Order, pos: nat, w: nat)
    requires w == 8 && pos % 8 == 0 && pos + w <= 8 * |s|
    ensures forall j :: 0 <= j < w ==> Bit(s, o, At(o, pos, w, j)) == BitOf(s[pos / 8], j)
  {
    forall j | 0 <= j < w ensures Bit(s, o, At(o, pos, w, j)) == BitOf(s[pos / 8], j) {
      PlaceInByte(o, pos, j);
    }
  }

  lemma PlaceInByte(o: Order, pos: nat, j: nat)
    requires pos % 8 == 0 && j < 8
    ensures At(o, pos, 8, j) / 8 == pos / 8 && Place(o, At(o, pos, 8, j)) == j
  {
  }

  /** A little-endian field in two parts: the lower part comes first. */
  lemma {:induction false} LittleParts(s: seq<Byte>, pos: nat, a: nat, b: nat, i: nat)
    requires i <= a && pos + a + b <= 8 * |s|
    ensures FieldFrom(s, LittleEndian, pos, a + b, i) ==
            FieldFrom(s, LittleEndian, pos, a, i) + Shl(Field(s, LittleEndian, pos + a, b), a - i)
    decreases a - i
  {
    if i < a {
      LittleParts(s, pos, a, b, i + 1);
      assert At(LittleEndian, pos, a + b, i) == At(LittleEndian, pos, a, i);
    } else {
      LittleShift(s, pos, a, b, 0);
    }
  }

  lemma {:induction false} LittleShift(s: seq<Byte>, pos: nat, a: nat, b: nat, j: nat)
    requires j <= b && pos + a + b <= 8 * |s|
    ensures FieldFrom(s, LittleEndian, pos, a + b, a + j) == FieldFrom(s, LittleEndian, pos + a, b, j)
    decreases b - j
  {
    if j < b {
      LittleShift(s, pos, a, b, j + 1);
    }
  }

  /** A big-endian field in two parts: the higher part comes first. */
  lemma {:induction false} BigParts(s: seq<Byte>, pos: nat, a: nat, b: nat, i: nat)
    requires i <= b && pos + a + b <= 8 * |s|
    ensures FieldFrom(s, BigEndian, pos, a + b, i) ==
            FieldFrom(s, BigEndian, pos + a, b, i) + Shl(Field(s, BigEndian, pos, a), b - i)
    decreases b - i
  {
    if i < b {
      BigParts(s, pos, a, b, i + 1);
    } else {
      BigShift(s, pos, a, b, 0);
    }
  }

  lemma {:induction false} BigShift(s: seq<Byte>, pos: nat, a: nat, b: nat, j: nat)
    requires j <= a && pos + a + b <= 8 * |s|
    ensures FieldFrom(s, BigEndian, pos, a + b, b + j) == FieldFrom(s, BigEndian, pos, a, j)
    decreases a - j
  {
    if j < a {
      BigShift(s, pos, a, b, j + 1);
    }
  }

  // ----- Setting bits -----

  /** The number with bit `i` as given. */
  function With(v: int, i: nat, bit: int): int
    decreases i
  {
    if i == 0 then v - v % 2 + bit else v % 2 + 2 * With(v / 2, i - 1, bit)
  }

  lemma {:induction false} WithBit(v: int, i: nat, bit: int, j: nat)
    requires 0 <= bit <= 1
    ensures BitOf(With(v, i, bit), j) == if i == j then bit else BitOf(v, j)
    decreases i
  {
    if i > 0 && j > 0 {
      WithBit(v / 2, i - 1, bit, j - 1);
    }
  }

  lemma {:induction false} WithFits(v: int, i: nat, bit: int, n: nat)
    requires 0 <= bit <= 1 && i < n && 0 <= v < Pow2(n)
    ensures 0 <= With(v, i, bit) < Pow2(n)
    decreases i
  {
    if i > 0 {
      WithFits(v / 2, i - 1, bit, n - 1);
    }
  }

  lemma WithIsByte(x: Byte, k: nat, bit: int)
    requires k < 8 && 0 <= bit <= 1
    ensures 0 <= With(x, k, bit) < 256
  {
    Pow2Is256(8);
    WithFits(x, k, bit, 8);
  }

  /** Bit `b` of the stream is set or cleared, and no other. */
  ghost predicate OneBitSet(before: seq<Byte>, after: seq<Byte>, o: Order, b: nat, bit: int) {
    && |after| == |before| && b < 8 * |before|
    && forall c :: 0 <= c < 8 * |before| ==> Bit(after, o, c) == if c == b then bit else Bit(before, o, c)
  }

  lemma BitSet(before: seq<Byte>, after: seq<Byte>, o: Order, b: nat, bit: int)
    requires b < 8 * |before| && 0 <= bit <= 1 && 0 <= With(before[b / 8], Place(o, b), bit) < 256
    requires after == before[b / 8 := With(before[b / 8], Place(o, b), bit)]
    ensures OneBitSet(before, after, o, b, bit)
  {
    forall c | 0 <= c < 8 * |before|
      ensures Bit(after, o, c) == if c == b then bit else Bit(before, o, c)
    {
      if c / 8 == b / 8 {
        SamePlace(o, b, c);
        WithBit(before[b / 8], Place(o, b), bit, Place(o, c));
      }
    }
  }

  lemma SamePlace(o: Order, b: nat, c: nat)
    requires b / 8 == c / 8
    ensures Place(o, b) == Place(o, c) <==> b == c
  {
  }

  method SetBit(vec: array<Byte>, o: Order, b: nat, bit: int)
    requires b < 8 * vec.Length && 0 <= bit <= 1
    modifies vec
    ensures OneBitSet(old(vec[..]), vec[..], o, b, bit)
  {
    var q, k := b / 8, Place(o, b);
    ghost var before := vec[..];
    WithIsByte(vec[q], k, bit);
    vec[q] := With(vec[q], k, bit);
    assert vec[..] == before[q := With(before[q], k, bit)];
    BitSet(before, vec[..], o, b, bit);
  }

  // ----- Writing a field -----

  /** The field has the bits of the value up to `n`, and the rest is as it was. */
  ghost predicate Written(before: seq<Byte>, after: seq<Byte>, o: Order, pos: nat, width: nat, v: int, n: nat) {
    && |after| == |before| && pos + width <= 8 * |before| && n <= width
    && (forall j :: 0 <= j < n ==> Bit(after, o, At(o, pos, width, j)) == BitOf(v, j))
    && (forall c :: 0 <= c < 8 * |before| && !(pos <= c < pos + width) ==> Bit(after, o, c) == Bit(before, o, c))
  }

  lemma WrittenMore(start: seq<Byte>, before: seq<Byte>, after: seq<Byte>, o: Order, pos: nat, width: nat, v: int, n: nat)
    requires n < width && Written(start, before, o, pos, width, v, n)
    requires OneBitSet(before, after, o, At(o, pos, width, n), BitOf(v, n))
    ensures Written(start, after, o, pos, width, v, n + 1)
  {
  }

  /** A byte stored whole. */
  lemma WrittenByte(before: seq<Byte>, after: seq<Byte>, o: Order, pos: nat, w: nat, v: int, x: Byte)
    requires w == 8 && pos % 8 == 0 && pos + w <= 8 * |before| && x == v % 256 && after == before[pos / 8 := x]
    ensures Written(before, after, o, pos, w, v, w)
  {
    forall j | 0 <= j < w ensures Bit(after, o, At(o, pos, w, j)) == BitOf(v, j) {
      PlaceInByte(o, pos, j);
      LowKeepsBits(v, x, j);
    }
    forall c | 0 <= c < 8 * |before| && !(pos <= c < pos + w) ensures c / 8 != pos / 8 {
    }
  }

  lemma LowKeepsBits(v: int, x: int, j: nat)
    requires x == v % 256 && j < 8
    ensures BitOf(x, j) == BitOf(v, j)
  {
    Pow2Is256(8);
    LowIsMod(v, 8);
    LowBits(v, 8, j);
  }

  lemma {:induction false} LowBits(v: int, n: nat, j: nat)
    requires j < n
    ensures BitOf(Low(v, n), j) == BitOf(v, j)
    decreases j
  {
    if j > 0 {
      assert Low(v, n) / 2 == Low(v / 2, n - 1);
      LowBits(v / 2, n - 1, j - 1);
    }
  }

  /** Writes a field of at most 64 bits. */
  method SetBitsInt(vec: array<Byte>, o: Order, value: int, pos: nat, width: nat)
    requires pos + width <= 8 * vec.Length
    modifies vec
    ensures Written(old(vec[..]), vec[..], o, pos, width, value, width)
  {
    ghost var start := vec[..];
    if pos % 8 == 0 && width == 8 {
      vec[pos / 8] := value % 256;
      WrittenByte(start, vec[..], o, pos, width, value, value % 256);
    } else {
      var i := 0;
      while i < width
        invariant i <= width && Written(start, vec[..], o, pos, width, value, i)
      {
        ghost var before := vec[..];
        SetBit(vec, o, At(o, pos, width, i), BitOf(value, i));
        WrittenMore(start, before, vec[..], o, pos, width, value, i);
        i := i + 1;
      }
    }
  }

  // ----- Reading a field -----

  const TWO63: int := 0x8000_0000_0000_0000
  const TWO64: int := 0x1_0000_0000_0000_0000

  /** A number as a signed integer of 64 bits. */
  function Wide(n: int): (r: int)
    ensures -TWO63 <= r < TWO63
  {
    (n + TWO63) % TWO64 - TWO63
  }

  lemma WideOfSmall(n: int)
    requires -TWO63 <= n < TWO63
    ensures Wide(n) == n
  {
  }

  lemma {:induction false} Pow2Grows(a: nat, b: nat)
    requires a <= b
    ensures Pow2(a) <= Pow2(b)
    decreases b
  {
    if a < b {
      Pow2Grows(a, b - 1);
    }
  }

  lemma {:induction false} Pow2Sum(a: nat, b: nat)
    ensures Pow2(a + b) == Pow2(a) * Pow2(b)
    decreases b
  {
    if b > 0 {
      Pow2Sum(a, b - 1);
      Twice(Pow2(a), Pow2(b - 1));
    }
  }

  lemma Pow2Of32(w: nat)
    requires w == 32
    ensures Pow2(w) == 0x1_0000_0000
  {
    Pow2Is256(8);
    Pow2Sum(8, 8);
    Pow2Sum(16, 16);
  }

  lemma Pow2Of64(w: nat)
    requires w == 64
    ensures Pow2(w - 1) == TWO63 && Pow2(w) == TWO64
  {
    var h := w - 32;
    Pow2Of32(h);
    Pow2Sum(h, h);
  }

  /** One more part of a big-endian field. */
  lemma BigPart(s: seq<Byte>, pos: nat, i: nat, at: nat, w: nat, p: nat, x: nat)
    requires at == pos + i && at + w <= 8 * |s| && Pow2(w) == p && Field(s, BigEndian, at, w) == x
    ensures Field(s, BigEndian, pos, i + w) == p * Field(s, BigEndian, pos, i) + x
  {
    BigParts(s, pos, i, w, 0);
    ShlIsTimes(Field(s, BigEndian, pos, i), w);
  }

  /** One more byte of a big-endian field. */
  lemma BigByte(s: seq<Byte>, pos: nat, i: nat, at: nat)
    requires at == pos + i && at % 8 == 0 && at + 8 <= 8 * |s|
    ensures Field(s, BigEndian, pos, i + 8) == 256 * Field(s, BigEndian, pos, i) + s[at / 8]
  {
    FieldOfByte(s, BigEndian, at, 8);
    Pow2Is256(8);
    BigPart(s, pos, i, at, 8, 256, s[at / 8]);
  }

  /** One more byte of a little-endian field. */
  lemma LittleByte(s: seq<Byte>, pos: nat, i: nat, at: nat)
    requires at == pos + i && at % 8 == 0 && at + 8 <= 8 * |s|
    ensures Field(s, LittleEndian, pos, i + 8) == Field(s, LittleEndian, pos, i) + Shl(s[at / 8], i)
  {
    FieldOfByte(s, LittleEndian, at, 8);
    LittlePart(s, pos, i, at, 8, s[at / 8]);
  }

  lemma LittlePart(s: seq<Byte>, pos: nat, i: nat, at: nat, w: nat, x: nat)
    requires at == pos + i && at + w <= 8 * |s| && Field(s, LittleEndian, at, w) == x
    ensures Field(s, LittleEndian, pos, i + w) == Field(s, LittleEndian, pos, i) + Shl(x, i)
  {
    LittleParts(s, pos, i, w, 0);
  }

  lemma {:induction false} ShlAdds(a: nat, b: nat, n: nat)
    ensures Shl(a + 2 * b, n) == Shl(a, n) + Shl(b, n + 1)
    decreases n
  {
    if n > 0 {
      ShlAdds(a, b, n - 1);
    }
  }

  /** The number that bytes make in base 256, the most significant one first or last. */
  function Base256(o: Order, b: seq<Byte>): nat {
    if b == [] then 0
    else
      var init, last := b[..|b| - 1], b[|b| - 1];
      if o.BigEndian? then 256 * Base256(o, init) + last else Base256(o, init) + last * Pow2(8 * |init|)
  }

  lemma Base256Snoc(o: Order, init: seq<Byte>, last: Byte)
    ensures Base256(o, init + [last]) ==
            if o.BigEndian? then 256 * Base256(o, init) + last else Base256(o, init) + last * Pow2(8 * |init|)
  {
    assert (init + [last])[..|init|] == init;
  }

  lemma OneByteMore(s: seq<Byte>, o: Order, a: nat, n: nat, bits: nat, at: nat)
    requires a + n < |s| && bits == 8 * n && at == 8 * a + bits
    ensures Field(s, o, 8 * a, bits + 8) ==
            if o.BigEndian? then 256 * Field(s, o, 8 * a, bits) + s[a + n] else Field(s, o, 8 * a, bits) + s[a + n] * Pow2(bits)
  {
    if o.BigEndian? {
      BigByte(s, 8 * a, bits, at);
    } else {
      LittleByte(s, 8 * a, bits, at);
      ShlIsTimes(s[a + n], bits);
    }
  }

  /** A field of whole bytes is the number these make, in the order of the bytes. */
  lemma {:induction false} FieldIsBytes(s: seq<Byte>, o: Order, a: nat, n: nat, bytes: seq<Byte>)
    requires a + n <= |s| && bytes == s[a..a + n]
    ensures Field(s, o, 8 * a, 8 * n) == Base256(o, bytes)
    decreases n
  {
    if n > 0 {
      var init := s[a..a + (n - 1)];
      FieldIsBytes(s, o, a, n - 1, init);
      assert bytes == init + [s[a + (n - 1)]];
      Base256Snoc(o, init, s[a + (n - 1)]);
      OneByteMore(s, o, a, n - 1, 8 * (n - 1), 8 * a + 8 * (n - 1));
    }
  }

  /** Reads a field of whole bytes. */
  method BytesInt(vec: array<Byte>, o: Order, pos: nat, width: nat) returns (result: nat)
    requires pos + width <= 8 * vec.Length && pos % 8 == 0 && width % 8 == 0
    ensures result == Field(vec[..], o, pos, width)
  {
    result := 0;
    var i := 0;
    ghost var s := vec[..];
    while i < width
      invariant i <= width && i % 8 == 0 && result == Field(s, o, pos, i)
    {
      WholeBytes(pos, i, width);
      result := AddByte(vec, o, pos, i, pos + i, result);
      i := i + 8;
    }
  }

  lemma WholeBytes(pos: nat, i: nat, width: nat)
    requires pos % 8 == 0 && i % 8 == 0 && width % 8 == 0 && i < width
    ensures (pos + i) % 8 == 0 && (i + 8) % 8 == 0 && i + 8 <= width
  {
  }

  method AddByte(vec: array<Byte>, o: Order, pos: nat, i: nat, at: nat, field: nat) returns (result: nat)
    requires at == pos + i && at % 8 == 0 && at + 8 <= 8 * vec.Length && field == Field(vec[..], o, pos, i)
    ensures result == Field(vec[..], o, pos, i + 8)
  {
    if o.BigEndian? {
      BigByte(vec[..], pos, i, at);
      result := 256 * field + vec[at / 8];
    } else {
      LittleByte(vec[..], pos, i, at);
      result := field + Shl(vec[at / 8], i);
    }
  }

  /** Reads a field bit by bit, the lowest one first. */
  method BitsInt(vec: array<Byte>, o: Order, pos: nat, width: nat) returns (result: nat)
    requires pos + width <= 8 * vec.Length
    ensures result == Field(vec[..], o, pos, width)
  {
    result := 0;
    var i := 0;
    ghost var s := vec[..];
    while i < width
      invariant i <= width
      invariant result + Shl(FieldFrom(s, o, pos, width, i), i) == Field(s, o, pos, width)
    {
      var b := At(o, pos, width, i);
      var bit := BitOf(vec[b / 8], Place(o, b));
      NextBit(s, o, pos, width, i, bit);
      if bit == 1 {
        result := result + Shl(1, i);
      }
      i := i + 1;
    }
    ShlIsTimes(0, i);
  }

  lemma NextBit(s: seq<Byte>, o: Order, pos: nat, width: nat, i: nat, bit: int)
    requires i < width && pos + width <= 8 * |s| && bit == Bit(s, o, At(o, pos, width, i))
    ensures Shl(FieldFrom(s, o, pos, width, i), i) == (if bit == 1 then Shl(1, i) else 0) + Shl(FieldFrom(s, o, pos, width, i + 1), i + 1)
  {
    ShlAdds(bit, FieldFrom(s, o, pos, width, i + 1), i);
    ShlIsTimes(0, i);
  }

  /** Reads a field of at most 64 bits. */
  method BitInt(vec: array<Byte>, o: Order, pos: nat, width: nat) returns (r: int)
    requires pos + width <= 8 * vec.Length && width <= 64
    ensures r == Wide(Field(vec[..], o, pos, width))
  {
    var result: nat;
    if pos % 8 == 0 && width % 8 == 0 {
      result := BytesInt(vec, o, pos, width);
    } else {
      result := BitsInt(vec, o, pos, width);
    }
    r := Wide(result);
  }

  // ----- Signs -----

  /** The value of a field of `width` bits read as a signed number. */
  function SignExtend(n: int, width: nat): int
    requires width >= 1
  {
    if width == 64 then n
    else if BitOf(n, width - 1) == 1 then n - Pow2(width)
    else n
  }

  ghost predicate FitsSigned(v: int, width: nat)
    requires width >= 1
  {
    0 - Pow2(width - 1) <= v < Pow2(width - 1)
  }

  lemma SignedMod(v: int, width: nat)
    requires width >= 1 && FitsSigned(v, width)
    ensures v % Pow2(width) == if v >= 0 then v else v + Pow2(width)
  {
    var p := Pow2(width);
    if v >= 0 {
      ModOf(v, p, 0, v);
    } else {
      ModOf(v, p, -1, v + p);
    }
  }

  /** Sign extension gives back every value that fits the width. */
  lemma SignExtendRecovers(v: int, width: nat)
    requires 1 <= width <= 64 && FitsSigned(v, width)
    ensures SignExtend(Wide(v % Pow2(width)), width) == v
  {
    SignedMod(v, width);
    var n := v % Pow2(width);
    Pow2Of64(64);
    if width == 64 {
      WideOfSigned(v, n);
    } else {
      Pow2Grows(width, 63);
      WideOfSmall(n);
      TopBit(n, width);
    }
  }

  lemma WideOfSigned(v: int, n: int)
    requires -TWO63 <= v < TWO63 && n == if v >= 0 then v else v + TWO64
    ensures Wide(n) == v
  {
  }

  // ----- The commands -----

  datatype Outcome<T> = Done(value: T) | BadWidth | BadOffset

  /** How many bytes the string has after a field was packed into it. */
  function GrownTo(len: nat, end: nat): (n: nat)
    ensures n >= len && 8 * n >= end
    ensures n == len || 8 * n < end + 8
  {
    if 8 * len >= end then len else (end + 7) / 8
  }

  /** The string with zero bytes after it. */
  function Grown(s: seq<Byte>, n: nat): (r: seq<Byte>)
    ensures |r| == |s| + n && r[..|s|] == s && forall i :: |s| <= i < |r| ==> r[i] == 0
  {
    s + seq(n, i => 0)
  }

  method Extend(s: seq<Byte>, end: nat) returns (r: seq<Byte>)
    ensures r == Grown(s, GrownTo(|s|, end) - |s|)
  {
    r := s;
    var len := 8 * |s|;
    while len < end
      invariant |r| >= |s| && len == 8 * |r| && r == Grown(s, |r| - |s|)
      invariant |r| == |s| || 8 * |r| < end + 8
    {
      r := r + [0];
      len := len + 8;
    }
  }

  /** The `pack` command for integers. */
  method PackCmd(s: seq<Byte>, o: Order, value: int, pos: int, width: int) returns (r: Outcome<seq<Byte>>)
    ensures r.BadWidth? <==> width <= 0 || width > 64
    ensures r.BadOffset? <==> 0 < width <= 64 && pos < 0
    ensures r.Done? ==>
              Written(Grown(s, GrownTo(|s|, pos + width) - |s|), r.value, o, pos, width, value, width)
  {
    if width <= 0 || width > 64 {
      return BadWidth;
    }
    if pos < 0 {
      return BadOffset;
    }
    var grown := Extend(s, pos + width);
    var vec := new Byte[|grown|](i requires 0 <= i < |grown| => grown[i]);
    assert vec[..] == grown;
    SetBitsInt(vec, o, value, pos, width);
    r := Done(vec[..]);
  }

  /** The `unpack` command for integers: a field that reaches past the string is cut, one that starts outside
      is 0. The width is compared as an unsigned number, so that a negative one is too wide. */
  method UnpackCmd(s: seq<Byte>, o: Order, signed: bool, pos: int, width: int) returns (r: Outcome<int>)
    ensures r.BadWidth? <==> width < 0 || width > 64
    ensures !r.BadOffset?
    ensures r.Done? ==>
              r.value == if pos >= 0 && width > 0 && pos < 8 * |s| then Unpacked(s, o, signed, pos, width) else 0
  {
    if width < 0 || width > 64 {
      return BadWidth;
    }
    var result := 0;
    if pos >= 0 && width > 0 && pos < 8 * |s| {
      var w := if pos + width > 8 * |s| then 8 * |s| - pos else width;
      var vec := new Byte[|s|](i requires 0 <= i < |s| => s[i]);
      assert vec[..] == s;
      result := BitInt(vec, o, pos, w);
      if signed {
        result := SignExtend(result, w);
      }
    }
    r := Done(result);
  }

  function Unpacked(s: seq<Byte>, o: Order, signed: bool, pos: nat, width: nat): int
    requires 0 < width <= 64 && pos < 8 * |s|
  {
    var w := if pos + width > 8 * |s| then 8 * |s| - pos else width;
    var n := Wide(Field(s, o, pos, w));
    if signed then SignExtend(n, w) else n
  }

  /** What was packed is unpacked: exactly if it fits a signed field, and otherwise up to a power of two. */
  lemma PackRoundTrip(s: seq<Byte>, packed: seq<Byte>, o: Order, value: int, pos: nat, width: nat)
    requires 0 < width <= 64 && pos + width <= 8 * |s| && Written(s, packed, o, pos, width, value, width)
    ensures Unpacked(packed, o, false, pos, width) == Wide(value % Pow2(width))
    ensures width < 64 ==> Unpacked(packed, o, false, pos, width) == value % Pow2(width)
    ensures FitsSigned(value, width) ==> Unpacked(packed, o, true, pos, width) == value
  {
    FieldIsMod(packed, o, pos, width, value);
    if width < 64 {
      Pow2Of64(64);
      Pow2Grows(width, 63);
      WideOfSmall(value % Pow2(width));
    }
    if FitsSigned(value, width) {
      SignExtendRecovers(value, width);
    }
  }

  /** Two fields that do not meet do not disturb each other. */
  lemma {:induction false} PackLeavesOthers(s: seq<Byte>, packed: seq<Byte>, o: Order, value: int, pos: nat, width: nat, p: nat, w: nat, i: nat)
    requires Written(s, packed, o, pos, width, value, width) && p + w <= 8 * |s| && i <= w
    requires p + w <= pos || pos + width <= p
    ensures FieldFrom(packed, o, p, w, i) == FieldFrom(s, o, p, w, i)
    decreases w - i
  {
    if i < w {
      PackLeavesOthers(s, packed, o, value, pos, width, p, w, i + 1);
    }
  }
}
