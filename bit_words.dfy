/**
 * Java `long` words as 64-bit vectors: the arithmetic right shift, single-bit
 * tests, and the branch-free population count of the FM-index rank structure,
 * proved equal to a naive count of the set bits.
 */
module BitWords {

  /** Java's `>>` on a `long`: the vacated high bits are copies of the sign bit. */
  function Asr(x: bv64, k: bv7): bv64
    requires k < 64
  {
    if x & 0x8000_0000_0000_0000 == 0 then x >> k else (x >> k) | !(0xffff_ffff_ffff_ffff >> k)
  }

  /** Bit `p` of `w`, as the value 0 or 1. */
  function BitAt(w: bv64, p: bv7): bv64
    requires p < 64
  {
    (w >> p) & 1
  }

  /** The `bv7` whose value is `p`, built by counting up from zero. */
  function Count7(p: int): (r: bv7)
    requires 0 <= p < 64
    ensures r as int == p
  {
    if p == 0 then 0 else Count7(p - 1) + 1
  }

  /** An integer bit position as a shift amount. */
  function Pos(p: int): (r: bv7)
    requires 0 <= p < 64
    ensures r < 64
  {
    Count7(p)
  }

  lemma PosInt(p: int)
    requires 0 <= p < 64
    ensures Pos(p) as int == p
  {}

  lemma {:induction false} PosOf(c: bv7)
    requires c < 64
    ensures Pos(c as int) == c
  {
    if c > 0 {
      Pred7(c);
      PosOf(c - 1);
    }
  }

  lemma PosInj(p: int, q: int)
    requires 0 <= p < 64 && 0 <= q < 64
    ensures Pos(p) == Pos(q) <==> p == q
  {
    hide Pos;
    PosInt(p);
    PosInt(q);
  }

  lemma LessConv(k: bv7, s: bv7)
    requires k as int < s as int
    ensures k < s
  {}

  lemma PosLess(k: int, s: int)
    requires 0 <= k < s < 64
    ensures Pos(k) < Pos(s)
  {
    hide Pos;
    PosInt(k);
    PosInt(s);
    LessConv(Pos(k), Pos(s));
  }

  lemma AddNarrow(a: bv7, b: bv7)
    requires a as int + b as int < 64
    ensures a + b < 64 && (a + b) as int == a as int + b as int
  {}

  lemma PosAdd(s: int, j: int)
    requires 0 <= s && 0 <= j && s + j < 64
    ensures Pos(s + j) == Pos(s) + Pos(j)
  {
    hide Pos;
    PosInt(s);
    PosInt(j);
    AddNarrow(Pos(s), Pos(j));
    PosOf(Pos(s) + Pos(j));
  }

  /** Bit `p` of `w` is set; positions are plain integers here. */
  predicate IsSet(w: bv64, p: int)
    requires 0 <= p < 64
  {
    BitAt(w, Pos(p)) == 1
  }

  /** The number of set bits of `w` below position `n`: the reference count. */
  function Ones(w: bv64, n: int): nat
    requires 0 <= n <= 64
  {
    if n == 0 then 0 else Ones(w, n - 1) + (if IsSet(w, n - 1) then 1 else 0)
  }

  lemma {:induction false} OnesBound(w: bv64, n: int)
    requires 0 <= n <= 64
    ensures Ones(w, n) <= n
  {
    if n > 0 {
      OnesBound(w, n - 1);
    }
  }

  // The three halving stages of the population count (Rank.java, popcount).

  /** Every 2-bit field holds the number of ones it had. */
  function Pairs(x: bv64): bv64 {
    x - (Asr(x, 1) & 0x5555_5555_5555_5555)
  }

  /** Every 4-bit field holds the number of ones it had. */
  function Nibbles(x: bv64): bv64 {
    (Pairs(x) & 0x3333_3333_3333_3333) + (Asr(Pairs(x), 2) & 0x3333_3333_3333_3333)
  }

  /** Every byte holds the number of ones it had. */
  function Bytes(x: bv64): bv64 {
    (Nibbles(x) + Asr(Nibbles(x), 4)) & 0x0f0f_0f0f_0f0f_0f0f
  }

  /**
   * The population count of a `long`: each 2-, 4- and 8-bit field first
   * receives the number of ones it holds, then the multiplication by
   * 0x0101010101010101 gathers the byte counts in the top byte.
   */
  function Popcount(x: bv64): (r: int)
    ensures r == Ones(x, 64)
    ensures 0 <= r <= 64
  {
    PopcountIsOnes(x);
    OnesBound(x, 64);
    Asr(Bytes(x) * 0x0101_0101_0101_0101, 56) as int
  }

  lemma PopcountIsOnes(x: bv64)
    ensures Asr(Bytes(x) * 0x0101_0101_0101_0101, 56) as int == Ones(x, 64)
  {
    PopcountCorrect(x);
    CountLink(x, 64);
  }


  /** The word computed by the population count holds the naive count. */
  lemma PopcountCorrect(x: bv64)
    ensures Asr(Bytes(x) * 0x0101_0101_0101_0101, 56) as int == CountIn(x, 0, 64)
  {
    BytesSmall(x);
    Gather(Bytes(x));
    CountBytes(x);
    ByteCount(x, 0);
    ByteCount(x, 8);
    ByteCount(x, 16);
    ByteCount(x, 24);
    ByteCount(x, 32);
    ByteCount(x, 40);
    ByteCount(x, 48);
    ByteCount(x, 56);
  }

  // ---------------------------------------------------------------------
  // Counting with `bv7` positions.

  /** The number of set bits of `x` at positions `lo..hi`. */
  function CountIn(x: bv64, lo: bv7, hi: bv7): nat
    requires lo <= hi <= 64
    decreases hi - lo
  {
    if lo == hi then 0 else CountIn(x, lo, hi - 1) + (if BitAt(x, hi - 1) == 1 then 1 else 0)
  }

  lemma {:induction false} Split(x: bv64, lo: bv7, mid: bv7, hi: bv7)
    requires lo <= mid <= hi <= 64
    ensures CountIn(x, lo, hi) == CountIn(x, lo, mid) + CountIn(x, mid, hi)
    decreases hi - mid
  {
    if mid < hi {
      Split(x, lo, mid, hi - 1);
    }
  }

  lemma CountTwo(x: bv64, a: bv7)
    requires a < 64 && a & 1 == 0
    ensures CountIn(x, a, a + 2) == (if BitAt(x, a) == 1 then 1 else 0) + (if BitAt(x, a + 1) == 1 then 1 else 0)
  {
    assert a + 2 - 1 == a + 1;
    assert CountIn(x, a, a + 1) == CountIn(x, a, a) + (if BitAt(x, a) == 1 then 1 else 0);
  }

  lemma CountBytes(x: bv64)
    ensures CountIn(x, 0, 64)
         == CountIn(x, 0, 8) + CountIn(x, 8, 16) + CountIn(x, 16, 24) + CountIn(x, 24, 32)
          + CountIn(x, 32, 40) + CountIn(x, 40, 48) + CountIn(x, 48, 56) + CountIn(x, 56, 64)
  {
    Split(x, 0, 8, 64);
    Split(x, 8, 16, 64);
    Split(x, 16, 24, 64);
    Split(x, 24, 32, 64);
    Split(x, 32, 40, 64);
    Split(x, 40, 48, 64);
    Split(x, 48, 56, 64);
  }

  lemma Pred7(c: bv7)
    requires 0 < c <= 64
    ensures (c - 1) as int == c as int - 1
  {}

  lemma CountStep(x: bv64, n: bv7)
    requires 0 < n <= 64
    ensures Ones(x, n as int) == Ones(x, (n - 1) as int) + (if BitAt(x, n - 1) == 1 then 1 else 0)
  {
    Pred7(n);
    PosOf(n - 1);
  }

  /** The reference count and the `bv7`-positioned count agree. */
  lemma {:induction false} CountLink(x: bv64, n: bv7)
    requires n <= 64
    ensures CountIn(x, 0, n) == Ones(x, n as int)
  {
    if n > 0 {
      CountLink(x, n - 1);
      CountStep(x, n);
    }
  }

  // ---------------------------------------------------------------------
  // Small fields, narrowed to bytes; their sums are read as integers only
  // through lemmas over plain byte variables.

  /** The field of `w` at `a` selected by mask `m`, as a byte. */
  function Cut(w: bv64, a: bv7, m: bv64): bv8
    requires a < 64 && m <= 255
  {
    CutFits(w, a, m);
    ((w >> a) & m) as bv8
  }

  lemma CutFits(w: bv64, a: bv7, m: bv64)
    requires a < 64 && m <= 255
    ensures (w >> a) & m < 256
  {}

  /** Byte addition, kept as one term so that equal sums stay syntactically equal. */
  function Plus(p: bv8, q: bv8): bv8 {
    p + q
  }

  lemma SmallAdd(p: bv8, q: bv8)
    requires p < 16 && q < 16
    ensures Plus(p, q) as int == p as int + q as int
  {}

  lemma Cut15(w: bv64, a: bv7, m: bv64)
    requires a < 64 && m <= 15
    ensures Cut(w, a, m) < 16
  {}

  lemma BitCut(x: bv64, a: bv7)
    requires a < 64
    ensures Cut(x, a, 1) as int == if BitAt(x, a) == 1 then 1 else 0
  {}

  // Stage one: pairs of bits.

  lemma AsrOdd(x: bv64)
    ensures Asr(x, 1) & 0x5555_5555_5555_5555 == (x >> 1) & 0x5555_5555_5555_5555
  {}

  lemma Interleave(x: bv64)
    ensures x == (x & 0x5555_5555_5555_5555) | (((x >> 1) & 0x5555_5555_5555_5555) << 1)
  {}

  lemma Disjoint(x: bv64)
    ensures (x & 0x5555_5555_5555_5555) & (((x >> 1) & 0x5555_5555_5555_5555) << 1) == 0
  {}

  lemma OrIsAdd(e: bv64, f: bv64)
    requires e & f == 0
    ensures e | f == e + f
  {}

  lemma ShlIsDouble(o: bv64)
    ensures o << 1 == o + o
  {}

  lemma Cancel(e: bv64, o: bv64)
    ensures (e + (o + o)) - o == e + o
  {}

  /** Subtracting the odd bits leaves the sum of the even and the odd bits. */
  lemma PairsAsSum(x: bv64)
    ensures Pairs(x) == (x & 0x5555_5555_5555_5555) + ((x >> 1) & 0x5555_5555_5555_5555)
  {
    AsrOdd(x);
    Interleave(x);
    Disjoint(x);
    OrIsAdd(x & 0x5555_5555_5555_5555, ((x >> 1) & 0x5555_5555_5555_5555) << 1);
    ShlIsDouble((x >> 1) & 0x5555_5555_5555_5555);
    Cancel(x & 0x5555_5555_5555_5555, (x >> 1) & 0x5555_5555_5555_5555);
  }

  lemma PairSum(x: bv64, a: bv7)
    requires a < 64 && a & 1 == 0
    ensures Cut((x & 0x5555_5555_5555_5555) + ((x >> 1) & 0x5555_5555_5555_5555), a, 3)
         == Plus(Cut(x, a, 1), Cut(x, a + 1, 1))
  {}

  lemma PairBv(x: bv64, a: bv7)
    requires a < 64 && a & 1 == 0
    ensures Cut(Pairs(x), a, 3) == Plus(Cut(x, a, 1), Cut(x, a + 1, 1))
  {
    PairsAsSum(x);
    PairSum(x, a);
  }

  /** Each 2-bit field of the first stage holds the number of ones in it. */
  lemma PairCount(x: bv64, a: bv7)
    requires a < 64 && a & 1 == 0
    ensures Cut(Pairs(x), a, 3) as int == CountIn(x, a, a + 2)
  {
    PairBv(x, a);
    Cut15(x, a, 1);
    Cut15(x, a + 1, 1);
    SmallAdd(Cut(x, a, 1), Cut(x, a + 1, 1));
    BitCut(x, a);
    BitCut(x, a + 1);
    CountTwo(x, a);
  }

  // Stage two: nibbles.

  lemma AsrEven(x1: bv64)
    ensures Asr(x1, 2) & 0x3333_3333_3333_3333 == (x1 >> 2) & 0x3333_3333_3333_3333
  {}

  lemma NibSum(x1: bv64, a: bv7)
    requires a < 64 && a & 3 == 0
    ensures Cut((x1 & 0x3333_3333_3333_3333) + ((x1 >> 2) & 0x3333_3333_3333_3333), a, 15)
         == Plus(Cut(x1, a, 3), Cut(x1, a + 2, 3))
  {}

  lemma NibbleBv(x: bv64, a: bv7)
    requires a < 64 && a & 3 == 0
    ensures Cut(Nibbles(x), a, 15) == Plus(Cut(Pairs(x), a, 3), Cut(Pairs(x), a + 2, 3))
  {
    AsrEven(Pairs(x));
    NibSum(Pairs(x), a);
  }

  lemma NibbleHalves(x: bv64, a: bv7)
    requires a < 64 && a & 3 == 0
    ensures Cut(Nibbles(x), a, 15) as int == CountIn(x, a, a + 2) + CountIn(x, a + 2, a + 4)
  {
    NibbleBv(x, a);
    Cut15(Pairs(x), a, 3);
    Cut15(Pairs(x), a + 2, 3);
    SmallAdd(Cut(Pairs(x), a, 3), Cut(Pairs(x), a + 2, 3));
    PairCount(x, a);
    PairCount(x, a + 2);
  }

  /** Each 4-bit field of the second stage holds the number of ones in it. */
  lemma NibbleCount(x: bv64, a: bv7)
    requires a < 64 && a & 3 == 0
    ensures Cut(Nibbles(x), a, 15) as int == CountIn(x, a, a + 4)
  {
    NibbleHalves(x, a);
    Split(x, a, a + 2, a + 4);
  }

  // Stage three: bytes.

  lemma NibblesClear(x1: bv64)
    ensures ((x1 & 0x3333_3333_3333_3333) + (Asr(x1, 2) & 0x3333_3333_3333_3333)) & 0x8888_8888_8888_8888 == 0
  {}

  /** No nibble count reaches 8, so the next arithmetic shift brings in no sign bits. */
  lemma NibblesSmall(x: bv64)
    ensures Nibbles(x) & 0x8888_8888_8888_8888 == 0
  {
    NibblesClear(Pairs(x));
  }

  lemma ByteStage(x2: bv64, a: bv7)
    requires a < 64 && a & 7 == 0
    requires x2 & 0x8888_8888_8888_8888 == 0
    ensures Cut((x2 + Asr(x2, 4)) & 0x0f0f_0f0f_0f0f_0f0f, a, 255) == Plus(Cut(x2, a, 15), Cut(x2, a + 4, 15))
  {}

  lemma ByteBv(x: bv64, a: bv7)
    requires a < 64 && a & 7 == 0
    ensures Cut(Bytes(x), a, 255) == Plus(Cut(Nibbles(x), a, 15), Cut(Nibbles(x), a + 4, 15))
  {
    NibblesSmall(x);
    ByteStage(Nibbles(x), a);
  }

  lemma ByteHalves(x: bv64, a: bv7)
    requires a < 64 && a & 7 == 0
    ensures Cut(Bytes(x), a, 255) as int == CountIn(x, a, a + 4) + CountIn(x, a + 4, a + 8)
  {
    ByteBv(x, a);
    Cut15(Nibbles(x), a, 15);
    Cut15(Nibbles(x), a + 4, 15);
    SmallAdd(Cut(Nibbles(x), a, 15), Cut(Nibbles(x), a + 4, 15));
    NibbleCount(x, a);
    NibbleCount(x, a + 4);
  }

  /** Each byte of the third stage holds the number of ones in it. */
  lemma ByteCount(x: bv64, a: bv7)
    requires a < 64 && a & 7 == 0
    ensures Cut(Bytes(x), a, 255) as int == CountIn(x, a, a + 8)
  {
    ByteHalves(x, a);
    Split(x, a, a + 4, a + 8);
  }

  lemma BytesSmall(x: bv64)
    ensures Bytes(x) & 0xf0f0_f0f0_f0f0_f0f0 == 0
  {}

  // The multiplication gathers the eight byte counts in the top byte: the
  // product by 0x01..01 with k one-bytes holds, in its byte k - 1, the sum of
  // the low k bytes.

  lemma Gather2(x3: bv64)
    requires x3 & 0xf0f0_f0f0_f0f0_f0f0 == 0
    ensures Cut(x3 * 0x0101, 8, 255) == Plus(Cut(x3, 0, 255), Cut(x3, 8, 255))
  {}

  lemma Gather3(x3: bv64)
    requires x3 & 0xf0f0_f0f0_f0f0_f0f0 == 0
    ensures Cut(x3 * 0x01_0101, 16, 255) == Plus(Cut(x3 * 0x0101, 8, 255), Cut(x3, 16, 255))
  {}

  lemma Gather4(x3: bv64)
    requires x3 & 0xf0f0_f0f0_f0f0_f0f0 == 0
    ensures Cut(x3 * 0x0101_0101, 24, 255) == Plus(Cut(x3 * 0x01_0101, 16, 255), Cut(x3, 24, 255))
  {}

  lemma Gather5(x3: bv64)
    requires x3 & 0xf0f0_f0f0_f0f0_f0f0 == 0
    ensures Cut(x3 * 0x01_0101_0101, 32, 255) == Plus(Cut(x3 * 0x0101_0101, 24, 255), Cut(x3, 32, 255))
  {}

  lemma Gather6(x3: bv64)
    requires x3 & 0xf0f0_f0f0_f0f0_f0f0 == 0
    ensures Cut(x3 * 0x0101_0101_0101, 40, 255) == Plus(Cut(x3 * 0x01_0101_0101, 32, 255), Cut(x3, 40, 255))
  {}

  lemma Gather7(x3: bv64)
    requires x3 & 0xf0f0_f0f0_f0f0_f0f0 == 0
    ensures Cut(x3 * 0x01_0101_0101_0101, 48, 255) == Plus(Cut(x3 * 0x0101_0101_0101, 40, 255), Cut(x3, 48, 255))
  {}

  lemma Gather8(x3: bv64)
    requires x3 & 0xf0f0_f0f0_f0f0_f0f0 == 0
    ensures Cut(x3 * 0x0101_0101_0101_0101, 56, 255) == Plus(Cut(x3 * 0x01_0101_0101_0101, 48, 255), Cut(x3, 56, 255))
  {}

  lemma GatherBv(x3: bv64)
    requires x3 & 0xf0f0_f0f0_f0f0_f0f0 == 0
    ensures Cut(x3 * 0x0101_0101_0101_0101, 56, 255)
         == Plus(Plus(Plus(Plus(Plus(Plus(Plus(
              Cut(x3, 0, 255), Cut(x3, 8, 255)), Cut(x3, 16, 255)), Cut(x3, 24, 255)), Cut(x3, 32, 255)), Cut(x3, 40, 255)), Cut(x3, 48, 255)), Cut(x3, 56, 255))
  {
    Gather2(x3);
    Gather3(x3);
    Gather4(x3);
    Gather5(x3);
    Gather6(x3);
    Gather7(x3);
    Gather8(x3);
  }

  lemma AddSmall(p: bv8, q: bv8)
    requires p < 128 && q < 16
    ensures Plus(p, q) as int == p as int + q as int
  {}

  lemma AddBound(p: bv8, q: bv8, n: bv8)
    requires p < n && q < 16 && n <= 112
    ensures Plus(p, q) < n + 16
  {}

  /** Eight byte counts below 16 add up without wrapping around. */
  lemma Sum8(b0: bv8, b1: bv8, b2: bv8, b3: bv8, b4: bv8, b5: bv8, b6: bv8, b7: bv8)
    requires b0 < 16 && b1 < 16 && b2 < 16 && b3 < 16 && b4 < 16 && b5 < 16 && b6 < 16 && b7 < 16
    ensures Plus(Plus(Plus(Plus(Plus(Plus(Plus(b0, b1), b2), b3), b4), b5), b6), b7) as int
         == b0 as int + b1 as int + b2 as int + b3 as int + b4 as int + b5 as int + b6 as int + b7 as int
  {
    AddBound(b0, b1, 16);
    AddSmall(b0, b1);
    AddBound(Plus(b0, b1), b2, 32);
    AddSmall(Plus(b0, b1), b2);
    AddBound(Plus(Plus(b0, b1), b2), b3, 48);
    AddSmall(Plus(Plus(b0, b1), b2), b3);
    AddBound(Plus(Plus(Plus(b0, b1), b2), b3), b4, 64);
    AddSmall(Plus(Plus(Plus(b0, b1), b2), b3), b4);
    AddBound(Plus(Plus(Plus(Plus(b0, b1), b2), b3), b4), b5, 80);
    AddSmall(Plus(Plus(Plus(Plus(b0, b1), b2), b3), b4), b5);
    AddBound(Plus(Plus(Plus(Plus(Plus(b0, b1), b2), b3), b4), b5), b6, 96);
    AddSmall(Plus(Plus(Plus(Plus(Plus(b0, b1), b2), b3), b4), b5), b6);
    AddSmall(Plus(Plus(Plus(Plus(Plus(Plus(b0, b1), b2), b3), b4), b5), b6), b7);
  }

  lemma ByteSmall(x3: bv64, a: bv7)
    requires a < 64 && a & 7 == 0 && x3 & 0xf0f0_f0f0_f0f0_f0f0 == 0
    ensures Cut(x3, a, 255) < 16
  {}

  /** The top byte is small, so Java's arithmetic shift reads it unchanged. */
  lemma TopRead(x3: bv64)
    requires x3 & 0xf0f0_f0f0_f0f0_f0f0 == 0
    ensures Asr(x3 * 0x0101_0101_0101_0101, 56) as int == Cut(x3 * 0x0101_0101_0101_0101, 56, 255) as int
  {}

  /** The top byte of the product, as an integer, is the sum of the eight bytes. */
  lemma Gather(x3: bv64)
    requires x3 & 0xf0f0_f0f0_f0f0_f0f0 == 0
    ensures Asr(x3 * 0x0101_0101_0101_0101, 56) as int
         == Cut(x3, 0, 255) as int + Cut(x3, 8, 255) as int + Cut(x3, 16, 255) as int + Cut(x3, 24, 255) as int
          + Cut(x3, 32, 255) as int + Cut(x3, 40, 255) as int + Cut(x3, 48, 255) as int + Cut(x3, 56, 255) as int
  {
    TopRead(x3);
    GatherBv(x3);
    ByteSmall(x3, 0);
    ByteSmall(x3, 8);
    ByteSmall(x3, 16);
    ByteSmall(x3, 24);
    ByteSmall(x3, 32);
    ByteSmall(x3, 40);
    ByteSmall(x3, 48);
    ByteSmall(x3, 56);
    Sum8(Cut(x3, 0, 255), Cut(x3, 8, 255), Cut(x3, 16, 255), Cut(x3, 24, 255),
         Cut(x3, 32, 255), Cut(x3, 40, 255), Cut(x3, 48, 255), Cut(x3, 56, 255));
  }
}
