/**
 * Single-bit updates and the left shift of a `long` word, stated over
 * integer bit positions: the facts the rank structure of the FM index needs
 * about `w & ~(1L << p)`, `w | (b << p)` and `w << s`.
 *
 * Each bit-vector fact is proved in a lemma of its own over plain variables;
 * the lemmas that combine them hide the bit-vector definitions, so that the
 * solver reasons about them as opaque facts.
 */
module WordBits {
  import opened BitWords

  // ---------------------------------------------------------------------
  // One bit of a combination of words.

  lemma AndBit(a: bv64, b: bv64, q: bv7)
    requires q < 64
    ensures BitAt(a & b, q) == BitAt(a, q) & BitAt(b, q)
  {}

  lemma OrBit(a: bv64, b: bv64, q: bv7)
    requires q < 64
    ensures BitAt(a | b, q) == BitAt(a, q) | BitAt(b, q)
  {}

  lemma NotBit(a: bv64, q: bv7)
    requires q < 64
    ensures BitAt(!a, q) == 1 - BitAt(a, q)
  {}

  lemma OneBit(p: bv7, q: bv7)
    requires p < 64 && q < 64
    ensures BitAt(1 << p, q) == if q == p then 1 else 0
  {}

  lemma ZeroBit(q: bv7)
    requires q < 64
    ensures BitAt(0, q) == 0
  {}

  lemma ZeroShl(p: bv7)
    requires p < 64
    ensures (0 as bv64) << p == 0
  {}

  lemma BitRange(w: bv64, q: bv7)
    requires q < 64
    ensures BitAt(w, q) == 0 || BitAt(w, q) == 1
  {}

  /** Java's `(x >> k) & 1` reads bit `k`, whatever the sign of `x`. */
  lemma AsrBit(x: bv64, k: bv7)
    requires k < 64
    ensures Asr(x, k) & 1 == BitAt(x, k)
  {}

  /** A bit read as a `long` and added to an `int` counter. */
  lemma BitValue(b: bv64)
    requires b == 0 || b == 1
    ensures b as int == if b == 1 then 1 else 0
  {}

  // ---------------------------------------------------------------------
  // Clearing and setting one bit, and the left shift.

  /** Java's `w & ~(1L << p)`: `w` with bit `p` cleared. */
  function Clear(w: bv64, p: int): bv64
    requires 0 <= p < 64
  {
    ClearBy(w, Pos(p))
  }

  function ClearBy(w: bv64, p: bv7): bv64
    requires p < 64
  {
    w & !(1 << p)
  }

  /** Java's `w | (b << p)`. */
  function Put(w: bv64, b: bv64, p: int): bv64
    requires 0 <= p < 64
  {
    w | (b << Pos(p))
  }

  /** Java's `w << s` on a `long`. */
  function Shl(w: bv64, s: int): bv64
    requires 0 <= s < 64
  {
    ShlBy(w, Pos(s))
  }

  function ShlBy(w: bv64, s: bv7): bv64
    requires s < 64
  {
    w << s
  }

  lemma ClearBv(w: bv64, m: bv64, n: bv64, p: bv7, q: bv7)
    requires p < 64 && q < 64 && n == 1 << p && m == !n
    ensures BitAt(w & m, q) == 1 <==> BitAt(w, q) == 1 && q != p
  {
    hide BitAt;
    AndBit(w, m, q);
    NotBit(n, q);
    OneBit(p, q);
    BitRange(w, q);
  }

  lemma ClearAt(w: bv64, p: bv7, q: bv7)
    requires p < 64 && q < 64
    ensures BitAt(ClearBy(w, p), q) == 1 <==> BitAt(w, q) == 1 && q != p
  {
    ClearBv(w, !(1 << p), 1 << p, p, q);
  }

  /** Clearing bit `p` keeps every other bit of `w` and no more. */
  lemma ClearBit(w: bv64, p: int, q: int)
    requires 0 <= p < 64 && 0 <= q < 64
    ensures IsSet(Clear(w, p), q) <==> IsSet(w, q) && q != p
  {
    hide BitAt, Pos, ClearBy;
    ClearAt(w, Pos(p), Pos(q));
    PosInj(p, q);
  }

  lemma ShiftBit(b: bv64, p: bv7, q: bv7)
    requires p < 64 && q < 64 && (b == 0 || b == 1)
    ensures BitAt(b << p, q) == if q == p then b else 0
  {}

  lemma SetBv(w: bv64, b: bv64, n: bv64, p: bv7, q: bv7)
    requires p < 64 && q < 64 && (b == 0 || b == 1) && n == b << p
    ensures BitAt(w | n, q) == 1 <==> BitAt(w, q) == 1 || (q == p && b == 1)
  {
    hide BitAt;
    OrBit(w, n, q);
    BitRange(w, q);
    ShiftBit(b, p, q);
  }

  /** Or-ing in a bit `b` at `p` adds bit `p` exactly when `b` is one. */
  lemma PutBit(w: bv64, b: bv64, p: int, q: int)
    requires 0 <= p < 64 && 0 <= q < 64 && (b == 0 || b == 1)
    ensures IsSet(Put(w, b, p), q) <==> IsSet(w, q) || (q == p && b == 1)
  {
    hide BitAt, Pos;
    PosInj(p, q);
    SetBv(w, b, b << Pos(p), Pos(p), Pos(q));
    PosInj(p, q);
  }

  /** Java's `(w >> p) & 1L` is one exactly when bit `p` is set, else zero. */
  lemma ReadBit(w: bv64, p: int)
    requires 0 <= p < 64
    ensures Asr(w, Pos(p)) & 1 == if IsSet(w, p) then 1 else 0
  {
    hide Asr, BitAt, Pos;
    AsrBit(w, Pos(p));
    BitRange(w, Pos(p));
  }

  /** The all-zero word has no bit set. */
  lemma NoneSet(q: int)
    requires 0 <= q < 64
    ensures !IsSet(0, q)
  {
    hide Pos;
    ZeroBit(Pos(q));
  }

  lemma ShlHighRaw(w: bv64, s: bv7, j: bv7)
    requires s < 64 && j < 64 && s + j < 64
    ensures BitAt(w << s, s + j) == BitAt(w, j)
  {}

  lemma ShlLowRaw(w: bv64, s: bv7, k: bv7)
    requires k < s < 64
    ensures BitAt(w << s, k) == 0
  {}

  lemma ShlHighBv(w: bv64, s: bv7, j: bv7)
    requires s < 64 && j < 64 && s + j < 64
    ensures BitAt(ShlBy(w, s), s + j) == BitAt(w, j)
  {
    ShlHighRaw(w, s, j);
  }

  lemma ShlLowBv(w: bv64, s: bv7, k: bv7)
    requires k < s < 64
    ensures BitAt(ShlBy(w, s), k) == 0
  {
    ShlLowRaw(w, s, k);
  }

  lemma ShlHighAt(w: bv64, s: int, j: int)
    requires 0 <= s && 0 <= j && s + j < 64
    ensures BitAt(Shl(w, s), Pos(s + j)) == BitAt(w, Pos(j))
  {
    hide BitAt, Pos, ShlBy;
    PosAdd(s, j);
    ShlHighBv(w, Pos(s), Pos(j));
  }

  lemma ShlLowAt(w: bv64, s: int, k: int)
    requires 0 <= k < s < 64
    ensures BitAt(Shl(w, s), Pos(k)) == 0
  {
    hide BitAt, Pos, ShlBy;
    PosLess(k, s);
    ShlLowBv(w, Pos(s), Pos(k));
  }

  /** `w << s` moves bit `j` of `w` to bit `s + j`. */
  lemma ShlHigh(w: bv64, s: int, j: int)
    requires 0 <= s && 0 <= j && s + j < 64
    ensures IsSet(Shl(w, s), s + j) <==> IsSet(w, j)
  {
    hide BitAt, Pos, Shl;
    ShlHighAt(w, s, j);
  }

  /** `w << s` clears the `s` lowest bits. */
  lemma ShlLow(w: bv64, s: int, k: int)
    requires 0 <= k < s < 64
    ensures !IsSet(Shl(w, s), k)
  {
    hide BitAt, Pos, Shl;
    ShlLowAt(w, s, k);
  }

  /** Bits `s .. s + n - 1` of `u` are bits `0 .. n - 1` of `w`. */
  ghost predicate Moved(u: bv64, w: bv64, s: int, n: int)
    requires 0 <= s && 0 <= n && s + n <= 64
  {
    forall j :: 0 <= j < n ==> (IsSet(u, s + j) <==> IsSet(w, j))
  }

  /** The `s` lowest bits of `u` are clear. */
  ghost predicate ClearBelow(u: bv64, s: int)
    requires 0 <= s <= 64
  {
    forall k :: 0 <= k < s ==> IsSet(u, k) == false
  }

  lemma ShlMoved(w: bv64, s: int, n: int)
    requires 0 <= s < 64 && 0 <= n && s + n <= 64
    ensures Moved(Shl(w, s), w, s, n)
  {
    hide BitAt, Shl, IsSet, Pos;
    forall j | 0 <= j < n
      ensures IsSet(Shl(w, s), s + j) <==> IsSet(w, j)
    {
      ShlHigh(w, s, j);
    }
  }

  lemma ShlClear(w: bv64, s: int)
    requires 0 <= s < 64
    ensures ClearBelow(Shl(w, s), s)
  {
    hide BitAt, Shl, IsSet, Pos;
    forall k | 0 <= k < s
      ensures !IsSet(Shl(w, s), k)
    {
      ShlLow(w, s, k);
    }
  }

  lemma {:induction false} MovedOnes(u: bv64, w: bv64, s: int, n: int)
    requires 0 <= s && 0 <= n && s + n <= 64 && Moved(u, w, s, n)
    ensures Ones(u, s + n) == Ones(u, s) + Ones(w, n)
  {
    if n > 0 {
      MovedOnes(u, w, s, n - 1);
      assert IsSet(u, s + (n - 1)) <==> IsSet(w, n - 1);
    }
  }

  lemma {:induction false} ClearOnes(u: bv64, n: int)
    requires 0 <= n <= 64 && ClearBelow(u, n)
    ensures Ones(u, n) == 0
  {
    if n > 0 {
      ClearOnes(u, n - 1);
    }
  }

  /**
   * Shifting left by `63 - pos` keeps exactly the bits `0 .. pos`: the
   * population count of the shifted word is the number of ones at or below
   * position `pos`.
   */
  lemma ShlOnes(w: bv64, pos: int)
    requires 0 <= pos < 64
    ensures Ones(Shl(w, 63 - pos), 64) == Ones(w, pos + 1)
  {
    hide *;
    ShlMoved(w, 63 - pos, pos + 1);
    ShlClear(w, 63 - pos);
    MovedOnes(Shl(w, 63 - pos), w, 63 - pos, pos + 1);
    ClearOnes(Shl(w, 63 - pos), 63 - pos);
  }
}
