/**
 * The rank structure of the protein FM index: one level of a wavelet tree
 * over the amino-acid alphabet. Construction splits the alphabet (a 128-bit
 * membership mask held in two `long`s) into a lower and an upper half and
 * stores, for every text position, whether its symbol lies in the upper
 * half; queries count those marks in a prefix of the text.
 */
module FmIndex {
  import opened BitWords
  import opened WordBits

  /** A Java `byte`. */
  newtype JByte = x: int | -128 <= x < 128

  /** A query answer, or the `ArrayIndexOutOfBoundsException` it throws. */
  datatype Outcome<T> = Ok(value: T) | OutOfBounds

  // ---------------------------------------------------------------------
  // The alphabet split.

  /** Symbol `c` is in the alphabet mask `lo`/`hi` (bit `c` of the 128). */
  predicate Member(lo: bv64, hi: bv64, c: int)
    requires 0 <= c < 128
  {
    if c < 64 then IsSet(lo, c) else IsSet(hi, c - 64)
  }

  /** The number of alphabet members below symbol `c`. */
  function Below(lo: bv64, hi: bv64, c: int): nat
    requires 0 <= c <= 128
  {
    if c == 0 then 0 else Below(lo, hi, c - 1) + (if Member(lo, hi, c - 1) then 1 else 0)
  }

  /** The size of the alphabet. */
  function Size(lo: bv64, hi: bv64): nat {
    Below(lo, hi, 128)
  }

  /** Java's `(size - 1) >> 1`; the floor division agrees with it at -1 too. */
  function Half(lo: bv64, hi: bv64): int {
    (Size(lo, hi) - 1) / 2
  }

  /** Symbol `c` is a member with more than `Half` members below it. */
  predicate Kept(lo: bv64, hi: bv64, c: int)
    requires 0 <= c < 128
  {
    Member(lo, hi, c) && Below(lo, hi, c) > Half(lo, hi)
  }

  /** The number of kept symbols below `c`. */
  function KeptBelow(lo: bv64, hi: bv64, c: int): nat
    requires 0 <= c <= 128
  {
    if c == 0 then 0 else KeptBelow(lo, hi, c - 1) + (if Kept(lo, hi, c - 1) then 1 else 0)
  }

  lemma {:induction false} BelowLow(lo: bv64, hi: bv64, c: int)
    requires 0 <= c <= 64
    ensures Below(lo, hi, c) == Ones(lo, c)
  {
    if c > 0 {
      BelowLow(lo, hi, c - 1);
    }
  }

  lemma {:induction false} BelowHigh(lo: bv64, hi: bv64, k: int)
    requires 0 <= k <= 64
    ensures Below(lo, hi, 64 + k) == Ones(lo, 64) + Ones(hi, k)
  {
    if k == 0 {
      BelowLow(lo, hi, 64);
    } else {
      BelowHigh(lo, hi, k - 1);
    }
  }

  /** The alphabet size is the sum of the population counts of the two words. */
  lemma SizeIsPopcount(lo: bv64, hi: bv64)
    ensures Size(lo, hi) == Popcount(lo) + Popcount(hi)
  {
    BelowHigh(lo, hi, 64);
  }

  lemma {:induction false} BelowMono(lo: bv64, hi: bv64, a: int, b: int)
    requires 0 <= a <= b <= 128
    ensures Below(lo, hi, a) <= Below(lo, hi, b)
    decreases b - a
  {
    if a < b {
      BelowMono(lo, hi, a, b - 1);
    }
  }

  /** A member above a kept symbol is kept: the kept symbols are the highest. */
  lemma KeptUpward(lo: bv64, hi: bv64, c: int, d: int)
    requires 0 <= c < d < 128 && Kept(lo, hi, c) && Member(lo, hi, d)
    ensures Kept(lo, hi, d)
  {
    BelowMono(lo, hi, c + 1, d);
  }

  lemma {:induction false} KeptBelowValue(lo: bv64, hi: bv64, c: int)
    requires 0 <= c <= 128
    ensures KeptBelow(lo, hi, c) == if Below(lo, hi, c) > Half(lo, hi) then Below(lo, hi, c) - Half(lo, hi) - 1 else 0
  {
    if c > 0 {
      KeptBelowValue(lo, hi, c - 1);
    }
  }

  /** Exactly `size / 2` symbols are kept: the upper half of the alphabet. */
  lemma KeptCount(lo: bv64, hi: bv64)
    ensures KeptBelow(lo, hi, 128) == Size(lo, hi) / 2
  {
    KeptBelowValue(lo, hi, 128);
  }

  // ---------------------------------------------------------------------
  // Counting marks.

  /** The number of true marks among the first `n`. */
  function Count(bits: seq<bool>, n: int): nat
    requires 0 <= n <= |bits|
  {
    if n == 0 then 0 else Count(bits, n - 1) + (if bits[n - 1] then 1 else 0)
  }

  lemma {:induction false} CountBound(bits: seq<bool>, n: int)
    requires 0 <= n <= |bits|
    ensures Count(bits, n) <= n
  {
    if n > 0 {
      CountBound(bits, n - 1);
    }
  }

  /** `Count` is the size of the set of marked positions below `n`. */
  lemma {:induction false} CountIsSize(bits: seq<bool>, n: int)
    requires 0 <= n <= |bits|
    ensures Count(bits, n) == |set j | 0 <= j < n && bits[j]|
  {
    if n > 0 {
      CountIsSize(bits, n - 1);
      var prev := set j | 0 <= j < n - 1 && bits[j];
      if bits[n - 1] {
        assert (set j | 0 <= j < n && bits[j]) == prev + {n - 1};
      } else {
        assert (set j | 0 <= j < n && bits[j]) == prev;
      }
    }
  }

  // ---------------------------------------------------------------------
  // Words of the bit field.

  /**
   * Bits `0 .. n - 1` of `w` are the marks `base .. base + n - 1`, and its
   * bits `n .. 63` are clear.
   */
  ghost predicate Holds(w: bv64, bits: seq<bool>, base: int, n: int)
    requires 0 <= base && 0 <= n <= 64 && base + n <= |bits|
  {
    forall q :: 0 <= q < 64 ==> (IsSet(w, q) <==> q < n && bits[base + q])
  }

  /** How many of the first `i` positions fall in word `c`. */
  function Filled(i: int, c: int): int {
    if i - 64 * c < 0 then 0 else if i - 64 * c > 64 then 64 else i - 64 * c
  }

  lemma ZeroHolds(bits: seq<bool>, base: int)
    requires 0 <= base <= |bits|
    ensures Holds(0, bits, base, 0)
  {
    forall q | 0 <= q < 64
      ensures !IsSet(0, q)
    {
      NoneSet(q);
    }
  }

  /** Or-ing the next mark in at position `n` extends the word by one mark. */
  lemma PutHolds(w: bv64, b: bv64, bits: seq<bool>, base: int, n: int)
    requires 0 <= base && 0 <= n < 64 && base + n < |bits|
    requires Holds(w, bits, base, n)
    requires b == if bits[base + n] then 1 else 0
    ensures Holds(Put(w, b, n), bits, base, n + 1)
  {
    forall q | 0 <= q < 64
      ensures IsSet(Put(w, b, n), q) <==> q < n + 1 && bits[base + q]
    {
      PutBit(w, b, n, q);
    }
  }

  lemma {:induction false} HoldsPrefix(w: bv64, bits: seq<bool>, base: int, n: int, k: int)
    requires 0 <= base && 0 <= k <= n <= 64 && base + n <= |bits|
    requires Holds(w, bits, base, n)
    ensures Ones(w, k) + Count(bits, base) == Count(bits, base + k)
  {
    if k > 0 {
      HoldsPrefix(w, bits, base, n, k - 1);
      assert IsSet(w, k - 1) <==> bits[base + k - 1];
    }
  }

  lemma {:induction false} HoldsTail(w: bv64, bits: seq<bool>, base: int, n: int, k: int)
    requires 0 <= base && 0 <= n <= k <= 64 && base + n <= |bits|
    requires Holds(w, bits, base, n)
    ensures Ones(w, k) == Ones(w, n)
  {
    if k > n {
      HoldsTail(w, bits, base, n, k - 1);
      assert !IsSet(w, k - 1);
    }
  }

  /** A word holding `n` marks has as many ones as those marks. */
  lemma HoldsOnes(w: bv64, bits: seq<bool>, base: int, n: int)
    requires 0 <= base && 0 <= n <= 64 && base + n <= |bits|
    requires Holds(w, bits, base, n)
    ensures Ones(w, 64) + Count(bits, base) == Count(bits, base + n)
  {
    HoldsPrefix(w, bits, base, n, n);
    HoldsTail(w, bits, base, n, 64);
  }

  /** Every word holds the marks of the first `i` positions that fall in it. */
  ghost predicate WordsHold(words: seq<bv64>, bits: seq<bool>, i: int)
    requires 0 <= i <= |bits| && |words| == |bits| / 64 + 1
  {
    forall c :: 0 <= c < |words| ==> Holds(words[c], bits, 64 * c, Filled(i, c))
  }

  /** Every word that starts below position `i` has the prefix count in front of it. */
  ghost predicate SumsHold(sums: seq<int>, bits: seq<bool>, i: int)
    requires 0 <= i <= |bits| && |sums| == |bits| / 64 + 1
  {
    sums[0] == 0 && forall c :: 0 <= c < |sums| && 64 * c < i ==> sums[c] == Count(bits, 64 * c)
  }

  lemma StartWords(words: seq<bv64>, bits: seq<bool>)
    requires |words| == |bits| / 64 + 1 && forall c :: 0 <= c < |words| ==> words[c] == 0
    ensures WordsHold(words, bits, 0)
  {
    forall c | 0 <= c < |words|
      ensures Holds(words[c], bits, 64 * c, Filled(0, c))
    {
      ZeroHolds(bits, 64 * c);
    }
  }

  /** Storing the mark of position `i` in its word advances the invariant. */
  lemma StepWords(words: seq<bv64>, bits: seq<bool>, i: int, b: bv64)
    requires 0 <= i < |bits| && |words| == |bits| / 64 + 1
    requires WordsHold(words, bits, i)
    requires b == if bits[i] then 1 else 0
    ensures WordsHold(words[i / 64 := Put(words[i / 64], b, i % 64)], bits, i + 1)
  {
    var cell := i / 64;
    PutHolds(words[cell], b, bits, 64 * cell, i % 64);
  }

  /** Clearing the word of a fresh block keeps the invariant. */
  lemma ClearWord(words: seq<bv64>, bits: seq<bool>, i: int)
    requires 0 <= i < |bits| && |words| == |bits| / 64 + 1 && i % 64 == 0
    requires WordsHold(words, bits, i)
    ensures WordsHold(words[i / 64 := 0], bits, i)
  {
    ZeroHolds(bits, i);
  }

  /** The prefix count of a new block is the previous one plus the previous word's ones. */
  lemma StepSums(words: seq<bv64>, sums: seq<int>, bits: seq<bool>, i: int)
    requires 0 < i < |bits| && i % 64 == 0
    requires |words| == |bits| / 64 + 1 && |sums| == |words|
    requires WordsHold(words, bits, i + 1) && SumsHold(sums, bits, i)
    ensures SumsHold(sums[i / 64 := sums[i / 64 - 1] + Popcount(words[i / 64 - 1])], bits, i + 1)
  {
    var cell := i / 64;
    assert Filled(i + 1, cell - 1) == 64;
    HoldsOnes(words[cell - 1], bits, 64 * (cell - 1), 64);
  }

  lemma KeepSums(sums: seq<int>, bits: seq<bool>, i: int)
    requires 0 <= i < |bits| && (i % 64 != 0 || i == 0) && |sums| == |bits| / 64 + 1
    requires SumsHold(sums, bits, i)
    ensures SumsHold(sums, bits, i + 1)
  {
  }

  // ---------------------------------------------------------------------
  // The clearing loop of the constructor.

  /** The mask `lo`/`hi` is `lo0`/`hi0` with the symbols below `i` removed. */
  ghost predicate Dropped(lo0: bv64, hi0: bv64, lo: bv64, hi: bv64, i: int)
    requires 0 <= i <= 128
  {
    forall c :: 0 <= c < 128 ==> (Member(lo, hi, c) <==> Member(lo0, hi0, c) && i <= c)
  }

  /** Clearing bit `i` of the mask removes symbol `i`. */
  lemma DropStep(lo0: bv64, hi0: bv64, lo: bv64, hi: bv64, i: int)
    requires 0 <= i < 128 && Dropped(lo0, hi0, lo, hi, i)
    ensures i < 64 ==> Dropped(lo0, hi0, Clear(lo, i), hi, i + 1)
    ensures 64 <= i ==> Dropped(lo0, hi0, lo, Clear(hi, i - 64), i + 1)
  {
    hide Clear, Pos, BitAt;
    if i < 64 {
      forall c | 0 <= c < 128
        ensures Member(Clear(lo, i), hi, c) <==> Member(lo0, hi0, c) && i + 1 <= c
      {
        assert Member(lo, hi, c) <==> Member(lo0, hi0, c) && i <= c;
        if c < 64 {
          ClearBit(lo, i, c);
        }
      }
    } else {
      forall c | 0 <= c < 128
        ensures Member(lo, Clear(hi, i - 64), c) <==> Member(lo0, hi0, c) && i + 1 <= c
      {
        assert Member(lo, hi, c) <==> Member(lo0, hi0, c) && i <= c;
        if 64 <= c {
          ClearBit(hi, i - 64, c - 64);
        }
      }
    }
  }

  /** The bit read before clearing is the membership of symbol `i`. */
  lemma DropRead(lo0: bv64, hi0: bv64, lo: bv64, hi: bv64, i: int, w: bv64, b: bv64)
    requires 0 <= i < 128 && Dropped(lo0, hi0, lo, hi, i)
    requires w == (if i < 64 then lo else hi) && b == Asr(w, Pos(i % 64)) & 1
    ensures b as int == if Member(lo0, hi0, i) then 1 else 0
  {
    hide Asr, Pos, BitAt;
    ReadBit(w, i % 64);
    assert Member(lo, hi, i) <==> Member(lo0, hi0, i);
    BitValue(b);
  }

  lemma DropStart(lo0: bv64, hi0: bv64)
    ensures Dropped(lo0, hi0, lo0, hi0, 0)
  {
  }

  /** The mask `lo`/`hi` holds exactly the kept symbols of `lo0`/`hi0`. */
  ghost predicate Upper(lo0: bv64, hi0: bv64, lo: bv64, hi: bv64) {
    forall c :: 0 <= c < 128 ==> (Member(lo, hi, c) <==> Kept(lo0, hi0, c))
  }

  /**
   * When the loop stops (all 128 symbols seen, or more than `half` members
   * counted), the symbols left are exactly the kept ones.
   */
  lemma DropDone(lo0: bv64, hi0: bv64, lo: bv64, hi: bv64, i: int)
    requires 0 <= i <= 128 && Dropped(lo0, hi0, lo, hi, i)
    requires i == 128 || Below(lo0, hi0, i) > Half(lo0, hi0)
    requires i > 0 ==> Below(lo0, hi0, i - 1) <= Half(lo0, hi0)
    ensures Upper(lo0, hi0, lo, hi)
  {
    forall c | 0 <= c < 128
      ensures Member(lo, hi, c) <==> Kept(lo0, hi0, c)
    {
      if c < i {
        BelowMono(lo0, hi0, c, i - 1);
      } else {
        BelowMono(lo0, hi0, i, c);
      }
    }
  }

  /** The bit read for a text symbol `t` is one exactly when `t` is kept. */
  lemma ReadKept(lo0: bv64, hi0: bv64, lo: bv64, hi: bv64, t: int, w: bv64, b: bv64)
    requires 0 <= t < 128 && Upper(lo0, hi0, lo, hi)
    requires w == (if t < 64 then lo else hi) && b == Asr(w, Pos(t % 64)) & 1
    ensures b == if Kept(lo0, hi0, t) then 1 else 0
  {
    hide Asr, Pos, BitAt;
    ReadBit(w, t % 64);
    assert Member(lo, hi, t) <==> Kept(lo0, hi0, t);
  }

  lemma StartSums(sums: seq<int>, bits: seq<bool>)
    requires |sums| == |bits| / 64 + 1 && sums[0] == 0
    ensures SumsHold(sums, bits, 0)
  {
  }

  // ---------------------------------------------------------------------
  // The structure.

  class Rank {
    /** The text length. */
    const length: int
    /** One bit per text position, 64 to a word. */
    const bitfield: array<bv64>
    /** The number of ones in front of each word. */
    const sums: array<int>
    /** The marks the structure represents, one per text position. */
    ghost const bits: seq<bool>

    ghost predicate Valid()
      reads this, bitfield, sums
    {
      |bits| == length &&
      bitfield.Length == length / 64 + 1 && sums.Length == length / 64 + 1 &&
      WordsHold(bitfield[..], bits, length) && SumsHold(sums[..], bits, length)
    }

    /**
     * Builds the structure over `text` for the alphabet mask `aAlphabet[0]`
     * (symbols 0..63) and `aAlphabet[1]` (symbols 64..127): position `i` is
     * marked exactly when `text[i]` is one of the upper half of the members.
     */
    constructor (text: seq<JByte>, aAlphabet: array<bv64>)
      requires aAlphabet.Length >= 2
      requires forall i :: 0 <= i < |text| ==> 0 <= text[i]
      ensures Valid() && length == |text|
      ensures forall i :: 0 <= i < |text| ==> (bits[i] <==> Kept(aAlphabet[0], aAlphabet[1], text[i] as int))
    {
      var alphabet := new bv64[2];
      alphabet[0] := aAlphabet[0];
      alphabet[1] := aAlphabet[1];
      ghost var lo0, hi0 := aAlphabet[0], aAlphabet[1];
      DropLower(alphabet);
      ghost var marks := seq(|text|, k requires 0 <= k < |text| => Kept(lo0, hi0, text[k] as int));
      var field, s := FillField(text, alphabet, lo0, hi0, marks);
      length := |text|;
      bitfield := field;
      sums := s;
      bits := marks;
    }

    /**
     * The clearing loop of the constructor: removes the symbols up to and
     * including the member with `half` members below it, where `half` is
     * `(size - 1) >> 1`, leaving the upper `size / 2` members.
     */
    static method DropLower(alphabet: array<bv64>)
      requires alphabet.Length == 2
      modifies alphabet
      ensures Upper(old(alphabet[0]), old(alphabet[1]), alphabet[0], alphabet[1])
    {
      hide Dropped, Asr, Pos, Clear, BitAt, IsSet, Member, Kept, Ones, Popcount, Upper;
      ghost var lo0, hi0 := alphabet[0], alphabet[1];
      var half := (Popcount(alphabet[0]) + Popcount(alphabet[1]) - 1) / 2;
      SizeIsPopcount(lo0, hi0);
      var cnt := 0;
      DropStart(lo0, hi0);
      var i := 0;
      while i < 128 && cnt <= half
        invariant 0 <= i <= 128
        invariant cnt == Below(lo0, hi0, i)
        invariant i > 0 ==> Below(lo0, hi0, i - 1) <= half
        invariant Dropped(lo0, hi0, alphabet[0], alphabet[1], i)
      {
        var cell := i / 64;
        var pos := i % 64;
        var bit := Asr(alphabet[cell], Pos(pos)) & 1;
        DropRead(lo0, hi0, alphabet[0], alphabet[1], i, alphabet[cell], bit);
        DropStep(lo0, hi0, alphabet[0], alphabet[1], i);
        cnt := cnt + bit as int;
        alphabet[cell] := Clear(alphabet[cell], pos);
        i := i + 1;
      }
      DropDone(lo0, hi0, alphabet[0], alphabet[1], i);
    }

    /**
     * The filling loop of the constructor: one bit per text position, set
     * when the symbol is left in `alphabet`, and the prefix count in front
     * of every word.
     */
    static method FillField(text: seq<JByte>, alphabet: array<bv64>, ghost lo0: bv64, ghost hi0: bv64, ghost marks: seq<bool>)
      returns (field: array<bv64>, s: array<int>)
      requires alphabet.Length == 2 && Upper(lo0, hi0, alphabet[0], alphabet[1])
      requires forall i :: 0 <= i < |text| ==> 0 <= text[i]
      requires |marks| == |text| && forall k :: 0 <= k < |text| ==> (marks[k] <==> Kept(lo0, hi0, text[k] as int))
      ensures fresh(field) && fresh(s)
      ensures field.Length == |text| / 64 + 1 && s.Length == |text| / 64 + 1
      ensures WordsHold(field[..], marks, |text|) && SumsHold(s[..], marks, |text|)
    {
      hide *;
      var len := |text|;
      var fieldLen := (len / 64) + 1;
      field := new bv64[fieldLen](_ => 0);
      s := new int[fieldLen](_ => 0);
      s[0] := 0;
      StartWords(field[..], marks);
      StartSums(s[..], marks);
      var i := 0;
      while i < len
        invariant 0 <= i <= len
        invariant WordsHold(field[..], marks, i)
        invariant SumsHold(s[..], marks, i)
      {
        var cell := i / 64;
        var pos := i % 64;
        if pos == 0 {
          ClearWord(field[..], marks, i);
          field[cell] := 0;
        }
        var t := text[i] as int;
        var bit := Asr(alphabet[t / 64], Pos(t % 64)) & 1;
        ReadKept(lo0, hi0, alphabet[0], alphabet[1], t, alphabet[t / 64], bit);
        StepWords(field[..], marks, i, bit);
        field[cell] := Put(field[cell], bit, pos);
        if pos == 0 && i != 0 {
          StepSums(field[..], s[..], marks, i);
          s[cell] := s[cell - 1] + Popcount(field[cell - 1]);
        } else {
          KeepSums(s[..], marks, i);
        }
        i := i + 1;
      }
    }

    /**
     * The number of marked positions in `0 .. i` (with `counter`, the number
     * of unmarked ones), or `OutOfBounds` when `i` is not a text position.
     */
    function GetRank(i: int, counter: bool): (r: Outcome<int>)
      reads this, bitfield, sums
      requires Valid()
      ensures r.Ok? <==> 0 <= i < length
      ensures r.Ok? && !counter ==> r.value == Count(bits, i + 1)
      ensures r.Ok? && counter ==> r.value == i + 1 - Count(bits, i + 1)
    {
      if 0 <= i < length then
        RankWord(i);
        hide *;
        var cell := i / 64;
        var pos := i % 64;
        var masked := 63 - pos;
        var activeOnes := Shl(bitfield[cell], masked);
        var countOnes := sums[cell] + Popcount(activeOnes);
        if counter then Ok(i + 1 - countOnes) else Ok(countOnes)
      else
        OutOfBounds
    }

    /** The word of position `i` shifted by `63 - i % 64` counts the rest of the prefix. */
    lemma RankWord(i: int)
      requires Valid() && 0 <= i < length
      ensures i / 64 < bitfield.Length && i / 64 < sums.Length
      ensures sums[i / 64] + Ones(Shl(bitfield[i / 64], 63 - i % 64), 64) == Count(bits, i + 1)
    {
      var cell := i / 64;
      assert Holds(bitfield[..][cell], bits, 64 * cell, Filled(length, cell));
      ShlOnes(bitfield[cell], i % 64);
      HoldsPrefix(bitfield[cell], bits, 64 * cell, Filled(length, cell), i % 64 + 1);
    }

    /** The mark of position `i`, or `OutOfBounds` when `i` is not a text position. */
    function IsOne(i: int): (r: Outcome<bool>)
      reads this, bitfield, sums
      requires Valid()
      ensures r.Ok? <==> 0 <= i < length
      ensures r.Ok? ==> r.value == bits[i]
    {
      if 0 <= i < length then
        var cell := i / 64;
        var pos := i % 64;
        ReadBit(bitfield[cell], pos);
        assert Holds(bitfield[..][cell], bits, 64 * cell, Filled(length, cell));
        Ok(Asr(bitfield[cell], Pos(pos)) & 1 == 1)
      else
        OutOfBounds
    }

    /** The rank of the first position is its mark. */
    lemma RankFirst()
      requires Valid() && 0 < length
      ensures GetRank(0, false) == Ok(if IsOne(0).value then 1 else 0)
    {
    }

    /** Each step of the rank adds the mark of the new position. */
    lemma RankStep(i: int)
      requires Valid() && 0 <= i && i + 1 < length
      ensures GetRank(i + 1, false).value == GetRank(i, false).value + (if IsOne(i + 1).value then 1 else 0)
    {
    }

    /** The rank and the counter-rank of a position add up to the prefix length. */
    lemma RankSplit(i: int)
      requires Valid() && 0 <= i < length
      ensures GetRank(i, false).value + GetRank(i, true).value == i + 1
      ensures 0 <= GetRank(i, false).value <= i + 1
    {
      CountBound(bits, i + 1);
    }
  }
}
