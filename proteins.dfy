/**
 * A protein as an accession and an amino-acid sequence, with the
 * enzyme-dependent sequence statistics: cleavage sites, the observable
 * length, and the residues around a peptide. The enzyme is a cleavage
 * predicate supplied by the caller; peptide start positions (found by
 * pattern matching elsewhere) are given as input.
 */
module Proteins {

  datatype Protein = Protein(accession: string, sequence: string, decoy: bool)

  /** Proteins are compared by accession only. */
  predicate IsSameAs(p: Protein, q: Protein) {
    p.accession == q.accession
  }

  /** The indexing key of a protein. */
  function ProteinKey(p: Protein): string {
    p.accession
  }

  /** The number of residues. */
  function Length(p: Protein): nat {
    |p.sequence|
  }

  /**
   * Two proteins are the same exactly when their keys are equal, so the
   * comparison is an equivalence; decoy status and sequence play no part.
   */
  lemma SameAsKey(p: Protein, q: Protein, r: Protein)
    ensures IsSameAs(p, q) <==> ProteinKey(p) == ProteinKey(q)
    ensures IsSameAs(p, p)
    ensures IsSameAs(p, q) ==> IsSameAs(q, p)
    ensures IsSameAs(p, q) && IsSameAs(q, r) ==> IsSameAs(p, r)
    ensures IsSameAs(p, Protein(p.accession, r.sequence, r.decoy))
  {
  }

  // ---------------------------------------------------------------------
  // Cleavage sites.

  /** The number of sites `i` in `0 .. k - 1` where the enzyme cleaves between `s[i]` and `s[i + 1]`. */
  function SiteCount(s: string, cleaves: (char, char) -> bool, k: int): nat
    requires 0 <= k < |s|
  {
    if k == 0 then 0 else SiteCount(s, cleaves, k - 1) + (if cleaves(s[k - 1], s[k]) then 1 else 0)
  }

  /** All cleavage sites of the sequence (none in a sequence shorter than two). */
  function Sites(s: string, cleaves: (char, char) -> bool): nat {
    if |s| == 0 then 0 else SiteCount(s, cleaves, |s| - 1)
  }

  /** Counts the adjacent residue pairs the enzyme cleaves. */
  method NCleavageSites(s: string, cleaves: (char, char) -> bool) returns (n: int)
    ensures n == Sites(s, cleaves)
  {
    n := 0;
    var i := 0;
    while i < |s| - 1
      invariant 0 <= i <= if |s| == 0 then 0 else |s| - 1
      invariant |s| > 0 ==> n == SiteCount(s, cleaves, i)
      invariant |s| == 0 ==> n == 0
    {
      if cleaves(s[i], s[i + 1]) {
        n := n + 1;
      }
      i := i + 1;
    }
  }

  /** Whether the enzyme cleaves between `s[i]` and `s[i + 1]`. */
  predicate CutAt(s: string, cleaves: (char, char) -> bool, i: int)
    requires 0 <= i < |s| - 1
  {
    cleaves(s[i], s[i + 1])
  }

  lemma {:induction false} SiteCountIsSize(s: string, cleaves: (char, char) -> bool, k: int)
    requires 0 <= k < |s|
    ensures SiteCount(s, cleaves, k) == |set i | 0 <= i < k && CutAt(s, cleaves, i)|
  {
    if k > 0 {
      SiteCountIsSize(s, cleaves, k - 1);
      var prev := set i | 0 <= i < k - 1 && CutAt(s, cleaves, i);
      if cleaves(s[k - 1], s[k]) {
        assert (set i | 0 <= i < k && CutAt(s, cleaves, i)) == prev + {k - 1};
      } else {
        assert (set i | 0 <= i < k && CutAt(s, cleaves, i)) == prev;
      }
    }
  }

  lemma {:induction false} SiteCountBound(s: string, cleaves: (char, char) -> bool, k: int)
    requires 0 <= k < |s|
    ensures SiteCount(s, cleaves, k) <= k
  {
    if k > 0 {
      SiteCountBound(s, cleaves, k - 1);
    }
  }

  /**
   * The site count is the number of cleaved adjacent pairs, at most one per
   * pair of neighbours.
   */
  lemma SitesMeaning(s: string, cleaves: (char, char) -> bool)
    ensures |s| > 0 ==> Sites(s, cleaves) == |set i | 0 <= i < |s| - 1 && CutAt(s, cleaves, i)|
    ensures Sites(s, cleaves) <= if |s| == 0 then 0 else |s| - 1
  {
    if |s| > 0 {
      SiteCountIsSize(s, cleaves, |s| - 1);
      SiteCountBound(s, cleaves, |s| - 1);
    }
  }

  // ---------------------------------------------------------------------
  // Observable length.

  /**
   * The fragment boundaries within the first `k` residues: 0 and every
   * position `p < k` where the enzyme cleaves before `s[p]`.
   */
  function Bounds(s: string, cleaves: (char, char) -> bool, k: int): (b: seq<int>)
    requires 1 <= k <= |s|
    ensures 1 <= |b| && b[0] == 0 && b[|b| - 1] < k
    ensures forall j :: 0 <= j < |b| - 1 ==> b[j] < b[j + 1]
  {
    if k == 1 then [0]
    else if cleaves(s[k - 2], s[k - 1]) then Bounds(s, cleaves, k - 1) + [k - 1]
    else Bounds(s, cleaves, k - 1)
  }

  /** The length of a fragment counted when it is at most `max` long. */
  function Keep(len: int, max: real): int {
    if len as real <= max then len else 0
  }

  /** The summed length of the closed fragments between consecutive boundaries of `b`. */
  function Closed(b: seq<int>, max: real): int {
    if |b| <= 1 then 0 else Closed(b[..|b| - 1], max) + Keep(b[|b| - 1] - b[|b| - 2], max)
  }

  /**
   * The observable length: the fragments between cleavage sites that are
   * at most `max` long, plus the final fragment when it is shorter than
   * `max`. An empty sequence counts one residue when `1 < max`.
   */
  function Observable(s: string, cleaves: (char, char) -> bool, max: real): int {
    if |s| == 0 then (if 1.0 < max then 1 else 0)
    else
      var b := Bounds(s, cleaves, |s|);
      var last := |s| - b[|b| - 1];
      Closed(b, max) + (if (last as real) < max then last else 0)
  }

  /**
   * After the residue pairs before position `i`: `temp` is the length of
   * the open fragment and `length` the sum over the closed ones.
   */
  ghost predicate Scanned(s: string, cleaves: (char, char) -> bool, max: real, i: int, length: int, temp: int)
    requires 0 <= i < |s|
  {
    var b := Bounds(s, cleaves, i + 1);
    temp == i + 1 - b[|b| - 1] && length == Closed(b, max)
  }

  lemma ScannedStep(s: string, cleaves: (char, char) -> bool, max: real, i: int, length: int, temp: int)
    requires 0 <= i < |s| - 1 && Scanned(s, cleaves, max, i, length, temp)
    ensures cleaves(s[i], s[i + 1]) ==> Scanned(s, cleaves, max, i + 1, length + Keep(temp, max), 1)
    ensures !cleaves(s[i], s[i + 1]) ==> Scanned(s, cleaves, max, i + 1, length, temp + 1)
  {
    var b := Bounds(s, cleaves, i + 1);
    if cleaves(s[i], s[i + 1]) {
      var b' := b + [i + 1];
      assert Bounds(s, cleaves, i + 2) == b';
      assert b'[..|b'| - 1] == b;
    }
  }

  /** Sums the observable fragment lengths in one pass over the residue pairs. */
  method ObservableLength(s: string, cleaves: (char, char) -> bool, pepMaxLength: real) returns (length: int)
    ensures length == Observable(s, cleaves, pepMaxLength)
  {
    length := 0;
    var tempLength := 1;
    var i := 0;
    while i < |s| - 1
      invariant 0 <= i <= if |s| == 0 then 0 else |s| - 1
      invariant |s| == 0 ==> length == 0 && tempLength == 1
      invariant |s| > 0 ==> Scanned(s, cleaves, pepMaxLength, i, length, tempLength)
    {
      ScannedStep(s, cleaves, pepMaxLength, i, length, tempLength);
      if cleaves(s[i], s[i + 1]) {
        if tempLength as real <= pepMaxLength {
          length := length + tempLength;
        }
        tempLength := 0;
      }
      tempLength := tempLength + 1;
      i := i + 1;
    }
    if tempLength as real < pepMaxLength {
      length := length + tempLength;
    }
  }

  lemma {:induction false} ClosedBound(b: seq<int>, max: real)
    requires 1 <= |b| && forall j :: 0 <= j < |b| - 1 ==> b[j] < b[j + 1]
    ensures 0 <= Closed(b, max) <= b[|b| - 1] - b[0]
  {
    if |b| > 1 {
      ClosedBound(b[..|b| - 1], max);
    }
  }

  /** The observable part of a non-empty sequence is never longer than the sequence. */
  lemma ObservableBound(s: string, cleaves: (char, char) -> bool, max: real)
    requires |s| > 0
    ensures 0 <= Observable(s, cleaves, max) <= |s|
  {
    ClosedBound(Bounds(s, cleaves, |s|), max);
  }

  /**
   * Measured by the protein's length: a non-empty protein has fewer
   * cleavage sites than residues, an observable length of at most its
   * length, and all of it observable when it is shorter than the maximum.
   */
  lemma ProteinBounds(p: Protein, cleaves: (char, char) -> bool, max: real)
    requires Length(p) > 0
    ensures Sites(p.sequence, cleaves) < Length(p)
    ensures 0 <= Observable(p.sequence, cleaves, max) <= Length(p)
    ensures (Length(p) as real) < max ==> Observable(p.sequence, cleaves, max) == Length(p)
  {
    SitesMeaning(p.sequence, cleaves);
    ObservableBound(p.sequence, cleaves, max);
    if (Length(p) as real) < max {
      ObservableAll(p.sequence, cleaves, max);
    }
  }

  lemma {:induction false} BoundsCount(s: string, cleaves: (char, char) -> bool, k: int)
    requires 1 <= k <= |s|
    ensures |Bounds(s, cleaves, k)| == SiteCount(s, cleaves, k - 1) + 1
  {
    if k > 1 {
      BoundsCount(s, cleaves, k - 1);
    }
  }

  /** A non-empty sequence falls into one more fragment than it has cleavage sites. */
  lemma FragmentCount(s: string, cleaves: (char, char) -> bool)
    requires |s| > 0
    ensures |Bounds(s, cleaves, |s|)| == Sites(s, cleaves) + 1
  {
    BoundsCount(s, cleaves, |s|);
  }

  /** With no length limit in the way every residue of a non-empty sequence is observable. */
  lemma {:induction false} ClosedAll(b: seq<int>, max: real)
    requires 1 <= |b| && forall j :: 0 <= j < |b| - 1 ==> b[j] < b[j + 1]
    requires (b[|b| - 1] - b[0]) as real <= max
    ensures Closed(b, max) == b[|b| - 1] - b[0]
  {
    if |b| > 1 {
      ClosedBound(b[..|b| - 1], max);
      ClosedAll(b[..|b| - 1], max);
    }
  }

  lemma ObservableAll(s: string, cleaves: (char, char) -> bool, max: real)
    requires |s| > 0 && (|s| as real) < max
    ensures Observable(s, cleaves, max) == |s|
  {
    ClosedBound(Bounds(s, cleaves, |s|), max);
    ClosedAll(Bounds(s, cleaves, |s|), max);
  }

  // ---------------------------------------------------------------------
  // Surrounding residues.

  /** The residues at positions `from .. to - 1` that lie inside the sequence. */
  function Window(s: string, from: int, to: int): (w: string)
    ensures |w| <= if to - from < 0 then 0 else to - from
  {
    var lo := if from < 0 then 0 else from;
    var hi := if to > |s| then |s| else to;
    if lo < hi then s[lo..hi] else ""
  }

  /** Collects the residues at positions `from .. to - 1` that lie inside the sequence. */
  method Collect(s: string, from: int, to: int) returns (sub: string)
    ensures sub == Window(s, from, to)
  {
    sub := "";
    var aa := from;
    while aa < to
      invariant from <= aa && (from <= to ==> aa <= to)
      invariant to < from ==> aa == from
      invariant sub == Window(s, from, aa)
      decreases if to < aa then 0 else to - aa
    {
      if aa >= 0 && aa < |s| {
        assert from <= 0 ==> s[0..aa + 1] == s[0..aa] + [s[aa]];
        assert from > 0 ==> s[from..aa + 1] == s[from..aa] + [s[aa]];
        sub := sub + [s[aa]];
      }
      aa := aa + 1;
    }
  }

  /** The `nAA` residues before and after a peptide of length `pepLen` at the 1-based `start`. */
  function Around(s: string, pepLen: int, nAA: int, start: int): (string, string) {
    (Window(s, start - 1 - nAA, start - 1), Window(s, start - 1 + pepLen, start - 1 + pepLen + nAA))
  }

  /**
   * Maps every 1-based start of a peptide of length `pepLen` to the `nAA`
   * residues before it and the `nAA` residues after it, clipped to the
   * sequence.
   */
  method SurroundingAA(s: string, pepLen: int, nAA: int, starts: seq<int>) returns (result: map<int, (string, string)>)
    ensures result.Keys == set i | 0 <= i < |starts| :: starts[i]
    ensures forall st :: st in result ==> result[st] == Around(s, pepLen, nAA, st)
  {
    result := map[];
    var k := 0;
    while k < |starts|
      invariant 0 <= k <= |starts|
      invariant result.Keys == set i | 0 <= i < k :: starts[i]
      invariant forall st :: st in result ==> result[st] == Around(s, pepLen, nAA, st)
    {
      var startIndex := starts[k];
      var stringIndex := startIndex - 1;
      var before := Collect(s, stringIndex - nAA, stringIndex);
      var after := Collect(s, stringIndex + pepLen, stringIndex + pepLen + nAA);
      result := result[startIndex := (before, after)];
      k := k + 1;
    }
  }

  /** Each side of the surroundings has at most `nAA` residues. */
  lemma AroundBound(s: string, pepLen: int, nAA: int, start: int)
    requires 0 <= nAA
    ensures |Around(s, pepLen, nAA, start).0| <= nAA && |Around(s, pepLen, nAA, start).1| <= nAA
  {
  }

  /** Inside the sequence the surroundings are exactly the neighbouring residues. */
  lemma AroundInside(s: string, pepLen: int, nAA: int, start: int)
    requires 0 <= nAA && 0 <= pepLen && 1 + nAA <= start && start - 1 + pepLen + nAA <= |s|
    ensures Around(s, pepLen, nAA, start).0 == s[start - 1 - nAA..start - 1]
    ensures Around(s, pepLen, nAA, start).1 == s[start - 1 + pepLen..start - 1 + pepLen + nAA]
  {
  }

  // ---------------------------------------------------------------------
  // Enzymatic peptides.

  /**
   * One mapping of a peptide is enzymatic when both ends are cleavage
   * sites, or it starts the protein and its C-terminus is a site, or its
   * N-terminus is a site and it ends the protein.
   */
  predicate EnzymaticAt(cleavesAt: (string, string) -> bool, before: string, after: string, first: string, last: string) {
    (cleavesAt(before, first) && cleavesAt(last, after))
    || (|before| == 0 && cleavesAt(last, after))
    || (cleavesAt(before, first) && |after| == 0)
  }

  /** A result, or the index error that reading the first residue of an empty peptide raises. */
  datatype Outcome<T> = Ok(value: T) | IndexOutOfBounds

  /**
   * Whether some mapping of `peptide` (at the 1-based `starts`) has
   * enzymatic ends, judged on one residue each side.
   */
  method IsEnzymaticPeptide(s: string, peptide: string, starts: seq<int>, cleavesAt: (string, string) -> bool)
    returns (r: Outcome<bool>)
    ensures r.IndexOutOfBounds? <==> |peptide| == 0
    ensures r.Ok? ==> (r.value <==> exists k :: 0 <= k < |starts| && EnzymaticAt(cleavesAt, Around(s, |peptide|, 1, starts[k]).0,
      Around(s, |peptide|, 1, starts[k]).1, [peptide[0]], [peptide[|peptide| - 1]]))
  {
    if |peptide| == 0 {
      return IndexOutOfBounds;
    }
    var surrounding := SurroundingAA(s, |peptide|, 1, starts);
    var firstAA := [peptide[0]];
    var lastAA := [peptide[|peptide| - 1]];
    var keys := surrounding.Keys;
    while keys != {}
      invariant keys <= surrounding.Keys
      invariant forall st :: st in surrounding.Keys - keys ==>
        !EnzymaticAt(cleavesAt, surrounding[st].0, surrounding[st].1, firstAA, lastAA)
      decreases |keys|
    {
      assert (forall st :: st !in keys) ==> keys == {};
      var index :| index in keys;
      var before := surrounding[index].0;
      var after := surrounding[index].1;
      if EnzymaticAt(cleavesAt, before, after, firstAA, lastAA) {
        assert index in set i | 0 <= i < |starts| :: starts[i];
        return Ok(true);
      }
      keys := keys - {index};
    }
    forall k | 0 <= k < |starts|
      ensures !EnzymaticAt(cleavesAt, Around(s, |peptide|, 1, starts[k]).0, Around(s, |peptide|, 1, starts[k]).1, firstAA, lastAA)
    {
      assert starts[k] in surrounding.Keys;
    }
    return Ok(false);
  }
}
