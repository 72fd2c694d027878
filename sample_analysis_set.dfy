/**
 * A set of replicate analyses of one sample, indexed by replicate number.
 */
module SampleAnalysis {
  import opened JavaText

  /** The reference sample; only its identity matters here. */
  datatype Sample = Sample(reference: string)

  /** One proteomic analysis, known by its replicate index. */
  datatype ProteomicAnalysis = ProteomicAnalysis(index: int, name: string)

  /** The table the replicates build when put one after the other: a later replicate replaces an earlier one of the same index. */
  function Table(replicates: seq<ProteomicAnalysis>): map<int, ProteomicAnalysis> {
    if |replicates| == 0 then map[]
    else
      var last := replicates[|replicates| - 1];
      Table(replicates[..|replicates| - 1])[last.index := last]
  }

  /** The table has a key for exactly the indexes of the replicates. */
  lemma {:induction false} TableKeys(replicates: seq<ProteomicAnalysis>)
    ensures Table(replicates).Keys == set j | 0 <= j < |replicates| :: replicates[j].index
    decreases |replicates|
  {
    if |replicates| > 0 {
      var front := replicates[..|replicates| - 1];
      TableKeys(front);
      var n := |replicates|;
      assert (set j | 0 <= j < n :: replicates[j].index)
        == (set j | 0 <= j < n - 1 :: front[j].index) + {replicates[n - 1].index} by {
        assert forall j :: 0 <= j < n - 1 ==> front[j] == replicates[j];
      }
    }
  }

  /** Each index maps to the last replicate in the list that carries it. */
  lemma {:induction false} TableLastWins(replicates: seq<ProteomicAnalysis>, n: int)
    requires n in Table(replicates)
    ensures exists j :: 0 <= j < |replicates| && replicates[j] == Table(replicates)[n] && replicates[j].index == n &&
                        forall k :: j < k < |replicates| ==> replicates[k].index != n
    decreases |replicates|
  {
    var m := |replicates|;
    var front := replicates[..m - 1];
    if replicates[m - 1].index == n {
      assert replicates[m - 1] == Table(replicates)[n];
    } else {
      TableLastWins(front, n);
      var j :| 0 <= j < |front| && front[j] == Table(front)[n] && front[j].index == n &&
               forall k :: j < k < |front| ==> front[k].index != n;
      assert replicates[j] == front[j];
      forall k | j < k < m
        ensures replicates[k].index != n
      {
        if k < m - 1 {
          assert replicates[k] == front[k];
        }
      }
    }
  }

  class SampleAnalysisSet {
    var sample: Sample
    var analysis: map<int, ProteomicAnalysis>

    /** A sample analysed once: the one replicate under its own index. */
    constructor Single(referenceSample: Sample, replicate: ProteomicAnalysis)
      ensures sample == referenceSample
      ensures analysis == map[replicate.index := replicate]
      ensures analysis.Keys == {replicate.index}
    {
      sample := referenceSample;
      analysis := map[replicate.index := replicate];
    }

    /** A sample with several replicates, put into the table in list order. */
    constructor (referenceSample: Sample, replicates: seq<ProteomicAnalysis>)
      ensures sample == referenceSample
      ensures analysis == Table(replicates)
    {
      sample := referenceSample;
      analysis := map[];
      new;
      var i := 0;
      while i < |replicates|
        invariant 0 <= i <= |replicates|
        invariant sample == referenceSample
        invariant analysis == Table(replicates[..i])
      {
        var replicate := replicates[i];
        assert replicates[..i + 1][..i] == replicates[..i];
        analysis := analysis[replicate.index := replicate];
        i := i + 1;
      }
      assert replicates[..i] == replicates;
    }

    /** The analysis of a replicate, or `None` (Java's null) for an unknown replicate number. */
    function GetProteomicAnalysis(replicateNumber: int): (r: Option<ProteomicAnalysis>)
      reads this
      ensures r.None? <==> replicateNumber !in analysis
      ensures r.Some? ==> r.value == analysis[replicateNumber] && r.value in analysis.Values
    {
      if replicateNumber in analysis then Some(analysis[replicateNumber]) else None
    }

    /** The replicate numbers, each once, in no particular order. */
    method GetReplicateNumberList() returns (list: seq<int>)
      ensures forall i, j :: 0 <= i < j < |list| ==> list[i] != list[j]
      ensures forall n :: n in list <==> n in analysis
      ensures |list| == |analysis.Keys|
    {
      list := [];
      var keys := analysis.Keys;
      while keys != {}
        invariant keys <= analysis.Keys
        invariant forall i, j :: 0 <= i < j < |list| ==> list[i] != list[j]
        invariant forall n :: n in list <==> n in analysis.Keys - keys
        invariant |list| + |keys| == |analysis.Keys|
        decreases |keys|
      {
        assert (forall n :: n !in keys) ==> keys == {};
        var n :| n in keys;
        assert n !in list;
        list := list + [n];
        keys := keys - {n};
      }
    }
  }

  /**
   * After building from a list, a replicate number is unknown exactly when
   * no replicate in the list carries it.
   */
  lemma UnknownReplicate(s: SampleAnalysisSet, replicates: seq<ProteomicAnalysis>, n: int)
    requires s.analysis == Table(replicates)
    ensures s.GetProteomicAnalysis(n).None? <==> forall j :: 0 <= j < |replicates| ==> replicates[j].index != n
  {
    TableKeys(replicates);
    if forall j :: 0 <= j < |replicates| ==> replicates[j].index != n {
      assert n !in set j | 0 <= j < |replicates| :: replicates[j].index;
    }
  }
}
