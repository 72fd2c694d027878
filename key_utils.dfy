/**
 * The key of a list of integers: their decimal forms in list order,
 * separated by an underscore.
 */
module KeyUtils {
  import opened JavaText

  const Separator: string := "_"

  /** The decimal forms of the elements, in order. */
  function Decimals(list: seq<int>): (r: seq<string>)
    ensures |r| == |list| && forall i :: 0 <= i < |list| ==> r[i] == Decimal(list[i])
  {
    if |list| == 0 then [] else Decimals(list[..|list| - 1]) + [Decimal(list[|list| - 1])]
  }

  /** The key a list stands for. */
  function Key(list: seq<int>): string {
    Join(Decimals(list), Separator)
  }

  /** Builds the key, appending a separator before every element but the first. */
  method GetKey(list: seq<int>) returns (key: string)
    ensures key == Key(list)
  {
    key := "";
    var i := 0;
    while i < |list|
      invariant 0 <= i <= |list|
      invariant key == Key(list[..i])
      invariant i > 0 <==> |key| > 0
    {
      var value := list[i];
      assert Decimals(list[..i + 1]) == Decimals(list[..i]) + [Decimal(value)] by {
        assert list[..i + 1][..i] == list[..i];
      }
      if |key| > 0 {
        JoinAppend(Decimals(list[..i]), Decimal(value), Separator);
        key := key + Separator;
      }
      DecimalChars(value);
      key := key + Decimal(value);
      i := i + 1;
    }
    assert list[..i] == list;
  }

  /** The empty list has the empty key, and one element is keyed by its decimal form. */
  lemma KeyShort(n: int)
    ensures Key([]) == ""
    ensures Key([n]) == Decimal(n)
  {
    assert Decimals([n]) == [Decimal(n)];
  }

  /** Appending an element appends a separator and its decimal form. */
  lemma KeyAppend(list: seq<int>, x: int)
    requires |list| > 0
    ensures Key(list + [x]) == Key(list) + Separator + Decimal(x)
  {
    assert (list + [x])[..|list|] == list;
    JoinAppend(Decimals(list), Decimal(x), Separator);
  }

  /** The number of occurrences of `c` in `s`. */
  function Occurrences(s: string, c: char): nat {
    if |s| == 0 then 0 else Occurrences(s[..|s| - 1], c) + (if s[|s| - 1] == c then 1 else 0)
  }

  lemma {:induction false} OccurrencesConcat(s: string, t: string, c: char)
    ensures Occurrences(s + t, c) == Occurrences(s, c) + Occurrences(t, c)
    decreases |t|
  {
    if |t| == 0 {
      assert s + t == s;
    } else {
      OccurrencesConcat(s, t[..|t| - 1], c);
      assert (s + t)[..|s + t| - 1] == s + t[..|t| - 1];
    }
  }

  lemma {:induction false} NoneOccur(s: string, c: char)
    requires forall k :: 0 <= k < |s| ==> s[k] != c
    ensures Occurrences(s, c) == 0
    decreases |s|
  {
    if |s| > 0 {
      NoneOccur(s[..|s| - 1], c);
    }
  }

  /** A key of `n >= 1` elements holds exactly `n - 1` separators. */
  lemma {:induction false} SeparatorCount(list: seq<int>)
    requires |list| >= 1
    ensures Occurrences(Key(list), '_') == |list| - 1
    decreases |list|
  {
    var last := list[|list| - 1];
    DecimalChars(last);
    NoneOccur(Decimal(last), '_');
    if |list| == 1 {
      KeyShort(last);
    } else {
      var front := list[..|list| - 1];
      assert list == front + [last];
      SeparatorCount(front);
      KeyAppend(front, last);
      OccurrencesConcat(Key(front), Separator, '_');
      OccurrencesConcat(Key(front) + Separator, Decimal(last), '_');
    }
  }

  /** Parses every piece as an `int`, failing when any piece fails. */
  function ParseAll(pieces: seq<string>): Option<seq<int>> {
    if |pieces| == 0 then Some([])
    else match (ParseAll(pieces[..|pieces| - 1]), ParseInt(pieces[|pieces| - 1]))
      case (Some(front), Some(n)) => Some(front + [n])
      case _ => None
  }

  /** Reads a key back: split it on the separator and parse every piece. */
  function ParseKey(key: string): Option<seq<int>> {
    ParseAll(Split(key, Separator))
  }

  lemma {:induction false} ParseAllDecimals(list: seq<int>)
    requires forall i :: 0 <= i < |list| ==> IsInt32(list[i])
    ensures ParseAll(Decimals(list)) == Some(list)
    decreases |list|
  {
    hide ParseInt, Decimal;
    if |list| > 0 {
      var front := list[..|list| - 1];
      var ps := Decimals(list);
      ParseAllDecimals(front);
      ParseDecimal(list[|list| - 1]);
      assert ps[..|list| - 1] == Decimals(front);
      assert ParseInt(ps[|list| - 1]) == Some(list[|list| - 1]);
      assert front + [list[|list| - 1]] == list;
    }
  }

  /**
   * A key of a non-empty list of `int`s can be read back: decimal forms
   * hold no underscore, so splitting on it gives the elements again.
   */
  lemma KeyRoundTrip(list: seq<int>)
    requires |list| >= 1
    requires forall i :: 0 <= i < |list| ==> IsInt32(list[i])
    ensures ParseKey(Key(list)) == Some(list)
  {
    var ps := Decimals(list);
    forall p | p in ps
      ensures forall k :: 0 <= k < |p| ==> p[k] != '_'
    {
      var i :| 0 <= i < |ps| && ps[i] == p;
      DecimalChars(list[i]);
    }
    DecimalChars(list[|list| - 1]);
    SplitJoin(ps, '_');
    ParseAllDecimals(list);
  }
}
