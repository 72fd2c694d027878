/**
 * The pieces of Java's string handling the core relies on: the decimal
 * form of an `int`, `Integer.parseInt`, `String.trim`, `String.split` on a
 * literal separator, and joining with a separator.
 */
module JavaText {

  datatype Option<T> = None | Some(value: T)

  const IntMin: int := -0x8000_0000
  const IntMax: int := 0x7fff_ffff

  /** A value of Java's 32-bit `int`. */
  predicate IsInt32(n: int) {
    IntMin <= n <= IntMax
  }

  // ---------------------------------------------------------------------
  // Decimal numbers.

  predicate IsDigit(c: char) {
    '0' <= c <= '9'
  }

  predicate AllDigits(s: string) {
    forall k :: 0 <= k < |s| ==> IsDigit(s[k])
  }

  function DigitChar(d: int): (c: char)
    requires 0 <= d < 10
    ensures IsDigit(c) && c as int - '0' as int == d
  {
    (d + '0' as int) as char
  }

  /** The decimal digits of a natural number, without leading zeros. */
  function Digits(n: nat): string
    decreases n
  {
    if n < 10 then [DigitChar(n)] else Digits(n / 10) + [DigitChar(n % 10)]
  }

  /** The value of a string of decimal digits. */
  function Value(s: string): nat
    requires AllDigits(s)
  {
    if |s| == 0 then 0 else Value(s[..|s| - 1]) * 10 + (s[|s| - 1] as int - '0' as int)
  }

  /** The decimal form of an integer, as `StringBuilder.append(int)` and `Integer.toString` write it. */
  function Decimal(n: int): string {
    if n < 0 then "-" + Digits(-n) else Digits(n)
  }

  /**
   * `Integer.parseInt`: an optional sign followed by at least one decimal
   * digit, with a value in the `int` range; anything else is a
   * `NumberFormatException`, here `None`.
   */
  function ParseInt(s: string): Option<int> {
    if |s| == 0 then None
    else
      var signed := s[0] == '-' || s[0] == '+';
      var body := if signed then s[1..] else s;
      if |body| == 0 || !AllDigits(body) then None
      else
        var v: int := if s[0] == '-' then -(Value(body) as int) else Value(body);
        if IsInt32(v) then Some(v) else None
  }

  lemma {:induction false} DigitsValue(n: nat)
    ensures |Digits(n)| >= 1 && AllDigits(Digits(n)) && Value(Digits(n)) == n
    decreases n
  {
    if n >= 10 {
      DigitsValue(n / 10);
      var s := Digits(n);
      assert s[..|s| - 1] == Digits(n / 10);
    }
  }

  /** Every character of a decimal form is a digit or the leading minus sign. */
  lemma DecimalChars(n: int)
    ensures |Decimal(n)| >= 1
    ensures forall k :: 0 <= k < |Decimal(n)| ==> IsDigit(Decimal(n)[k]) || (k == 0 && Decimal(n)[k] == '-')
  {
    if n < 0 {
      DigitsValue(-n);
    } else {
      DigitsValue(n);
    }
  }

  /** Parsing the decimal form of an `int` gives the `int` back. */
  lemma ParseDecimal(n: int)
    requires IsInt32(n)
    ensures ParseInt(Decimal(n)) == Some(n)
  {
    var m: nat := if n < 0 then -n else n;
    DigitsValue(m);
    var d := Digits(m);
    hide Digits, Value;
    assert IsDigit(d[0]);
    if n < 0 {
      var s := "-" + d;
      assert s == Decimal(n);
      assert s[0] == '-' && s[1..] == d;
      assert ParseInt(s) == Some(-(Value(d) as int));
    } else {
      assert Decimal(n) == d;
      assert d[0] != '-' && d[0] != '+';
      assert ParseInt(d) == Some(Value(d));
    }
  }

  /** Distinct integers have distinct decimal forms. */
  lemma DecimalInjective(m: int, n: int)
    requires IsInt32(m) && IsInt32(n) && Decimal(m) == Decimal(n)
    ensures m == n
  {
    ParseDecimal(m);
    ParseDecimal(n);
  }

  // ---------------------------------------------------------------------
  // Trimming.

  /** `String.trim` removes every character up to U+0020 at either end. */
  predicate IsBlank(c: char) {
    c <= ' '
  }

  function TrimStart(s: string): (r: string)
    ensures |r| <= |s|
  {
    if |s| > 0 && IsBlank(s[0]) then TrimStart(s[1..]) else s
  }

  function TrimEnd(s: string): (r: string)
    ensures |r| <= |s|
  {
    if |s| > 0 && IsBlank(s[|s| - 1]) then TrimEnd(s[..|s| - 1]) else s
  }

  function Trim(s: string): string {
    TrimEnd(TrimStart(s))
  }

  /** A string with no blank at either end is its own trimmed form, and trimming is idempotent. */
  lemma TrimKeeps(s: string)
    requires |s| == 0 || (!IsBlank(s[0]) && !IsBlank(s[|s| - 1]))
    ensures Trim(s) == s
  {
  }

  lemma {:induction false} TrimStartBlankFree(s: string)
    ensures |TrimStart(s)| == 0 || !IsBlank(TrimStart(s)[0])
    ensures exists k :: 0 <= k <= |s| && TrimStart(s) == s[k..]
  {
    if |s| > 0 && IsBlank(s[0]) {
      TrimStartBlankFree(s[1..]);
      var k :| 0 <= k <= |s[1..]| && TrimStart(s[1..]) == s[1..][k..];
      assert s[1..][k..] == s[k + 1..];
    } else {
      assert s[0..] == s;
    }
  }

  lemma {:induction false} TrimEndBlankFree(s: string)
    ensures |TrimEnd(s)| == 0 || !IsBlank(TrimEnd(s)[|TrimEnd(s)| - 1])
    ensures |TrimEnd(s)| > 0 && |s| > 0 && !IsBlank(s[0]) ==> !IsBlank(TrimEnd(s)[0])
    ensures TrimEnd(s) == s[..|TrimEnd(s)|]
  {
    if |s| > 0 && IsBlank(s[|s| - 1]) {
      TrimEndBlankFree(s[..|s| - 1]);
    }
  }

  /** The trimmed form has no blank at either end, so trimming twice changes nothing. */
  lemma TrimIdempotent(s: string)
    ensures |Trim(s)| == 0 || (!IsBlank(Trim(s)[0]) && !IsBlank(Trim(s)[|Trim(s)| - 1]))
    ensures Trim(Trim(s)) == Trim(s)
  {
    TrimStartBlankFree(s);
    TrimEndBlankFree(TrimStart(s));
    TrimKeeps(Trim(s));
  }

  // ---------------------------------------------------------------------
  // Splitting and joining on a literal separator.

  /** Whether `sep` occurs in `s` at position `i`. */
  predicate OccursAt(s: string, sep: string, i: int) {
    0 <= i && i + |sep| <= |s| && s[i..i + |sep|] == sep
  }

  /** The first occurrence of `sep` in `s` at or after `i`. */
  function First(s: string, sep: string, i: nat): (r: Option<nat>)
    requires |sep| > 0
    ensures r.Some? ==> i <= r.value && OccursAt(s, sep, r.value)
    ensures r.Some? ==> forall j :: i <= j < r.value ==> !OccursAt(s, sep, j)
    ensures r.None? ==> forall j :: i <= j ==> !OccursAt(s, sep, j)
    decreases |s| - i
  {
    if i + |sep| > |s| then None
    else if OccursAt(s, sep, i) then Some(i)
    else First(s, sep, i + 1)
  }

  /** The pieces of `s` between the successive leftmost occurrences of `sep`. */
  function Pieces(s: string, sep: string): (r: seq<string>)
    requires |sep| > 0
    ensures |r| >= 1
    decreases |s|
  {
    match First(s, sep, 0)
    case None => [s]
    case Some(i) => [s[..i]] + Pieces(s[i + |sep|..], sep)
  }

  function DropTrailingEmpty(ps: seq<string>): (r: seq<string>)
    ensures |r| <= |ps| && r == ps[..|r|]
    ensures |r| == 0 || r[|r| - 1] != ""
  {
    if |ps| > 0 && ps[|ps| - 1] == "" then DropTrailingEmpty(ps[..|ps| - 1]) else ps
  }

  /**
   * `String.split` with a separator that is matched literally: the
   * pieces, less any empty pieces at the end; a string in which the
   * separator never occurs is its own single piece.
   */
  function Split(s: string, sep: string): seq<string>
    requires |sep| > 0
  {
    if First(s, sep, 0).None? then [s] else DropTrailingEmpty(Pieces(s, sep))
  }

  /** The pieces joined by the separator. */
  function Join(ps: seq<string>, sep: string): string
    decreases |ps|
  {
    if |ps| == 0 then "" else if |ps| == 1 then ps[0] else ps[0] + sep + Join(ps[1..], sep)
  }

  lemma {:induction false} JoinAppend(ps: seq<string>, x: string, sep: string)
    requires |ps| > 0
    ensures Join(ps + [x], sep) == Join(ps, sep) + sep + x
    decreases |ps|
  {
    if |ps| > 1 {
      JoinAppend(ps[1..], x, sep);
      assert (ps + [x])[1..] == ps[1..] + [x];
    }
  }

  /** A separator whose first character does not occur in `s` does not occur in `s`. */
  lemma NoOccurrence(s: string, sep: string)
    requires |sep| > 0
    requires forall k :: 0 <= k < |s| ==> s[k] != sep[0]
    ensures First(s, sep, 0).None?
  {
    forall j | 0 <= j
      ensures !OccursAt(s, sep, j)
    {
      if j + |sep| <= |s| {
        assert s[j..j + |sep|][0] == s[j];
      }
    }
  }

  lemma {:induction false} JoinChars(ps: seq<string>, c: char, d: char)
    requires forall p :: p in ps ==> forall k :: 0 <= k < |p| ==> p[k] != d
    requires c != d
    ensures forall k :: 0 <= k < |Join(ps, [c])| ==> Join(ps, [c])[k] != d
    decreases |ps|
  {
    if |ps| > 1 {
      JoinChars(ps[1..], c, d);
    }
  }

  /** Splitting a join on a one-character separator gives the pieces back when no piece holds that character. */
  lemma {:induction false} PiecesOfJoin(ps: seq<string>, c: char)
    requires |ps| >= 1
    requires forall p :: p in ps ==> forall k :: 0 <= k < |p| ==> p[k] != c
    ensures Pieces(Join(ps, [c]), [c]) == ps
    decreases |ps|
  {
    var s := Join(ps, [c]);
    if |ps| == 1 {
      NoOccurrence(ps[0], [c]);
    } else {
      var k := |ps[0]|;
      assert s == ps[0] + [c] + Join(ps[1..], [c]);
      assert s[k..k + 1] == [c];
      forall j | 0 <= j < k
        ensures !OccursAt(s, [c], j)
      {
        assert s[j..j + 1][0] == ps[0][j];
      }
      assert First(s, [c], 0) == Some(k) by {
        FirstIs(s, [c], 0, k);
      }
      assert s[..k] == ps[0];
      assert s[k + 1..] == Join(ps[1..], [c]);
      PiecesOfJoin(ps[1..], c);
    }
  }

  lemma {:induction false} FirstIs(s: string, sep: string, i: nat, k: nat)
    requires |sep| > 0 && i <= k && OccursAt(s, sep, k)
    requires forall j :: i <= j < k ==> !OccursAt(s, sep, j)
    ensures First(s, sep, i) == Some(k)
    decreases k - i
  {
    if i < k {
      FirstIs(s, sep, i + 1, k);
    }
  }

  /**
   * `split` on a one-character separator undoes a join of pieces free of
   * that character, provided there is more than one piece or the single
   * piece is not empty, and the last piece is not empty.
   */
  lemma SplitJoin(ps: seq<string>, c: char)
    requires |ps| >= 1 && ps[|ps| - 1] != ""
    requires forall p :: p in ps ==> forall k :: 0 <= k < |p| ==> p[k] != c
    ensures Split(Join(ps, [c]), [c]) == ps
  {
    PiecesOfJoin(ps, c);
    if First(Join(ps, [c]), [c], 0).None? {
      assert Pieces(Join(ps, [c]), [c]) == [Join(ps, [c])];
    }
  }
}
