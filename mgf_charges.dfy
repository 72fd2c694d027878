/**
 * The `CHARGE=` line of an MGF spectrum: a list of charges separated by
 * " and " or by commas, each written as a number with an optional sign
 * after it; the token "Mr" stands for a neutral mass and is skipped.
 */
module MgfCharges {
  import opened JavaText

  datatype Sign = Plus | Minus

  datatype Charge = Charge(sign: Sign, value: int)

  /** The outcome of parsing: the charges, or a `NumberFormatException`. */
  datatype Outcome<T> = Ok(value: T) | NumberFormatError

  /** The text after the first '=' (all of it when there is none). */
  function AfterEquals(line: string): string {
    match First(line, "=", 0)
    case None => line
    case Some(i) => line[i + 1..]
  }

  function TrimAll(ps: seq<string>): (r: seq<string>)
    ensures |r| == |ps| && forall i :: 0 <= i < |ps| ==> r[i] == Trim(ps[i])
  {
    if |ps| == 0 then [] else TrimAll(ps[..|ps| - 1]) + [Trim(ps[|ps| - 1])]
  }

  lemma {:induction false} TrimAllFixed(ps: seq<string>)
    requires forall i :: 0 <= i < |ps| ==> Trim(ps[i]) == ps[i]
    ensures TrimAll(ps) == ps
    decreases |ps|
  {
    if |ps| > 0 {
      TrimAllFixed(ps[..|ps| - 1]);
    }
  }

  /** The trimmed comma-separated parts of every " and " piece, in order. */
  function Tokens(pieces: seq<string>): seq<string> {
    if |pieces| == 0 then []
    else Tokens(pieces[..|pieces| - 1]) + TrimAll(Split(pieces[|pieces| - 1], ","))
  }

  /** The charge tokens of a line. */
  function ChargeTokens(line: string): seq<string> {
    Tokens(Split(AfterEquals(line), " and "))
  }

  /** "Mr" in any letter case. */
  predicate IsMr(token: string) {
    |token| == 2 && (token[0] == 'M' || token[0] == 'm') && (token[1] == 'R' || token[1] == 'r')
  }

  datatype Reading = Bad | Skip | Read(charge: Charge)

  /**
   * One token: "N+" is N with a plus sign, "N-" N with a minus sign, "Mr"
   * is skipped and any other token is N with a plus sign; a number that
   * does not parse is an error.
   */
  function ReadToken(token: string): Reading {
    if |token| > 0 && token[|token| - 1] == '+' then
      match ParseInt(token[..|token| - 1])
      case Some(v) => Read(Charge(Plus, v))
      case None => Bad
    else if |token| > 0 && token[|token| - 1] == '-' then
      match ParseInt(token[..|token| - 1])
      case Some(v) => Read(Charge(Minus, v))
      case None => Bad
    else if !IsMr(token) then
      match ParseInt(token)
      case Some(v) => Read(Charge(Plus, v))
      case None => Bad
    else Skip
  }

  /** The charges of the tokens in order, or `None` when a token is bad. */
  function ReadAll(tokens: seq<string>): Option<seq<Charge>> {
    if |tokens| == 0 then Some([])
    else match ReadAll(tokens[..|tokens| - 1])
      case None => None
      case Some(cs) =>
        match ReadToken(Trim(tokens[|tokens| - 1]))
        case Bad => None
        case Skip => Some(cs)
        case Read(c) => Some(cs + [c])
  }

  /** The charges of a line; a line of "Mr" tokens only has the charge 1+. */
  function Charges(line: string): Outcome<seq<Charge>> {
    match ReadAll(ChargeTokens(line))
    case None => NumberFormatError
    case Some(cs) => Ok(if |cs| == 0 then [Charge(Plus, 1)] else cs)
  }

  lemma {:induction false} ReadAllBadPrefix(tokens: seq<string>, k: int)
    requires 0 <= k <= |tokens| && ReadAll(tokens[..k]).None?
    ensures ReadAll(tokens).None?
    decreases |tokens| - k
  {
    if k < |tokens| {
      assert tokens[..k + 1][..k] == tokens[..k];
      ReadAllBadPrefix(tokens, k + 1);
    } else {
      assert tokens[..k] == tokens;
    }
  }

  /** Parses the charges with the loops of the source: collect the tokens, then read them one by one. */
  method ParseCharges(chargeLine: string) returns (r: Outcome<seq<Charge>>)
    ensures r == Charges(chargeLine)
  {
    hide ReadToken, Trim, Split, AfterEquals, ParseInt, First;
    var result: seq<Charge> := [];
    var tempLine := AfterEquals(chargeLine);
    var chargesAnd := Split(tempLine, " and ");
    var charges: seq<string> := [];
    var i := 0;
    while i < |chargesAnd|
      invariant 0 <= i <= |chargesAnd|
      invariant charges == Tokens(chargesAnd[..i])
    {
      var parts := Split(chargesAnd[i], ",");
      ghost var before := charges;
      var j := 0;
      while j < |parts|
        invariant 0 <= j <= |parts|
        invariant charges == before + TrimAll(parts[..j])
      {
        assert parts[..j + 1][..j] == parts[..j];
        charges := charges + [Trim(parts[j])];
        j := j + 1;
      }
      assert parts[..j] == parts;
      assert chargesAnd[..i + 1][..i] == chargesAnd[..i];
      i := i + 1;
    }
    assert chargesAnd[..i] == chargesAnd;
    var k := 0;
    while k < |charges|
      invariant 0 <= k <= |charges|
      invariant ReadAll(charges[..k]) == Some(result)
    {
      assert charges[..k + 1][..k] == charges[..k];
      var charge := Trim(charges[k]);
      match ReadToken(charge) {
        case Bad =>
          ReadAllBadPrefix(charges, k + 1);
          return NumberFormatError;
        case Skip =>
        case Read(c) =>
          result := result + [c];
      }
      k := k + 1;
    }
    assert charges[..k] == charges;
    if |result| == 0 {
      result := [Charge(Plus, 1)];
    }
    return Ok(result);
  }

  /** Parsing fails exactly when some token is bad. */
  lemma {:induction false} ReadAllFails(tokens: seq<string>)
    ensures ReadAll(tokens).None? <==> exists k :: 0 <= k < |tokens| && ReadToken(Trim(tokens[k])).Bad?
    decreases |tokens|
  {
    if |tokens| > 0 {
      var front := tokens[..|tokens| - 1];
      ReadAllFails(front);
      assert forall k :: 0 <= k < |front| ==> front[k] == tokens[k];
    }
  }

  /** The positions of the tokens that give a charge. */
  function Counted(tokens: seq<string>): set<int> {
    set k | 0 <= k < |tokens| && !ReadToken(Trim(tokens[k])).Skip?
  }

  lemma CountedStep(tokens: seq<string>)
    requires |tokens| > 0
    ensures Counted(tokens) == Counted(tokens[..|tokens| - 1]) +
      (if ReadToken(Trim(tokens[|tokens| - 1])).Skip? then {} else {|tokens| - 1})
  {
    hide ReadToken, Trim;
    var front := tokens[..|tokens| - 1];
    assert forall k :: 0 <= k < |front| ==> front[k] == tokens[k];
  }

  /** Without bad tokens, every token that is not "Mr" gives one charge. */
  lemma {:induction false} ReadAllCount(tokens: seq<string>)
    requires ReadAll(tokens).Some?
    ensures |ReadAll(tokens).value| == |Counted(tokens)|
    decreases |tokens|
  {
    if |tokens| > 0 {
      var n := |tokens|;
      ReadAllCount(tokens[..n - 1]);
      CountedStep(tokens);
      assert n - 1 !in Counted(tokens[..n - 1]);
    }
  }

  /**
   * The result is never empty, and a line whose tokens are all "Mr" (or
   * otherwise skipped) reads as the single charge 1+.
   */
  lemma ChargesNeverEmpty(line: string)
    ensures Charges(line).Ok? ==> |Charges(line).value| >= 1
    ensures Charges(line).NumberFormatError? <==>
      exists k :: 0 <= k < |ChargeTokens(line)| && ReadToken(Trim(ChargeTokens(line)[k])).Bad?
    ensures (forall k :: 0 <= k < |ChargeTokens(line)| ==> ReadToken(Trim(ChargeTokens(line)[k])).Skip?) ==>
      Charges(line) == Ok([Charge(Plus, 1)])
  {
    var tokens := ChargeTokens(line);
    ReadAllFails(tokens);
    if forall k :: 0 <= k < |tokens| ==> ReadToken(Trim(tokens[k])).Skip? {
      ReadAllCount(tokens);
      assert Counted(tokens) == {};
    }
  }

  /** The text of "CHARGE=" followed by `rest` is `rest`: the first '=' ends the prefix. */
  lemma AfterChargePrefix(rest: string)
    ensures AfterEquals("CHARGE=" + rest) == rest
  {
    var line := "CHARGE=" + rest;
    forall j | 0 <= j < 6
      ensures !OccursAt(line, "=", j)
    {
      assert line[j..j + 1][0] == line[j];
    }
    assert line[6..7] == "=";
    FirstIs(line, "=", 0, 6);
    assert line[7..] == rest;
  }

  /** An empty charge line has one empty token, which does not parse. */
  lemma EmptyChargeFails()
    ensures ChargeTokens("CHARGE=") == [""]
    ensures Charges("CHARGE=") == NumberFormatError
  {
    AfterChargePrefix("");
    assert "CHARGE=" + "" == "CHARGE=";
    NoOccurrence("", " and ");
    NoOccurrence("", ",");
    assert Split("", " and ") == [""];
    assert Split("", ",") == [""];
    assert Tokens([""]) == Tokens([]) + TrimAll([""]);
    assert Trim("") == "";
    assert ParseInt("") == None;
  }

  // ---------------------------------------------------------------------
  // Writing charges back.

  /** How a charge is written: its number followed by its sign. */
  function Format(c: Charge): string {
    Decimal(c.value) + (if c.sign == Plus then "+" else "-")
  }

  function FormatAll(cs: seq<Charge>): (r: seq<string>)
    ensures |r| == |cs| && forall i :: 0 <= i < |cs| ==> r[i] == Format(cs[i])
  {
    if |cs| == 0 then [] else FormatAll(cs[..|cs| - 1]) + [Format(cs[|cs| - 1])]
  }

  /** A written charge is one token: no blank, comma or '=' in it, and it reads back as itself. */
  lemma FormatToken(c: Charge)
    requires IsInt32(c.value)
    ensures |Format(c)| >= 2
    ensures forall k :: 0 <= k < |Format(c)| ==> !IsBlank(Format(c)[k]) && Format(c)[k] != ',' && Format(c)[k] != '='
    ensures Trim(Format(c)) == Format(c) && Trim(Trim(Format(c))) == Format(c)
    ensures ReadToken(Trim(Trim(Format(c)))) == Read(c)
  {
    var s := Format(c);
    DecimalChars(c.value);
    ParseDecimal(c.value);
    assert s[..|s| - 1] == Decimal(c.value);
    TrimKeeps(s);
  }

  lemma {:induction false} ReadAllFormatted(cs: seq<Charge>)
    requires forall i :: 0 <= i < |cs| ==> IsInt32(cs[i].value)
    ensures ReadAll(FormatAll(cs)) == Some(cs)
    decreases |cs|
  {
    if |cs| > 0 {
      var n := |cs|;
      ReadAllFormatted(cs[..n - 1]);
      FormatToken(cs[n - 1]);
      assert FormatAll(cs)[..n - 1] == FormatAll(cs[..n - 1]);
      assert cs[..n - 1] + [cs[n - 1]] == cs;
    }
  }

  /** The written charges joined by commas hold no " and " and split back on the commas. */
  lemma FormattedPieces(cs: seq<Charge>)
    requires |cs| >= 1
    requires forall i :: 0 <= i < |cs| ==> IsInt32(cs[i].value)
    ensures Split(Join(FormatAll(cs), ","), " and ") == [Join(FormatAll(cs), ",")]
    ensures Split(Join(FormatAll(cs), ","), ",") == FormatAll(cs)
  {
    hide ReadToken, ParseInt, Decimal, Format;
    var ps := FormatAll(cs);
    forall p | p in ps
      ensures forall k :: 0 <= k < |p| ==> p[k] != ','
      ensures forall k :: 0 <= k < |p| ==> p[k] != ' '
    {
      var i :| 0 <= i < |ps| && ps[i] == p;
      FormatToken(cs[i]);
    }
    FormatToken(cs[|cs| - 1]);
    JoinChars(ps, ',', ' ');
    NoOccurrence(Join(ps, ","), " and ");
    SplitJoin(ps, ',');
  }

  /** The tokens of a written charge line are the written charges. */
  lemma FormattedTokens(cs: seq<Charge>)
    requires |cs| >= 1
    requires forall i :: 0 <= i < |cs| ==> IsInt32(cs[i].value)
    ensures ChargeTokens("CHARGE=" + Join(FormatAll(cs), ",")) == FormatAll(cs)
  {
    hide ReadToken, ParseInt, Decimal, Format, Split, Join;
    var ps := FormatAll(cs);
    var joined := Join(ps, ",");
    AfterChargePrefix(joined);
    FormattedPieces(cs);
    assert Tokens([joined]) == Tokens([]) + TrimAll(Split(joined, ","));
    forall i | 0 <= i < |ps|
      ensures Trim(ps[i]) == ps[i]
    {
      FormatToken(cs[i]);
    }
    TrimAllFixed(ps);
  }

  /**
   * Charges written as "CHARGE=" and their forms joined by commas parse
   * back to the same charges.
   */
  lemma ChargesRoundTrip(cs: seq<Charge>)
    requires |cs| >= 1
    requires forall i :: 0 <= i < |cs| ==> IsInt32(cs[i].value)
    ensures Charges("CHARGE=" + Join(FormatAll(cs), ",")) == Ok(cs)
  {
    FormattedTokens(cs);
    ReadAllFormatted(cs);
  }
}
