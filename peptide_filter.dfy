/**
 * The peptide assumption filter: length and missed-cleavage bounds on a
 * peptide, the rule against peptides shared by target and decoy
 * proteins, the comparison of two filters and the integer parts of their
 * description.
 */
module Filtering {
  import opened JavaText

  /**
   * The settings of a filter. An `Option` bound is a Java `Integer` that may
   * be null (no bound); a length bound of 0 or less disables that bound.
   */
  datatype FilterSettings = FilterSettings(
    minPepLength: int,
    maxPepLength: int,
    maxMassDeviation: real,
    isPpm: bool,
    unknownPtm: bool,
    minMissedCleavages: Option<int>,
    maxMissedCleavages: Option<int>,
    minIsotopes: Option<int>,
    maxIsotopes: Option<int>)

  /** The settings of a filter made with the default constructor. */
  const Defaults: FilterSettings := FilterSettings(8, 30, -1.0, true, true, None, None, None, None)

  // ---------------------------------------------------------------------
  // Peptide validation.

  /** A length lies within the bounds that are switched on. */
  predicate LengthAllowed(f: FilterSettings, length: int) {
    (f.minPepLength <= 0 || f.minPepLength <= length) && (f.maxPepLength <= 0 || length <= f.maxPepLength)
  }

  /** A missed-cleavage count lies within the bounds that are set. */
  predicate MissedAllowed(f: FilterSettings, missed: int) {
    (f.minMissedCleavages.None? || f.minMissedCleavages.value <= missed)
    && (f.maxMissedCleavages.None? || missed <= f.maxMissedCleavages.value)
  }

  /**
   * Validates a peptide of `sequenceLength` residues and `missedCleavages`
   * missed cleavages. `xShareTooHigh` is the outcome of the check on the
   * share of unknown residues, which works on floating-point numbers.
   */
  function ValidatePeptide(f: FilterSettings, sequenceLength: int, xShareTooHigh: bool, missedCleavages: int): (r: bool)
    ensures r <==> LengthAllowed(f, sequenceLength) && !xShareTooHigh && MissedAllowed(f, missedCleavages)
  {
    if (f.maxPepLength > 0 && sequenceLength > f.maxPepLength) || (f.minPepLength > 0 && sequenceLength < f.minPepLength) then false
    else if xShareTooHigh then false
    else if f.minMissedCleavages.Some? || f.maxMissedCleavages.Some? then
      if f.minMissedCleavages.Some? && missedCleavages < f.minMissedCleavages.value then false
      else if f.maxMissedCleavages.Some? && missedCleavages > f.maxMissedCleavages.value then false
      else true
    else true
  }

  /** The default filter accepts exactly the lengths 8 to 30 and places no bound on missed cleavages. */
  lemma DefaultValidation(length: int, missed: int)
    ensures ValidatePeptide(Defaults, length, false, missed) <==> 8 <= length <= 30
  {
  }

  /**
   * Without missed-cleavage bounds the count plays no part (the source
   * does not even compute it), and with both length bounds switched off
   * the length plays no part.
   */
  lemma UnusedInputs(f: FilterSettings, length: int, length': int, x: bool, missed: int, missed': int)
    ensures f.minMissedCleavages.None? && f.maxMissedCleavages.None? ==>
      ValidatePeptide(f, length, x, missed) == ValidatePeptide(f, length, x, missed')
    ensures f.minPepLength <= 0 && f.maxPepLength <= 0 ==>
      ValidatePeptide(f, length, x, missed) == ValidatePeptide(f, length', x, missed)
  {
  }

  /** The accepted lengths form an interval. */
  lemma LengthInterval(f: FilterSettings, a: int, b: int, c: int, missed: int)
    requires a <= b <= c
    requires ValidatePeptide(f, a, false, missed) && ValidatePeptide(f, c, false, missed)
    ensures ValidatePeptide(f, b, false, missed)
  {
  }

  // ---------------------------------------------------------------------
  // Target and decoy proteins.

  /**
   * A peptide passes unless it maps to more than one protein and these
   * include both a decoy and a target. A null accession list passes.
   */
  method ValidateProteins(accessions: Option<seq<string>>, isDecoy: string -> bool) returns (r: bool)
    ensures !r <==> (accessions.Some? && |accessions.value| > 1
      && (exists i :: 0 <= i < |accessions.value| && isDecoy(accessions.value[i]))
      && (exists i :: 0 <= i < |accessions.value| && !isDecoy(accessions.value[i])))
  {
    if accessions.Some? && |accessions.value| > 1 {
      var list := accessions.value;
      var target := false;
      var decoy := false;
      var i := 0;
      while i < |list|
        invariant 0 <= i <= |list|
        invariant decoy <==> exists j :: 0 <= j < i && isDecoy(list[j])
        invariant target <==> exists j :: 0 <= j < i && !isDecoy(list[j])
      {
        if isDecoy(list[i]) {
          decoy := true;
        } else {
          target := true;
        }
        i := i + 1;
      }
      if target && decoy {
        return false;
      }
    }
    return true;
  }

  // ---------------------------------------------------------------------
  // Comparing filters.

  /**
   * Filter comparison as the source writes it: the maximal missed-cleavage
   * test answers "different" when both bounds are set and EQUAL.
   */
  function SameAsAsWritten(a: FilterSettings, b: FilterSettings): bool {
    if a.minMissedCleavages.Some? && b.minMissedCleavages.Some? && a.minMissedCleavages.value != b.minMissedCleavages.value then false
    else if a.minMissedCleavages.Some? != b.minMissedCleavages.Some? then false
    else if a.maxMissedCleavages.Some? && b.maxMissedCleavages.Some? && a.maxMissedCleavages.value == b.maxMissedCleavages.value then false
    else if a.maxMissedCleavages.Some? != b.maxMissedCleavages.Some? then false
    else if a.minIsotopes.Some? && b.minIsotopes.Some? && a.minIsotopes.value != b.minIsotopes.value then false
    else if a.minIsotopes.Some? != b.minIsotopes.Some? then false
    else if a.maxIsotopes.Some? && b.maxIsotopes.Some? && a.maxIsotopes.value != b.maxIsotopes.value then false
    else if a.maxIsotopes.Some? != b.maxIsotopes.Some? then false
    else (a.isPpm == b.isPpm && a.unknownPtm == b.unknownPtm && a.minPepLength == b.minPepLength
      && a.maxPepLength == b.maxPepLength && a.maxMassDeviation == b.maxMassDeviation)
  }

  /** Filter comparison as intended: every bound is null on both sides or equal on both. */
  function SameAs(a: FilterSettings, b: FilterSettings): bool {
    if a.minMissedCleavages.Some? && b.minMissedCleavages.Some? && a.minMissedCleavages.value != b.minMissedCleavages.value then false
    else if a.minMissedCleavages.Some? != b.minMissedCleavages.Some? then false
    else if a.maxMissedCleavages.Some? && b.maxMissedCleavages.Some? && a.maxMissedCleavages.value != b.maxMissedCleavages.value then false
    else if a.maxMissedCleavages.Some? != b.maxMissedCleavages.Some? then false
    else if a.minIsotopes.Some? && b.minIsotopes.Some? && a.minIsotopes.value != b.minIsotopes.value then false
    else if a.minIsotopes.Some? != b.minIsotopes.Some? then false
    else if a.maxIsotopes.Some? && b.maxIsotopes.Some? && a.maxIsotopes.value != b.maxIsotopes.value then false
    else if a.maxIsotopes.Some? != b.maxIsotopes.Some? then false
    else (a.isPpm == b.isPpm && a.unknownPtm == b.unknownPtm && a.minPepLength == b.minPepLength
      && a.maxPepLength == b.maxPepLength && a.maxMassDeviation == b.maxMassDeviation)
  }

  /** The intended comparison is equality of settings, hence an equivalence. */
  lemma SameAsIsEquality(a: FilterSettings, b: FilterSettings)
    ensures SameAs(a, b) <==> a == b
  {
  }

  /**
   * As written, two filters compare equal exactly when their settings
   * agree except that the maximal missed-cleavage bounds are either both
   * null or both set to DIFFERENT values.
   */
  lemma SameAsAsWrittenMeaning(a: FilterSettings, b: FilterSettings)
    ensures SameAsAsWritten(a, b) <==>
      a.(maxMissedCleavages := None) == b.(maxMissedCleavages := None)
      && (a.maxMissedCleavages.None? <==> b.maxMissedCleavages.None?)
      && (a.maxMissedCleavages.Some? ==> a.maxMissedCleavages.value != b.maxMissedCleavages.value)
  {
  }

  /** As written, a filter with a maximal missed-cleavage bound is not the same as itself. */
  lemma SameAsAsWrittenNotReflexive(a: FilterSettings)
    requires a.maxMissedCleavages.Some?
    ensures !SameAsAsWritten(a, a)
    ensures SameAs(a, a)
  {
  }

  /** A concrete case: the default filter with at most two missed cleavages. */
  lemma SameAsAsWrittenExample()
    ensures !SameAsAsWritten(Defaults.(maxMissedCleavages := Some(2)), Defaults.(maxMissedCleavages := Some(2)))
    ensures SameAsAsWritten(Defaults.(maxMissedCleavages := Some(2)), Defaults.(maxMissedCleavages := Some(3)))
  {
  }

  // ---------------------------------------------------------------------
  // The description.

  function BoolText(b: bool): string {
    if b then "true" else "false"
  }

  /** The decimal form of a bound, or `missing` when it is null. */
  function BoundText(bound: Option<int>, missing: string): string {
    if bound.Some? then Decimal(bound.value) else missing
  }

  /** The missed-cleavage line: present when a bound is set; a null minimum reads "0", a null maximum "n". */
  function MissedCleavageLine(f: FilterSettings, newLine: string): string {
    if f.minMissedCleavages.Some? || f.maxMissedCleavages.Some? then
      "Missed Cleavages: " + BoundText(f.minMissedCleavages, "0") + "-" + BoundText(f.maxMissedCleavages, "n") + "." + newLine
    else ""
  }

  /** The isotope line: present when a bound is set; a null bound reads "n". */
  function IsotopeLine(f: FilterSettings, newLine: string): string {
    if f.minIsotopes.Some? || f.maxIsotopes.Some? then
      "Isotopes: " + BoundText(f.minIsotopes, "n") + "-" + BoundText(f.maxIsotopes, "n") + "." + newLine
    else ""
  }

  /** The first line: the length bounds. */
  function LengthLine(f: FilterSettings, newLine: string): string {
    "Peptide Length: " + Decimal(f.minPepLength) + "-" + Decimal(f.maxPepLength) + "." + newLine
  }

  /** The mass deviation line, present for a deviation of 0 or more. */
  function DeviationLine(f: FilterSettings, newLine: string, deviationText: string): string {
    if f.maxMassDeviation >= 0.0 then
      "Precursor m/z Deviation: " + deviationText + (if f.isPpm then " ppm." else " Da.") + newLine
    else ""
  }

  /**
   * The description, line by line. `deviationText` is the Java text of the
   * floating-point mass deviation, `newLine` the platform line separator.
   */
  method ShortDescription(f: FilterSettings, newLine: string, deviationText: string) returns (output: string)
    ensures output == LengthLine(f, newLine) + DeviationLine(f, newLine, deviationText)
      + "Ignore Unknown PTMs: " + BoolText(f.unknownPtm) + "." + newLine
      + MissedCleavageLine(f, newLine) + IsotopeLine(f, newLine)
  {
    hide Decimal;
    output := "";
    output := output + LengthLine(f, newLine);
    assert output == LengthLine(f, newLine);
    var line := "";
    if f.maxMassDeviation >= 0.0 {
      line := "Precursor m/z Deviation: " + deviationText;
      if f.isPpm {
        line := line + " ppm." + newLine;
      } else {
        line := line + " Da." + newLine;
      }
    }
    assert line == DeviationLine(f, newLine, deviationText);
    output := output + line;
    output := output + "Ignore Unknown PTMs: " + BoolText(f.unknownPtm) + "." + newLine;
    line := "";
    if f.minMissedCleavages.Some? || f.maxMissedCleavages.Some? {
      line := "Missed Cleavages: ";
      if f.minMissedCleavages.Some? {
        line := line + Decimal(f.minMissedCleavages.value);
      } else {
        line := line + "0";
      }
      line := line + "-";
      if f.maxMissedCleavages.Some? {
        line := line + Decimal(f.maxMissedCleavages.value);
      } else {
        line := line + "n";
      }
      line := line + "." + newLine;
    }
    assert line == MissedCleavageLine(f, newLine);
    output := output + line;
    line := "";
    if f.minIsotopes.Some? || f.maxIsotopes.Some? {
      line := "Isotopes: ";
      if f.minIsotopes.Some? {
        line := line + Decimal(f.minIsotopes.value);
      } else {
        line := line + "n";
      }
      line := line + "-";
      if f.maxIsotopes.Some? {
        line := line + Decimal(f.maxIsotopes.value);
      } else {
        line := line + "n";
      }
      line := line + "." + newLine;
    }
    assert line == IsotopeLine(f, newLine);
    output := output + line;
  }

  /**
   * The missed-cleavage line is there exactly when a bound is set, and the
   * text of a bound tells whether it was set: a set bound prints digits
   * (at most after a minus sign), never "n".
   */
  lemma DescriptionLines(f: FilterSettings, newLine: string)
    ensures MissedCleavageLine(f, newLine) == "" <==> f.minMissedCleavages.None? && f.maxMissedCleavages.None?
    ensures IsotopeLine(f, newLine) == "" <==> f.minIsotopes.None? && f.maxIsotopes.None?
    ensures f.maxMissedCleavages.Some? <==> BoundText(f.maxMissedCleavages, "n") != "n"
    ensures f.minIsotopes.Some? <==> BoundText(f.minIsotopes, "n") != "n"
    ensures f.maxIsotopes.Some? <==> BoundText(f.maxIsotopes, "n") != "n"
  {
    BoundNotMissing(f.maxMissedCleavages);
    BoundNotMissing(f.minIsotopes);
    BoundNotMissing(f.maxIsotopes);
  }

  lemma BoundNotMissing(bound: Option<int>)
    ensures bound.Some? ==> BoundText(bound, "n") != "n"
  {
    if bound.Some? {
      DecimalChars(bound.value);
      assert Decimal(bound.value)[0] != 'n';
    }
  }

  // ---------------------------------------------------------------------
  // The filter object.

  class PeptideAssumptionFilter {
    var minPepLength: int
    var maxPepLength: int
    var maxMassDeviation: real
    var isPpm: bool
    var unknownPtm: bool
    var minMissedCleavages: Option<int>
    var maxMissedCleavages: Option<int>
    var minIsotopes: Option<int>
    var maxIsotopes: Option<int>

    /** The current settings, as one value. */
    function Settings(): FilterSettings
      reads this
    {
      FilterSettings(minPepLength, maxPepLength, maxMassDeviation, isPpm, unknownPtm,
        minMissedCleavages, maxMissedCleavages, minIsotopes, maxIsotopes)
    }

    /** The default filter: peptides of 8 to 30 residues, no mass or missed-cleavage bounds. */
    constructor ()
      ensures Settings() == Defaults
    {
      minPepLength := 8;
      maxPepLength := 30;
      maxMassDeviation := -1.0;
      isPpm := true;
      unknownPtm := true;
      minMissedCleavages := None;
      maxMissedCleavages := None;
      minIsotopes := None;
      maxIsotopes := None;
    }

    constructor WithSettings(minPepLength: int, maxPepLength: int, maxMzDeviation: real, isPpm: bool, unknownPtm: bool,
      minMissedCleavages: Option<int>, maxMissedCleavages: Option<int>, minIsotopes: Option<int>, maxIsotopes: Option<int>)
      ensures Settings() == FilterSettings(minPepLength, maxPepLength, maxMzDeviation, isPpm, unknownPtm,
        minMissedCleavages, maxMissedCleavages, minIsotopes, maxIsotopes)
    {
      this.minPepLength := minPepLength;
      this.maxPepLength := maxPepLength;
      this.maxMassDeviation := maxMzDeviation;
      this.isPpm := isPpm;
      this.unknownPtm := unknownPtm;
      this.minMissedCleavages := minMissedCleavages;
      this.maxMissedCleavages := maxMissedCleavages;
      this.minIsotopes := minIsotopes;
      this.maxIsotopes := maxIsotopes;
    }

    /**
     * Takes the precursor settings of a search: the tolerance unit and
     * value and the isotope correction range; unknown modifications are
     * then ignored.
     */
    method SetFilterFromSearchParameters(precursorAccuracyTypePpm: bool, precursorAccuracy: real,
      minIsotopicCorrection: Option<int>, maxIsotopicCorrection: Option<int>)
      modifies this
      ensures Settings() == old(Settings()).(isPpm := precursorAccuracyTypePpm, maxMassDeviation := precursorAccuracy,
        minIsotopes := minIsotopicCorrection, maxIsotopes := maxIsotopicCorrection, unknownPtm := true)
    {
      isPpm := precursorAccuracyTypePpm;
      maxMassDeviation := precursorAccuracy;
      minIsotopes := minIsotopicCorrection;
      maxIsotopes := maxIsotopicCorrection;
      unknownPtm := true;
    }

    method SetRemoveUnknownPTMs(unknownPtm: bool)
      modifies this
      ensures Settings() == old(Settings()).(unknownPtm := unknownPtm)
    {
      this.unknownPtm := unknownPtm;
    }

    method SetIsPpm(isPpm: bool)
      modifies this
      ensures Settings() == old(Settings()).(isPpm := isPpm)
    {
      this.isPpm := isPpm;
    }

    method SetMaxMzDeviation(maxMzDeviation: real)
      modifies this
      ensures Settings() == old(Settings()).(maxMassDeviation := maxMzDeviation)
    {
      maxMassDeviation := maxMzDeviation;
    }

    method SetMaxPepLength(maxPepLength: int)
      modifies this
      ensures Settings() == old(Settings()).(maxPepLength := maxPepLength)
    {
      this.maxPepLength := maxPepLength;
    }

    method SetMinPepLength(minPepLength: int)
      modifies this
      ensures Settings() == old(Settings()).(minPepLength := minPepLength)
    {
      this.minPepLength := minPepLength;
    }

    method SetMinIsotopes(minIsotopes: Option<int>)
      modifies this
      ensures Settings() == old(Settings()).(minIsotopes := minIsotopes)
    {
      this.minIsotopes := minIsotopes;
    }

    method SetMaxIsotopes(maxIsotopes: Option<int>)
      modifies this
      ensures Settings() == old(Settings()).(maxIsotopes := maxIsotopes)
    {
      this.maxIsotopes := maxIsotopes;
    }

    method SetMinMissedCleavages(minMissedCleavages: Option<int>)
      modifies this
      ensures Settings() == old(Settings()).(minMissedCleavages := minMissedCleavages)
    {
      this.minMissedCleavages := minMissedCleavages;
    }

    method SetMaxMissedCleavages(maxMissedCleavages: Option<int>)
      modifies this
      ensures Settings() == old(Settings()).(maxMissedCleavages := maxMissedCleavages)
    {
      this.maxMissedCleavages := maxMissedCleavages;
    }
  }
}
