/**
 * The spectrum titles of an MGF file, read as a sequence of line events:
 * indexing (repeated titles get a "_k" suffix, untitled spectra are named
 * by their number), validation (the first repeated title) and repair
 * (repeated titles get " (2)", " (3)", ... until they are new).
 */
module MgfTitles {
  import opened JavaText

  /**
   * One line of the file: the start of a spectrum and the file position
   * after it, a decoded title, the end of a spectrum, or anything else.
   */
  datatype Line = BeginIons(pointer: int) | Title(title: string) | EndIons | Other(text: string)

  // ---------------------------------------------------------------------
  // Indexing.

  /** What the indexing loop keeps while it reads the lines. */
  datatype IndexState = IndexState(
    spectrumTitles: seq<string>,
    indexes: map<string, int>,
    duplicateTitles: map<string, int>,
    title: Option<string>,
    cpt: int,
    beginIndex: int,
    currentIndex: int)

  const Start := IndexState([], map[], map[], None, 0, 0, 0)

  /** Whether a title is already taken, either as a stored name or as a repeated title. */
  predicate Taken(st: IndexState, t: string) {
    t in st.duplicateTitles || t in st.spectrumTitles
  }

  /** The number of the next repeat of a taken title. */
  function Repeat(st: IndexState, t: string): int {
    (if t in st.duplicateTitles then st.duplicateTitles[t] else 0) + 1
  }

  /** The name a title is stored under. */
  function NameOf(st: IndexState, t: string): string {
    if Taken(st, t) then t + "_" + Decimal(Repeat(st, t)) else t
  }

  function IndexStep(st: IndexState, line: Line): IndexState {
    match line
    case BeginIons(p) => st.(currentIndex := p, beginIndex := p, cpt := st.cpt + 1)
    case Title(t) =>
      var name := NameOf(st, t);
      st.(title := Some(name),
          spectrumTitles := st.spectrumTitles + [name],
          indexes := st.indexes[name := st.currentIndex],
          duplicateTitles := if Taken(st, t) then st.duplicateTitles[t := Repeat(st, t)] else st.duplicateTitles)
    case EndIons =>
      if st.title.None? then
        st.(spectrumTitles := st.spectrumTitles + [Decimal(st.cpt)],
            indexes := st.indexes[Decimal(st.cpt) := st.beginIndex])
      else st.(title := None)
    case Other(_) => st
  }

  /** The state after reading `lines` from `st`. */
  function IndexFrom(st: IndexState, lines: seq<Line>): IndexState {
    if |lines| == 0 then st else IndexStep(IndexFrom(st, lines[..|lines| - 1]), lines[|lines| - 1])
  }

  function Index(lines: seq<Line>): IndexState {
    IndexFrom(Start, lines)
  }

  /** Builds the title list and the index map, line by line. */
  method IndexMap(lines: seq<Line>) returns (spectrumTitles: seq<string>, indexes: map<string, int>)
    ensures spectrumTitles == Index(lines).spectrumTitles
    ensures indexes == Index(lines).indexes
  {
    spectrumTitles := [];
    indexes := map[];
    var duplicateTitles: map<string, int> := map[];
    var beginIndex, currentIndex := 0, 0;
    var title: Option<string> := None;
    var cpt := 0;
    var i := 0;
    while i < |lines|
      invariant 0 <= i <= |lines|
      invariant IndexState(spectrumTitles, indexes, duplicateTitles, title, cpt, beginIndex, currentIndex) == Index(lines[..i])
    {
      assert lines[..i + 1][..i] == lines[..i];
      match lines[i] {
        case BeginIons(p) =>
          currentIndex := p;
          beginIndex := currentIndex;
          cpt := cpt + 1;
        case Title(t) =>
          var name := t;
          if t in duplicateTitles || t in spectrumTitles {
            var nDuplicates := if t in duplicateTitles then duplicateTitles[t] else 0;
            nDuplicates := nDuplicates + 1;
            duplicateTitles := duplicateTitles[t := nDuplicates];
            name := name + "_" + Decimal(nDuplicates);
          }
          title := Some(name);
          spectrumTitles := spectrumTitles + [name];
          indexes := indexes[name := currentIndex];
        case EndIons =>
          if title.None? {
            var name := Decimal(cpt);
            indexes := indexes[name := beginIndex];
            spectrumTitles := spectrumTitles + [name];
          }
          title := None;
        case Other(_) =>
      }
      i := i + 1;
    }
    assert lines[..i] == lines;
  }

  lemma {:induction false} IndexConcat(st: IndexState, a: seq<Line>, b: seq<Line>)
    ensures IndexFrom(st, a + b) == IndexFrom(IndexFrom(st, a), b)
    decreases |b|
  {
    if |b| == 0 {
      assert a + b == a;
    } else {
      IndexConcat(st, a, b[..|b| - 1]);
      assert (a + b)[..|a + b| - 1] == a + b[..|b| - 1];
    }
  }

  lemma {:induction false} IndexOthers(st: IndexState, mid: seq<Line>)
    requires forall j :: 0 <= j < |mid| ==> mid[j].Other?
    ensures IndexFrom(st, mid) == st
    decreases |mid|
  {
    if |mid| > 0 {
      IndexOthers(st, mid[..|mid| - 1]);
    }
  }

  /**
   * A spectrum without a TITLE line, read when no title is pending, is
   * named by its 1-based number and mapped to the position after its
   * BEGIN IONS line; the pending title is cleared again by END IONS.
   */
  lemma UntitledSpectrum(lines: seq<Line>, p: int, mid: seq<Line>)
    requires Index(lines).title.None?
    requires forall j :: 0 <= j < |mid| ==> mid[j].Other?
    ensures var before := Index(lines);
            var after := Index(lines + [BeginIons(p)] + mid + [EndIons]);
            after.spectrumTitles == before.spectrumTitles + [Decimal(before.cpt + 1)] &&
            after.indexes == before.indexes[Decimal(before.cpt + 1) := p] &&
            after.cpt == before.cpt + 1 && after.title.None?
  {
    var begun := IndexStep(Index(lines), BeginIons(p));
    IndexConcat(Start, lines + [BeginIons(p)], mid);
    IndexOthers(begun, mid);
    assert Index(lines + [BeginIons(p)] + mid) == begun;
  }

  /**
   * A spectrum's TITLE line maps the name it is stored under to the
   * position after the spectrum's BEGIN IONS line.
   */
  lemma TitledSpectrum(lines: seq<Line>, p: int, mid: seq<Line>, t: string)
    requires forall j :: 0 <= j < |mid| ==> mid[j].Other?
    ensures var begun := IndexStep(Index(lines), BeginIons(p));
            var after := Index(lines + [BeginIons(p)] + mid + [Title(t)]);
            after.spectrumTitles == begun.spectrumTitles + [NameOf(begun, t)] &&
            after.indexes == begun.indexes[NameOf(begun, t) := p] &&
            after.title == Some(NameOf(begun, t))
  {
    var begun := IndexStep(Index(lines), BeginIons(p));
    IndexConcat(Start, lines + [BeginIons(p)], mid);
    IndexOthers(begun, mid);
    assert Index(lines + [BeginIons(p)] + mid) == begun;
  }

  /**
   * A title that can be told from the generated names: it has no
   * underscore, and it is not made only of digits and minus signs like a
   * spectrum number.
   */
  predicate Clean(t: string) {
    (forall k :: 0 <= k < |t| ==> t[k] != '_') &&
    exists k :: 0 <= k < |t| && !IsDigit(t[k]) && t[k] != '-'
  }

  predicate AllClean(lines: seq<Line>) {
    forall j :: 0 <= j < |lines| ==> lines[j].Title? ==> Clean(lines[j].title)
  }

  /** The number of TITLE lines carrying `t`. */
  function TitleCount(lines: seq<Line>, t: string): nat {
    if |lines| == 0 then 0
    else TitleCount(lines[..|lines| - 1], t) + (if lines[|lines| - 1] == Title(t) then 1 else 0)
  }

  /**
   * With clean titles, a title is stored under its own name once seen, and
   * a title seen `n >= 2` times is recorded with `n - 1` repeats.
   */
  ghost predicate Counted(lines: seq<Line>) {
    Listed(lines) && RepeatsCounted(lines) && RepeatsKept(lines)
  }

  /** A clean title is a stored name exactly when it has been seen. */
  ghost predicate Listed(lines: seq<Line>) {
    forall t :: Clean(t) ==> (t in Index(lines).spectrumTitles <==> TitleCount(lines, t) >= 1)
  }

  /** Every recorded repeat is of a clean title seen `n >= 2` times, with `n - 1` repeats. */
  ghost predicate RepeatsCounted(lines: seq<Line>) {
    var dup := Index(lines).duplicateTitles;
    forall t :: t in dup ==> Clean(t) && TitleCount(lines, t) >= 2 && dup[t] == TitleCount(lines, t) - 1
  }

  /** Every clean title seen at least twice is recorded as repeated. */
  ghost predicate RepeatsKept(lines: seq<Line>) {
    forall t :: Clean(t) && TitleCount(lines, t) >= 2 ==> t in Index(lines).duplicateTitles
  }

  lemma GeneratedNotClean(t: string, n: int)
    ensures !Clean(t + "_" + Decimal(n))
    ensures !Clean(Decimal(n))
  {
    var s := t + "_" + Decimal(n);
    assert s[|t|] == '_';
    DecimalChars(n);
  }

  /** The name a clean title is stored under, given how often it was seen before. */
  lemma CountedName(lines: seq<Line>, t: string)
    requires Counted(lines) && Clean(t)
    ensures NameOf(Index(lines), t) ==
      if TitleCount(lines, t) == 0 then t else t + "_" + Decimal(TitleCount(lines, t))
    ensures Taken(Index(lines), t) <==> TitleCount(lines, t) >= 1
    ensures Taken(Index(lines), t) ==> Repeat(Index(lines), t) == TitleCount(lines, t)
  {
  }

  /** Appending one line adds one to the count of its own title only. */
  lemma TitleCountLast(front: seq<Line>, line: Line, u: string)
    ensures TitleCount(front + [line], u) == TitleCount(front, u) + (if line == Title(u) then 1 else 0)
  {
    assert (front + [line])[..|front|] == front;
  }

  /** The state after a TITLE line with a clean title, read after `front`. */
  lemma TitleStep(front: seq<Line>, t: string)
    requires Counted(front) && Clean(t)
    ensures var st := Index(front);
            var name := if TitleCount(front, t) == 0 then t else t + "_" + Decimal(TitleCount(front, t));
            Index(front + [Title(t)]) == IndexStep(st, Title(t)) &&
            (name == t || !Clean(name)) &&
            Index(front + [Title(t)]).spectrumTitles == st.spectrumTitles + [name] &&
            Index(front + [Title(t)]).duplicateTitles ==
              if TitleCount(front, t) == 0 then st.duplicateTitles else st.duplicateTitles[t := TitleCount(front, t)]
  {
    assert (front + [Title(t)])[..|front|] == front;
    CountedName(front, t);
    if TitleCount(front, t) >= 1 {
      GeneratedNotClean(t, TitleCount(front, t));
    }
  }

  lemma ListedTitle(front: seq<Line>, t: string)
    requires Counted(front) && Clean(t)
    ensures Listed(front + [Title(t)])
  {
    TitleStep(front, t);
    hide Index, Decimal;
    forall u | Clean(u)
      ensures u in Index(front + [Title(t)]).spectrumTitles <==> TitleCount(front + [Title(t)], u) >= 1
    {
      TitleCountLast(front, Title(t), u);
    }
  }

  lemma RepeatsCountedTitle(front: seq<Line>, t: string)
    requires Counted(front) && Clean(t)
    ensures RepeatsCounted(front + [Title(t)])
  {
    TitleStep(front, t);
    hide Index, Decimal;
    var dup := Index(front + [Title(t)]).duplicateTitles;
    forall u | u in dup
      ensures Clean(u) && TitleCount(front + [Title(t)], u) >= 2 && dup[u] == TitleCount(front + [Title(t)], u) - 1
    {
      TitleCountLast(front, Title(t), u);
    }
  }

  lemma RepeatsKeptTitle(front: seq<Line>, t: string)
    requires Counted(front) && Clean(t)
    ensures RepeatsKept(front + [Title(t)])
  {
    TitleStep(front, t);
    hide Index, Decimal;
    forall u | Clean(u) && TitleCount(front + [Title(t)], u) >= 2
      ensures u in Index(front + [Title(t)]).duplicateTitles
    {
      TitleCountLast(front, Title(t), u);
    }
  }

  lemma CountedTitle(front: seq<Line>, t: string)
    requires Counted(front) && Clean(t)
    ensures Counted(front + [Title(t)])
  {
    ListedTitle(front, t);
    RepeatsCountedTitle(front, t);
    RepeatsKeptTitle(front, t);
  }

  lemma CountedEnd(front: seq<Line>, line: Line)
    requires Counted(front) && !line.Title?
    ensures Counted(front + [line])
  {
    var lines := front + [line];
    assert lines[..|front|] == front;
    var st := Index(front);
    forall u
      ensures TitleCount(lines, u) == TitleCount(front, u)
    {
    }
    if line.EndIons? {
      GeneratedNotClean("", st.cpt);
    }
  }

  lemma {:induction false} CountedIndex(lines: seq<Line>)
    requires AllClean(lines)
    ensures Counted(lines)
    decreases |lines|
  {
    if |lines| > 0 {
      var n := |lines|;
      var front := lines[..n - 1];
      assert AllClean(front) by {
        assert forall j :: 0 <= j < n - 1 ==> front[j] == lines[j];
      }
      CountedIndex(front);
      assert lines == front + [lines[n - 1]];
      if lines[n - 1].Title? {
        CountedTitle(front, lines[n - 1].title);
      } else {
        CountedEnd(front, lines[n - 1]);
      }
    }
  }

  /**
   * With clean titles, the first TITLE line with `t` stores it as `t` and
   * the k-th repeat stores it as `t + "_" + k`, at the current position.
   */
  lemma RepeatNamed(lines: seq<Line>, t: string)
    requires AllClean(lines) && Clean(t)
    ensures var k := TitleCount(lines, t);
            var name := if k == 0 then t else t + "_" + Decimal(k);
            var before := Index(lines);
            var after := Index(lines + [Title(t)]);
            after.spectrumTitles == before.spectrumTitles + [name] &&
            after.indexes == before.indexes[name := before.currentIndex]
  {
    CountedIndex(lines);
    CountedName(lines, t);
    assert (lines + [Title(t)])[..|lines|] == lines;
  }

  // ---------------------------------------------------------------------
  // Validation.

  /** What the validation loop keeps while it reads the lines. */
  datatype CheckState = CheckState(spectrumTitles: seq<string>, title: Option<string>, cpt: int)

  function CheckStep(st: CheckState, line: Line): CheckState {
    match line
    case BeginIons(_) => st.(cpt := st.cpt + 1)
    case Title(t) => st.(title := Some(t), spectrumTitles := st.spectrumTitles + [t])
    case EndIons =>
      if st.title.None? then st.(spectrumTitles := st.spectrumTitles + [Decimal(st.cpt)])
      else st.(title := None)
    case Other(_) => st
  }

  function Check(lines: seq<Line>): CheckState {
    if |lines| == 0 then CheckState([], None, 0)
    else CheckStep(Check(lines[..|lines| - 1]), lines[|lines| - 1])
  }

  /** Whether line `i` is a TITLE line whose title is among the titles before it. */
  predicate RepeatsAt(lines: seq<Line>, i: int)
    requires 0 <= i < |lines|
  {
    lines[i].Title? && lines[i].title in Check(lines[..i]).spectrumTitles
  }

  /** The first title equal to a title before it. */
  function FirstDuplicate(lines: seq<Line>): Option<string> {
    if |lines| == 0 then None
    else match FirstDuplicate(lines[..|lines| - 1])
      case Some(t) => Some(t)
      case None => if RepeatsAt(lines, |lines| - 1) then Some(lines[|lines| - 1].title) else None
  }

  lemma {:induction false} FirstDuplicateStays(lines: seq<Line>, k: int)
    requires 0 <= k <= |lines| && FirstDuplicate(lines[..k]).Some?
    ensures FirstDuplicate(lines) == FirstDuplicate(lines[..k])
    decreases |lines| - k
  {
    if k < |lines| {
      assert lines[..k + 1][..k] == lines[..k];
      FirstDuplicateStays(lines, k + 1);
    } else {
      assert lines[..k] == lines;
    }
  }

  /** Reads the lines until a title repeats, and returns that title. */
  method ValidateSpectrumTitles(lines: seq<Line>) returns (firstDuplicate: Option<string>)
    ensures firstDuplicate == FirstDuplicate(lines)
  {
    firstDuplicate := None;
    var duplicateSpectrumTitles := false;
    var spectrumTitles: seq<string> := [];
    var title: Option<string> := None;
    var cpt := 0;
    var i := 0;
    while i < |lines| && !duplicateSpectrumTitles
      invariant 0 <= i <= |lines|
      invariant firstDuplicate == FirstDuplicate(lines[..i])
      invariant duplicateSpectrumTitles <==> firstDuplicate.Some?
      invariant !duplicateSpectrumTitles ==> CheckState(spectrumTitles, title, cpt) == Check(lines[..i])
    {
      assert lines[..i + 1][..i] == lines[..i];
      match lines[i] {
        case BeginIons(_) =>
          cpt := cpt + 1;
        case Title(t) =>
          title := Some(t);
          if t in spectrumTitles {
            firstDuplicate := Some(t);
            duplicateSpectrumTitles := true;
          }
          spectrumTitles := spectrumTitles + [t];
        case EndIons =>
          if title.None? {
            spectrumTitles := spectrumTitles + [Decimal(cpt)];
          }
          title := None;
        case Other(_) =>
      }
      i := i + 1;
    }
    if duplicateSpectrumTitles {
      FirstDuplicateStays(lines, i);
    } else {
      assert lines[..i] == lines;
    }
  }

  /**
   * The reported title is the title of the earliest TITLE line that
   * repeats a title before it, and nothing is reported exactly when no
   * TITLE line does.
   */
  lemma {:induction false} FirstDuplicateMeaning(lines: seq<Line>)
    ensures FirstDuplicate(lines).None? <==> forall i :: 0 <= i < |lines| ==> !RepeatsAt(lines, i)
    ensures FirstDuplicate(lines).Some? ==>
      exists i :: 0 <= i < |lines| && RepeatsAt(lines, i) && lines[i].title == FirstDuplicate(lines).value &&
                  forall j :: 0 <= j < i ==> !RepeatsAt(lines, j)
    decreases |lines|
  {
    if |lines| > 0 {
      var n := |lines|;
      var front := lines[..n - 1];
      FirstDuplicateMeaning(front);
      forall j | 0 <= j < n - 1
        ensures RepeatsAt(lines, j) == RepeatsAt(front, j)
      {
        assert front[..j] == lines[..j];
      }
    }
  }

  /**
   * When validation reports nothing, indexing renames nothing: it stores
   * the same titles in the same order, and records no repeat.
   */
  lemma {:induction false} ValidatedNotRenamed(lines: seq<Line>)
    requires FirstDuplicate(lines).None?
    ensures Index(lines).spectrumTitles == Check(lines).spectrumTitles
    ensures Index(lines).duplicateTitles == map[]
    ensures Index(lines).title == Check(lines).title && Index(lines).cpt == Check(lines).cpt
    decreases |lines|
  {
    if |lines| > 0 {
      ValidatedNotRenamed(lines[..|lines| - 1]);
    }
  }

  // ---------------------------------------------------------------------
  // Repair.

  /** The length of the longest title. */
  function MaxLength(titles: seq<string>): (m: nat)
    ensures forall t :: t in titles ==> |t| <= m
  {
    if |titles| == 0 then 0
    else var m := MaxLength(titles[..|titles| - 1]);
      assert forall t :: t in titles ==> t in titles[..|titles| - 1] || t == titles[|titles| - 1];
      if |titles[|titles| - 1]| > m then |titles[|titles| - 1]| else m
  }

  /** Appends " (counter)", " (counter + 1)", ... to `t` until it is not among `written`. */
  function Fresh(written: seq<string>, t: string, counter: int): (r: string)
    ensures r !in written
    ensures |t| <= |r| && r[..|t|] == t
    ensures t !in written ==> r == t
    decreases MaxLength(written) - |t|
  {
    if t in written then
      var longer := t + " (" + Decimal(counter) + ")";
      var r := Fresh(written, longer, counter + 1);
      assert r[..|t|] == r[..|longer|][..|t|];
      r
    else t
  }

  /** The titles of the TITLE lines, in order. */
  function TitlesOf(lines: seq<Line>): (r: seq<string>)
    ensures |r| <= |lines|
  {
    if |lines| == 0 then []
    else TitlesOf(lines[..|lines| - 1]) + (if lines[|lines| - 1].Title? then [lines[|lines| - 1].title] else [])
  }

  /** The repaired file: every title made different from the titles written before it. */
  function Repaired(lines: seq<Line>): seq<Line> {
    if |lines| == 0 then []
    else
      var front := Repaired(lines[..|lines| - 1]);
      match lines[|lines| - 1]
      case Title(t) => front + [Title(Fresh(TitlesOf(front), t, 2))]
      case other => front + [other]
  }

  /** Writes every line, first renaming each title that was written before. */
  method FixDuplicateSpectrumTitles(lines: seq<Line>) returns (out: seq<Line>)
    ensures out == Repaired(lines)
  {
    out := [];
    var spectrumTitles: seq<string> := [];
    var i := 0;
    while i < |lines|
      invariant 0 <= i <= |lines|
      invariant out == Repaired(lines[..i])
      invariant spectrumTitles == TitlesOf(out)
    {
      assert lines[..i + 1][..i] == lines[..i];
      match lines[i] {
        case Title(t) =>
          var title := t;
          var counter := 2;
          while title in spectrumTitles
            invariant Fresh(spectrumTitles, title, counter) == Fresh(spectrumTitles, t, 2)
            decreases MaxLength(spectrumTitles) - |title|
          {
            title := title + " (" + Decimal(counter) + ")";
            counter := counter + 1;
          }
          spectrumTitles := spectrumTitles + [title];
          out := out + [Title(title)];
        case other =>
          out := out + [other];
      }
      i := i + 1;
    }
    assert lines[..i] == lines;
  }

  /** Whether no title occurs twice. */
  predicate Distinct(titles: seq<string>) {
    forall i, j :: 0 <= i < j < |titles| ==> titles[i] != titles[j]
  }

  lemma {:induction false} RepairedPrefix(lines: seq<Line>, k: int)
    requires 0 <= k <= |lines|
    ensures |Repaired(lines)| == |lines|
    ensures Repaired(lines[..k]) == Repaired(lines)[..k]
    decreases |lines|
  {
    if |lines| > 0 {
      var front := lines[..|lines| - 1];
      RepairedPrefix(front, if k < |lines| then k else |front|);
      if k < |lines| {
        assert front[..k] == lines[..k];
      } else {
        assert lines[..k] == lines;
      }
    }
  }

  /** Line `i` of the repaired file, in terms of the titles written before it. */
  lemma RepairedAt(lines: seq<Line>, i: int)
    requires 0 <= i < |lines|
    ensures |Repaired(lines)| == |lines|
    ensures Repaired(lines)[i] ==
      if lines[i].Title? then Title(Fresh(TitlesOf(Repaired(lines)[..i]), lines[i].title, 2)) else lines[i]
  {
    RepairedPrefix(lines, i + 1);
    RepairedPrefix(lines, i);
    assert lines[..i + 1][..i] == lines[..i];
    assert Repaired(lines)[..i + 1][..i] == Repaired(lines)[..i];
  }

  /**
   * The repaired file has a line for every line; lines other than titles
   * are copied, every title keeps the original title as its beginning and
   * is unchanged when it was not written before.
   */
  lemma RepairedLines(lines: seq<Line>)
    ensures |Repaired(lines)| == |lines|
    ensures forall i :: 0 <= i < |lines| && !lines[i].Title? ==> Repaired(lines)[i] == lines[i]
    ensures forall i :: 0 <= i < |lines| && lines[i].Title? ==>
      Repaired(lines)[i].Title? && lines[i].title <= Repaired(lines)[i].title
    ensures forall i :: 0 <= i < |lines| && lines[i].Title? && lines[i].title !in TitlesOf(Repaired(lines)[..i]) ==>
      Repaired(lines)[i] == lines[i]
  {
    RepairedPrefix(lines, 0);
    forall i | 0 <= i < |lines|
      ensures Repaired(lines)[i] ==
        if lines[i].Title? then Title(Fresh(TitlesOf(Repaired(lines)[..i]), lines[i].title, 2)) else lines[i]
    {
      RepairedAt(lines, i);
    }
  }

  /** The titles written to the repaired file are pairwise different. */
  lemma {:induction false} RepairedDistinct(lines: seq<Line>)
    ensures Distinct(TitlesOf(Repaired(lines)))
    decreases |lines|
  {
    if |lines| > 0 {
      var front := lines[..|lines| - 1];
      RepairedDistinct(front);
      var out := Repaired(front);
      var titles := TitlesOf(out);
      if lines[|lines| - 1].Title? {
        var r := Fresh(titles, lines[|lines| - 1].title, 2);
        assert (out + [Title(r)])[..|out|] == out;
        assert TitlesOf(Repaired(lines)) == titles + [r];
      } else {
        assert (out + [lines[|lines| - 1]])[..|out|] == out;
        assert TitlesOf(Repaired(lines)) == titles;
      }
    }
  }
}
