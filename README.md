# compomics-utilities core, modelled in Dafny

This project models the logic at the heart of several compomics-utilities
classes and proves what each one promises:

- **Rank** (FM index): a bit vector with rank support. It marks the text
  positions whose symbol lies in the upper half of the alphabet, computes
  popcounts with the SWAR method, and gives rank and access queries.
  Modules `BitWords` and `WordBits` hold the `long` bit arithmetic:
  population count, arithmetic shifts, and setting and clearing bits.
  Module `FmIndex` holds the class.
- **Protein** (module `Proteins`):
  - identity and key;
  - the number of cleavage sites;
  - the observable length;
  - the residues around each peptide start;
  - whether a peptide is enzymatic.
- **PeptideAssumptionFilter** (module `Filtering`):
  - the length and missed-cleavage checks;
  - the target/decoy protein rule;
  - the comparison of two filters;
  - the short description;
  - the setters.
- **ModificationProfile** (module `Modifications`): the fixed, variable and
  refinement modification lists, the colours and the backed-up PTMs.
- **MgfReader**:
  - the `CHARGE=` line parser (module `MgfCharges`);
  - the title rules of indexing, validation and repair, over a sequence of
    line events (module `MgfTitles`).
- **KeyUtils** (module `KeyUtils`): the `_`-separated key of a list of
  integers.
- **SampleAnalysisSet** (module `SampleAnalysis`): replicates indexed by
  their number.

Module `JavaText` models the Java library behaviour these rely on:
- `Integer.parseInt` and the decimal form of an `int`;
- `String.trim`;
- `String.split` with a literal separator, including the removal of
  trailing empty strings;
- joining.

Operations that loop or change state in the source are methods. Each method
is proved against a specification function, and lemmas state the
properties of those functions.

## Model

| member | source | states |
|---|---|---|
| BitWords.Popcount | src/main/java/com/compomics/util/experiment/identification/protein_inference/fm_index/Rank.java:111-116 | The SWAR popcount (pair, nibble and byte sums, then a multiply by 0x0101010101010101 and a shift by 56) equals the number of set bits of the word, between 0 and 64. |
| BitWords.PopcountCorrect | src/main/java/com/compomics/util/experiment/identification/protein_inference/fm_index/Rank.java:111-116 | The word the popcount computes holds the bit-by-bit count of ones. |
| FmIndex.KeptCount | src/main/java/com/compomics/util/experiment/identification/protein_inference/fm_index/Rank.java:74-83 | The symbols the clearing loop leaves are the upper `size / 2` members of the alphabet. |
| FmIndex.Rank.DropLower | src/main/java/com/compomics/util/experiment/identification/protein_inference/fm_index/Rank.java:70-83 | The clearing loop removes the members up to and including the one with `half = (size - 1) >> 1` members below it. The symbols left are exactly the kept ones. |
| FmIndex.Rank.FillField | src/main/java/com/compomics/util/experiment/identification/protein_inference/fm_index/Rank.java:85-102 | The filling loop sets bit `i % 64` of word `i / 64` exactly when `text[i]` is kept. Entry `k` of `sums` is the number of set bits before word `k`. |
| FmIndex.Rank.constructor | src/main/java/com/compomics/util/experiment/identification/protein_inference/fm_index/Rank.java:69-103 | The structure is valid for the text length, and position `i` is marked exactly when `text[i]` is in the upper half of the alphabet. |
| FmIndex.Rank.GetRank | src/main/java/com/compomics/util/experiment/identification/protein_inference/fm_index/Rank.java:125-137 | For a text position `i`, the result is the number of marked positions in `0..i`, or with `counter` the number of unmarked ones. Any other `i` is out of bounds. |
| FmIndex.Rank.RankWord | src/main/java/com/compomics/util/experiment/identification/protein_inference/fm_index/Rank.java:131-136 | The word's prefix sum plus the popcount of the word shifted left by `63 - i % 64` is the count of marks up to `i`. |
| FmIndex.Rank.IsOne | src/main/java/com/compomics/util/experiment/identification/protein_inference/fm_index/Rank.java:145-155 | For a text position, the result is that position's mark. Any other position is out of bounds. |
| FmIndex.Rank.RankFirst | src/main/java/com/compomics/util/experiment/identification/protein_inference/fm_index/Rank.java:125-155 | The rank at 0 is 1 when position 0 is marked, else 0. |
| FmIndex.Rank.RankStep | src/main/java/com/compomics/util/experiment/identification/protein_inference/fm_index/Rank.java:125-155 | The rank grows by one from `i` to `i + 1` exactly when `i + 1` is marked, so rank and access agree. |
| FmIndex.Rank.RankSplit | src/main/java/com/compomics/util/experiment/identification/protein_inference/fm_index/Rank.java:125-137 | The rank of ones plus the rank of zeros at `i` is `i + 1`, and each lies in `0..i + 1`. |
| FmIndex.CountIsSize | src/main/java/com/compomics/util/experiment/identification/protein_inference/fm_index/Rank.java:125-137 | The count the ranks are stated in is the size of the set of marked positions. |
| Proteins.SameAsKey | src/main/java/com/compomics/util/experiment/biology/Protein.java:128-139 | Two proteins are the same exactly when their keys (accessions) are equal. The relation is an equivalence and ignores the sequence and the decoy flag. |
| Proteins.NCleavageSites | src/main/java/com/compomics/util/experiment/biology/Protein.java:182-190 | The loop counts the adjacent residue pairs the enzyme cleaves. |
| Proteins.SitesMeaning | src/main/java/com/compomics/util/experiment/biology/Protein.java:182-190 | The count is the size of the set of cleaved positions, and at most `length - 1`. |
| Proteins.ObservableLength | src/main/java/com/compomics/util/experiment/biology/Protein.java:158-173 | The loop yields the observable length: the summed lengths of the fragments of at most `pepMaxLength` residues, plus the last fragment when it is shorter. |
| Proteins.ObservableBound | src/main/java/com/compomics/util/experiment/biology/Protein.java:158-173 | For a non-empty sequence, the observable length lies between 0 and the sequence length. |
| Proteins.FragmentCount | src/main/java/com/compomics/util/experiment/biology/Protein.java:158-190 | The sequence falls into one more fragment than there are cleavage sites. |
| Proteins.ObservableAll | src/main/java/com/compomics/util/experiment/biology/Protein.java:158-173 | A sequence shorter than the maximal peptide length is observable in full. |
| Proteins.ProteinBounds | src/main/java/com/compomics/util/experiment/biology/Protein.java:146-190 | Measured by `getLength`, a non-empty protein has fewer cleavage sites than residues and an observable length of at most its length, all of it when shorter than the maximal peptide length. |
| Proteins.Collect | src/main/java/com/compomics/util/experiment/biology/Protein.java:358-375 | The residue-collecting loops give the part of the sequence between the two positions, clipped to the sequence. |
| Proteins.SurroundingAA | src/main/java/com/compomics/util/experiment/biology/Protein.java:350-380 | The map has a key for each peptide start. Each value is the `nAA` residues before and after the peptide, clipped. |
| Proteins.AroundBound | src/main/java/com/compomics/util/experiment/biology/Protein.java:355-377 | Each side holds at most `nAA` residues. |
| Proteins.AroundInside | src/main/java/com/compomics/util/experiment/biology/Protein.java:355-377 | Away from the ends of the sequence, each side is exactly the `nAA` residues next to the peptide. |
| Proteins.IsEnzymaticPeptide | src/main/java/com/compomics/util/experiment/biology/Protein.java:311-334 | An empty peptide is an index error, as reading its first residue throws. Otherwise the result is true exactly when some mapping of the peptide is cleaved at both ends, or at one end that is a protein terminus. |
| JavaText.ParseDecimal | src/main/java/com/compomics/util/experiment/io/massspectrometry/MgfReader.java:773-779 | `Integer.parseInt` reads the decimal form of any `int` back to the same value. |
| JavaText.SplitJoin | src/main/java/com/compomics/util/experiment/io/massspectrometry/MgfReader.java:758-762 | Splitting a join on a one-character separator gives the pieces back, provided no piece holds that character and the last piece is not empty. |
| JavaText.TrimIdempotent | src/main/java/com/compomics/util/experiment/io/massspectrometry/MgfReader.java:763-770 | Trimming twice is trimming once. |
| KeyUtils.GetKey | src/main/java/com/compomics/util/maps/KeyUtils.java:24-33 | The loop builds the decimal forms of the elements, joined by the separator, in list order. |
| KeyUtils.KeyAppend | src/main/java/com/compomics/util/maps/KeyUtils.java:26-31 | Appending an element appends "_" and its decimal form. |
| KeyUtils.SeparatorCount | src/main/java/com/compomics/util/maps/KeyUtils.java:15-33 | The key of `n >= 1` elements holds exactly `n - 1` underscores. |
| KeyUtils.KeyRoundTrip | src/main/java/com/compomics/util/maps/KeyUtils.java:15-33 | Splitting the key of a non-empty list of `int`s on "_" and parsing each piece gives the list back. |
| SampleAnalysis.SampleAnalysisSet.Single | src/main/java/com/compomics/util/experiment/SampleAnalysisSet.java:35-38 | A single replicate is stored under its own index. |
| SampleAnalysis.SampleAnalysisSet.constructor | src/main/java/com/compomics/util/experiment/SampleAnalysisSet.java:46-51 | The replicates go into the table in list order. |
| SampleAnalysis.TableKeys | src/main/java/com/compomics/util/experiment/SampleAnalysisSet.java:46-51 | The table's keys are exactly the replicates' indexes. |
| SampleAnalysis.TableLastWins | src/main/java/com/compomics/util/experiment/SampleAnalysisSet.java:46-51 | Each index maps to the last replicate in the list that carries it. |
| SampleAnalysis.SampleAnalysisSet.GetProteomicAnalysis | src/main/java/com/compomics/util/experiment/SampleAnalysisSet.java:59-61 | The result is the analysis of a known replicate number, or null for an unknown one. |
| SampleAnalysis.UnknownReplicate | src/main/java/com/compomics/util/experiment/SampleAnalysisSet.java:46-61 | After building from a list, a number is unknown exactly when no replicate in the list carries it. |
| SampleAnalysis.SampleAnalysisSet.GetReplicateNumberList | src/main/java/com/compomics/util/experiment/SampleAnalysisSet.java:68-70 | The list holds each replicate number once, and no other. |
| Modifications.ModificationProfile.constructor | src/main/java/com/compomics/util/preferences/ModificationProfile.java:27-53 | A new profile has empty lists, no colours and no backed-up PTMs. |
| Modifications.ModificationProfile.GetAllModifications | src/main/java/com/compomics/util/preferences/ModificationProfile.java:88-94 | The result is the fixed, then the variable, then the refinement modifications. |
| Modifications.ModificationProfile.GetAllNotFixedModifications | src/main/java/com/compomics/util/preferences/ModificationProfile.java:101-106 | The result is the variable, then the refinement modifications. Together with the fixed ones this is the full list. |
| Modifications.ModificationProfile.GetColor | src/main/java/com/compomics/util/preferences/ModificationProfile.java:114-116 | The result is the colour of a coloured modification, or null. |
| Modifications.ModificationProfile.SetColor | src/main/java/com/compomics/util/preferences/ModificationProfile.java:172-174 | The colour is set for this modification only, and nothing else changes. |
| Modifications.ModificationProfile.GetPtm | src/main/java/com/compomics/util/preferences/ModificationProfile.java:218-220 | The result is the backed-up PTM of that name, or null. |
| Modifications.ModificationProfile.AddVariableModification | src/main/java/com/compomics/util/preferences/ModificationProfile.java:126-132 | The name is added to the variable list unless it is already there, and the PTM is backed up. The other lists are unchanged. |
| Modifications.ModificationProfile.AddRefinementModification | src/main/java/com/compomics/util/preferences/ModificationProfile.java:142-148 | As for variable modifications, on the refinement list. |
| Modifications.ModificationProfile.AddFixedModification | src/main/java/com/compomics/util/preferences/ModificationProfile.java:158-164 | As for variable modifications, on the fixed list. |
| Modifications.AddedProps | src/main/java/com/compomics/util/preferences/ModificationProfile.java:126-164 | Adding keeps a list free of duplicates and keeps the earlier entries in place. The name is then in the list, and adding it again changes nothing. |
| Modifications.ModificationProfile.CompatibilityCheck | src/main/java/com/compomics/util/preferences/ModificationProfile.java:189-201 | A profile from an old version gets an empty fixed list and an empty back-up. Converting the old name map fails (the source's null dereference) exactly when there is no variable list and the map is not empty. |
| Modifications.ModificationProfile.RemoveVariableModification | src/main/java/com/compomics/util/preferences/ModificationProfile.java:227-231 | Every occurrence of the name leaves the variable list, and nothing else changes. |
| Modifications.ModificationProfile.RemoveFixedModification | src/main/java/com/compomics/util/preferences/ModificationProfile.java:238-242 | As above, on the fixed list. |
| Modifications.ModificationProfile.RemoveRefinementModification | src/main/java/com/compomics/util/preferences/ModificationProfile.java:250-254 | As above, on the refinement list. |
| Modifications.RemoveFirstWithout | src/main/java/com/compomics/util/preferences/ModificationProfile.java:227-254 | One `remove` call before removing all occurrences changes nothing. |
| Modifications.WithoutCounts | src/main/java/com/compomics/util/preferences/ModificationProfile.java:227-254 | Removing all occurrences keeps every other entry as often as before. |
| Modifications.WithoutConcat | src/main/java/com/compomics/util/preferences/ModificationProfile.java:227-254 | Removal distributes over concatenation, so the names that remain keep their relative order. |
| Modifications.LookupAfterPut | src/main/java/com/compomics/util/preferences/ModificationProfile.java:172-220 | A stored colour or PTM is the one found under its name afterwards, and every other name finds what it found before. |
| Filtering.PeptideAssumptionFilter.constructor | src/main/java/com/compomics/util/experiment/identification/filtering/PeptideAssumptionFilter.java:79-89 | The default filter allows 8 to 30 residues, has no mass deviation bound, uses ppm, ignores unknown PTMs and sets no other bound. |
| Filtering.PeptideAssumptionFilter.WithSettings | src/main/java/com/compomics/util/experiment/identification/filtering/PeptideAssumptionFilter.java:112-122 | The filter has exactly the given settings. |
| Filtering.PeptideAssumptionFilter.SetFilterFromSearchParameters | src/main/java/com/compomics/util/experiment/identification/filtering/PeptideAssumptionFilter.java:130-136 | The unit, the tolerance and the isotope range come from the search, and unknown PTMs are ignored. Nothing else changes. |
| Filtering.PeptideAssumptionFilter.SetRemoveUnknownPTMs | src/main/java/com/compomics/util/experiment/identification/filtering/PeptideAssumptionFilter.java:341-343 | Only that setting changes. |
| Filtering.PeptideAssumptionFilter.SetIsPpm | src/main/java/com/compomics/util/experiment/identification/filtering/PeptideAssumptionFilter.java:361-363 | Only that setting changes. |
| Filtering.PeptideAssumptionFilter.SetMaxMzDeviation | src/main/java/com/compomics/util/experiment/identification/filtering/PeptideAssumptionFilter.java:379-381 | Only that setting changes. |
| Filtering.PeptideAssumptionFilter.SetMaxPepLength | src/main/java/com/compomics/util/experiment/identification/filtering/PeptideAssumptionFilter.java:397-399 | Only that setting changes. |
| Filtering.PeptideAssumptionFilter.SetMinPepLength | src/main/java/com/compomics/util/experiment/identification/filtering/PeptideAssumptionFilter.java:415-417 | Only that setting changes. |
| Filtering.PeptideAssumptionFilter.SetMinIsotopes | src/main/java/com/compomics/util/experiment/identification/filtering/PeptideAssumptionFilter.java:433-435 | Only that setting changes. |
| Filtering.PeptideAssumptionFilter.SetMaxIsotopes | src/main/java/com/compomics/util/experiment/identification/filtering/PeptideAssumptionFilter.java:451-453 | Only that setting changes. |
| Filtering.PeptideAssumptionFilter.SetMinMissedCleavages | src/main/java/com/compomics/util/experiment/identification/filtering/PeptideAssumptionFilter.java:597-599 | Only that setting changes. |
| Filtering.PeptideAssumptionFilter.SetMaxMissedCleavages | src/main/java/com/compomics/util/experiment/identification/filtering/PeptideAssumptionFilter.java:615-617 | Only that setting changes. |
| Filtering.ValidatePeptide | src/main/java/com/compomics/util/experiment/identification/filtering/PeptideAssumptionFilter.java:149-177 | A peptide passes exactly when it meets the length bounds that are on (bounds above 0), the X-share check and the missed-cleavage bounds that are set. |
| Filtering.DefaultValidation | src/main/java/com/compomics/util/experiment/identification/filtering/PeptideAssumptionFilter.java:149-177 | Under the default filter, exactly the lengths 8 to 30 pass, whatever the missed cleavages. |
| Filtering.UnusedInputs | src/main/java/com/compomics/util/experiment/identification/filtering/PeptideAssumptionFilter.java:154-176 | Without missed-cleavage bounds the count plays no part. Without length bounds the length plays no part. |
| Filtering.LengthInterval | src/main/java/com/compomics/util/experiment/identification/filtering/PeptideAssumptionFilter.java:154-157 | The accepted lengths form an interval. |
| Filtering.ValidateProteins | src/main/java/com/compomics/util/experiment/identification/filtering/PeptideAssumptionFilter.java:212-233 | A peptide fails exactly when it maps to more than one protein and these include both a decoy and a target. A null list passes. |
| Filtering.SameAsAsWrittenMeaning | src/main/java/com/compomics/util/experiment/identification/filtering/PeptideAssumptionFilter.java:461-514 | The comparison as written holds exactly when all settings agree, except that two set maximal missed-cleavage bounds must differ. |
| Filtering.SameAsAsWrittenNotReflexive | src/main/java/com/compomics/util/experiment/identification/filtering/PeptideAssumptionFilter.java:474-478 | As written, a filter with a maximal missed-cleavage bound is not the same as itself. |
| Filtering.SameAsIsEquality | src/main/java/com/compomics/util/experiment/identification/filtering/PeptideAssumptionFilter.java:461-514 | The corrected comparison holds exactly when the settings are equal. |
| Filtering.ShortDescription | src/main/java/com/compomics/util/experiment/identification/filtering/PeptideAssumptionFilter.java:521-581 | The description is the length line, the deviation line (for a deviation of 0 or more), the unknown-PTM line, the missed-cleavage line and the isotope line, in that order. |
| Filtering.DescriptionLines | src/main/java/com/compomics/util/experiment/identification/filtering/PeptideAssumptionFilter.java:538-578 | The missed-cleavage and isotope lines are present exactly when one of their bounds is set. A set bound never prints as the "n" that stands for a null one. |
| MgfCharges.ParseCharges | src/main/java/com/compomics/util/experiment/io/massspectrometry/MgfReader.java:754-788 | The loops take the text after the first '=' and split it on " and ", then on ",". Each trimmed token is read in order, and the result agrees with the token-by-token reading. |
| MgfCharges.ReadAllFails | src/main/java/com/compomics/util/experiment/io/massspectrometry/MgfReader.java:772-780 | Parsing fails exactly when some token is not an `int` with an optional trailing sign, nor "Mr". |
| MgfCharges.ReadAllCount | src/main/java/com/compomics/util/experiment/io/massspectrometry/MgfReader.java:767-781 | Every token except "Mr" gives exactly one charge. |
| MgfCharges.ChargesNeverEmpty | src/main/java/com/compomics/util/experiment/io/massspectrometry/MgfReader.java:772-786 | A successful result is never empty. A line of "Mr" tokens only gives the single charge 1+, and failure means some token is bad. |
| MgfCharges.EmptyChargeFails | src/main/java/com/compomics/util/experiment/io/massspectrometry/MgfReader.java:756-779 | "CHARGE=" has one empty token, and parsing it fails. |
| MgfCharges.ChargesRoundTrip | src/main/java/com/compomics/util/experiment/io/massspectrometry/MgfReader.java:756-786 | Non-empty `int` charges written as "CHARGE=" followed by "N+" or "N-", comma-separated, parse back to the same charges. |
| MgfTitles.IndexMap | src/main/java/com/compomics/util/experiment/io/massspectrometry/MgfReader.java:195-290 | The loop's title list and index map are those of the line-by-line reading of the file. |
| MgfTitles.RepeatNamed | src/main/java/com/compomics/util/experiment/io/massspectrometry/MgfReader.java:211-229 | For titles that cannot clash with generated names, the first occurrence of `t` is stored as `t` and the k-th repeat as `t + "_" + k`, mapped to the current position. |
| MgfTitles.CountedIndex | src/main/java/com/compomics/util/experiment/io/massspectrometry/MgfReader.java:219-229 | Under the same assumption, a title is stored under its own name once seen, and a title seen `n >= 2` times is recorded with `n - 1` repeats. |
| MgfTitles.UntitledSpectrum | src/main/java/com/compomics/util/experiment/io/massspectrometry/MgfReader.java:201-288 | A spectrum without a title is named by its 1-based number and mapped to the position after BEGIN IONS. END IONS clears the pending title. |
| MgfTitles.TitledSpectrum | src/main/java/com/compomics/util/experiment/io/massspectrometry/MgfReader.java:201-229 | A spectrum's title maps its stored name to the position after its BEGIN IONS. |
| MgfTitles.ValidateSpectrumTitles | src/main/java/com/compomics/util/experiment/io/massspectrometry/MgfReader.java:319-381 | The loop stops at the first title equal to a title before it (spectrum numbers included) and returns it, or null. |
| MgfTitles.FirstDuplicateMeaning | src/main/java/com/compomics/util/experiment/io/massspectrometry/MgfReader.java:358-363 | The result is the title of the earliest TITLE line that repeats an earlier title, and null exactly when there is none. |
| MgfTitles.ValidatedNotRenamed | src/main/java/com/compomics/util/experiment/io/massspectrometry/MgfReader.java:219-363 | When validation finds no repeat, indexing stores the same titles in the same order and renames nothing. |
| MgfTitles.Fresh | src/main/java/com/compomics/util/experiment/io/massspectrometry/MgfReader.java:424-427 | Appending " (2)", " (3)", ... ends with a title not yet written that begins with the original. A title not yet written is kept. |
| MgfTitles.FixDuplicateSpectrumTitles | src/main/java/com/compomics/util/experiment/io/massspectrometry/MgfReader.java:411-436 | The loops write the repaired lines. |
| MgfTitles.RepairedLines | src/main/java/com/compomics/util/experiment/io/massspectrometry/MgfReader.java:411-436 | There is one output line per input line, and non-title lines are copied. Each title begins with the original, and is unchanged when not written before. |
| MgfTitles.RepairedDistinct | src/main/java/com/compomics/util/experiment/io/massspectrometry/MgfReader.java:424-430 | The written titles are pairwise different. |

## Left out

- File and random-access I/O, progress and cancel handling (`WaitingHandler`) and printing are not modelled. MGF lines arrive as a sequence of events: BEGIN IONS with the file position after it, a title, END IONS, or other.
- Detecting a TITLE line is not modelled: the trim, `startsWith` and the text after '='. Neither is URL decoding, which is a call into the JDK. Titles arrive decoded.
- Peaks, PEPMASS and RTINSECONDS parsing, `splitFile`, `writeAplFile` and the rest of MgfReader work on files or doubles, and are not modelled.
- The enzyme (`isCleavageSite`, `getNmissedCleavages`) and `isDecoyAccession` are function parameters.
- `getPeptideStart` calls the sequence matcher, so the peptide starts are an input.
- The X-share test of `validatePeptide` compares doubles and is a boolean input.
- `validateModifications` and `validatePrecursor` depend on the PTM factory and spectrum files, and are not modelled.
- The getters of PeptideAssumptionFilter and ModificationProfile return fields. `getPtmColors` and `getBackedUpPtms` are not modelled.
- `computeMolecularWeight`, `isNTerm` and `isCTerm` of Protein need the amino-acid tables, and are not modelled.
- Doubles are modelled as reals. NaN and rounding are not modelled.
- The mass deviation's text in the description is an input.
- Java `int` overflow is not modelled. Lengths and counts are unbounded integers.
- FmIndex.Rank constructor: requires non-negative text bytes and an alphabet of at least two words. In the source, a negative byte makes `alphabet[text[i] >> 6]` throw ArrayIndexOutOfBoundsException (Rank.java:96), and a shorter alphabet makes the copy of `aAlphabet[1]` throw the same exception (Rank.java:71-72). These exception paths are not modelled.
- `Integer.parseInt` accepts ASCII digits only in this model. Java also takes other Unicode digits.
- `equalsIgnoreCase("Mr")` is modelled for ASCII letters only.
- `String.trim` removes characters up to U+0020 at both ends.
- Only the Rank part of the FM index is modelled. The alphabet array that Rank copies is read, and is not aliased.
- MgfTitles.RepeatNamed and MgfTitles.CountedIndex: stated only for titles that hold no '_' and are not all digits and minus signs. Other titles can clash with a generated "t_k" or spectrum-number name, and the source then numbers repeats differently.
- MgfTitles.FixDuplicateSpectrumTitles: the repair reads the same title events as indexing and validation, so two differences from the source are not captured. First, the repair tests `startsWith("TITLE")` on the untrimmed line, while the two readers trim first. A title line with leading blanks is a title to the readers but is copied unchanged by the repair, so a repaired file can still hold a repeated title. Second, the repair writes `"TITLE=" + title` with the decoded title and does not encode it again. An output event `Title(t)` stands for the written text `t`, and a later reader decodes that text again. Two distinct decoded titles can then read back as the same title (`a%2Bb` and `a+b` both end up as `a b`). MgfTitles.RepairedDistinct therefore holds for the strings written, not for the titles read back from the repaired file.
- The GUI classes are not modelled.

## Findings

| source | as written | input that shows it | evidently intended | confidence | as-written member | corrected member |
|---|---|---|---|---|---|---|
| src/main/java/com/compomics/util/experiment/identification/filtering/PeptideAssumptionFilter.java:474-478 | When both maximal missed-cleavage bounds are set, `isSameAs` answers false if they are EQUAL (the `!` of the neighbouring tests is missing). | A default filter with the maximal missed-cleavage bound 2, compared with itself, gives false. The same filter compared with bound 3 gives true. | Two filters are the same exactly when all their settings are equal. | not executed | Filtering.SameAsAsWritten | Filtering.SameAs |
