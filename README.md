# rustyms core, modelled in Dafny

This project models the core of rustyms, a Rust library for mass spectrometry in proteomics:

- **Peptidoform (current crate).** A linear peptide with terminal, residue, labile and global modifications. It also holds a registry of modifications of unknown position (the "ambiguous" modifications) and a complexity tier that says which of these the peptide may use.
  - The tier checks and conversions, `mark`, `global`, `reverse`, `sub_peptide`, `concatenate`, `digest` and `iter` are functions over a value datatype (module `Peptidoform`).
  - `add_global`, `add_modification`, `add_simple_modification` and `add_ambiguous_modification` update a mutable peptidoform (class `PeptidoformEdit.PeptidoformBuilder`).
  - The enumeration of placements of ambiguous modifications in `ambiguous_patterns` and the skip of positions closed by a cross-link loop in the fragment loop are in module `PeptidoformPatterns`.
- **LinearPeptide (older crate).** `global`, the terminal formulas, `reverse`, the `assume_*` guards, the placement fold of `ambiguous_patterns` and which ids each stretch of residues is given (module `LinearPeptide`). The three in-place `apply_*` operations are first functions on values, then the methods of class `LinearPeptideEdit.MutableLinearPeptide`.
- **Glycan structure.** A positioned glycan structure is a rose tree of monosaccharides (module `Glycan`). The model covers:
  - its formula;
  - the internal break points, which are a Cartesian product over the branches;
  - the oxonium and Y fragments;
  - the diagnostic ions in pre-order;
  - the bond label of a node.
- **mzPAF sub-parsers.** mzPAF is the peak annotation format. Module `MzPaf` covers:
  - the analyte number;
  - the ion, with its `?`, `a`–`z`, `I`, `m`, `_`, `p`, `r`, `f` and `s` branches;
  - the charge and the deviation;
  - the chain that reads an annotation.
- **Identified-peptide iterator.** The record iterator with its one-item look-ahead (`peek`) and its format, latched on the first record that parses (module `IdentifiedPeptide`). The `SpectrumId` accessors and `IdentifiedPeptide::charge` are modelled too.
- **MGF reader.** The line dispatch of `open` over the lines of a file, and `parse_charge` (module `Mgf`).

Formulas are maps from elements to counts with pointwise addition (module `Formula`). Module `Common` holds `Option`, `Result`, `SequencePosition` and ranges.

Collaborators whose code is not part of this model are parameters of the operations that call them:
- the placement rule `is_possible` and `Element::is_valid`;
- the protease's cleavage sites;
- the per-format `parse` and `parse_specific`;
- the number scanner `next_number`, the Unimod and named-molecule lookups, and the mzPAF formula parser;
- the monosaccharides' diagnostic ions and formulas;
- the charge and neutral-loss expansions of fragments;
- the MGF number parsers.

## Model

| member | source | states |
|---|---|---|
| Common.ReversePosition | rustyms/src/peptidoform/linear_peptide.rs:1321-1341 | The position reversal `reverse` applies to every registered position: the termini swap and residue `i` becomes `len - 1 - i`; the result is a valid position |
| Common.ReversePositionInvolution | rustyms/src/peptidoform/linear_peptide.rs:1321-1341 | Reversing a position twice gives it back |
| Common.AppendAllValid | rustyms/src/peptidoform/linear_peptide.rs:271-277 | The loop of `global`: the answer is `None` exactly when some item fails `is_valid`, and otherwise the accumulator extended by all items in order |
| Peptidoform.HighestOf | rustyms/src/peptidoform/linear_peptide.rs:264-279 | The tier `HighestLevel` picks is one of the two and at least as permissive as both |
| Peptidoform.TiersNested | rustyms/src/peptidoform/linear_peptide.rs:186-261 | The tier checks are nested: passing `is_unambiguous` implies `is_semi_ambiguous`, which implies `is_simple_linear`, which implies `is_linear` |
| Peptidoform.Mark | rustyms/src/peptidoform/linear_peptide.rs:294-309 | `mark` changes only the complexity marker; every field is carried over |
| Peptidoform.Into | rustyms/src/peptidoform/linear_peptide.rs:186-261 | Each `into_*` is `Some` exactly when its `is_*` check holds, and then carries every field over under the new marker |
| Peptidoform.IntoNested | rustyms/src/peptidoform/linear_peptide.rs:186-261 | A conversion into a stricter tier that succeeds implies that every more permissive conversion succeeds, with the same content |
| Peptidoform.Global | rustyms/src/peptidoform/linear_peptide.rs:264-279 | `global` returns `None` exactly when some isotope modification is invalid; otherwise it appends them all in order and marks the peptide at least `Linear` |
| Peptidoform.ReverseEntry | rustyms/src/peptidoform/linear_peptide.rs:1330-1338 | A registry entry after reversal: the same entry with every position reversed |
| Peptidoform.Reverse | rustyms/src/peptidoform/linear_peptide.rs:1321-1341 | `reverse` swaps the terminal lists and reverses the residues. It reverses every registered position and keeps global, labile, charge carriers and tier. Registered positions stay valid |
| Peptidoform.ReverseInvolution | rustyms/src/peptidoform/linear_peptide.rs:1321-1341 | Reversing twice gives the original peptidoform |
| Peptidoform.ResidueAt | rustyms/src/peptidoform/linear_peptide.rs:1769-1778 | Indexing by position: the N terminus designates the first residue, the C terminus the last, an index its residue |
| Peptidoform.ReverseKeepsPlacement | rustyms/src/peptidoform/linear_peptide.rs:1321-1341 | After reversal every registered position still designates the residue it designated before |
| Peptidoform.ReverseKeepsTier | rustyms/src/peptidoform/linear_peptide.rs:186-261 | Reversal keeps a peptidoform in exactly the tiers it was in |
| Peptidoform.SubPeptide | rustyms/src/peptidoform/linear_peptide.rs:1385-1402 | `sub_peptide(start..end)` holds the residues of the range. It keeps the N-terminal list only when the range contains 0, and the C-terminal list only when it contains the last residue; everything else is kept |
| Peptidoform.SubPeptideWhole | rustyms/src/peptidoform/linear_peptide.rs:1385-1402 | The whole range gives the peptidoform back |
| Peptidoform.Concatenate | rustyms/src/peptidoform/linear_peptide.rs:1696-1722 | `concatenate` is `Some` exactly when the first has no C-terminal and the second no N-terminal modification. Then the residues are joined, the N terminus comes from the first and the C terminus from the second, the labile lists are joined, and the registry is empty |
| Peptidoform.ConcatenateAssociative | rustyms/src/peptidoform/linear_peptide.rs:1696-1722 | Concatenation is associative where defined |
| Peptidoform.SubPeptideReassemble | rustyms/src/peptidoform/linear_peptide.rs:1385-1402 | Cutting a semi-ambiguous peptidoform in two with `sub_peptide` and concatenating the pieces gives it back |
| Peptidoform.Sites | rustyms/src/peptidoform/linear_peptide.rs:1405-1407 | The cleavage sites are 0, the protease's sites, then the length |
| Peptidoform.SitesOrdered | rustyms/src/peptidoform/linear_peptide.rs:1405-1407 | Ordered protease sites make the site list ascending and bounded by the length |
| Peptidoform.DigestRow | rustyms/src/peptidoform/linear_peptide.rs:1411-1415 | The pieces from one site: `max_missed_cleavages + 1` of them, fewer only near the last site |
| Peptidoform.Digest | rustyms/src/peptidoform/linear_peptide.rs:1404-1417 | The nested loop of `digest` pushes exactly the rows of every site, in order |
| Peptidoform.DigestMember | rustyms/src/peptidoform/linear_peptide.rs:1404-1417 | A peptidoform is in the digest exactly when it is the sub-peptide between sites `i <= j` with at most `max_missed_cleavages` sites skipped |
| Peptidoform.DigestMemberSound | rustyms/src/peptidoform/linear_peptide.rs:1404-1417 | Every piece of the digest is the sub-peptide between two sites at most `max_missed_cleavages` apart |
| Peptidoform.DigestMemberComplete | rustyms/src/peptidoform/linear_peptide.rs:1404-1417 | Every sub-peptide between two sites at most `max_missed_cleavages` apart is in the digest |
| Peptidoform.DigestCount | rustyms/src/peptidoform/linear_peptide.rs:1404-1417 | The number of pieces is the sum over the sites of `min(max_missed_cleavages + 1, sites left)` |
| Peptidoform.DigestAsWrittenEmpty | rustyms/src/peptidoform/linear_peptide.rs:1412 | As written, each row starts at its own site, so with no missed cleavage allowed every piece of the digest is empty |
| Peptidoform.CorrectedDigestRow | rustyms/src/peptidoform/linear_peptide.rs:1411-1415 | The row of one site as evidently intended: `max_missed_cleavages + 1` pieces ending at the following sites, fewer near the last site |
| Peptidoform.CorrectedDigestMember | rustyms/src/peptidoform/linear_peptide.rs:1404-1417 | The corrected digest holds exactly the sub-peptides between two distinct sites `i < j` with at most `max_missed_cleavages` sites skipped |
| Peptidoform.CorrectedDigestPieces | rustyms/src/peptidoform/linear_peptide.rs:1404-1417 | The digest as evidently intended, with every row starting after its own site; `CorrectedDigestMember` characterises its pieces |
| Peptidoform.CorrectedDigestSound | rustyms/src/peptidoform/linear_peptide.rs:1404-1417 | Every corrected piece lies between two distinct sites at most `max_missed_cleavages + 1` apart |
| Peptidoform.CorrectedDigestComplete | rustyms/src/peptidoform/linear_peptide.rs:1404-1417 | Every sub-peptide between two distinct sites at most `max_missed_cleavages + 1` apart is in the corrected digest |
| Peptidoform.CorrectedDigestFirstPiece | rustyms/src/peptidoform/linear_peptide.rs:1404-1417 | With a cut inside the peptide and no missed cleavage, the corrected digest yields the non-empty piece up to the first cut, which the digest as written lacks |
| Peptidoform.RowsTotal | rustyms/src/peptidoform/linear_peptide.rs:1410-1415 | The total length of the first `n` rows is the closed count `RowsLength` |
| Peptidoform.Iter | rustyms/src/peptidoform/linear_peptide.rs:583-611 | `iter(start..end)` yields the N terminus when the range starts at 0, then each residue of the range with its index, then the C terminus when the range ends at the length |
| Peptidoform.IterPositions | rustyms/src/peptidoform/linear_peptide.rs:583-611 | The positions `iter` visits are exactly the N terminus when the range starts at 0, the indices in the range, and the C terminus when it reaches the end; in a non-empty range they come in that order |
| PeptidoformEdit.AddModificationAt | rustyms/src/peptidoform/linear_peptide.rs:1350-1361 | `add_modification` pushes onto the list the position designates; nothing else changes |
| PeptidoformEdit.AddModificationMods | rustyms/src/peptidoform/linear_peptide.rs:1350-1361 | The list at the position gains the modification at its end; every other list stays as it was |
| PeptidoformEdit.DefaultGroup | rustyms/src/peptidoform/linear_peptide.rs:1636 | The default group name is `u` followed by the decimal id, whose digits read back as the id |
| PeptidoformEdit.PlaceAmbiguous | rustyms/src/peptidoform/linear_peptide.rs:1639-1679 | Placing the ambiguous modification at the listed positions keeps the number of residues |
| PeptidoformEdit.PlaceAmbiguousEffect | rustyms/src/peptidoform/linear_peptide.rs:1639-1679 | After placing, each list has its old modifications followed by exactly the modifications placed at its position, in list order |
| PeptidoformEdit.PlacedAtPrefix | rustyms/src/peptidoform/linear_peptide.rs:1639-1679 | The modifications placed at a position by a list are those placed by its prefix, plus the last one when it names that position |
| PeptidoformEdit.PlaceAmbiguousKeeps | rustyms/src/peptidoform/linear_peptide.rs:1639-1679 | Placing leaves the amino acids, the `(?AA)` groups, the registry and every other field alone |
| PeptidoformEdit.PlacedAtMember | rustyms/src/peptidoform/linear_peptide.rs:1643-1674 | Each listed position receives an `Ambiguous` modification with the id, the group, its own score, and `preferred` exactly when it is the preferred position |
| PeptidoformEdit.AddAmbiguousNoPosition | rustyms/src/peptidoform/linear_peptide.rs:1617-1618 | With no position nothing changes and the answer is false |
| PeptidoformEdit.AddAmbiguousOnePosition | rustyms/src/peptidoform/linear_peptide.rs:1619-1633 | With one position a simple modification is pushed there, no registry entry is made, and the answer is true |
| PeptidoformEdit.AddAmbiguousRegisters | rustyms/src/peptidoform/linear_peptide.rs:1634-1685 | With two or more positions exactly one entry is appended. It lists the positions, its id is the old registry length, it keeps the limit and colocalisation flag, and its group is `None`; the answer is true |
| PeptidoformEdit.AddAmbiguousPlaces | rustyms/src/peptidoform/linear_peptide.rs:1634-1685 | With two or more positions every listed position carries the new `Ambiguous` modification with the entry's id and the given or default group |
| PeptidoformEdit.AddAmbiguousUntouched | rustyms/src/peptidoform/linear_peptide.rs:1634-1685 | With two or more positions a position that is not listed keeps its modifications |
| PeptidoformEdit.PlacedAtNone | rustyms/src/peptidoform/linear_peptide.rs:1639-1679 | A position no entry of the list names receives nothing |
| PeptidoformEdit.PeptidoformBuilder.constructor | rustyms/src/peptidoform/linear_peptide.rs:123-136 | The builder holds the given peptidoform |
| PeptidoformEdit.PeptidoformBuilder.AddGlobal | rustyms/src/peptidoform/linear_peptide.rs:1517-1524 | `add_global` answers `is_valid`; the modification is pushed onto `global` exactly then, and nothing else changes |
| PeptidoformEdit.PeptidoformBuilder.AddModification | rustyms/src/peptidoform/linear_peptide.rs:1350-1361 | The new state is `AddModificationAt` of the old |
| PeptidoformEdit.PeptidoformBuilder.AddSimpleModification | rustyms/src/peptidoform/linear_peptide.rs:394-407 | `add_simple_modification` pushes `Simple(m)` onto the list the position designates |
| PeptidoformEdit.PeptidoformBuilder.AddAmbiguousModification | rustyms/src/peptidoform/linear_peptide.rs:1608-1687 | The new state and the answer are `AddAmbiguous` of the old state, whose cases are the lemmas above |
| PeptidoformPatterns.InRange | rustyms/src/peptidoform/linear_peptide.rs:662-666 | The in-range positions of an entry: exactly the listed positions the range contains, and fewer than all exactly when some position lies outside |
| PeptidoformPatterns.PlaceAtMember | rustyms/src/peptidoform/linear_peptide.rs:674-687 | Extending by one position gives exactly the compatible previous paths, each followed by `(id, pos)` |
| PeptidoformPatterns.PlaceAllMember | rustyms/src/peptidoform/linear_peptide.rs:672-689 | The `flat_map` over the in-range positions gives exactly the compatible previous paths extended by one in-range position |
| PeptidoformPatterns.WellFormedPathExtend | rustyms/src/peptidoform/linear_peptide.rs:656-698 | Extending a well-formed path by a compatible in-range position of the next entry keeps it well formed |
| PeptidoformPatterns.WellFormedPathWiden | rustyms/src/peptidoform/linear_peptide.rs:656-698 | A well-formed path stays well formed when the registry grows |
| PeptidoformPatterns.PatternsWellFormed | rustyms/src/peptidoform/linear_peptide.rs:656-698 | Every path of the fold has strictly increasing ids, so at most one position per entry. Each position is listed by its entry and lies inside the range, and a non-colocalising entry never shares a position with an earlier pair of the path |
| PeptidoformPatterns.PatternsEmpty | rustyms/src/peptidoform/linear_peptide.rs:661 | With no entries the only path is the empty one |
| PeptidoformPatterns.Patterns | rustyms/src/peptidoform/linear_peptide.rs:656-698 | The fold of `ambiguous_patterns` over the registry, one entry at a time; its paths are characterised by `PatternsWellFormed`, `PatternsEmpty`, `PatternsSkipEntry`, `PatternsExtend`, `PatternsKeepUnextended` and `PatternsPlaceEntry` |
| PeptidoformPatterns.PatternsSkipEntry | rustyms/src/peptidoform/linear_peptide.rs:668-670 | An entry with no position in range leaves the paths unchanged |
| PeptidoformPatterns.InRangeNone | rustyms/src/peptidoform/linear_peptide.rs:662-666 | No listed position in range gives no in-range position |
| PeptidoformPatterns.PatternsExtend | rustyms/src/peptidoform/linear_peptide.rs:672-689 | Every earlier path that does not already use a position (or any earlier path, for a colocalising entry) is extended by every in-range position of the new entry |
| PeptidoformPatterns.PatternsKeepUnextended | rustyms/src/peptidoform/linear_peptide.rs:692-694 | When some position of an entry lies outside the range, the unextended earlier paths are kept as well |
| PeptidoformPatterns.PatternsPlaceEntry | rustyms/src/peptidoform/linear_peptide.rs:672-695 | When every position of an entry lies inside the range, every path ends with a placement of that entry |
| PeptidoformPatterns.UnionOfMember | rustyms/src/peptidoform/linear_peptide.rs:637-652 | A name is in the union of the seen sets exactly when some stretch saw it |
| PeptidoformPatterns.FragmentedPositions | rustyms/src/peptidoform/linear_peptide.rs:767-806 | The fragment loop goes over every backbone position in ascending order and keeps exactly the positions that are not skipped |
| PeptidoformPatterns.SkippedIffLoop | rustyms/src/peptidoform/linear_peptide.rs:804-806 | A position is skipped exactly when some cross-link name is reached both from its N-terminal and from its C-terminal side |
| LinearPeptide.Global | src/linear_peptide.rs:53-65 | `global` returns `None` exactly when some pair is invalid, and otherwise appends all pairs in order |
| LinearPeptide.GetNTerm | src/linear_peptide.rs:108-114 | `get_n_term`: H1 plus the N-terminal modification's formula, element by element |
| LinearPeptide.GetCTerm | src/linear_peptide.rs:116-121 | `get_c_term`: H1 O1 plus the C-terminal modification's formula, element by element |
| LinearPeptide.ReverseAsWritten | src/linear_peptide.rs:130-143 | `reverse` as written: each registered location `loc` becomes `len - loc` |
| LinearPeptide.ReverseAsWrittenMisplaces | src/linear_peptide.rs:139 | As written, a one-residue peptide with location 0 gets location 1, past the end |
| LinearPeptide.Reverse | src/linear_peptide.rs:130-143 | `reverse` with locations mapped to `len - 1 - loc`: termini swapped, residues reversed, global, labile and charge carriers kept |
| LinearPeptide.ReverseKeepsResidue | src/linear_peptide.rs:130-143 | After the corrected reversal every location names the residue it named before |
| LinearPeptide.ReverseAsWrittenOffByOne | src/linear_peptide.rs:139 | Each location as written is one more than the corrected one |
| LinearPeptide.ReverseInvolution | src/linear_peptide.rs:130-143 | Reversing twice gives the original peptide |
| LinearPeptide.ReverseSwapsTermFormulas | src/linear_peptide.rs:108-143 | After reversal the terminal formulas trade places up to the O of the C-terminal hydroxyl: the old C-terminal formula is the new N-terminal one plus O, and the old N-terminal formula is the new C-terminal one minus O |
| LinearPeptide.IdsOn | src/linear_peptide.rs:486-515 | The ids of the possible modifications on a residue: exactly those that occur there |
| LinearPeptide.ConsistentLocationsBelow | src/linear_peptide.rs:486-515 | In a consistent peptide every registered location is a residue index |
| LinearPeptide.ReverseKeepsConsistent | src/linear_peptide.rs:130-143 | The corrected reversal keeps the registry consistent with the residues' possible modifications |
| LinearPeptide.ReverseAsWrittenBreaksConsistent | src/linear_peptide.rs:139 | As written, reversal breaks that consistency on a one-residue peptide |
| LinearPeptide.AssumeSimple | src/linear_peptide.rs:154-183 | `assume_simple` fails exactly when there are labile or global modifications, charge carriers, or no residues; otherwise it returns the peptide unchanged |
| LinearPeptide.AssumeVerySimple | src/linear_peptide.rs:185-218 | `assume_very_simple` fails exactly when `assume_simple` would, or there is an ambiguous modification, a B or Z residue, or a `(?AA)` residue; otherwise it returns the peptide unchanged |
| LinearPeptide.AssumeGuardsNested | src/linear_peptide.rs:154-218 | The stricter guard implies the weaker, and both answer the same after reversal |
| LinearPeptide.InsideRangeMember | src/linear_peptide.rs:245-247 | A location is kept exactly when it is listed and inside the range |
| LinearPeptide.FirstOutsideIsFirst | src/linear_peptide.rs:253-256 | The first location outside the range exists exactly when some location is outside; it is listed and every earlier one is inside |
| LinearPeptide.ExtendPath | src/linear_peptide.rs:243-261 | One path extended by every choice, in order |
| LinearPeptide.ExtendAllFrom | src/linear_peptide.rs:241-263 | Each extended path is an earlier path followed by the id and one of its choices |
| LinearPeptide.ExtendAllHas | src/linear_peptide.rs:241-263 | Every earlier path followed by every choice is among the extended paths |
| LinearPeptide.ExtendAllNoChoice | src/linear_peptide.rs:241-263 | An id with no choice extends no path |
| LinearPeptide.ExtendAllNoPath | src/linear_peptide.rs:241-263 | No earlier path gives no extended path |
| LinearPeptide.OldPatternsSound | src/linear_peptide.rs:237-264 | Every placement of the fold gives every id, in order, exactly one of its choices |
| LinearPeptide.OldPatterns | src/linear_peptide.rs:237-264 | The placement fold of the older `ambiguous_patterns`; `OldPatternsMember` gives exactly which placements it yields |
| LinearPeptide.OldPatternsComplete | src/linear_peptide.rs:237-264 | Every such placement is produced by the fold |
| LinearPeptide.OldPatternsMember | src/linear_peptide.rs:237-264 | The placements are exactly those giving each id one location inside the range or its first one outside |
| LinearPeptide.OldPatternsEmptyEntry | src/linear_peptide.rs:237-264 | An id with no location at all leaves no placement |
| LinearPeptide.AmbiguousPatterns | src/linear_peptide.rs:230-321 | The patterns are never empty |
| LinearPeptide.AmbiguousPatternsFallback | src/linear_peptide.rs:317-321 | When no placement survives, the only pattern is the base formula with an empty label |
| LinearPeptide.StretchIdsAsWritten | src/linear_peptide.rs:270-281 | As written, element `k` of a stretch gets the ids placed on location `k`, whatever residue the stretch starts at |
| LinearPeptide.StretchIds | src/linear_peptide.rs:270-281 | Element `k` of a stretch starting at residue `offset` gets the ids placed on residue `offset + k` |
| LinearPeptide.IdsAtMember | src/linear_peptide.rs:267-269 | An id is placed on a location exactly when the pair is in the placement |
| LinearPeptide.StretchIdsMember | src/linear_peptide.rs:270-281 | Each element of a stretch is given exactly the ids placed on its own residue |
| LinearPeptide.StretchIdsAtStart | src/linear_peptide.rs:360-365 | For the N-terminal stretch, which starts at residue 0, the two agree |
| LinearPeptide.StretchIdsAsWrittenMisses | src/linear_peptide.rs:367-372 | For the C-terminal stretch they differ: a placement on residue 2 of a three-residue peptide is lost as written |
| LinearPeptideEdit.ApplyGlobalsResult | src/linear_peptide.rs:452-483 | `apply_global_modifications` answers false exactly when some isotope is invalid; when it answers true, all isotopes were appended to `global` in order |
| LinearPeptideEdit.ApplyGlobals | src/linear_peptide.rs:452-483 | `apply_global_modifications` on a value: the modifications in order, answering false at the first invalid isotope. Its answer, the fields it keeps and the invariant it keeps are stated by `ApplyGlobalsResult`, `ApplyGlobalsKeeps` and `ApplyGlobalsConsistent` |
| LinearPeptideEdit.ApplyGlobalsKeeps | src/linear_peptide.rs:452-483 | Global modifications leave the termini, the labile list, the amino acids, the possible modifications and the `(?AA)` groups alone; residue modification lists only grow |
| LinearPeptideEdit.ApplyGlobalsConsistent | src/linear_peptide.rs:452-483 | Global modifications keep the registry consistent |
| LinearPeptideEdit.PositionsInMember | src/linear_peptide.rs:496-512 | The indices found are exactly those in range whose residue `is_possible` accepts |
| LinearPeptideEdit.PositionsInIncreasing | src/linear_peptide.rs:496-512 | The indices found are strictly ascending |
| LinearPeptideEdit.AttachIds | src/linear_peptide.rs:496-512 | A residue gains the new id exactly when it qualifies |
| LinearPeptideEdit.UnknownStepConsistent | src/linear_peptide.rs:490-514 | One unknown-position modification keeps the registry consistent |
| LinearPeptideEdit.UnknownStep | src/linear_peptide.rs:490-514 | One modification of unknown position: one new registry entry and the qualifying residues gaining it; stated by `UnknownStepEntry` and `UnknownStepConsistent` |
| LinearPeptideEdit.ApplyUnknown | src/linear_peptide.rs:486-515 | `apply_unknown_position_modification` on a value: one step per modification, in order; stated by `ApplyUnknownConsistent` |
| LinearPeptideEdit.UnknownStepEntry | src/linear_peptide.rs:490-514 | Each modification appends one entry, with id equal to the old registry length, listing ascending exactly the qualifying residues; earlier entries are kept |
| LinearPeptideEdit.ApplyUnknownConsistent | src/linear_peptide.rs:486-515 | `apply_unknown_position_modification` keeps the registry consistent and adds one entry per modification |
| LinearPeptideEdit.LookedUp | src/linear_peptide.rs:533-554 | A reference resolves exactly when the lookup table has a name and a modification at its index; where it has none the source panics |
| LinearPeptideEdit.RangedTarget | src/linear_peptide.rs:523-555 | `Defined` always opens a new entry with no score or group; a reference keeps the registry or opens one new entry, only when its id is at or beyond the registry length |
| LinearPeptideEdit.ScoredNone | src/linear_peptide.rs:576-585 | Before any score is set, the residues are as attached |
| LinearPeptideEdit.ScoredStep | src/linear_peptide.rs:578-584 | Setting the score of one more found residue's newest possible modification advances the sharing by that residue |
| LinearPeptideEdit.ScoredAll | src/linear_peptide.rs:576-585 | Once every found residue is scored, every residue carries the modification with the shared score |
| LinearPeptideEdit.RangedStepEntry | src/linear_peptide.rs:556-586 | After a ranged step the target entry holds its old locations plus exactly the qualifying residues in `start..=end` |
| LinearPeptideEdit.RangedStep | src/linear_peptide.rs:522-587 | One ranged modification: `None` where the source panics, otherwise the qualifying residues of `start..=end` gain it with the score's share; stated by `RangedStepEntry` and `RangedStepConsistent` |
| LinearPeptideEdit.ApplyRanged | src/linear_peptide.rs:517-588 | `apply_ranged_unknown_position_modification` on a value: the ranged modifications in order, `None` when one panics; stated by `ApplyRangedConsistent` |
| LinearPeptideEdit.RangedStepConsistent | src/linear_peptide.rs:522-587 | One ranged modification keeps the registry consistent |
| LinearPeptideEdit.ApplyRangedConsistent | src/linear_peptide.rs:517-588 | `apply_ranged_unknown_position_modification` keeps the registry consistent |
| LinearPeptideEdit.ShareSums | src/linear_peptide.rs:576-577 | The individual shares of a score add back up to it when a position was found |
| LinearPeptideEdit.MutableLinearPeptide.constructor | src/linear_peptide.rs:47-51 | The mutable peptide holds the given value |
| LinearPeptideEdit.MutableLinearPeptide.ApplyGlobalModifications | src/linear_peptide.rs:452-483 | The new state and the answer are those of `ApplyGlobals`, including stopping at the first invalid isotope with earlier modifications applied |
| LinearPeptideEdit.MutableLinearPeptide.PushWhereQualifies | src/linear_peptide.rs:459-475 | A fixed or free modification is pushed onto exactly the residues it qualifies for |
| LinearPeptideEdit.MutableLinearPeptide.AttachWhereQualifies | src/linear_peptide.rs:496-512 | The qualifying residues of the range gain the possible modification, and the indices found are returned ascending |
| LinearPeptideEdit.MutableLinearPeptide.ApplyUnknownPositionModification | src/linear_peptide.rs:486-515 | The new state is `ApplyUnknown` of the old |
| LinearPeptideEdit.MutableLinearPeptide.ShareScore | src/linear_peptide.rs:576-585 | Every found residue's newest possible modification gets the score divided by the number found |
| LinearPeptideEdit.MutableLinearPeptide.PlaceRanged | src/linear_peptide.rs:522-587 | One round of the loop: the new state is `RangedStep` of the old |
| LinearPeptideEdit.MutableLinearPeptide.ApplyRangedUnknownPositionModification | src/linear_peptide.rs:517-588 | The new state is `ApplyRanged` of the old |
| Glycan.Position | rustyms/src/glycan/positioned_structure.rs:215-222 | `position` sets the series number to the outer depth plus one and copies the inner depth, branch and attachment |
| Glycan.StructureFormula | rustyms/src/glycan/positioned_structure.rs:29-36 | The formula of a node is its sugar's plus the sum of its branches' |
| Glycan.Row | rustyms/src/glycan/positioned_structure.rs:194-199 | One base combined with each option: formulas summed, break lists concatenated option first |
| Glycan.Product | rustyms/src/glycan/positioned_structure.rs:192-201 | The Cartesian product has `|acc| * |options|` entries |
| Glycan.AddSugar | rustyms/src/glycan/positioned_structure.rs:205 | The sugar's formula is added to every option |
| Glycan.FoldProductLength | rustyms/src/glycan/positioned_structure.rs:185-203 | The fold's length is the product of the branches' option counts |
| Glycan.InternalBreakPointsCount | rustyms/src/glycan/positioned_structure.rs:173-211 | A leaf has two options; an inner node has the product of its branches' counts plus one |
| Glycan.InternalBreakPoints | rustyms/src/glycan/positioned_structure.rs:167-213 | `internal_break_points`: the options of a leaf, and the branches' Cartesian product plus the break at this node for an inner node; counted by `InternalBreakPointsCount`, shaped by `InternalBreakPointsHaveNoB` and `UniqueAllEndOption` |
| Glycan.RowEndOrYOnly | rustyms/src/glycan/positioned_structure.rs:194-199 | Combining End/Y-only options gives End/Y-only options |
| Glycan.ProductEndOrYOnly | rustyms/src/glycan/positioned_structure.rs:192-201 | The same for the product |
| Glycan.FoldProductEndOrYOnly | rustyms/src/glycan/positioned_structure.rs:185-203 | The same for the fold |
| Glycan.InternalBreakPointsHaveNoB | rustyms/src/glycan/positioned_structure.rs:167-213 | `internal_break_points` only produces `End` and `Y` breaks, never `B` |
| Glycan.AllEndFormulasAppend | rustyms/src/glycan/positioned_structure.rs:173-211 | The all-End options of a concatenation are those of each part |
| Glycan.AllEndConcat | rustyms/src/glycan/positioned_structure.rs:197 | A concatenated break list is all End exactly when both parts are |
| Glycan.RowAllEnd | rustyms/src/glycan/positioned_structure.rs:194-199 | Combining with options that have one all-End option gives one all-End option exactly when the base is all End |
| Glycan.RowAllEndGeneral | rustyms/src/glycan/positioned_structure.rs:194-199 | In general, the all-End options of a row are the options' all-End formulas plus the base's, when the base is all End |
| Glycan.ProductAllEnd | rustyms/src/glycan/positioned_structure.rs:192-201 | In a product the all-End options are exactly the pairs of all-End options |
| Glycan.FoldProductAllEnd | rustyms/src/glycan/positioned_structure.rs:185-203 | If every branch has one all-End option, the fold has one, whose formula is their sum |
| Glycan.AllEndFormulasWithY | rustyms/src/glycan/positioned_structure.rs:206-210 | The option of breaking at this node adds no all-End option |
| Glycan.InnerAllEnd | rustyms/src/glycan/positioned_structure.rs:185-211 | Below an inner node the one all-End option keeps the sugar and every branch |
| Glycan.UniqueAllEndOption | rustyms/src/glycan/positioned_structure.rs:29-36 | Exactly one internal option is all End, and its formula is the node's `formula()` |
| Glycan.AddSugarAllEnd | rustyms/src/glycan/positioned_structure.rs:205 | Adding the sugar adds it to every all-End formula |
| Glycan.OxoniumOptions | rustyms/src/glycan/positioned_structure.rs:132-156 | The internal options that become oxonium fragments are at most as many as the options |
| Glycan.BranchOxonium | rustyms/src/glycan/positioned_structure.rs:158-162 | One list of fragments per branch |
| Glycan.OxoniumOptionsWellFormed | rustyms/src/glycan/positioned_structure.rs:132-156 | Each internal oxonium fragment has a non-zero formula and breaks that are not all End, followed by this node's B break and no other B |
| Glycan.OxoniumFragmentsShape | rustyms/src/glycan/positioned_structure.rs:118-164 | The first fragment is the B ion carrying the whole node formula, and every oxonium fragment anywhere in the tree is well formed |
| Glycan.OxoniumFragments | rustyms/src/glycan/positioned_structure.rs:118-164 | The B and oxonium fragments of a sub-tree; their shape is stated by `OxoniumFragmentsShape` |
| Glycan.BrokenPositions | rustyms/src/glycan/positioned_structure.rs:75-80 | The Y label omits the End positions |
| Glycan.YOfOption | rustyms/src/glycan/positioned_structure.rs:68-85 | One Y fragment per full formula: `full - formula() + retained` |
| Glycan.YFragmentsCount | rustyms/src/glycan/positioned_structure.rs:61-85 | The Y filter keeps every internal option except the all-End one, each giving one fragment per full formula |
| Glycan.YFragments | rustyms/src/glycan/positioned_structure.rs:61-88 | The Y fragments of a structure; their number is stated by `YFragmentsCount` and their last ones by `YFragmentsLoseAll` |
| Glycan.YOptionsAllButOne | rustyms/src/glycan/positioned_structure.rs:64-67 | Of End/Y-only options with exactly one all-End option, all the others pass the filter |
| Glycan.YFragmentsLoseAll | rustyms/src/glycan/positioned_structure.rs:61-85 | The last Y fragments are the full formula minus the whole node, labelled with this node alone |
| Glycan.LoseAllFragment | rustyms/src/glycan/positioned_structure.rs:64-85 | The option that loses the whole sub-tree passes the filter and gives that fragment |
| Glycan.LastBreakOption | rustyms/src/glycan/positioned_structure.rs:206-210 | The last internal option is the break at this node |
| Glycan.YOptionsSnoc | rustyms/src/glycan/positioned_structure.rs:62-85 | One more option adds its own Y fragments after the others |
| Glycan.PreOrder | rustyms/src/glycan/positioned_structure.rs:100-115 | A pre-order walk starts at the node itself |
| Glycan.BranchWalks | rustyms/src/glycan/positioned_structure.rs:108-112 | One walk per branch |
| Glycan.BranchIons | rustyms/src/glycan/positioned_structure.rs:108-112 | One list of ions per branch |
| Glycan.NodeIonsAppend | rustyms/src/glycan/positioned_structure.rs:100-115 | The ions of concatenated node lists are concatenated |
| Glycan.NodeIonsFlatten | rustyms/src/glycan/positioned_structure.rs:100-115 | The ions of concatenated walks are the concatenated ions |
| Glycan.DiagnosticIonsPreOrder | rustyms/src/glycan/positioned_structure.rs:100-115 | The diagnostic ions are the node's own ions, then each branch's, in pre-order |
| Glycan.DiagnosticIons | rustyms/src/glycan/positioned_structure.rs:100-115 | The diagnostic ions of a sub-tree; stated in pre-order by `DiagnosticIonsPreOrder` |
| Glycan.ExpandIdentity | rustyms/src/glycan/positioned_structure.rs:54-59 | Expanding each fragment into itself changes nothing |
| Glycan.GenerateTheoreticalFragmentsParts | rustyms/src/glycan/positioned_structure.rs:42-97 | With no glycan setting there are no fragments; otherwise the oxonium fragments, then the Y fragments, then the diagnostic ions |
| Glycan.GenerateTheoreticalFragments | rustyms/src/glycan/positioned_structure.rs:42-97 | `generate_theoretical_fragments`, with the charge and loss expansions as parameters; its parts are stated by `GenerateTheoreticalFragmentsParts` |
| Glycan.ExpandSame | rustyms/src/glycan/positioned_structure.rs:54-59 | Expansions that agree on every fragment give the same list |
| MzPaf.Shift | rustyms/src/mzpaf.rs:31-35 | Moving a range's start by `k` succeeds exactly when `k` is at most its length |
| MzPaf.SpanUntil | rustyms/src/mzpaf.rs:148-154 | The span up to the first closing character, or to the end |
| MzPaf.ParseAnalyteNumberAsWritten | rustyms/src/mzpaf.rs:62-88 | `parse_analyte_number` as written, looking for `@` at the absolute index of the number's length |
| MzPaf.ParseAnalyteNumber | rustyms/src/mzpaf.rs:62-88 | `parse_analyte_number` with `@` looked for after the number; the rest of the range stays inside the line |
| MzPaf.ParseAnalyteNumberCases | rustyms/src/mzpaf.rs:66-86 | No number leaves the range unchanged with `None`. A number not followed by `@` is an error, and a number followed by `@` moves the range past the `@` |
| MzPaf.ParseIonCases | rustyms/src/mzpaf.rs:93-337 | An empty range is an error, and so is an unhandled first character. A main-series letter needs its ordinal and consumes one more than its digits. `?` without an ordinal is `Unknown(None)`. `p` is the precursor, consuming 1. `s` panics, and a parsed ion consumes at least one character |
| MzPaf.ParseIonDispatch | rustyms/src/mzpaf.rs:94-327 | The first character selects the branch |
| MzPaf.ParseIonAsWritten | rustyms/src/mzpaf.rs:93-337 | `parse_ion` as written, with the internal and immonium branches as written |
| MzPaf.ParseIon | rustyms/src/mzpaf.rs:93-337 | `parse_ion` with those two branches corrected; its cases are stated by `ParseIonCases` and `ParseIonDispatch`, its round trip by `ParseIonReads` |
| MzPaf.ParseCharge | rustyms/src/mzpaf.rs:397-420 | No `^` gives `(0, 1)`; a non-zero count means a `^` followed by a number |
| MzPaf.ParseDeviationCases | rustyms/src/mzpaf.rs:453-488 | No `/` gives `(0, None)`, and `/` without a number is an error. Otherwise the deviation is relative with 3 more characters consumed exactly when `ppm` in any case follows the number |
| MzPaf.ParseDeviation | rustyms/src/mzpaf.rs:453-488 | `parse_deviation`; its cases are stated by `ParseDeviationCases`, its round trip by `ParseDeviationReads` |
| MzPaf.ParseIonReads | rustyms/src/mzpaf.rs:93-337 | The ion parser reads back a printed ion and stops at the charge |
| MzPaf.UnknownReads | rustyms/src/mzpaf.rs:95-112 | The `?` branch reads back a printed unknown ion |
| MzPaf.MainSeriesReads | rustyms/src/mzpaf.rs:113-138 | The main-series branch reads back a printed main-series ion |
| MzPaf.ImmoniumReads | rustyms/src/mzpaf.rs:139-185 | The immonium branch, counting the brackets, reads back a printed immonium ion |
| MzPaf.InternalReads | rustyms/src/mzpaf.rs:186-240 | The corrected internal branch reads back a printed internal ion |
| MzPaf.InternalLayout | rustyms/src/mzpaf.rs:186-240 | Where the separator and the ordinals of a printed internal ion lie |
| MzPaf.InternalIonWhen | rustyms/src/mzpaf.rs:186-240 | Given both ordinals and the separator after the first, the branch returns the internal ion consuming both numbers and two characters |
| MzPaf.NamedReads | rustyms/src/mzpaf.rs:241-268 | The `_` branch reads back a printed named ion |
| MzPaf.InternalIonAsWritten | rustyms/src/mzpaf.rs:186-240 | The `m` branch as written; `InternalAsWrittenRefuses` exhibits its refusal of `m4:6` |
| MzPaf.InternalIon | rustyms/src/mzpaf.rs:186-240 | The `m` branch with the separator looked for after the first ordinal; stated by `InternalIonWhen` and `InternalReads` |
| MzPaf.ImmoniumIonCounting | rustyms/src/mzpaf.rs:139-185 | The `I` branch, with the bracket count a parameter: 0 as written (`ImmoniumAsWrittenShort`), 2 corrected (`ImmoniumReads`) |
| MzPaf.AnalyteReads | rustyms/src/mzpaf.rs:62-88 | The analyte parser reads back a printed analyte number, or its absence |
| MzPaf.ParseChargeReads | rustyms/src/mzpaf.rs:397-420 | The charge parser reads back `^z` |
| MzPaf.ParseDeviationReads | rustyms/src/mzpaf.rs:453-488 | The deviation parser reads back a printed deviation |
| MzPaf.DeviationLayout | rustyms/src/mzpaf.rs:453-488 | Where the number and the unit of a printed deviation lie |
| MzPaf.ParseDeviationWhen | rustyms/src/mzpaf.rs:471-485 | Once the number is read, `ppm` in any case makes the deviation relative and adds 3 characters, otherwise it is absolute |
| MzPaf.AnnotationRoundTrip | rustyms/src/mzpaf.rs:22-46 | Parsing a printed annotation gives it back |
| MzPaf.ParseAnnotationAsWritten | rustyms/src/mzpaf.rs:22-46 | `parse_annotation` as written; `AnnotationAsWrittenRefuses` exhibits its refusal of `p^1` |
| MzPaf.ParseAnnotation | rustyms/src/mzpaf.rs:22-46 | `parse_annotation` with the offsets accumulated; `AnnotationRoundTrip` proves it reads every printed annotation back |
| MzPaf.AnnotationReads | rustyms/src/mzpaf.rs:22-46 | A line spelling an annotation after an optional `&` parses to it, with the auxiliary flag set by the `&` |
| MzPaf.AnnotationWhen | rustyms/src/mzpaf.rs:22-46 | Once the analyte number and what follows are read, the annotation is assembled from them |
| MzPaf.IonOnwardsReads | rustyms/src/mzpaf.rs:30-45 | The ion, charge and deviation parsers read back a printed tail |
| MzPaf.IonThenRestWhen | rustyms/src/mzpaf.rs:30-31 | The ion and what follows are read one after the other |
| MzPaf.AfterIonReads | rustyms/src/mzpaf.rs:31-45 | What follows a printed ion is read from where the ion ends |
| MzPaf.IonOnwardsWhen | rustyms/src/mzpaf.rs:31 | What follows an ion is read from where it ends |
| MzPaf.LossesOnwardsReads | rustyms/src/mzpaf.rs:31-45 | With no neutral loss, the charge and the deviation are read back and end the range |
| MzPaf.LossesOnwardsWhen | rustyms/src/mzpaf.rs:31-45 | The annotation is accepted when the deviation ends at the end of the range |
| MzPaf.InternalAsWrittenRefuses | rustyms/src/mzpaf.rs:195 | As written `m4:6` is refused for a missing separator; corrected it is `Internal(4, 6)` |
| MzPaf.AnalyteAsWrittenRefuses | rustyms/src/mzpaf.rs:69 | As written `&1@p` is refused for a missing `@`; corrected it reads analyte 1 |
| MzPaf.ImmoniumAsWrittenShort | rustyms/src/mzpaf.rs:147-172 | As written `IA[x]` consumes 3 characters, leaving `x]`; corrected it consumes all 5 |
| MzPaf.AnnotationAsWrittenRefuses | rustyms/src/mzpaf.rs:31-37 | As written `p^1` is refused as having unparsed characters; corrected it is the precursor with charge 1 |
| IdentifiedPeptide.SpectrumIndex | rustyms/src/identification/identified_peptide.rs:302-307 | `index` is `Some` exactly for an index, holding it |
| IdentifiedPeptide.SpectrumNative | rustyms/src/identification/identified_peptide.rs:310-315 | `native` is `Some` exactly for a native id, holding it |
| IdentifiedPeptide.IndexOrNative | rustyms/src/identification/identified_peptide.rs:302-315 | Exactly one accessor answers, and its answer gives the id back |
| IdentifiedPeptide.Charge | rustyms/src/identification/identified_peptide.rs:122-133 | `charge` is `None` exactly for FASTA metadata, and otherwise the recorded `z` |
| IdentifiedPeptide.ReadItemCases | rustyms/src/identification/identified_peptide.rs:410-427 | A source error passes through unparsed. A latched format stays and is the one `parse_specific` gets. Without one, the format is set exactly when `parse` succeeds, to the format it reports; when `parse` fails its error is the item |
| IdentifiedPeptide.ReadItem | rustyms/src/identification/identified_peptide.rs:410-427 | Reading one record with the format detected so far; its cases are stated by `ReadItemCases` |
| IdentifiedPeptide.Drain | rustyms/src/identification/identified_peptide.rs:439-461 | Successive reads yield one item per source record |
| IdentifiedPeptide.FormatNeverReset | rustyms/src/identification/identified_peptide.rs:444-447 | Once a format is latched no read resets it |
| IdentifiedPeptide.DrainLatched | rustyms/src/identification/identified_peptide.rs:444-447 | With a latched format every record goes through `parse_specific`, and a source error comes out as itself |
| IdentifiedPeptide.FormatUndetected | rustyms/src/identification/identified_peptide.rs:449-461 | No format is ever detected exactly when `parse` accepts no record |
| IdentifiedPeptide.FormatFromFirst | rustyms/src/identification/identified_peptide.rs:449-461 | The format latched is the one `parse` reports for the first record it accepts |
| IdentifiedPeptide.IdentifiedPeptideIter.constructor | rustyms/src/identification/identified_peptide.rs:347-357 | `parse_many`: no format and nothing cached |
| IdentifiedPeptide.IdentifiedPeptideIter.Pull | rustyms/src/identification/identified_peptide.rs:410-427 | An exhausted source yields `None` and changes nothing; otherwise one record is consumed and read as `ReadItem` says |
| IdentifiedPeptide.IdentifiedPeptideIter.Peek | rustyms/src/identification/identified_peptide.rs:405-430 | A cached item is returned again with nothing changed; otherwise the next record is read and cached |
| IdentifiedPeptide.IdentifiedPeptideIter.Next | rustyms/src/identification/identified_peptide.rs:439-462 | A cached item is handed out and the cache cleared without touching the source; otherwise the next record is read, and nothing is cached afterwards |
| IdentifiedPeptide.PeekThenNext | rustyms/src/identification/identified_peptide.rs:405-462 | Peeking and then taking the next item yields the same item, consumes one record and leaves nothing cached |
| Mgf.TrimEnd | src/mgf.rs:78 | `trim_end_matches`: a prefix with no trailing `c`, and only `c` cut off |
| Mgf.TrimEndRun | src/mgf.rs:78 | Trimming a run of `c` off text not ending in `c` gives the text back |
| Mgf.ParseChargeSigns | src/mgf.rs:75-87 | A number followed by `+` signs is its value, followed by `-` signs its negation, plain its value; each fails exactly when the number does not parse |
| Mgf.ParseCharge | src/mgf.rs:75-87 | `parse_charge`; its three cases and their failures are stated by `ParseChargeSigns` |
| Mgf.FirstIndex | src/mgf.rs:42 | `split_once` splits at the first `=` |
| Mgf.Split | src/mgf.rs:53 | `split(' ')` gives at least one piece |
| Mgf.SplitJoin | src/mgf.rs:53-61 | Split pieces joined back give the line, no piece holds a space, and a line with a space has at least two pieces |
| Mgf.KeyValue | src/mgf.rs:41-51 | A header line sets only its key's field, `TITLE` to the value. A value that does not parse is an error exactly for PEPMASS, RT, CHARGE and NUM_SCANS; unknown keys change nothing |
| Mgf.PeakOf | src/mgf.rs:52-67 | A peak is read exactly when there are two fields that parse and any third is a valid charge. Its m/z is the first field and its intensity the second; its charge is the third field, or 1 |
| Mgf.Line | src/mgf.rs:28-70 | The dispatch of one line; its cases are stated by `EndIonsFlushes`, `DelimitersIgnored`, `HeaderBeforePeak` and `PeaksAppended` |
| Mgf.Read | src/mgf.rs:25-71 | The state after the lines read so far, failing at the first failing line; stated by `ReadErrSticks` and `ReadSnoc` |
| Mgf.ReadErrSticks | src/mgf.rs:25-71 | A line that fails makes the whole read fail |
| Mgf.ReadSnoc | src/mgf.rs:25-71 | The read of one more line is that line applied to the read so far |
| Mgf.EndIonsFlushes | src/mgf.rs:30-40 | `END IONS` appends the spectrum being filled and starts a blank one |
| Mgf.DelimitersIgnored | src/mgf.rs:29 | `BEGIN IONS` and empty lines change nothing |
| Mgf.HeaderBeforePeak | src/mgf.rs:41-52 | A line with `=` is a header even when it holds a space: the key is the text before the first `=`, and no peak or spectrum is added |
| Mgf.PeaksAppended | src/mgf.rs:52-67 | Peak lines append their peaks to the current spectrum in input order and change nothing else |
| Mgf.OutputCount | src/mgf.rs:30-40 | The number of spectra returned is the number of `END IONS` lines |
| Mgf.UnclosedDropped | src/mgf.rs:25-72 | Lines after the last `END IONS` add no spectrum |
| Mgf.ReadLine | src/mgf.rs:28-70 | One round of the loop's dispatch computes `Line` |
| Mgf.Open | src/mgf.rs:14-73 | The loop over the lines returns the spectra closed by `END IONS`, or fails at the first failing line |
| Mgf.OpenLines | src/mgf.rs:14-73 | `open` on the file's lines; its output is counted by `OutputCount`, and `UnclosedDropped` shows that an unclosed spectrum is dropped |

## Left out

- File and stream I/O: the lines of an MGF file and the records of an identification file are input sequences. The `parse_file` and `parse_reader` entry points are not modelled, and neither is the line number that `open` counts but never uses.
- Floating-point numbers are `real`, or are produced by parser parameters. This covers the MGF masses, intensities and charges, the localisation scores, and the mzPAF deviations. Rounding, NaN and the division by zero of `score / positions.len()` on an empty range are not modelled; that division has no effect there, because the loop that follows is empty.
- `add_ambiguous_modification` and the one-position case re-sort the residue's modification list (`sort_unstable`, rustyms/src/peptidoform/linear_peptide.rs:1626, 1663). The model appends instead, because the derived order on `Modification` depends on types that are not part of this model.
- PeptidoformEdit.PeptidoformBuilder.AddAmbiguousModification: does not model that re-sort (see the previous line). Its lemmas state the lists' contents, not the order after sorting.
- The code of `SequencePosition::reverse`, `peptide_range_contains` and mzPAF's `add_start` is not modelled here. Their assumed meanings are stated as `Common.ReversePosition` (termini swap, index `i` becomes `len - 1 - i`) and `Common.RangeContainsPosition` (N terminus when the range starts at 0, C terminus when it ends at the length, an index when it is in the range), and `MzPaf.Shift` (moving a range's start past its end is the `Panics` error).
- The formula and label computation of both `ambiguous_patterns` (the `Multi` products, the `formulas_base` fold and the `@` labels) is a parameter (`evaluate`). Only the placement folds and the ids each residue is given are modelled.
- The full fragment generators (`generate_theoretical_fragments_inner`, `AminoAcid::fragments`, `Fragment::with_charges` and `with_neutral_losses`) are left out. Only the loop-skip decision, over abstract cross-link name sets, and the glycan fragment lists are modelled.
- `display`, `Display` and the `From`/`FromIterator` conversions are left out. They depend on display and conversion routines that are not part of this model.
- mzPAF: these are parameters, because their code is not part of this model:
  - `next_number` (`Readers.ordinal`, `charge`, `deviation`);
  - the Unimod name lookup of an immonium modification;
  - the amino-acid conversion;
  - the named-molecule table;
  - the mzPAF formula parser.
  `parse_neutral_loss` is a parameter that reports the characters it consumed, and the reference readers consume none. The `s` branch is `todo!` and is modelled as the panic error. The stub `parse_mzpaf` is left out.
- MzPaf.ParseAnnotation: the source chains the sub-parsers in one function. The model splits that chain into `ParseIonOnwards`, `ParseAfterIon` and `ParseLossesOnwards`, and it returns the parsed parts instead of the empty `Fragment::default()` the source returns.
- MzPaf.ImmoniumIonCounting: counts characters, not the UTF-8 bytes `len_utf8` measures, so it agrees with the source on ASCII annotations only.
- The MGF guard `split.len() < 2` (src/mgf.rs:59-61) is folded into `Mgf.PeakOf`. `Mgf.SplitJoin` proves that a line holding a space always splits into at least two fields, so the guard never fires there.
- LinearPeptideEdit.MutableLinearPeptide.ApplyRangedUnknownPositionModification: the `unwrap`s of the lookup by reference (src/linear_peptide.rs:533-554) panic when the referenced entry has no name or no modification. The functions model that as `None`, and the method requires that it does not happen, because a panic cannot be a state of the peptide.
- Peptidoform.SubPeptide: requires a non-empty peptide, because the source computes `self.len() - 1` unsigned (rustyms/src/peptidoform/linear_peptide.rs:1392), which panics on an empty one.
- Peptidoform.Iter: requires a non-empty peptide, because the source indexes the N and C termini eagerly (rustyms/src/peptidoform/linear_peptide.rs:590, 607). That indexing is `sequence[0]` and `last().unwrap()` (1774-1776), which panic on an empty peptide.
- Peptidoform.Digest: requires a non-empty peptide (its `sub_peptide` calls panic otherwise). It also requires the protease's `match_locations` to return ascending sites no larger than the length, because otherwise `sub_peptide(start..end)` panics on the slice. The protease is not part of this model, so that ordering is an assumption on its output.
- PeptidoformEdit.PeptidoformBuilder.AddModification: requires a valid position, because `self.sequence[index]` panics out of range (rustyms/src/peptidoform/linear_peptide.rs:1358).
- PeptidoformEdit.PeptidoformBuilder.AddSimpleModification: requires a valid position, because indexing the sequence panics out of range (rustyms/src/peptidoform/linear_peptide.rs:402-403).
- PeptidoformEdit.PeptidoformBuilder.AddAmbiguousModification: requires every listed position to be valid, because `self.sequence[pos]` panics out of range (rustyms/src/peptidoform/linear_peptide.rs:1625, 1653-1654).
- The integer widths of the source (`usize`, `u32`, `NonZeroU16`) are unbounded naturals, so overflow of the number scanners is the parameter's concern.
- Glycan: the leaf case builds its `End` option from `self.formula()`, which for a leaf is the sugar's formula. The charge expansion and the neutral losses of fragments are collaborators. They are only checked for their identity instances in `Glycan.GenerateTheoreticalFragmentsParts`.
- Other files (`src/isobaric_sets.rs`, `src/rawfile/thermo.rs`, the de-novo alignment program and the `*_tests.rs` files) are outside the modelled core. `src/isobaric_sets.rs` is a floating-point backtracking search that prints as it goes. `src/rawfile/thermo.rs` wraps an external reader. The de-novo alignment program is a command-line tool. The `*_tests.rs` files are test data for readers that are not part of this model.
- The `labile` builder and the `add_unknown_position_modification` operation of the current crate are not modelled; only the operations listed above are.

## Findings

| source | as written | input that shows it | evidently intended | confidence | as-written member | corrected member |
|---|---|---|---|---|---|---|
| src/linear_peptide.rs:139 | `reverse` maps a registered location `loc` to `len - loc` | a one-residue peptide with location 0 gets location 1, past the end | `len - 1 - loc`, the index the residue moves to | high (not executed) | LinearPeptide.ReverseAsWritten, LinearPeptide.ReverseAsWrittenMisplaces, LinearPeptide.ReverseAsWrittenBreaksConsistent | LinearPeptide.Reverse, LinearPeptide.ReverseKeepsConsistent |
| src/linear_peptide.rs:279 | the residues of a stretch are matched against the placement by their index within the slice | three residues, position 1: the C-terminal stretch is residue 2, and a placement on residue 2 is not given to it | match by absolute residue index (slice offset plus index) | medium (not executed) | LinearPeptide.StretchIdsAsWritten, LinearPeptide.StretchIdsAsWrittenMisses | LinearPeptide.StretchIds, LinearPeptide.StretchIdsMember |
| rustyms/src/mzpaf.rs:195 | the `:` of an internal ion is looked for at the index of the first ordinal's length | `m4:6` is refused | the index after `m` and the first ordinal | high (not executed) | MzPaf.InternalIonAsWritten, MzPaf.InternalAsWrittenRefuses | MzPaf.InternalIon, MzPaf.InternalReads |
| rustyms/src/mzpaf.rs:69 | the `@` after an analyte number is looked for at an absolute index of the line | `&1@p` is refused | the index right after the number within the range | high (not executed) | MzPaf.ParseAnalyteNumberAsWritten, MzPaf.AnalyteAsWrittenRefuses | MzPaf.ParseAnalyteNumber, MzPaf.AnalyteReads |
| rustyms/src/mzpaf.rs:147-172 | an immonium modification's length omits its brackets | `IA[x]` consumes 3 of its 5 characters | count `[` and `]` as well | medium (not executed) | MzPaf.ImmoniumIonCounting, MzPaf.ImmoniumAsWrittenShort | MzPaf.ImmoniumReads |
| rustyms/src/mzpaf.rs:31-37 | each sub-parser after the ion starts at the annotation's start plus only the previous one's count, and the end check looks only at the deviation's count | `p^1` is refused | each sub-parser starts where the previous stopped, and the annotation is accepted when the last one ends the range | high (not executed) | MzPaf.ParseAnnotationAsWritten, MzPaf.AnnotationAsWrittenRefuses | MzPaf.ParseAnnotation, MzPaf.AnnotationRoundTrip |
| rustyms/src/peptidoform/linear_peptide.rs:1412 | every row of `digest` starts with `skip(index)`, so its first end is its own start | any peptide with `max_missed_cleavages` 0: every piece is empty, and the piece up to the first cut is missing | `skip(index + 1)`, pieces ending at the following sites | high (not executed) | Peptidoform.Digest, Peptidoform.DigestAsWrittenEmpty | Peptidoform.CorrectedDigestPieces, Peptidoform.CorrectedDigestMember, Peptidoform.CorrectedDigestFirstPiece |
