# qref_prep bookkeeping, modelled in Dafny

`scripts/qref_prep.py` prepares one or more QM subsystems of a crystallographic
model for QM/MM quantum refinement. Around its calls into iotbx/cctbx it does
a fixed amount of bookkeeping, and that bookkeeping is what this project
models and proves things about:

- **Renumbering** (`atom_index.dfy`). `convert_serial_to_index` maps every QM
  serial to its position among the sorted serials. `restore_serial_in_model`
  inverts that map and rewrites the numbering column of every atom of the
  extracted subsystem, in place, back to the original serial, right-justified
  to five characters.
- **Link pairs** (`link_resolver.dfy`). `identify_link_pairs` finds, for every
  link atom, the nearest carbon other than the link atom itself. The nested
  scan uses a strict `<`, so the first of equally near carbons wins.
- **Capping factors** (`capping.dfy`). `calculate_g_factor` looks up the
  junction table by residue, then bond `"partner-link"`, then link type. It
  divides the value found by the ideal length of the bond, and stops at the
  first missing entry.
- **Directives** (`directives.dfy`). The distance-restraint, angle-restraint
  and transform options of `main` are filtered by their subsystem number and
  unpacked positionally: a 3×3 rotation read row by row and a translation.
- **Restart file** (`restart.dfy`). `prepare_restart` reads lines until the
  first empty read. It copies every line whose stripped six-character record
  name is on a twelve-name list.
- **Selection string** (`selection.dfy`). `suggest_selection_string` builds
  the string by appending terms with trailing separators and then cutting
  the separators off.

Supporting modules:

- `wrappers.dfy` holds Option, Result and Outcome, which stand in for Python's
  exceptions.
- `text.dfy` holds the Python string operations the script relies on:
  `str.strip()`, `int()`, `str()` and `str.rjust()`.
- `dicts.dfy` holds an insertion-ordered dictionary, as a Python `dict`
  behaves.
- `atoms.dfy` holds the atom record.

Every loop of the modelled functions is a Dafny method with a loop whose
invariant ties it to a specification function. The lemmas are stated about
those functions. The loop of `calculate_g_factor` is the method FillFactors,
which runs over the link pairs with the per-pair factor as a parameter. The
atom array that `restore_serial_in_model` updates is a Dafny `array`, and so
is the atom array the other two model routines read.

Some definitions carry no contract of their own. The rows below state what is
proved about them:

- Capping.BondKey (scripts/qref_prep.py:42) is `'-'.join([partner name, link name])`, both names stripped.
- AtomIndex.PdbSerial (scripts/qref_prep.py:65-66) is `str(serial).rjust(5)`.
- AtomIndex.RestoredSerial (scripts/qref_prep.py:66) is `index_to_serial[int(atom.serial) - 1]`, with its ValueError and KeyError.
- Restart.IsRestartRecord (scripts/qref_prep.py:107, 111) is the test `line[0:6].strip() in records`.
- Restart.Lines (scripts/qref_prep.py:109, 113) is the sequence of lines that successive `readline()` calls return.
- Restart.Kept (scripts/qref_prep.py:110-112) is the lines that pass that test, in order.
- Directives.Collected (scripts/qref_prep.py:185-194) is the loop over one option's directives, keeping those tagged with the subsystem number and unpacking them.
- Selection.SelectionString (scripts/qref_prep.py:71-77) is the string built by appending and then cut.

## Model

| member | source | states |
|---|---|---|
| AtomIndex.SortSerials | scripts/qref_prep.py:55 | `sorted(qm)`: the result is ascending and a permutation of the serials (same multiset), so it has the same length. |
| AtomIndex.ConvertSerialToIndex | scripts/qref_prep.py:54-59 | Every QM serial is a key, and nothing else is. Each key maps to a position of the sorted serials that holds it, and no later position holds it (the loop's last write wins). |
| AtomIndex.IndexMapUnique | scripts/qref_prep.py:54-59 | Any two maps meeting that description are equal, so the serials determine the index map. |
| AtomIndex.ThreeSerialsExample | scripts/qref_prep.py:54-59 | For the serials 5, 2, 9 the index map is exactly 2→0, 5→1, 9→2. |
| AtomIndex.ThreeSerialsInverse | scripts/qref_prep.py:63 | The inverse of 2→0, 5→1, 9→2 is 0→2, 1→5, 2→9, so index 1 maps back to serial 5. |
| AtomIndex.IndexMapIsInjective | scripts/qref_prep.py:54-59 | No two serials share an index. |
| AtomIndex.IndexIsRank | scripts/qref_prep.py:54-59 | With distinct serials, each index is the number of QM serials smaller than its serial. |
| AtomIndex.IndexValuesDense | scripts/qref_prep.py:54-59 | The indices are exactly 0 .. n-1 if and only if the serials hold no duplicate. |
| AtomIndex.DuplicateLeavesGap | scripts/qref_prep.py:54-59 | With a duplicate serial, some position below n is nobody's index. |
| AtomIndex.SortedDistinct | scripts/qref_prep.py:55 | The sorted serials are free of duplicates if and only if the serials are. |
| AtomIndex.InvertMap | scripts/qref_prep.py:63 | For an injective map, the inverse comprehension has the map's values as keys. It sends each value back to its key, and each of its keys to a key of the map that sends it there. |
| AtomIndex.InverseIsSorted | scripts/qref_prep.py:63 | With distinct serials, the inverse maps every index i below n to the i-th smallest serial. |
| AtomIndex.PdbSerialRoundTrip | scripts/qref_prep.py:65-66 | `int()` reads `str(serial).rjust(5)` back as the serial, negative or wider than five digits included. |
| AtomIndex.RestoreSerialInModel | scripts/qref_prep.py:62-66 | On success every atom has its column set to the justified serial of index `int(column) - 1`, and every other field is unchanged. On ValueError or KeyError, the atoms before the failing one are rewritten, the rest are untouched, and the error is the failing atom's. |
| AtomIndex.RestoredColumn | scripts/qref_prep.py:66 | A column that reads as p, with p-1 an index, is restored to the serial of index p-1. |
| AtomIndex.RenumberRoundTrip | scripts/qref_prep.py:54-66 | With distinct serials and columns numbered 1, 2, ..., the restored column i is the i-th smallest serial and reads back as it. The restored columns are exactly the QM serials. |
| LinkResolver.ScanNoneExactly | scripts/qref_prep.py:25-30 | The inner scan finds nothing exactly when no atom is a carbon other than the link atom. |
| LinkResolver.ScanFindsFirstNearest | scripts/qref_prep.py:25-30 | What the scan keeps is a candidate carbon whose column parses as `closest`. No candidate is strictly closer, and every earlier candidate is strictly farther. |
| LinkResolver.ScanSucceedsOnSerials | scripts/qref_prep.py:29 | The scan raises only on a candidate whose column `int()` rejects. |
| LinkResolver.ScanCarbons | scripts/qref_prep.py:25-30 | The inner scan over the first n atoms keeps a position below n. Its only error is the ValueError of `int()` on a serial column. |
| LinkResolver.ResolveLink | scripts/qref_prep.py:24-31 | A resolved link serial is a key of the index map, with a position inside the atoms. The resolution never reports an unbound `closest`, and it reports a KeyError only for a serial that is not a key. |
| LinkResolver.ClosestCarbon | scripts/qref_prep.py:23-30 | The imperative inner loop computes exactly the scan function. |
| LinkResolver.PartnerOf | scripts/qref_prep.py:24-31 | One outer iteration: a KeyError for an unknown link serial, an IndexError for a position outside the atoms, else the scan's result. A missing carbon becomes an error. |
| LinkResolver.PartnerIsFirstNearestCarbon | scripts/qref_prep.py:22-31 | A resolved partner is read from a carbon other than the link atom. No carbon is strictly closer, and it is the first of the nearest in atom order. |
| LinkResolver.NoCarbonExactly | scripts/qref_prep.py:22-31 | The missing-carbon error is reported exactly when the link atom is found and no other carbon exists. |
| LinkResolver.IdentifyLinkPairs | scripts/qref_prep.py:18-32 | The method's result equals the link-pairs function: the outer loop, one resolution per link atom, stopping at the first error. |
| LinkResolver.LinkPairsFailure | scripts/qref_prep.py:22-32 | The pairs succeed if and only if every link atom resolves. Otherwise the error is that of the first link atom that does not. |
| LinkResolver.LinkPairsShape | scripts/qref_prep.py:22-32 | On success the keys are the link atoms, each once, in first-occurrence order, and each maps to its resolved partner. |
| LinkResolver.AsWrittenAgrees | scripts/qref_prep.py:22-31 | Where no link atom lacks a candidate carbon, the script as written and the corrected resolution give the same pairs or the same error. |
| LinkResolver.AsWrittenUpTo | scripts/qref_prep.py:22-31 | After n link atoms the script as written holds a dict whose keys are those link atoms, each once, in first-occurrence order. A `closest` is bound exactly when n > 0. |
| LinkResolver.AsWrittenLinkPairs | scripts/qref_prep.py:18-32 | On success the script's dict has the link atoms as keys, each once, in first-occurrence order. |
| LinkResolver.PutFirstOccurrences | scripts/qref_prep.py:31 | Assigning `link_pairs[link]` for the next link atom extends the keys to the first occurrences of one more link atom. |
| LinkResolver.StaleClosestPairsLinkWithItself | scripts/qref_prep.py:22-31 | For a nitrogen and a carbon that are both link atoms, the script as written pairs the carbon with itself, while the corrected resolution reports its missing carbon. |
| LinkResolver.PartnerIsOtherQmAtom | scripts/qref_prep.py:18-32 | After restoration to the sorted serials, a resolved partner is a QM serial and differs from its link atom's serial. |
| LinkResolver.RestoredColumnReadsBack | scripts/qref_prep.py:29 | `int(atom.serial.strip())` reads a restored column back as the serial written into it. |
| Capping.Position | scripts/qref_prep.py:39-40 | `atoms[serial_to_index[s]]` succeeds exactly when s is a key with an index inside the atoms. It reports KeyError before IndexError. |
| Capping.PositionFindsSerial | scripts/qref_prep.py:39-40 | After the sorted QM serials are restored into the columns, `atoms[serial_to_index[s]]` succeeds for every QM serial s. It is the one atom whose column reads back as s. |
| Capping.CappingFactor | scripts/qref_prep.py:39-50 | A factor is found only when both atoms are located and residue, bond and link type are in the table. The ideal length must also exist and be nonzero. |
| Capping.CappingFactorCases | scripts/qref_prep.py:39-50 | The errors come in the script's order: partner, then link atom located; then residue, bond and link type missing; then no bond parameters or zero ideal length. Otherwise the factor is table value / ideal length for (index(link), index(partner)). |
| Capping.CappingFactorPositive | scripts/qref_prep.py:49-50 | The factor of a pair is positive when that pair's table value and ideal length are. |
| Capping.GFactorsFailure | scripts/qref_prep.py:38-51 | g succeeds if and only if every pair has a factor. Otherwise the error is that of the first pair, in insertion order, without one. |
| Capping.GFactorsShape | scripts/qref_prep.py:38-50 | On success g has exactly the pairs' keys in their order, each mapped to its pair's factor. |
| Capping.GFactorsPositive | scripts/qref_prep.py:49-50 | Every value of g is positive when, for every pair, the pair's table value and ideal length are. |
| Capping.CalculateGFactor | scripts/qref_prep.py:35-51 | The method's result equals the g function. |
| Capping.FillFactors | scripts/qref_prep.py:38-51 | The loop over the pairs, for any per-pair factor, computes the factors of all pairs and stops at the first error. |
| Directives.ParseInts | scripts/qref_prep.py:186-191 | `[int(x) for x in fields]` succeeds if and only if every field parses, and gives each field's value. Otherwise it fails on the first field that does not parse. |
| Directives.ParseFloats | scripts/qref_prep.py:187-198 | The same for `float()`. |
| Directives.UnpackDistance | scripts/qref_prep.py:187 | Fields 1-2 as integers and 3-4 as floats. An error is that of the first field, left to right, that does not read. |
| Directives.UnpackAngle | scripts/qref_prep.py:191 | Fields 1-3 as integers and 4-5 as floats. An error is that of the first field, left to right, that does not read. |
| Directives.IntFieldFails | scripts/qref_prep.py:187-191 | When an integer field is rejected, the error is that of the first field that does not read. |
| Directives.FloatFieldFails | scripts/qref_prep.py:187-191 | When every integer field reads and a float field is rejected, the error is that of the first field that does not read. |
| Directives.UnpackTransform | scripts/qref_prep.py:195-198 | atoms is field 1. R is 3×3 with row i from fields 3i+2..3i+4, and t has three entries from fields 11..13. It fails on the first of fields 2..13 that `float()` rejects. |
| Directives.Tagged | scripts/qref_prep.py:184-194 | The directives tagged k are exactly those whose first field reads as k, taken from the input. |
| Directives.CollectedSucceeds | scripts/qref_prep.py:184-194 | Collecting succeeds if and only if every tag reads as an integer (other subsystems' tags too) and every directive tagged k unpacks. |
| Directives.CollectedIsTagged | scripts/qref_prep.py:184-194 | On success the result is the unpacking of exactly the directives tagged k, in input order. None of another subsystem appears. |
| Directives.CollectDirectives | scripts/qref_prep.py:184-194 | The appending loop computes exactly the collection function. |
| Directives.CollectSubsystemDirectives | scripts/qref_prep.py:184-198 | Distances, then angles, then transforms. It succeeds if and only if all three collections do, with their results; otherwise it gives the first failing collection's error. |
| Restart.PrepareRestart | scripts/qref_prep.py:106-113 | The readline loop writes exactly the concatenation of the kept lines of the text. |
| Restart.LinesCoverText | scripts/qref_prep.py:109-113 | The lines readline returns, put back together, are the whole text. |
| Restart.LinesAreLines | scripts/qref_prep.py:109-113 | Every line is non-empty and holds a newline only at its end. Only the last line may lack one. |
| Restart.KeptAppend | scripts/qref_prep.py:110-112 | Keeping distributes over concatenation, so the order of lines is preserved. |
| Restart.KeptMembers | scripts/qref_prep.py:111-112 | A line is written exactly when it is a line of the text and its record name is on the list. Lines are written unaltered. |
| Restart.RecordNames | scripts/qref_prep.py:107-111 | `END` is kept and `TER` padded with blanks is kept. `ENDMDL` is not, because the name is its first six characters. |
| Selection.SuggestSelectionString | scripts/qref_prep.py:69-77 | The loops compute the selection function. When every chain has a residue, the result is the chains' clauses `((resseq a or resseq b ...) and chain id)` joined by `" or "`. |
| Selection.SelectionIsJoinedClauses | scripts/qref_prep.py:71-77 | When every chain has a residue, cutting the trailing separators gives exactly the joined clauses; for no chain at all, the empty string. |
| Selection.BuiltIsTerminated | scripts/qref_prep.py:72-76 | When every chain has a residue, after n chains the built string is each clause followed by `" or "`, then `(`. |
| Selection.DropLast | scripts/qref_prep.py:76-77 | `s[:-n]` for n > 0 is a prefix of s, n characters shorter, or empty when s is shorter than n. |
| Selection.TerminatedIsJoined | scripts/qref_prep.py:75-77 | Items each followed by a separator, minus the last separator, is their join. |
| Selection.OneChainExample | scripts/qref_prep.py:71-77 | Chain A with padded residues 10 and 11 gives `((resseq 10 or resseq 11) and chain A)`. |
| Text.TrimIsTrimmedSlice | scripts/qref_prep.py:26 | Trimming with either whitespace set gives a slice between a prefix and a suffix of that whitespace. Neither of its ends is whitespace. |
| Text.StripIsTrimmedSlice | scripts/qref_prep.py:26 | `strip()` is a slice between a whitespace prefix and a whitespace suffix. Neither of its ends is whitespace. |
| Text.ParseInt | scripts/qref_prep.py:66 | `int()` succeeds exactly on text that is, after trimming `int()`'s whitespace, digits with an optional sign. A negative result has a minus sign. |
| Text.IntRejectsSeparator | scripts/qref_prep.py:29 | A file separator before a digit is removed by `strip()` but rejected by `int()`, whose whitespace set is smaller. |
| Text.NatToDecimal | scripts/qref_prep.py:66 | `str()` of a natural number gives decimal digits with that value and no leading zero. |
| Text.ParseIntOfJustified | scripts/qref_prep.py:66 | `int()` reads back a right-justified `str()` of any integer. |
| Text.RightJustifyShape | scripts/qref_prep.py:66 | `rjust(w)` is s behind a run of spaces, w long unless s is longer already. |
| Dicts.Dict.Put | scripts/qref_prep.py:31 | Assigning to a new key appends it, and assigning to an existing key keeps its place. The keys stay distinct. |
| Dicts.FirstOccurrences | scripts/qref_prep.py:31 | The keys a dict ends with: each element once, and no other. |

## Left out

- The iotbx/cctbx objects are not part of this model: `DataManager`, `model.process`, `get_hierarchy`, `write_pdb_file`, `add_crystal_symmetry_if_necessary` and the atom hierarchy. The subsystem's atoms are a sequence, or an array, of records (numbering column, element, name, residue name, coordinates).
- `bond_params_table.lookup(...).distance_ideal` is the parameter `ideal`. It returns None where the table has no entry and the script would fail on an attribute of None. Division by zero is an error case of its own.
- `atom.distance` is the parameter `distance`. The square root and floating-point rounding are not modelled, and distances are Dafny reals.
- `float()` on a directive field is the parameter `toFloat`. `int()` is modelled concretely for ASCII text. Unicode digits and whitespace and underscores between digits are not part of this model.
- `utils` is not part of this model: `read_syst1`, `read_junc_factors`, `select_qm_model`, `apply_transforms` and `write_pdb_h`. The QM serials and link atoms are inputs, and so is the junction table, as nested maps.
- `parse_args`, `locate_binary`, `write_dat`, `check_altlocs`, every `print`, the temporary-file cleanup and the per-subsystem loop of `main` that assembles `qref.dat` are left out. They are I/O or output only.
- `prepare_restart`: opening and writing files is left out. The input file is its text, and the output is the string written. Universal-newline translation of `\r` is not modelled.
- LinkResolver.ResolveLink: atom identity (`atom != link_atom`) is modelled by position in the atom array.
- LinkResolver.ResolveLink: a negative position is reported as IndexOutOfRange, where Python would wrap it around. The indices convert_serial_to_index produces are never negative.
- LinkResolver.IdentifyLinkPairs: a link atom without a candidate carbon is an error here, unlike the script (see Findings). The script as written is AsWrittenLinkPairs.
- Capping.CappingFactor: the link type is an `int` key, as `argparse` delivers it.
- AtomIndex.RestoreSerialInModel requires the index map to be injective, which every result of ConvertSerialToIndex is (IndexMapIsInjective). The comprehension of a non-injective dict keeps the last key for a value, and that case is not modelled.
- Selection.SelectionIsJoinedClauses holds only when every chain has at least one residue. For a chain without residues the cut of the trailing `" or "` eats into the text before it; the selection function still models that case as written.
- Directives: restraint serials are kept as the integers given. The option help at scripts/qref_prep.py:134-135 calls them `atom1_serial` and so on, and lines 187 and 191 pass them on untranslated.
- Capping.CappingFactor: the ideal bond length is asked for as `lookup(serial_to_index[key], serial_to_index[value])`, that is (index(link), index(partner)), in the argument order of line 50.
- AtomIndex.ConvertSerialToIndex: the QM serials are a sequence and may hold duplicates, since `read_syst1`, which produces them, is not part of this model and `sorted(qm)` accepts any list. Without duplicates, IndexValuesDense and IndexIsRank give the bijection onto 0 .. n-1.
- Capping.Position: a negative index is reported as IndexOutOfRange, where Python would wrap it around. The indices convert_serial_to_index produces are never negative.
- Capping.CappingFactor: the junction values, the ideal lengths and the factors are exact Dafny reals, and division is exact. Floating-point rounding is not modelled.
- Directives.ParseFloats: `toFloat` returns an `Option<real>`, so the values `float('inf')` and `float('nan')` cannot be represented.

## Findings

| source | as written | input that shows it | evidently intended | confidence | as-written member | corrected member |
|---|---|---|---|---|---|---|
| scripts/qref_prep.py:22-31 | `closest` is set only inside the scan and never reset per link atom. A link atom with no other carbon silently gets the previous link atom's partner, and for the first link atom it raises UnboundLocalError. | atoms N (serial 1) and C (serial 2), `link_atoms = [1, 2]`: the carbon is paired with itself | report the link atom that has no carbon partner | not executed | LinkResolver.StaleClosestPairsLinkWithItself | LinkResolver.NoCarbonExactly |
