# Ligand contact finder, modelled in Dafny

This project models `find_contacts_cif` from `contacts_cif.py`, together with its helpers `residue_key`, `format_residue_key` and `dist`. Given a parsed mmCIF structure and a ligand code, the function does four things:

1. It walks every model, chain and residue in order. Residues whose stripped name is the ligand code become ligand instances. Waters are skipped. The atoms of the remaining amino-acid residues become candidate protein atoms.
2. It returns an empty list when it finds no ligand instance or no candidate atom.
3. For each ligand instance, it finds the candidate atoms within the cutoff of each ligand atom. It keeps, per amino-acid residue `(resname, chain, resseq, icode)`, the smallest distance seen.
4. It emits one report per ligand instance: a label, then the residues in contact sorted by chain, residue number and distance.

Modules and files:

| file | module | models |
|---|---|---|
| `text.dfy` | `Text` | the Python string behaviour the code relies on: `str.strip()` with Python's whitespace set, `<` on strings, `f"{int}"` |
| `hierarchy.dfy` | `Hierarchy` | structure, model, chain, residue and atom; `residue_key`, `format_residue_key`, the ligand label, `dist` |
| `classify.dfy` | `Classify` | the classification pass, as the nested loop `ClassifyResidues` proved equal to the functions `Ligands` and `Candidates` |
| `contacts.dfy` | `Contacts` | the neighbour search and the per-residue minimum fold, as the nested loop `MinDistances` proved equal to the function `ContactTable` |
| `report.dfy` | `Report` | `contacts_min.items()`, the stable sort, and the report records |
| `find_contacts.dfy` | `FindContacts` | the whole function: early exits, then the loop over ligand instances |
| `scenario.dfy` | `Scenario` | a worked case, from the contact table to the finished report |
| `wrappers.dfy` | `Wrappers` | `Option` |

Modelling choices:

- Distances are squared Euclidean distances over exact real coordinates. A candidate is within the cutoff when `0 <= cutoff` and its squared distance is at most `cutoff * cutoff`. Square root is monotone on non-negative numbers. The set of residues in contact, which atom pair is the minimum, and the sort order are therefore the same as with the source's `math.sqrt`. The number carried in `minDistance` is the square of what the source reports.
- `contacts_min` is a `Table`: a map from residue key to best distance, plus the keys in first-insertion order. Python dicts iterate in that order, and the stable sort leaves ties in that order. A key missing from the map stands for the `defaultdict`'s `float("inf")`.
- `is_aa(residue, standard=True)` and `is_aa(residue, standard=False)` are two flags on each residue, `isStdAA` and `isAA`. `WellFormed` states the one fact used about them: a standard amino acid is an amino acid.
- `NeighborSearch.search` is modelled as a filter of the candidate list, kept in list order.

Behaviour of the code that the model keeps, even where one might expect otherwise:

- The fold never re-checks `d > cutoff`; it relies on the neighbour search returning only atoms within the radius.
- Residue keys carry no model id. In a multi-model structure, same-keyed residues of different models merge into one table entry. Every ligand instance, whichever model holds it, is compared with the candidate atoms of all models. `ClassifyResidues` and `ContactTable` model exactly this.
- The `include_waters` branch adds nothing. Waters are never candidates whatever the flag says, and `Classify.IncludeWatersIsNoOp` proves it.

## Model

| member | source | states |
|---|---|---|
| Classify.ClassifyResidues | contacts_cif.py:47-67 | the triple loop over models, chains and residues yields exactly `Ligands(s)` and `Candidates(s)`, the ligand instances and candidate atoms in traversal order |
| Classify.Ligands | contacts_cif.py:44-56 | a residue is a ligand instance iff it is a residue of the structure and its stripped name equals the ligand code |
| Classify.Candidates | contacts_cif.py:45-67 | an atom is a candidate iff it is an atom of a residue of the structure that is not the ligand, not a water, and passes `is_aa(standard=standard_aa_only)` |
| Classify.CandidatesInMembership | contacts_cif.py:53-67 | over any run of residues: an atom is a candidate iff its residue is not the ligand (tested first), not a water, passes `is_aa(standard=standard_aa_only)`, and the atom belongs to that residue |
| Classify.LigandAndWaterAtomsExcluded | contacts_cif.py:53-63 | no candidate atom belongs to a ligand instance or to a water, even when the ligand residue is itself an amino acid |
| Classify.IncludeWatersIsNoOp | contacts_cif.py:59-63 | the candidate list is the same whether `include_waters` is true or false |
| Classify.CandidatesAreAminoAcids | contacts_cif.py:66-67 | every candidate passes the permissive amino-acid test; the re-check at line 97 therefore drops nothing in a well-formed structure |
| Classify.AtomsOf | contacts_cif.py:67 | the atoms a residue contributes are its own atoms, in order, each pointing back at that residue |
| Hierarchy.NormalizeIcode | contacts_cif.py:24 | `icode or ""` is empty iff the code is missing or empty; otherwise the code itself, a blank included |
| Hierarchy.KeyOf | contacts_cif.py:19-24 | the residue key carries the residue's name, its chain's id and its number; its insertion code is empty iff the residue's is missing or empty, and is the residue's own code whenever one is present |
| Hierarchy.IcodeSuffix | contacts_cif.py:29 | the suffix written after the residue number is empty iff the insertion code is empty or a blank, and otherwise the code itself |
| Hierarchy.FormatResidueKey | contacts_cif.py:27-30 | the text is the name, " Chain ", the chain id and a space, then a number that parses back to `resseq`, then the insertion-code suffix |
| Hierarchy.FormatResidueKeySeparatesNumbers | contacts_cif.py:27-30 | two formatted keys with the same name and chain and no suffix are equal only if their residue numbers are equal |
| Hierarchy.LigandLabel | contacts_cif.py:83-85 | the ligand label built inline from the raw insertion code is `format_residue_key` of the ligand's residue key |
| Hierarchy.SqDist | contacts_cif.py:12-16 | the squared distance is never negative |
| Hierarchy.WithinMonotone | contacts_cif.py:93 | a point within radius r1 is within any radius r2 >= r1 |
| Text.Strip | contacts_cif.py:50 | the result is a middle slice of the input, all that is cut away is whitespace, and the result neither starts nor ends with whitespace |
| Text.StripIdempotent | contacts_cif.py:50 | stripping twice equals stripping once |
| Text.StrLtTrichotomy | contacts_cif.py:106 | Python string `<` is total: two strings are equal or one is less than the other |
| Text.StrLtTransitive | contacts_cif.py:106 | Python string `<` is transitive |
| Text.DecimalRoundTrip | contacts_cif.py:30 | parsing the decimal text of any integer gives that integer back |
| Contacts.Neighbors | contacts_cif.py:93 | an atom is returned by the search iff it is a candidate within the cutoff of the centre |
| Contacts.InsertMin | contacts_cif.py:100-103 | after `if d < contacts_min[key]: contacts_min[key] = d`, the key holds the smaller of its old value and `d` (or `d` if new), no other key changes, and a new key goes to the end of the insertion order |
| Contacts.Visit | contacts_cif.py:94-103 | one neighbour: outside an amino acid it changes nothing; otherwise its residue's entry ends at or below its distance, no entry rises, and every entry is unchanged except that residue's, which may become this distance |
| Contacts.FoldNeighbors | contacts_cif.py:94-103 | the inner loop keeps the table consistent and adds exactly the keys of the amino-acid neighbours |
| Contacts.ContactTable | contacts_cif.py:88-103 | the table of one ligand instance is consistent, and each of its keys is the residue of an amino-acid candidate atom |
| Contacts.MinDistances | contacts_cif.py:88-103 | the nested loop over ligand atoms and their neighbours, including the `continue` for non-amino-acid residues, yields exactly `ContactTable` |
| Contacts.FoldNeighborsNoRaise | contacts_cif.py:102-103 | the inner loop never raises a stored distance |
| Contacts.FoldNeighborsBound | contacts_cif.py:94-103 | after the inner loop each amino-acid neighbour's residue holds at most that neighbour's distance |
| Contacts.FoldNeighborsAttained | contacts_cif.py:94-103 | every value left by the inner loop is an old value or the distance of an amino-acid neighbour of that residue |
| Contacts.ContactTableKeysInContact | contacts_cif.py:88-103 | every residue in the table is in contact: an amino acid with an atom within the cutoff of some ligand atom |
| Contacts.ContactTableKeysCover | contacts_cif.py:88-103 | every residue in contact is in the table |
| Contacts.ContactTableValuesAttained | contacts_cif.py:88-103 | every value in the table is the distance of a touching pair of that residue |
| Contacts.ContactTableValuesMinimal | contacts_cif.py:88-103 | no touching pair is closer than its residue's value in the table |
| Contacts.ContactTableSpec | contacts_cif.py:88-103 | a residue is in the table iff one of its atoms is within the cutoff of some ligand atom and it is an amino acid; its value is the distance of such a pair, and no such pair is closer |
| Contacts.CutoffMonotone | contacts_cif.py:93-103 | raising the cutoff keeps every residue already in contact, with the same minimum distance |
| Scenario.OnlyNearResidueInContact | contacts_cif.py:88-103 | one ligand atom; residue 10 at squared distances 4 and 1; residue 20 at 100; cutoff 4.5: the table is exactly residue 10 at 1 |
| Scenario.ReportForNearResidueOnly | contacts_cif.py:81-119 | the same case as a report: the ligand GSH 1 of chain A gets the label "GSH Chain A 1" and exactly one record, ALA 10 of chain A at 1 |
| Report.Items | contacts_cif.py:106 | `contacts_min.items()` has one row per key, in insertion order |
| Report.ItemsAreEntries | contacts_cif.py:106 | `contacts_min.items()` lists each entry of the table exactly once and nothing else |
| Report.SortRows | contacts_cif.py:106 | the sorted rows are ordered by (chain, residue number, distance) and are a permutation of the items |
| Report.InsertRowSpec | contacts_cif.py:106 | inserting a row into a sorted list keeps it sorted and adds exactly that row |
| Report.SortRowsStable | contacts_cif.py:106 | the sort is stable: rows with equal sort keys keep their relative order |
| Report.KeyLeTransitive | contacts_cif.py:106 | "not after" on the sort key `(chain, resnum, distance)` is transitive |
| Report.KeyLtTotal | contacts_cif.py:106 | any two sort keys are equal or ordered one way |
| Report.SortedItemsAreEntries | contacts_cif.py:106 | every sorted row is a table entry, every entry has a row, and no two rows share a residue key |
| Report.ToContacts | contacts_cif.py:109-118 | one record per row, in the same order, each carrying its row's residue key and distance |
| Report.ReportFor | contacts_cif.py:105-119 | a ligand instance's report is labelled with its formatted key and has one record per table entry, in (chain, residue number, distance) order |
| Report.ReportRecordsAreMinima | contacts_cif.py:105-118 | each contact record names a residue in contact and carries its minimum distance |
| Report.ReportRecordsCover | contacts_cif.py:105-118 | every residue in contact has a record |
| Report.ReportRecordsDistinct | contacts_cif.py:105-118 | no residue has two records |
| Report.ReportForCorrect | contacts_cif.py:81-120 | a ligand instance's report is labelled with its formatted key and lists each residue in contact exactly once, with its minimum distance, in sorted order |
| FindContacts.ContactReports | contacts_cif.py:44-120 | no reports exactly when there is no ligand instance or no candidate atom; otherwise one report per ligand instance, in traversal order, each labelled with that instance's label |
| FindContacts.FindContactsCif | contacts_cif.py:44-120 | returns `[]` when there is no ligand instance or no candidate atom; otherwise one report per ligand instance, in traversal order, labelled with that instance's label; and equals `ContactReports` |
| FindContacts.ReportEachLigand | contacts_cif.py:79-120 | the loop over ligand instances yields exactly `ReportsFor`: each instance's report, in order |
| FindContacts.ReportsFor | contacts_cif.py:79-120 | one report per ligand instance |
| FindContacts.ReportsForAt | contacts_cif.py:81-120 | report i is the report of the i-th ligand instance alone |
| FindContacts.ReportsForLabels | contacts_cif.py:107-108 | report i is labelled with the label of the i-th ligand instance |
| FindContacts.ContactReportsCorrect | contacts_cif.py:69-120 | every report returned is correct for its ligand instance, in the sense of `Report.ReportForCorrect` |
| FindContacts.EmptyReportMeansNoContact | contacts_cif.py:81-120 | a ligand instance's contact list is empty iff no residue is in contact with it; the instance still gets a report |

## Left out

- Parsing the mmCIF file (`MMCIFParser.get_structure`). The model starts from the parsed `Structure`.
- The k-d tree inside `NeighborSearch`. The search is modelled by what it returns, a filter of the candidates. Its result order is not modelled. That order can affect only the relative order of rows equal in chain, residue number and distance.
- What the k-d tree does with a negative radius. Here a negative cutoff selects nothing.
- The internals of `is_aa`. They are two flags per residue.
- Floating point: coordinates, the `float("inf")` sentinel, NaN and rounding are exact reals or an absent key.
- `math.sqrt` in `dist`. The model compares and reports squared distances; see the modelling choices above.
- `round(v, 3)` on the reported distance. `minDistance` is unrounded.
- Hierarchy.SqDist: states only that the result is non-negative, not that it is zero exactly for equal points.
- The console summary (lines 122-133) and the two console messages of the early exits. They print and change no result.
- The default arguments of `find_contacts_cif` (ligand "GSH", cutoff 4.5, `include_waters=False`, `standard_aa_only=True`, lines 35-38). `FindContacts.FindContactsCif` takes all four explicitly.
- `main`, its command-line parsing, its upper-casing of the ligand code and its CSV export.
- json_generator.py, which is not part of this model.
- Disordered atoms and alternate locations. Each residue has one list of atoms.
