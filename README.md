# Sambamba coverage report — verified model

This project models the core of `coverage_report.py`, a script that reads
the per-exon coverage table written by sambamba and reports the exons, and
the genes, whose percentage of bases covered at 30x is below 100.

The model has three parts.

- **Input-file selection** (`find_files`). A directory listing, given as a
  sequence of names, is walked once. Every name ending in
  `sambamba_output.tsv` is kept, in listing order. `CoverageReport.FindFiles`
  is the loop. It is proved equal to `Sequences.Filter` with the suffix test.
- **Derived columns** (`read_sambamba_input`). Each already-parsed row has the
  twelve named columns (`CoverageReport.SambambaRow`). Three columns are added
  to it (`CoverageReport.CoverageRow`):
  - `GeneSymbol` is token 0 of the `GeneSymbol;Accession` key split on `;`.
  - `Accession` is token 1 of that split, or `None` when the key has no `;`.
    pandas gives NaN there.
  - `Coverage` is a copy of `percentage30`.

  `Strings.Split` models Python's `str.split` on a one-character separator.
  Its partner is `Strings.Join`. The two are proved to round-trip in both
  directions.
- **Low-coverage report** (`generate_report`). The rows are filtered on
  `percentage30 < 100`, keeping their order. They are projected to
  `(GeneSymbol, Coverage)`. The distinct gene symbols are listed in order of
  first appearance, as `Series.unique` does (`Sequences.Unique`).

Modules: `Wrappers` (Option), `Sequences` (order-preserving filter, unique,
first index), `Strings` (suffix test, split, join) and `CoverageReport` (the
script's own logic).

Where the design description of this tool and the code disagree, the model
follows the code:
- The cut-off is the constant 100 (`CoverageReport.FullCoverage`). It is not
  a configurable threshold.
- The report holds only the exons below 100. Selection is not widened to
  every exon of an affected gene.
- No minimum/maximum/mean/median summary is computed.
- A compound key is not required to hold exactly one `;`. Every key is split.
  Token 0 is always taken, and token 1 is missing when there is no `;`. Text
  after a second `;` is ignored.

## Model

| member | source | states |
|---|---|---|
| CoverageReport.FindFiles | coverage_report.py:17-31 | the loop over the listing returns exactly the suffix-filtered listing, in listing order |
| CoverageReport.FindFilesSelection | coverage_report.py:27-31 | every returned name ends in `sambamba_output.tsv`; a name is returned iff it is listed and has the suffix, as many times as it is listed; the result is no longer than the listing; selection distributes over concatenation of listings (relative order kept) |
| Sequences.Filter | coverage_report.py:73 | a filtered sequence is no longer than its input and every kept element satisfies the predicate |
| Sequences.FilterConcat | coverage_report.py:73 | filtering a concatenation is the concatenation of the filtered parts, so the kept elements stay in input order |
| Sequences.FilterCount | coverage_report.py:73 | each element occurs in the result as often as in the input when it satisfies the predicate, and never otherwise |
| Sequences.FilterMembers | coverage_report.py:73 | an element is in the result iff it is in the input and satisfies the predicate |
| Strings.Split | coverage_report.py:50 | `str.split(";")` always gives at least one token, and no token contains the separator |
| Strings.SplitCount | coverage_report.py:50 | a split has exactly one more token than the string has separators, so it has a second token iff the string contains the separator |
| Strings.JoinSplit | coverage_report.py:50 | joining the tokens of a split with the separator gives back the original string |
| Strings.SplitJoin | coverage_report.py:50 | splitting the join of at least one separator-free token gives back those tokens |
| CoverageReport.GeneSymbolIsFirstField | coverage_report.py:50 | GeneSymbol is the prefix of the key up to the first `;`, or the whole key iff it has no `;`; it never contains `;` |
| CoverageReport.AccessionIsSecondField | coverage_report.py:53 | Accession is present iff the key contains `;`; when present it is the `;`-free text between the first `;` and the second `;` or the end of the key |
| CoverageReport.KeyRoundTrip | coverage_report.py:50-53 | when the key has exactly one `;`, GeneSymbol + `;` + Accession equals the key |
| CoverageReport.KeyFromFields | coverage_report.py:50-53 | a key built from two `;`-free parts yields exactly those parts as GeneSymbol and Accession |
| CoverageReport.DeriveColumns | coverage_report.py:45-53 | the row count is unchanged; every original field is unchanged; Coverage equals percentage30; GeneSymbol and Accession are tokens 0 and 1 of the key |
| CoverageReport.DeriveColumnsWellDerived | coverage_report.py:50-53 | every derived row has Coverage == percentage30, a `;`-free GeneSymbol, and an Accession present iff its key has a `;` |
| CoverageReport.LowCoverageRowsSelection | coverage_report.py:73 | the filtered rows are exactly the rows with percentage30 < 100, each as often as in the input, no more rows than the input, and in input order |
| CoverageReport.LowCoverageRowsSingle | coverage_report.py:73 | a single row survives the mask iff its percentage30 is below 100 |
| CoverageReport.ReportTable | coverage_report.py:73-76 | the table holds the (GeneSymbol, Coverage) of each filtered row, in order; an entry is in it iff some input row below 100 projects to it |
| Sequences.Unique | coverage_report.py:79 | the unique list has no duplicates and holds exactly the elements of its input |
| Sequences.UniqueOrder | coverage_report.py:79 | the unique list is in increasing order of first appearance in the input |
| Sequences.UniqueCharacterized | coverage_report.py:79 | any duplicate-free sequence with exactly the input's elements, in increasing order of first appearance, equals the unique list, so those properties define it completely |
| CoverageReport.ReportGenes | coverage_report.py:73-79 | the gene list has no duplicates, holds exactly the symbols of rows below 100, is in order of first appearance in the table, and is empty iff no row is below 100 |
| CoverageReport.ReportOfDerivedRows | coverage_report.py:50-79 | for rows with derived columns, every reported coverage is below 100 and no reported gene symbol contains `;` |
| CoverageReport.OneIncompleteExonReported | coverage_report.py:73-79 | one gene with exons at 100, 80 and 100 percent gives a table with the single 80 percent entry and a gene list naming the gene once |

## Left out

- Reading the table with `pd.read_csv` (coverage_report.py:46-47) is left out. Tab splitting, `#` comment skipping and type inference happen inside pandas. The model starts from a sequence of parsed rows.
- `os.listdir` (coverage_report.py:28) is left out because it is filesystem I/O with a platform-dependent order. The listing is a parameter of `FindFiles`.
- All console output (coverage_report.py:54, 80, 83) is left out, including the comma-joined gene list and the printed table.
- The argument parser and `main` (coverage_report.py:84-104) are command-line glue and are left out. The parser declares three required positionals but only the first is used. `find_files` is never called from it.
- Missing values are not modelled. A NaN key would give NaN for both GeneSymbol and Accession. A NaN percentage30 fails the `< 100` mask and is dropped. Keys are strings and percentages are reals here.
- The dataframe index that pandas carries along with the filtered rows is not modelled. Rows are identified by position only.
- The in-place column assignment of `read_sambamba_input` is modelled as a pure map from rows to extended rows. This is how the function is observed by its caller.
