/**
 * The report script for sambamba per-exon coverage output: selecting the
 * input files of a directory listing, deriving the gene symbol, accession
 * and coverage columns from each parsed row, and reporting the exons (and
 * the distinct genes) whose percentage of bases covered at 30x is below 100.
 */
module CoverageReport {
  import opened Wrappers
  import opened Sequences
  import opened Strings

  // ---------------------------------------------------------------------
  // Input-file selection (find_files)
  // ---------------------------------------------------------------------

  const SambambaSuffix: string := "sambamba_output.tsv"

  predicate IsSambambaOutput(name: string) {
    EndsWith(name, SambambaSuffix)
  }

  /**
   * Walks the directory listing once, appending every name that ends in the
   * sambamba suffix. The listing itself is a parameter: the directory read
   * is not modelled.
   */
  method FindFiles(listing: seq<string>) returns (files: seq<string>)
    ensures files == Filter(listing, IsSambambaOutput)
  {
    files := [];
    for i := 0 to |listing|
      invariant files == Filter(listing[..i], IsSambambaOutput)
    {
      assert listing[..i + 1] == listing[..i] + [listing[i]];
      FilterConcat(listing[..i], [listing[i]], IsSambambaOutput);
      if IsSambambaOutput(listing[i]) {
        files := files + [listing[i]];
      }
    }
    assert listing[..|listing|] == listing;
  }

  /**
   * What `FindFiles` returns: only names with the sambamba suffix, every
   * such name of the listing as often as it is listed, no more entries than
   * the listing, and the listing's relative order (selection distributes
   * over any split of the listing).
   */
  lemma FindFilesSelection(listing: seq<string>, more: seq<string>)
    ensures var files := Filter(listing, IsSambambaOutput);
      && |files| <= |listing|
      && (forall i :: 0 <= i < |files| ==> EndsWith(files[i], SambambaSuffix))
      && (forall name :: name in files <==> name in listing && EndsWith(name, SambambaSuffix))
      && (forall name :: multiset(files)[name] == if EndsWith(name, SambambaSuffix) then multiset(listing)[name] else 0)
      && Filter(listing + more, IsSambambaOutput) == files + Filter(more, IsSambambaOutput)
  {
    FilterMembers(listing, IsSambambaOutput);
    forall name
      ensures multiset(Filter(listing, IsSambambaOutput))[name] == if EndsWith(name, SambambaSuffix) then multiset(listing)[name] else 0
    {
      FilterCount(listing, IsSambambaOutput, name);
    }
    FilterConcat(listing, more, IsSambambaOutput);
  }

  // ---------------------------------------------------------------------
  // Rows and derived columns (read_sambamba_input)
  // ---------------------------------------------------------------------

  /** One already-parsed line of sambamba output, one field per named column. */
  datatype SambambaRow = SambambaRow(
    chromosome: string,
    startPosition: int,
    endPosition: int,
    fullPosition: string,
    notUsed1: string,
    notUsed2: string,
    geneSymbolAccession: string,
    size: int,
    readCount: int,
    meanCoverage: real,
    percentage30: real,
    sampleName: string)

  /** A row after the three derived columns have been added. */
  datatype CoverageRow = CoverageRow(
    raw: SambambaRow,
    geneSymbol: string,
    coverage: real,
    accession: Option<string>)

  const KeySeparator: char := ';'

  /** Token 0 of the compound key split on ';' (always present). */
  function GeneSymbolOf(key: string): string {
    Split(key, KeySeparator)[0]
  }

  /** Token 1 of the compound key split on ';', missing when there is no such token. */
  function AccessionOf(key: string): Option<string> {
    var tokens := Split(key, KeySeparator);
    if |tokens| > 1 then Some(tokens[1]) else None
  }

  /**
   * The gene symbol is the longest ';'-free prefix of the key: the whole key
   * when it has no ';', otherwise everything before the first ';'.
   */
  lemma GeneSymbolIsFirstField(key: string)
    ensures var g := GeneSymbolOf(key);
      && KeySeparator !in g
      && |g| <= |key| && key[..|g|] == g
      && (|g| < |key| ==> key[|g|] == KeySeparator)
      && (g == key <==> KeySeparator !in key)
  {
    var tokens := Split(key, KeySeparator);
    JoinSplit(key, KeySeparator);
    JoinFirstToken(tokens, KeySeparator);
    SplitCount(key, KeySeparator);
  }

  /**
   * The accession is present exactly when the key holds a ';'; it is then the
   * ';'-free text that follows the first ';' and runs up to the second ';'
   * or the end of the key.
   */
  lemma AccessionIsSecondField(key: string)
    ensures AccessionOf(key).Some? <==> KeySeparator in key
    ensures AccessionOf(key).Some? ==>
      var g, a := GeneSymbolOf(key), AccessionOf(key).value;
      var start := |g| + 1;
      && KeySeparator !in a
      && start + |a| <= |key|
      && key[|g|] == KeySeparator
      && key[start..start + |a|] == a
      && (start + |a| < |key| ==> key[start + |a|] == KeySeparator)
  {
    var tokens := Split(key, KeySeparator);
    SplitCount(key, KeySeparator);
    JoinSplit(key, KeySeparator);
    if |tokens| > 1 {
      JoinSecondToken(tokens, KeySeparator);
    }
  }

  /** A key with exactly one ';' is rebuilt by joining its two derived fields. */
  lemma KeyRoundTrip(key: string)
    requires Occurrences(key, KeySeparator) == 1
    ensures AccessionOf(key).Some?
    ensures GeneSymbolOf(key) + [KeySeparator] + AccessionOf(key).value == key
  {
    var tokens := Split(key, KeySeparator);
    JoinSplit(key, KeySeparator);
    SplitCount(key, KeySeparator);
    assert Join(tokens, KeySeparator) == tokens[0] + [KeySeparator] + Join(tokens[1..], KeySeparator);
  }

  /** The converse round trip: a key built from ';'-free parts splits back into them. */
  lemma KeyFromFields(gene: string, accession: string)
    requires KeySeparator !in gene && KeySeparator !in accession
    ensures GeneSymbolOf(gene + [KeySeparator] + accession) == gene
    ensures AccessionOf(gene + [KeySeparator] + accession) == Some(accession)
  {
    var tokens := [gene, accession];
    assert Join(tokens, KeySeparator) == gene + [KeySeparator] + accession;
    SplitJoin(tokens, KeySeparator);
  }

  /** Adds the GeneSymbol, Coverage and Accession columns to one row. */
  function DeriveRow(row: SambambaRow): CoverageRow {
    CoverageRow(row, GeneSymbolOf(row.geneSymbolAccession), row.percentage30, AccessionOf(row.geneSymbolAccession))
  }

  /**
   * Adds the derived columns to every row: same number of rows in the same
   * order, original fields untouched, Coverage a copy of percentage30.
   */
  function DeriveColumns(rows: seq<SambambaRow>): (derived: seq<CoverageRow>)
    ensures |derived| == |rows|
    ensures forall i :: 0 <= i < |rows| ==>
      && derived[i].raw == rows[i]
      && derived[i].coverage == rows[i].percentage30
      && derived[i].geneSymbol == GeneSymbolOf(rows[i].geneSymbolAccession)
      && derived[i].accession == AccessionOf(rows[i].geneSymbolAccession)
  {
    seq(|rows|, i requires 0 <= i < |rows| => DeriveRow(rows[i]))
  }

  /** Derived rows are consistent: Coverage equals percentage30 and the symbol carries no ';'. */
  predicate WellDerived(row: CoverageRow) {
    && row.coverage == row.raw.percentage30
    && KeySeparator !in row.geneSymbol
    && (row.accession.Some? <==> KeySeparator in row.raw.geneSymbolAccession)
  }

  lemma DeriveColumnsWellDerived(rows: seq<SambambaRow>)
    ensures forall r :: r in DeriveColumns(rows) ==> WellDerived(r)
  {
    var derived := DeriveColumns(rows);
    forall i | 0 <= i < |derived|
      ensures WellDerived(derived[i])
    {
      GeneSymbolIsFirstField(rows[i].geneSymbolAccession);
      AccessionIsSecondField(rows[i].geneSymbolAccession);
    }
  }

  // ---------------------------------------------------------------------
  // Low-coverage report (generate_report)
  // ---------------------------------------------------------------------

  /** The coverage percentage at 30x below which an exon is reported. */
  const FullCoverage: real := 100.0

  predicate IsLowCoverage(row: CoverageRow) {
    row.raw.percentage30 < FullCoverage
  }

  /** The (GeneSymbol, Coverage) projection of one row. */
  datatype GeneCoverage = GeneCoverage(geneSymbol: string, coverage: real)

  datatype Report = Report(lowCoverage: seq<GeneCoverage>, genes: seq<string>)

  function LowCoverageRows(rows: seq<CoverageRow>): seq<CoverageRow> {
    Filter(rows, IsLowCoverage)
  }

  function Project(rows: seq<CoverageRow>): (table: seq<GeneCoverage>)
    ensures |table| == |rows|
  {
    seq(|rows|, i requires 0 <= i < |rows| => GeneCoverage(rows[i].geneSymbol, rows[i].coverage))
  }

  function Symbols(table: seq<GeneCoverage>): (symbols: seq<string>)
    ensures |symbols| == |table|
  {
    seq(|table|, i requires 0 <= i < |table| => table[i].geneSymbol)
  }

  /** Filter on percentage30 < 100, project to (GeneSymbol, Coverage), list the distinct symbols. */
  function GenerateReport(rows: seq<CoverageRow>): Report {
    var table := Project(LowCoverageRows(rows));
    Report(table, Unique(Symbols(table)))
  }

  /**
   * The filtered rows are exactly the rows below full coverage, each kept as
   * often as it occurs, never more rows than the input, and in input order.
   */
  lemma LowCoverageRowsSelection(rows: seq<CoverageRow>, more: seq<CoverageRow>)
    ensures var low := LowCoverageRows(rows);
      && |low| <= |rows|
      && (forall i :: 0 <= i < |low| ==> low[i].raw.percentage30 < 100.0)
      && (forall r :: r in low <==> r in rows && r.raw.percentage30 < 100.0)
      && (forall r :: multiset(low)[r] == if r.raw.percentage30 < 100.0 then multiset(rows)[r] else 0)
      && LowCoverageRows(rows + more) == low + LowCoverageRows(more)
  {
    FilterMembers(rows, IsLowCoverage);
    forall r
      ensures multiset(LowCoverageRows(rows))[r] == if r.raw.percentage30 < 100.0 then multiset(rows)[r] else 0
    {
      FilterCount(rows, IsLowCoverage, r);
    }
    FilterConcat(rows, more, IsLowCoverage);
  }

  /** A single row is reported exactly when it is below full coverage. */
  lemma LowCoverageRowsSingle(row: CoverageRow)
    ensures LowCoverageRows([row]) == if row.raw.percentage30 < 100.0 then [row] else []
  {
    assert [row][1..] == [];
  }

  /**
   * The report's table holds, in order, the (GeneSymbol, Coverage) pair of
   * each filtered row; an entry is in it exactly when some input row below
   * full coverage projects to it.
   */
  lemma ReportTable(rows: seq<CoverageRow>)
    ensures var low, table := LowCoverageRows(rows), GenerateReport(rows).lowCoverage;
      && |table| == |low| <= |rows|
      && (forall i :: 0 <= i < |table| ==> table[i].geneSymbol == low[i].geneSymbol && table[i].coverage == low[i].coverage)
      && (forall e :: e in table <==>
            exists r :: r in rows && r.raw.percentage30 < 100.0 && e == GeneCoverage(r.geneSymbol, r.coverage))
  {
    var low, table := LowCoverageRows(rows), GenerateReport(rows).lowCoverage;
    FilterMembers(rows, IsLowCoverage);
    forall e
      ensures e in table <==> exists r :: r in rows && r.raw.percentage30 < 100.0 && e == GeneCoverage(r.geneSymbol, r.coverage)
    {
      if e in table {
        var i :| 0 <= i < |table| && table[i] == e;
        assert low[i] in low;
      }
      if exists r :: r in rows && r.raw.percentage30 < 100.0 && e == GeneCoverage(r.geneSymbol, r.coverage) {
        var r :| r in rows && r.raw.percentage30 < 100.0 && e == GeneCoverage(r.geneSymbol, r.coverage);
        assert r in low;
        var i :| 0 <= i < |low| && low[i] == r;
        assert table[i] == e;
      }
    }
  }

  /**
   * The gene list names each gene with an exon below full coverage exactly
   * once, in order of its first appearance in the table, and is empty
   * exactly when no exon is below full coverage.
   */
  lemma ReportGenes(rows: seq<CoverageRow>)
    ensures var report := GenerateReport(rows);
      var symbols := Symbols(report.lowCoverage);
      && NoDuplicates(report.genes)
      && (forall g :: g in report.genes <==>
            exists r :: r in rows && r.raw.percentage30 < 100.0 && r.geneSymbol == g)
      && (forall i, j :: 0 <= i < j < |report.genes| ==>
            FirstIndex(symbols, report.genes[i]) < FirstIndex(symbols, report.genes[j]))
      && (report.genes == [] <==> forall r :: r in rows ==> 100.0 <= r.raw.percentage30)
  {
    var report := GenerateReport(rows);
    var symbols := Symbols(report.lowCoverage);
    ReportTable(rows);
    UniqueOrder(symbols);
    forall g
      ensures g in report.genes <==> exists r :: r in rows && r.raw.percentage30 < 100.0 && r.geneSymbol == g
    {
      if g in report.genes {
        assert g in symbols;
        var i :| 0 <= i < |symbols| && symbols[i] == g;
        assert report.lowCoverage[i] in report.lowCoverage;
      }
      if exists r :: r in rows && r.raw.percentage30 < 100.0 && r.geneSymbol == g {
        var r :| r in rows && r.raw.percentage30 < 100.0 && r.geneSymbol == g;
        var e := GeneCoverage(r.geneSymbol, r.coverage);
        assert e in report.lowCoverage;
        var i :| 0 <= i < |report.lowCoverage| && report.lowCoverage[i] == e;
        assert symbols[i] == g;
      }
    }
    if report.genes == [] {
      forall r | r in rows
        ensures 100.0 <= r.raw.percentage30
      {
        assert r.geneSymbol !in report.genes;
      }
    }
    if report.genes != [] {
      assert report.genes[0] in report.genes;
    }
  }

  /**
   * For rows produced by `DeriveColumns`, every reported coverage is below
   * 100 and every reported gene symbol is free of ';'.
   */
  lemma ReportOfDerivedRows(rows: seq<SambambaRow>)
    ensures var report := GenerateReport(DeriveColumns(rows));
      && (forall e :: e in report.lowCoverage ==> e.coverage < 100.0 && KeySeparator !in e.geneSymbol)
      && (forall g :: g in report.genes ==> KeySeparator !in g)
  {
    var derived := DeriveColumns(rows);
    DeriveColumnsWellDerived(rows);
    ReportTable(derived);
    ReportGenes(derived);
  }

  function ExampleRow(key: string, percentage30: real): SambambaRow {
    SambambaRow("chr17", 100, 200, "chr17-100-200", ".", ".", key, 100, 50, 40.0, percentage30, "sample1")
  }

  /**
   * One gene ("BRCA1;NM_1", say) with three exons at 100, 80 and 100 percent:
   * only the 80 percent exon is reported, and the gene list names the gene once.
   */
  lemma OneIncompleteExonReported(gene: string, accession: string)
    requires KeySeparator !in gene && KeySeparator !in accession
    ensures var key := gene + [KeySeparator] + accession;
      var rows := [ExampleRow(key, 100.0), ExampleRow(key, 80.0), ExampleRow(key, 100.0)];
      var report := GenerateReport(DeriveColumns(rows));
      && report.lowCoverage == [GeneCoverage(gene, 80.0)]
      && report.genes == [gene]
  {
    var key := gene + [KeySeparator] + accession;
    KeyFromFields(gene, accession);
    var rows := [ExampleRow(key, 100.0), ExampleRow(key, 80.0), ExampleRow(key, 100.0)];
    var derived := DeriveColumns(rows);
    var d0, d1, d2 := derived[0], derived[1], derived[2];
    assert d1.geneSymbol == gene && d1.coverage == 80.0;
    assert derived == [d0, d1] + [d2];
    assert [d0, d1] == [d0] + [d1];
    LowCoverageRowsSingle(d0);
    LowCoverageRowsSingle(d1);
    LowCoverageRowsSingle(d2);
    LowCoverageRowsSelection([d0], [d1]);
    LowCoverageRowsSelection([d0, d1], [d2]);
    var low := LowCoverageRows(derived);
    assert low == [d1];
    var table := Project(low);
    assert table == [GeneCoverage(gene, 80.0)];
    var symbols := Symbols(table);
    assert symbols == [gene];
    assert symbols[..0] == [];
    assert Unique(symbols) == [gene];
    assert GenerateReport(derived) == Report(table, [gene]);
  }
}
