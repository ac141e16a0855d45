/**
 * JaCoCo coverage aggregation of `JacocoService` (src/services/jacocoService.ts):
 * turning a parsed `report > package > sourcefile > line` tree into
 * per-file `CoverageData` and per-package `ModuleCoverage` records
 * (`parseCoverageReport`), concatenating the results of several reports,
 * averaging module totals (`calculateOverallCoverage`) and banding a
 * percentage (`getCoverageClass`). Percentages are exact reals.
 */
module Coverage {
  import opened Wrappers

  // ---------------------------------------------------------------------------
  // The parsed XML tree, as the XML parser hands it over
  // ---------------------------------------------------------------------------

  /**
   * The children of one tag as the XML parser presents them: no such child,
   * a single child object, or an array of them.
   */
  datatype Children<T> = Absent | Single(item: T) | Many(items: seq<T>)

  /** `x ? (Array.isArray(x) ? x : [x]) : []`: the children as a list. */
  function AsList<T>(c: Children<T>): seq<T> {
    match c
    case Absent => []
    case Single(x) => [x]
    case Many(xs) => xs
  }

  /**
   * A `<line>` element. `nr` is its line number; `ci` and `mi` its covered
   * and missed instruction counts, `None` when the attribute is absent or
   * not a number (both fail every `> 0` test, like a count of 0).
   */
  datatype LineEntry = LineEntry(nr: int, ci: Option<int>, mi: Option<int>)

  /** A `<sourcefile>` element: its `name` attribute and its `<line>` children. */
  datatype SourceFileNode = SourceFileNode(name: string, lines: Children<LineEntry>)

  /** A `<package>` element: its optional `name` attribute and its `<sourcefile>` children. */
  datatype PackageNode = PackageNode(name: Option<string>, sourcefiles: Children<SourceFileNode>)

  /** The `<report>` element and its `<package>` children. */
  datatype ReportNode = ReportNode(packages: Children<PackageNode>)

  /** A parsed document; `report` is `None` when it has no `<report>` root. */
  datatype Document = Document(report: Option<ReportNode>)

  // ---------------------------------------------------------------------------
  // The coverage records
  // ---------------------------------------------------------------------------

  /** Coverage of one source file. `uncoveredLines` holds 1-based line numbers. */
  datatype CoverageData = CoverageData(
    fileName: string,
    moduleName: string,
    uncoveredLines: seq<int>,
    totalLines: nat,
    coveredLines: nat,
    coveragePercentage: real)

  /** Coverage of one package: its files in report order and their unweighted mean. */
  datatype ModuleCoverage = ModuleCoverage(
    moduleName: string,
    files: seq<CoverageData>,
    totalCoverage: real,
    modulePath: Option<string>)

  /** Prefix of the error thrown when a report cannot be read or parsed. */
  const ParseErrorPrefix: string := "Failed to parse JaCoCo report: "

  // ---------------------------------------------------------------------------
  // Line classification and the per-file tallies
  // ---------------------------------------------------------------------------

  /** `parseInt(attr || "0")` as seen by a `> 0` test. */
  function Count(attr: Option<int>): int {
    attr.GetOr(0)
  }

  /** A line with at least one covered instruction. */
  predicate IsCovered(l: LineEntry) {
    Count(l.ci) > 0
  }

  /** A line with no covered instruction and at least one missed one. */
  predicate IsUncovered(l: LineEntry) {
    !IsCovered(l) && Count(l.mi) > 0
  }

  /** The number of covered lines, counted in document order. */
  function CoveredCount(lines: seq<LineEntry>): nat
    decreases |lines|
  {
    if |lines| == 0 then 0
    else CoveredCount(lines[..|lines| - 1]) + (if IsCovered(lines[|lines| - 1]) then 1 else 0)
  }

  /** The numbers of the uncovered lines, in document order. */
  function UncoveredNumbers(lines: seq<LineEntry>): seq<int>
    decreases |lines|
  {
    if |lines| == 0 then []
    else
      var last := lines[|lines| - 1];
      UncoveredNumbers(lines[..|lines| - 1]) + (if IsUncovered(last) then [last.nr] else [])
  }

  /** `covered / total * 100`, or 0 for a file without lines. */
  function Percentage(covered: nat, total: nat): real {
    if total > 0 then covered as real / total as real * 100.0 else 0.0
  }

  /** The indexes of the covered lines. */
  function CoveredIndexes(lines: seq<LineEntry>): set<nat> {
    set i: nat | i < |lines| && IsCovered(lines[i])
  }

  /** The indexes of the uncovered lines. */
  function UncoveredIndexes(lines: seq<LineEntry>): set<nat> {
    set i: nat | i < |lines| && IsUncovered(lines[i])
  }

  /** `coveredLines` is the number of line entries whose `ci` is positive. */
  lemma {:induction false} CoveredCountIsCardinality(lines: seq<LineEntry>)
    ensures CoveredCount(lines) == |CoveredIndexes(lines)|
    decreases |lines|
  {
    if |lines| > 0 {
      var n := |lines| - 1;
      var init := lines[..n];
      CoveredCountIsCardinality(init);
      assert forall i :: 0 <= i < n ==> init[i] == lines[i];
      if IsCovered(lines[n]) {
        assert CoveredIndexes(lines) == CoveredIndexes(init) + {n};
      } else {
        assert CoveredIndexes(lines) == CoveredIndexes(init);
      }
    }
  }

  /** There are as many uncovered line numbers as lines with `ci = 0` and `mi > 0`. */
  lemma {:induction false} UncoveredCountIsCardinality(lines: seq<LineEntry>)
    ensures |UncoveredNumbers(lines)| == |UncoveredIndexes(lines)|
    decreases |lines|
  {
    if |lines| > 0 {
      var n := |lines| - 1;
      var init := lines[..n];
      UncoveredCountIsCardinality(init);
      assert forall i :: 0 <= i < n ==> init[i] == lines[i];
      if IsUncovered(lines[n]) {
        assert UncoveredIndexes(lines) == UncoveredIndexes(init) + {n};
      } else {
        assert UncoveredIndexes(lines) == UncoveredIndexes(init);
      }
    }
  }

  /**
   * A number is reported uncovered exactly when some line entry with that
   * number has no covered and some missed instructions.
   */
  lemma {:induction false} UncoveredMembership(lines: seq<LineEntry>, x: int)
    ensures x in UncoveredNumbers(lines) <==>
              exists i :: 0 <= i < |lines| && IsUncovered(lines[i]) && lines[i].nr == x
    decreases |lines|
  {
    if |lines| > 0 {
      var n := |lines| - 1;
      var init := lines[..n];
      UncoveredMembership(init, x);
      if x in UncoveredNumbers(init) {
        var i :| 0 <= i < n && IsUncovered(init[i]) && init[i].nr == x;
        assert lines[i] == init[i];
      }
      if exists i :: 0 <= i < |lines| && IsUncovered(lines[i]) && lines[i].nr == x {
        var i :| 0 <= i < |lines| && IsUncovered(lines[i]) && lines[i].nr == x;
        if i < n {
          assert init[i] == lines[i];
        }
      }
    }
  }

  /** Line numbers are collected in encounter order: the tally of a concatenation is the concatenation of tallies. */
  lemma {:induction false} TallyAppend(a: seq<LineEntry>, b: seq<LineEntry>)
    ensures UncoveredNumbers(a + b) == UncoveredNumbers(a) + UncoveredNumbers(b)
    ensures CoveredCount(a + b) == CoveredCount(a) + CoveredCount(b)
    decreases |b|
  {
    if |b| == 0 {
      assert a + b == a;
    } else {
      var n := |b| - 1;
      assert (a + b)[..|a + b| - 1] == a + b[..n];
      assert (a + b)[|a + b| - 1] == b[n];
      TallyAppend(a, b[..n]);
    }
  }

  /**
   * A line is covered, uncovered or neither, so covered lines and uncovered
   * line numbers together never exceed the number of line entries.
   */
  lemma {:induction false} TallyBound(lines: seq<LineEntry>)
    ensures CoveredCount(lines) + |UncoveredNumbers(lines)| <= |lines|
    decreases |lines|
  {
    if |lines| > 0 {
      TallyBound(lines[..|lines| - 1]);
    }
  }

  /** A percentage of covered lines lies in [0, 100]; it is 100 exactly for a fully covered, non-empty file. */
  lemma PercentageBounds(covered: nat, total: nat)
    requires covered <= total
    ensures 0.0 <= Percentage(covered, total) <= 100.0
    ensures Percentage(covered, total) == 100.0 <==> total > 0 && covered == total
    ensures Percentage(covered, total) == 0.0 <==> covered == 0
  {
    if total > 0 {
      var q := covered as real / total as real;
      assert q * total as real == covered as real;
      assert q <= 1.0;
      assert covered == total ==> q == 1.0;
      assert q == 1.0 ==> covered == total;
    }
  }

  /** The record of one `<sourcefile>`: counts, uncovered lines in order and the percentage. */
  function FileCoverage(sf: SourceFileNode, moduleName: string): (r: CoverageData)
    ensures r.fileName == sf.name && r.moduleName == moduleName
    ensures r.totalLines == |AsList(sf.lines)|
    ensures r.coveredLines + |r.uncoveredLines| <= r.totalLines
    ensures 0.0 <= r.coveragePercentage <= 100.0
    ensures r.totalLines == 0 ==> r.coveragePercentage == 0.0
  {
    var lines := AsList(sf.lines);
    var covered := CoveredCount(lines);
    TallyBound(lines);
    PercentageBounds(covered, |lines|);
    CoverageData(sf.name, moduleName, UncoveredNumbers(lines), |lines|, covered, Percentage(covered, |lines|))
  }

  // ---------------------------------------------------------------------------
  // Means
  // ---------------------------------------------------------------------------

  /** `xs.reduce((sum, x) => sum + x, 0)`. */
  function Sum(xs: seq<real>): real
    decreases |xs|
  {
    if |xs| == 0 then 0.0 else Sum(xs[..|xs| - 1]) + xs[|xs| - 1]
  }

  /** The unweighted arithmetic mean, 0 for no values. */
  function Mean(xs: seq<real>): real {
    if |xs| > 0 then Sum(xs) / |xs| as real else 0.0
  }

  /** Every value lies in [0, 100]. */
  predicate AllPercentages(xs: seq<real>) {
    forall k :: 0 <= k < |xs| ==> 0.0 <= xs[k] <= 100.0
  }

  lemma {:induction false} SumBounds(xs: seq<real>)
    requires AllPercentages(xs)
    ensures 0.0 <= Sum(xs) <= 100.0 * |xs| as real
    decreases |xs|
  {
    if |xs| > 0 {
      SumBounds(xs[..|xs| - 1]);
    }
  }

  /** The mean of percentages is a percentage. */
  lemma MeanBounds(xs: seq<real>)
    requires AllPercentages(xs)
    ensures 0.0 <= Mean(xs) <= 100.0
  {
    if |xs| > 0 {
      SumBounds(xs);
      var n := |xs| as real;
      assert Mean(xs) * n == Sum(xs);
    }
  }

  /** The mean of equal values is that value. */
  lemma {:induction false} MeanOfConstant(xs: seq<real>, c: real)
    requires |xs| > 0 && forall k :: 0 <= k < |xs| ==> xs[k] == c
    ensures Mean(xs) == c
  {
    SumOfConstant(xs, c);
  }

  lemma {:induction false} SumOfConstant(xs: seq<real>, c: real)
    requires forall k :: 0 <= k < |xs| ==> xs[k] == c
    ensures Sum(xs) == c * |xs| as real
    decreases |xs|
  {
    if |xs| > 0 {
      SumOfConstant(xs[..|xs| - 1], c);
    }
  }

  /** The percentages of a list of file records. */
  function FilePercentages(files: seq<CoverageData>): (r: seq<real>)
    ensures |r| == |files| && forall k :: 0 <= k < |files| ==> r[k] == files[k].coveragePercentage
  {
    seq(|files|, k requires 0 <= k < |files| => files[k].coveragePercentage)
  }

  /** The module totals of a list of module records. */
  function ModuleTotals(modules: seq<ModuleCoverage>): (r: seq<real>)
    ensures |r| == |modules| && forall k :: 0 <= k < |modules| ==> r[k] == modules[k].totalCoverage
  {
    seq(|modules|, k requires 0 <= k < |modules| => modules[k].totalCoverage)
  }

  // ---------------------------------------------------------------------------
  // The whole report
  // ---------------------------------------------------------------------------

  /** `pkg["@_name"] || "default"`: an absent or empty name gives "default". */
  function ModuleName(pkg: PackageNode): string {
    if pkg.name.Some? && pkg.name.value != "" then pkg.name.value else "default"
  }

  /** A module name is never empty: it is the package's own name or "default". */
  lemma ModuleNameNonEmpty(pkg: PackageNode)
    ensures ModuleName(pkg) != []
    ensures ModuleName(pkg) == "default" || pkg.name == Some(ModuleName(pkg))
  {
  }

  /** The file records of a package's source files, in order. */
  function FilesOf(sourceFiles: seq<SourceFileNode>, moduleName: string): seq<CoverageData>
    decreases |sourceFiles|
  {
    if |sourceFiles| == 0 then []
    else FilesOf(sourceFiles[..|sourceFiles| - 1], moduleName) + [FileCoverage(sourceFiles[|sourceFiles| - 1], moduleName)]
  }

  /** The record of one `<package>`. */
  function PackageCoverage(pkg: PackageNode): ModuleCoverage {
    var name := ModuleName(pkg);
    var files := FilesOf(AsList(pkg.sourcefiles), name);
    ModuleCoverage(name, files, Mean(FilePercentages(files)), None)
  }

  /** The records of a list of packages, in order. */
  function ModulesOf(packages: seq<PackageNode>): seq<ModuleCoverage>
    decreases |packages|
  {
    if |packages| == 0 then []
    else ModulesOf(packages[..|packages| - 1]) + [PackageCoverage(packages[|packages| - 1])]
  }

  /** The packages of a document; none when the `<report>` root is missing. */
  function PackagesOf(doc: Document): seq<PackageNode> {
    if doc.report.Some? then AsList(doc.report.value.packages) else []
  }

  /** What `parseCoverageReport` returns for a parsed document. */
  function ReportCoverage(doc: Document): seq<ModuleCoverage> {
    ModulesOf(PackagesOf(doc))
  }

  lemma {:induction false} FilesOfAt(sourceFiles: seq<SourceFileNode>, moduleName: string)
    ensures |FilesOf(sourceFiles, moduleName)| == |sourceFiles|
    ensures forall j :: 0 <= j < |sourceFiles| ==>
              FilesOf(sourceFiles, moduleName)[j] == FileCoverage(sourceFiles[j], moduleName)
    decreases |sourceFiles|
  {
    if |sourceFiles| > 0 {
      var n := |sourceFiles| - 1;
      FilesOfAt(sourceFiles[..n], moduleName);
    }
  }

  lemma {:induction false} ModulesOfAt(packages: seq<PackageNode>)
    ensures |ModulesOf(packages)| == |packages|
    ensures forall i :: 0 <= i < |packages| ==> ModulesOf(packages)[i] == PackageCoverage(packages[i])
    decreases |packages|
  {
    if |packages| > 0 {
      ModulesOfAt(packages[..|packages| - 1]);
    }
  }

  /**
   * The shape of a parsed report: one module per package in document order,
   * named by the package or "default"; one file per source file in order,
   * each carrying its package's name and a percentage in [0, 100]; each
   * module total the unweighted mean of its files, itself in [0, 100].
   */
  lemma ReportStructure(doc: Document)
    ensures |ReportCoverage(doc)| == |PackagesOf(doc)|
    ensures forall i :: 0 <= i < |PackagesOf(doc)| ==>
              var m := ReportCoverage(doc)[i];
              var pkg := PackagesOf(doc)[i];
              && m.moduleName == ModuleName(pkg)
              && m.modulePath == None
              && |m.files| == |AsList(pkg.sourcefiles)|
              && m.totalCoverage == Mean(FilePercentages(m.files))
              && 0.0 <= m.totalCoverage <= 100.0
              && forall j :: 0 <= j < |m.files| ==>
                   && m.files[j].fileName == AsList(pkg.sourcefiles)[j].name
                   && m.files[j].moduleName == m.moduleName
                   && 0.0 <= m.files[j].coveragePercentage <= 100.0
  {
    var pkgs := PackagesOf(doc);
    ModulesOfAt(pkgs);
    forall i | 0 <= i < |pkgs|
      ensures 0.0 <= ReportCoverage(doc)[i].totalCoverage <= 100.0
      ensures |ReportCoverage(doc)[i].files| == |AsList(pkgs[i].sourcefiles)|
      ensures forall j :: 0 <= j < |ReportCoverage(doc)[i].files| ==>
                ReportCoverage(doc)[i].files[j] == FileCoverage(AsList(pkgs[i].sourcefiles)[j], ModuleName(pkgs[i]))
    {
      var m := ReportCoverage(doc)[i];
      FilesOfAt(AsList(pkgs[i].sourcefiles), ModuleName(pkgs[i]));
      MeanBounds(FilePercentages(m.files));
    }
  }

  /** A missing `<report>` root or a report without packages yields no modules, not an error. */
  lemma EmptyReports(doc: Document)
    requires doc.report.None? || doc.report.value.packages.Absent?
    ensures ReportCoverage(doc) == []
  {
  }

  /** A lone child element is read exactly as a one-element list of it. */
  lemma SingleChildIsOneElementList(p: PackageNode, sf: SourceFileNode, l: LineEntry)
    ensures ReportCoverage(Document(Some(ReportNode(Single(p)))))
         == ReportCoverage(Document(Some(ReportNode(Many([p])))))
    ensures PackageCoverage(PackageNode(p.name, Single(sf))) == PackageCoverage(PackageNode(p.name, Many([sf])))
    ensures FileCoverage(SourceFileNode(sf.name, Single(l)), "m") == FileCoverage(SourceFileNode(sf.name, Many([l])), "m")
  {
  }

  /**
   * One package "com.example" with one file "Foo.java" whose line 1 is
   * covered and whose line 2 is missed gives 50% for the file and the module.
   */
  function FooDocument(): Document {
    var lines := [LineEntry(1, Some(1), Some(0)), LineEntry(2, Some(0), Some(1))];
    Document(Some(ReportNode(Single(PackageNode(Some("com.example"), Single(SourceFileNode("Foo.java", Many(lines))))))))
  }

  /** The file of the example: line 2 is missed, one of two lines is covered, 50%. */
  lemma FooFileExample()
    ensures FileCoverage(SourceFileNode("Foo.java", Many([LineEntry(1, Some(1), Some(0)), LineEntry(2, Some(0), Some(1))])), "com.example")
         == CoverageData("Foo.java", "com.example", [2], 2, 1, 50.0)
  {
    var lines := [LineEntry(1, Some(1), Some(0)), LineEntry(2, Some(0), Some(1))];
    assert lines[..1] == [LineEntry(1, Some(1), Some(0))];
    assert CoveredCount(lines) == 1;
    assert UncoveredNumbers(lines) == [2];
    assert Percentage(1, 2) == 50.0;
  }

  lemma FooExample()
    ensures ReportCoverage(FooDocument())
         == [ModuleCoverage("com.example",
              [CoverageData("Foo.java", "com.example", [2], 2, 1, 50.0)], 50.0, None)]
  {
    var lines := [LineEntry(1, Some(1), Some(0)), LineEntry(2, Some(0), Some(1))];
    var sf := SourceFileNode("Foo.java", Many(lines));
    var file := CoverageData("Foo.java", "com.example", [2], 2, 1, 50.0);
    FooFileExample();
    SingletonFiles(sf, "com.example");
    assert FilePercentages([file]) == [50.0];
    SingletonMean(50.0);
    var pkg := PackageNode(Some("com.example"), Single(sf));
    assert AsList(pkg.sourcefiles) == [sf];
    assert PackageCoverage(pkg) == ModuleCoverage("com.example", [file], 50.0, None);
    assert PackagesOf(FooDocument()) == [pkg];
    SingletonModules(pkg);
  }

  lemma SingletonFiles(sf: SourceFileNode, moduleName: string)
    ensures FilesOf([sf], moduleName) == [FileCoverage(sf, moduleName)]
  {
    assert [sf][..0] == [];
  }

  lemma SingletonModules(pkg: PackageNode)
    ensures ModulesOf([pkg]) == [PackageCoverage(pkg)]
  {
    assert [pkg][..0] == [];
  }

  lemma SingletonMean(x: real)
    ensures Mean([x]) == x
  {
    assert [x][..0] == [];
    assert Sum([x]) == Sum([]) + x;
  }

  // ---------------------------------------------------------------------------
  // The imperative aggregation
  // ---------------------------------------------------------------------------

  /**
   * `parseCoverageReport`: a failure of reading or parsing the report becomes
   * a failure with the parser's message; otherwise the nested loops over
   * packages, source files and lines build exactly `ReportCoverage`.
   */
  method ParseCoverageReport(parsed: Result<Document>) returns (r: Result<seq<ModuleCoverage>>)
    ensures parsed.Failure? ==> r == Failure(ParseErrorPrefix + parsed.error)
    ensures parsed.Success? ==> r == Success(ReportCoverage(parsed.value))
  {
    if parsed.Failure? {
      return Failure(ParseErrorPrefix + parsed.error);
    }
    var report := parsed.value.report;
    var modulesCoverage: seq<ModuleCoverage> := [];
    if report.None? || report.value.packages.Absent? {
      return Success(modulesCoverage);
    }
    var packages := AsList(report.value.packages);
    for p := 0 to |packages|
      invariant modulesCoverage == ModulesOf(packages[..p])
    {
      var pkg := packages[p];
      var moduleName := ModuleName(pkg);
      var files := ScanSourceFiles(AsList(pkg.sourcefiles), moduleName);
      var totalCoverage := if |files| > 0 then Sum(FilePercentages(files)) / |files| as real else 0.0;
      modulesCoverage := modulesCoverage + [ModuleCoverage(moduleName, files, totalCoverage, None)];
      assert packages[..p + 1][..p] == packages[..p];
    }
    assert packages[..|packages|] == packages;
    return Success(modulesCoverage);
  }

  /** The loop over the `<sourcefile>` children of one package. */
  method ScanSourceFiles(sourceFiles: seq<SourceFileNode>, moduleName: string) returns (files: seq<CoverageData>)
    ensures files == FilesOf(sourceFiles, moduleName)
  {
    files := [];
    for f := 0 to |sourceFiles|
      invariant files == FilesOf(sourceFiles[..f], moduleName)
    {
      var sourceFile := sourceFiles[f];
      var lines := AsList(sourceFile.lines);
      var uncoveredLines, totalLines, coveredLines := ScanLines(lines);
      var coveragePercentage := if totalLines > 0 then coveredLines as real / totalLines as real * 100.0 else 0.0;
      files := files + [CoverageData(sourceFile.name, moduleName, uncoveredLines, totalLines, coveredLines, coveragePercentage)];
      assert sourceFiles[..f + 1][..f] == sourceFiles[..f];
    }
    assert sourceFiles[..|sourceFiles|] == sourceFiles;
  }

  /** The loop over the `<line>` children of one source file. */
  method ScanLines(lines: seq<LineEntry>) returns (uncoveredLines: seq<int>, totalLines: nat, coveredLines: nat)
    ensures totalLines == |lines|
    ensures coveredLines == CoveredCount(lines) == |CoveredIndexes(lines)|
    ensures uncoveredLines == UncoveredNumbers(lines)
  {
    uncoveredLines, totalLines, coveredLines := [], 0, 0;
    for l := 0 to |lines|
      invariant totalLines == l
      invariant coveredLines == CoveredCount(lines[..l])
      invariant uncoveredLines == UncoveredNumbers(lines[..l])
    {
      var line := lines[l];
      totalLines := totalLines + 1;
      if Count(line.ci) > 0 {
        coveredLines := coveredLines + 1;
      } else if Count(line.mi) > 0 {
        uncoveredLines := uncoveredLines + [line.nr];
      }
      assert lines[..l + 1][..l] == lines[..l];
    }
    assert lines[..|lines|] == lines;
    CoveredCountIsCardinality(lines);
  }

  // ---------------------------------------------------------------------------
  // Several reports, overall coverage and bands
  // ---------------------------------------------------------------------------

  /** `coverage.forEach(c => c.modulePath = path)` when a path is given. */
  function WithModulePath(modules: seq<ModuleCoverage>, path: Option<string>): (r: seq<ModuleCoverage>)
    ensures |r| == |modules|
    ensures path.None? ==> r == modules
    ensures path.Some? ==> forall k :: 0 <= k < |r| ==> r[k] == modules[k].(modulePath := path)
  {
    if path.None? then modules
    else seq(|modules|, k requires 0 <= k < |modules| => modules[k].(modulePath := path))
  }

  /** The modules of several parsed reports, concatenated; failed reports are skipped. */
  function Collected(results: seq<Result<seq<ModuleCoverage>>>, path: Option<string>): seq<ModuleCoverage>
    decreases |results|
  {
    if |results| == 0 then []
    else
      var last := results[|results| - 1];
      Collected(results[..|results| - 1], path) + (if last.Success? then WithModulePath(last.value, path) else [])
  }

  /**
   * Reports are never merged: collecting two batches gives the modules of the
   * first followed by those of the second, even when module names repeat.
   */
  lemma {:induction false} CollectedAppend(a: seq<Result<seq<ModuleCoverage>>>, b: seq<Result<seq<ModuleCoverage>>>, path: Option<string>)
    ensures Collected(a + b, path) == Collected(a, path) + Collected(b, path)
    decreases |b|
  {
    if |b| == 0 {
      assert a + b == a;
    } else {
      var n := |b| - 1;
      assert (a + b)[..|a + b| - 1] == a + b[..n];
      assert (a + b)[|a + b| - 1] == b[n];
      CollectedAppend(a, b[..n], path);
    }
  }

  /**
   * The loop of `runCoverageAnalysis` / `runCoverageAnalysisForModule` over
   * the parse results of the reports found: a report that failed to parse is
   * logged and skipped, the others are appended in order.
   */
  method CollectReports(results: seq<Result<seq<ModuleCoverage>>>, path: Option<string>) returns (all: seq<ModuleCoverage>)
    ensures all == Collected(results, path)
  {
    all := [];
    for i := 0 to |results|
      invariant all == Collected(results[..i], path)
    {
      var result := results[i];
      if result.Success? {
        all := all + WithModulePath(result.value, path);
      }
      assert results[..i + 1][..i] == results[..i];
    }
    assert results[..|results|] == results;
  }

  /** `calculateOverallCoverage`: the unweighted mean of the module totals, 0 without modules. */
  function OverallCoverage(modules: seq<ModuleCoverage>): (r: real)
    ensures |modules| == 0 ==> r == 0.0
    ensures (forall k :: 0 <= k < |modules| ==> 0.0 <= modules[k].totalCoverage <= 100.0) ==> 0.0 <= r <= 100.0
  {
    var totals := ModuleTotals(modules);
    if AllPercentages(totals) then MeanBounds(totals); Mean(totals) else Mean(totals)
  }

  /** The overall coverage of any parsed report lies in [0, 100]. */
  lemma OverallCoverageOfReport(doc: Document)
    ensures 0.0 <= OverallCoverage(ReportCoverage(doc)) <= 100.0
  {
    ReportStructure(doc);
  }

  /** `getCoverageClass`: high from 80, medium from 60, low below. */
  function GetCoverageClass(percentage: real): (r: string)
    ensures r == "coverage-high" <==> percentage >= 80.0
    ensures r == "coverage-medium" <==> 60.0 <= percentage < 80.0
    ensures r == "coverage-low" <==> percentage < 60.0
  {
    if percentage >= 80.0 then "coverage-high"
    else if percentage >= 60.0 then "coverage-medium"
    else "coverage-low"
  }

  /** The band of a class name: 0 low, 1 medium, 2 high. */
  function Band(cls: string): nat {
    if cls == "coverage-high" then 2 else if cls == "coverage-medium" then 1 else 0
  }

  /** More coverage never lands in a lower band. */
  lemma CoverageClassMonotone(p: real, q: real)
    requires p <= q
    ensures Band(GetCoverageClass(p)) <= Band(GetCoverageClass(q))
  {
  }
}
