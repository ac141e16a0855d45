# JUnitGenie core in Dafny

A Dafny model of the three self-contained pieces of logic inside the
JUnitGenie VS Code extension, with the properties they promise proved.

- **JaCoCo coverage** (`src/services/jacocoService.ts`), in three modules:
  - `Coverage` turns a parsed JaCoCo XML tree (`report > package > sourcefile > line`) into per-file `CoverageData` and per-package `ModuleCoverage` records. It also concatenates the results of several reports, averages module totals and bands a percentage into high, medium or low.
  - `Discovery` holds the JaCoCo plugin checks on `pom.xml` and `build.gradle` text, the two bounded recursive directory walks that find modules and reports, and the candidate report locations inside one module. The file system is an immutable directory tree given as a value.
  - `Decorations` models the service's `coverageDecorations` map and the uncovered rows each visible document shows. `applyCoverageDecorations` and `clearDecorations` are methods of a `JacocoService` class that update them.
- **Java text helpers** (`src/utils/javaParser.ts`), in module `JavaParser`. It covers class, package and import extraction; test-file detection; brace validation; visibility; parameter-list parsing; the constructor filter of `extractPublicMethods`; and test-file path derivation. The regular expressions are written out as scans over the text.
- **Chat state** of the test-generator webview (`resources/webview/main.js`), in module `Chat`:
  - the conversation history, the message-id counter and the `isGenerating` gate;
  - the input box's text, the messages posted to the extension and the last saved snapshot.

  They are fields of a `ChatView` class whose methods are the event handlers, with the DOM left out.

`Strings` models the JavaScript string built-ins the core relies on: `includes`, `trim`, `split(',')`, `split(/\s+/)`, `join` and counting a character. `Wrappers` holds `Option` and `Result`.

Percentages are exact reals. Line numbers and counts are unbounded integers.

## Model

| member | source | states |
|---|---|---|
| Strings.ContainsIffStartsAt | src/utils/javaParser.ts:93-97 | `includes(pat)` holds exactly when `pat` occurs at some index |
| Strings.Contains | src/utils/javaParser.ts:94-95 | defines `includes`: the pattern is a prefix of some suffix; `ContainsIffStartsAt` characterises it |
| Strings.Trim | src/utils/javaParser.ts:100-108 | defines `trim()` as the text between the leading and the trailing whitespace; `TrimIsSlice`, `TrimEdges` and `TrimBlank` state its properties |
| Strings.Split | src/utils/javaParser.ts:105 | `split(sep)` gives at least one piece and no piece holds the separator |
| Strings.Join | src/utils/javaParser.ts:112 | defines `join(sep)`: the parts with the separator between neighbours; `SplitJoin` makes it the inverse of `Split` |
| Strings.Words | src/utils/javaParser.ts:110 | `split(/\s+/)` of trimmed text: every token is non-empty and free of whitespace |
| Strings.CountChar | src/utils/javaParser.ts:127-128 | the number of occurrences of a character, never more than the length |
| Strings.TrimIsSlice | src/utils/javaParser.ts:100-108 | `trim()` yields a contiguous slice of the input with only whitespace cut away on both sides |
| Strings.TrimEdges | src/utils/javaParser.ts:100-108 | a trimmed non-empty string starts and ends with a non-whitespace character |
| Strings.TrimBlank | resources/webview/main.js:51-52 | the trimmed text is empty exactly when the input is all whitespace |
| Strings.TrimAvoids | src/utils/javaParser.ts:108 | trimming introduces no character that was not there |
| Strings.SplitJoin | src/utils/javaParser.ts:105 | joining the pieces of `split(sep)` with `sep` gives back the input, and no piece holds `sep` |
| Strings.WordsNonEmpty | src/utils/javaParser.ts:110 | text that is not all whitespace has at least one whitespace-separated token |
| Strings.WordsAvoid | src/utils/javaParser.ts:110 | the tokens hold no character the text does not hold |
| Strings.WordsOfJoin | src/utils/javaParser.ts:110-112 | non-empty, space-free tokens joined by one space split back into exactly those tokens |
| Strings.WordsOfWord | src/utils/javaParser.ts:110 | a leading token followed by whitespace is the first token of the split |
| Strings.JoinAvoids | src/utils/javaParser.ts:112 | joining adds no character absent from the parts and the separator |
| Strings.CountCharAppend | src/utils/javaParser.ts:127-128 | the number of occurrences of a character is additive over concatenation |
| Coverage.CoveredCountIsCardinality | src/services/jacocoService.ts:424-432 | `coveredLines` is the number of line entries whose `ci` is positive |
| Coverage.UncoveredCountIsCardinality | src/services/jacocoService.ts:429-436 | there are as many uncovered line numbers as entries with `ci` 0 (or absent) and `mi` positive |
| Coverage.UncoveredMembership | src/services/jacocoService.ts:431-435 | a number is reported uncovered if and only if some entry with that number has no covered and some missed instructions |
| Coverage.TallyAppend | src/services/jacocoService.ts:424-436 | the tallies of two runs of lines add up, and the uncovered numbers keep encounter order |
| Coverage.TallyBound | src/services/jacocoService.ts:429-436 | covered lines plus uncovered line numbers never exceed `totalLines`: lines with `ci = mi = 0` count only toward the total |
| Coverage.PercentageBounds | src/services/jacocoService.ts:438 | the file percentage lies in [0, 100]; it is 100 exactly for a fully covered non-empty file and 0 exactly when nothing is covered |
| Coverage.FileCoverage | src/services/jacocoService.ts:415-447 | a file record carries its source file's name and its package's name, `totalLines` is the number of entries, the counts are bounded and the percentage lies in [0, 100] (0 for a file without lines) |
| Coverage.SumBounds | src/services/jacocoService.ts:451-453 | the sum of n percentages lies in [0, 100·n] |
| Coverage.MeanBounds | src/services/jacocoService.ts:451-453 | the unweighted mean of percentages is a percentage |
| Coverage.MeanOfConstant | src/services/jacocoService.ts:451-453 | the mean of equal percentages is that percentage |
| Coverage.SumOfConstant | src/services/jacocoService.ts:452 | the sum of n equal values is n times the value |
| Coverage.FilesOfAt | src/services/jacocoService.ts:413-448 | one file record per source file, in source-file order |
| Coverage.ModulesOfAt | src/services/jacocoService.ts:406-460 | one module record per package, in document order |
| Coverage.ReportStructure | src/services/jacocoService.ts:406-459 | the shape of a parsed report: per package, in order, one module named by the package or "default" and without a module path; its files in source-file order, each with its package's name and a percentage in [0, 100]; its total the unweighted mean of the files' percentages and itself in [0, 100] |
| Coverage.EmptyReports | src/services/jacocoService.ts:401-403 | a missing `<report>` root or a report without packages gives an empty list, not an error |
| Coverage.SingleChildIsOneElementList | src/services/jacocoService.ts:406-418 | a lone package, source file or line element is read exactly as a one-element list of it |
| Coverage.ModuleName | src/services/jacocoService.ts:409 | defines the module name: the package name when present and non-empty, else "default" |
| Coverage.ModuleNameNonEmpty | src/services/jacocoService.ts:409 | a module name is never empty: it is the package's own name or "default" |
| Coverage.Percentage | src/services/jacocoService.ts:438 | defines `covered / total * 100`, 0 for a file without lines; `PercentageBounds` bounds it |
| Coverage.Mean | src/services/jacocoService.ts:451-453 | defines the unweighted mean, 0 without files; `MeanBounds` and `MeanOfConstant` state its properties |
| Coverage.FilesOf | src/services/jacocoService.ts:413-448 | defines the file records of a package, in source-file order; `FilesOfAt` characterises them |
| Coverage.PackageCoverage | src/services/jacocoService.ts:408-459 | defines one package's module record: its name, its files and the mean of their percentages, no module path |
| Coverage.ModulesOf | src/services/jacocoService.ts:406-460 | defines the module records of the packages, in order; `ModulesOfAt` characterises them |
| Coverage.ReportCoverage | src/services/jacocoService.ts:401-460 | defines what a parsed document yields; `ReportStructure` and `EmptyReports` characterise it and `ParseCoverageReport` returns it |
| Coverage.FooFileExample | src/services/jacocoService.ts:424-447 | one covered and one missed line give 1 of 2 covered lines, `[2]` uncovered and 50% |
| Coverage.FooExample | src/services/jacocoService.ts:388-467 | the whole report for that file in package `com.example` is one module at 50% |
| Coverage.ParseCoverageReport | src/services/jacocoService.ts:388-467 | a read or parse failure becomes a failure carrying "Failed to parse JaCoCo report: " and the cause; otherwise the nested loops build exactly the report's modules as characterised above |
| Coverage.ScanSourceFiles | src/services/jacocoService.ts:413-448 | the loop over a package's source files builds the file records in order |
| Coverage.ScanLines | src/services/jacocoService.ts:424-436 | the loop over a file's lines counts every entry, counts the covered entries, and collects the uncovered numbers in order |
| Coverage.WithModulePath | src/services/jacocoService.ts:540 | with a path, every module record gets that module path and is otherwise unchanged; without one, the list comes back unchanged; one record per module either way |
| Coverage.Collected | src/services/jacocoService.ts:530-545 | defines the concatenated modules of the successful reports, each with the module path; `CollectedAppend` and `CollectReports` state its properties |
| Coverage.CollectedAppend | src/services/jacocoService.ts:530-545 | results of several reports are concatenated, never merged: two batches give the first batch's modules followed by the second's |
| Coverage.CollectReports | src/services/jacocoService.ts:530-545 | the loop over parse results (also at lines 636-649 without a module path) skips failed reports and appends the others' modules in order |
| Coverage.OverallCoverage | src/services/jacocoService.ts:851-856 | 0 without modules; a percentage whenever every module total is one |
| Coverage.OverallCoverageOfReport | src/services/jacocoService.ts:851-856 | the overall coverage of any parsed report lies in [0, 100] |
| Coverage.GetCoverageClass | src/services/jacocoService.ts:858-862 | high exactly from 80, medium exactly in [60, 80), low exactly below 60: the three bands partition all values |
| Coverage.CoverageClassMonotone | src/services/jacocoService.ts:858-862 | more coverage never lands in a lower band |
| Discovery.JoinPathExtends | src/services/jacocoService.ts:360-368 | a joined path begins with its base |
| Discovery.JoinPathEnds | src/services/jacocoService.ts:360-368 | a joined path ends with a separator and its last segment |
| Discovery.JoinPathAppend | src/services/jacocoService.ts:360 | joining segment lists one after the other is joining their concatenation |
| Discovery.GradleCheckIsJacocoSubstring | src/services/jacocoService.ts:117-124 | the Gradle check holds exactly when the build file is readable and contains `jacoco`, because both quoted `id` forms contain it |
| Discovery.MavenCheckImpliesJacocoSubstring | src/services/jacocoService.ts:108-124 | a pom the Maven check accepts also passes the Gradle check |
| Discovery.ModuleHere | src/services/jacocoService.ts:71-93 | a directory is a module exactly when it has `pom.xml`, `build.gradle` or `build.gradle.kts`; it is named after the directory; it is Gradle only without a `pom.xml` |
| Discovery.ModulesFound | src/services/jacocoService.ts:62-106 | defines the modules the walk pushes: the directory's own, then those of every enterable sub-directory in listing order, down to level 4; `SearchForModules` computes it, `ModulesFoundExactly` characterises it in both directions and `ModulesFoundPlacement` gives the path shape |
| Discovery.ModulesFoundPlacement | src/services/jacocoService.ts:62-106 | every module found is at the starting path joined with at most 4 - depth directory names, none of them `.`-prefixed, `node_modules`, `target` or `build`; it is named after the last of those names, or after the starting directory when there are none |
| Discovery.ModulesInSubdirsPlacement | src/services/jacocoService.ts:95-102 | a module found below the sub-directories is at the path joined with between 1 and 4 - depth directory names, none of which the walk skips, and is named after the last of them |
| Discovery.ModuleWalkDepth | src/services/jacocoService.ts:62-106 | a walk started at level `depth` finds modules at most 4 - depth directory levels below its start, and a walk started beyond level 4 finds nothing |
| Discovery.ModulesFoundSound | src/services/jacocoService.ts:62-106 | every module found is the module of a directory that the walk reaches through listable directories and non-skipped sub-directories, no deeper than level 4, and lists; its path is the start joined with the names entered |
| Discovery.ModulesInSubdirsSound | src/services/jacocoService.ts:95-102 | the same for the modules found below a listing, the first step entering one of its sub-directories |
| Discovery.ModulesInSubdirsContains | src/services/jacocoService.ts:96-101 | what is found below one enterable sub-directory is among what the loop over the listing finds |
| Discovery.ModulesFoundComplete | src/services/jacocoService.ts:62-106 | every directory the walk reaches and lists within level 4 that has `pom.xml`, `build.gradle` or `build.gradle.kts` has its module found |
| Discovery.ModulesFoundExactly | src/services/jacocoService.ts:62-106 | a module is found if and only if it is the module of a directory the walk reaches and lists within level 4 |
| Discovery.SearchForModules | src/services/jacocoService.ts:62-106 | the recursive walk appends to the shared list exactly the modules found, in push order |
| Discovery.ExistingPaths | src/services/jacocoService.ts:370-374 | no more paths than candidate locations |
| Discovery.ExistingPathsExactly | src/services/jacocoService.ts:370-374 | a path is pushed exactly when it is the base joined with a candidate location that exists |
| Discovery.ReportsFound | src/services/jacocoService.ts:349-383 | defines the reports the walk pushes: per enterable sub-directory, its existing candidates and then those below it, listings down to level 3; `SearchForReports` computes it, `ReportsFoundExactly` characterises it in both directions and `ReportsFoundShape` gives the path shape |
| Discovery.JoinedReportPath | src/services/jacocoService.ts:363-368 | a candidate location joined to a base lies under the base and names a report file |
| Discovery.ExistingPathsShape | src/services/jacocoService.ts:363-374 | every existing candidate path lies under the base and is a `jacoco.xml` or `jacocoTestReport.xml` |
| Discovery.ReportsFoundShape | src/services/jacocoService.ts:349-383 | every report found is the starting path joined with between 1 and 4 - depth directory names, none `.`-prefixed or `node_modules`, followed by one of the four candidate locations; so it lies under the starting path and names a `jacoco.xml` or `jacocoTestReport.xml` |
| Discovery.ReportsInSubdirsShape | src/services/jacocoService.ts:358-379 | the same, for the reports found inside and below a list of sub-directories |
| Discovery.ReportsBelowItem | src/services/jacocoService.ts:359-377 | the reports probed inside one enterable sub-directory, and those found below it, lie on such a path from its parent |
| Discovery.ReportsFoundSound | src/services/jacocoService.ts:349-383 | every report found is a candidate location that exists in a sub-directory the walk enters from a listable directory no deeper than level 3 |
| Discovery.ReportsInSubdirsSound | src/services/jacocoService.ts:358-379 | the same for the reports found below a listing, the first step entering one of its sub-directories |
| Discovery.ProbedSound | src/services/jacocoService.ts:363-374 | every candidate probed and pushed for a sub-directory exists in it |
| Discovery.BelowItemSound | src/services/jacocoService.ts:377 | every report found by the recursive call exists in a directory reached through that sub-directory |
| Discovery.ReportReachedCons | src/services/jacocoService.ts:360-377 | a report reached below a sub-directory is reached from its parent through one more step |
| Discovery.ReportsInSubdirsContains | src/services/jacocoService.ts:358-379 | what is probed in and found below one enterable sub-directory is among what the loop over the listing finds |
| Discovery.ReportsFoundComplete | src/services/jacocoService.ts:349-383 | every candidate location that exists in a sub-directory the walk enters from a listable directory within level 3 is found |
| Discovery.ReportsFoundExactly | src/services/jacocoService.ts:349-383 | a report is found if and only if it is an existing candidate in a sub-directory the walk enters from a listable directory within level 3 |
| Discovery.ProbeCandidates | src/services/jacocoService.ts:370-374 | the probe loop appends exactly the existing candidate paths, in candidate order |
| Discovery.SearchForReports | src/services/jacocoService.ts:349-383 | the recursive walk appends to the shared list exactly the reports found, in push order, to depth 3 |
| Discovery.FindReportsInModule | src/services/jacocoService.ts:556-575 | a module's reports are its build system's existing candidates in order: at most two, each a report file under `target/` (Maven) or `build/` (Gradle) |
| Discovery.ModuleReportsShape | src/services/jacocoService.ts:559-572 | the reports found in a module lie under its build-output directory and name report files |
| Discovery.CandidatesUnderFirstSegment | src/services/jacocoService.ts:567-572 | candidates sharing a first segment give paths under the base, a separator and that segment |
| Decorations.StripTrailingSeparators | src/services/jacocoService.ts:673 | the stripped path is a prefix of the input without a trailing separator |
| Decorations.LastSegment | src/services/jacocoService.ts:673 | the last segment is a separator-free suffix preceded by a separator unless it is the whole path |
| Decorations.Basename | src/services/jacocoService.ts:673 | a base name holds no separator |
| Decorations.BasenameOfJoin | src/services/jacocoService.ts:673 | the base name of `dir/name` is `name` |
| Decorations.RowsOfLines | src/services/jacocoService.ts:677-680 | each uncovered line n becomes row `max(0, n - 1)`, one row per line, in order |
| Decorations.FindEditor | src/services/jacocoService.ts:698-700 | `find` returns a visible editor of that document, or nothing when no editor shows it |
| Decorations.FindEditorVisible | src/services/jacocoService.ts:698-701 | `find` succeeds exactly for the documents some visible editor shows |
| Decorations.ClearedStep | src/services/jacocoService.ts:696-704 | clearing one more document empties its rows when an editor shows it, and changes nothing else |
| Decorations.Cleared | src/services/jacocoService.ts:696-704 | defines the map after the cleared documents that some editor shows lost their rows; `ClearedStep` states its effect |
| Decorations.ApplyFile | src/services/jacocoService.ts:672-686 | defines one record applied to every editor showing it; `ApplyFileEffect` characterises it |
| Decorations.ApplyFiles | src/services/jacocoService.ts:667-689 | defines records applied in order; `ApplyFilesEffect` and `ApplyFilesAppend` characterise it |
| Decorations.ApplyModules | src/services/jacocoService.ts:667-689 | defines records applied module by module; `ApplyModulesFlat` relates it to one flat list |
| Decorations.ApplyFileEffect | src/services/jacocoService.ts:672-686 | one record marks exactly the documents of editors showing it (same base name, language `java`) with the record's rows, and leaves every other document as it was |
| Decorations.ApplyFilesEffect | src/services/jacocoService.ts:667-689 | applying records in order leaves a matching document with the rows of the last record that matches it, and every other document unchanged |
| Decorations.ApplyFilesAppend | src/services/jacocoService.ts:668-688 | applying two runs of records is applying the first and then the second |
| Decorations.ApplyModulesFlat | src/services/jacocoService.ts:667-689 | going module by module applies the same records in the same order as one flat list |
| Decorations.AppliedDecorations | src/services/jacocoService.ts:663-690 | after applying on a cleared map, a document is in the map exactly when a visible Java editor shows it under some record's file name, and it shows that record's rows; other documents keep what clearing left |
| Decorations.LastMatchShows | src/services/jacocoService.ts:672-675 | a record matches a document only through a visible Java editor of that document whose base name is the record's file name |
| Decorations.JacocoService.constructor | src/services/jacocoService.ts:29-42 | the service starts with an empty decoration map and no decorated rows |
| Decorations.JacocoService.ClearDecorations | src/services/jacocoService.ts:695-706 | the map ends empty; each document in the old map that a visible editor shows has its rows removed, and every other document keeps its rows |
| Decorations.JacocoService.ApplyCoverageDecorations | src/services/jacocoService.ts:663-690 | first clears all previous decorations, then applies every record of every module in order; the final map and rows are as `AppliedDecorations` characterises |
| JavaParser.Span | src/utils/javaParser.ts:8 | the end of the maximal run of a character class from an index |
| JavaParser.ClassNameAt | src/utils/javaParser.ts:8-9 | a captured class name is a non-empty run of word characters |
| JavaParser.FirstClassPattern | src/utils/javaParser.ts:8 | the leftmost index where `(?:public\s+)?class\s+\w+` matches, or none when it matches nowhere |
| JavaParser.FirstClass | src/utils/javaParser.ts:8 | the leftmost `class\s+\w+` occurrence, or none |
| JavaParser.ExtractClassName | src/utils/javaParser.ts:7-10 | null exactly when the class pattern matches nowhere; otherwise a non-empty identifier |
| JavaParser.ClassNameIsAfterFirstClass | src/utils/javaParser.ts:7-10 | the extracted name is the identifier after the first `class` and whitespace, whether or not `public` precedes it |
| JavaParser.FirstClassIs | src/utils/javaParser.ts:8 | an occurrence with none before it is the first |
| JavaParser.NoClassInsidePublicPrefix | src/utils/javaParser.ts:8 | no `class` occurrence starts inside a `public ` prefix |
| JavaParser.ClassDeclarationFound | src/utils/javaParser.ts:7-10 | `public class Name…` yields `Name` |
| JavaParser.PackageNameAt | src/utils/javaParser.ts:16-17 | a captured package name is a non-empty run of word characters and dots |
| JavaParser.FirstPackage | src/utils/javaParser.ts:16 | the leftmost `package\s+[\w.]+;` match, or none |
| JavaParser.ExtractPackageName | src/utils/javaParser.ts:15-18 | null exactly when `package <name>;` occurs nowhere; otherwise a non-empty name of word characters and dots |
| JavaParser.PackageDeclarationFound | src/utils/javaParser.ts:15-18 | `package name;…` yields `name` |
| JavaParser.ImportNameAt | src/utils/javaParser.ts:141-145 | a captured import is a non-empty run of word characters, dots and `*` |
| JavaParser.ImportEnd | src/utils/javaParser.ts:144 | the global regex resumes strictly after the match |
| JavaParser.NextImport | src/utils/javaParser.ts:144 | the next `import X;` match at or after an index, or none |
| JavaParser.ExtractImports | src/utils/javaParser.ts:139-149 | the `exec` loop returns the imports the global regex yields, in order |
| JavaParser.ImportsDoNotOverlap | src/utils/javaParser.ts:141-146 | no import statement starts inside another |
| JavaParser.ImportsAreEveryMatch | src/utils/javaParser.ts:139-149 | the imports are every `import X;` occurrence, in order of occurrence |
| JavaParser.TestMarkerPrepend | src/utils/javaParser.ts:23-35 | a test marker still matches after text is put in front |
| JavaParser.TestMarkerAppend | src/utils/javaParser.ts:23-35 | a test marker still matches when a non-word character and more text follow |
| JavaParser.TestFileJoin | src/utils/javaParser.ts:23-35 | joining a test file with any text through a non-word character gives a test file |
| JavaParser.IsTestFile | src/utils/javaParser.ts:23-35 | defines `isTestFile`: one of the seven markers matches at some index; `TestMarkerPrepend`, `TestMarkerAppend` and `TestFileJoin` state its properties |
| JavaParser.BeforeEachIsNotBefore | src/utils/javaParser.ts:27-29 | `@BeforeEach` never matches `@Before\b`, and matches `@BeforeEach\b` exactly at a word end |
| JavaParser.ValidIffBalancedWithClassName | src/utils/javaParser.ts:125-134 | code is valid exactly when `{` and `}` occur equally often and a class declaration exists |
| JavaParser.ClassPatternAppend | src/utils/javaParser.ts:131 | a class declaration stays one when text is appended |
| JavaParser.ValidAppendBalanced | src/utils/javaParser.ts:125-134 | appending brace-balanced text to valid code keeps it valid |
| JavaParser.IsValidJavaCode | src/utils/javaParser.ts:125-134 | defines `isValidJavaCode`: equal brace counts and a class declaration somewhere; `ValidIffBalancedWithClassName` characterises it |
| JavaParser.ParseVisibility | src/utils/javaParser.ts:93-97 | private exactly when the text contains `private`; protected exactly when it contains `protected` but not `private`; public otherwise |
| JavaParser.VisibilityPrivateIsStable | src/utils/javaParser.ts:93-97 | a private declaration stays private whatever precedes it |
| JavaParser.ParseParameters | src/utils/javaParser.ts:99-120 | a blank list gives no parameters; otherwise the comma pieces are parsed in order |
| JavaParser.ParseParameterPieces | src/utils/javaParser.ts:107-117 | the loop keeps, in order, one parameter per piece that has a type and a name |
| JavaParser.ParameterOf | src/utils/javaParser.ts:108-115 | defines one comma piece's parameter: none for a blank piece or a single token, else all tokens but the last joined by a space as the type and the last as the name; `ParameterOfTokens` characterises it |
| JavaParser.Parameters | src/utils/javaParser.ts:99-120 | defines what `parseParameters` returns; `ParseParameters` computes it and `ParametersWellFormed` bounds it |
| JavaParser.ParameterOfTokens | src/utils/javaParser.ts:108-115 | a piece gives a parameter exactly when it has at least two whitespace tokens, and type then name split back into exactly its tokens |
| JavaParser.TokensRejoined | src/utils/javaParser.ts:112-113 | all tokens but the last joined by a space, then the last, split into the same tokens |
| JavaParser.ParameterOfWellFormed | src/utils/javaParser.ts:108-115 | a parameter has a non-empty type and a non-empty, whitespace-free name, neither holding a comma |
| JavaParser.ParametersOfWellFormed | src/utils/javaParser.ts:107-117 | at most one parameter per piece, each well formed |
| JavaParser.ParametersWellFormed | src/utils/javaParser.ts:99-120 | a blank list gives none; never more parameters than comma pieces; every parameter well formed |
| JavaParser.StaticWordBoundaries | src/utils/javaParser.ts:59 | `isStatic` needs `static` as a whole word: `public static int` has it, `int nonstatic` does not |
| JavaParser.MethodOf | src/utils/javaParser.ts:55-70 | defines the record built from one match: its name, the trimmed return type, the parsed parameters, the visibility and the whole-word `static` test |
| JavaParser.Map | src/utils/javaParser.ts:47-71 | one record per kept match |
| JavaParser.ExtractPublicMethods | src/utils/javaParser.ts:40-74 | the loop over the regex matches builds exactly the records of the non-constructor matches, in order |
| JavaParser.MethodsOfIsMap | src/utils/javaParser.ts:47-71 | skipping constructors while pushing records equals filtering the matches, then building one record per match |
| JavaParser.NonConstructorsMembers | src/utils/javaParser.ts:50-53 | a match is kept if and only if its name is not the extracted class name, and the filter never grows the list |
| JavaParser.RecordsOfNonConstructors | src/utils/javaParser.ts:50-70 | the k-th record is built from the k-th kept match and never carries the class's name |
| JavaParser.PublicMethods | src/utils/javaParser.ts:40-74 | defines what `extractPublicMethods` returns; `ExtractPublicMethods` computes it and `PublicMethodsAreNonConstructors` characterises it |
| JavaParser.PublicMethodsAreNonConstructors | src/utils/javaParser.ts:40-74 | the result has one record per non-constructor match, in order, none named after the class, and a match is kept exactly when it is not a constructor |
| JavaParser.FirstMainJava | src/utils/javaParser.ts:81 | the leftmost `src[/\\]main[/\\]java` occurrence, or none |
| JavaParser.ReplaceMainJavaShape | src/utils/javaParser.ts:81 | the replacement keeps the length and puts `src/test/java` at the first occurrence, all else unchanged |
| JavaParser.MainJavaHasNoDot | src/utils/javaParser.ts:81 | the replaced span holds no dot |
| JavaParser.ReplaceMainJavaKeepsSuffix | src/utils/javaParser.ts:81-87 | the replacement ends in `.java` exactly when the input does |
| JavaParser.ReplaceJavaSuffixShape | src/utils/javaParser.ts:85-87 | a trailing `.java` becomes `Test.java`; any other ending is kept |
| JavaParser.TestFilePathShape | src/utils/javaParser.ts:79-91 | both branches insert `Test` before a final `.java` and keep any other ending; a path with neither a main directory nor `.java` comes back unchanged |
| JavaParser.TestFilePathReplacesMain | src/utils/javaParser.ts:79-91 | the first `src/main/java` (either separator) becomes `src/test/java`, with what precedes it kept |
| JavaParser.GetTestFilePath | src/utils/javaParser.ts:79-91 | defines `getTestFilePath` (the class name unused); `TestFilePathShape` and `TestFilePathReplacesMain` characterise it |
| Chat.Decimal | resources/webview/main.js:83 | a number's decimal digits: non-empty and without a leading zero |
| Chat.DecimalRoundTrip | resources/webview/main.js:83 | reading the digits back gives the number |
| Chat.MessageIdRoundTrip | resources/webview/main.js:83 | the serial can be read back from `msg-<n>` |
| Chat.MessageIdInjective | resources/webview/main.js:83 | two ids are equal exactly when their serials are |
| Chat.MessageId | resources/webview/main.js:83 | every id begins with `msg-` followed by at least one character |
| Chat.ValidHistory | resources/webview/main.js:82-83 | defines the history invariant: every id was made from a counter value between 1 and the counter, increasing along the history; `ValidHistoryIdsDistinct` draws distinct ids from it |
| Chat.ValidHistoryIdsDistinct | resources/webview/main.js:82-83 | in a history built with the pre-incremented counter no two entries share an id |
| Chat.ValidHistoryAppend | resources/webview/main.js:61-62 | appending the message of the next id keeps the history valid |
| Chat.ValidHistorySnoc | resources/webview/main.js:61-62 | appending a message whose serial exceeds every earlier one and does not exceed the counter keeps the history valid |
| Chat.ValidHistoryPrefix | resources/webview/main.js:670 | a prefix of a valid history is valid |
| Chat.WithoutId | resources/webview/main.js:686 | the filter never grows the history |
| Chat.WithoutIdMembers | resources/webview/main.js:686 | an entry survives the filter exactly when it was there with another id |
| Chat.WithoutAbsentId | resources/webview/main.js:686 | deleting an id no entry has changes nothing |
| Chat.WithoutIdRemovesOne | resources/webview/main.js:686 | in a valid history, deleting an entry's id removes just that entry, the others keeping their order |
| Chat.WithoutIdKeepsValid | resources/webview/main.js:686 | deleting keeps the history valid |
| Chat.RemoveAtKeepsValid | resources/webview/main.js:670 | removing one entry keeps the history valid |
| Chat.FindIndex | resources/webview/main.js:664 | the index of the first entry with the id, or -1 when none has it |
| Chat.IsCodeResponse | resources/webview/main.js:367 | a response counts as code exactly when `class` or `import` occurs somewhere in its text (an empty text never does) |
| Chat.TestClassName | resources/webview/main.js:408-411 | the first declared class name when the code declares one, else `GeneratedTest`; never empty |
| Chat.ChatView.constructor | resources/webview/main.js:771-792 | starts idle; a saved snapshot restores history and counter, none gives an empty history and counter 0 |
| Chat.ChatView.SetGenerating | resources/webview/main.js:741-753 | sets the gate and nothing else |
| Chat.ChatView.SaveConversationHistory | resources/webview/main.js:764-769 | the saved snapshot is the current history and counter |
| Chat.ChatView.AddMessage | resources/webview/main.js:82-107 | pre-increments the counter, and the new message's id is `msg-` and the new counter |
| Chat.ChatView.SendMessage | resources/webview/main.js:57-80 | a no-op while generating; otherwise appends exactly one user message, clears the input, posts the request with the history, starts generating and keeps ids distinct |
| Chat.ChatView.HandleSendMessage | resources/webview/main.js:50-55 | ignores blank input or input arriving while generating; otherwise sends the trimmed input |
| Chat.ChatView.OnResponse | resources/webview/main.js:365-372 | appends exactly one assistant message, typed code with code actions exactly when the text mentions `class` or `import`; stops generating and saves |
| Chat.ChatView.OnError | resources/webview/main.js:374-380 | appends exactly one assistant text message with the error prefix; stops generating and saves |
| Chat.ChatView.HandleClearChat | resources/webview/main.js:270-302 | refused while generating; otherwise leaves the history empty and the counter 0, and saves |
| Chat.ChatView.DeleteMessage | resources/webview/main.js:684-696 | removes exactly the entries with the id, keeping the others in order, and saves |
| Chat.ChatView.RegenerateResponse | resources/webview/main.js:662-682 | acts only when the message is found after a user message; then removes just that entry and re-sends the user content, and the removal stands even when a pending reply refuses the resend |
| Chat.ChatView.SaveTestFile | resources/webview/main.js:408-418 | posts the code with the first declared class name, else `GeneratedTest` |
| Chat.DeleteRemovesExactlyOne | resources/webview/main.js:684-686 | in a valid history, deleting an entry's id removes that entry and no entry with that id remains |

## Left out

- XML text parsing by fast-xml-parser (src/services/jacocoService.ts:391-396) is a foreign library. The parsed `report > package > sourcefile > line` tree is an input datatype. An attribute that is absent or not a number is `None`, which fails every `> 0` test as the source's `parseInt(x || "0")` and `NaN` do. A read or parse error is the `Failure` branch of the input.
- The `nr` attribute is taken as an integer. A missing or non-numeric `nr` on an uncovered line would be pushed as `NaN`, and `Math.max(0, NaN - 1)` at src/services/jacocoService.ts:678 is `NaN`, so that row is not a number at all; such line numbers are not modelled.
- File-system probing and reading are modelled by an immutable directory tree (`Discovery.Dir`). A directory that cannot be listed ends the walk at that directory, as the source's `catch` does. Symbolic links and files changing during a walk are not modelled.
- `path.join` is string concatenation with `/`. Normalisation of `..`, duplicate separators and the Windows separator are not modelled, and `path.basename` looks only at `/`.
- The workspace-folder loops of `findProjectModules` and `findJacocoReports`, including the root-level report candidates (src/services/jacocoService.ts:47-60, 318-347), are left out. They are host glue over the modelled walks.
- Terminal build commands, the fixed 15 s and 10 s waits, progress reporting and cancellation tokens (src/services/jacocoService.ts:472-658) are host interaction and are not modelled. `Coverage.CollectReports` therefore never stops early on cancellation.
- The auto-configure dialogs and pom or Gradle rewriting (src/services/jacocoService.ts:126-316), the webview summary HTML (711-849) and `dispose` are left out.
- Decorations: editors are identified by their document's file name. Two editors showing the same document (a split view) are one entry, and the decoration type is a single constant.
- Floating-point arithmetic and `toFixed` formatting: percentages are exact reals.
- The method-declaration regular expression of `extractPublicMethods` (src/utils/javaParser.ts:44) is not modelled. Its matches are an input sequence of (matched text, return type, name, parameter text). Only the filtering and the building of each record are modelled.
- JavaParser.ExtractPublicMethods: the constructor check calls `extractClassName` on every match, as the source does. The model does not cache it.
- `split(/\s+/)` is applied only to trimmed, non-empty text, so it is modelled as `Strings.Words`, the maximal runs of non-whitespace. Whitespace is the ECMAScript `\s` set and word characters are `[A-Za-z0-9_]`. There is no Unicode normalisation.
- The class-name regular expression of `saveTestFile` (resources/webview/main.js:410) is the one of `extractClassName`, so `Chat.TestClassName` reuses `JavaParser.ExtractClassName`.
- Chat.IsCodeResponse: the `response` and `error` events (resources/webview/main.js:367, 376) are modelled with a string text. An undefined `message.text`, which the source would store as an undefined or "undefined"-bearing message, is not modelled.
- `Date.now()` is the `now` parameter of the operations that stamp a message.
- The DOM and the other UI parts of the webview are left out: message elements, the loading indicator, markdown rendering, toasts, context menus and textarea resizing. So is `handleAttachError` (resources/webview/main.js:316-323), which takes its text from a `prompt` dialog and then calls the modelled `sendMessage`.
- `vscode.setState` and `getState` are an opaque snapshot of history and counter. The `|| []` and `|| 0` defaults of a partial snapshot are not modelled.
