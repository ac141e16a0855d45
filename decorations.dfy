/**
 * Uncovered-line decorations of `JacocoService`
 * (src/services/jacocoService.ts, `applyCoverageDecorations` and
 * `clearDecorations`): the service's `coverageDecorations` map, and the rows
 * each open document shows as uncovered. Visible editors are a parameter,
 * since the host owns them.
 */
module Decorations {
  import opened Wrappers
  import opened Strings
  import opened Coverage

  /** A visible text editor: its document's full file name and language id. */
  datatype Editor = Editor(fileName: string, languageId: string)

  /** The one decoration type the service creates for uncovered lines. */
  datatype DecorationType = UncoveredLineDecoration

  /** What the decorations amount to: the service's map, and the uncovered rows each document shows. */
  datatype View = View(decorations: map<string, DecorationType>, shown: map<string, seq<nat>>)

  // ---------------------------------------------------------------------------
  // Paths and rows
  // ---------------------------------------------------------------------------

  /** `p` without its trailing separators. */
  function StripTrailingSeparators(p: string): (r: string)
    ensures r <= p && (r == [] || r[|r| - 1] != '/')
    decreases |p|
  {
    if |p| > 0 && p[|p| - 1] == '/' then StripTrailingSeparators(p[..|p| - 1]) else p
  }

  /** Where the segment ending at `j` starts: just after the last separator before `j`, or 0. */
  function SegmentStart(p: string, j: nat): (k: nat)
    requires j <= |p|
    ensures k <= j
    ensures forall m :: k <= m < j ==> p[m] != '/'
    ensures k == 0 || p[k - 1] == '/'
    decreases j
  {
    if j == 0 || p[j - 1] == '/' then j else SegmentStart(p, j - 1)
  }

  /** The text after the last separator of `p` (all of `p` if it has none). */
  function LastSegment(p: string): (r: string)
    ensures |r| <= |p| && r == p[|p| - |r|..]
    ensures forall k :: 0 <= k < |r| ==> r[k] != '/'
    ensures |r| < |p| ==> p[|p| - |r| - 1] == '/'
  {
    var start := SegmentStart(p, |p|);
    assert forall k :: 0 <= k < |p| - start ==> p[start..][k] == p[start + k];
    p[start..]
  }

  /** `path.basename(p)` with `/` as the separator. */
  function Basename(p: string): (r: string)
    ensures '/' !in r
  {
    LastSegment(StripTrailingSeparators(p))
  }

  /** A file name without separators is its own base name, also after a directory part. */
  lemma BasenameOfJoin(dir: string, name: string)
    requires '/' !in name && name != []
    ensures Basename(dir + "/" + name) == name
  {
    var p := dir + "/" + name;
    assert StripTrailingSeparators(p) == p;
    var r := LastSegment(p);
    assert p[|p| - |name| - 1] == '/' && p[|p| - |name|..] == name;
    assert |r| == |name|;
  }

  /** `Math.max(0, lineNumber - 1)`: the 0-based row of a 1-based line number. */
  function Row(lineNumber: int): nat {
    if lineNumber - 1 > 0 then lineNumber - 1 else 0
  }

  /** The rows of a list of line numbers, in order. */
  function Rows(lines: seq<int>): seq<nat> {
    seq(|lines|, k requires 0 <= k < |lines| => Row(lines[k]))
  }

  /** A row is one below its positive line number, and line numbers below 1 go to row 0. */
  lemma RowsOfLines(lines: seq<int>)
    ensures |Rows(lines)| == |lines|
    ensures forall k :: 0 <= k < |lines| ==>
              (lines[k] >= 1 ==> Rows(lines)[k] + 1 == lines[k]) && (lines[k] < 1 ==> Rows(lines)[k] == 0)
  {
  }

  // ---------------------------------------------------------------------------
  // The specification of the two operations
  // ---------------------------------------------------------------------------

  /** The editor shows the file the record is about: same base name and a Java document. */
  predicate Shows(e: Editor, file: CoverageData) {
    Basename(e.fileName) == file.fileName && e.languageId == "java"
  }

  /** `visibleTextEditors.find(e => e.document.fileName === fileName)`. */
  function FindEditor(editors: seq<Editor>, fileName: string): (r: Option<Editor>)
    ensures r.Some? ==> r.value in editors && r.value.fileName == fileName
    ensures r.None? ==> forall k :: 0 <= k < |editors| ==> editors[k].fileName != fileName
    decreases |editors|
  {
    if |editors| == 0 then None
    else if editors[0].fileName == fileName then Some(editors[0])
    else FindEditor(editors[1..], fileName)
  }

  /** Some editor in `editors` shows document `f` and, in it, the record `file`. */
  predicate Hit(editors: seq<Editor>, f: string, file: CoverageData) {
    exists k :: 0 <= k < |editors| && editors[k].fileName == f && Shows(editors[k], file)
  }

  /** A hit among `editors` is a hit among all but the last one, or the last one. */
  lemma HitSplit(editors: seq<Editor>, f: string, file: CoverageData)
    requires |editors| > 0
    ensures var init := editors[..|editors| - 1];
            var e := editors[|editors| - 1];
            Hit(editors, f, file) <==> Hit(init, f, file) || (e.fileName == f && Shows(e, file))
  {
    var init := editors[..|editors| - 1];
    if Hit(init, f, file) {
      var k :| 0 <= k < |init| && init[k].fileName == f && Shows(init[k], file);
      assert editors[k] == init[k];
    }
    if Hit(editors, f, file) {
      var k :| 0 <= k < |editors| && editors[k].fileName == f && Shows(editors[k], file);
      if k < |init| {
        assert editors[k] == init[k];
      }
    }
  }

  /** The documents a visible editor shows. */
  function VisibleNames(editors: seq<Editor>): set<string> {
    set k | 0 <= k < |editors| :: editors[k].fileName
  }

  /** `shown` after the documents in `cleared` that some editor shows had their decorations set to none. */
  function Cleared(shown: map<string, seq<nat>>, cleared: set<string>, editors: seq<Editor>): map<string, seq<nat>> {
    map f | f in shown.Keys + (cleared * VisibleNames(editors)) ::
      if f in cleared && f in VisibleNames(editors) then [] else shown[f]
  }

  /** One file record applied to every editor in `editors` that shows it. */
  function ApplyFile(v: View, file: CoverageData, editors: seq<Editor>): View
    decreases |editors|
  {
    if |editors| == 0 then v
    else
      var w := ApplyFile(v, file, editors[..|editors| - 1]);
      var e := editors[|editors| - 1];
      if Shows(e, file)
      then View(w.decorations[e.fileName := UncoveredLineDecoration], w.shown[e.fileName := Rows(file.uncoveredLines)])
      else w
  }

  /** A list of file records applied in order. */
  function ApplyFiles(v: View, files: seq<CoverageData>, editors: seq<Editor>): View
    decreases |files|
  {
    if |files| == 0 then v
    else ApplyFile(ApplyFiles(v, files[..|files| - 1], editors), files[|files| - 1], editors)
  }

  /** The records of all modules applied in order, module by module. */
  function ApplyModules(v: View, modules: seq<ModuleCoverage>, editors: seq<Editor>): View
    decreases |modules|
  {
    if |modules| == 0 then v
    else ApplyFiles(ApplyModules(v, modules[..|modules| - 1], editors), modules[|modules| - 1].files, editors)
  }

  /** All file records of a list of modules, in order. */
  function AllFiles(modules: seq<ModuleCoverage>): seq<CoverageData>
    decreases |modules|
  {
    if |modules| == 0 then [] else AllFiles(modules[..|modules| - 1]) + modules[|modules| - 1].files
  }

  /** The last record among `files` that some editor showing document `f` shows, if any. */
  function LastMatch(files: seq<CoverageData>, editors: seq<Editor>, f: string): Option<CoverageData>
    decreases |files|
  {
    if |files| == 0 then None
    else
      var file := files[|files| - 1];
      if Hit(editors, f, file) then Some(file)
      else LastMatch(files[..|files| - 1], editors, f)
  }

  // ---------------------------------------------------------------------------
  // What applying means
  // ---------------------------------------------------------------------------

  /**
   * Applying one record marks exactly the documents of the editors that show
   * it, sets their rows to the record's uncovered rows, and leaves every other
   * document as it was.
   */
  lemma {:induction false} ApplyFileEffect(v: View, file: CoverageData, editors: seq<Editor>, f: string)
    ensures var w := ApplyFile(v, file, editors);
            && (f in w.decorations <==> f in v.decorations || Hit(editors, f, file))
            && (Hit(editors, f, file) ==> f in w.shown && w.shown[f] == Rows(file.uncoveredLines)
                                          && w.decorations[f] == UncoveredLineDecoration)
            && (!Hit(editors, f, file) ==> (f in w.shown <==> f in v.shown) && (f in v.shown ==> w.shown[f] == v.shown[f])
                                           && (f in v.decorations ==> w.decorations[f] == v.decorations[f]))
    decreases |editors|
  {
    if |editors| > 0 {
      ApplyFileEffect(v, file, editors[..|editors| - 1], f);
      HitSplit(editors, f, file);
    }
  }

  /**
   * Applying records in order: a document some editor shows, and that some
   * record matches, ends up marked with the rows of the LAST matching record;
   * every other document keeps its mark and rows.
   */
  lemma {:induction false} ApplyFilesEffect(v: View, files: seq<CoverageData>, editors: seq<Editor>, f: string)
    ensures var w := ApplyFiles(v, files, editors);
            var last := LastMatch(files, editors, f);
            && (f in w.decorations <==> f in v.decorations || last.Some?)
            && (last.Some? ==> f in w.shown && w.shown[f] == Rows(last.value.uncoveredLines)
                               && w.decorations[f] == UncoveredLineDecoration)
            && (last.None? ==> (f in w.shown <==> f in v.shown) && (f in v.shown ==> w.shown[f] == v.shown[f])
                               && (f in v.decorations ==> w.decorations[f] == v.decorations[f]))
    decreases |files|
  {
    if |files| > 0 {
      ApplyFilesEffect(v, files[..|files| - 1], editors, f);
      ApplyFileEffect(ApplyFiles(v, files[..|files| - 1], editors), files[|files| - 1], editors, f);
    }
  }

  lemma {:induction false} ApplyFilesAppend(v: View, a: seq<CoverageData>, b: seq<CoverageData>, editors: seq<Editor>)
    ensures ApplyFiles(v, a + b, editors) == ApplyFiles(ApplyFiles(v, a, editors), b, editors)
    decreases |b|
  {
    if |b| == 0 {
      assert a + b == a;
    } else {
      assert (a + b)[..|a + b| - 1] == a + b[..|b| - 1];
      assert (a + b)[|a + b| - 1] == b[|b| - 1];
      ApplyFilesAppend(v, a, b[..|b| - 1], editors);
    }
  }

  /** Going module by module applies the same records, in the same order, as one flat list. */
  lemma {:induction false} ApplyModulesFlat(v: View, modules: seq<ModuleCoverage>, editors: seq<Editor>)
    ensures ApplyModules(v, modules, editors) == ApplyFiles(v, AllFiles(modules), editors)
    decreases |modules|
  {
    if |modules| > 0 {
      var init := modules[..|modules| - 1];
      ApplyModulesFlat(v, init, editors);
      ApplyFilesAppend(v, AllFiles(init), modules[|modules| - 1].files, editors);
    }
  }

  /**
   * After applying decorations on a cleared map, a document is marked exactly
   * when a visible Java editor shows it under the base name of some record,
   * and then shows the rows `max(0, n - 1)` of that record's uncovered lines
   * (the last such record when several share the base name); every other
   * document shows what it showed after clearing.
   */
  lemma AppliedDecorations(shown: map<string, seq<nat>>, modules: seq<ModuleCoverage>, editors: seq<Editor>, f: string)
    ensures var w := ApplyModules(View(map[], shown), modules, editors);
            var last := LastMatch(AllFiles(modules), editors, f);
            && (f in w.decorations <==> last.Some?)
            && (last.Some? ==> f in w.shown && w.shown[f] == Rows(last.value.uncoveredLines))
            && (last.None? ==> (f in w.shown <==> f in shown) && (f in shown ==> w.shown[f] == shown[f]))
  {
    ApplyModulesFlat(View(map[], shown), modules, editors);
    ApplyFilesEffect(View(map[], shown), AllFiles(modules), editors, f);
  }

  /** A record matches a document only through a visible Java editor of that document whose base name is the record's file name. */
  lemma {:induction false} LastMatchShows(files: seq<CoverageData>, editors: seq<Editor>, f: string)
    ensures var last := LastMatch(files, editors, f);
            last.Some? ==> last.value in files
                           && exists k :: 0 <= k < |editors| && editors[k].fileName == f
                                          && editors[k].languageId == "java" && Basename(f) == last.value.fileName
    decreases |files|
  {
    if |files| > 0 {
      LastMatchShows(files[..|files| - 1], editors, f);
    }
  }

  lemma ApplyFileStep(v: View, file: CoverageData, editors: seq<Editor>, k: nat)
    requires k < |editors|
    ensures ApplyFile(v, file, editors[..k + 1])
         == var w := ApplyFile(v, file, editors[..k]);
            var e := editors[k];
            if Shows(e, file)
            then View(w.decorations[e.fileName := UncoveredLineDecoration], w.shown[e.fileName := Rows(file.uncoveredLines)])
            else w
  {
    assert editors[..k + 1][..k] == editors[..k];
  }

  lemma ApplyFilesStep(v: View, files: seq<CoverageData>, editors: seq<Editor>, j: nat)
    requires j < |files|
    ensures ApplyFiles(v, files[..j + 1], editors) == ApplyFile(ApplyFiles(v, files[..j], editors), files[j], editors)
  {
    assert files[..j + 1][..j] == files[..j];
  }

  lemma ApplyModulesStep(v: View, modules: seq<ModuleCoverage>, editors: seq<Editor>, i: nat)
    requires i < |modules|
    ensures ApplyModules(v, modules[..i + 1], editors) == ApplyFiles(ApplyModules(v, modules[..i], editors), modules[i].files, editors)
  {
    assert modules[..i + 1][..i] == modules[..i];
  }

  /** `find` succeeds exactly for the documents a visible editor shows. */
  lemma FindEditorVisible(editors: seq<Editor>, fileName: string)
    ensures FindEditor(editors, fileName).Some? <==> fileName in VisibleNames(editors)
  {
    var editor := FindEditor(editors, fileName);
    if editor.Some? {
      var k :| 0 <= k < |editors| && editors[k] == editor.value;
    }
  }

  /** Clearing one more document empties its rows if an editor shows it, and changes nothing else. */
  lemma ClearedStep(shown: map<string, seq<nat>>, done: set<string>, f: string, editors: seq<Editor>)
    ensures Cleared(shown, done + {f}, editors)
         == if f in VisibleNames(editors) then Cleared(shown, done, editors)[f := []] else Cleared(shown, done, editors)
  {
  }

  // ---------------------------------------------------------------------------
  // The service's decoration state
  // ---------------------------------------------------------------------------

  /** The decoration state of `JacocoService`. */
  class JacocoService {
    /** `coverageDecorations`: the decoration type set on each document's editor. */
    var coverageDecorations: map<string, DecorationType>
    /** The uncovered rows each document's editor currently shows. */
    var shown: map<string, seq<nat>>

    constructor ()
      ensures coverageDecorations == map[] && shown == map[]
    {
      coverageDecorations := map[];
      shown := map[];
    }

    /**
     * `clearDecorations`: every document in the map that a visible editor
     * shows has its uncovered rows removed, and the map is emptied.
     */
    method ClearDecorations(editors: seq<Editor>)
      modifies this
      ensures coverageDecorations == map[]
      ensures shown == Cleared(old(shown), old(coverageDecorations).Keys, editors)
    {
      var remaining := coverageDecorations.Keys;
      ghost var done: set<string> := {};
      while remaining != {}
        invariant remaining + done == old(coverageDecorations).Keys && remaining !! done
        invariant shown == Cleared(old(shown), done, editors)
        decreases remaining
      {
        var fileName :| fileName in remaining;
        var editor := FindEditor(editors, fileName);
        FindEditorVisible(editors, fileName);
        ClearedStep(old(shown), done, fileName, editors);
        if editor.Some? {
          shown := shown[fileName := []];
        }
        remaining := remaining - {fileName};
        done := done + {fileName};
      }
      coverageDecorations := map[];
    }

    /**
     * `applyCoverageDecorations`: first clears all previous decorations, then
     * for every file record of every module, in order, sets the record's
     * uncovered rows on each visible Java editor whose document has the
     * record's file name as its base name, and records that document in the map.
     */
    method ApplyCoverageDecorations(modules: seq<ModuleCoverage>, editors: seq<Editor>)
      modifies this
      ensures View(coverageDecorations, shown)
           == ApplyModules(View(map[], Cleared(old(shown), old(coverageDecorations).Keys, editors)), modules, editors)
    {
      ClearDecorations(editors);
      ghost var start := View(coverageDecorations, shown);
      for i := 0 to |modules|
        invariant View(coverageDecorations, shown) == ApplyModules(start, modules[..i], editors)
      {
        ApplyModulesStep(start, modules, editors, i);
        ghost var before := View(coverageDecorations, shown);
        var files := modules[i].files;
        for j := 0 to |files|
          invariant View(coverageDecorations, shown) == ApplyFiles(before, files[..j], editors)
        {
          ApplyFilesStep(before, files, editors, j);
          ghost var mid := View(coverageDecorations, shown);
          var file := files[j];
          for k := 0 to |editors|
            invariant View(coverageDecorations, shown) == ApplyFile(mid, file, editors[..k])
          {
            ApplyFileStep(mid, file, editors, k);
            var editor := editors[k];
            if Basename(editor.fileName) == file.fileName && editor.languageId == "java" {
              shown := shown[editor.fileName := Rows(file.uncoveredLines)];
              coverageDecorations := coverageDecorations[editor.fileName := UncoveredLineDecoration];
            }
          }
          assert editors[..|editors|] == editors;
        }
        assert files[..|files|] == files;
      }
      assert modules[..|modules|] == modules;
    }
  }
}
