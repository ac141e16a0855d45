/**
 * Module and report discovery of `JacocoService`
 * (src/services/jacocoService.ts): the JaCoCo plugin checks on build files,
 * the bounded recursive walk that finds Maven/Gradle modules, the bounded
 * recursive walk that finds JaCoCo XML reports, and the candidate report
 * locations inside one module. The file system is an immutable directory
 * tree given as a value.
 */
module Discovery {
  import opened Wrappers
  import opened Strings

  // ---------------------------------------------------------------------------
  // The directory tree
  // ---------------------------------------------------------------------------

  /**
   * A directory: its base name, whether it can be listed, its files (name to
   * content, `None` when the file cannot be read) and its sub-directories in
   * listing order.
   */
  datatype Dir = Dir(name: string, readable: bool, files: map<string, Option<string>>, subdirs: seq<Dir>)

  /** `fs.existsSync(path.join(dir, name))`: a file or a sub-directory of that name. */
  predicate Exists(d: Dir, name: string) {
    name in d.files || exists k :: 0 <= k < |d.subdirs| && d.subdirs[k].name == name
  }

  /** `fs.readFileSync(path.join(dir, name))`, `None` when it would throw. */
  function ReadFile(d: Dir, name: string): Option<string> {
    if name in d.files then d.files[name] else None
  }

  /** `fs.existsSync` of a relative path of one or more segments below `d`. */
  predicate PathExists(d: Dir, rel: seq<string>)
    decreases |rel|
  {
    if |rel| == 0 then true
    else if |rel| == 1 then Exists(d, rel[0])
    else exists k :: 0 <= k < |d.subdirs| && d.subdirs[k].name == rel[0] && PathExists(d.subdirs[k], rel[1..])
  }

  /** The two directory walks, which skip different directory names. */
  datatype WalkKind = ModuleWalk | ReportWalk

  /** A sub-directory the walk of that kind does not enter. */
  predicate Skipped(kind: WalkKind, name: string) {
    if kind == ModuleWalk then SkippedByModuleWalk(name) else SkippedByReportWalk(name)
  }

  /**
   * `t` is reached from `d` by a walk of that kind: each step lists a
   * readable directory and enters its `idx[k]`-th sub-directory, whose name
   * `segs[k]` the walk does not skip.
   */
  predicate Reaches(kind: WalkKind, d: Dir, idx: seq<nat>, t: Dir, segs: seq<string>)
    decreases |idx|, 1
  {
    if |idx| == 0 then t == d && segs == []
    else d.readable && ReachesIn(kind, d.subdirs, idx, t, segs)
  }

  /** The same, with the first step entering `items[idx[0]]`. */
  predicate ReachesIn(kind: WalkKind, items: seq<Dir>, idx: seq<nat>, t: Dir, segs: seq<string>)
    decreases |idx|, 0
  {
    && 0 < |idx| && 0 < |segs| && idx[0] < |items|
    && segs[0] == items[idx[0]].name
    && !Skipped(kind, segs[0])
    && Reaches(kind, items[idx[0]], idx[1..], t, segs[1..])
  }

  /** A walk into the listed directories `items` is one into any longer listing that starts with them. */
  lemma ReachesInPrefix(kind: WalkKind, items: seq<Dir>, n: nat, idx: seq<nat>, t: Dir, segs: seq<string>)
    requires n <= |items| && ReachesIn(kind, items[..n], idx, t, segs)
    ensures ReachesIn(kind, items, idx, t, segs)
  {
    assert items[..n][idx[0]] == items[idx[0]];
  }

  /** One step into `items[i]`, then a walk below it. */
  lemma ReachesInCons(kind: WalkKind, items: seq<Dir>, i: nat, idx: seq<nat>, t: Dir, segs: seq<string>)
    requires i < |items| && !Skipped(kind, items[i].name) && Reaches(kind, items[i], idx, t, segs)
    ensures ReachesIn(kind, items, [i] + idx, t, [items[i].name] + segs)
  {
    assert ([i] + idx)[1..] == idx;
    assert ([items[i].name] + segs)[1..] == segs;
  }

  /** `path.join(base, ...segments)` with `/` as the separator. */
  function JoinPath(base: string, segments: seq<string>): string
    decreases |segments|
  {
    if |segments| == 0 then base else JoinPath(base + "/" + segments[0], segments[1..])
  }

  /** The joined path begins with the base path. */
  lemma {:induction false} JoinPathExtends(base: string, segments: seq<string>)
    ensures base <= JoinPath(base, segments)
    decreases |segments|
  {
    if |segments| > 0 {
      JoinPathExtends(base + "/" + segments[0], segments[1..]);
    }
  }

  /** The joined path ends with a separator and the last segment. */
  lemma {:induction false} JoinPathEnds(base: string, segments: seq<string>)
    requires |segments| > 0
    ensures EndsWith(JoinPath(base, segments), "/" + segments[|segments| - 1])
    decreases |segments|
  {
    var next := base + "/" + segments[0];
    if |segments| == 1 {
      assert JoinPath(next, segments[1..]) == next;
    } else {
      assert segments[1..][|segments[1..]| - 1] == segments[|segments| - 1];
      JoinPathEnds(next, segments[1..]);
    }
  }

  /** Joining two lists of segments one after the other is joining their concatenation. */
  lemma {:induction false} JoinPathAppend(base: string, first: seq<string>, second: seq<string>)
    ensures JoinPath(JoinPath(base, first), second) == JoinPath(base, first + second)
    decreases |first|
  {
    if |first| == 0 {
      assert first + second == second;
    } else {
      assert (first + second)[1..] == first[1..] + second;
      JoinPathAppend(base + "/" + first[0], first[1..], second);
    }
  }

  // ---------------------------------------------------------------------------
  // Plugin detection on build-file text
  // ---------------------------------------------------------------------------

  /** `checkMavenJacocoPlugin`: the pom names the JaCoCo Maven plugin or group; unreadable is false. */
  function MavenHasJacoco(pom: Option<string>): bool {
    pom.Some? && (Contains(pom.value, "jacoco-maven-plugin") || Contains(pom.value, "org.jacoco"))
  }

  /** `checkGradleJacocoPlugin`: the build file mentions jacoco in one of three forms; unreadable is false. */
  function GradleHasJacoco(build: Option<string>): bool {
    && build.Some?
    && (|| Contains(build.value, "jacoco")
        || Contains(build.value, "id \"jacoco\"")
        || Contains(build.value, "id 'jacoco'"))
  }

  /**
   * The two quoted `id` forms of the Gradle check already contain `jacoco`,
   * so the check is exactly "the readable build file contains `jacoco`".
   */
  lemma GradleCheckIsJacocoSubstring(build: Option<string>)
    ensures GradleHasJacoco(build) <==> build.Some? && Contains(build.value, "jacoco")
  {
    if build.Some? {
      ContainsAt("id \"jacoco\"", "jacoco", 4);
      ContainsAt("id 'jacoco'", "jacoco", 4);
      if Contains(build.value, "id \"jacoco\"") {
        ContainsTransitive("jacoco", "id \"jacoco\"", build.value);
      }
      if Contains(build.value, "id 'jacoco'") {
        ContainsTransitive("jacoco", "id 'jacoco'", build.value);
      }
    }
  }

  /** A pom the Maven check accepts also passes the plain `jacoco` test. */
  lemma MavenCheckImpliesJacocoSubstring(pom: Option<string>)
    requires MavenHasJacoco(pom)
    ensures GradleHasJacoco(pom)
  {
    ContainsAt("jacoco-maven-plugin", "jacoco", 0);
    ContainsAt("org.jacoco", "jacoco", 4);
    if Contains(pom.value, "jacoco-maven-plugin") {
      ContainsTransitive("jacoco", "jacoco-maven-plugin", pom.value);
    } else {
      ContainsTransitive("jacoco", "org.jacoco", pom.value);
    }
  }

  // ---------------------------------------------------------------------------
  // The module walk
  // ---------------------------------------------------------------------------

  datatype BuildSystem = Maven | Gradle

  /** A Maven or Gradle module found in the workspace. */
  datatype ProjectModule = ProjectModule(name: string, path: string, kind: BuildSystem, hasJacocoPlugin: bool)

  /** The deepest level the module walk lists (the root is level 0). */
  const MaxModuleDepth: nat := 4

  /** A directory the module walk does not enter. */
  predicate SkippedByModuleWalk(name: string) {
    "." <= name || name == "node_modules" || name == "target" || name == "build"
  }

  /**
   * The module a directory is: Maven when it has a `pom.xml`, else Gradle
   * when it has a `build.gradle` or `build.gradle.kts` (the former read in
   * preference), else none.
   */
  function ModuleHere(d: Dir, path: string): (r: Option<ProjectModule>)
    ensures r.Some? ==> r.value.name == d.name && r.value.path == path
    ensures r.Some? <==> Exists(d, "pom.xml") || Exists(d, "build.gradle") || Exists(d, "build.gradle.kts")
    ensures r.Some? && r.value.kind == Gradle ==> !Exists(d, "pom.xml")
  {
    if Exists(d, "pom.xml") then
      Some(ProjectModule(d.name, path, Maven, MavenHasJacoco(ReadFile(d, "pom.xml"))))
    else if Exists(d, "build.gradle") || Exists(d, "build.gradle.kts") then
      var buildFile := if Exists(d, "build.gradle") then "build.gradle" else "build.gradle.kts";
      Some(ProjectModule(d.name, path, Gradle, GradleHasJacoco(ReadFile(d, buildFile))))
    else None
  }

  /** The modules `searchForModulesRecursively` pushes for the directory `d` at `path`, in push order. */
  function ModulesFound(d: Dir, path: string, depth: nat): seq<ProjectModule>
    decreases MaxModuleDepth + 1 - depth, 1, 0
  {
    if depth > MaxModuleDepth || !d.readable then []
    else
      var here := ModuleHere(d, path);
      (if here.Some? then [here.value] else []) + ModulesInSubdirs(d.subdirs, path, depth)
  }

  /** The modules found below the listed sub-directories `items` of a directory at `path`. */
  function ModulesInSubdirs(items: seq<Dir>, path: string, depth: nat): seq<ProjectModule>
    requires depth <= MaxModuleDepth
    decreases MaxModuleDepth + 1 - depth, 0, |items|
  {
    if |items| == 0 then []
    else
      var item := items[|items| - 1];
      ModulesInSubdirs(items[..|items| - 1], path, depth)
        + (if SkippedByModuleWalk(item.name) then [] else ModulesFound(item, JoinPath(path, [item.name]), depth + 1))
  }

  /**
   * `p` is `path` followed by the directory names `segs`, none of which the
   * module walk skips, and a walk started at level `depth` reaches that far.
   */
  predicate ModuleWalkPath(path: string, segs: seq<string>, depth: nat, p: string) {
    && p == JoinPath(path, segs)
    && depth + |segs| <= MaxModuleDepth
    && forall k :: 0 <= k < |segs| ==> !SkippedByModuleWalk(segs[k])
  }

  /**
   * Where modules are found: each lies at or below the starting path, and
   * every module other than the starting directory's own comes from a
   * directory the walk may enter.
   */
  lemma {:induction false} ModulesFoundPlacement(d: Dir, path: string, depth: nat)
    ensures forall m :: m in ModulesFound(d, path, depth) ==>
              && path <= m.path
              && ((m.name == d.name && m.path == path) || !SkippedByModuleWalk(m.name))
              && exists segs :: ModuleWalkPath(path, segs, depth, m.path) && m.name == (if segs == [] then d.name else segs[|segs| - 1])
    decreases MaxModuleDepth + 1 - depth, 1, 0
  {
    if depth <= MaxModuleDepth && d.readable {
      ModulesInSubdirsPlacement(d.subdirs, path, depth);
      var here := ModuleHere(d, path);
      if here.Some? {
        assert ModuleWalkPath(path, [], depth, here.value.path);
      }
    }
  }

  lemma {:induction false} ModulesInSubdirsPlacement(items: seq<Dir>, path: string, depth: nat)
    requires depth <= MaxModuleDepth
    ensures forall m :: m in ModulesInSubdirs(items, path, depth) ==>
              && path <= m.path
              && !SkippedByModuleWalk(m.name)
              && exists segs :: |segs| > 0 && ModuleWalkPath(path, segs, depth, m.path) && m.name == segs[|segs| - 1]
    decreases MaxModuleDepth + 1 - depth, 0, |items|
  {
    if |items| > 0 {
      var item := items[|items| - 1];
      ModulesInSubdirsPlacement(items[..|items| - 1], path, depth);
      if !SkippedByModuleWalk(item.name) {
        var sub := JoinPath(path, [item.name]);
        ModulesFoundPlacement(item, sub, depth + 1);
        JoinPathExtends(path, [item.name]);
        forall m | m in ModulesFound(item, sub, depth + 1)
          ensures exists segs :: |segs| > 0 && ModuleWalkPath(path, segs, depth, m.path) && m.name == segs[|segs| - 1]
        {
          var rest :| ModuleWalkPath(sub, rest, depth + 1, m.path) && m.name == (if rest == [] then item.name else rest[|rest| - 1]);
          ModuleWalkPathCons(path, item.name, rest, depth, m.path);
        }
      }
    }
  }

  /** A path `rest` below the sub-directory `name` is the path `[name] + rest` below its parent. */
  lemma ModuleWalkPathCons(path: string, name: string, rest: seq<string>, depth: nat, p: string)
    requires !SkippedByModuleWalk(name) && ModuleWalkPath(JoinPath(path, [name]), rest, depth + 1, p)
    ensures ModuleWalkPath(path, [name] + rest, depth, p)
    ensures ([name] + rest)[|[name] + rest| - 1] == if rest == [] then name else rest[|rest| - 1]
  {
    JoinPathAppend(path, [name], rest);
    var segs := [name] + rest;
    forall k | 0 <= k < |segs| ensures !SkippedByModuleWalk(segs[k]) {
      if k > 0 { assert segs[k] == rest[k - 1]; }
    }
  }

  /**
   * A module found by the walk started at level `depth` lies at most
   * `MaxModuleDepth - depth` directory levels below the starting path; a
   * walk started below level 4 finds nothing.
   */
  lemma ModuleWalkDepth(d: Dir, path: string, depth: nat)
    ensures depth > MaxModuleDepth ==> ModulesFound(d, path, depth) == []
    ensures forall m :: m in ModulesFound(d, path, depth) ==>
              exists segs :: m.path == JoinPath(path, segs) && depth + |segs| <= MaxModuleDepth
  {
    ModulesFoundPlacement(d, path, depth);
    forall m | m in ModulesFound(d, path, depth)
      ensures exists segs :: m.path == JoinPath(path, segs) && depth + |segs| <= MaxModuleDepth
    {
      var segs :| ModuleWalkPath(path, segs, depth, m.path) && m.name == (if segs == [] then d.name else segs[|segs| - 1]);
    }
  }

  /**
   * `searchForModulesRecursively`: appends to `modules` the module of the
   * directory (if any) and then, directory by directory, those of every
   * sub-directory it may enter, down to depth 4; an unlistable directory
   * contributes nothing.
   */
  method SearchForModules(d: Dir, path: string, depth: nat, modules: seq<ProjectModule>) returns (result: seq<ProjectModule>)
    ensures result == modules + ModulesFound(d, path, depth)
    decreases MaxModuleDepth + 1 - depth
  {
    result := modules;
    if depth > MaxModuleDepth {
      return;
    }
    if !d.readable {
      return;
    }
    var here := ModuleHere(d, path);
    if here.Some? {
      result := result + [here.value];
    }
    ghost var start := result;
    ghost var found: seq<ProjectModule> := [];
    for i := 0 to |d.subdirs|
      invariant found == ModulesInSubdirs(d.subdirs[..i], path, depth)
      invariant result == start + found
    {
      var item := d.subdirs[i];
      ModulesInSubdirsStep(d.subdirs, i, path, depth);
      if !SkippedByModuleWalk(item.name) {
        ghost var below := ModulesFound(item, JoinPath(path, [item.name]), depth + 1);
        AppendAssoc(start, found, below);
        result := SearchForModules(item, JoinPath(path, [item.name]), depth + 1, result);
        found := found + below;
      }
    }
    assert d.subdirs[..|d.subdirs|] == d.subdirs;
  }

  /** One more sub-directory adds the modules found below it, unless the walk skips it. */
  lemma ModulesInSubdirsStep(items: seq<Dir>, i: nat, path: string, depth: nat)
    requires depth <= MaxModuleDepth && i < |items|
    ensures ModulesInSubdirs(items[..i + 1], path, depth)
         == ModulesInSubdirs(items[..i], path, depth)
            + (if SkippedByModuleWalk(items[i].name) then []
               else ModulesFound(items[i], JoinPath(path, [items[i].name]), depth + 1))
  {
    assert items[..i + 1][..i] == items[..i];
  }

  /**
   * The module `m` is that of a directory `t` which the module walk started
   * at `d` (level `depth`, path `path`) reaches and lists, no deeper than
   * level 4.
   */
  predicate ModuleReached(d: Dir, path: string, depth: nat, idx: seq<nat>, t: Dir, segs: seq<string>, m: ProjectModule) {
    && Reaches(ModuleWalk, d, idx, t, segs)
    && depth + |idx| <= MaxModuleDepth
    && t.readable
    && ModuleHere(t, JoinPath(path, segs)) == Some(m)
  }

  /** The same, for a walk whose first step enters one of `items`. */
  predicate ModuleReachedIn(items: seq<Dir>, path: string, depth: nat, idx: seq<nat>, t: Dir, segs: seq<string>, m: ProjectModule) {
    && ReachesIn(ModuleWalk, items, idx, t, segs)
    && depth + |idx| <= MaxModuleDepth
    && t.readable
    && ModuleHere(t, JoinPath(path, segs)) == Some(m)
  }

  /** Every module the walk finds belongs to a directory it reaches. */
  lemma {:induction false} ModulesFoundSound(d: Dir, path: string, depth: nat)
    ensures forall m :: m in ModulesFound(d, path, depth) ==> exists idx, t, segs :: ModuleReached(d, path, depth, idx, t, segs, m)
    decreases MaxModuleDepth + 1 - depth, 1, 0
  {
    if depth <= MaxModuleDepth && d.readable {
      ModulesInSubdirsSound(d.subdirs, path, depth);
      forall m | m in ModulesFound(d, path, depth)
        ensures exists idx, t, segs :: ModuleReached(d, path, depth, idx, t, segs, m)
      {
        var here := ModuleHere(d, path);
        if here.Some? && m == here.value {
          assert ModuleReached(d, path, depth, [], d, [], m);
        } else {
          assert m in ModulesInSubdirs(d.subdirs, path, depth);
          var idx, t, segs :| ModuleReachedIn(d.subdirs, path, depth, idx, t, segs, m);
          assert ModuleReached(d, path, depth, idx, t, segs, m);
        }
      }
    }
  }

  lemma {:induction false} ModulesInSubdirsSound(items: seq<Dir>, path: string, depth: nat)
    requires depth <= MaxModuleDepth
    ensures forall m :: m in ModulesInSubdirs(items, path, depth) ==> exists idx, t, segs :: ModuleReachedIn(items, path, depth, idx, t, segs, m)
    decreases MaxModuleDepth + 1 - depth, 0, |items|
  {
    if |items| > 0 {
      var n := |items| - 1;
      var item := items[n];
      var sub := JoinPath(path, [item.name]);
      ModulesInSubdirsSound(items[..n], path, depth);
      forall m | m in ModulesInSubdirs(items[..n], path, depth)
        ensures exists idx, t, segs :: ModuleReachedIn(items, path, depth, idx, t, segs, m)
      {
        var idx, t, segs :| ModuleReachedIn(items[..n], path, depth, idx, t, segs, m);
        ReachesInPrefix(ModuleWalk, items, n, idx, t, segs);
        assert ModuleReachedIn(items, path, depth, idx, t, segs, m);
      }
      if !SkippedByModuleWalk(item.name) {
        var below := ModulesFound(item, sub, depth + 1);
        ModulesFoundSound(item, sub, depth + 1);
        forall m | m in below
          ensures exists idx, t, segs :: ModuleReachedIn(items, path, depth, idx, t, segs, m)
        {
          var idx, t, segs :| ModuleReached(item, sub, depth + 1, idx, t, segs, m);
          ReachesInCons(ModuleWalk, items, n, idx, t, segs);
          JoinPathAppend(path, [item.name], segs);
          assert ModuleReachedIn(items, path, depth, [n] + idx, t, [item.name] + segs, m);
        }
      }
    }
  }

  /** The modules found below one enterable sub-directory are among those found below the whole listing. */
  lemma {:induction false} ModulesInSubdirsContains(items: seq<Dir>, path: string, depth: nat, i: nat, m: ProjectModule)
    requires depth <= MaxModuleDepth && i < |items| && !SkippedByModuleWalk(items[i].name)
    requires m in ModulesFound(items[i], JoinPath(path, [items[i].name]), depth + 1)
    ensures m in ModulesInSubdirs(items, path, depth)
    decreases |items|
  {
    var n := |items| - 1;
    if i < n {
      assert items[..n][i] == items[i];
      ModulesInSubdirsContains(items[..n], path, depth, i, m);
    }
  }

  /** Every directory the walk reaches and lists within level 4 that has a build file contributes its module. */
  lemma {:induction false} ModulesFoundComplete(d: Dir, path: string, depth: nat, idx: seq<nat>, t: Dir, segs: seq<string>, m: ProjectModule)
    requires ModuleReached(d, path, depth, idx, t, segs, m)
    ensures m in ModulesFound(d, path, depth)
    decreases |idx|
  {
    if |idx| == 0 {
      assert t == d && segs == [];
    } else {
      assert Reaches(ModuleWalk, d, idx, t, segs);
      assert d.readable && ReachesIn(ModuleWalk, d.subdirs, idx, t, segs);
      var i := idx[0];
      var item := d.subdirs[i];
      var sub := JoinPath(path, [item.name]);
      assert segs == [item.name] + segs[1..];
      JoinPathAppend(path, [item.name], segs[1..]);
      ModulesFoundComplete(item, sub, depth + 1, idx[1..], t, segs[1..], m);
      ModulesInSubdirsContains(d.subdirs, path, depth, i, m);
    }
  }

  /**
   * The walk finds exactly the modules of the directories it reaches and
   * lists within level 4: found implies present, and present implies found.
   */
  lemma ModulesFoundExactly(d: Dir, path: string, depth: nat)
    ensures forall m :: m in ModulesFound(d, path, depth) <==> exists idx, t, segs :: ModuleReached(d, path, depth, idx, t, segs, m)
  {
    ModulesFoundSound(d, path, depth);
    forall m | exists idx, t, segs :: ModuleReached(d, path, depth, idx, t, segs, m)
      ensures m in ModulesFound(d, path, depth)
    {
      var idx, t, segs :| ModuleReached(d, path, depth, idx, t, segs, m);
      ModulesFoundComplete(d, path, depth, idx, t, segs, m);
    }
  }

  // ---------------------------------------------------------------------------
  // The report walk
  // ---------------------------------------------------------------------------

  /** The deepest level the report walk lists (the root is level 0). */
  const MaxReportDepth: nat := 3

  /** A directory the report walk does not enter. */
  predicate SkippedByReportWalk(name: string) {
    "." <= name || name == "node_modules"
  }

  /** The report locations probed inside every visited sub-directory, in order. */
  const SubdirReportLocations: seq<seq<string>> := [
    ["target", "site", "jacoco", "jacoco.xml"],
    ["build", "reports", "jacoco", "test", "jacocoTestReport.xml"],
    ["build", "reports", "jacoco", "jacoco.xml"],
    ["target", "jacoco.xml"]
  ]

  /** The two file names a JaCoCo XML report has. */
  predicate IsReportFileName(name: string) {
    name == "jacoco.xml" || name == "jacocoTestReport.xml"
  }

  /** Every candidate location is non-empty and ends in a report file name. */
  predicate ReportLocations(locations: seq<seq<string>>) {
    forall k :: 0 <= k < |locations| ==> |locations[k]| > 0 && IsReportFileName(locations[k][|locations[k]| - 1])
  }

  /** The candidate locations below `d` that exist, joined to `base`, in candidate order. */
  function ExistingPaths(d: Dir, base: string, candidates: seq<seq<string>>): (r: seq<string>)
    ensures |r| <= |candidates|
    decreases |candidates|
  {
    if |candidates| == 0 then []
    else
      var c := candidates[|candidates| - 1];
      ExistingPaths(d, base, candidates[..|candidates| - 1]) + (if PathExists(d, c) then [JoinPath(base, c)] else [])
  }

  /** `p` lies under `base` and names a report file. */
  predicate IsReportPath(base: string, p: string) {
    base <= p && (EndsWith(p, "/jacoco.xml") || EndsWith(p, "/jacocoTestReport.xml"))
  }

  /** A candidate location joined to `base` lies under `base` and names a report file. */
  lemma JoinedReportPath(base: string, c: seq<string>)
    requires |c| > 0 && IsReportFileName(c[|c| - 1])
    ensures IsReportPath(base, JoinPath(base, c))
  {
    JoinPathExtends(base, c);
    JoinPathEnds(base, c);
    var name := c[|c| - 1];
    assert "/" + name == "/jacoco.xml" || "/" + name == "/jacocoTestReport.xml";
  }

  /** Every existing path lies under `base` and names a report file. */
  lemma {:induction false} ExistingPathsShape(d: Dir, base: string, candidates: seq<seq<string>>)
    requires ReportLocations(candidates)
    ensures forall p :: p in ExistingPaths(d, base, candidates) ==> IsReportPath(base, p)
    decreases |candidates|
  {
    if |candidates| > 0 {
      var c := candidates[|candidates| - 1];
      var init := candidates[..|candidates| - 1];
      assert ReportLocations(init) by {
        forall k | 0 <= k < |init| ensures |init[k]| > 0 && IsReportFileName(init[k][|init[k]| - 1]) {
          assert init[k] == candidates[k];
        }
      }
      ExistingPathsShape(d, base, init);
      JoinedReportPath(base, c);
      assert ExistingPaths(d, base, candidates)
          == ExistingPaths(d, base, init) + (if PathExists(d, c) then [JoinPath(base, c)] else []);
    }
  }

  /** A path is among the existing paths exactly when it is `base` joined to a candidate that exists below `d`. */
  lemma {:induction false} ExistingPathsExactly(d: Dir, base: string, candidates: seq<seq<string>>)
    ensures forall p :: p in ExistingPaths(d, base, candidates) <==>
              exists c :: c in candidates && PathExists(d, c) && p == JoinPath(base, c)
    decreases |candidates|
  {
    if |candidates| > 0 {
      var c := candidates[|candidates| - 1];
      var init := candidates[..|candidates| - 1];
      ExistingPathsExactly(d, base, init);
      assert candidates == init + [c];
      assert ExistingPaths(d, base, candidates)
          == ExistingPaths(d, base, init) + (if PathExists(d, c) then [JoinPath(base, c)] else []);
      forall p | p in ExistingPaths(d, base, candidates)
        ensures exists e :: e in candidates && PathExists(d, e) && p == JoinPath(base, e)
      {
        if p in ExistingPaths(d, base, init) {
          var e :| e in init && PathExists(d, e) && p == JoinPath(base, e);
          assert e in candidates;
        } else {
          assert c in candidates;
        }
      }
      forall p | exists e :: e in candidates && PathExists(d, e) && p == JoinPath(base, e)
        ensures p in ExistingPaths(d, base, candidates)
      {
        var e :| e in candidates && PathExists(d, e) && p == JoinPath(base, e);
        if e != c {
          assert e in init;
        }
      }
    }
  }

  /**
   * `p` is a candidate location `c` below the directory names `segs`
   * (at least one, none skipped by the report walk) under `path`, and a
   * walk started at level `depth` probes that deep.
   */
  predicate ReportWalkPath(path: string, segs: seq<string>, c: seq<string>, depth: nat, p: string) {
    && p == JoinPath(path, segs + c)
    && c in SubdirReportLocations
    && 0 < |segs| && depth + |segs| <= MaxReportDepth + 1
    && forall k :: 0 <= k < |segs| ==> !SkippedByReportWalk(segs[k])
  }

  /** A report reached below the sub-directory `name` is reached from its parent through `[name] + rest`. */
  lemma ReportWalkPathCons(path: string, name: string, rest: seq<string>, c: seq<string>, depth: nat, p: string)
    requires !SkippedByReportWalk(name) && ReportWalkPath(JoinPath(path, [name]), rest, c, depth + 1, p)
    ensures ReportWalkPath(path, [name] + rest, c, depth, p)
  {
    JoinPathAppend(path, [name], rest + c);
    assert [name] + (rest + c) == ([name] + rest) + c;
    var segs := [name] + rest;
    forall k | 0 <= k < |segs| ensures !SkippedByReportWalk(segs[k]) {
      if k > 0 { assert segs[k] == rest[k - 1]; }
    }
  }

  /** The reports `searchForJacocoReportsRecursively` pushes for the directory `d` at `path`. */
  function ReportsFound(d: Dir, path: string, depth: nat): seq<string>
    decreases MaxReportDepth + 1 - depth, 1, 0
  {
    if depth > MaxReportDepth || !d.readable then []
    else ReportsInSubdirs(d.subdirs, path, depth)
  }

  /** For each enterable sub-directory in order: its existing candidate reports, then those found below it. */
  function ReportsInSubdirs(items: seq<Dir>, path: string, depth: nat): seq<string>
    requires depth <= MaxReportDepth
    decreases MaxReportDepth + 1 - depth, 0, |items|
  {
    if |items| == 0 then []
    else
      var item := items[|items| - 1];
      var sub := JoinPath(path, [item.name]);
      ReportsInSubdirs(items[..|items| - 1], path, depth)
        + (if SkippedByReportWalk(item.name) then []
           else ExistingPaths(item, sub, SubdirReportLocations) + ReportsFound(item, sub, depth + 1))
  }

  /** Every report the walk finds lies under the starting path and is a `jacoco.xml` or `jacocoTestReport.xml`. */
  lemma {:induction false} ReportsFoundShape(d: Dir, path: string, depth: nat)
    ensures forall p :: p in ReportsFound(d, path, depth) ==>
              IsReportPath(path, p) && exists segs, c :: ReportWalkPath(path, segs, c, depth, p)
    decreases MaxReportDepth + 1 - depth, 1, 0
  {
    if depth <= MaxReportDepth && d.readable {
      ReportsInSubdirsShape(d.subdirs, path, depth);
    }
  }

  lemma {:induction false} ReportsInSubdirsShape(items: seq<Dir>, path: string, depth: nat)
    requires depth <= MaxReportDepth
    ensures forall p :: p in ReportsInSubdirs(items, path, depth) ==>
              IsReportPath(path, p) && exists segs, c :: ReportWalkPath(path, segs, c, depth, p)
    decreases MaxReportDepth + 1 - depth, 0, |items|
  {
    if |items| > 0 {
      var item := items[|items| - 1];
      ReportsInSubdirsShape(items[..|items| - 1], path, depth);
      if !SkippedByReportWalk(item.name) {
        ReportsBelowItem(item, path, depth);
      }
    }
  }

  /** The reports found inside and below one enterable sub-directory lie on a report-walk path from its parent. */
  lemma ReportsBelowItem(item: Dir, path: string, depth: nat)
    requires depth <= MaxReportDepth && !SkippedByReportWalk(item.name)
    ensures forall p :: p in ExistingPaths(item, JoinPath(path, [item.name]), SubdirReportLocations) + ReportsFound(item, JoinPath(path, [item.name]), depth + 1) ==>
              IsReportPath(path, p) && exists segs, c :: ReportWalkPath(path, segs, c, depth, p)
    decreases MaxReportDepth + 1 - depth, 0, 0
  {
    var sub := JoinPath(path, [item.name]);
    var existing := ExistingPaths(item, sub, SubdirReportLocations);
    var below := ReportsFound(item, sub, depth + 1);
    JoinPathExtends(path, [item.name]);
    ExistingPathsShape(item, sub, SubdirReportLocations);
    ExistingPathsExactly(item, sub, SubdirReportLocations);
    ReportsFoundShape(item, sub, depth + 1);
    forall p | p in existing
      ensures exists segs, c :: ReportWalkPath(path, segs, c, depth, p)
    {
      var c :| c in SubdirReportLocations && PathExists(item, c) && p == JoinPath(sub, c);
      JoinPathAppend(path, [item.name], c);
      assert ReportWalkPath(path, [item.name], c, depth, p);
    }
    forall p | p in below
      ensures exists segs, c :: ReportWalkPath(path, segs, c, depth, p)
    {
      var rest, c :| ReportWalkPath(sub, rest, c, depth + 1, p);
      ReportWalkPathCons(path, item.name, rest, c, depth, p);
    }
  }

  /**
   * `p` is a candidate location `c` that exists in a directory `t` which the
   * report walk started at `d` (level `depth`, path `path`) enters, the
   * directory listing it being no deeper than level 3.
   */
  predicate ReportReached(d: Dir, path: string, depth: nat, idx: seq<nat>, t: Dir, segs: seq<string>, c: seq<string>, p: string) {
    && Reaches(ReportWalk, d, idx, t, segs)
    && 0 < |idx| && depth + |idx| <= MaxReportDepth + 1
    && c in SubdirReportLocations && PathExists(t, c)
    && p == JoinPath(path, segs + c)
  }

  /** The same, for a walk whose first step enters one of `items`. */
  predicate ReportReachedIn(items: seq<Dir>, path: string, depth: nat, idx: seq<nat>, t: Dir, segs: seq<string>, c: seq<string>, p: string) {
    && ReachesIn(ReportWalk, items, idx, t, segs)
    && depth + |idx| <= MaxReportDepth + 1
    && c in SubdirReportLocations && PathExists(t, c)
    && p == JoinPath(path, segs + c)
  }

  /** Every report the walk finds is an existing candidate in a directory it enters. */
  lemma {:induction false} ReportsFoundSound(d: Dir, path: string, depth: nat)
    ensures forall p :: p in ReportsFound(d, path, depth) ==> exists idx, t, segs, c :: ReportReached(d, path, depth, idx, t, segs, c, p)
    decreases MaxReportDepth + 1 - depth, 1, 0
  {
    if depth <= MaxReportDepth && d.readable {
      ReportsInSubdirsSound(d.subdirs, path, depth);
      forall p | p in ReportsFound(d, path, depth)
        ensures exists idx, t, segs, c :: ReportReached(d, path, depth, idx, t, segs, c, p)
      {
        assert p in ReportsInSubdirs(d.subdirs, path, depth);
        var idx, t, segs, c :| ReportReachedIn(d.subdirs, path, depth, idx, t, segs, c, p);
        assert ReportReached(d, path, depth, idx, t, segs, c, p);
      }
    }
  }

  lemma {:induction false} ReportsInSubdirsSound(items: seq<Dir>, path: string, depth: nat)
    requires depth <= MaxReportDepth
    ensures forall p :: p in ReportsInSubdirs(items, path, depth) ==> exists idx, t, segs, c :: ReportReachedIn(items, path, depth, idx, t, segs, c, p)
    decreases MaxReportDepth + 1 - depth, 0, |items|
  {
    if |items| > 0 {
      var n := |items| - 1;
      var item := items[n];
      ReportsInSubdirsSound(items[..n], path, depth);
      forall p | p in ReportsInSubdirs(items[..n], path, depth)
        ensures exists idx, t, segs, c :: ReportReachedIn(items, path, depth, idx, t, segs, c, p)
      {
        var idx, t, segs, c :| ReportReachedIn(items[..n], path, depth, idx, t, segs, c, p);
        ReachesInPrefix(ReportWalk, items, n, idx, t, segs);
        assert ReportReachedIn(items, path, depth, idx, t, segs, c, p);
      }
      if !SkippedByReportWalk(item.name) {
        ProbedSound(items, path, depth, n);
        BelowItemSound(items, path, depth, depth + 1, n);
      }
    }
  }

  /** The candidates probed in the enterable sub-directory `items[i]` exist in a directory the walk enters. */
  lemma ProbedSound(items: seq<Dir>, path: string, depth: nat, i: nat)
    requires depth <= MaxReportDepth && i < |items| && !SkippedByReportWalk(items[i].name)
    ensures forall p :: p in ExistingPaths(items[i], JoinPath(path, [items[i].name]), SubdirReportLocations) ==>
              exists idx, t, segs, c :: ReportReachedIn(items, path, depth, idx, t, segs, c, p)
  {
    var item := items[i];
    var sub := JoinPath(path, [item.name]);
    ExistingPathsExactly(item, sub, SubdirReportLocations);
    ReachesInCons(ReportWalk, items, i, [], item, []);
    assert [i] + [] == [i] && [item.name] + [] == [item.name];
    forall p | p in ExistingPaths(item, sub, SubdirReportLocations)
      ensures exists idx, t, segs, c :: ReportReachedIn(items, path, depth, idx, t, segs, c, p)
    {
      var c :| c in SubdirReportLocations && PathExists(item, c) && p == JoinPath(sub, c);
      JoinPathAppend(path, [item.name], c);
      assert ReportReachedIn(items, path, depth, [i], item, [item.name], c, p);
    }
  }

  /** The reports found below the enterable sub-directory `items[i]`, walked from level `next`, exist in directories the walk enters. */
  lemma {:induction false} BelowItemSound(items: seq<Dir>, path: string, depth: nat, next: nat, i: nat)
    requires depth <= MaxReportDepth && next == depth + 1 && i < |items| && !SkippedByReportWalk(items[i].name)
    ensures forall p :: p in ReportsFound(items[i], JoinPath(path, [items[i].name]), next) ==>
              exists idx, t, segs, c :: ReportReachedIn(items, path, depth, idx, t, segs, c, p)
    decreases MaxReportDepth + 1 - depth, 0, 0
  {
    var item := items[i];
    var sub := JoinPath(path, [item.name]);
    ReportsFoundSound(item, sub, next);
    forall p | p in ReportsFound(item, sub, next)
      ensures exists idx, t, segs, c :: ReportReachedIn(items, path, depth, idx, t, segs, c, p)
    {
      var idx, t, segs, c :| ReportReached(item, sub, next, idx, t, segs, c, p);
      ReportReachedCons(items, path, depth, i, idx, t, segs, c, p);
    }
  }

  /** A report reached from `items[i]` one level down is reached from the listing through `[i] + idx`. */
  lemma ReportReachedCons(items: seq<Dir>, path: string, depth: nat, i: nat, idx: seq<nat>, t: Dir, segs: seq<string>, c: seq<string>, p: string)
    requires i < |items| && !SkippedByReportWalk(items[i].name)
    requires ReportReached(items[i], JoinPath(path, [items[i].name]), depth + 1, idx, t, segs, c, p)
    ensures ReportReachedIn(items, path, depth, [i] + idx, t, [items[i].name] + segs, c, p)
  {
    ReachesInCons(ReportWalk, items, i, idx, t, segs);
    JoinPathAppend(path, [items[i].name], segs + c);
    assert [items[i].name] + (segs + c) == ([items[i].name] + segs) + c;
  }

  /** What is found inside and below one enterable sub-directory is among what is found below the whole listing. */
  lemma {:induction false} ReportsInSubdirsContains(items: seq<Dir>, path: string, depth: nat, i: nat, p: string)
    requires depth <= MaxReportDepth && i < |items| && !SkippedByReportWalk(items[i].name)
    requires p in ExistingPaths(items[i], JoinPath(path, [items[i].name]), SubdirReportLocations)
                  + ReportsFound(items[i], JoinPath(path, [items[i].name]), depth + 1)
    ensures p in ReportsInSubdirs(items, path, depth)
    decreases |items|
  {
    var n := |items| - 1;
    if i < n {
      assert items[..n][i] == items[i];
      ReportsInSubdirsContains(items[..n], path, depth, i, p);
    }
  }

  /** Every candidate that exists in a directory the walk enters, listed no deeper than level 3, is found. */
  lemma {:induction false} ReportsFoundComplete(d: Dir, path: string, depth: nat, idx: seq<nat>, t: Dir, segs: seq<string>, c: seq<string>, p: string)
    requires ReportReached(d, path, depth, idx, t, segs, c, p)
    ensures p in ReportsFound(d, path, depth)
    decreases |idx|
  {
    assert Reaches(ReportWalk, d, idx, t, segs);
    assert d.readable && ReachesIn(ReportWalk, d.subdirs, idx, t, segs);
    var i := idx[0];
    var item := d.subdirs[i];
    var sub := JoinPath(path, [item.name]);
    assert segs == [item.name] + segs[1..];
    JoinPathAppend(path, [item.name], segs[1..] + c);
    assert segs + c == [item.name] + (segs[1..] + c);
    assert p == JoinPath(sub, segs[1..] + c);
    if |idx| == 1 {
      assert Reaches(ReportWalk, item, idx[1..], t, segs[1..]);
      assert t == item && segs[1..] == [];
      assert segs[1..] + c == c;
      ExistingPathsExactly(item, sub, SubdirReportLocations);
    } else {
      ReportsFoundComplete(item, sub, depth + 1, idx[1..], t, segs[1..], c, p);
    }
    ReportsInSubdirsContains(d.subdirs, path, depth, i, p);
  }

  /**
   * The walk finds exactly the existing candidates of the directories it
   * enters below listings no deeper than level 3: found implies present,
   * and present implies found.
   */
  lemma ReportsFoundExactly(d: Dir, path: string, depth: nat)
    ensures forall p :: p in ReportsFound(d, path, depth) <==> exists idx, t, segs, c :: ReportReached(d, path, depth, idx, t, segs, c, p)
  {
    ReportsFoundSound(d, path, depth);
    forall p | exists idx, t, segs, c :: ReportReached(d, path, depth, idx, t, segs, c, p)
      ensures p in ReportsFound(d, path, depth)
    {
      var idx, t, segs, c :| ReportReached(d, path, depth, idx, t, segs, c, p);
      ReportsFoundComplete(d, path, depth, idx, t, segs, c, p);
    }
  }

  /** The loop that probes candidate locations below `d` and pushes those that exist. */
  method ProbeCandidates(d: Dir, base: string, candidates: seq<seq<string>>, paths: seq<string>) returns (result: seq<string>)
    ensures result == paths + ExistingPaths(d, base, candidates)
  {
    result := paths;
    ghost var found: seq<string> := [];
    for k := 0 to |candidates|
      invariant found == ExistingPaths(d, base, candidates[..k])
      invariant result == paths + found
    {
      assert candidates[..k + 1][..k] == candidates[..k];
      if PathExists(d, candidates[k]) {
        AppendAssoc(paths, found, [JoinPath(base, candidates[k])]);
        result := result + [JoinPath(base, candidates[k])];
        found := found + [JoinPath(base, candidates[k])];
      }
    }
    assert candidates[..|candidates|] == candidates;
  }

  /**
   * `searchForJacocoReportsRecursively`: for every sub-directory it may
   * enter, appends the existing candidate reports inside it and then
   * recurses into it, down to depth 3.
   */
  method SearchForReports(d: Dir, path: string, depth: nat, reportPaths: seq<string>) returns (result: seq<string>)
    ensures result == reportPaths + ReportsFound(d, path, depth)
    decreases MaxReportDepth + 1 - depth
  {
    result := reportPaths;
    if depth > MaxReportDepth {
      return;
    }
    if !d.readable {
      return;
    }
    ghost var found: seq<string> := [];
    for i := 0 to |d.subdirs|
      invariant found == ReportsInSubdirs(d.subdirs[..i], path, depth)
      invariant result == reportPaths + found
    {
      var item := d.subdirs[i];
      assert d.subdirs[..i + 1][..i] == d.subdirs[..i];
      if !SkippedByReportWalk(item.name) {
        var sub := JoinPath(path, [item.name]);
        ghost var existing := ExistingPaths(item, sub, SubdirReportLocations);
        ghost var below := ReportsFound(item, sub, depth + 1);
        AppendAssoc(reportPaths, found, existing);
        result := ProbeCandidates(item, sub, SubdirReportLocations, result);
        AppendAssoc(reportPaths, found + existing, below);
        AppendAssoc(found, existing, below);
        result := SearchForReports(item, sub, depth + 1, result);
        found := found + (existing + below);
      }
    }
    assert d.subdirs[..|d.subdirs|] == d.subdirs;
  }

  // ---------------------------------------------------------------------------
  // Reports of one module
  // ---------------------------------------------------------------------------

  /** The build-output directory of a build system. */
  function OutputDir(kind: BuildSystem): string {
    match kind
    case Maven => "target"
    case Gradle => "build"
  }

  /** Where `findJacocoReportsInModule` looks, by build system. */
  function ModuleReportCandidates(kind: BuildSystem): seq<seq<string>> {
    match kind
    case Maven => [["target", "site", "jacoco", "jacoco.xml"], ["target", "jacoco.xml"]]
    case Gradle => [["build", "reports", "jacoco", "test", "jacocoTestReport.xml"], ["build", "reports", "jacoco", "jacoco.xml"]]
  }

  /**
   * `findJacocoReportsInModule`: the candidate locations of the module's
   * build system that exist in its directory `moduleDir`, in candidate order;
   * there are at most two, each a report file under the module's build-output
   * directory (`target` for Maven, `build` for Gradle).
   */
  method FindReportsInModule(moduleDir: Dir, pm: ProjectModule) returns (reportPaths: seq<string>)
    ensures reportPaths == ExistingPaths(moduleDir, pm.path, ModuleReportCandidates(pm.kind))
    ensures |reportPaths| <= 2
    ensures forall p :: p in reportPaths ==> IsReportPath(pm.path, p) && pm.path + "/" + OutputDir(pm.kind) + "/" <= p
  {
    var candidates := ModuleReportCandidates(pm.kind);
    reportPaths := ProbeCandidates(moduleDir, pm.path, candidates, []);
    ModuleReportsShape(moduleDir, pm.path, pm.kind);
  }

  /** The reports found in a module lie under its build-output directory and name report files. */
  lemma ModuleReportsShape(moduleDir: Dir, path: string, kind: BuildSystem)
    ensures forall p :: p in ExistingPaths(moduleDir, path, ModuleReportCandidates(kind)) ==>
              IsReportPath(path, p) && path + "/" + OutputDir(kind) + "/" <= p
  {
    var candidates := ModuleReportCandidates(kind);
    assert ReportLocations(candidates);
    ExistingPathsShape(moduleDir, path, candidates);
    assert candidates[0][0] == OutputDir(kind);
    assert candidates[1][0] == OutputDir(kind);
    CandidatesUnderFirstSegment(moduleDir, path, candidates);
  }

  /** Each existing candidate path begins with the base, a separator and the candidate's first segment. */
  lemma {:induction false} CandidatesUnderFirstSegment(d: Dir, base: string, candidates: seq<seq<string>>)
    requires forall k :: 0 <= k < |candidates| ==> |candidates[k]| > 1
    requires forall k, j :: 0 <= k < |candidates| && 0 <= j < |candidates| ==> candidates[k][0] == candidates[j][0]
    ensures forall p :: p in ExistingPaths(d, base, candidates) ==> base + "/" + candidates[0][0] + "/" <= p
    decreases |candidates|
  {
    if |candidates| > 0 {
      var c := candidates[|candidates| - 1];
      var init := candidates[..|candidates| - 1];
      CandidatesUnderFirstSegment(d, base, init);
      assert |init| > 0 ==> init[0][0] == candidates[0][0];
      JoinPathExtends(base + "/" + c[0] + "/" + c[1], c[2..]);
      assert JoinPath(base, c) == JoinPath(base + "/" + c[0] + "/" + c[1], c[2..]) by {
        assert c[1..][0] == c[1];
        assert c[1..][1..] == c[2..];
      }
    }
  }
}
