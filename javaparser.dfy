/**
 * The `JavaParser` helpers (src/utils/javaParser.ts): regular-expression
 * extraction of class, package and import names, the test-file markers, the
 * brace-balance check, visibility and parameter parsing, the post-processing
 * of method matches, and the derivation of a test file's path.
 *
 * Each regular expression is modelled by the predicate "it matches starting
 * at index i" (with the backtracking worked out: every repeated part is
 * greedy and the character after it can never continue the match, so the
 * maximal run is the only one that can succeed) and by a search for the
 * leftmost such index, which is what `match`, `test` and `exec` return.
 */
module JavaParser {
  import opened Wrappers
  import opened Strings

  // ---------------------------------------------------------------------------
  // Character classes and runs
  // ---------------------------------------------------------------------------

  /** The character classes the regular expressions repeat: `\s`, `\w`, `[\w.]` and `[\w.*]`. */
  datatype CharClass = Space | Word | PackageNameChar | ImportNameChar

  predicate InClass(c: char, cls: CharClass) {
    match cls
    case Space => IsSpace(c)
    case Word => IsWordChar(c)
    case PackageNameChar => IsWordChar(c) || c == '.'
    case ImportNameChar => IsWordChar(c) || c == '.' || c == '*'
  }

  /** The end of the longest run of `cls` characters starting at `i` (a greedy `cls*`). */
  function Span(s: string, i: nat, cls: CharClass): (e: nat)
    requires i <= |s|
    ensures i <= e <= |s|
    ensures e == |s| || !InClass(s[e], cls)
    ensures forall k :: i <= k < e ==> InClass(s[k], cls)
    decreases |s| - i
  {
    if i == |s| || !InClass(s[i], cls) then i else Span(s, i + 1, cls)
  }

  /** A run is determined by where it starts. */
  lemma SpanUnique(s: string, i: nat, e: nat, cls: CharClass)
    requires i <= e <= |s|
    requires forall k :: i <= k < e ==> InClass(s[k], cls)
    requires e == |s| || !InClass(s[e], cls)
    ensures Span(s, i, cls) == e
  {
  }

  /** Text in front does not change a run, only shifts it. */
  lemma SpanPrepend(p: string, s: string, i: nat, cls: CharClass)
    requires i <= |s|
    ensures Span(p + s, |p| + i, cls) == |p| + Span(s, i, cls)
  {
    var e := Span(s, i, cls);
    assert forall k :: |p| + i <= k < |p| + e ==> (p + s)[k] == s[k - |p|];
    SpanUnique(p + s, |p| + i, |p| + e, cls);
  }

  /** Text behind does not change a run that ends before the end. */
  lemma SpanAppend(a: string, t: string, i: nat, cls: CharClass)
    requires i <= |a| && Span(a, i, cls) < |a|
    ensures Span(a + t, i, cls) == Span(a, i, cls)
  {
    var e := Span(a, i, cls);
    assert forall k :: i <= k <= e ==> (a + t)[k] == a[k];
    SpanUnique(a + t, i, e, cls);
  }

  lemma StartsAtPrepend(p: string, s: string, pat: string, i: nat)
    requires StartsAt(s, pat, i)
    ensures StartsAt(p + s, pat, |p| + i)
  {
    assert (p + s)[|p| + i..] == s[i..];
  }

  lemma StartsAtAppend(a: string, t: string, pat: string, i: nat)
    requires StartsAt(a, pat, i)
    ensures StartsAt(a + t, pat, i)
  {
    assert (a + t)[i..] == a[i..] + t;
  }

  // ---------------------------------------------------------------------------
  // `extractClassName`: /(?:public\s+)?class\s+(\w+)/
  // ---------------------------------------------------------------------------

  /** `class\s+\w+` matches at `i`. */
  predicate ClassAt(s: string, i: nat) {
    StartsAt(s, "class", i)
    && var j := Span(s, i + 5, Space);
       j > i + 5 && j < |s| && IsWordChar(s[j])
  }

  /** The identifier `(\w+)` captured by a `class\s+\w+` match at `i`. */
  function ClassNameAt(s: string, i: nat): (name: string)
    requires ClassAt(s, i)
    ensures name != [] && forall k :: 0 <= k < |name| ==> IsWordChar(name[k])
  {
    var j := Span(s, i + 5, Space);
    var e := Span(s, j, Word);
    assert forall k :: 0 <= k < e - j ==> s[j..e][k] == s[j + k];
    s[j..e]
  }

  /** `public\s+class\s+\w+` matches at `i`. */
  predicate PublicClassAt(s: string, i: nat) {
    StartsAt(s, "public", i)
    && var j := Span(s, i + 6, Space);
       j > i + 6 && ClassAt(s, j)
  }

  /** The whole pattern, optional prefix included, matches at `i`. */
  predicate ClassPatternAt(s: string, i: nat) {
    PublicClassAt(s, i) || ClassAt(s, i)
  }

  /** The capture of a match at `i`: the optional prefix is tried first. */
  function ClassPatternCapture(s: string, i: nat): string
    requires ClassPatternAt(s, i)
  {
    if PublicClassAt(s, i) then ClassNameAt(s, Span(s, i + 6, Space)) else ClassNameAt(s, i)
  }

  /** The leftmost index at or after `i` where the class pattern matches. */
  function FirstClassPattern(s: string, i: nat): (r: Option<nat>)
    requires i <= |s|
    ensures r.Some? ==> i <= r.value < |s| && ClassPatternAt(s, r.value)
                        && forall m :: i <= m < r.value ==> !ClassPatternAt(s, m)
    ensures r.None? ==> forall m :: i <= m <= |s| ==> !ClassPatternAt(s, m)
    decreases |s| - i
  {
    if i == |s| then None
    else if ClassPatternAt(s, i) then Some(i)
    else FirstClassPattern(s, i + 1)
  }

  /** The leftmost index at or after `i` where `class\s+\w+` matches. */
  function FirstClass(s: string, i: nat): (r: Option<nat>)
    requires i <= |s|
    ensures r.Some? ==> i <= r.value < |s| && ClassAt(s, r.value)
                        && forall m :: i <= m < r.value ==> !ClassAt(s, m)
    ensures r.None? ==> forall m :: i <= m <= |s| ==> !ClassAt(s, m)
    decreases |s| - i
  {
    if i == |s| then None
    else if ClassAt(s, i) then Some(i)
    else FirstClass(s, i + 1)
  }

  /** `extractClassName`: the capture of the leftmost match, or null when there is none. */
  function ExtractClassName(javaCode: string): (r: Option<string>)
    ensures r.None? <==> forall m :: 0 <= m <= |javaCode| ==> !ClassPatternAt(javaCode, m)
    ensures r.Some? ==> r.value != [] && forall k :: 0 <= k < |r.value| ==> IsWordChar(r.value[k])
  {
    match FirstClassPattern(javaCode, 0)
    case None => None
    case Some(i) => Some(ClassPatternCapture(javaCode, i))
  }

  /**
   * The optional `public\s+` prefix never changes which name is captured: it
   * is the identifier after the first `class` followed by whitespace and a
   * word character.
   */
  lemma ClassNameIsAfterFirstClass(s: string)
    ensures ExtractClassName(s) == (match FirstClass(s, 0)
                                    case None => None
                                    case Some(c) => Some(ClassNameAt(s, c)))
  {
    match FirstClassPattern(s, 0)
    case None =>
      assert FirstClass(s, 0).Some? ==> ClassPatternAt(s, FirstClass(s, 0).value);
    case Some(k) =>
      if PublicClassAt(s, k) {
        FirstClassAfterPublic(s, k);
      } else {
        FirstClassAtPattern(s, k);
      }
  }

  /** When the leftmost match has the `public` prefix, the first `class` is the one after the prefix. */
  lemma FirstClassAfterPublic(s: string, k: nat)
    requires FirstClassPattern(s, 0) == Some(k) && PublicClassAt(s, k)
    ensures FirstClass(s, 0) == Some(Span(s, k + 6, Space))
  {
    var c := Span(s, k + 6, Space);
    forall m | 0 <= m < c
      ensures !ClassAt(s, m)
    {
      if m < k {
        assert !ClassPatternAt(s, m);
      } else {
        NoClassInsidePublicPrefix(s, k, m);
      }
    }
    FirstClassIs(s, c);
  }

  /** When the leftmost match has no prefix, it is the first `class`. */
  lemma FirstClassAtPattern(s: string, k: nat)
    requires FirstClassPattern(s, 0) == Some(k) && !PublicClassAt(s, k)
    ensures FirstClass(s, 0) == Some(k)
  {
    forall m | 0 <= m < k
      ensures !ClassAt(s, m)
    {
      assert !ClassPatternAt(s, m);
    }
    FirstClassIs(s, k);
  }

  /** A match of `class\s+\w+` that no earlier index matches is the first one. */
  lemma FirstClassIs(s: string, c: nat)
    requires c <= |s| && ClassAt(s, c)
    requires forall m :: 0 <= m < c ==> !ClassAt(s, m)
    ensures FirstClass(s, 0) == Some(c)
  {
  }

  /** No `class` match starts inside `public\s+`. */
  lemma NoClassInsidePublicPrefix(s: string, k: nat, m: nat)
    requires PublicClassAt(s, k) && k <= m < Span(s, k + 6, Space)
    ensures !ClassAt(s, m)
  {
    assert s[k..][..6] == "public";
    if m < k + 5 {
      assert s[m] == s[k..][..6][m - k];
      assert s[m] != 'c';
    } else if m == k + 5 {
      assert IsSpace(s[k + 6]);
      assert s[m + 1] != 'l';
    } else {
      assert IsSpace(s[m]);
    }
  }

  /** A declaration `public class <name>` at the start of the text is found. */
  lemma ClassDeclarationFound(name: string, rest: string)
    requires name != [] && forall k :: 0 <= k < |name| ==> IsWordChar(name[k])
    requires rest == [] || !IsWordChar(rest[0])
    ensures ExtractClassName("public class " + name + rest) == Some(name)
  {
    var s := "public class " + name + rest;
    assert s[..13] == "public class ";
    assert StartsAt(s, "public", 0) && StartsAt(s, "class", 7);
    SpanUnique(s, 6, 7, Space);
    SpanUnique(s, 12, 13, Space);
    assert forall k :: 13 <= k < 13 + |name| ==> s[k] == name[k - 13];
    SpanUnique(s, 13, 13 + |name|, Word);
    assert s[13..13 + |name|] == name;
    assert PublicClassAt(s, 0);
  }

  // ---------------------------------------------------------------------------
  // `extractPackageName`: /package\s+([\w.]+);/
  // ---------------------------------------------------------------------------

  /** `package\s+[\w.]+;` matches at `i`. */
  predicate PackageAt(s: string, i: nat) {
    StartsAt(s, "package", i)
    && var j := Span(s, i + 7, Space);
       var e := Span(s, j, PackageNameChar);
       j > i + 7 && e > j && e < |s| && s[e] == ';'
  }

  /** The name `([\w.]+)` captured by a match at `i`. */
  function PackageNameAt(s: string, i: nat): (name: string)
    requires PackageAt(s, i)
    ensures name != [] && forall k :: 0 <= k < |name| ==> InClass(name[k], PackageNameChar)
  {
    var j := Span(s, i + 7, Space);
    var e := Span(s, j, PackageNameChar);
    assert forall k :: 0 <= k < e - j ==> s[j..e][k] == s[j + k];
    s[j..e]
  }

  function FirstPackage(s: string, i: nat): (r: Option<nat>)
    requires i <= |s|
    ensures r.Some? ==> i <= r.value < |s| && PackageAt(s, r.value)
                        && forall m :: i <= m < r.value ==> !PackageAt(s, m)
    ensures r.None? ==> forall m :: i <= m <= |s| ==> !PackageAt(s, m)
    decreases |s| - i
  {
    if i == |s| then None
    else if PackageAt(s, i) then Some(i)
    else FirstPackage(s, i + 1)
  }

  /** `extractPackageName`: the name of the leftmost `package <name>;`, or null. */
  function ExtractPackageName(javaCode: string): (r: Option<string>)
    ensures r.None? <==> forall m :: 0 <= m <= |javaCode| ==> !PackageAt(javaCode, m)
    ensures r.Some? ==> r.value != [] && forall k :: 0 <= k < |r.value| ==> InClass(r.value[k], PackageNameChar)
  {
    match FirstPackage(javaCode, 0)
    case None => None
    case Some(i) => Some(PackageNameAt(javaCode, i))
  }

  /** A file that starts with `package <name>;` has that package name. */
  lemma PackageDeclarationFound(name: string, rest: string)
    requires name != [] && forall k :: 0 <= k < |name| ==> InClass(name[k], PackageNameChar)
    ensures ExtractPackageName("package " + name + ";" + rest) == Some(name)
  {
    var s := "package " + name + ";" + rest;
    assert s[..8] == "package ";
    assert StartsAt(s, "package", 0);
    SpanUnique(s, 7, 8, Space);
    assert forall k :: 8 <= k < 8 + |name| ==> s[k] == name[k - 8];
    assert s[8 + |name|] == ';';
    SpanUnique(s, 8, 8 + |name|, PackageNameChar);
    assert s[8..8 + |name|] == name;
    assert PackageAt(s, 0);
  }

  // ---------------------------------------------------------------------------
  // `extractImports`: /import\s+([\w.*]+);/g
  // ---------------------------------------------------------------------------

  /** `import\s+[\w.*]+;` matches at `i`. */
  predicate ImportAt(s: string, i: nat) {
    StartsAt(s, "import", i)
    && var j := Span(s, i + 6, Space);
       var e := Span(s, j, ImportNameChar);
       j > i + 6 && e > j && e < |s| && s[e] == ';'
  }

  /** The name captured by a match at `i`. */
  function ImportNameAt(s: string, i: nat): (name: string)
    requires ImportAt(s, i)
    ensures name != [] && forall k :: 0 <= k < |name| ==> InClass(name[k], ImportNameChar)
  {
    var j := Span(s, i + 6, Space);
    var e := Span(s, j, ImportNameChar);
    assert forall k :: 0 <= k < e - j ==> s[j..e][k] == s[j + k];
    s[j..e]
  }

  /** Where a match at `i` ends (just after its `;`): the next search starts there. */
  function ImportEnd(s: string, i: nat): (end: nat)
    requires ImportAt(s, i)
    ensures i < end <= |s|
  {
    Span(s, Span(s, i + 6, Space), ImportNameChar) + 1
  }

  /** The leftmost match at or after `i`. */
  function NextImport(s: string, i: nat): (r: Option<nat>)
    requires i <= |s|
    ensures r.Some? ==> i <= r.value < |s| && ImportAt(s, r.value)
                        && forall m :: i <= m < r.value ==> !ImportAt(s, m)
    ensures r.None? ==> forall m :: i <= m <= |s| ==> !ImportAt(s, m)
    decreases |s| - i
  {
    if i == |s| then None
    else if ImportAt(s, i) then Some(i)
    else NextImport(s, i + 1)
  }

  /** The names a global `exec` loop collects, searching from `from`. */
  function Imports(s: string, from: nat): seq<string>
    requires from <= |s|
    decreases |s| - from
  {
    match NextImport(s, from)
    case None => []
    case Some(i) => [ImportNameAt(s, i)] + Imports(s, ImportEnd(s, i))
  }

  /** The names of the matches at every index from `i` on, in index order. */
  function ImportsAtEveryIndex(s: string, i: nat): seq<string>
    requires i <= |s|
    decreases |s| - i
  {
    if i == |s| then []
    else if ImportAt(s, i) then [ImportNameAt(s, i)] + ImportsAtEveryIndex(s, i + 1)
    else ImportsAtEveryIndex(s, i + 1)
  }

  /** `extractImports`: runs the global `exec` loop. */
  method ExtractImports(javaCode: string) returns (imports: seq<string>)
    ensures imports == Imports(javaCode, 0)
  {
    imports := [];
    var lastIndex := 0;
    var match_ := NextImport(javaCode, lastIndex);
    while match_.Some?
      invariant lastIndex <= |javaCode|
      invariant match_ == NextImport(javaCode, lastIndex)
      invariant imports + Imports(javaCode, lastIndex) == Imports(javaCode, 0)
      decreases |javaCode| - lastIndex
    {
      imports := imports + [ImportNameAt(javaCode, match_.value)];
      lastIndex := ImportEnd(javaCode, match_.value);
      match_ := NextImport(javaCode, lastIndex);
    }
  }

  /** No match starts inside another one. */
  lemma ImportsDoNotOverlap(s: string, i: nat, m: nat)
    requires ImportAt(s, i) && i < m < ImportEnd(s, i)
    ensures !ImportAt(s, m)
  {
    var j := Span(s, i + 6, Space);
    var e := Span(s, j, ImportNameChar);
    assert s[i..][..6] == "import";
    StartsAtChars(s, "import", m);
    if m < i + 6 {
      assert s[m] == s[i..][..6][m - i];
      assert s[m] != 'i';
    } else if m < j {
      assert IsSpace(s[m]);
    } else if m >= e {
      assert s[m] == ';';
    } else if m + 6 > e {
      assert s[e] == ';';
    } else {
      assert !IsSpace(s[m + 6]);
    }
  }

  /** An occurrence of `pat` at `m` fixes the characters from `m` on. */
  lemma StartsAtChars(s: string, pat: string, m: nat)
    ensures StartsAt(s, pat, m) ==> forall k :: 0 <= k < |pat| ==> s[m + k] == pat[k]
  {
    if StartsAt(s, pat, m) {
      forall k | 0 <= k < |pat|
        ensures s[m + k] == pat[k]
      {
        assert s[m..][k] == s[m + k];
      }
    }
  }

  /** Indexes without a match contribute nothing. */
  lemma {:induction false} SkipNonMatches(s: string, i: nat, k: nat)
    requires i <= k <= |s|
    requires forall m :: i <= m < k ==> !ImportAt(s, m)
    ensures ImportsAtEveryIndex(s, i) == ImportsAtEveryIndex(s, k)
    decreases k - i
  {
    if i < k {
      SkipNonMatches(s, i + 1, k);
    }
  }

  /**
   * The `exec` loop misses nothing: it returns the name of every match in the
   * text, in order of occurrence.
   */
  lemma {:induction false} ImportsAreEveryMatch(s: string, from: nat)
    requires from <= |s|
    ensures Imports(s, from) == ImportsAtEveryIndex(s, from)
    decreases |s| - from
  {
    match NextImport(s, from)
    case None =>
      SkipNonMatches(s, from, |s|);
    case Some(i) =>
      SkipNonMatches(s, from, i);
      SkipMatch(s, i);
      ImportsAreEveryMatch(s, ImportEnd(s, i));
  }

  /** After a match, the indexes up to its end contribute nothing. */
  lemma SkipMatch(s: string, i: nat)
    requires ImportAt(s, i)
    ensures ImportsAtEveryIndex(s, i) == [ImportNameAt(s, i)] + ImportsAtEveryIndex(s, ImportEnd(s, i))
  {
    var end := ImportEnd(s, i);
    forall m | i + 1 <= m < end
      ensures !ImportAt(s, m)
    {
      ImportsDoNotOverlap(s, i, m);
    }
    SkipNonMatches(s, i + 1, end);
  }

  // ---------------------------------------------------------------------------
  // `isTestFile`
  // ---------------------------------------------------------------------------

  /** `\b` just after a word character ending at `e`: the text ends there or a non-word character follows. */
  predicate WordEndsAt(s: string, e: nat) {
    e >= |s| || !IsWordChar(s[e])
  }

  /** `<name>\b` matches at `i`, for an annotation name ending in a word character. */
  predicate AnnotationAt(s: string, i: nat, name: string) {
    StartsAt(s, name, i) && WordEndsAt(s, i + |name|)
  }

  /** `<keyword>\s+<rest>` matches at `i`. */
  predicate KeywordThenAt(s: string, i: nat, keyword: string, rest: string) {
    StartsAt(s, keyword, i)
    && var j := Span(s, i + |keyword|, Space);
       j > i + |keyword| && StartsAt(s, rest, j)
  }

  /** One of the seven test markers matches at `i`. */
  predicate TestMarkerAt(s: string, i: nat) {
    || KeywordThenAt(s, i, "import", "org.junit")
    || AnnotationAt(s, i, "@Test")
    || AnnotationAt(s, i, "@Before")
    || AnnotationAt(s, i, "@After")
    || AnnotationAt(s, i, "@BeforeEach")
    || AnnotationAt(s, i, "@AfterEach")
    || KeywordThenAt(s, i, "extends", "TestCase")
  }

  /** `isTestFile`: some marker matches somewhere. */
  predicate IsTestFile(javaCode: string) {
    exists i: nat | i <= |javaCode| :: TestMarkerAt(javaCode, i)
  }

  lemma KeywordThenPrepend(p: string, s: string, i: nat, keyword: string, rest: string)
    requires KeywordThenAt(s, i, keyword, rest)
    ensures KeywordThenAt(p + s, |p| + i, keyword, rest)
  {
    StartsAtPrepend(p, s, keyword, i);
    SpanPrepend(p, s, i + |keyword|, Space);
    StartsAtPrepend(p, s, rest, Span(s, i + |keyword|, Space));
  }

  lemma KeywordThenAppend(a: string, t: string, i: nat, keyword: string, rest: string)
    requires KeywordThenAt(a, i, keyword, rest) && rest != []
    ensures KeywordThenAt(a + t, i, keyword, rest)
  {
    StartsAtAppend(a, t, keyword, i);
    SpanAppend(a, t, i + |keyword|, Space);
    StartsAtAppend(a, t, rest, Span(a, i + |keyword|, Space));
  }

  lemma AnnotationPrepend(p: string, s: string, i: nat, name: string)
    requires AnnotationAt(s, i, name)
    ensures AnnotationAt(p + s, |p| + i, name)
  {
    StartsAtPrepend(p, s, name, i);
  }

  lemma AnnotationAppend(a: string, c: char, t: string, i: nat, name: string)
    requires AnnotationAt(a, i, name) && !IsWordChar(c)
    ensures AnnotationAt(a + [c] + t, i, name)
  {
    StartsAtAppend(a, [c] + t, name, i);
    assert a + [c] + t == a + ([c] + t);
  }

  /** A marker keeps matching when text is put in front of the file. */
  lemma TestMarkerPrepend(p: string, s: string, i: nat)
    requires TestMarkerAt(s, i)
    ensures TestMarkerAt(p + s, |p| + i)
  {
    if KeywordThenAt(s, i, "import", "org.junit") {
      KeywordThenPrepend(p, s, i, "import", "org.junit");
    } else if KeywordThenAt(s, i, "extends", "TestCase") {
      KeywordThenPrepend(p, s, i, "extends", "TestCase");
    } else if AnnotationAt(s, i, "@Test") {
      AnnotationPrepend(p, s, i, "@Test");
    } else if AnnotationAt(s, i, "@Before") {
      AnnotationPrepend(p, s, i, "@Before");
    } else if AnnotationAt(s, i, "@After") {
      AnnotationPrepend(p, s, i, "@After");
    } else if AnnotationAt(s, i, "@BeforeEach") {
      AnnotationPrepend(p, s, i, "@BeforeEach");
    } else {
      AnnotationPrepend(p, s, i, "@AfterEach");
    }
  }

  /** A marker keeps matching when a non-word character and more text follow the file. */
  lemma TestMarkerAppend(a: string, c: char, t: string, i: nat)
    requires TestMarkerAt(a, i) && !IsWordChar(c)
    ensures TestMarkerAt(a + [c] + t, i)
  {
    assert a + [c] + t == a + ([c] + t);
    if KeywordThenAt(a, i, "import", "org.junit") {
      KeywordThenAppend(a, [c] + t, i, "import", "org.junit");
    } else if KeywordThenAt(a, i, "extends", "TestCase") {
      KeywordThenAppend(a, [c] + t, i, "extends", "TestCase");
    } else if AnnotationAt(a, i, "@Test") {
      AnnotationAppend(a, c, t, i, "@Test");
    } else if AnnotationAt(a, i, "@Before") {
      AnnotationAppend(a, c, t, i, "@Before");
    } else if AnnotationAt(a, i, "@After") {
      AnnotationAppend(a, c, t, i, "@After");
    } else if AnnotationAt(a, i, "@BeforeEach") {
      AnnotationAppend(a, c, t, i, "@BeforeEach");
    } else {
      AnnotationAppend(a, c, t, i, "@AfterEach");
    }
  }

  /** Two sources joined by a non-word character (a line break, say) form a test file if either one does. */
  lemma TestFileJoin(a: string, c: char, b: string)
    requires !IsWordChar(c)
    requires IsTestFile(a) || IsTestFile(b)
    ensures IsTestFile(a + [c] + b)
  {
    if IsTestFile(a) {
      var i: nat :| i <= |a| && TestMarkerAt(a, i);
      TestMarkerAppend(a, c, b, i);
    } else {
      var i: nat :| i <= |b| && TestMarkerAt(b, i);
      TestMarkerPrepend(a + [c], b, i);
    }
  }

  /** `@BeforeEach` alone does not match `@Before\b`: it is a marker only through its own pattern. */
  lemma BeforeEachIsNotBefore(s: string, i: nat)
    requires StartsAt(s, "@BeforeEach", i)
    ensures !AnnotationAt(s, i, "@Before") && AnnotationAt(s, i, "@BeforeEach") == WordEndsAt(s, i + 11)
  {
    assert s[i..][..11] == "@BeforeEach";
    assert s[i + 7] == 'E';
    assert StartsAt(s, "@Before", i) by {
      assert s[i..][..7] == "@Before";
    }
  }

  // ---------------------------------------------------------------------------
  // `isValidJavaCode`
  // ---------------------------------------------------------------------------

  /** Equally many `{` and `}`. */
  predicate BracesBalanced(code: string) {
    CountChar(code, '{') == CountChar(code, '}')
  }

  /** `isValidJavaCode`: balanced brace counts and a class declaration somewhere. */
  predicate IsValidJavaCode(code: string) {
    BracesBalanced(code) && exists i: nat | i <= |code| :: ClassPatternAt(code, i)
  }

  /** Valid exactly when the brace counts agree and `extractClassName` finds a name. */
  lemma ValidIffBalancedWithClassName(code: string)
    ensures IsValidJavaCode(code) <==> BracesBalanced(code) && ExtractClassName(code).Some?
  {
    if ExtractClassName(code).Some? {
      var k := FirstClassPattern(code, 0).value;
      assert ClassPatternAt(code, k);
    }
  }

  /** A class declaration keeps matching when more text follows. */
  lemma ClassPatternAppend(a: string, t: string, i: nat)
    requires ClassPatternAt(a, i)
    ensures ClassPatternAt(a + t, i)
  {
    if PublicClassAt(a, i) {
      StartsAtAppend(a, t, "public", i);
      SpanAppend(a, t, i + 6, Space);
      var j := Span(a, i + 6, Space);
      StartsAtAppend(a, t, "class", j);
      SpanAppend(a, t, j + 5, Space);
    } else {
      StartsAtAppend(a, t, "class", i);
      SpanAppend(a, t, i + 5, Space);
    }
  }

  /** Appending a brace-balanced text to valid code keeps it valid. */
  lemma ValidAppendBalanced(a: string, t: string)
    requires IsValidJavaCode(a) && BracesBalanced(t)
    ensures IsValidJavaCode(a + t)
  {
    CountCharAppend(a, t, '{');
    CountCharAppend(a, t, '}');
    var i: nat :| i <= |a| && ClassPatternAt(a, i);
    ClassPatternAppend(a, t, i);
  }

  // ---------------------------------------------------------------------------
  // `parseVisibility` and `parseParameters`
  // ---------------------------------------------------------------------------

  datatype Visibility = Public | Private | Protected

  /** `parseVisibility`: private wins over protected; public is the default. */
  function ParseVisibility(methodDeclaration: string): (r: Visibility)
    ensures r == Private <==> Contains(methodDeclaration, "private")
    ensures r == Protected <==> !Contains(methodDeclaration, "private") && Contains(methodDeclaration, "protected")
    ensures r == Public <==> !Contains(methodDeclaration, "private") && !Contains(methodDeclaration, "protected")
  {
    if Contains(methodDeclaration, "private") then Private
    else if Contains(methodDeclaration, "protected") then Protected
    else Public
  }

  /** A declaration containing the word `private` stays private whatever precedes it. */
  lemma VisibilityPrivateIsStable(p: string, declaration: string)
    requires ParseVisibility(declaration) == Private
    ensures ParseVisibility(p + declaration) == Private
  {
    ContainsPrepend(p, declaration, "private");
  }

  datatype JavaParameter = JavaParameter(paramType: string, name: string)

  /** One comma-separated piece: its whitespace tokens, all but the last joined by a space, then the last. */
  function ParameterOf(piece: string): Option<JavaParameter> {
    var trimmed := Trim(piece);
    if trimmed == [] then None
    else
      var parts := Words(trimmed);
      if |parts| >= 2 then Some(JavaParameter(Join(parts[..|parts| - 1], " "), parts[|parts| - 1]))
      else None
  }

  /** The parameters of a list of pieces, in order. */
  function ParametersOf(pieces: seq<string>): seq<JavaParameter>
    decreases |pieces|
  {
    if |pieces| == 0 then []
    else
      var init := ParametersOf(pieces[..|pieces| - 1]);
      match ParameterOf(pieces[|pieces| - 1])
      case None => init
      case Some(p) => init + [p]
  }

  lemma ParametersOfStep(pieces: seq<string>, k: nat)
    requires k < |pieces|
    ensures ParametersOf(pieces[..k + 1])
         == ParametersOf(pieces[..k]) + (match ParameterOf(pieces[k]) case None => [] case Some(p) => [p])
  {
    assert pieces[..k + 1][..k] == pieces[..k];
  }

  /** What `parseParameters` returns. */
  function Parameters(parametersStr: string): seq<JavaParameter> {
    if Trim(parametersStr) == [] then [] else ParametersOf(Split(parametersStr, ','))
  }

  /** `parseParameters`: a blank list has no parameters; otherwise the comma-separated pieces are parsed in order. */
  method ParseParameters(parametersStr: string) returns (parameters: seq<JavaParameter>)
    ensures parameters == Parameters(parametersStr)
  {
    if Trim(parametersStr) == [] {
      return [];
    }
    var paramParts := Split(parametersStr, ',');
    parameters := ParseParameterPieces(paramParts);
  }

  /** The `for … of paramParts` loop of `parseParameters`: each piece with a type and a name gives one parameter. */
  method ParseParameterPieces(paramParts: seq<string>) returns (parameters: seq<JavaParameter>)
    ensures parameters == ParametersOf(paramParts)
  {
    parameters := [];
    for k := 0 to |paramParts|
      invariant parameters == ParametersOf(paramParts[..k])
    {
      ParametersOfStep(paramParts, k);
      var trimmed := Trim(paramParts[k]);
      if trimmed != [] {
        var parts := Words(trimmed);
        if |parts| >= 2 {
          var paramType := Join(parts[..|parts| - 1], " ");
          var name := parts[|parts| - 1];
          parameters := parameters + [JavaParameter(paramType, name)];
        }
      }
    }
    assert paramParts[..|paramParts|] == paramParts;
  }

  /** A well-formed parameter: a non-empty name without whitespace, a non-empty type, neither holding a comma. */
  predicate WellFormed(p: JavaParameter) {
    p.name != [] && NoSpace(p.name) && p.paramType != [] && ',' !in p.name && ',' !in p.paramType
  }

  /**
   * A piece with at least two tokens gives a parameter whose type and name,
   * split again at whitespace, are exactly the piece's tokens; pieces with
   * fewer tokens give none.
   */
  lemma ParameterOfTokens(piece: string)
    ensures ParameterOf(piece).Some? <==> |Words(Trim(piece))| >= 2
    ensures ParameterOf(piece).Some? ==>
              var p := ParameterOf(piece).value;
              Words(p.paramType + " " + p.name) == Words(Trim(piece))
  {
    var trimmed := Trim(piece);
    var parts := Words(trimmed);
    assert trimmed == [] ==> parts == [];
    if |parts| >= 2 {
      TokensRejoined(parts);
    }
  }

  /** All tokens but the last, joined by a space, then a space and the last token, split into the same tokens. */
  lemma TokensRejoined(parts: seq<string>)
    requires |parts| >= 2
    requires forall k :: 0 <= k < |parts| ==> parts[k] != [] && NoSpace(parts[k])
    ensures Words(Join(parts[..|parts| - 1], " ") + " " + parts[|parts| - 1]) == parts
  {
    var n := |parts|;
    JoinSnoc(parts[..n - 1], parts[n - 1], " ");
    assert parts[..n - 1] + [parts[n - 1]] == parts;
    WordsOfJoin(parts);
  }

  /** A piece without a comma that gives a parameter gives a well-formed one. */
  lemma ParameterOfWellFormed(piece: string)
    requires ',' !in piece && ParameterOf(piece).Some?
    ensures WellFormed(ParameterOf(piece).value)
  {
    var trimmed := Trim(piece);
    TrimAvoids(piece, ',');
    WordsAvoid(trimmed, ',');
    var parts := Words(trimmed);
    var n := |parts|;
    JoinAvoids(parts[..n - 1], " ", ',');
    assert parts[0] != [];
    assert Join(parts[..n - 1], " ") != [] by {
      if n - 1 > 1 {
        assert Join(parts[..n - 1], " ") == parts[0] + " " + Join(parts[..n - 1][1..], " ");
      }
    }
  }

  /** Every parameter of a list of comma-free pieces is well formed, and there are no more parameters than pieces. */
  lemma {:induction false} ParametersOfWellFormed(pieces: seq<string>)
    requires forall k :: 0 <= k < |pieces| ==> ',' !in pieces[k]
    ensures |ParametersOf(pieces)| <= |pieces|
    ensures forall k :: 0 <= k < |ParametersOf(pieces)| ==> WellFormed(ParametersOf(pieces)[k])
    decreases |pieces|
  {
    if |pieces| > 0 {
      ParametersOfWellFormed(pieces[..|pieces| - 1]);
      var last := pieces[|pieces| - 1];
      if ParameterOf(last).Some? {
        ParameterOfWellFormed(last);
      }
    }
  }

  /**
   * `parseParameters` gives well-formed parameters, at most one per
   * comma-separated piece, and none for a blank list.
   */
  lemma ParametersWellFormed(parametersStr: string)
    ensures AllSpace(parametersStr) ==> Parameters(parametersStr) == []
    ensures |Parameters(parametersStr)| <= |Split(parametersStr, ',')|
    ensures forall k :: 0 <= k < |Parameters(parametersStr)| ==> WellFormed(Parameters(parametersStr)[k])
  {
    TrimBlank(parametersStr);
    ParametersOfWellFormed(Split(parametersStr, ','));
  }

  // ---------------------------------------------------------------------------
  // `extractPublicMethods`, after the declaration regex
  // ---------------------------------------------------------------------------

  /** One match of the method-declaration regex: the whole text and the three groups. */
  datatype MethodMatch = MethodMatch(fullMatch: string, returnType: string, methodName: string, parametersStr: string)

  datatype JavaMethod = JavaMethod(name: string, returnType: string, parameters: seq<JavaParameter>,
                                   visibility: Visibility, isStatic: bool)

  /** `/\bstatic\b/`: the word `static`, with no word character on either side. */
  predicate HasStaticWord(text: string) {
    exists i: nat | i + 6 <= |text| ::
      StartsAt(text, "static", i) && (i == 0 || !IsWordChar(text[i - 1])) && WordEndsAt(text, i + 6)
  }

  /** A match is skipped as a constructor when its name is the extracted class name (never when there is none). */
  predicate IsConstructor(className: Option<string>, m: MethodMatch) {
    className == Some(m.methodName)
  }

  /** `static` counts only as a whole word: a modifier does, part of a longer identifier does not. */
  lemma StaticWordBoundaries()
    ensures HasStaticWord("public static int")
    ensures !HasStaticWord("int nonstatic")
  {
    assert StartsAt("public static int", "static", 7);
    forall i: nat | i + 6 <= |"int nonstatic"| && StartsAt("int nonstatic", "static", i)
      ensures i == 7
    {
      assert "int nonstatic"[i] == 's' && "int nonstatic"[i + 1] == 't';
    }
    assert IsWordChar("int nonstatic"[6]);
  }

  /** The method record built from a match. */
  function MethodOf(m: MethodMatch): JavaMethod {
    JavaMethod(m.methodName, Trim(m.returnType), Parameters(m.parametersStr),
               ParseVisibility(m.fullMatch), HasStaticWord(m.fullMatch))
  }

  /** The matches that are not constructors of the class `className`, in order. */
  function NonConstructors(className: Option<string>, matches: seq<MethodMatch>): seq<MethodMatch>
    decreases |matches|
  {
    if |matches| == 0 then []
    else
      var init := NonConstructors(className, matches[..|matches| - 1]);
      var m := matches[|matches| - 1];
      if IsConstructor(className, m) then init else init + [m]
  }

  /** `f` applied to each element, in order. */
  function Map<A, B>(f: A -> B, xs: seq<A>): (r: seq<B>)
    ensures |r| == |xs|
    decreases |xs|
  {
    if |xs| == 0 then [] else Map(f, xs[..|xs| - 1]) + [f(xs[|xs| - 1])]
  }

  lemma MapSnoc<A, B>(f: A -> B, xs: seq<A>, x: A)
    ensures Map(f, xs + [x]) == Map(f, xs) + [f(x)]
  {
    assert (xs + [x])[..|xs|] == xs;
  }

  /** The k-th element of the map is `f` of the k-th element. */
  lemma {:induction false} MapAt<A, B>(f: A -> B, xs: seq<A>, k: nat)
    requires k < |xs|
    ensures Map(f, xs)[k] == f(xs[k])
    decreases |xs|
  {
    if k < |xs| - 1 {
      MapAt(f, xs[..|xs| - 1], k);
    }
  }

  /** The records `extractPublicMethods` returns for the given matches. */
  function PublicMethods(javaCode: string, matches: seq<MethodMatch>): seq<JavaMethod> {
    Map(MethodOf, NonConstructors(ExtractClassName(javaCode), matches))
  }

  /** `extractPublicMethods`, given the regex's matches in order. */
  method ExtractPublicMethods(javaCode: string, matches: seq<MethodMatch>) returns (methods: seq<JavaMethod>)
    ensures methods == PublicMethods(javaCode, matches)
  {
    methods := [];
    for k := 0 to |matches|
      invariant methods == MethodsOf(ExtractClassName(javaCode), matches[..k])
    {
      var m := matches[k];
      assert matches[..k + 1][..k] == matches[..k];
      if m.methodName == ExtractClassName(javaCode).GetOr("") && ExtractClassName(javaCode).Some? {
        continue;
      }
      var visibility := ParseVisibility(m.fullMatch);
      var isStatic := HasStaticWord(m.fullMatch);
      var parameters := ParseParameters(m.parametersStr);
      methods := methods + [JavaMethod(m.methodName, Trim(m.returnType), parameters, visibility, isStatic)];
    }
    assert matches[..|matches|] == matches;
    MethodsOfIsMap(ExtractClassName(javaCode), matches);
  }

  /** The records of the non-constructor matches, built one match at a time as the loop does. */
  function MethodsOf(className: Option<string>, matches: seq<MethodMatch>): seq<JavaMethod>
    decreases |matches|
  {
    if |matches| == 0 then []
    else
      var init := MethodsOf(className, matches[..|matches| - 1]);
      var m := matches[|matches| - 1];
      if IsConstructor(className, m) then init else init + [MethodOf(m)]
  }

  /** Building the records one match at a time is filtering the matches, then mapping them. */
  lemma {:induction false} MethodsOfIsMap(className: Option<string>, matches: seq<MethodMatch>)
    ensures MethodsOf(className, matches) == Map(MethodOf, NonConstructors(className, matches))
    decreases |matches|
  {
    if |matches| > 0 {
      var init := matches[..|matches| - 1];
      var m := matches[|matches| - 1];
      MethodsOfIsMap(className, init);
      if !IsConstructor(className, m) {
        MapSnoc(MethodOf, NonConstructors(className, init), m);
      }
    }
  }

  /**
   * The filter keeps exactly the matches that are not constructors, and
   * keeps no more of them than it is given.
   */
  lemma {:induction false} NonConstructorsMembers(className: Option<string>, matches: seq<MethodMatch>)
    ensures |NonConstructors(className, matches)| <= |matches|
    ensures forall m :: m in NonConstructors(className, matches) <==> m in matches && !IsConstructor(className, m)
    decreases |matches|
  {
    if |matches| > 0 {
      var init := matches[..|matches| - 1];
      var last := matches[|matches| - 1];
      NonConstructorsMembers(className, init);
      assert matches == init + [last];
    }
  }

  /** The k-th record is built from the k-th kept match, so no record has the class's name. */
  lemma RecordsOfNonConstructors(className: Option<string>, matches: seq<MethodMatch>)
    ensures forall k :: 0 <= k < |NonConstructors(className, matches)| ==>
              Map(MethodOf, NonConstructors(className, matches))[k] == MethodOf(NonConstructors(className, matches)[k])
              && className != Some(Map(MethodOf, NonConstructors(className, matches))[k].name)
  {
    var kept := NonConstructors(className, matches);
    NonConstructorsMembers(className, matches);
    forall k | 0 <= k < |kept|
      ensures Map(MethodOf, kept)[k] == MethodOf(kept[k]) && className != Some(Map(MethodOf, kept)[k].name)
    {
      MapAt(MethodOf, kept, k);
      assert kept[k] in kept;
    }
  }

  /**
   * `extractPublicMethods` keeps exactly the matches that are not
   * constructors, in order: the k-th record is built from the k-th such
   * match, so none has the class's name, and a match gives a record if and
   * only if it is not a constructor.
   */
  lemma PublicMethodsAreNonConstructors(javaCode: string, matches: seq<MethodMatch>)
    ensures |PublicMethods(javaCode, matches)| == |NonConstructors(ExtractClassName(javaCode), matches)| <= |matches|
    ensures forall m :: m in NonConstructors(ExtractClassName(javaCode), matches) <==>
              m in matches && !IsConstructor(ExtractClassName(javaCode), m)
    ensures forall k :: 0 <= k < |PublicMethods(javaCode, matches)| ==>
              PublicMethods(javaCode, matches)[k] == MethodOf(NonConstructors(ExtractClassName(javaCode), matches)[k])
              && ExtractClassName(javaCode) != Some(PublicMethods(javaCode, matches)[k].name)
  {
    NonConstructorsMembers(ExtractClassName(javaCode), matches);
    RecordsOfNonConstructors(ExtractClassName(javaCode), matches);
  }

  // ---------------------------------------------------------------------------
  // `getTestFilePath`
  // ---------------------------------------------------------------------------

  predicate IsSeparator(c: char) {
    c == '/' || c == '\\'
  }

  /** `src[\/\\]main[\/\\]java` matches at `i` (thirteen characters). */
  predicate MainJavaAt(s: string, i: nat) {
    && i + 13 <= |s|
    && s[i] == 's' && s[i + 1] == 'r' && s[i + 2] == 'c' && IsSeparator(s[i + 3])
    && s[i + 4] == 'm' && s[i + 5] == 'a' && s[i + 6] == 'i' && s[i + 7] == 'n' && IsSeparator(s[i + 8])
    && s[i + 9] == 'j' && s[i + 10] == 'a' && s[i + 11] == 'v' && s[i + 12] == 'a'
  }

  function FirstMainJava(s: string, i: nat): (r: Option<nat>)
    requires i <= |s|
    ensures r.Some? ==> i <= r.value && MainJavaAt(s, r.value) && forall m :: i <= m < r.value ==> !MainJavaAt(s, m)
    ensures r.None? ==> forall m :: i <= m <= |s| ==> !MainJavaAt(s, m)
    decreases |s| - i
  {
    if i == |s| then None
    else if MainJavaAt(s, i) then Some(i)
    else FirstMainJava(s, i + 1)
  }

  /** `replace(/src[\/\\]main[\/\\]java/, 'src/test/java')`: only the first match is replaced. */
  function ReplaceMainJava(p: string): string {
    match FirstMainJava(p, 0)
    case None => p
    case Some(i) => p[..i] + "src/test/java" + p[i + 13..]
  }

  /** `replace(/\.java$/, 'Test.java')`. */
  function ReplaceJavaSuffix(t: string): string {
    if EndsWith(t, ".java") then t[..|t| - 5] + "Test.java" else t
  }

  /** `getTestFilePath`; the class name is not used. */
  function GetTestFilePath(originalPath: string, className: string): string {
    var testPath := ReplaceMainJava(originalPath);
    if testPath == originalPath then ReplaceJavaSuffix(originalPath) else ReplaceJavaSuffix(testPath)
  }

  /** The replacement keeps the length, the text before the match, and the text after it. */
  lemma ReplaceMainJavaShape(p: string)
    ensures |ReplaceMainJava(p)| == |p|
    ensures FirstMainJava(p, 0).Some? ==>
              var i := FirstMainJava(p, 0).value;
              var q := ReplaceMainJava(p);
              q[..i] == p[..i] && q[i..i + 13] == "src/test/java" && q[i + 13..] == p[i + 13..] && q != p
  {
    match FirstMainJava(p, 0)
    case None =>
    case Some(i) =>
      var q := ReplaceMainJava(p);
      assert q[i + 4] == 't';
  }

  /** No character of a `src/main/java` match is a dot. */
  lemma MainJavaHasNoDot(p: string, i: nat, k: nat)
    requires MainJavaAt(p, i) && i <= k < i + 13
    ensures p[k] != '.'
  {
  }

  /** The replacement never changes whether the path ends in `.java`. */
  lemma ReplaceMainJavaKeepsSuffix(p: string)
    ensures EndsWith(ReplaceMainJava(p), ".java") <==> EndsWith(p, ".java")
  {
    ReplaceMainJavaShape(p);
    match FirstMainJava(p, 0)
    case None =>
    case Some(i) =>
      var q := ReplaceMainJava(p);
      if i + 13 <= |p| - 5 {
        assert q[|p| - 5..] == q[i + 13..][|p| - 5 - i - 13..];
        assert p[|p| - 5..] == p[i + 13..][|p| - 5 - i - 13..];
      } else if |p| >= 5 {
        var k := |p| - 5;
        MainJavaHasNoDot(p, i, k);
        assert q[k] == q[i..i + 13][k - i];
        assert q[k] != '.';
        assert p[|p| - 5..][0] == p[k] && q[|q| - 5..][0] == q[k];
      }
  }

  /** `replace(/\.java$/, 'Test.java')` adds `Test` before a final `.java` and leaves other paths alone. */
  lemma ReplaceJavaSuffixShape(t: string)
    ensures EndsWith(t, ".java") ==>
              ReplaceJavaSuffix(t)[..|t| - 5] == t[..|t| - 5] && |ReplaceJavaSuffix(t)| == |t| + 4
    ensures !EndsWith(t, ".java") ==> ReplaceJavaSuffix(t) == t
    ensures EndsWith(ReplaceJavaSuffix(t), "Test.java") <==> EndsWith(t, ".java")
  {
    var r := ReplaceJavaSuffix(t);
    if EndsWith(t, ".java") {
      assert r[|r| - 9..] == "Test.java";
    }
  }

  /**
   * `getTestFilePath`: both branches give the path with its first
   * `src/main/java` (either separator) replaced by `src/test/java` and `Test`
   * inserted before a final `.java`; a path not ending in `.java` keeps its
   * ending, and one with neither is returned unchanged.
   */
  lemma TestFilePathShape(originalPath: string, className: string)
    ensures var r := GetTestFilePath(originalPath, className);
            && r == ReplaceJavaSuffix(ReplaceMainJava(originalPath))
            && |r| == |originalPath| + (if EndsWith(originalPath, ".java") then 4 else 0)
            && (EndsWith(r, "Test.java") <==> EndsWith(originalPath, ".java"))
            && (FirstMainJava(originalPath, 0).None? && !EndsWith(originalPath, ".java") ==> r == originalPath)
  {
    ReplaceMainJavaShape(originalPath);
    ReplaceMainJavaKeepsSuffix(originalPath);
    ReplaceJavaSuffixShape(ReplaceMainJava(originalPath));
  }

  /** The first `src/main/java` becomes `src/test/java`, with everything before it kept. */
  lemma TestFilePathReplacesMain(originalPath: string, className: string)
    requires FirstMainJava(originalPath, 0).Some?
    ensures var i := FirstMainJava(originalPath, 0).value;
            var r := GetTestFilePath(originalPath, className);
            i + 13 <= |r| && r[..i] == originalPath[..i] && r[i..i + 13] == "src/test/java"
  {
    var i := FirstMainJava(originalPath, 0).value;
    var q := ReplaceMainJava(originalPath);
    ReplaceMainJavaShape(originalPath);
    ReplaceJavaSuffixShape(q);
    if EndsWith(q, ".java") {
      assert i + 13 <= |q| - 5 by {
        ReplaceMainJavaKeepsSuffix(originalPath);
      }
      var r := ReplaceJavaSuffix(q);
      assert r[..i] == r[..|q| - 5][..i] && r[i..i + 13] == r[..|q| - 5][i..i + 13];
      assert q[..i] == q[..|q| - 5][..i] && q[i..i + 13] == q[..|q| - 5][i..i + 13];
    }
  }
}
