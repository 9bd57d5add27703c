/**
 * The two regular-expression scans of `parseJavaFile` in
 * test_controller/serverOLD.js, written out character by character:
 *
 *   package:  the capture of the first match of  /package\s+([\w.]+);/
 *   classes:  the capture of every match of      /class\s+(\w+)/g
 *
 * Neither expression has a word boundary, so `subclass X` also yields `X`.
 * Because `\s` and `\w` (or `[\w.]`) share no character, and `;` is not in
 * `[\w.]`, backtracking never changes a match: each run is maximal.
 */
module JavaScan {
  import opened Wrappers

  /** `\w` without the `u` flag: ASCII letters, digits and `_`. */
  predicate IsWordChar(c: char) {
    ('a' <= c <= 'z') || ('A' <= c <= 'Z') || ('0' <= c <= '9') || c == '_'
  }

  /** `[\w.]` */
  predicate IsPackageChar(c: char) {
    IsWordChar(c) || c == '.'
  }

  /** `\s`: the ECMAScript white space and line terminator characters. */
  predicate IsSpace(c: char) {
    c == ' ' || c == '\t' || c == '\n' || c == '\U{000B}' || c == '\U{000C}' || c == '\r'
    || c == '\U{00A0}' || c == '\U{1680}' || ('\U{2000}' <= c <= '\U{200A}')
    || c == '\U{2028}' || c == '\U{2029}' || c == '\U{202F}' || c == '\U{205F}'
    || c == '\U{3000}' || c == '\U{FEFF}'
  }

  /** The end of the longest run, starting at `i`, of characters in the class `inClass`. */
  function SpanEnd(s: string, i: nat, inClass: char -> bool): (e: nat)
    requires i <= |s|
    ensures i <= e <= |s|
    ensures forall j :: i <= j < e ==> inClass(s[j])
    ensures e < |s| ==> !inClass(s[e])
    decreases |s| - i
  {
    if i < |s| && inClass(s[i]) then SpanEnd(s, i + 1, inClass) else i
  }

  /** A maximal run is the one SpanEnd finds. */
  lemma {:induction false} SpanEndIsMaximalRun(s: string, i: nat, e: nat, inClass: char -> bool)
    requires i <= e <= |s|
    requires forall j :: i <= j < e ==> inClass(s[j])
    requires e < |s| ==> !inClass(s[e])
    ensures SpanEnd(s, i, inClass) == e
    decreases e - i
  {
    if i < e {
      SpanEndIsMaximalRun(s, i + 1, e, inClass);
    }
  }

  // ---------------------------------------------------------------------
  // /package\s+([\w.]+);/
  // ---------------------------------------------------------------------

  /**
   * The expression matches at `p` with `ws` white space characters and the
   * capture `name`.
   */
  ghost predicate PackageMatchWith(s: string, p: nat, ws: nat, name: string) {
    var a := p + 7 + ws;
    var b := a + |name|;
    && b < |s|
    && s[p..p + 7] == "package"
    && ws >= 1 && (forall j :: p + 7 <= j < a ==> IsSpace(s[j]))
    && |name| >= 1 && s[a..b] == name && (forall j :: a <= j < b ==> IsPackageChar(s[j]))
    && s[b] == ';'
  }

  /** The capture of the expression matched at position `p`, if it matches there. */
  function PackageMatchAt(s: string, p: nat): (r: Option<string>)
    ensures r.Some? ==> p + 7 < |s|
    ensures r.Some? ==> |r.value| > 0 && forall j :: 0 <= j < |r.value| ==> IsPackageChar(r.value[j])
  {
    if p + 7 <= |s| && s[p..p + 7] == "package" then
      var a := SpanEnd(s, p + 7, IsSpace);
      var b := SpanEnd(s, a, IsPackageChar);
      if a == p + 7 || b == a || b == |s| || s[b] != ';' then None
      else Some(s[a..b])
    else None
  }

  /** Every match PackageMatchAt reports is a match of the expression. */
  lemma PackageMatchAtSound(s: string, p: nat)
    requires PackageMatchAt(s, p).Some?
    ensures exists ws :: PackageMatchWith(s, p, ws, PackageMatchAt(s, p).value)
  {
    var a := SpanEnd(s, p + 7, IsSpace);
    assert PackageMatchWith(s, p, a - (p + 7), PackageMatchAt(s, p).value);
  }

  /** Every match of the expression at `p` is the one PackageMatchAt reports. */
  lemma PackageMatchAtComplete(s: string, p: nat, ws: nat, name: string)
    requires PackageMatchWith(s, p, ws, name)
    ensures PackageMatchAt(s, p) == Some(name)
  {
    var a := p + 7 + ws;
    var b := a + |name|;
    assert s[a] == name[0];
    SpanEndIsMaximalRun(s, p + 7, a, IsSpace);
    SpanEndIsMaximalRun(s, a, b, IsPackageChar);
  }

  /** The first position at or after `from` where the expression matches. */
  function FirstPackageMatch(s: string, from: nat): (r: Option<nat>)
    ensures r.Some? ==> from <= r.value && PackageMatchAt(s, r.value).Some?
    ensures r.Some? ==> forall q :: from <= q < r.value ==> PackageMatchAt(s, q).None?
    ensures r.None? ==> forall q :: from <= q ==> PackageMatchAt(s, q).None?
    decreases |s| - from
  {
    if from + 7 >= |s| then None
    else if PackageMatchAt(s, from).Some? then Some(from)
    else FirstPackageMatch(s, from + 1)
  }

  /** `fileContent.match(/package\s+([\w.]+);/)?.[1]`, or null. */
  function PackageOf(fileContent: string): (r: Option<string>)
    ensures r.None? <==> forall p :: PackageMatchAt(fileContent, p).None?
    ensures r.Some? ==> |r.value| > 0 && forall j :: 0 <= j < |r.value| ==> IsPackageChar(r.value[j])
  {
    match FirstPackageMatch(fileContent, 0)
    case None => None
    case Some(p) => PackageMatchAt(fileContent, p)
  }

  /** The package is the capture of the leftmost match. */
  lemma PackageIsLeftmostMatch(fileContent: string, p: nat, ws: nat, name: string)
    requires PackageMatchWith(fileContent, p, ws, name)
    requires forall q: nat :: q < p ==> PackageMatchAt(fileContent, q).None?
    ensures PackageOf(fileContent) == Some(name)
  {
    PackageMatchAtComplete(fileContent, p, ws, name);
    var first := FirstPackageMatch(fileContent, 0);
    assert first == Some(p);
  }

  // ---------------------------------------------------------------------
  // /class\s+(\w+)/g
  // ---------------------------------------------------------------------

  /** One match: where it starts, where it ends, and its capture. */
  datatype ClassMatch = ClassMatch(start: nat, end: nat, name: string)

  /** The expression matches at `p` with `ws` white space characters and the (greedy) capture `name`. */
  ghost predicate ClassMatchWith(s: string, p: nat, ws: nat, name: string) {
    var a := p + 5 + ws;
    var b := a + |name|;
    && b <= |s|
    && s[p..p + 5] == "class"
    && ws >= 1 && (forall j :: p + 5 <= j < a ==> IsSpace(s[j]))
    && |name| >= 1 && s[a..b] == name && (forall j :: a <= j < b ==> IsWordChar(s[j]))
    && (b < |s| ==> !IsWordChar(s[b]))
  }

  /** The match of the expression at position `p`, if it matches there. */
  function ClassMatchAt(s: string, p: nat): (r: Option<ClassMatch>)
    ensures r.Some? ==> r.value.start == p && p < r.value.end <= |s|
    ensures r.Some? ==> |r.value.name| > 0 && forall j :: 0 <= j < |r.value.name| ==> IsWordChar(r.value.name[j])
  {
    if p + 5 <= |s| && s[p..p + 5] == "class" then
      var a := SpanEnd(s, p + 5, IsSpace);
      var b := SpanEnd(s, a, IsWordChar);
      if a == p + 5 || b == a then None
      else Some(ClassMatch(p, b, s[a..b]))
    else None
  }

  /** Every match ClassMatchAt reports is a match of the expression, ending after its capture. */
  lemma ClassMatchAtSound(s: string, p: nat)
    requires ClassMatchAt(s, p).Some?
    ensures var m := ClassMatchAt(s, p).value;
      exists ws :: ClassMatchWith(s, p, ws, m.name) && m.end == p + 5 + ws + |m.name|
  {
    var a := SpanEnd(s, p + 5, IsSpace);
    var m := ClassMatchAt(s, p).value;
    assert ClassMatchWith(s, p, a - (p + 5), m.name) && m.end == p + 5 + (a - (p + 5)) + |m.name|;
  }

  /** Every match of the expression at `p` is the one ClassMatchAt reports. */
  lemma ClassMatchAtComplete(s: string, p: nat, ws: nat, name: string)
    requires ClassMatchWith(s, p, ws, name)
    ensures ClassMatchAt(s, p) == Some(ClassMatch(p, p + 5 + ws + |name|, name))
  {
    var a := p + 5 + ws;
    var b := a + |name|;
    assert s[a] == name[0];
    SpanEndIsMaximalRun(s, p + 5, a, IsSpace);
    SpanEndIsMaximalRun(s, a, b, IsWordChar);
  }

  /** No match of the expression starts in [lo, hi). */
  predicate NoClassMatchIn(s: string, lo: nat, hi: nat) {
    forall q :: lo <= q < hi ==> ClassMatchAt(s, q).None?
  }

  /** The leftmost match starting at or after `from`. */
  function NextClassMatch(s: string, from: nat): (r: Option<ClassMatch>)
    ensures r.Some? ==> from <= r.value.start && ClassMatchAt(s, r.value.start) == r
    ensures r.Some? ==> NoClassMatchIn(s, from, r.value.start)
    ensures r.None? ==> forall q :: from <= q ==> ClassMatchAt(s, q).None?
    decreases |s| - from
  {
    if from + 5 >= |s| then None
    else if ClassMatchAt(s, from).Some? then ClassMatchAt(s, from)
    else NextClassMatch(s, from + 1)
  }

  /**
   * `ms` is what a global search from `from` yields: each match is the
   * leftmost one at or after the end of the previous match (or `from`), and
   * after the last one no match starts.
   */
  ghost predicate IsMatchAll(s: string, from: nat, ms: seq<ClassMatch>)
    decreases |ms|
  {
    if ms == [] then forall q :: from <= q ==> ClassMatchAt(s, q).None?
    else
      && from <= ms[0].start
      && ClassMatchAt(s, ms[0].start) == Some(ms[0])
      && NoClassMatchIn(s, from, ms[0].start)
      && IsMatchAll(s, ms[0].end, ms[1..])
  }

  /** `matchAll` from position `from`: each search resumes where the previous match ended. */
  function ClassMatches(s: string, from: nat): (ms: seq<ClassMatch>)
    ensures IsMatchAll(s, from, ms)
    decreases |s| - from
  {
    match NextClassMatch(s, from)
    case None => []
    case Some(m) =>
      var ms := [m] + ClassMatches(s, m.end);
      assert ms[1..] == ClassMatches(s, m.end);
      ms
  }

  /** The global search has exactly one outcome. */
  lemma {:induction false} MatchAllIsUnique(s: string, from: nat, ms: seq<ClassMatch>)
    requires IsMatchAll(s, from, ms)
    ensures ms == ClassMatches(s, from)
    decreases |ms|
  {
    var next := NextClassMatch(s, from);
    if ms == [] {
      assert next.None?;
    } else {
      assert next == Some(ms[0]);
      MatchAllIsUnique(s, ms[0].end, ms[1..]);
      assert ms == [ms[0]] + ms[1..];
    }
  }

  /** The captures of the matches, in order. */
  function Captures(ms: seq<ClassMatch>): (names: seq<string>)
    ensures |names| == |ms| && forall i :: 0 <= i < |ms| ==> names[i] == ms[i].name
  {
    if ms == [] then [] else [ms[0].name] + Captures(ms[1..])
  }

  /** `[...fileContent.matchAll(/class\s+(\w+)/g)].map(m => m[1])` */
  function ClassNames(fileContent: string): (names: seq<string>)
    ensures forall ms :: IsMatchAll(fileContent, 0, ms) ==> names == Captures(ms)
  {
    MatchAllIsDetermined(fileContent, 0);
    Captures(ClassMatches(fileContent, 0))
  }

  /** Every global search from `from` is the one `ClassMatches` performs. */
  lemma MatchAllIsDetermined(s: string, from: nat)
    ensures forall ms :: IsMatchAll(s, from, ms) ==> ms == ClassMatches(s, from)
  {
    forall ms | IsMatchAll(s, from, ms)
      ensures ms == ClassMatches(s, from)
    {
      MatchAllIsUnique(s, from, ms);
    }
  }

  /** Every match of a global search is a match of the expression, and they come in order without overlap. */
  lemma {:induction false} MatchAllInOrder(s: string, from: nat, ms: seq<ClassMatch>)
    requires IsMatchAll(s, from, ms)
    ensures forall i :: 0 <= i < |ms| ==> from <= ms[i].start && ClassMatchAt(s, ms[i].start) == Some(ms[i])
    ensures forall i, j :: 0 <= i < j < |ms| ==> ms[i].end <= ms[j].start
    decreases |ms|
  {
    if ms != [] {
      MatchAllInOrder(s, ms[0].end, ms[1..]);
      forall i | 0 < i < |ms| ensures ms[i] == ms[1..][i - 1] { }
    }
  }

  /** Every class name is a non-empty run of word characters. */
  lemma ClassNamesAreWords(fileContent: string)
    ensures forall i :: 0 <= i < |ClassNames(fileContent)| ==>
      var n := ClassNames(fileContent)[i];
      |n| > 0 && forall j :: 0 <= j < |n| ==> IsWordChar(n[j])
  {
    var ms := ClassMatches(fileContent, 0);
    MatchAllInOrder(fileContent, 0, ms);
  }

  /** With no word boundary in the expression, `class` inside a longer word still matches. */
  lemma NoWordBoundaryBeforeClass(prefix: string, name: string)
    requires |name| > 0 && forall j :: 0 <= j < |name| ==> IsWordChar(name[j])
    ensures var s := prefix + "class " + name;
      ClassMatchAt(s, |prefix|) == Some(ClassMatch(|prefix|, |s|, name))
  {
    var s := prefix + "class " + name;
    var p := |prefix|;
    assert s[p..p + 5] == "class";
    assert s[p + 5] == ' ';
    assert s[p + 6..p + 6 + |name|] == name;
    ClassMatchAtComplete(s, p, 1, name);
  }

  /** `subclass X` yields the class name `X`. */
  lemma SubclassYieldsName()
    ensures ClassNames("subclass X") == ["X"]
  {
    var s := "subclass X";
    NoWordBoundaryBeforeClass("sub", "X");
    assert s == "sub" + "class " + "X";
    var ms := [ClassMatch(3, 10, "X")];
    forall q | 0 <= q < 3
      ensures ClassMatchAt(s, q).None?
    {
      assert s[q] in "sub" && s[q..q + 5][0] == s[q];
    }
    assert IsMatchAll(s, 10, []);
    assert IsMatchAll(s, 0, ms);
    MatchAllIsUnique(s, 0, ms);
    assert Captures(ms) == ["X"];
  }
}
