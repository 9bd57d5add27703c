/**
 * `addMethodToClass` of test_controller/server.js: find the first top-level
 * class declaration with the requested name, put the new method's text in
 * front of the closing brace of its body text, and splice the result into
 * the source in place of the first occurrence of that body text.
 *
 * Both textual replacements are JavaScript's `String.prototype.replace`, so
 * the replacement text goes through the `$`-pattern expansion of that
 * function; it is modelled here for a pattern without capture groups.
 */
module MethodInjector {
  import opened Wrappers

  /** A direct child of the compilation unit: its node kind, identifier text and body text. */
  datatype TopLevelNode = TopLevelNode(kind: string, identifier: string, bodyText: string)

  /** The constructor name of a class declaration node. */
  const ClassDeclarationKind: string := "ClassDeclarationContext"

  /** The error `addMethodToClass` throws. */
  datatype InjectError = ClassNotFound(className: string)
  {
    /** The message of the thrown error. */
    function Message(): string {
      "Class \"" + className + "\" not found."
    }
  }

  /** `node` is a class declaration named exactly `className` (case-sensitive). */
  predicate IsTargetClass(node: TopLevelNode, className: string) {
    node.kind == ClassDeclarationKind && node.identifier == className
  }

  /** `children.find(...)`: the index of the first target class declaration, if any. */
  function FindClass(children: seq<TopLevelNode>, className: string): (r: Option<nat>)
    ensures r.Some? ==> r.value < |children| && IsTargetClass(children[r.value], className)
    ensures r.Some? ==> forall j :: 0 <= j < r.value ==> !IsTargetClass(children[j], className)
    ensures r.None? <==> forall j :: 0 <= j < |children| ==> !IsTargetClass(children[j], className)
  {
    if children == [] then None
    else if IsTargetClass(children[0], className) then Some(0)
    else match FindClass(children[1..], className)
      case None => None
      case Some(i) => Some(i + 1)
  }

  // ---------------------------------------------------------------------
  // String.prototype.replace
  // ---------------------------------------------------------------------

  /** `pattern` occurs in `s` at index `i`. */
  predicate OccursAt(s: string, pattern: string, i: nat) {
    i + |pattern| <= |s| && s[i..i + |pattern|] == pattern
  }

  /** The first index at or after `from` where `pattern` occurs. */
  function IndexOfFrom(s: string, pattern: string, from: nat): (r: Option<nat>)
    decreases |s| - from
    ensures r.Some? ==> from <= r.value && OccursAt(s, pattern, r.value)
    ensures r.Some? ==> forall j :: from <= j < r.value ==> !OccursAt(s, pattern, j)
    ensures r.None? ==> forall j :: from <= j ==> !OccursAt(s, pattern, j)
  {
    if from + |pattern| > |s| then None
    else if s[from..from + |pattern|] == pattern then Some(from)
    else IndexOfFrom(s, pattern, from + 1)
  }

  /** `s.indexOf(pattern)`: the first occurrence (an empty pattern occurs at 0). */
  function IndexOf(s: string, pattern: string): Option<nat> {
    IndexOfFrom(s, pattern, 0)
  }

  /**
   * The replacement text after `$`-pattern expansion, for a match without
   * capture groups: `$$` is `$`, `$&` the matched text, `` $` `` the text before
   * the match, `$'` the text after it; every other `$` stands for itself.
   */
  function Expand(template: string, matched: string, before: string, after: string): string
    decreases |template|
  {
    if template == [] then []
    else if template[0] == '$' && |template| >= 2 && template[1] in "$&`'" then
      var piece := match template[1]
        case '$' => "$"
        case '&' => matched
        case '`' => before
        case _ => after;
      piece + Expand(template[2..], matched, before, after)
    else [template[0]] + Expand(template[1..], matched, before, after)
  }

  /** Without a `$`, the replacement text is inserted literally. */
  lemma {:induction false} ExpandLiteral(template: string, matched: string, before: string, after: string)
    requires '$' !in template
    ensures Expand(template, matched, before, after) == template
    decreases |template|
  {
    if template != [] {
      assert '$' !in template[1..];
      ExpandLiteral(template[1..], matched, before, after);
    }
  }

  /** `s.replace(pattern, replacement)` for a string pattern: only the first occurrence is replaced. */
  function ReplaceFirst(s: string, pattern: string, replacement: string): (r: string)
    ensures IndexOf(s, pattern).None? ==> r == s
    ensures IndexOf(s, pattern).Some? ==>
      var i := IndexOf(s, pattern).value;
      var tail := s[i + |pattern|..];
      |r| >= i + |tail| && r[..i] == s[..i] && r[|r| - |tail|..] == tail
  {
    match IndexOf(s, pattern)
    case None => s
    case Some(i) =>
      var before, after := s[..i], s[i + |pattern|..];
      var middle := Expand(replacement, pattern, before, after);
      assert (before + middle + after)[..i] == before;
      assert (before + middle + after)[|before + middle|..] == after;
      before + middle + after
  }

  /** The body text ends with a closing brace. */
  predicate EndsWithBrace(body: string) {
    |body| > 0 && body[|body| - 1] == '}'
  }

  /** `body.replace(/}$/, replacement)`: only a brace that is the last character is replaced. */
  function ReplaceTrailingBrace(body: string, replacement: string): (r: string)
    ensures !EndsWithBrace(body) ==> r == body
    ensures EndsWithBrace(body) ==> |r| >= |body| - 1 && r[..|body| - 1] == body[..|body| - 1]
  {
    if EndsWithBrace(body) then
      var before := body[..|body| - 1];
      var expanded := Expand(replacement, "}", before, "");
      assert (before + expanded)[..|body| - 1] == before;
      before + expanded
    else body
  }

  /** The text that takes the place of the closing brace. */
  function InjectedText(newMethodCode: string): string {
    "\n" + newMethodCode + "\n}"
  }

  /** `addMethodToClass(javaCode, className, newMethodCode)` over the parsed top-level nodes. */
  function AddMethodToClass(javaCode: string, className: string, newMethodCode: string,
                            children: seq<TopLevelNode>): (r: Result<string, InjectError>)
    ensures r.Failure? <==> forall j :: 0 <= j < |children| ==> !IsTargetClass(children[j], className)
    ensures r.Failure? ==> r.error == ClassNotFound(className)
    ensures r.Success? ==>
      var body := children[FindClass(children, className).value].bodyText;
      && (IndexOf(javaCode, body).None? ==> r.value == javaCode)
      && (IndexOf(javaCode, body).Some? ==>
            var i := IndexOf(javaCode, body).value;
            var tail := javaCode[i + |body|..];
            |r.value| >= i + |tail| && r.value[..i] == javaCode[..i] && r.value[|r.value| - |tail|..] == tail)
  {
    match FindClass(children, className)
    case None => Failure(ClassNotFound(className))
    case Some(k) =>
      var classBody := children[k].bodyText;
      var updatedBody := ReplaceTrailingBrace(classBody, InjectedText(newMethodCode));
      Success(ReplaceFirst(javaCode, classBody, updatedBody))
  }

  // ---------------------------------------------------------------------
  // Properties
  // ---------------------------------------------------------------------

  /** Without `$` in the new method, a body ending in `}` gets the method before that brace. */
  lemma TrailingBraceRewrite(body: string, newMethodCode: string)
    requires '$' !in newMethodCode
    ensures EndsWithBrace(body) ==>
      ReplaceTrailingBrace(body, InjectedText(newMethodCode)) == body[..|body| - 1] + "\n" + newMethodCode + "\n}"
    ensures !EndsWithBrace(body) ==> ReplaceTrailingBrace(body, InjectedText(newMethodCode)) == body
  {
    assert '$' !in InjectedText(newMethodCode);
    ExpandLiteral(InjectedText(newMethodCode), "}", if EndsWithBrace(body) then body[..|body| - 1] else "", "");
  }

  /** Without `$` in the replacement, the first occurrence is replaced literally and nothing else changes. */
  lemma ReplaceFirstLiteral(s: string, pattern: string, replacement: string, i: nat)
    requires '$' !in replacement
    requires IndexOf(s, pattern) == Some(i)
    ensures ReplaceFirst(s, pattern, replacement) == s[..i] + replacement + s[i + |pattern|..]
  {
    ExpandLiteral(replacement, pattern, s[..i], s[i + |pattern|..]);
  }

  /**
   * The whole injection: when the class is found, its body text ends in `}`
   * and first occurs at `i`, and neither the body text nor the new method
   * contains `$`, the result is the source with the new method placed before
   * that body's closing brace, and every other character as it was.
   */
  lemma InjectionSplicesFirstOccurrence(javaCode: string, className: string, newMethodCode: string,
                                        children: seq<TopLevelNode>, k: nat, i: nat)
    requires FindClass(children, className) == Some(k)
    requires EndsWithBrace(children[k].bodyText)
    requires IndexOf(javaCode, children[k].bodyText) == Some(i)
    requires '$' !in children[k].bodyText && '$' !in newMethodCode
    ensures var body := children[k].bodyText;
      AddMethodToClass(javaCode, className, newMethodCode, children)
      == Success(javaCode[..i] + body[..|body| - 1] + "\n" + newMethodCode + "\n}" + javaCode[i + |body|..])
  {
    var body := children[k].bodyText;
    var updated := body[..|body| - 1] + "\n" + newMethodCode + "\n}";
    InjectedBodyIsLiteral(body, newMethodCode);
    ReplaceFirstLiteral(javaCode, body, updated, i);
    AddMethodToClassFound(javaCode, className, newMethodCode, children, k);
    SpliceAssociates(javaCode[..i], body[..|body| - 1], newMethodCode, javaCode[i + |body|..]);
  }

  /** The result when the target class is found: its body text replaced by the rewritten body. */
  lemma AddMethodToClassFound(javaCode: string, className: string, newMethodCode: string,
                              children: seq<TopLevelNode>, k: nat)
    requires FindClass(children, className) == Some(k)
    ensures var body := children[k].bodyText;
      AddMethodToClass(javaCode, className, newMethodCode, children)
      == Success(ReplaceFirst(javaCode, body, ReplaceTrailingBrace(body, InjectedText(newMethodCode))))
  {
  }

  /** Without `$` anywhere, the rewritten body is literal text, free of `$` itself. */
  lemma InjectedBodyIsLiteral(body: string, newMethodCode: string)
    requires EndsWithBrace(body)
    requires '$' !in body && '$' !in newMethodCode
    ensures ReplaceTrailingBrace(body, InjectedText(newMethodCode)) == body[..|body| - 1] + "\n" + newMethodCode + "\n}"
    ensures '$' !in body[..|body| - 1] + "\n" + newMethodCode + "\n}"
  {
    TrailingBraceRewrite(body, newMethodCode);
    var updated := body[..|body| - 1] + "\n" + newMethodCode + "\n}";
    assert forall c :: c in updated ==> c in body[..|body| - 1] || c in newMethodCode || c in "\n}";
  }

  /** Regrouping of the spliced text. */
  lemma SpliceAssociates(before: string, open: string, code: string, after: string)
    ensures before + (open + "\n" + code + "\n}") + after == before + open + "\n" + code + "\n}" + after
  {
  }


  /** The injected text stands exactly where the body's closing brace stood. */
  lemma InjectedMethodAppearsInResult(javaCode: string, className: string, newMethodCode: string,
                                      children: seq<TopLevelNode>, k: nat, i: nat)
    requires FindClass(children, className) == Some(k)
    requires EndsWithBrace(children[k].bodyText)
    requires IndexOf(javaCode, children[k].bodyText) == Some(i)
    requires '$' !in children[k].bodyText && '$' !in newMethodCode
    ensures var r := AddMethodToClass(javaCode, className, newMethodCode, children);
      r.Success? && OccursAt(r.value, "\n" + newMethodCode + "\n}", i + |children[k].bodyText| - 1)
  {
    InjectionSplicesFirstOccurrence(javaCode, className, newMethodCode, children, k, i);
    var body := children[k].bodyText;
    SpliceMiddle(javaCode[..i] + body[..|body| - 1], newMethodCode, javaCode[i + |body|..]);
  }

  /** The inserted piece of a splice sits right after the text in front of it. */
  lemma SpliceMiddle(front: string, code: string, tail: string)
    ensures OccursAt(front + "\n" + code + "\n}" + tail, "\n" + code + "\n}", |front|)
  {
    var ins := "\n" + code + "\n}";
    assert front + "\n" + code + "\n}" + tail == front + ins + tail;
    assert (front + ins + tail)[|front|..|front| + |ins|] == ins;
  }


  // ---------------------------------------------------------------------
  // The `$` patterns of the class body's own text
  // ---------------------------------------------------------------------

  /**
   * The second replacement also expands `$` patterns inside the rewritten
   * body, which holds the class body's own text.  A body `pre + "$'" + post`
   * (as in the Java character literal `'$'`) comes back with the source text
   * after the body in place of `$'`.
   */
  lemma DollarQuoteCorruptsBody(javaCode: string, className: string, newMethodCode: string,
                                children: seq<TopLevelNode>, k: nat, i: nat, pre: string, post: string)
    requires FindClass(children, className) == Some(k)
    requires children[k].bodyText == pre + "$'" + post + "}"
    requires IndexOf(javaCode, children[k].bodyText) == Some(i)
    requires '$' !in pre && '$' !in post && '$' !in newMethodCode
    ensures var after := javaCode[i + |children[k].bodyText|..];
      AddMethodToClass(javaCode, className, newMethodCode, children)
      == Success(javaCode[..i] + (pre + after + post + InjectedText(newMethodCode)) + after)
  {
    var body := children[k].bodyText;
    var updated := pre + ("$'" + (post + InjectedText(newMethodCode)));
    InjectedTailIsLiteral(post, newMethodCode);
    QuotedBodyFound(javaCode, className, newMethodCode, children, k, pre, post);
    QuotedBodySpliced(javaCode, body, updated, i, pre, post + InjectedText(newMethodCode));
    QuoteRegroup(pre, javaCode[i + |body|..], post, InjectedText(newMethodCode));
  }

  /** The code as written on a found body `pre + "$'" + post + "}"`: the rewritten body replaces the body text. */
  lemma QuotedBodyFound(javaCode: string, className: string, newMethodCode: string,
                        children: seq<TopLevelNode>, k: nat, pre: string, post: string)
    requires FindClass(children, className) == Some(k)
    requires children[k].bodyText == pre + "$'" + post + "}"
    requires '$' !in post && '$' !in newMethodCode
    ensures AddMethodToClass(javaCode, className, newMethodCode, children)
         == Success(ReplaceFirst(javaCode, children[k].bodyText, pre + ("$'" + (post + InjectedText(newMethodCode)))))
  {
    AddMethodToClassFound(javaCode, className, newMethodCode, children, k);
    BraceRewriteLiteral(pre + "$'" + post, newMethodCode);
    RegroupRight(pre, "$'", post, InjectedText(newMethodCode));
  }

  /** Regrouping of four pieces to the right. */
  lemma RegroupRight(a: string, b: string, c: string, d: string)
    ensures a + b + c + d == a + (b + (c + d))
  {
  }

  /** The second replacement with a rewritten body `pre + "$'" + rest`. */
  lemma QuotedBodySpliced(javaCode: string, body: string, updated: string, i: nat, pre: string, rest: string)
    requires IndexOf(javaCode, body) == Some(i)
    requires updated == pre + ("$'" + rest)
    requires '$' !in pre && '$' !in rest
    ensures ReplaceFirst(javaCode, body, updated)
         == javaCode[..i] + (pre + javaCode[i + |body|..] + rest) + javaCode[i + |body|..]
  {
    ReplaceFirstFound(javaCode, body, updated, i);
    QuoteExpansion(pre, rest, body, javaCode[..i], javaCode[i + |body|..]);
  }

  /** Without `$` in the new method, the first replacement turns `open + "}"` into `open` followed by the injected text. */
  lemma BraceRewriteLiteral(open: string, newMethodCode: string)
    requires '$' !in newMethodCode
    ensures ReplaceTrailingBrace(open + "}", InjectedText(newMethodCode)) == open + InjectedText(newMethodCode)
  {
    assert (open + "}")[..|open|] == open;
    assert '$' !in InjectedText(newMethodCode);
    ExpandLiteral(InjectedText(newMethodCode), "}", open, "");
  }

  /** The text after `$'` in the rewritten body contains no `$`. */
  lemma InjectedTailIsLiteral(post: string, newMethodCode: string)
    requires '$' !in post && '$' !in newMethodCode
    ensures '$' !in post + InjectedText(newMethodCode)
  {
    assert '$' !in InjectedText(newMethodCode);
  }


  /** Regrouping of the corrupted splice. */
  lemma QuoteRegroup(pre: string, after: string, post: string, injected: string)
    ensures pre + after + (post + injected) == pre + after + post + injected
  {
  }

  /** `s.replace(pattern, replacement)` when the pattern first occurs at `i`. */
  lemma ReplaceFirstFound(s: string, pattern: string, replacement: string, i: nat)
    requires IndexOf(s, pattern) == Some(i)
    ensures ReplaceFirst(s, pattern, replacement)
         == s[..i] + Expand(replacement, pattern, s[..i], s[i + |pattern|..]) + s[i + |pattern|..]
  {
  }

  /** `$'` behind a `$`-free piece expands to the text after the match. */
  lemma QuoteExpansion(pre: string, rest: string, matched: string, before: string, after: string)
    requires '$' !in pre && '$' !in rest
    ensures Expand(pre + ("$'" + rest), matched, before, after) == pre + after + rest
  {
    assert ("$'" + rest)[2..] == rest;
    assert Expand("$'" + rest, matched, before, after) == after + Expand(rest, matched, before, after);
    ExpandLiteral(rest, matched, before, after);
    ExpandPrefix(pre, "$'" + rest, matched, before, after);
  }

  /** A `$`-free piece in front is expanded on its own. */
  lemma {:induction false} ExpandPrefix(head: string, rest: string, matched: string, before: string, after: string)
    requires '$' !in head
    ensures Expand(head + rest, matched, before, after) == head + Expand(rest, matched, before, after)
    decreases |head|
  {
    if head != [] {
      var t := head + rest;
      assert t[0] == head[0] != '$';
      assert t[1..] == head[1..] + rest;
      assert '$' !in head[1..];
      ExpandPrefix(head[1..], rest, matched, before, after);
      calc {
        Expand(t, matched, before, after);
        [t[0]] + Expand(t[1..], matched, before, after);
        [head[0]] + (head[1..] + Expand(rest, matched, before, after));
        { assert head == [head[0]] + head[1..]; }
        head + Expand(rest, matched, before, after);
      }
    } else {
      assert head + rest == rest;
    }
  }


  /**
   * The evidently intended injection: the new method's text goes in front of
   * the class body's closing brace, and the rewritten body takes the place of
   * the body's first occurrence, both taken literally.
   */
  function InjectLiterally(javaCode: string, className: string, newMethodCode: string,
                           children: seq<TopLevelNode>): (r: Result<string, InjectError>)
    ensures r.Failure? <==> forall j :: 0 <= j < |children| ==> !IsTargetClass(children[j], className)
    ensures r.Failure? ==> r.error == ClassNotFound(className)
    ensures r.Success? && IndexOf(javaCode, children[FindClass(children, className).value].bodyText).None? ==>
      r.value == javaCode
  {
    match FindClass(children, className)
    case None => Failure(ClassNotFound(className))
    case Some(k) =>
      var body := children[k].bodyText;
      var updated := if EndsWithBrace(body) then body[..|body| - 1] + InjectedText(newMethodCode) else body;
      match IndexOf(javaCode, body)
      case None => Success(javaCode)
      case Some(i) => Success(javaCode[..i] + updated + javaCode[i + |body|..])
  }

  /**
   * Whatever the texts contain, the intended injection inserts
   * `"\n" + code + "\n"` right before the closing brace of the body's first
   * occurrence, and leaves every other character where it was.
   */
  lemma LiteralInjectionInsertsBeforeBrace(javaCode: string, className: string, newMethodCode: string,
                                           children: seq<TopLevelNode>, k: nat, i: nat)
    requires FindClass(children, className) == Some(k)
    requires EndsWithBrace(children[k].bodyText)
    requires IndexOf(javaCode, children[k].bodyText) == Some(i)
    ensures var at := i + |children[k].bodyText| - 1;
      && at < |javaCode| && javaCode[at] == '}'
      && InjectLiterally(javaCode, className, newMethodCode, children)
         == Success(javaCode[..at] + "\n" + newMethodCode + "\n" + javaCode[at..])
  {
    var body := children[k].bodyText;
    SplitAtBrace(javaCode, body, i);
    InjectLiterallyFound(javaCode, className, newMethodCode, children, k, i);
    InsertBeforeBrace(javaCode[..i], body[..|body| - 1], newMethodCode, javaCode[i + |body|..]);
  }

  /** Around an occurrence of a body ending in `}`, the source splits at that brace. */
  lemma SplitAtBrace(javaCode: string, body: string, i: nat)
    requires EndsWithBrace(body)
    requires OccursAt(javaCode, body, i)
    ensures var at := i + |body| - 1;
      && at < |javaCode| && javaCode[at] == '}'
      && javaCode[..at] == javaCode[..i] + body[..|body| - 1]
      && javaCode[at..] == "}" + javaCode[i + |body|..]
  {
    var at := i + |body| - 1;
    assert javaCode[i..i + |body|] == body;
    assert javaCode[at] == body[|body| - 1];
  }


  /** Regrouping of the intended splice as an insertion in front of the brace. */
  lemma InsertBeforeBrace(pre: string, open: string, code: string, tail: string)
    ensures pre + (open + InjectedText(code)) + tail == (pre + open) + "\n" + code + "\n" + ("}" + tail)
  {
  }

  /** The result of the intended injection when the class is found and its body text occurs at `i`. */
  lemma InjectLiterallyFound(javaCode: string, className: string, newMethodCode: string,
                             children: seq<TopLevelNode>, k: nat, i: nat)
    requires FindClass(children, className) == Some(k)
    requires IndexOf(javaCode, children[k].bodyText) == Some(i)
    ensures var body := children[k].bodyText;
      InjectLiterally(javaCode, className, newMethodCode, children)
      == Success(javaCode[..i]
                 + (if EndsWithBrace(body) then body[..|body| - 1] + InjectedText(newMethodCode) else body)
                 + javaCode[i + |body|..])
  {
  }

  /**
   * When neither the class bodies nor the new method contain `$`, the code
   * as written and the intended injection agree on every input.
   */
  lemma LiteralAgreesWithAsWritten(javaCode: string, className: string, newMethodCode: string,
                                   children: seq<TopLevelNode>)
    requires forall j :: 0 <= j < |children| ==> '$' !in children[j].bodyText
    requires '$' !in newMethodCode
    ensures AddMethodToClass(javaCode, className, newMethodCode, children)
         == InjectLiterally(javaCode, className, newMethodCode, children)
  {
    var found := FindClass(children, className);
    if found.Some? {
      var k := found.value;
      AddMethodToClassFound(javaCode, className, newMethodCode, children, k);
      var body := children[k].bodyText;
      if IndexOf(javaCode, body).Some? {
        var i := IndexOf(javaCode, body).value;
        InjectLiterallyFound(javaCode, className, newMethodCode, children, k, i);
        if EndsWithBrace(body) {
          AgreeOnBraceBody(javaCode, className, newMethodCode, children, k, i);
        } else {
          ReplaceFirstLiteral(javaCode, body, body, i);
        }
      }
    }
  }

  /** The agreement for a found body that ends in `}`. */
  lemma AgreeOnBraceBody(javaCode: string, className: string, newMethodCode: string,
                         children: seq<TopLevelNode>, k: nat, i: nat)
    requires FindClass(children, className) == Some(k)
    requires EndsWithBrace(children[k].bodyText)
    requires IndexOf(javaCode, children[k].bodyText) == Some(i)
    requires '$' !in children[k].bodyText && '$' !in newMethodCode
    ensures AddMethodToClass(javaCode, className, newMethodCode, children)
         == InjectLiterally(javaCode, className, newMethodCode, children)
  {
    var body := children[k].bodyText;
    var open := body[..|body| - 1];
    assert body == open + "}";
    assert '$' !in open by {
      assert forall c :: c in open ==> c in body;
    }
    BraceRewriteLiteral(open, newMethodCode);
    InjectedTailIsLiteral(open, newMethodCode);
    AddMethodToClassFound(javaCode, className, newMethodCode, children, k);
    ReplaceFirstLiteral(javaCode, body, open + InjectedText(newMethodCode), i);
    InjectLiterallyFound(javaCode, className, newMethodCode, children, k, i);
  }

}
