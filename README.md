# Java source inspectors — a Dafny model

This project models the core of two small Java source inspectors written in JavaScript:

- `test_controller/server.js` walks an ANTLR parse tree of a Java file with a listener
  (`JavaStructureListener`). The listener collects one record `{name, methods, variables}`
  per class declaration. `parseJavaPackage` does this for every file of a listing.
  `addMethodToClass` puts the text of a new method in front of the closing brace of a named class.
- `test_controller/serverOLD.js` is the older, regular-expression-based inspector. It scans each
  file for its `package` and its `class` names. `buildProjectStructure` then groups the per-file
  summaries by package.

Modules:

- `JavaStructure` (java_structure.dfy): the listener as a pure state machine.
  - The parse-tree walk is a sequence of callbacks (`Event`). `Step` is one callback and `Run` is a walk.
  - `Reference` is an independent description of what the walk collects.
  - The main theorem, `ExtractIsReference`, says that a fresh listener collects exactly `Reference`.
- `StructureListener` (structure_listener.dfy): the listener as an object updated in place.
  - Class records are objects. The `classes` list and the `currentClass` slot alias them.
  - Each callback method is proved to perform `JavaStructure.Step`.
  - It also holds the two drivers, `ParseJavaFile` and `ParseJavaPackage`.
- `MethodInjector` (method_injector.dfy): `addMethodToClass`.
  - It finds the first matching class, runs `body.replace(/}$/, …)`, then `javaCode.replace(body, …)`.
  - Both replacements follow JavaScript's `String.prototype.replace`, including the `$`-pattern
    expansion of the replacement text (`$$`, `$&`, `` $` ``, `$'`).
  - The splice properties of the code as written are proved for texts without `$`. Preservation of
    the text before and after the replaced occurrence is proved for all texts.
  - `InjectLiterally` is the intended injection, with both texts taken literally. It is proved to
    insert the new method before the closing brace for all texts, and to agree with the code as
    written when nothing contains `$`.
- `JavaScan` (java_scan.dfy): the scans `/package\s+([\w.]+);/` and `/class\s+(\w+)/g`, character by character.
  - Each scan is proved sound and complete against a declarative statement of a regex match.
  - The global class scan is proved to be the unique leftmost, non-overlapping search.
- `ProjectStructure` (project_structure.dfy): `parseJavaFile` of serverOLD.js and `buildProjectStructure`.
  - The grouping is modelled as written, including a TypeError on some package names (see Findings).
  - It is also modelled as intended (`Grouped`). The two are proved to agree whenever that error cannot occur.

Facts about the code that shape the model:

- The listener keeps a single `currentClass` slot, not a stack of open classes, and sets it to
  `null` on every class exit. So members that follow a nested class are credited to no class
  (`MembersAfterExitAreDropped`, `NestedExitLeavesOuterClassEmpty`).
- The injector does not splice at parser offsets. It replaces the first textual occurrence of the
  class body's `getText()` in the source, and that replacement expands `$` patterns (see Findings).
- Only nodes whose constructor is `ClassDeclarationContext` are candidates for injection;
  interfaces, enums and records are not.
- Each class record keeps its field names in a list called `variables`.

## Model

| member | source | states |
|---|---|---|
| `JavaStructure.Step` | test_controller/server.js:34-62 | An enter-class callback adds one record at the end: a new, empty record named after the class, which becomes current. An exit clears the slot and changes nothing else. A method or field callback keeps the slot, and with no current class it changes nothing. The slot stays empty or designates the last record. |
| `JavaStructure.StepFrame` | test_controller/server.js:41-60 | No callback removes, reorders or shortens a record. A method or field callback touches only the current record: its methods gain the method name, or its variables gain the declarator names, at the end. |
| `JavaStructure.Run` | test_controller/server.js:25-63 | Over any walk, the slot stays empty or designates the last record. |
| `JavaStructure.RunIsPendingThenReference` | test_controller/server.js:34-62 | From any listener state, a walk gives the current record (if any) every member name reported before the next class boundary, then adds the reference records. |
| `JavaStructure.ExtractIsReference` | test_controller/server.js:34-62 | A fresh listener collects one record per enter-class event, in event order. Each record holds the method and field names reported after its enter-class event and before the next enter or exit of any class, in order. |
| `JavaStructure.ReferenceNames` | test_controller/server.js:39-41 | The reference has one record per enter-class event, named by that event, in order. |
| `JavaStructure.ClassRecordsFollowEnterEvents` | test_controller/server.js:34-42 | The number of class records equals the number of enter-class events, and their names follow those events in order. |
| `JavaStructure.RunOnlyGrows` | test_controller/server.js:41-60 | No walk removes or reorders a record. No walk changes a record's name or anything already in its methods or variables. Lists only grow at the end. |
| `JavaStructure.MembersAfterExitAreDropped` | test_controller/server.js:44-62 | After an exit, method and field events leave the listener unchanged until the next enter-class event, even when an enclosing class is still open. |
| `JavaStructure.NestedExitLeavesOuterClassEmpty` | test_controller/server.js:44-53 | In `class Outer { class Inner {} void m() {} }`, `m` belongs to neither class. |
| `StructureListener.ClassRecord.constructor` | test_controller/server.js:40 | A new record has the class name and empty method and variable lists. |
| `StructureListener.JavaStructureListener.constructor` | test_controller/server.js:26-32 | A new listener has no classes and no current class. |
| `StructureListener.JavaStructureListener.EnterClassDeclaration` | test_controller/server.js:34-42 | A fresh record becomes current and is pushed at the end of the list. The state moves by `Step`. |
| `StructureListener.JavaStructureListener.ExitClassDeclaration` | test_controller/server.js:44-46 | The slot is set to null and the list is unchanged. The state moves by `Step`. |
| `StructureListener.JavaStructureListener.EnterMethodDeclaration` | test_controller/server.js:48-53 | Only the current record's methods may change, and they gain the name at the end. The state moves by `Step`. |
| `StructureListener.JavaStructureListener.EnterFieldDeclaration` | test_controller/server.js:55-62 | Only the current record's variables may change, and they gain all declarator names, in order, at the end. The state moves by `Step`. |
| `StructureListener.JavaStructureListener.Dispatch` | test_controller/server.js:76 | The walker's call of the matching callback moves the state by `Step` and only adds fresh records. |
| `StructureListener.Walk` | test_controller/server.js:75-76 | A fresh listener driven by the whole callback sequence ends in the state that the pure machine reaches from the initial state. |
| `StructureListener.ParseJavaFile` | test_controller/server.js:66-79 | Walking a tree with a fresh listener yields exactly the reference records of its callback sequence. |
| `StructureListener.ParseJavaPackage` | test_controller/server.js:82-93 | There is exactly one `{file, structure}` entry per listed file, in listing order. Each entry's structure is that file's reference records. |
| `MethodInjector.FindClass` | test_controller/server.js:108-111 | Returns the index of the first class declaration whose identifier equals the name exactly. It finds none exactly when no node is such a declaration. |
| `MethodInjector.IndexOfFrom` | test_controller/server.js:127 | Returns the first position at or after the start where the pattern occurs, and none exactly when it does not occur there. |
| `MethodInjector.ExpandLiteral` | test_controller/server.js:121-127 | In the `$`-pattern expansion that both replacements perform (`Expand`), a replacement text without `$` is inserted literally. |
| `MethodInjector.QuoteExpansion` | test_controller/server.js:127 | In the expansion, `$'` behind a `$`-free piece stands for the text after the match. |
| `MethodInjector.ReplaceFirst` | test_controller/server.js:127 | If the pattern does not occur, the text is unchanged. Otherwise the text before its first occurrence and the text after that occurrence are kept byte for byte. |
| `MethodInjector.ReplaceTrailingBrace` | test_controller/server.js:121-124 | A body whose last character is not `}` is unchanged. Otherwise everything before that brace is kept. |
| `MethodInjector.TrailingBraceRewrite` | test_controller/server.js:121-124 | With no `$` in the new method, a body ending in `}` becomes `body[..n-1] + "\n" + code + "\n}"`. Any other body is unchanged. |
| `MethodInjector.ReplaceFirstLiteral` | test_controller/server.js:127 | With no `$` in the replacement, only the first occurrence is replaced, literally. |
| `MethodInjector.AddMethodToClass` | test_controller/server.js:98-129 | Fails with "Class not found" exactly when no top-level class declaration has the name. If the body text does not occur in the source, the source is returned unchanged. Otherwise the text around the replaced occurrence is kept. |
| `MethodInjector.InjectionSplicesFirstOccurrence` | test_controller/server.js:108-127 | The class is found and its body ends in `}`. The body first occurs at `i`, and nothing contains `$`. Then the result is the source with the new method before that body's closing brace, and every other character is unchanged. |
| `MethodInjector.InjectedMethodAppearsInResult` | test_controller/server.js:118-127 | Under the same conditions, `"\n" + code + "\n}"` stands exactly where the body's closing brace stood. |
| `MethodInjector.DollarQuoteCorruptsBody` | test_controller/server.js:118-128 | A found class body `pre + "$'" + post + "}"` (as in the Java literal `'$'`) is put back with the source text after the body in place of `$'`, followed by the new method. |
| `MethodInjector.InjectLiterally` | test_controller/server.js:108-128 | The intended injection fails exactly when no top-level class declaration has the name, with "Class not found". It returns the source unchanged when the body text does not occur. |
| `MethodInjector.LiteralInjectionInsertsBeforeBrace` | test_controller/server.js:118-128 | For any texts, the intended injection inserts `"\n" + code + "\n"` right before the closing brace of the body's first occurrence. Every other character stays in place. |
| `MethodInjector.LiteralAgreesWithAsWritten` | test_controller/server.js:108-128 | When neither any class body nor the new method contains `$`, the code as written and the intended injection give the same result for every input. |
| `JavaScan.PackageMatchAt` | test_controller/serverOLD.js:36 | A match at a position captures a non-empty run of `[\w.]` characters. |
| `JavaScan.PackageMatchAtSound` | test_controller/serverOLD.js:36 | Every reported match is `package`, then white space, then the capture, then `;`. |
| `JavaScan.PackageMatchAtComplete` | test_controller/serverOLD.js:36 | Every way the expression can match at a position is the one reported. |
| `JavaScan.FirstPackageMatch` | test_controller/serverOLD.js:36 | Returns the leftmost matching position, and none exactly when nothing matches. |
| `JavaScan.PackageOf` | test_controller/serverOLD.js:36-38 | The package is null exactly when the expression matches nowhere. A non-null package is a non-empty run of `[\w.]`. |
| `JavaScan.PackageIsLeftmostMatch` | test_controller/serverOLD.js:36-38 | The package is the capture of the leftmost match. |
| `JavaScan.ClassMatchAt` | test_controller/serverOLD.js:41 | A match at a position ends after it and captures a non-empty run of `\w`. |
| `JavaScan.ClassMatchAtSound` | test_controller/serverOLD.js:41 | Every reported match is `class`, then white space, then a maximal word, and it ends after that word. |
| `JavaScan.ClassMatchAtComplete` | test_controller/serverOLD.js:41 | Every way the expression can match at a position is the one reported. |
| `JavaScan.NextClassMatch` | test_controller/serverOLD.js:41 | Returns the leftmost match at or after a position, and none exactly when there is none. |
| `JavaScan.ClassMatches` | test_controller/serverOLD.js:41 | The matches are a global search. Each match is the leftmost one from where the previous match ended, and no match follows the last. |
| `JavaScan.MatchAllIsUnique` | test_controller/serverOLD.js:41 | A global search has exactly one outcome. |
| `JavaScan.MatchAllInOrder` | test_controller/serverOLD.js:41 | The matches of a global search are real matches, in order of appearance, and none overlap. |
| `JavaScan.Captures` | test_controller/serverOLD.js:42 | One name per match, the match's capture, in order. |
| `JavaScan.MatchAllIsDetermined` | test_controller/serverOLD.js:41 | Every global search from a position is the one the scan performs. |
| `JavaScan.ClassNames` | test_controller/serverOLD.js:41-42 | The class names are the captures of the global search, in match order. |
| `JavaScan.ClassNamesAreWords` | test_controller/serverOLD.js:41-42 | Every class name is a non-empty run of word characters. |
| `JavaScan.NoWordBoundaryBeforeClass` | test_controller/serverOLD.js:41 | `class` preceded by any text still matches, because the expression has no word boundary. |
| `JavaScan.SubclassYieldsName` | test_controller/serverOLD.js:41-42 | `subclass X` yields the class name `X`. |
| `ProjectStructure.ParseJavaFile` | test_controller/serverOLD.js:25-53 | The summary's package is the package scan and its classes are the class scan. A non-null package is never the empty string. The public and private lists are passed through. |
| `ProjectStructure.AddFile` | test_controller/serverOLD.js:62-73 | A file without a package changes nothing. Otherwise only its own package's entry changes. That entry is created once, with the file's lists, and after that only grows. |
| `ProjectStructure.GroupedKeys` | test_controller/serverOLD.js:59-76 | A package has an entry exactly when some file has that package. Files with a null package add no entry. |
| `ProjectStructure.GroupedCollectsByPackage` | test_controller/serverOLD.js:71-73 | A package's classes, public and private lists are those of its files, concatenated in file order. |
| `ProjectStructure.EntriesOnlyGrow` | test_controller/serverOLD.js:63-73 | An entry is never reset. Processing more files only appends to its lists. |
| `ProjectStructure.AddFileAsWritten` | test_controller/serverOLD.js:62-73 | One iteration as written throws a TypeError exactly when the file's package names an `Object.prototype` member that is not yet a key. Otherwise it does what the intended iteration `AddFile` does. |
| `ProjectStructure.GroupAsWritten` | test_controller/serverOLD.js:56-79 | The grouping as written can only throw a TypeError. When it returns, no `Object.prototype` member name is a key. |
| `ProjectStructure.AsWrittenMatchesGrouped` | test_controller/serverOLD.js:56-79 | The grouping as written throws exactly when some file's package names an `Object.prototype` member. Otherwise it equals the intended grouping. |
| `ProjectStructure.InheritedPackageNameThrows` | test_controller/serverOLD.js:63-71 | A file with `package constructor;` makes the grouping throw a TypeError. |
| `ProjectStructure.FailureIsFinal` | test_controller/serverOLD.js:59-76 | Once an iteration throws, the whole call throws the same error. |
| `ProjectStructure.BuildProjectStructure` | test_controller/serverOLD.js:56-79 | The loop computes the grouping as written. It throws exactly on an inherited package name, and otherwise returns the intended grouping. |

## Left out

- File-system access (`listJavaFiles`, `getJavaFiles`, `readFileSync`, `writeFileSync`) is not modelled.
  File listings, file contents and per-file parse results are inputs instead.
- The ANTLR lexer, parser, `ParseTreeWalker` and `getText()` are generated code.
  - A walk is its sequence of listener callbacks, each carrying the identifier text it reads.
  - Top-level nodes are `(kind, identifier, bodyText)` records. The model assumes class declarations
    appear as direct children of the compilation unit and answer `Identifier()`. The listener reads
    names with `identifier()` (server.js:39) and the injector with `Identifier()` (server.js:110);
    with a grammar whose class declarations sit under a type-declaration wrapper, or that has no
    `Identifier()` accessor there, the injector's search would never match. The grammar is not part of this model.
  - `getText()` drops hidden whitespace, so a body text often does not occur verbatim in the
    source. The model takes the body text as given, and then the source comes back unchanged.
- The public and private modifier-chain scans (test_controller/serverOLD.js:45-50) are not
  modelled; their per-file results are inputs to `ProjectStructure.ParseJavaFile`.
- The Express endpoint, `app.listen`, the demo driver code with its hard-coded paths, and all
  `console.log` calls are not modelled: they are network and console plumbing.
- The key order of the grouped dictionary is not modelled. A JSON object lists integer-like keys
  first and the rest in insertion order; the model uses a `map`.
- The scans run on UTF-16 code units; the model runs on Unicode scalar values. The two differ only
  for characters outside the Basic Multilingual Plane, and none of the character classes contain such characters.
- Parse errors are not modelled: the parser's error recovery is part of the generated code.
- Extracting structure again from the injector's output is not modelled, because it would need the parser.
- `push(...list)` can throw a RangeError for very long lists. The model treats lists as unbounded.
- `ParseJavaFile` (server.js) returns `listener.structure`, an object whose `classes` list holds
  the live records. The model returns the records' values.

## Findings

| source | as written | input that shows it | evidently intended | confidence | as-written member | corrected member |
|---|---|---|---|---|---|---|
| test_controller/serverOLD.js:63-73 | `!projectStructure[pkg]` also sees the members of `Object.prototype`. For such a package no entry is created, and `.classes.push` on the missing entry throws a TypeError, which ends the whole call. | a Java file containing `package constructor;` (also `toString`, `valueOf`, `__proto__`, …) | every package name gets its own entry | high; not executed | `ProjectStructure.InheritedPackageNameThrows` | `ProjectStructure.GroupedCollectsByPackage` |
| test_controller/server.js:127 | `javaCode.replace(classBody, updatedBody)` expands `$` patterns in `updatedBody`, which holds the class body's own text. `$'` becomes the source after the body, `` $` `` the source before it, `$&` the body, `$$` a single `$`. | class `A` whose body is `{c='$';}` in the source `class A {c='$';}//x`, new method `m` (`pre` is `{c='`, `post` is `;`): the result is `class A {c='//x;\nm\n}//x` | the body is put back literally, with only the new method added | high; not executed | `MethodInjector.DollarQuoteCorruptsBody` | `MethodInjector.LiteralInjectionInsertsBeforeBrace` |
