/**
 * `parseJavaFile` and `buildProjectStructure` of
 * test_controller/serverOLD.js: a per-file summary (package, class names,
 * public and private names) and the grouping of summaries by package.
 *
 * The grouping dictionary is a JavaScript object literal, so a lookup of a
 * key it does not own falls through to `Object.prototype`.  For a package
 * named like one of that prototype's members (`constructor`, `toString`,
 * `__proto__`, ...) the lookup is truthy, no entry is created, and the push
 * into the missing entry throws a TypeError.  `GroupAsWritten` and
 * `BuildProjectStructure` model that; `Grouped` is the grouping the code
 * evidently intends, and the two agree whenever no such name occurs.
 */
module ProjectStructure {
  import opened Wrappers
  import JavaScan

  /** The result of `parseJavaFile`. */
  datatype FileSummary = FileSummary(package: Option<string>, classes: seq<string>,
                                     publicNames: seq<string>, privateNames: seq<string>)

  /** One package's entry `{classes, public, private}`. */
  datatype PackageEntry = PackageEntry(classes: seq<string>, publicNames: seq<string>, privateNames: seq<string>)

  /** The error the grouping throws. */
  datatype JsError = TypeError

  /** The entry created the first time a package is seen. */
  const EmptyEntry: PackageEntry := PackageEntry([], [], [])

  /** The members of `Object.prototype`, which every object literal inherits. */
  const InheritedNames: set<string> := {
    "constructor", "__defineGetter__", "__defineSetter__", "hasOwnProperty",
    "__lookupGetter__", "__lookupSetter__", "isPrototypeOf", "propertyIsEnumerable",
    "toString", "valueOf", "__proto__", "toLocaleString"
  }

  /** JavaScript truthiness of the package: neither null nor the empty string. */
  predicate Truthy(package: Option<string>) {
    package.Some? && package.value != ""
  }

  /**
   * `parseJavaFile` on the text of a file.  The public and private name
   * lists come from scans this model does not describe and are passed in.
   */
  function ParseJavaFile(fileContent: string, publicNames: seq<string>, privateNames: seq<string>): (r: FileSummary)
    ensures r.package.Some? ==> Truthy(r.package)
    ensures r.package == JavaScan.PackageOf(fileContent) && r.classes == JavaScan.ClassNames(fileContent)
    ensures r.publicNames == publicNames && r.privateNames == privateNames
  {
    FileSummary(JavaScan.PackageOf(fileContent), JavaScan.ClassNames(fileContent), publicNames, privateNames)
  }

  /** A file's lists pushed onto an entry. */
  function Append(entry: PackageEntry, file: FileSummary): PackageEntry {
    PackageEntry(entry.classes + file.classes, entry.publicNames + file.publicNames,
                 entry.privateNames + file.privateNames)
  }

  /** The file is grouped under package `k`. */
  predicate HasPackage(file: FileSummary, k: string) {
    Truthy(file.package) && file.package.value == k
  }

  /** Every list of `b` continues the corresponding list of `a`. */
  predicate EntryExtends(a: PackageEntry, b: PackageEntry) {
    a.classes <= b.classes && a.publicNames <= b.publicNames && a.privateNames <= b.privateNames
  }

  // ---------------------------------------------------------------------
  // The intended grouping
  // ---------------------------------------------------------------------

  /** One iteration of the loop, with a dictionary that owns its keys only. */
  function AddFile(structure: map<string, PackageEntry>, file: FileSummary): (r: map<string, PackageEntry>)
    ensures !Truthy(file.package) ==> r == structure
    ensures Truthy(file.package) ==> r.Keys == structure.Keys + {file.package.value}
    ensures forall k :: k in structure && !HasPackage(file, k) ==> k in r && r[k] == structure[k]
    ensures Truthy(file.package) && file.package.value !in structure ==>
      r[file.package.value] == PackageEntry(file.classes, file.publicNames, file.privateNames)
    ensures Truthy(file.package) && file.package.value in structure ==>
      EntryExtends(structure[file.package.value], r[file.package.value])
  {
    if Truthy(file.package) then
      var k := file.package.value;
      var entry := if k in structure then structure[k] else EmptyEntry;
      structure[k := Append(entry, file)]
    else structure
  }

  /** The dictionary after the loop has processed `files`, in order. */
  function Grouped(files: seq<FileSummary>): map<string, PackageEntry> {
    if files == [] then map[] else AddFile(Grouped(files[..|files| - 1]), files[|files| - 1])
  }

  /** The concatenation, in file order, of the lists of the files grouped under `k`. */
  function Collected(files: seq<FileSummary>, k: string): PackageEntry {
    if files == [] then EmptyEntry
    else
      var prev := Collected(files[..|files| - 1], k);
      if HasPackage(files[|files| - 1], k) then Append(prev, files[|files| - 1]) else prev
  }

  /** A package has an entry exactly when some file is grouped under it; files without a package add none. */
  lemma {:induction false} GroupedKeys(files: seq<FileSummary>, k: string)
    ensures k in Grouped(files) <==> exists i :: 0 <= i < |files| && HasPackage(files[i], k)
    decreases |files|
  {
    if files != [] {
      var prefix := files[..|files| - 1];
      GroupedKeys(prefix, k);
      if exists i :: 0 <= i < |files| && HasPackage(files[i], k) {
        var i :| 0 <= i < |files| && HasPackage(files[i], k);
        if i < |prefix| {
          assert prefix[i] == files[i];
        }
      } else {
        assert forall i :: 0 <= i < |prefix| ==> prefix[i] == files[i];
      }
    }
  }

  /** Each package's lists are those of its files, concatenated in file order. */
  lemma {:induction false} GroupedCollectsByPackage(files: seq<FileSummary>, k: string)
    requires k in Grouped(files)
    ensures Grouped(files)[k] == Collected(files, k)
    decreases |files|
  {
    var prefix, last := files[..|files| - 1], files[|files| - 1];
    if k in Grouped(prefix) {
      GroupedCollectsByPackage(prefix, k);
    } else {
      assert HasPackage(last, k);
      NoEntryCollectsNothing(prefix, k);
    }
  }

  /** A package without an entry has collected nothing. */
  lemma {:induction false} NoEntryCollectsNothing(files: seq<FileSummary>, k: string)
    requires k !in Grouped(files)
    ensures Collected(files, k) == EmptyEntry
    decreases |files|
  {
    if files != [] {
      NoEntryCollectsNothing(files[..|files| - 1], k);
    }
  }

  /** An entry is never reset: later files only append to its lists. */
  lemma {:induction false} EntriesOnlyGrow(files: seq<FileSummary>, n: nat, k: string)
    requires n <= |files| && k in Grouped(files[..n])
    ensures k in Grouped(files) && EntryExtends(Grouped(files[..n])[k], Grouped(files)[k])
    decreases |files| - n
  {
    if n == |files| {
      assert files[..n] == files;
    } else {
      assert files[..n + 1][..n] == files[..n];
      EntriesOnlyGrow(files, n + 1, k);
    }
  }

  // ---------------------------------------------------------------------
  // The grouping as written
  // ---------------------------------------------------------------------

  /** The loop stops with a TypeError on this file. */
  predicate Throws(file: FileSummary) {
    Truthy(file.package) && file.package.value in InheritedNames
  }

  /**
   * One iteration of the loop as written: `!projectStructure[pkg]` also sees
   * inherited members, and pushing into such a member's missing `classes`
   * list throws.
   */
  function AddFileAsWritten(structure: map<string, PackageEntry>, file: FileSummary): (r: Result<map<string, PackageEntry>, JsError>)
    ensures r.Failure? <==> Throws(file) && file.package.value !in structure
    ensures r.Failure? ==> r.error == TypeError
    ensures r.Success? ==> r.value == AddFile(structure, file)
  {
    if !Truthy(file.package) then Success(structure)
    else
      var k := file.package.value;
      var present := k in structure || k in InheritedNames;
      var created := if present then structure else structure[k := EmptyEntry];
      if k in created then Success(created[k := Append(created[k], file)])
      else Failure(TypeError)
  }

  /** `buildProjectStructure` over the summaries of the listed files, in order. */
  function GroupAsWritten(files: seq<FileSummary>): (r: Result<map<string, PackageEntry>, JsError>)
    ensures r.Failure? ==> r.error == TypeError
    ensures r.Success? ==> forall k :: k in r.value ==> k !in InheritedNames
  {
    if files == [] then Success(map[])
    else match GroupAsWritten(files[..|files| - 1])
      case Failure(e) => Failure(e)
      case Success(m) => AddFileAsWritten(m, files[|files| - 1])
  }

  /** The grouping as written throws exactly when some file's package is an inherited name, and otherwise is the intended one. */
  lemma {:induction false} AsWrittenMatchesGrouped(files: seq<FileSummary>)
    ensures GroupAsWritten(files).Failure? <==> exists i :: 0 <= i < |files| && Throws(files[i])
    ensures GroupAsWritten(files).Success? ==> GroupAsWritten(files).value == Grouped(files)
    decreases |files|
  {
    if files != [] {
      var prefix := files[..|files| - 1];
      AsWrittenMatchesGrouped(prefix);
      assert forall i :: 0 <= i < |prefix| ==> prefix[i] == files[i];
      if GroupAsWritten(prefix).Success? {
        GroupedKeysAvoidInheritedNames(prefix);
      }
    }
  }

  /** Without a throw, no inherited name is ever a key. */
  lemma GroupedKeysAvoidInheritedNames(files: seq<FileSummary>)
    requires forall i :: 0 <= i < |files| ==> !Throws(files[i])
    ensures forall k :: k in Grouped(files) ==> k !in InheritedNames
  {
    forall k | k in Grouped(files)
      ensures k !in InheritedNames
    {
      GroupedKeys(files, k);
    }
  }

  /** A package named `constructor` makes the grouping throw. */
  lemma InheritedPackageNameThrows(classes: seq<string>)
    ensures GroupAsWritten([FileSummary(Some("constructor"), classes, [], [])]) == Failure(TypeError)
  {
    var files := [FileSummary(Some("constructor"), classes, [], [])];
    assert files[..0] == [];
  }

  /** Once the loop has thrown, the whole call has thrown. */
  lemma {:induction false} FailureIsFinal(files: seq<FileSummary>, n: nat)
    requires n <= |files| && GroupAsWritten(files[..n]).Failure?
    ensures GroupAsWritten(files) == GroupAsWritten(files[..n])
    decreases |files| - n
  {
    if n == |files| {
      assert files[..n] == files;
    } else {
      assert files[..n + 1][..n] == files[..n];
      FailureIsFinal(files, n + 1);
    }
  }

  /** `buildProjectStructure`: the `forEach` loop that fills the dictionary in place. */
  method BuildProjectStructure(files: seq<FileSummary>) returns (r: Result<map<string, PackageEntry>, JsError>)
    ensures r == GroupAsWritten(files)
    ensures r.Failure? <==> exists i :: 0 <= i < |files| && Throws(files[i])
    ensures r.Success? ==> r.value == Grouped(files)
  {
    AsWrittenMatchesGrouped(files);
    var projectStructure: map<string, PackageEntry> := map[];
    for i := 0 to |files|
      invariant GroupAsWritten(files[..i]) == Success(projectStructure)
    {
      assert files[..i + 1][..i] == files[..i];
      var parsedData := files[i];
      if Truthy(parsedData.package) {
        var package := parsedData.package.value;
        if !(package in projectStructure || package in InheritedNames) {
          projectStructure := projectStructure[package := EmptyEntry];
        }
        if package !in projectStructure {
          FailureIsFinal(files, i + 1);
          return Failure(TypeError);
        }
        projectStructure := projectStructure[package := Append(projectStructure[package], parsedData)];
      }
    }
    assert files[..|files|] == files;
    r := Success(projectStructure);
  }
}
