/**
 * `JavaStructureListener` of test_controller/server.js as an object that is
 * updated in place, and the two drivers that use it: `parseJavaFile`, which
 * walks one parse tree with a fresh listener, and `parseJavaPackage`, which
 * does so for every file of a listing.
 *
 * Class records are objects: the listener's list and its `currentClass` slot
 * alias the same record, and method and field callbacks push into that
 * record's lists.  `State()` reads the object graph back as the value that
 * the pure machine of module JavaStructure describes.
 */
module StructureListener {
  import opened Wrappers
  import opened JavaStructure

  /** A class record `{name, methods: [], variables: []}` whose lists grow in place. */
  class ClassRecord {
    const name: string
    var methods: seq<string>
    var variables: seq<string>

    constructor (name: string)
      ensures this.name == name && methods == [] && variables == []
    {
      this.name := name;
      methods := [];
      variables := [];
    }

    /** The record's current contents. */
    function Info(): ClassInfo
      reads this
    {
      ClassInfo(name, methods, variables)
    }
  }

  /** The contents of a list of records, in list order. */
  function Infos(records: seq<ClassRecord>): (s: seq<ClassInfo>)
    reads records
    ensures |s| == |records|
  {
    if records == [] then [] else Infos(records[..|records| - 1]) + [records[|records| - 1].Info()]
  }

  class JavaStructureListener {
    var classes: seq<ClassRecord>      // structure.classes
    var currentClass: ClassRecord?     // null, or the record being filled
    ghost var Repr: set<object>        // the listener and every record it created

    /**
     * The slot is empty or holds the last record, which appears nowhere
     * earlier in the list (so pushing into it changes no other record).
     */
    ghost predicate Valid()
      reads this
    {
      && this in Repr
      && (currentClass != null ==>
            && |classes| > 0
            && currentClass == classes[|classes| - 1]
            && currentClass !in classes[..|classes| - 1]
            && currentClass in Repr)
    }

    /** The listener as a value of the pure machine. */
    function State(): (l: Listener)
      reads this, classes
      requires Valid()
      ensures WellFormed(l)
    {
      Listener(Infos(classes), if currentClass == null then None else Some(|classes| - 1))
    }

    constructor ()
      ensures Valid() && State() == Initial && fresh(Repr)
      ensures classes == [] && currentClass == null
    {
      classes := [];
      currentClass := null;
      Repr := {this};
    }

    /** A new record becomes current and is pushed onto the list. */
    method EnterClassDeclaration(className: string)
      requires Valid()
      modifies this
      ensures Valid()
      ensures fresh(currentClass) && classes == old(classes) + [currentClass]
      ensures Repr == old(Repr) + {currentClass}
      ensures State() == Step(old(State()), EnterClass(className))
    {
      ghost var prior := classes;
      ghost var before := Infos(prior);
      var c := new ClassRecord(className);
      assert c !in prior;
      currentClass := c;
      classes := classes + [c];
      Repr := Repr + {c};
      assert Infos(classes) == before + [ClassInfo(className, [], [])] by {
        assert classes[..|classes| - 1] == prior;
      }
      assert State() == Listener(before + [ClassInfo(className, [], [])], Some(|prior|));
    }

    /** The slot is cleared; an enclosing class is not restored. */
    method ExitClassDeclaration()
      requires Valid()
      modifies this
      ensures Valid()
      ensures currentClass == null && classes == old(classes) && Repr == old(Repr)
      ensures State() == Step(old(State()), ExitClass)
    {
      currentClass := null;
    }

    /** The method name is pushed onto the current record's methods, if there is one. */
    method EnterMethodDeclaration(methodName: string)
      requires Valid()
      modifies currentClass
      ensures Valid()
      ensures currentClass != null ==> currentClass.methods == old(currentClass.methods) + [methodName]
      ensures State() == Step(old(State()), EnterMethod(methodName))
    {
      if currentClass != null {
        ghost var prefix := Infos(classes[..|classes| - 1]);
        currentClass.methods := currentClass.methods + [methodName];
        assert Infos(classes) == prefix + [currentClass.Info()];
      }
    }

    /** The declarator names are pushed, in order, onto the current record's variables, if there is one. */
    method EnterFieldDeclaration(variableNames: seq<string>)
      requires Valid()
      modifies currentClass
      ensures Valid()
      ensures currentClass != null ==> currentClass.variables == old(currentClass.variables) + variableNames
      ensures State() == Step(old(State()), EnterField(variableNames))
    {
      if currentClass != null {
        ghost var prefix := Infos(classes[..|classes| - 1]);
        currentClass.variables := currentClass.variables + variableNames;
        assert Infos(classes) == prefix + [currentClass.Info()];
      }
    }

    /** The parse-tree walker's call of the callback that matches `e`. */
    method Dispatch(e: Event)
      requires Valid()
      modifies this, currentClass
      ensures Valid()
      ensures fresh(Repr - old(Repr))
      ensures State() == Step(old(State()), e)
    {
      match e
      case EnterClass(name) => EnterClassDeclaration(name);
      case ExitClass => ExitClassDeclaration();
      case EnterMethod(name) => EnterMethodDeclaration(name);
      case EnterField(names) => EnterFieldDeclaration(names);
    }
  }

  /**
   * `ParseTreeWalker.DEFAULT.walk(listener, tree)` with a fresh listener:
   * the callbacks of the walk, in order.
   */
  method Walk(walk: seq<Event>) returns (listener: JavaStructureListener)
    ensures listener.Valid() && fresh(listener.Repr)
    ensures listener.State() == Extract(walk)
  {
    listener := new JavaStructureListener();
    for i := 0 to |walk|
      invariant listener.Valid() && fresh(listener.Repr)
      invariant listener.State() == Run(Initial, walk[..i])
    {
      ghost var before := listener.State();
      listener.Dispatch(walk[i]);
      RunSnoc(Initial, walk[..i], walk[i]);
      assert walk[..i + 1] == walk[..i] + [walk[i]];
    }
    assert walk[..|walk|] == walk;
  }

  /** `parseJavaFile`: the class records a fresh listener collects from one parse tree. */
  method ParseJavaFile(walk: seq<Event>) returns (structure: seq<ClassInfo>)
    ensures structure == Extract(walk).classes
    ensures structure == Reference(walk)
  {
    var listener := Walk(walk);
    structure := Infos(listener.classes);
    ExtractIsReference(walk);
  }

  /** One entry of a package listing: the file and the classes found in it. */
  datatype FileEntry = FileEntry(file: string, structure: seq<ClassInfo>)

  /**
   * Parses every listed file, in listing order.  `walkOf` stands for reading
   * a file and walking its parse tree.
   */
  method ParseJavaPackage(javaFiles: seq<string>, walkOf: string -> seq<Event>) returns (packageStructure: seq<FileEntry>)
    ensures |packageStructure| == |javaFiles|
    ensures forall i :: 0 <= i < |javaFiles| ==>
      packageStructure[i] == FileEntry(javaFiles[i], Reference(walkOf(javaFiles[i])))
  {
    packageStructure := [];
    for i := 0 to |javaFiles|
      invariant |packageStructure| == i
      invariant forall j :: 0 <= j < i ==>
        packageStructure[j] == FileEntry(javaFiles[j], Reference(walkOf(javaFiles[j])))
    {
      var file := javaFiles[i];
      var structure := ParseJavaFile(walkOf(file));
      packageStructure := packageStructure + [FileEntry(file, structure)];
    }
  }
}
