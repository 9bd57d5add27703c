/**
 * The structure-collecting parse-tree listener of test_controller/server.js,
 * as a pure state machine.
 *
 * The listener keeps a growing list of class records and one scalar slot,
 * `currentClass`, that names the record the walk is filling.  The walk of the
 * parse tree is an abstract sequence of listener callbacks (`Event`), each
 * carrying the identifier text the callback reads from its context.
 *
 * Because an enter-class callback is the only one that pushes a record and it
 * makes that record current, the slot is always either empty or the last
 * record; the slot is written here as an index into the list.
 */
module JavaStructure {
  import opened Wrappers

  /** One class record `{name, methods, variables}`. */
  datatype ClassInfo = ClassInfo(name: string, methods: seq<string>, variables: seq<string>)

  /** The listener callbacks the parse-tree walk fires. */
  datatype Event =
    | EnterClass(name: string)        // enterClassDeclaration: the class identifier
    | ExitClass                       // exitClassDeclaration
    | EnterMethod(name: string)       // enterMethodDeclaration: the method identifier
    | EnterField(names: seq<string>)  // enterFieldDeclaration: every declarator's identifier, left to right

  /** The listener's state: `structure.classes` and the `currentClass` slot. */
  datatype Listener = Listener(classes: seq<ClassInfo>, current: Option<nat>)

  /** The slot is empty or designates the last class record. */
  predicate WellFormed(l: Listener) {
    l.current.Some? ==> l.current.value + 1 == |l.classes|
  }

  /** A freshly constructed listener: no classes, no current class. */
  const Initial: Listener := Listener([], None)

  /** `b` is `a` after some names were appended to its lists. */
  predicate Extends(a: ClassInfo, b: ClassInfo) {
    a.name == b.name && a.methods <= b.methods && a.variables <= b.variables
  }

  /** Every record of `before` is still there, at the same place, only grown at the end. */
  predicate Grows(before: seq<ClassInfo>, after: seq<ClassInfo>) {
    |before| <= |after| && forall i :: 0 <= i < |before| ==> Extends(before[i], after[i])
  }

  /** The effect of one listener callback. */
  function Step(l: Listener, e: Event): (r: Listener)
    requires WellFormed(l)
    ensures WellFormed(r)
    ensures |r.classes| == if e.EnterClass? then |l.classes| + 1 else |l.classes|
    ensures e.EnterClass? ==> r.classes[|l.classes|] == ClassInfo(e.name, [], []) && r.current == Some(|l.classes|)
    ensures e.ExitClass? ==> r == l.(current := None)
    ensures (e.EnterMethod? || e.EnterField?) && l.current.None? ==> r == l
    ensures (e.EnterMethod? || e.EnterField?) ==> r.current == l.current
  {
    match e
    case EnterClass(name) =>
      Listener(l.classes + [ClassInfo(name, [], [])], Some(|l.classes|))
    case ExitClass =>
      l.(current := None)
    case EnterMethod(name) =>
      if l.current.Some? then
        var c := l.classes[l.current.value];
        l.(classes := l.classes[l.current.value := c.(methods := c.methods + [name])])
      else l
    case EnterField(names) =>
      if l.current.Some? then
        var c := l.classes[l.current.value];
        l.(classes := l.classes[l.current.value := c.(variables := c.variables + names)])
      else l
  }

  /**
   * A callback never touches a record other than the current one, and the
   * current one only gains names at the end of a list.
   */
  lemma StepFrame(l: Listener, e: Event)
    requires WellFormed(l)
    ensures Grows(l.classes, Step(l, e).classes)
    ensures !e.EnterClass? ==> forall i :: 0 <= i < |l.classes| && l.current != Some(i) ==> Step(l, e).classes[i] == l.classes[i]
    ensures e.EnterMethod? && l.current.Some? ==>
      var c := l.classes[l.current.value];
      Step(l, e).classes[l.current.value] == c.(methods := c.methods + [e.name])
    ensures e.EnterField? && l.current.Some? ==>
      var c := l.classes[l.current.value];
      Step(l, e).classes[l.current.value] == c.(variables := c.variables + e.names)
  {
  }

  /** The listener after the walk `events`, starting from `l`. */
  function Run(l: Listener, events: seq<Event>): (r: Listener)
    requires WellFormed(l)
    ensures WellFormed(r)
    decreases |events|
  {
    if events == [] then l else Run(Step(l, events[0]), events[1..])
  }

  /** The structure a fresh listener collects from the walk `events`. */
  function Extract(events: seq<Event>): Listener {
    Run(Initial, events)
  }

  // ---------------------------------------------------------------------
  // An independent description of what the listener collects.
  // ---------------------------------------------------------------------

  /** Method names the walk reports before its next class boundary (an enter or an exit of a class). */
  function MethodsBeforeBoundary(events: seq<Event>): seq<string> {
    if events == [] then []
    else match events[0]
      case EnterClass(_) => []
      case ExitClass => []
      case EnterMethod(m) => [m] + MethodsBeforeBoundary(events[1..])
      case EnterField(_) => MethodsBeforeBoundary(events[1..])
  }

  /** Field names the walk reports before its next class boundary. */
  function FieldsBeforeBoundary(events: seq<Event>): seq<string> {
    if events == [] then []
    else match events[0]
      case EnterClass(_) => []
      case ExitClass => []
      case EnterMethod(_) => FieldsBeforeBoundary(events[1..])
      case EnterField(ns) => ns + FieldsBeforeBoundary(events[1..])
  }

  /**
   * One record per enter-class event, in event order; each holds exactly the
   * member names reported after its own enter-class event and before the next
   * class boundary.  A member after an exit is credited to no class.
   */
  function Reference(events: seq<Event>): seq<ClassInfo> {
    if events == [] then []
    else match events[0]
      case EnterClass(n) =>
        [ClassInfo(n, MethodsBeforeBoundary(events[1..]), FieldsBeforeBoundary(events[1..]))] + Reference(events[1..])
      case _ => Reference(events[1..])
  }

  /** The names of the enter-class events, in order. */
  function EnteredNames(events: seq<Event>): seq<string> {
    if events == [] then []
    else if events[0].EnterClass? then [events[0].name] + EnteredNames(events[1..])
    else EnteredNames(events[1..])
  }

  /** The names of a list of class records. */
  function Names(classes: seq<ClassInfo>): seq<string> {
    if classes == [] then [] else [classes[0].name] + Names(classes[1..])
  }

  /** The records of `l` once the current one (if any) has received what `events` report before a boundary. */
  function Pending(l: Listener, events: seq<Event>): seq<ClassInfo>
    requires WellFormed(l)
  {
    if l.current.None? then l.classes
    else
      var k := l.current.value;
      var c := l.classes[k];
      l.classes[..k] + [c.(methods := c.methods + MethodsBeforeBoundary(events),
                           variables := c.variables + FieldsBeforeBoundary(events))]
  }

  // ---------------------------------------------------------------------
  // Properties
  // ---------------------------------------------------------------------

  /** Running a walk one more event is one more step. */
  lemma {:induction false} RunSnoc(l: Listener, events: seq<Event>, e: Event)
    requires WellFormed(l)
    ensures Run(l, events + [e]) == Step(Run(l, events), e)
    decreases |events|
  {
    if events == [] {
      assert [e][1..] == [];
    } else {
      assert (events + [e])[1..] == events[1..] + [e];
      RunSnoc(Step(l, events[0]), events[1..], e);
    }
  }

  /** At a class boundary the current record receives nothing more. */
  lemma PendingAtBoundary(l: Listener, events: seq<Event>)
    requires WellFormed(l)
    requires events == [] || events[0].EnterClass? || events[0].ExitClass?
    ensures Pending(l, events) == l.classes
  {
    assert MethodsBeforeBoundary(events) == [] && FieldsBeforeBoundary(events) == [];
    if l.current.Some? {
      var c := l.classes[l.current.value];
      assert c.(methods := c.methods + [], variables := c.variables + []) == c;
      assert l.classes == l.classes[..l.current.value] + [c];
    }
  }

  /** An enter-class callback closes the pending record and opens the first reference record. */
  lemma EnterClassKeepsPendingThenReference(l: Listener, events: seq<Event>)
    requires WellFormed(l) && events != [] && events[0].EnterClass?
    ensures Pending(Step(l, events[0]), events[1..]) + Reference(events[1..]) == Pending(l, events) + Reference(events)
  {
    var rest := events[1..];
    var l' := Step(l, events[0]);
    PendingAtBoundary(l, events);
    assert l'.classes[..|l.classes|] == l.classes;
    assert l'.current == Some(|l.classes|) && l'.classes[|l.classes|] == ClassInfo(events[0].name, [], []);
    assert [] + MethodsBeforeBoundary(rest) == MethodsBeforeBoundary(rest);
    assert [] + FieldsBeforeBoundary(rest) == FieldsBeforeBoundary(rest);
    assert Pending(l', rest) == l.classes + [ClassInfo(events[0].name, MethodsBeforeBoundary(rest), FieldsBeforeBoundary(rest))];
  }

  /** A method callback moves its name from the pending part into the current record. */
  lemma EnterMethodKeepsPendingThenReference(l: Listener, events: seq<Event>)
    requires WellFormed(l) && events != [] && events[0].EnterMethod?
    ensures Pending(Step(l, events[0]), events[1..]) + Reference(events[1..]) == Pending(l, events) + Reference(events)
  {
    var m, rest := events[0].name, events[1..];
    if l.current.Some? {
      var l' := Step(l, events[0]);
      var k := l.current.value;
      var c := l.classes[k];
      assert l'.classes[..k] == l.classes[..k];
      assert MethodsBeforeBoundary(events) == [m] + MethodsBeforeBoundary(rest);
      assert c.methods + [m] + MethodsBeforeBoundary(rest) == c.methods + MethodsBeforeBoundary(events);
    }
  }

  /** A field callback moves its names from the pending part into the current record. */
  lemma EnterFieldKeepsPendingThenReference(l: Listener, events: seq<Event>)
    requires WellFormed(l) && events != [] && events[0].EnterField?
    ensures Pending(Step(l, events[0]), events[1..]) + Reference(events[1..]) == Pending(l, events) + Reference(events)
  {
    var ns, rest := events[0].names, events[1..];
    if l.current.Some? {
      var l' := Step(l, events[0]);
      var k := l.current.value;
      var c := l.classes[k];
      assert l'.classes[..k] == l.classes[..k];
      assert FieldsBeforeBoundary(events) == ns + FieldsBeforeBoundary(rest);
      assert c.variables + ns + FieldsBeforeBoundary(rest) == c.variables + FieldsBeforeBoundary(events);
    }
  }

  /** One callback moves the names it reports from the pending part into the collected records. */
  lemma StepKeepsPendingThenReference(l: Listener, events: seq<Event>)
    requires WellFormed(l) && events != []
    ensures Pending(Step(l, events[0]), events[1..]) + Reference(events[1..]) == Pending(l, events) + Reference(events)
  {
    match events[0]
    case EnterClass(_) => EnterClassKeepsPendingThenReference(l, events);
    case ExitClass => PendingAtBoundary(l, events);
    case EnterMethod(_) => EnterMethodKeepsPendingThenReference(l, events);
    case EnterField(_) => EnterFieldKeepsPendingThenReference(l, events);
  }

  /** From any state, the walk completes the current record and adds the reference records. */
  lemma {:induction false} RunIsPendingThenReference(l: Listener, events: seq<Event>)
    requires WellFormed(l)
    ensures Run(l, events).classes == Pending(l, events) + Reference(events)
    decreases |events|
  {
    if events == [] {
      PendingAtBoundary(l, events);
    } else {
      RunIsPendingThenReference(Step(l, events[0]), events[1..]);
      StepKeepsPendingThenReference(l, events);
    }
  }

  /** A fresh listener collects exactly the reference records. */
  lemma ExtractIsReference(events: seq<Event>)
    ensures Extract(events).classes == Reference(events)
  {
    RunIsPendingThenReference(Initial, events);
  }

  /** The reference holds one record per enter-class event, named after it, in event order. */
  lemma {:induction false} ReferenceNames(events: seq<Event>)
    ensures Names(Reference(events)) == EnteredNames(events)
    decreases |events|
  {
    if events != [] {
      ReferenceNames(events[1..]);
      if events[0].EnterClass? {
        var r := Reference(events);
        assert r[1..] == Reference(events[1..]);
      }
    }
  }

  /** The class records are named after the enter-class events, one each, in event order. */
  lemma ClassRecordsFollowEnterEvents(events: seq<Event>)
    ensures Names(Extract(events).classes) == EnteredNames(events)
  {
    ExtractIsReference(events);
    ReferenceNames(events);
  }

  /** No walk removes or reorders a record, or a name already in its lists. */
  lemma {:induction false} RunOnlyGrows(l: Listener, events: seq<Event>)
    requires WellFormed(l)
    ensures Grows(l.classes, Run(l, events).classes)
    decreases |events|
  {
    if events != [] {
      var l' := Step(l, events[0]);
      StepFrame(l, events[0]);
      RunOnlyGrows(l', events[1..]);
      var r := Run(l', events[1..]).classes;
      forall i | 0 <= i < |l.classes|
        ensures Extends(l.classes[i], r[i])
      {
        assert Extends(l'.classes[i], r[i]);
      }
    }
  }

  /**
   * After an exit, method and field events are dropped until the next
   * enter-class event, whether or not an enclosing class is still open.
   */
  lemma {:induction false} MembersAfterExitAreDropped(l: Listener, events: seq<Event>)
    requires WellFormed(l)
    requires forall i :: 0 <= i < |events| ==> events[i].EnterMethod? || events[i].EnterField?
    ensures Run(Step(l, ExitClass), events) == l.(current := None)
    decreases |events|
  {
    if events != [] {
      var l' := Step(l, ExitClass);
      assert Step(l', events[0]) == l';
      assert Step(l', events[0]) == Step(l', ExitClass);
      MembersAfterExitAreDropped(l, events[1..]);
    }
  }

  /** In `class Outer { class Inner { } void m() { } }` the method `m` is credited to no class. */
  lemma NestedExitLeavesOuterClassEmpty(outer: string, inner: string, m: string)
    ensures Extract([EnterClass(outer), EnterClass(inner), ExitClass, EnterMethod(m), ExitClass]).classes
         == [ClassInfo(outer, [], []), ClassInfo(inner, [], [])]
  {
    var events := [EnterClass(outer), EnterClass(inner), ExitClass, EnterMethod(m), ExitClass];
    ExtractIsReference(events);
    var t1, t2, t3, t4 := events[1..], events[2..], events[3..], events[4..];
    assert t1 == [EnterClass(inner), ExitClass, EnterMethod(m), ExitClass] && t1[1..] == t2;
    assert t2 == [ExitClass, EnterMethod(m), ExitClass] && t2[1..] == t3;
    assert t3 == [EnterMethod(m), ExitClass] && t3[1..] == t4;
    assert t4 == [ExitClass] && t4[1..] == [];
    assert Reference(t4) == [] && Reference(t3) == [] && Reference(t2) == [];
    assert MethodsBeforeBoundary(t2) == [] && FieldsBeforeBoundary(t2) == [];
    assert Reference(t1) == [ClassInfo(inner, [], [])];
  }
}
