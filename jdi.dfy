/**
 * What the debug session, the event processor and the completion service see of the target VM
 * through JDI: locations, threads with their frames, loaded classes and the event requests the
 * session installs. Everything here is a snapshot the VM supplies; the model never computes it.
 */
module Jdi {
  import opened Wrappers

  /** A code location; `sourceName` is None when the class has no source information. */
  datatype Location = Location(declaringType: string, methodName: string, lineNumber: int, sourceName: Option<string>)

  datatype FieldView = FieldView(name: string, typeName: string)

  datatype LocalVariable = LocalVariable(name: string, typeName: string)

  /** An object reference as far as completion needs it: its type's name and `allFields()`. */
  datatype ObjectView = ObjectView(typeName: string, allFields: seq<FieldView>)

  /**
   * A stack frame: `thisObject()` (None in a static method) and `visibleVariables()` (None when
   * the class was compiled without local variable tables).
   */
  datatype StackFrameView = StackFrameView(thisObject: Option<ObjectView>, visibleVariables: Option<seq<LocalVariable>>)

  /**
   * A ThreadReference: `uniqueID()`, `name()`, `isSuspended()`, the raw `status()` code, the
   * thread group's name, and `frames()` (None when the thread is not suspended, where JDI
   * raises IncompatibleThreadStateException).
   */
  datatype ThreadRef = ThreadRef(
    uniqueId: int,
    name: string,
    suspended: bool,
    status: int,
    group: Option<string>,
    frames: Option<seq<StackFrameView>>)

  /** A Method: `location()` is None for native and abstract methods. */
  datatype MethodView = MethodView(
    name: string,
    location: Option<Location>,
    argumentTypeNames: Option<seq<string>>,
    returnTypeName: string)

  /**
   * A loaded ReferenceType. `lines` maps a line to `locationsOfLine(line)`, and is None when
   * the class has no line information (AbsentInformationException). `visibleMethods` is what
   * `methodsByName` searches, `allMethods` what `allMethods()` lists.
   */
  datatype LoadedClass = LoadedClass(
    name: string,
    lines: Option<map<int, seq<Location>>>,
    visibleMethods: seq<MethodView>,
    allMethods: seq<MethodView>)

  /** `locationsOfLine`: None models AbsentInformationException; a line without code gives []. */
  function LocationsOfLine(c: LoadedClass, line: int): (r: Option<seq<Location>>)
    ensures r.None? <==> c.lines.None?
    ensures c.lines.Some? && line !in c.lines.value ==> r == Some([])
  {
    if c.lines.None? then None
    else if line in c.lines.value then Some(c.lines.value[line])
    else Some([])
  }

  /** `methodsByName`: the visible methods with that name, in order. */
  function MethodsByName(c: LoadedClass, name: string): (r: seq<MethodView>)
    ensures forall m | m in r :: m.name == name && m in c.visibleMethods
    ensures forall m | m in c.visibleMethods && m.name == name :: m in r
  {
    Named(c.visibleMethods, name)
  }

  function Named(ms: seq<MethodView>, name: string): (r: seq<MethodView>)
    ensures forall m | m in r :: m.name == name && m in ms
    ensures forall m | m in ms && m.name == name :: m in r
  {
    if ms == [] then []
    else if ms[0].name == name then [ms[0]] + Named(ms[1..], name)
    else Named(ms[1..], name)
  }

  /**
   * An event request held by the VM's EventRequestManager, with the properties the session
   * attaches to it (`breakpointId`, `deferredBreakpointId`, `lineNumber`, `methodName`,
   * `condition`, `exceptionBreakpointId`); an absent property is None.
   */
  datatype Request =
    | BreakpointRequest(location: Location, breakpointId: Option<string>, enabled: bool)
    | ClassPrepareRequest(
        classFilter: string,
        deferredBreakpointId: Option<string>,
        lineNumber: Option<int>,
        methodName: Option<string>,
        condition: Option<string>,
        enabled: bool)
    | ExceptionRequest(
        exceptionType: Option<string>,
        notifyCaught: bool,
        notifyUncaught: bool,
        exceptionBreakpointId: Option<string>,
        enabled: bool)
    | StepRequest(thread: int, size: int, depth: int, countFilter: int, enabled: bool)
}
