/**
 * The records the server hands to its clients: a breakpoint declaration and a stack frame's
 * description, each with its human-readable location string. Java references may be null; a
 * null is None, and string concatenation writes it as "null".
 */
module Model {
  import opened Wrappers
  import Strs
  import Values

  datatype BreakpointType = Line | Method | Exception

  /** The exception `getLocationString` raises when the breakpoint has no type. */
  datatype ModelError = NullPointer

  /** How string concatenation renders a possibly null String. */
  function Text(s: Option<string>): (r: string)
    ensures s.Some? ==> r == s.value
    ensures s.None? ==> r == "null"
  {
    if s.Some? then s.value else "null"
  }

  /** How string concatenation renders a possibly null Integer. */
  function IntText(n: Option<int>): (r: string)
    ensures n.Some? ==> r == Strs.IntToString(n.value)
    ensures n.None? ==> r == "null"
  {
    if n.Some? then Strs.IntToString(n.value) else "null"
  }

  // ---------------------------------------------------------------- Breakpoint

  class Breakpoint {
    var id: Option<string>
    var sessionId: Option<string>
    var kind: Option<BreakpointType>
    var className: Option<string>
    var lineNumber: Option<int>
    var methodName: Option<string>
    var condition: Option<string>
    var enabled: bool
    var hitCount: int
    /** The creation instant, in the clock's units. */
    var createdAt: Option<int>

    /** The hit count is a Java int. */
    ghost predicate Valid()
      reads this
    {
      Values.IsInt32(hitCount)
    }

    /** The no-argument constructor: every reference null, disabled, never hit. */
    constructor Empty()
      ensures Valid()
      ensures id == None && sessionId == None && kind == None && className == None
      ensures lineNumber == None && methodName == None && condition == None && createdAt == None
      ensures !enabled && hitCount == 0
    {
      id, sessionId, kind := None, None, None;
      className, lineNumber, methodName, condition := None, None, None, None;
      enabled, hitCount, createdAt := false, 0, None;
    }

    /** A new breakpoint is enabled and never hit, created at `now`; its location is not set yet. */
    constructor (id: Option<string>, sessionId: Option<string>, kind: Option<BreakpointType>, now: int)
      ensures Valid()
      ensures this.id == id && this.sessionId == sessionId && this.kind == kind
      ensures enabled && hitCount == 0 && createdAt == Some(now)
      ensures className == None && lineNumber == None && methodName == None && condition == None
    {
      this.id, this.sessionId, this.kind := id, sessionId, kind;
      className, lineNumber, methodName, condition := None, None, None, None;
      enabled, hitCount, createdAt := true, 0, Some(now);
    }

    method SetId(id: Option<string>)
      modifies this`id
      ensures this.id == id
    {
      this.id := id;
    }

    method SetSessionId(sessionId: Option<string>)
      modifies this`sessionId
      ensures this.sessionId == sessionId
    {
      this.sessionId := sessionId;
    }

    method SetType(kind: Option<BreakpointType>)
      modifies this`kind
      ensures this.kind == kind
    {
      this.kind := kind;
    }

    method SetClassName(className: Option<string>)
      modifies this`className
      ensures this.className == className
    {
      this.className := className;
    }

    method SetLineNumber(lineNumber: Option<int>)
      modifies this`lineNumber
      ensures this.lineNumber == lineNumber
    {
      this.lineNumber := lineNumber;
    }

    method SetMethodName(methodName: Option<string>)
      modifies this`methodName
      ensures this.methodName == methodName
    {
      this.methodName := methodName;
    }

    method SetCondition(condition: Option<string>)
      modifies this`condition
      ensures this.condition == condition
    {
      this.condition := condition;
    }

    method SetEnabled(enabled: bool)
      modifies this`enabled
      ensures this.enabled == enabled
    {
      this.enabled := enabled;
    }

    method SetHitCount(hitCount: int)
      requires Values.IsInt32(hitCount)
      modifies this`hitCount
      ensures Valid()
      ensures this.hitCount == hitCount
    {
      this.hitCount := hitCount;
    }

    method SetCreatedAt(createdAt: Option<int>)
      modifies this`createdAt
      ensures this.createdAt == createdAt
    {
      this.createdAt := createdAt;
    }

    /** `incrementHitCount`: one more hit, wrapping at the int range; no other field changes. */
    method IncrementHitCount()
      requires Valid()
      modifies this`hitCount
      ensures Valid()
      ensures hitCount == Values.Wrap32(old(hitCount) + 1)
      ensures old(hitCount) < Values.Int32Max ==> hitCount == old(hitCount) + 1
      ensures old(hitCount) == Values.Int32Max ==> hitCount == Values.Int32Min
    {
      hitCount := Values.Wrap32(hitCount + 1);
    }

    /** `getLocationString`, a switch on the type. */
    function LocationString(): (r: Result<Option<string>, ModelError>)
      reads this
    {
      BreakpointLocation(kind, className, lineNumber, methodName)
    }
  }

  /**
   * The location string of a breakpoint with these fields: `class:line` for a line breakpoint,
   * `class.method` for a method breakpoint, the class (possibly null) for an exception
   * breakpoint; a breakpoint without type makes the switch throw.
   */
  function BreakpointLocation(kind: Option<BreakpointType>, className: Option<string>, lineNumber: Option<int>,
                              methodName: Option<string>): (r: Result<Option<string>, ModelError>)
    ensures r.Err? <==> kind.None?
    ensures kind == Some(Line) ==> r.Ok? && r.value.Some? && Strs.StartsWith(r.value.value, Text(className) + ":")
    ensures kind == Some(Method) ==> r == Ok(Some(Text(className) + "." + Text(methodName)))
    ensures kind == Some(Exception) ==> r == Ok(className)
  {
    match kind
    case None => Err(NullPointer)
    case Some(Line) => Ok(Some(Text(className) + ":" + IntText(lineNumber)))
    case Some(Method) => Ok(Some(Text(className) + "." + Text(methodName)))
    case Some(Exception) => Ok(className)
  }

  /**
   * A line breakpoint's location string gives back its class (everything before the last ':')
   * and its line (the decimal digits after it).
   */
  lemma LineBreakpointReadsBack(className: string, line: nat, methodName: Option<string>)
    ensures var s := BreakpointLocation(Some(Line), Some(className), Some(line), methodName).value.value;
      Strs.LastIndexOf(s, ':') == |className| && s[..|className|] == className &&
      (forall i :: |className| < i < |s| ==> '0' <= s[i] <= '9') &&
      Strs.DecimalValue(s[|className| + 1..]) == line
  {
    var s := BreakpointLocation(Some(Line), Some(className), Some(line), methodName).value.value;
    var digits := Strs.NatToString(line);
    assert s == className + [':'] + digits;
    Strs.LastIndexOfJoin(className, ':', digits);
    assert s[|className| + 1..] == digits;
    Strs.DecimalOfNatToString(line);
  }

  // ---------------------------------------------------------------- FrameInfo

  class FrameInfo {
    var index: int
    var className: Option<string>
    var methodName: Option<string>
    var sourceName: Option<string>
    var lineNumber: Option<int>
    var isNative: bool

    /** The no-argument constructor: index 0, every reference null, not native. */
    constructor ()
      ensures index == 0 && className == None && methodName == None
      ensures sourceName == None && lineNumber == None && !isNative
    {
      index, className, methodName := 0, None, None;
      sourceName, lineNumber, isNative := None, None, false;
    }

    method SetIndex(index: int)
      modifies this`index
      ensures this.index == index
    {
      this.index := index;
    }

    method SetClassName(className: Option<string>)
      modifies this`className
      ensures this.className == className
    {
      this.className := className;
    }

    method SetMethodName(methodName: Option<string>)
      modifies this`methodName
      ensures this.methodName == methodName
    {
      this.methodName := methodName;
    }

    method SetSourceName(sourceName: Option<string>)
      modifies this`sourceName
      ensures this.sourceName == sourceName
    {
      this.sourceName := sourceName;
    }

    method SetLineNumber(lineNumber: Option<int>)
      modifies this`lineNumber
      ensures this.lineNumber == lineNumber
    {
      this.lineNumber := lineNumber;
    }

    method SetNative(isNative: bool)
      modifies this`isNative
      ensures this.isNative == isNative
    {
      this.isNative := isNative;
    }

    /** `getLocationString`, appending piece by piece to a builder. */
    method GetLocationString() returns (s: string)
      ensures s == FrameLocation(className, methodName, sourceName, lineNumber, isNative)
    {
      hide Text, Strs.IntToString;
      var sb := "";
      sb := sb + Text(className) + "." + Text(methodName);
      if sourceName.Some? {
        sb := sb + " (" + sourceName.value;
        if lineNumber.Some? {
          sb := sb + ":" + Strs.IntToString(lineNumber.value);
        }
        sb := sb + ")";
      } else if isNative {
        sb := sb + " (Native Method)";
      }
      s := sb;
    }
  }

  /** The head every frame location starts with. */
  function Qualified(className: Option<string>, methodName: Option<string>): string {
    Text(className) + "." + Text(methodName)
  }

  /**
   * The location string of a frame with these fields: `class.method`, then ` (source:line)`,
   * ` (source)` when the line is unknown, or ` (Native Method)` for a native frame without
   * source.
   */
  function FrameLocation(className: Option<string>, methodName: Option<string>, sourceName: Option<string>,
                         lineNumber: Option<int>, isNative: bool): (r: string)
    ensures Strs.StartsWith(r, Qualified(className, methodName))
    ensures sourceName.Some? && lineNumber.Some? ==>
      r[|Qualified(className, methodName)|..] == " (" + sourceName.value + ":" + Strs.IntToString(lineNumber.value) + ")"
    ensures sourceName.Some? && lineNumber.None? ==>
      r[|Qualified(className, methodName)|..] == " (" + sourceName.value + ")"
    ensures sourceName.None? && isNative ==> r[|Qualified(className, methodName)|..] == " (Native Method)"
    ensures sourceName.None? && !isNative ==> r == Qualified(className, methodName)
  {
    var head := Qualified(className, methodName);
    var tail :=
      if sourceName.Some? then
        " (" + sourceName.value + (if lineNumber.Some? then ":" + Strs.IntToString(lineNumber.value) else "") + ")"
      else if isNative then " (Native Method)"
      else "";
    assert (head + tail)[..|head|] == head && (head + tail)[|head|..] == tail;
    head + tail
  }

  /** A frame with source information reads the same whether or not it is flagged native. */
  lemma SourceWinsOverNative(className: Option<string>, methodName: Option<string>, sourceName: Option<string>,
                             lineNumber: Option<int>)
    requires sourceName.Some?
    ensures FrameLocation(className, methodName, sourceName, lineNumber, true) ==
            FrameLocation(className, methodName, sourceName, lineNumber, false)
  {
    hide Strs.IntToString, Text;
  }

  /**
   * With a known source and line, the text between the last ':' and the closing parenthesis
   * is the line's decimal rendering (which `Strs.DecimalOfNatToString` reads back), whatever
   * the names before it contain.
   */
  lemma FrameLineReadsBack(className: Option<string>, methodName: Option<string>, source: string, line: nat,
                           isNative: bool)
    ensures var s := FrameLocation(className, methodName, Some(source), Some(line), isNative);
      var colon := Strs.LastIndexOf(s, ':');
      0 <= colon < |s| - 1 && s[|s| - 1] == ')' && s[colon + 1..|s| - 1] == Strs.NatToString(line)
  {
    hide FrameLocation, Qualified, Text, Strs.LastIndexOf, Strs.NatToString;
    var s := FrameLocation(className, methodName, Some(source), Some(line), isNative);
    var head := Qualified(className, methodName);
    var digits := Strs.NatToString(line);
    assert Strs.IntToString(line) == digits;
    var tail := " (" + source + ":" + digits + ")";
    assert s[..|head|] == head && s[|head|..] == tail;
    assert s == head + tail by {
      assert s == s[..|head|] + s[|head|..];
    }
    var front := head + " (" + source;
    var back := digits + ")";
    assert s == front + [':'] + back;
    assert forall i :: 0 <= i < |back| ==> back[i] != ':';
    Strs.LastIndexOfJoin(front, ':', back);
    assert s[|front| + 1..|s| - 1] == digits;
  }
}
