/**
 * The CompletionService: candidates for class, method, variable and field names, filtered by a
 * case-insensitive prefix (a substring for classes), ranked and limited. The session lookup is
 * the SessionManager's; the loaded classes, threads and frames are what the VM reports.
 */
module Completion {
  import opened Wrappers
  import opened Strs
  import opened Sorting
  import opened Jdi
  import Session

  /** A CompletionItem message: the text to insert, what to show, and a short description. */
  datatype CompletionItem = CompletionItem(value: string, display: string, description: string)

  /** The exceptions the variable and field completions turn into an error response. */
  datatype CompletionError =
    | ThreadNotFound                   // IllegalArgumentException "Thread not found"
    | ThreadNotSuspended               // IncompatibleThreadStateException from frames()
    | FrameIndexOutOfBounds(index: int) // IndexOutOfBoundsException from frames.get

  // ---------------------------------------------------------------- orders

  /** `Comparator.comparing(CompletionItem::getValue)`: `a` sorts no later than `b`. */
  predicate ByValue(a: CompletionItem, b: CompletionItem) {
    LexLe(a.value, b.value)
  }

  lemma ByValueTotalPreorder()
    ensures TotalPreorder(ByValue)
  {
    forall a: CompletionItem, b: CompletionItem ensures ByValue(a, b) || ByValue(b, a) {
      LexLeTotal(a.value, b.value);
    }
    forall a: CompletionItem, b: CompletionItem, c: CompletionItem | ByValue(a, b) && ByValue(b, c)
      ensures ByValue(a, c)
    {
      LexLeTransitive(a.value, b.value, c.value);
    }
  }

  /** Whether `name`, lower-cased, starts with the lower-cased prefix `lp`. */
  predicate StartsFolded(name: string, lp: string) {
    StartsWith(LowerStr(name), lp)
  }

  /**
   * The comparator of `completeClasses`: names starting with the prefix before those that do
   * not, and `compareTo` within each group; `a` sorts no later than `b`.
   */
  predicate ClassOrder(lp: string, a: string, b: string) {
    var aStarts := StartsFolded(a, lp);
    var bStarts := StartsFolded(b, lp);
    if aStarts && !bStarts then true
    else if !aStarts && bStarts then false
    else LexLe(a, b)
  }

  lemma ClassOrderTotalPreorder(lp: string)
    ensures TotalPreorder((a, b) => ClassOrder(lp, a, b))
  {
    var le := (a, b) => ClassOrder(lp, a, b);
    forall a: string, b: string ensures le(a, b) || le(b, a) {
      LexLeTotal(a, b);
    }
    forall a: string, b: string, c: string | le(a, b) && le(b, c) ensures le(a, c) {
      if StartsFolded(a, lp) == StartsFolded(b, lp) == StartsFolded(c, lp) {
        LexLeTransitive(a, b, c);
      }
    }
  }

  // ---------------------------------------------------------------- completeClasses

  /** The number of classes offered: the requested limit when positive, else 50. */
  function Limit(limit: int): (n: nat)
    ensures limit > 0 ==> n == limit
    ensures limit <= 0 ==> n == 50
  {
    if limit > 0 then limit else 50
  }

  /** The loaded class names whose lower-cased form contains `lp`, in the VM's order. */
  function Matching(classNames: seq<string>, lp: string): (r: seq<string>)
    ensures forall n :: n in r <==> n in classNames && Contains(LowerStr(n), lp)
  {
    Filter(classNames, n => Contains(LowerStr(n), lp))
  }

  /** The matching names ordered by the comparator of `completeClasses`. */
  function Ranked(classNames: seq<string>, lp: string): (r: seq<string>)
    ensures multiset(r) == multiset(Matching(classNames, lp))
    ensures SortedBy(r, (a, b) => ClassOrder(lp, a, b))
  {
    ClassOrderTotalPreorder(lp);
    SortBySorted(Matching(classNames, lp), (a, b) => ClassOrder(lp, a, b));
    SortBy(Matching(classNames, lp), (a, b) => ClassOrder(lp, a, b))
  }

  /**
   * `completeClasses`: of the loaded class names (`allClasses()`), those containing the prefix
   * case-insensitively, ranked, and at most `Limit(limit)` of them.
   */
  function CompleteClasses(classNames: seq<string>, prefix: string, limit: int): (r: seq<string>)
    ensures |r| <= Limit(limit)
    ensures |r| == if |Matching(classNames, LowerStr(prefix))| < Limit(limit)
                   then |Matching(classNames, LowerStr(prefix))| else Limit(limit)
    ensures forall n | n in r :: n in classNames && Contains(LowerStr(n), LowerStr(prefix))
  {
    var lp := LowerStr(prefix);
    var r := Take(Ranked(classNames, lp), Limit(limit));
    assert forall n | n in r :: n in multiset(Ranked(classNames, lp));
    r
  }

  lemma CompleteClassesTakes(classNames: seq<string>, prefix: string, limit: int)
    ensures CompleteClasses(classNames, prefix, limit) == Take(Ranked(classNames, LowerStr(prefix)), Limit(limit))
  {
  }

  /** Every name starting with the prefix comes first; each group is in `compareTo` order. */
  lemma CompleteClassesOrder(classNames: seq<string>, prefix: string, limit: int)
    ensures var r := CompleteClasses(classNames, prefix, limit);
      var lp := LowerStr(prefix);
      (forall i, j | 0 <= i < j < |r| && StartsFolded(r[j], lp) :: StartsFolded(r[i], lp)) &&
      (forall i, j | 0 <= i < j < |r| && StartsFolded(r[i], lp) == StartsFolded(r[j], lp) :: LexLe(r[i], r[j]))
  {
    hide Ranked, Take, LowerStr, StartsFolded, LexLe, Matching;
    var lp := LowerStr(prefix);
    var r := CompleteClasses(classNames, prefix, limit);
    CompleteClassesTakes(classNames, prefix, limit);
    SortedPrefix(Ranked(classNames, lp), Limit(limit), (a, b) => ClassOrder(lp, a, b));
    RankedGroups(lp, r);
  }

  /** What sortedness by the class comparator means for the two groups. */
  lemma RankedGroups(lp: string, r: seq<string>)
    requires SortedBy(r, (a, b) => ClassOrder(lp, a, b))
    ensures forall i, j | 0 <= i < j < |r| && StartsFolded(r[j], lp) :: StartsFolded(r[i], lp)
    ensures forall i, j | 0 <= i < j < |r| && StartsFolded(r[i], lp) == StartsFolded(r[j], lp) :: LexLe(r[i], r[j])
  {
    hide StartsFolded, LexLe;
    forall i, j | 0 <= i < j < |r| ensures ClassOrder(lp, r[i], r[j]) {
      var le := (a, b) => ClassOrder(lp, a, b);
      assert le(r[i], r[j]);
    }
  }

  /**
   * The limit keeps the best-ranked names: a matching name left out means the result is full
   * and everything in it ranks no later than that name.
   */
  lemma CompleteClassesKeepsBest(classNames: seq<string>, prefix: string, limit: int, n: string)
    requires n in classNames && Contains(LowerStr(n), LowerStr(prefix))
    requires n !in CompleteClasses(classNames, prefix, limit)
    ensures |CompleteClasses(classNames, prefix, limit)| == Limit(limit)
    ensures forall m | m in CompleteClasses(classNames, prefix, limit) :: ClassOrder(LowerStr(prefix), m, n)
  {
    hide Ranked, LowerStr, StartsFolded, LexLe, Contains, Matching, ClassOrder;
    var lp := LowerStr(prefix);
    var s := Ranked(classNames, lp);
    var r := CompleteClasses(classNames, prefix, limit);
    CompleteClassesTakes(classNames, prefix, limit);
    assert n in Matching(classNames, lp);
    assert n in multiset(s);
    var k :| 0 <= k < |s| && s[k] == n;
    forall m | m in r ensures ClassOrder(lp, m, n) {
      var i :| 0 <= i < |r| && r[i] == m;
      assert s[i] == m;
      var le := (a, b) => ClassOrder(lp, a, b);
      assert le(s[i], s[k]);
    }
  }

  // ---------------------------------------------------------------- names and signatures

  /** `simplifyTypeName`: the text after the last `.`, or the whole name when it has none. */
  function SimplifyTypeName(typeName: string): (r: string)
    ensures '.' !in r
    ensures |r| <= |typeName| && r == typeName[|typeName| - |r|..]
    ensures |r| < |typeName| ==> typeName[|typeName| - |r| - 1] == '.'
    ensures '.' !in typeName ==> r == typeName
  {
    var lastDot := LastIndexOf(typeName, '.');
    if lastDot >= 0 then typeName[lastDot + 1..] else typeName
  }

  /** A qualified name loses exactly its package. */
  lemma SimplifyQualified(qualifier: string, simpleName: string)
    requires '.' !in simpleName
    ensures SimplifyTypeName(qualifier + "." + simpleName) == simpleName
  {
    LastIndexOfJoin(qualifier, '.', simpleName);
    assert (qualifier + "." + simpleName)[|qualifier| + 1..] == simpleName;
  }

  /** `Collectors.joining(", ")` over the simplified type names. */
  function JoinSimplified(typeNames: seq<string>): string {
    if typeNames == [] then ""
    else if |typeNames| == 1 then SimplifyTypeName(typeNames[0])
    else SimplifyTypeName(typeNames[0]) + ", " + JoinSimplified(typeNames[1..])
  }

  /** `formatMethodParams`: the simplified argument types, or "..." when they cannot be listed. */
  function FormatMethodParams(m: MethodView): (r: string)
    ensures m.argumentTypeNames.None? ==> r == "..."
    ensures m.argumentTypeNames == Some([]) ==> r == ""
    ensures m.argumentTypeNames.Some? && |m.argumentTypeNames.value| == 1 ==>
      r == SimplifyTypeName(m.argumentTypeNames.value[0])
    ensures m.argumentTypeNames.Some? && |m.argumentTypeNames.value| >= 2 ==>
      r == SimplifyTypeName(m.argumentTypeNames.value[0]) + ", " + JoinSimplified(m.argumentTypeNames.value[1..])
  {
    if m.argumentTypeNames.None? then "..." else JoinSimplified(m.argumentTypeNames.value)
  }

  /**
   * Joining two non-empty lists of type names is joining each and putting ", " between them:
   * every pair of neighbouring names is separated by exactly one ", ".
   */
  lemma {:induction false} JoinSimplifiedAppend(a: seq<string>, b: seq<string>)
    requires a != [] && b != []
    ensures JoinSimplified(a + b) == JoinSimplified(a) + ", " + JoinSimplified(b)
    decreases |a|
  {
    if |a| == 1 {
      assert (a + b)[1..] == b;
    } else {
      assert (a + b)[1..] == a[1..] + b;
      JoinSimplifiedAppend(a[1..], b);
    }
  }

  /** The item of a method: its name, the name with its parameter list, and its return type. */
  function MethodItem(m: MethodView): (it: CompletionItem)
    ensures it.value == m.name
    ensures it.display == m.name + "(" + FormatMethodParams(m) + ")"
    ensures it.description == m.returnTypeName
  {
    CompletionItem(m.name, m.name + "(" + FormatMethodParams(m) + ")", m.returnTypeName)
  }

  // ---------------------------------------------------------------- completeMethods

  /** A method is offered when its lower-cased name starts with `lp` and it is no `<init>`/`<clinit>`. */
  predicate MethodMatches(name: string, lp: string) {
    StartsFolded(name, lp) && !StartsWith(name, "<")
  }

  /** Method `k` of class `c` exists, and method `k2` of class `c2` comes before it in class, then method order. */
  predicate Before(classes: seq<LoadedClass>, c2: int, k2: int, c: int, k: int) {
    0 <= c2 < |classes| && 0 <= k2 < |classes[c2].allMethods| && (c2 < c || (c2 == c && k2 < k))
  }

  /**
   * `it` is the item of a qualifying method of one of the classes, and no method before it has
   * its name: the first method of each name supplies the item.
   */
  ghost predicate OfferedMethod(classes: seq<LoadedClass>, lp: string, it: CompletionItem) {
    exists c, k | 0 <= c < |classes| && 0 <= k < |classes[c].allMethods| ::
      MethodMatches(classes[c].allMethods[k].name, lp) && it == MethodItem(classes[c].allMethods[k]) &&
      forall c2, k2 | Before(classes, c2, k2, c, k) :: classes[c2].allMethods[k2].name != it.value
  }

  predicate DistinctValues(s: seq<CompletionItem>) {
    forall i, j | 0 <= i < j < |s| :: s[i].value != s[j].value
  }

  lemma {:induction false} InsertKeepsDistinct(x: CompletionItem, s: seq<CompletionItem>, le: (CompletionItem, CompletionItem) -> bool)
    requires DistinctValues(s)
    requires forall y | y in s :: y.value != x.value
    ensures DistinctValues(InsertBy(x, s, le))
  {
    if s != [] && !le(x, s[0]) {
      var rest := InsertBy(x, s[1..], le);
      InsertKeepsDistinct(x, s[1..], le);
      forall k | 0 <= k < |rest| ensures rest[k].value != s[0].value {
        assert rest[k] in multiset(s[1..]) + multiset{x};
        if rest[k] != x {
          var m :| 0 <= m < |s[1..]| && s[1..][m] == rest[k];
          assert s[m + 1] == rest[k];
        }
      }
      var t := [s[0]] + rest;
      forall i, j | 0 <= i < j < |t| ensures t[i].value != t[j].value {
        if i > 0 {
          assert t[i] == rest[i - 1] && t[j] == rest[j - 1];
        }
      }
    }
  }

  lemma {:induction false} SortKeepsDistinct(s: seq<CompletionItem>, le: (CompletionItem, CompletionItem) -> bool)
    requires DistinctValues(s)
    ensures DistinctValues(SortBy(s, le))
  {
    if s != [] {
      SortKeepsDistinct(s[1..], le);
      var sorted := SortBy(s[1..], le);
      forall y | y in sorted ensures y.value != s[0].value {
        assert y in multiset(s[1..]);
        var m :| 0 <= m < |s[1..]| && s[1..][m] == y;
        assert s[m + 1] == y;
      }
      InsertKeepsDistinct(s[0], sorted, le);
    }
  }

  /** A qualifying method no earlier qualifying method shares a name with supplies an offered item. */
  lemma MethodOffered(classes: seq<LoadedClass>, lp: string, c: int, k: int)
    requires 0 <= c < |classes| && 0 <= k < |classes[c].allMethods|
    requires MethodMatches(classes[c].allMethods[k].name, lp)
    requires forall c2, k2 | Before(classes, c2, k2, c, k) && MethodMatches(classes[c2].allMethods[k2].name, lp) ::
      classes[c2].allMethods[k2].name != classes[c].allMethods[k].name
    ensures OfferedMethod(classes, lp, MethodItem(classes[c].allMethods[k]))
  {
    var it := MethodItem(classes[c].allMethods[k]);
    assert forall c2, k2 | Before(classes, c2, k2, c, k) :: classes[c2].allMethods[k2].name != it.value;
  }

  /**
   * `completeMethods` over the classes `classesByName` found: each qualifying method name once,
   * its item made from the first method with that name (in class, then method order), sorted by
   * name. No class, no items.
   */
  method CompleteMethods(classes: seq<LoadedClass>, prefix: string) returns (items: seq<CompletionItem>)
    ensures classes == [] ==> items == []
    ensures SortedBy(items, ByValue)
    ensures DistinctValues(items)
    ensures forall it | it in items :: OfferedMethod(classes, LowerStr(prefix), it)
    ensures forall c, k | 0 <= c < |classes| && 0 <= k < |classes[c].allMethods| &&
                          MethodMatches(classes[c].allMethods[k].name, LowerStr(prefix)) ::
              exists it | it in items :: it.value == classes[c].allMethods[k].name
  {
    hide MethodItem, MethodMatches, OfferedMethod, LowerStr, SortBy, FormatMethodParams, JoinSimplified;
    var lp := LowerStr(prefix);
    if classes == [] {
      return [];
    }
    var seen: set<string> := {};
    var found: seq<CompletionItem> := [];
    for c := 0 to |classes|
      invariant forall it | it in found :: it.value in seen
      invariant forall n | n in seen :: exists it | it in found :: it.value == n
      invariant DistinctValues(found)
      invariant forall it | it in found :: OfferedMethod(classes, lp, it)
      invariant forall c', k | 0 <= c' < c && 0 <= k < |classes[c'].allMethods| &&
                               MethodMatches(classes[c'].allMethods[k].name, lp) ::
                  classes[c'].allMethods[k].name in seen
    {
      var methods := classes[c].allMethods;
      for k := 0 to |methods|
        invariant forall it | it in found :: it.value in seen
        invariant forall n | n in seen :: exists it | it in found :: it.value == n
        invariant DistinctValues(found)
        invariant forall it | it in found :: OfferedMethod(classes, lp, it)
        invariant forall c', k' | 0 <= c' < c && 0 <= k' < |classes[c'].allMethods| &&
                                  MethodMatches(classes[c'].allMethods[k'].name, lp) ::
                    classes[c'].allMethods[k'].name in seen
        invariant forall k' | 0 <= k' < k && MethodMatches(methods[k'].name, lp) :: methods[k'].name in seen
      {
        var m := methods[k];
        if MethodMatches(m.name, lp) && m.name !in seen {
          assert m == classes[c].allMethods[k];
          MethodOffered(classes, lp, c, k);
          seen := seen + {m.name};
          found := found + [MethodItem(m)];
        }
      }
    }
    ByValueTotalPreorder();
    SortBySorted(found, ByValue);
    SortKeepsDistinct(found, ByValue);
    items := SortBy(found, ByValue);
    assert forall it | it in items :: it in multiset(found);
    assert forall it | it in found :: it in multiset(items);
  }

  // ---------------------------------------------------------------- completeVariables, completeFields

  /**
   * The frame a variable or field completion works in, once the thread is looked up: a missing
   * thread, a running one (no frames) and a negative index are errors; an index past the last
   * frame gives no frame and so an empty answer.
   */
  function FrameAt(thread: Option<ThreadRef>, index: int): (r: Result<Option<StackFrameView>, CompletionError>)
    ensures thread.None? ==> r == Err(ThreadNotFound)
    ensures thread.Some? && thread.value.frames.None? ==> r == Err(ThreadNotSuspended)
    ensures r == Ok(None) <==> thread.Some? && thread.value.frames.Some? && index >= |thread.value.frames.value|
    ensures r.Ok? && r.value.Some? <==>
      thread.Some? && thread.value.frames.Some? && 0 <= index < |thread.value.frames.value|
    ensures r.Ok? && r.value.Some? ==> r.value.value == thread.value.frames.value[index]
    ensures r.Err? && thread.Some? && thread.value.frames.Some? ==> r == Err(FrameIndexOutOfBounds(index))
  {
    if thread.None? then Err(ThreadNotFound)
    else if thread.value.frames.None? then Err(ThreadNotSuspended)
    else if index >= |thread.value.frames.value| then Ok(None)
    else if index < 0 then Err(FrameIndexOutOfBounds(index))
    else Ok(Some(thread.value.frames.value[index]))
  }

  /**
   * The thread and frame of a request: thread 0 means the selected thread, a negative frame
   * index the selected frame.
   */
  method TargetFrame(session: Session.DebugSession, threads: seq<ThreadRef>, threadId: int, frameIndex: int)
    returns (r: Result<Option<StackFrameView>, CompletionError>)
    requires threadId != 0 || session.selectedThreadId != 0
    ensures r == FrameAt(Session.FirstThread(threads, if threadId != 0 then threadId else session.selectedThreadId),
                         if frameIndex >= 0 then frameIndex else session.selectedFrameIndex)
  {
    var index := if frameIndex >= 0 then frameIndex else session.selectedFrameIndex;
    var thread := session.GetThread(threadId, threads);
    r := FrameAt(thread, index);
  }

  function ThisItem(receiver: ObjectView): CompletionItem {
    CompletionItem("this", "this", receiver.typeName)
  }

  function LocalItem(v: LocalVariable): CompletionItem {
    CompletionItem(v.name, v.name, v.typeName)
  }

  function FieldItem(f: FieldView): CompletionItem {
    CompletionItem(f.name, f.name, f.typeName)
  }

  /** `this` is offered when the frame has a receiver and "this" starts with the prefix. */
  function ThisOffered(frame: StackFrameView, lp: string): (r: seq<CompletionItem>)
    ensures r != [] <==> frame.thisObject.Some? && StartsWith("this", lp)
    ensures r != [] ==> r == [ThisItem(frame.thisObject.value)]
  {
    if frame.thisObject.Some? && StartsWith("this", lp) then [ThisItem(frame.thisObject.value)] else []
  }

  /** The items of the local variables whose lower-cased name starts with `lp`, in order. */
  function LocalsOffered(vars: seq<LocalVariable>, lp: string): (r: seq<CompletionItem>)
    ensures |r| <= |vars|
    ensures forall it | it in r :: StartsFolded(it.value, lp) && exists v | v in vars :: it == LocalItem(v)
    ensures forall v | v in vars && StartsFolded(v.name, lp) :: LocalItem(v) in r
  {
    if vars == [] then []
    else
      var last := vars[|vars| - 1];
      assert vars == vars[..|vars| - 1] + [last];
      LocalsOffered(vars[..|vars| - 1], lp) + (if StartsFolded(last.name, lp) then [LocalItem(last)] else [])
  }

  /** The items of the fields whose lower-cased name starts with `lp`, in order. */
  function FieldsOffered(fields: seq<FieldView>, lp: string): (r: seq<CompletionItem>)
    ensures |r| <= |fields|
    ensures forall it | it in r :: StartsFolded(it.value, lp) && exists f | f in fields :: it == FieldItem(f)
    ensures forall f | f in fields && StartsFolded(f.name, lp) :: FieldItem(f) in r
  {
    if fields == [] then []
    else
      var last := fields[|fields| - 1];
      assert fields == fields[..|fields| - 1] + [last];
      FieldsOffered(fields[..|fields| - 1], lp) + (if StartsFolded(last.name, lp) then [FieldItem(last)] else [])
  }

  /** The visible variables, none when the class carries no local variable tables. */
  function LocalsOf(frame: StackFrameView): seq<LocalVariable> {
    if frame.visibleVariables.Some? then frame.visibleVariables.value else []
  }

  /**
   * `completeVariables` in a frame: `this` when offered, then the matching local variables,
   * sorted by name; `List.sort` is stable, so items of the same name stay in that order.
   */
  method CompleteVariables(frame: StackFrameView, prefix: string) returns (items: seq<CompletionItem>)
    ensures SortedBy(items, ByValue)
    ensures multiset(items) == multiset(ThisOffered(frame, LowerStr(prefix)) + LocalsOffered(LocalsOf(frame), LowerStr(prefix)))
    ensures forall k :: Level(items, k, ByValue) == Level(ThisOffered(frame, LowerStr(prefix)) + LocalsOffered(LocalsOf(frame), LowerStr(prefix)), k, ByValue)
  {
    var lp := LowerStr(prefix);
    var found: seq<CompletionItem> := [];
    if frame.thisObject.Some? && StartsWith("this", lp) {
      found := [ThisItem(frame.thisObject.value)];
    }
    var vars := LocalsOf(frame);
    for i := 0 to |vars|
      invariant found == ThisOffered(frame, lp) + LocalsOffered(vars[..i], lp)
    {
      assert vars[..i + 1][..i] == vars[..i];
      if StartsFolded(vars[i].name, lp) {
        found := found + [LocalItem(vars[i])];
      }
    }
    assert vars[..|vars|] == vars;
    ByValueTotalPreorder();
    SortBySorted(found, ByValue);
    items := SortBy(found, ByValue);
    forall k ensures Level(items, k, ByValue) == Level(found, k, ByValue) {
      SortByStable(found, k, ByValue);
    }
  }

  /**
   * `completeFields` in a frame: nothing without a receiver, else the receiver type's matching
   * fields (`allFields()`), sorted by name; fields of the same name, such as a field and the
   * superclass field it hides, stay in `allFields()` order.
   */
  method CompleteFields(frame: StackFrameView, prefix: string) returns (items: seq<CompletionItem>)
    ensures frame.thisObject.None? ==> items == []
    ensures SortedBy(items, ByValue)
    ensures frame.thisObject.Some? ==>
      multiset(items) == multiset(FieldsOffered(frame.thisObject.value.allFields, LowerStr(prefix))) &&
      forall k :: Level(items, k, ByValue) == Level(FieldsOffered(frame.thisObject.value.allFields, LowerStr(prefix)), k, ByValue)
  {
    if frame.thisObject.None? {
      return [];
    }
    var lp := LowerStr(prefix);
    var fields := frame.thisObject.value.allFields;
    var found: seq<CompletionItem> := [];
    for i := 0 to |fields|
      invariant found == FieldsOffered(fields[..i], lp)
    {
      assert fields[..i + 1][..i] == fields[..i];
      if StartsFolded(fields[i].name, lp) {
        found := found + [FieldItem(fields[i])];
      }
    }
    assert fields[..|fields|] == fields;
    ByValueTotalPreorder();
    SortBySorted(found, ByValue);
    items := SortBy(found, ByValue);
    forall k ensures Level(items, k, ByValue) == Level(found, k, ByValue) {
      SortByStable(found, k, ByValue);
    }
  }

  /** `completeVariables`: the target frame's variables, an empty answer past the last frame, or the error. */
  method CompleteVariablesAt(session: Session.DebugSession, threads: seq<ThreadRef>, threadId: int, frameIndex: int,
                             prefix: string)
    returns (r: Result<seq<CompletionItem>, CompletionError>)
    requires threadId != 0 || session.selectedThreadId != 0
    ensures var target := FrameAt(Session.FirstThread(threads, if threadId != 0 then threadId else session.selectedThreadId),
                                  if frameIndex >= 0 then frameIndex else session.selectedFrameIndex);
      (target.Err? ==> r == Err(target.error)) &&
      (target == Ok(None) ==> r == Ok([])) &&
      (target.Ok? && target.value.Some? ==>
        r.Ok? && SortedBy(r.value, ByValue) &&
        multiset(r.value) == multiset(ThisOffered(target.value.value, LowerStr(prefix)) +
                                      LocalsOffered(LocalsOf(target.value.value), LowerStr(prefix))) &&
        forall k :: Level(r.value, k, ByValue) == Level(ThisOffered(target.value.value, LowerStr(prefix)) +
                                                        LocalsOffered(LocalsOf(target.value.value), LowerStr(prefix)), k, ByValue))
  {
    var target := TargetFrame(session, threads, threadId, frameIndex);
    if target.Err? {
      return Err(target.error);
    }
    if target.value.None? {
      return Ok([]);
    }
    var items := CompleteVariables(target.value.value, prefix);
    r := Ok(items);
  }

  /** `completeFields`: the target frame's receiver fields, an empty answer, or the error. */
  method CompleteFieldsAt(session: Session.DebugSession, threads: seq<ThreadRef>, threadId: int, frameIndex: int,
                          prefix: string)
    returns (r: Result<seq<CompletionItem>, CompletionError>)
    requires threadId != 0 || session.selectedThreadId != 0
    ensures var target := FrameAt(Session.FirstThread(threads, if threadId != 0 then threadId else session.selectedThreadId),
                                  if frameIndex >= 0 then frameIndex else session.selectedFrameIndex);
      (target.Err? ==> r == Err(target.error)) &&
      (target == Ok(None) ==> r == Ok([])) &&
      (target.Ok? && target.value.Some? && target.value.value.thisObject.None? ==> r == Ok([])) &&
      (target.Ok? && target.value.Some? && target.value.value.thisObject.Some? ==>
        r.Ok? && SortedBy(r.value, ByValue) &&
        multiset(r.value) == multiset(FieldsOffered(target.value.value.thisObject.value.allFields, LowerStr(prefix))) &&
        forall k :: Level(r.value, k, ByValue) == Level(FieldsOffered(target.value.value.thisObject.value.allFields, LowerStr(prefix)), k, ByValue))
  {
    var target := TargetFrame(session, threads, threadId, frameIndex);
    if target.Err? {
      return Err(target.error);
    }
    if target.value.None? {
      return Ok([]);
    }
    var items := CompleteFields(target.value.value, prefix);
    r := Ok(items);
  }
}
