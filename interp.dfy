/**
 * The expression interpreter: the value an expression tree has in a suspended frame of the
 * target VM, or the error its evaluation raises. Each Java `eval*` method is one case of Eval,
 * with the same evaluation order, the same checks in the same order and the same messages.
 */
module Interp {
  import opened Wrappers
  import opened Ast
  import opened Values
  import Strs

  /** Exceptions other than the interpreter's own; `evaluate` reports them as "Evaluation failed: ...". */
  datatype Failure =
    | UnsupportedOperation    // the class marker was asked for its type, identity or a field read
    | IllegalArgument         // a non-static field was read through its class

  /** The messages of EvaluationException. */
  datatype Message =
    | ClassAsValue(className: string)                                // "Cannot use class 'C' as a value"
    | VariableNotFound(variable: string)
    | ThisInStaticContext
    | StaticFieldNotFound(field: string, inType: string)
    | FieldNotStatic(field: string)
    | FieldOnNull(field: string)
    | FieldOnPrimitive
    | FieldNotFound(field: string, inType: string)
    | ClassNotLoaded(className: string)
    | NoTarget(methodName: string)                                       // instance method without target
    | MethodOnNull(methodName: string)
    | MethodOnPrimitive
    | MethodNotFound(methodName: string, arity: nat, inType: string)
    | MethodThrew(exceptionType: string)
    | StaticMethodNotFound(methodName: string, arity: nat, inType: string)
    | MethodNotStatic(methodName: string)
    | StaticOnNonClass(typeName: string)
    | ArrayElementOnNull
    | NotAnArray
    | IndexNotInteger
    | IndexOutOfBounds(index: int)
    | NonPrimitiveOperands(op: BinOp)
    | DivisionByZero
    | ExpectedBoolean
    | ExpectedNumeric
    | NotOnNonBoolean
    | NegateNonNumeric
    | CannotCastPrimitive(toType: string)
    | UnknownType(typeName: string)
    | InstanceOfPrimitive
    | NotInstantiable(typeName: string)
    | NoMatchingConstructor(typeName: string)
    | ConstructorThrew(exceptionType: string)
    | ArraySizeNotInteger
    | NegativeArraySize(size: int)
    | CannotCreateArray(typeName: string)

  datatype EvalError = EvaluationException(msg: Message) | EvaluationFailed(cause: Failure)

  function Throw<T>(m: Message): Result<T, EvalError> {
    Err(EvaluationException(m))
  }

  /** What the interpreter captures when it is built: the visible locals and `this`, if any. */
  datatype Env = Env(locals: map<string, Value>, thisObject: Option<Value>)

  // ---------------------------------------------------------------- class names

  /** `extractPotentialClassName`: a variable, or a chain of field accesses on one, read as a dotted name. */
  function PotentialClassName(e: Expr): (r: Option<string>)
    ensures r.Some? ==> e.Variable? || e.FieldAccess?
    ensures e.Variable? ==> r == Some(e.name)
  {
    match e
    case Variable(n) => Some(n)
    case FieldAccess(t, f) =>
      (match PotentialClassName(t)
       case None => None
       case Some(p) => Some(p + "." + f))
    case _ => None
  }

  /** `tryResolveAsClassName`: that name, when a type of that name is loaded. */
  function ResolveClass(vm: Vm, e: Expr): (r: Option<string>)
    ensures r.Some? <==> PotentialClassName(e).Some? && PotentialClassName(e).value in vm.types
    ensures r.Some? ==> r == PotentialClassName(e)
  {
    match PotentialClassName(e)
    case Some(n) => if n in vm.types then Some(n) else None
    case None => None
  }

  // ---------------------------------------------------------------- conversions

  /** `toBoolean`. */
  function ToBoolean(v: Value): (r: Result<bool, EvalError>)
    ensures r.Ok? <==> v.BoolV?
    ensures r.Ok? ==> r.value == v.z
    ensures r.Err? ==> r.error == EvaluationException(ExpectedBoolean)
  {
    if v.BoolV? then Ok(v.z) else Throw(ExpectedBoolean)
  }

  /** The double `toDouble` produces: the integer kinds denote an integer, floats and doubles a bit pattern. */
  datatype Num = Exact(n: int) | Real(bits: bv64)

  function ToDouble(fp: FloatOps, v: Value): (r: Result<Num, EvalError>)
    ensures r.Ok? <==> IsPrimitive(v) && !v.BoolV?
    ensures r.Ok? ==> (r.value.Exact? <==> !v.FloatV? && !v.DoubleV?)
    ensures r.Err? ==> r.error == EvaluationException(ExpectedNumeric)
  {
    match v
    case IntV(i) => Ok(Exact(i))
    case LongV(l) => Ok(Exact(l))
    case FloatV(f) => Ok(Real(fp.widen(f)))
    case DoubleV(d) => Ok(Real(d))
    case ShortV(s) => Ok(Exact(s))
    case ByteV(b) => Ok(Exact(b))
    case CharV(c) => Ok(Exact(c))
    case _ => Throw(ExpectedNumeric)
  }

  function Bits(fp: FloatOps, n: Num): bv64 {
    match n
    case Exact(i) => fp.ofInt(i)
    case Real(b) => b
  }

  /** `rightNum == 0`: zero of either sign. */
  predicate IsZeroValue(v: Value) {
    match v
    case IntV(i) => i == 0
    case LongV(l) => l == 0
    case ShortV(s) => s == 0
    case ByteV(b) => b == 0
    case CharV(c) => c == 0
    case FloatV(f) => f & 0x7FFF_FFFF == 0
    case DoubleV(d) => d & 0x7FFF_FFFF_FFFF_FFFF == 0
    case _ => false
  }

  predicate IsComparison(op: BinOp) {
    op.Lt? || op.Gt? || op.Le? || op.Ge?
  }

  predicate IsArithmetic(op: BinOp) {
    op.Add? || op.Sub? || op.Mul? || op.Div? || op.Rem?
  }

  /** A comparison of two doubles; integers that doubles hold exactly compare exactly. */
  function Compare(fp: FloatOps, op: BinOp, a: Num, b: Num): (r: bool)
    requires IsComparison(op) || op.Eq?
    ensures a.Exact? && b.Exact? && IsSafe(a.n) && IsSafe(b.n) ==>
      r == match op
           case Lt => a.n < b.n
           case Gt => a.n > b.n
           case Le => a.n <= b.n
           case Ge => a.n >= b.n
           case _ => a.n == b.n
  {
    match (a, b)
    case (Exact(x), Exact(y)) =>
      if IsSafe(x) && IsSafe(y) then
        match op
        case Lt => x < y
        case Gt => x > y
        case Le => x <= y
        case Ge => x >= y
        case _ => x == y
      else fp.compare(op, fp.ofInt(x), fp.ofInt(y))
    case _ => fp.compare(op, Bits(fp, a), Bits(fp, b))
  }

  /**
   * `(int)` of the double result for int-kind operands. Every sum, difference and quotient of
   * two ints is a double exactly, a product beyond 2^53 is far outside the int range and
   * saturates either way, and `%` by zero is NaN, which `(int)` makes 0.
   */
  function IntArith(op: BinOp, x: int, y: int): (r: int)
    requires IsArithmetic(op)
    requires op.Div? ==> y != 0
    ensures IsInt32(r)
  {
    if op.Add? then Sat32(x + y)
    else if op.Sub? then Sat32(x - y)
    else if op.Mul? then Sat32(x * y)
    else if op.Div? then Sat32(TruncDiv(x, y))
    else if y == 0 then 0
    else Sat32(TruncRem(x, y))
  }

  /** `(long)` of the double result when a long is involved: exact while doubles hold every value exactly. */
  function LongArith(fp: FloatOps, op: BinOp, x: int, y: int): (r: int)
    requires IsArithmetic(op)
    requires op.Div? ==> y != 0
    ensures IsInt64(r)
  {
    var viaDouble := Sat64(fp.trunc(fp.arith(op, fp.ofInt(x), fp.ofInt(y))));
    if op.Rem? && y == 0 then 0
    else if !(IsSafe(x) && IsSafe(y)) then viaDouble
    else if op.Add? then (if IsSafe(x + y) then x + y else viaDouble)
    else if op.Sub? then (if IsSafe(x - y) then x - y else viaDouble)
    else if op.Mul? then (if IsSafe(x * y) then x * y else viaDouble)
    else if op.Div? then Sat64(TruncDiv(x, y))
    else TruncRem(x, y)
  }

  /** `mirrorNumber`: the arithmetic result in the widest kind among the operands, int at least. */
  function Arith(fp: FloatOps, op: BinOp, l: Value, r: Value, a: Num, b: Num): (v: Value)
    requires IsArithmetic(op)
    requires ToDouble(fp, l) == Ok(a) && ToDouble(fp, r) == Ok(b)
    requires op.Div? ==> !IsZeroValue(r)
    ensures v.DoubleV? <==> l.DoubleV? || r.DoubleV?
    ensures v.FloatV? <==> !(l.DoubleV? || r.DoubleV?) && (l.FloatV? || r.FloatV?)
    ensures v.LongV? <==> !(l.DoubleV? || r.DoubleV? || l.FloatV? || r.FloatV?) && (l.LongV? || r.LongV?)
    ensures v.IntV? <==> !(l.DoubleV? || r.DoubleV? || l.FloatV? || r.FloatV? || l.LongV? || r.LongV?)
    ensures WellFormed(v)
  {
    match (a, b)
    case (Exact(x), Exact(y)) =>
      if l.LongV? || r.LongV? then LongV(LongArith(fp, op, x, y)) else IntV(IntArith(op, x, y))
    case _ =>
      var d := fp.arith(op, Bits(fp, a), Bits(fp, b));
      if l.DoubleV? || r.DoubleV? then DoubleV(d) else FloatV(fp.narrow(d))
  }

  /** The character Java's `"" + c` appends for a UTF-16 code unit; a lone surrogate becomes U+FFFD. */
  function CodeUnit(c: int): char {
    if 0 <= c < 0xD800 || 0xE000 <= c < 0x11_0000 then c as char else '\U{FFFD}'
  }

  /** `PrimitiveValue.toString()`. */
  function PrimitiveText(fp: FloatOps, v: Value): string
    requires IsPrimitive(v)
  {
    match v
    case CharV(c) => [CodeUnit(c)]
    case BoolV(z) => if z then "true" else "false"
    case FloatV(f) => fp.showFloat(f)
    case DoubleV(d) => fp.showDouble(d)
    case LongV(l) => Strs.IntToString(l)
    case ShortV(s) => Strs.IntToString(s)
    case ByteV(b) => Strs.IntToString(b)
    case _ => Strs.IntToString(v.i)
  }

  /** The name of an object's reference type; the class marker has none. */
  function ReferenceTypeName(v: Value): (r: Result<string, EvalError>)
    requires IsObject(v)
    ensures r.Err? <==> v.ClassRef?
  {
    match v
    case StrV(_, _) => Ok("java.lang.String")
    case ObjV(_, t) => Ok(t)
    case ArrV(_, t, _) => Ok(t)
    case _ => Err(EvaluationFailed(UnsupportedOperation))
  }

  /** The first method that takes no arguments, skipping those whose parameter types are not loaded. */
  function FirstNoArg(ms: seq<MethodDecl>): (r: Option<MethodDecl>)
    ensures r.Some? ==> r.value in ms && r.value.params == Some([])
    ensures r.None? ==> forall m | m in ms :: m.params != Some([])
  {
    if ms == [] then None
    else if ms[0].params == Some([]) then Some(ms[0])
    else FirstNoArg(ms[1..])
  }

  /** `valueToString` of an object: its own `toString()` if that returns a string, else `type@hex-id`. */
  function ObjectText(vm: Vm, v: Value, typeName: string, id: int): (s: string)
    ensures FirstNoArg(MethodsByName(vm, typeName, "toString")).None? ==>
      s == typeName + "@" + Strs.HexString(id)
  {
    var fallback := typeName + "@" + Strs.HexString(id);
    match FirstNoArg(MethodsByName(vm, typeName, "toString"))
    case None => fallback
    case Some(m) =>
      match vm.invoke(v, m, [])
      case Ok(StrV(text, _)) => text
      case _ => fallback
  }

  /** `valueToString`: the text string concatenation appends. */
  function ValueToString(vm: Vm, v: Value): (r: Result<string, EvalError>)
    ensures r.Err? <==> v.ClassRef?
    ensures v.Null? ==> r == Ok("null")
    ensures v.StrV? ==> r == Ok(v.text)
  {
    match v
    case Null => Ok("null")
    case StrV(t, _) => Ok(t)
    case ObjV(id, t) => Ok(ObjectText(vm, v, t, id))
    case ArrV(id, t, _) => Ok(ObjectText(vm, v, t, id))
    case ClassRef(_) => Err(EvaluationFailed(UnsupportedOperation))
    case _ => Ok(PrimitiveText(vm.fp, v))
  }

  /** `uniqueID()`: None for a string just mirrored, which no other object shares. */
  function UniqueId(v: Value): (r: Result<Option<int>, EvalError>)
    requires IsObject(v)
    ensures r.Err? <==> v.ClassRef?
  {
    match v
    case StrV(_, u) => Ok(u)
    case ObjV(id, _) => Ok(Some(id))
    case ArrV(id, _, _) => Ok(Some(id))
    case _ => Err(EvaluationFailed(UnsupportedOperation))
  }

  /**
   * `valuesEqual`: identity for objects, numeric equality for primitives; a boolean makes
   * `toDouble` throw, which the method catches and answers false.
   */
  function ValuesEqual(fp: FloatOps, l: Value, r: Value): (eq: Result<bool, EvalError>)
    ensures eq.Err? ==> (l.ClassRef? && IsObject(r)) || (IsObject(l) && r.ClassRef?)
  {
    if l.Null? && r.Null? then Ok(true)
    else if l.Null? || r.Null? then Ok(false)
    else if IsObject(l) && IsObject(r) then
      match UniqueId(l)
      case Err(e) => Err(e)
      case Ok(a) =>
        match UniqueId(r)
        case Err(e) => Err(e)
        case Ok(b) => Ok(a.Some? && b.Some? && a.value == b.value)
    else if IsPrimitive(l) && IsPrimitive(r) then
      match (ToDouble(fp, l), ToDouble(fp, r))
      case (Ok(a), Ok(b)) => Ok(Compare(fp, Eq, a, b))
      case _ => Ok(false)
    else Ok(false)
  }

  // ---------------------------------------------------------------- types and method lookup

  /** `Value.type()`. */
  function TypeOf(v: Value): (r: Result<JType, EvalError>)
    requires !v.Null?
    ensures r.Err? <==> v.ClassRef?
    ensures r.Ok? ==> (r.value.Prim? <==> IsPrimitive(v))
  {
    if v.IntV? then Ok(Prim("int"))
    else if v.LongV? then Ok(Prim("long"))
    else if v.ShortV? then Ok(Prim("short"))
    else if v.ByteV? then Ok(Prim("byte"))
    else if v.CharV? then Ok(Prim("char"))
    else if v.BoolV? then Ok(Prim("boolean"))
    else if v.FloatV? then Ok(Prim("float"))
    else if v.DoubleV? then Ok(Prim("double"))
    else
      match ReferenceTypeName(v)
      case Ok(t) => Ok(RefT(t))
      case Err(e) => Err(e)
  }

  /** `canWiden`: the widening primitive conversions. */
  predicate CanWiden(from: string, to: string) {
    match from
    case "byte" => to == "short" || to == "int" || to == "long" || to == "float" || to == "double"
    case "short" => to == "int" || to == "long" || to == "float" || to == "double"
    case "char" => to == "int" || to == "long" || to == "float" || to == "double"
    case "int" => to == "long" || to == "float" || to == "double"
    case "long" => to == "float" || to == "double"
    case "float" => to == "double"
    case _ => false
  }

  /** `getWrapperType`: the box class of a primitive type. */
  function WrapperType(primitive: string): (r: Option<string>)
    ensures r.Some? <==> primitive in PrimitiveNames
  {
    match primitive
    case "int" => Some("java.lang.Integer")
    case "long" => Some("java.lang.Long")
    case "double" => Some("java.lang.Double")
    case "float" => Some("java.lang.Float")
    case "boolean" => Some("java.lang.Boolean")
    case "byte" => Some("java.lang.Byte")
    case "short" => Some("java.lang.Short")
    case "char" => Some("java.lang.Character")
    case _ => None
  }

  /**
   * `implementsInterface` over a list: one of `ifaces` is `target` or has it among its
   * superinterfaces, transitively. `bound` ranks every loaded interface in the list.
   */
  predicate Implements(vm: Vm, ifaces: seq<string>, target: string, bound: nat)
    requires Acyclic(vm)
    requires forall i | i in ifaces && i in vm.types :: vm.types[i].depth < bound
    decreases bound, |ifaces|
  {
    |ifaces| > 0 &&
    (ifaces[0] == target ||
     (ifaces[0] in vm.types && Implements(vm, vm.types[ifaces[0]].interfaces, target, vm.types[ifaces[0]].depth)) ||
     Implements(vm, ifaces[1..], target, bound))
  }

  /** The superclass walk: `c`, or a superclass of it, is `target` or implements it. */
  predicate ClassReaches(vm: Vm, c: string, target: string)
    requires Acyclic(vm)
    decreases Depth(vm, c)
  {
    c in vm.types &&
    (c == target ||
     Implements(vm, vm.types[c].interfaces, target, vm.types[c].depth) ||
     (vm.types[c].superclass.Some? && vm.types[c].superclass.value in vm.types &&
      ClassReaches(vm, vm.types[c].superclass.value, target)))
  }

  /** `isAssignableFrom`: whether the argument may be passed for a parameter of that type. */
  function IsAssignable(vm: Vm, param: JType, arg: Value): (r: Result<bool, EvalError>)
    requires Acyclic(vm)
    ensures r.Err? <==> arg.ClassRef?
    ensures arg.Null? ==> r == Ok(param.RefT?)
  {
    if arg.Null? then Ok(param.RefT?)
    else
      match TypeOf(arg)
      case Err(e) => Err(e)
      case Ok(t) =>
        if param == t then Ok(true)
        else if param.Prim? && t.Prim? then Ok(CanWiden(t.primName, param.primName))
        else if param.RefT? && t.RefT? && IsClassType(vm, t.refName) && ClassReaches(vm, t.refName, param.refName) then Ok(true)
        else if param.Prim? && t.RefT? then Ok(WrapperType(param.primName) == Some(t.refName))
        else if param.RefT? && t.Prim? then Ok(WrapperType(t.primName) == Some(param.refName))
        else Ok(false)
  }

  /** The compatibility loop of `findMethod`: parameters checked left to right, stopping at the first mismatch. */
  function AllAssignable(vm: Vm, ps: seq<JType>, args: seq<Value>): (r: Result<bool, EvalError>)
    requires Acyclic(vm)
    requires |ps| == |args|
    ensures r == Ok(true) <==> forall i | 0 <= i < |ps| :: IsAssignable(vm, ps[i], args[i]) == Ok(true)
    ensures r.Err? ==> exists i | 0 <= i < |args| :: args[i].ClassRef?
    decreases |ps|
  {
    if ps == [] then Ok(true)
    else
      match IsAssignable(vm, ps[0], args[0])
      case Err(e) => Err(e)
      case Ok(ok) =>
        if !ok then Ok(false)
        else
          var rest := AllAssignable(vm, ps[1..], args[1..]);
          assert forall i | 1 <= i < |ps| :: ps[1..][i - 1] == ps[i] && args[1..][i - 1] == args[i];
          rest
  }

  /** A method `findMethod` would accept for these arguments. */
  predicate Applicable(vm: Vm, m: MethodDecl, args: seq<Value>)
    requires Acyclic(vm)
  {
    m.params.Some? && |m.params.value| == |args| && AllAssignable(vm, m.params.value, args) == Ok(true)
  }

  /** `findMethod` over a candidate list: the first applicable one, or None. */
  function FirstCompatible(vm: Vm, ms: seq<MethodDecl>, args: seq<Value>): (r: Result<Option<MethodDecl>, EvalError>)
    requires Acyclic(vm)
    ensures r.Ok? && r.value.Some? ==> r.value.value in ms && Applicable(vm, r.value.value, args)
    ensures r == Ok(None) ==> forall m | m in ms :: !Applicable(vm, m, args)
  {
    if ms == [] then Ok(None)
    else
      match ms[0].params
      case None => FirstCompatible(vm, ms[1..], args)
      case Some(ps) =>
        if |ps| != |args| then FirstCompatible(vm, ms[1..], args)
        else
          match AllAssignable(vm, ps, args)
          case Err(e) => Err(e)
          case Ok(ok) => if ok then Ok(Some(ms[0])) else FirstCompatible(vm, ms[1..], args)
  }

  function FindMethod(vm: Vm, typeName: string, name: string, args: seq<Value>): (r: Result<Option<MethodDecl>, EvalError>)
    requires Acyclic(vm)
    ensures r.Ok? && r.value.Some? ==>
      r.value.value.name == name && r.value.value in MethodsByName(vm, typeName, name) && Applicable(vm, r.value.value, args)
  {
    FirstCompatible(vm, MethodsByName(vm, typeName, name), args)
  }

  // ---------------------------------------------------------------- the cases of evalExpr on values

  /** `evalLiteral`: `mirrorOf` the literal's value; a string literal makes a fresh string. */
  function LiteralValue(fp: FloatOps, lit: Literal): (v: Value)
    ensures v.Null? <==> lit.LNull?
    ensures lit.LStr? ==> v == StrV(lit.text, None)
  {
    match lit
    case LStr(t) => StrV(t, None)
    case LChar(c) => CharV(c as int)
    case LBool(b) => BoolV(b)
    case LNull => Null
    case LInt(i) => IntV(i)
    case LLong(l) => LongV(l)
    case LFloat(text) => FloatV(fp.parseFloat(text))
    case LDouble(text) => DoubleV(fp.parseDouble(text))
  }

  /** The static-field read: the field must be visible in the type, and static where `checkStatic`. */
  function StaticField(vm: Vm, c: string, f: string, checkStatic: bool): (r: Result<Value, EvalError>)
    requires c in vm.types
    ensures f !in vm.types[c].fields ==> r == Throw(StaticFieldNotFound(f, c))
    ensures r.Ok? ==> f in vm.types[c].fields && vm.types[c].fields[f] && r.value == vm.staticValue(c, f)
  {
    if f !in vm.types[c].fields then Throw(StaticFieldNotFound(f, c))
    else if !vm.types[c].fields[f] then
      if checkStatic then Throw(FieldNotStatic(f)) else Err(EvaluationFailed(IllegalArgument))
    else Ok(vm.staticValue(c, f))
  }

  /** The instance half of `evalFieldAccess`, once the target is a value. */
  function FieldOf(vm: Vm, v: Value, f: string): (r: Result<Value, EvalError>)
    ensures v.Null? ==> r == Throw(FieldOnNull(f))
    ensures IsPrimitive(v) ==> r == Throw(FieldOnPrimitive)
  {
    if v.ClassRef? then
      if v.className in vm.types then StaticField(vm, v.className, f, false)
      else Err(EvaluationFailed(UnsupportedOperation))
    else if v.Null? then Throw(FieldOnNull(f))
    else if !IsObject(v) then Throw(FieldOnPrimitive)
    else
      var t := ReferenceTypeName(v).value;
      if t !in vm.types || f !in vm.types[t].fields then Throw(FieldNotFound(f, t))
      else if vm.types[t].fields[f] then Ok(vm.staticValue(t, f))
      else Ok(vm.fieldValue(v, f))
  }

  /** `invokeStaticMethod`. */
  function InvokeStatic(vm: Vm, c: string, m: string, args: seq<Value>): (r: Result<Value, EvalError>)
    requires Acyclic(vm)
    ensures FindMethod(vm, c, m, args) == Ok(None) ==> r == Throw(StaticMethodNotFound(m, |args|, c))
  {
    match FindMethod(vm, c, m, args)
    case Err(e) => Err(e)
    case Ok(None) => Throw(StaticMethodNotFound(m, |args|, c))
    case Ok(Some(md)) =>
      if !md.isStatic then Throw(MethodNotStatic(m))
      else if IsClassType(vm, c) then
        match vm.invokeStatic(c, md, args)
        case Ok(v) => Ok(v)
        case Err(x) => Throw(MethodThrew(x))
      else Throw(StaticOnNonClass(c))
  }

  /** The part of `evalMethodCall` after the target is a value. */
  function CallOn(vm: Vm, target: Value, m: string, args: seq<Value>): (r: Result<Value, EvalError>)
    requires Acyclic(vm)
    ensures target.Null? ==> r == Throw(MethodOnNull(m))
    ensures IsPrimitive(target) ==> r == Throw(MethodOnPrimitive)
  {
    if target.ClassRef? then
      if target.className in vm.types then InvokeStatic(vm, target.className, m, args)
      else Err(EvaluationFailed(UnsupportedOperation))
    else if target.Null? then Throw(MethodOnNull(m))
    else if !IsObject(target) then Throw(MethodOnPrimitive)
    else
      var t := ReferenceTypeName(target).value;
      match FindMethod(vm, t, m, args)
      case Err(e) => Err(e)
      case Ok(None) => Throw(MethodNotFound(m, |args|, t))
      case Ok(Some(md)) =>
        match vm.invoke(target, md, args)
        case Ok(v) => Ok(v)
        case Err(x) => Throw(MethodThrew(x))
  }

  /** The part of `evalArrayAccess` after target and index are values. */
  function ElementOf(arr: Value, index: Value): (r: Result<Value, EvalError>)
    ensures r.Ok? <==> arr.ArrV? && index.IntV? && 0 <= index.i < |arr.elems|
    ensures r.Ok? ==> r.value == arr.elems[index.i]
    ensures arr.ArrV? && index.IntV? && !(0 <= index.i < |arr.elems|) ==> r == Throw(IndexOutOfBounds(index.i))
  {
    if arr.Null? then Throw(ArrayElementOnNull)
    else if !arr.ArrV? then Throw(NotAnArray)
    else if !index.IntV? then Throw(IndexNotInteger)
    else if index.i < 0 || index.i >= |arr.elems| then Throw(IndexOutOfBounds(index.i))
    else Ok(arr.elems[index.i])
  }

  /** `evalBinary` for every operator but `&&` and `||`, once both operands are values. */
  function BinaryOn(vm: Vm, op: BinOp, l: Value, r: Value): (res: Result<Value, EvalError>)
    requires !op.CondAnd? && !op.CondOr?
  {
    if op.Add? && (l.StrV? || r.StrV?) then
      match ValueToString(vm, l)
      case Err(e) => Err(e)
      case Ok(ls) =>
        match ValueToString(vm, r)
        case Err(e) => Err(e)
        case Ok(rs) => Ok(StrV(ls + rs, None))
    else if op.Eq? || op.Ne? then
      match ValuesEqual(vm.fp, l, r)
      case Err(e) => Err(e)
      case Ok(eq) => Ok(BoolV(if op.Eq? then eq else !eq))
    else if !IsPrimitive(l) || !IsPrimitive(r) then Throw(NonPrimitiveOperands(op))
    else
      match ToDouble(vm.fp, l)
      case Err(e) => Err(e)
      case Ok(a) =>
        match ToDouble(vm.fp, r)
        case Err(e) => Err(e)
        case Ok(b) =>
          if IsComparison(op) then Ok(BoolV(Compare(vm.fp, op, a, b)))
          else if op.Div? && IsZeroValue(r) then Throw(DivisionByZero)
          else Ok(Arith(vm.fp, op, l, r, a, b))
  }

  /** `evalUnary` once the operand is a value: `-` wraps around on int and long and flips the sign bit of a float or double. */
  function UnaryOn(op: UnOp, v: Value): (r: Result<Value, EvalError>)
    ensures op.Not? ==> (r.Ok? <==> v.BoolV?) && (r.Ok? ==> r.value == BoolV(!v.z))
    ensures op.Neg? ==> (r.Ok? <==> v.IntV? || v.LongV? || v.FloatV? || v.DoubleV?)
  {
    match op
    case Not => if v.BoolV? then Ok(BoolV(!v.z)) else Throw(NotOnNonBoolean)
    case Neg =>
      match v
      case IntV(i) => Ok(IntV(Wrap32(-i)))
      case LongV(l) => Ok(LongV(Wrap64(-l)))
      case FloatV(f) => Ok(FloatV(f ^ 0x8000_0000))
      case DoubleV(d) => Ok(DoubleV(d ^ 0x8000_0000_0000_0000))
      case _ => Throw(NegateNonNumeric)
  }

  /** The double-to-integer truncation of a cast, before it saturates. */
  function Truncated(fp: FloatOps, n: Num): int {
    match n
    case Exact(i) => if IsSafe(i) then i else fp.trunc(fp.ofInt(i))
    case Real(b) => fp.trunc(b)
  }

  /** `evalCast` once the operand is a value. */
  function CastTo(vm: Vm, typeName: string, v: Value): (r: Result<Value, EvalError>)
    ensures v.Null? ==> r == Ok(Null)
    ensures v.BoolV? ==> r == Throw(ExpectedNumeric)
    ensures IsObject(v) ==> r == if typeName in vm.types then Ok(v) else Throw(UnknownType(typeName))
  {
    if v.Null? then Ok(Null)
    else if IsPrimitive(v) then
      match ToDouble(vm.fp, v)
      case Err(e) => Err(e)
      case Ok(n) =>
        var t := Truncated(vm.fp, n);
        match typeName
        case "int" => Ok(IntV(Sat32(t)))
        case "long" => Ok(LongV(Sat64(t)))
        case "float" => Ok(FloatV(vm.fp.narrow(Bits(vm.fp, n))))
        case "double" => Ok(DoubleV(Bits(vm.fp, n)))
        case "short" => Ok(ShortV(Wrap16(Sat32(t))))
        case "byte" => Ok(ByteV(Wrap8(Sat32(t))))
        case "char" => Ok(CharV(WrapChar(Sat32(t))))
        case _ => Throw(CannotCastPrimitive(typeName))
    else if typeName in vm.types then Ok(v)
    else Throw(UnknownType(typeName))
  }

  /** `evalInstanceOf` once the operand is a value. */
  function InstanceOfTest(vm: Vm, v: Value, typeName: string): (r: Result<Value, EvalError>)
    requires Acyclic(vm)
    ensures v.Null? ==> r == Ok(BoolV(false))
    ensures r.Ok? ==> r.value.BoolV?
  {
    if v.Null? then Ok(BoolV(false))
    else if !IsObject(v) then Throw(InstanceOfPrimitive)
    else if typeName !in vm.types then Throw(UnknownType(typeName))
    else
      match ReferenceTypeName(v)
      case Err(e) => Err(e)
      case Ok(t) => Ok(BoolV(IsClassType(vm, t) && ClassReaches(vm, t, typeName)))
  }

  /** `findArrayType`'s name for the array type of a component type. */
  function ArrayTypeName(component: string): (r: string)
    ensures |r| >= 2 && r[0] == '['
  {
    match component
    case "int" => "[I"
    case "long" => "[J"
    case "double" => "[D"
    case "float" => "[F"
    case "boolean" => "[Z"
    case "byte" => "[B"
    case "short" => "[S"
    case "char" => "[C"
    case _ => "[L" + Replace(component, '.', '/') + ";"
  }

  function Replace(s: string, a: char, b: char): (r: string)
    ensures |r| == |s|
    ensures forall k | 0 <= k < |s| :: r[k] == if s[k] == a then b else s[k]
  {
    if s == [] then [] else [if s[0] == a then b else s[0]] + Replace(s[1..], a, b)
  }

  /** `evalNewArray` once the size is a value. */
  function NewArrayOf(vm: Vm, component: string, size: Value): (r: Result<Value, EvalError>)
    ensures !size.IntV? ==> r == Throw(ArraySizeNotInteger)
    ensures size.IntV? && size.i < 0 ==> r == Throw(NegativeArraySize(size.i))
  {
    if !size.IntV? then Throw(ArraySizeNotInteger)
    else if size.i < 0 then Throw(NegativeArraySize(size.i))
    else
      var name := ArrayTypeName(component);
      if name in vm.types && vm.types[name].kind == ArrayKind then Ok(vm.newArray(name, size.i))
      else Throw(CannotCreateArray(component))
  }

  // ---------------------------------------------------------------- evalExpr

  /** `evalExpr`. */
  function Eval(vm: Vm, env: Env, e: Expr): (r: Result<Value, EvalError>)
    requires Acyclic(vm)
    decreases e, 1
  {
    match e
    case Literal(lit) => Ok(LiteralValue(vm.fp, lit))
    case Variable(n) => if n in env.locals then Ok(env.locals[n]) else Throw(VariableNotFound(n))
    case This =>
      (match env.thisObject
       case None => Throw(ThisInStaticContext)
       case Some(v) => Ok(v))
    case FieldAccess(target, f) =>
      (match ResolveClass(vm, e)
       case Some(c) => Ok(ClassRef(c))
       case None =>
         match ResolveClass(vm, target)
         case Some(c) => StaticField(vm, c, f, true)
         case None =>
           match Eval(vm, env, target)
           case Err(err) => Err(err)
           case Ok(v) => FieldOf(vm, v, f))
    case MethodCall(receiver, m, argExprs) =>
      (match EvalArgs(vm, env, argExprs)
       case Err(err) => Err(err)
       case Ok(args) =>
         if receiver.Some? && PotentialClassName(receiver.value).Some? then
           match ResolveClass(vm, receiver.value)
           case Some(c) => InvokeStatic(vm, c, m, args)
           case None => Throw(ClassNotLoaded(PotentialClassName(receiver.value).value))
         else if receiver.None? then
           match env.thisObject
           case None => Throw(NoTarget(m))
           case Some(v) => CallOn(vm, v, m, args)
         else
           match Eval(vm, env, receiver.value)
           case Err(err) => Err(err)
           case Ok(v) => CallOn(vm, v, m, args))
    case ArrayAccess(a, i) =>
      (match Eval(vm, env, a)
       case Err(err) => Err(err)
       case Ok(av) =>
         match Eval(vm, env, i)
         case Err(err) => Err(err)
         case Ok(iv) => ElementOf(av, iv))
    case Binary(l, op, r) =>
      (if op.CondAnd? || op.CondOr? then
        match Eval(vm, env, l)
        case Err(err) => Err(err)
        case Ok(lv) =>
          match ToBoolean(lv)
          case Err(err) => Err(err)
          case Ok(lb) =>
            if lb == op.CondOr? then Ok(BoolV(lb))
            else
              match Eval(vm, env, r)
              case Err(err) => Err(err)
              case Ok(rv) =>
                match ToBoolean(rv)
                case Err(err) => Err(err)
                case Ok(rb) => Ok(BoolV(rb))
      else
        match Eval(vm, env, l)
        case Err(err) => Err(err)
        case Ok(lv) =>
          match Eval(vm, env, r)
          case Err(err) => Err(err)
          case Ok(rv) => BinaryOn(vm, op, lv, rv))
    case Unary(op, x) =>
      (match Eval(vm, env, x)
       case Err(err) => Err(err)
       case Ok(v) => UnaryOn(op, v))
    case Cast(t, x) =>
      (match Eval(vm, env, x)
       case Err(err) => Err(err)
       case Ok(v) => CastTo(vm, t, v))
    case InstanceOf(x, t) =>
      (match Eval(vm, env, x)
       case Err(err) => Err(err)
       case Ok(v) => InstanceOfTest(vm, v, t))
    case NewObject(t, argExprs) =>
      (if t !in vm.types then Throw(UnknownType(t))
      else if vm.types[t].kind != ClassKind then Throw(NotInstantiable(t))
      else
        match EvalArgs(vm, env, argExprs)
        case Err(err) => Err(err)
        case Ok(args) =>
          match FindMethod(vm, t, "<init>", args)
          case Err(err) => Err(err)
          case Ok(None) => Throw(NoMatchingConstructor(t))
          case Ok(Some(ctor)) =>
            match vm.newInstance(t, ctor, args)
            case Ok(v) => Ok(v)
            case Err(x) => Throw(ConstructorThrew(x)))
    case NewArray(t, size) =>
      (match Eval(vm, env, size)
       case Err(err) => Err(err)
       case Ok(n) => NewArrayOf(vm, t, n))
  }

  /** One unfolding of `Eval` at a binary node. */
  lemma EvalOfBinary(vm: Vm, env: Env, l: Expr, op: BinOp, r: Expr)
    requires Acyclic(vm)
    ensures Eval(vm, env, Binary(l, op, r)) ==
      if op.CondAnd? || op.CondOr? then
        match Eval(vm, env, l)
        case Err(err) => Err(err)
        case Ok(lv) =>
          match ToBoolean(lv)
          case Err(err) => Err(err)
          case Ok(lb) =>
            if lb == op.CondOr? then Ok(BoolV(lb))
            else
              match Eval(vm, env, r)
              case Err(err) => Err(err)
              case Ok(rv) =>
                match ToBoolean(rv)
                case Err(err) => Err(err)
                case Ok(rb) => Ok(BoolV(rb))
      else
        match Eval(vm, env, l)
        case Err(err) => Err(err)
        case Ok(lv) =>
          match Eval(vm, env, r)
          case Err(err) => Err(err)
          case Ok(rv) => BinaryOn(vm, op, lv, rv)
  {
  }

  /** The arguments of a call, evaluated left to right; the first error stops the evaluation. */
  function EvalArgs(vm: Vm, env: Env, args: seq<Expr>): (r: Result<seq<Value>, EvalError>)
    requires Acyclic(vm)
    ensures r.Ok? ==> |r.value| == |args|
    decreases args, 0
  {
    if args == [] then Ok([])
    else
      match Eval(vm, env, args[0])
      case Err(err) => Err(err)
      case Ok(v) =>
        match EvalArgs(vm, env, args[1..])
        case Err(err) => Err(err)
        case Ok(vs) => Ok([v] + vs)
  }

  /** `evaluate`: a class marker may not be the final value. */
  function Evaluate(vm: Vm, env: Env, e: Expr): (r: Result<Value, EvalError>)
    requires Acyclic(vm)
    ensures r.Ok? ==> !r.value.ClassRef? && Eval(vm, env, e) == r
    ensures Eval(vm, env, e).Err? ==> r == Eval(vm, env, e)
  {
    match Eval(vm, env, e)
    case Ok(ClassRef(c)) => Throw(ClassAsValue(c))
    case other => other
  }
}
