/**
 * The JdiInterpreter class: built from a suspended frame, it captures the visible locals and
 * `this`, then evaluates expression trees. Its methods run the loops of the Java class and are
 * proved to compute what the functions of module Interp define.
 */
module Interpreter {
  import opened Wrappers
  import opened Ast
  import opened Values
  import opened Interp

  /** A suspended frame: its visible variables in order (None without debug information) and `this` (None in a static method). */
  datatype Frame = Frame(visibleVariables: Option<seq<(string, Value)>>, thisObject: Option<Value>)

  /** The map `gatherLocalVariables` builds: the variables put in order, so a later one of the same name wins. */
  function Gathered(vars: seq<(string, Value)>): map<string, Value> {
    if vars == [] then map[] else Gathered(vars[..|vars| - 1])[vars[|vars| - 1].0 := vars[|vars| - 1].1]
  }

  /** The index of the last variable named `n`, or -1 when none is. */
  function LastBinding(vars: seq<(string, Value)>, n: string): (k: int)
    ensures -1 <= k < |vars|
    ensures k >= 0 ==> vars[k].0 == n
    ensures forall j | k < j < |vars| :: vars[j].0 != n
  {
    if vars == [] then -1
    else if vars[|vars| - 1].0 == n then |vars| - 1
    else LastBinding(vars[..|vars| - 1], n)
  }

  /** A name is bound iff some variable has it, and it is bound to the value of the last such variable. */
  lemma {:induction false} GatheredIsLastBinding(vars: seq<(string, Value)>, n: string)
    ensures n in Gathered(vars) <==> LastBinding(vars, n) >= 0
    ensures n in Gathered(vars) ==> Gathered(vars)[n] == vars[LastBinding(vars, n)].1
  {
    if vars != [] {
      var init := vars[..|vars| - 1];
      GatheredIsLastBinding(init, n);
      if vars[|vars| - 1].0 != n {
        assert LastBinding(vars, n) == LastBinding(init, n);
        assert n in Gathered(vars) <==> n in Gathered(init);
        if LastBinding(init, n) >= 0 {
          assert vars[LastBinding(init, n)] == init[LastBinding(init, n)];
        }
      }
    }
  }

  /** The values evaluated so far in front of the outcome of evaluating the rest. */
  function Prefixed(vals: seq<Value>, rest: Result<seq<Value>, EvalError>): Result<seq<Value>, EvalError> {
    match rest
    case Err(err) => Err(err)
    case Ok(vs) => Ok(vals + vs)
  }

  lemma PrefixedAssoc(a: seq<Value>, b: seq<Value>, rest: Result<seq<Value>, EvalError>)
    ensures Prefixed(a, Prefixed(b, rest)) == Prefixed(a + b, rest)
    ensures Prefixed([], rest) == rest
  {
    if rest.Ok? {
      assert a + (b + rest.value) == (a + b) + rest.value;
      assert [] + rest.value == rest.value;
    }
  }

  function LocalsOf(frame: Frame): map<string, Value> {
    match frame.visibleVariables
    case None => map[]
    case Some(vs) => Gathered(vs)
  }

  class JdiInterpreter {
    const vm: Vm
    const frame: Frame
    const localVariables: map<string, Value>
    const thisObject: Option<Value>

    /** The environment the functions of module Interp evaluate in. */
    function Environment(): Env {
      Env(localVariables, thisObject)
    }

    constructor(vm: Vm, frame: Frame)
      ensures this.vm == vm && this.frame == frame
      ensures localVariables == LocalsOf(frame) && thisObject == frame.thisObject
    {
      var vars: map<string, Value> := map[];
      if frame.visibleVariables.Some? {
        var vs := frame.visibleVariables.value;
        var i := 0;
        while i < |vs|
          invariant 0 <= i <= |vs|
          invariant vars == Gathered(vs[..i])
        {
          assert vs[..i + 1][..i] == vs[..i];
          vars := vars[vs[i].0 := vs[i].1];
          i := i + 1;
        }
        assert vs[..|vs|] == vs;
      }
      this.vm := vm;
      this.frame := frame;
      localVariables := vars;
      thisObject := frame.thisObject;
    }

    /** `evaluate`. */
    method Evaluate(e: Expr) returns (r: Result<Value, EvalError>)
      requires Acyclic(vm)
      ensures r == Interp.Evaluate(vm, Environment(), e)
    {
      r := EvalExpr(e);
      if r.Ok? && r.value.ClassRef? {
        r := Throw(ClassAsValue(r.value.className));
      }
    }

    /** `evalExpr`. */
    method EvalExpr(e: Expr) returns (r: Result<Value, EvalError>)
      requires Acyclic(vm)
      ensures r == Eval(vm, Environment(), e)
      decreases e, 2
    {
      hide BinaryOn, UnaryOn, CastTo, InstanceOfTest, NewArrayOf, StaticField, FieldOf, InvokeStatic, CallOn, ElementOf, LiteralValue, FindMethod, ResolveClass, PotentialClassName;
      match e {
        case Literal(lit) =>
          r := Ok(LiteralValue(vm.fp, lit));
        case Variable(n) =>
          if n in localVariables {
            r := Ok(localVariables[n]);
          } else {
            r := Throw(VariableNotFound(n));
          }
        case This =>
          if thisObject.None? {
            r := Throw(ThisInStaticContext);
          } else {
            r := Ok(thisObject.value);
          }
        case FieldAccess(target, f) =>
          r := EvalFieldAccess(target, f);
        case MethodCall(receiver, m, argExprs) =>
          r := EvalMethodCall(receiver, m, argExprs);
        case ArrayAccess(a, i) =>
          var av := EvalExpr(a);
          if av.Err? {
            return Err(av.error);
          }
          var iv := EvalExpr(i);
          if iv.Err? {
            return Err(iv.error);
          }
          r := ElementOf(av.value, iv.value);
        case Binary(l, op, rt) =>
          r := EvalBinary(l, op, rt);
        case Unary(op, x) =>
          var v := EvalExpr(x);
          if v.Err? {
            return Err(v.error);
          }
          r := UnaryOn(op, v.value);
        case Cast(t, x) =>
          var v := EvalExpr(x);
          if v.Err? {
            return Err(v.error);
          }
          r := CastTo(vm, t, v.value);
        case InstanceOf(x, t) =>
          var v := EvalExpr(x);
          if v.Err? {
            return Err(v.error);
          }
          r := InstanceOfCheck(v.value, t);
        case NewObject(t, argExprs) =>
          r := EvalNewObject(t, argExprs);
        case NewArray(t, size) =>
          var n := EvalExpr(size);
          if n.Err? {
            return Err(n.error);
          }
          r := NewArrayOf(vm, t, n.value);
      }
    }

    /** `evalFieldAccess`: a whole dotted class name, a static field of a class named by the target, or a field of the target's value. */
    method EvalFieldAccess(target: Expr, f: string) returns (r: Result<Value, EvalError>)
      requires Acyclic(vm)
      ensures r == Eval(vm, Environment(), FieldAccess(target, f))
      decreases FieldAccess(target, f), 0
    {
      hide BinaryOn, UnaryOn, CastTo, InstanceOfTest, NewArrayOf, StaticField, FieldOf, InvokeStatic, CallOn, ElementOf, LiteralValue, FindMethod, ResolveClass, PotentialClassName;
      var whole := ResolveClass(vm, FieldAccess(target, f));
      if whole.Some? {
        return Ok(ClassRef(whole.value));
      }
      var cls := ResolveClass(vm, target);
      if cls.Some? {
        return StaticField(vm, cls.value, f, true);
      }
      var tv := EvalExpr(target);
      if tv.Err? {
        return Err(tv.error);
      }
      r := FieldOf(vm, tv.value, f);
    }

    /** `evalMethodCall`: the arguments first, then a static call when the receiver names a class, else a call on `this` or on the receiver's value. */
    method EvalMethodCall(receiver: Option<Expr>, m: string, argExprs: seq<Expr>) returns (r: Result<Value, EvalError>)
      requires Acyclic(vm)
      ensures r == Eval(vm, Environment(), MethodCall(receiver, m, argExprs))
      decreases MethodCall(receiver, m, argExprs), 0
    {
      hide BinaryOn, UnaryOn, CastTo, InstanceOfTest, NewArrayOf, StaticField, FieldOf, InvokeStatic, CallOn, ElementOf, LiteralValue, FindMethod, ResolveClass, PotentialClassName;
      var args := EvalArguments(argExprs);
      if args.Err? {
        return Err(args.error);
      }
      if receiver.Some? {
        var potential := PotentialClassName(receiver.value);
        if potential.Some? {
          var cls := ResolveClass(vm, receiver.value);
          if cls.Some? {
            r := InvokeStaticMethod(cls.value, m, args.value);
          } else {
            r := Throw(ClassNotLoaded(potential.value));
          }
          return;
        }
      }
      var tv: Result<Value, EvalError>;
      if receiver.None? {
        if thisObject.None? {
          return Throw(NoTarget(m));
        }
        tv := Ok(thisObject.value);
      } else {
        tv := EvalExpr(receiver.value);
        if tv.Err? {
          return Err(tv.error);
        }
      }
      r := CallMethodOn(tv.value, m, args.value);
    }

    /** `evalBinary`: `&&` and `||` short-circuit on a boolean left operand; every other operator evaluates both sides. */
    method EvalBinary(l: Expr, op: BinOp, rt: Expr) returns (r: Result<Value, EvalError>)
      requires Acyclic(vm)
      ensures r == Eval(vm, Environment(), Binary(l, op, rt))
      decreases Binary(l, op, rt), 1
    {
      hide Eval, BinaryOn, ToBoolean;
      EvalOfBinary(vm, Environment(), l, op, rt);
      if op.CondAnd? || op.CondOr? {
        r := EvalConditional(l, op, rt);
        return;
      }
      var lv := EvalExpr(l);
      if lv.Err? {
        return Err(lv.error);
      }
      var rv := EvalExpr(rt);
      if rv.Err? {
        return Err(rv.error);
      }
      r := BinaryOn(vm, op, lv.value, rv.value);
    }

    /** The short-circuit half of `evalBinary`: the right operand of `&&` is evaluated only after a true left one, that of `||` only after a false one. */
    method EvalConditional(l: Expr, op: BinOp, rt: Expr) returns (r: Result<Value, EvalError>)
      requires Acyclic(vm)
      requires op.CondAnd? || op.CondOr?
      ensures r == Eval(vm, Environment(), Binary(l, op, rt))
      decreases Binary(l, op, rt), 0
    {
      hide Eval, BinaryOn, ToBoolean;
      EvalOfBinary(vm, Environment(), l, op, rt);
      var lv := EvalExpr(l);
      if lv.Err? {
        return Err(lv.error);
      }
      var lb := ToBoolean(lv.value);
      if lb.Err? {
        return Err(lb.error);
      }
      if lb.value == op.CondOr? {
        return Ok(BoolV(lb.value));
      }
      var rv := EvalExpr(rt);
      if rv.Err? {
        return Err(rv.error);
      }
      var rb := ToBoolean(rv.value);
      if rb.Err? {
        return Err(rb.error);
      }
      r := Ok(BoolV(rb.value));
    }

    /** `evalNewObject`: a loaded class, its arguments, the first applicable constructor, then the new instance. */
    method EvalNewObject(t: string, argExprs: seq<Expr>) returns (r: Result<Value, EvalError>)
      requires Acyclic(vm)
      ensures r == Eval(vm, Environment(), NewObject(t, argExprs))
      decreases NewObject(t, argExprs), 0
    {
      hide BinaryOn, UnaryOn, CastTo, InstanceOfTest, NewArrayOf, StaticField, FieldOf, InvokeStatic, CallOn, ElementOf, LiteralValue, FindMethod, ResolveClass, PotentialClassName;
      if t !in vm.types {
        return Throw(UnknownType(t));
      }
      if vm.types[t].kind != ClassKind {
        return Throw(NotInstantiable(t));
      }
      var args := EvalArguments(argExprs);
      if args.Err? {
        return Err(args.error);
      }
      var ctor := FindMethodOf(t, "<init>", args.value);
      if ctor.Err? {
        return Err(ctor.error);
      }
      if ctor.value.None? {
        return Throw(NoMatchingConstructor(t));
      }
      var made := vm.newInstance(t, ctor.value.value, args.value);
      if made.Err? {
        return Throw(ConstructorThrew(made.error));
      }
      r := Ok(made.value);
    }

    /** The loop of `evalMethodCall` and `evalNewObject` that evaluates the arguments in order. */
    method EvalArguments(argExprs: seq<Expr>) returns (r: Result<seq<Value>, EvalError>)
      requires Acyclic(vm)
      ensures r == EvalArgs(vm, Environment(), argExprs)
      decreases argExprs, 0
    {
      var vals: seq<Value> := [];
      var i := 0;
      assert argExprs[i..] == argExprs;
      PrefixedAssoc([], [], EvalArgs(vm, Environment(), argExprs));
      while i < |argExprs|
        invariant 0 <= i <= |argExprs|
        invariant |vals| == i
        invariant EvalArgs(vm, Environment(), argExprs) == Prefixed(vals, EvalArgs(vm, Environment(), argExprs[i..]))
      {
        var rest := argExprs[i..];
        assert rest[0] == argExprs[i] && rest[1..] == argExprs[i + 1..];
        var v := EvalExpr(argExprs[i]);
        if v.Err? {
          assert EvalArgs(vm, Environment(), rest) == Err(v.error);
          return Err(v.error);
        }
        assert EvalArgs(vm, Environment(), rest) == Prefixed([v.value], EvalArgs(vm, Environment(), argExprs[i + 1..]));
        PrefixedAssoc(vals, [v.value], EvalArgs(vm, Environment(), argExprs[i + 1..]));
        vals := vals + [v.value];
        i := i + 1;
      }
      assert argExprs[i..] == [] && vals + [] == vals;
      r := Ok(vals);
    }

    /** The part of `evalMethodCall` after the target is a value. */
    method CallMethodOn(target: Value, m: string, args: seq<Value>) returns (r: Result<Value, EvalError>)
      requires Acyclic(vm)
      ensures r == CallOn(vm, target, m, args)
    {
      if target.ClassRef? {
        if target.className in vm.types {
          r := InvokeStaticMethod(target.className, m, args);
        } else {
          r := Err(EvaluationFailed(UnsupportedOperation));
        }
        return;
      }
      if target.Null? {
        return Throw(MethodOnNull(m));
      }
      if !IsObject(target) {
        return Throw(MethodOnPrimitive);
      }
      var t := ReferenceTypeName(target).value;
      var found := FindMethodOf(t, m, args);
      if found.Err? {
        return Err(found.error);
      }
      if found.value.None? {
        return Throw(MethodNotFound(m, |args|, t));
      }
      var result := vm.invoke(target, found.value.value, args);
      if result.Err? {
        return Throw(MethodThrew(result.error));
      }
      r := Ok(result.value);
    }

    /** `invokeStaticMethod`. */
    method InvokeStaticMethod(c: string, m: string, args: seq<Value>) returns (r: Result<Value, EvalError>)
      requires Acyclic(vm)
      ensures r == InvokeStatic(vm, c, m, args)
    {
      var found := FindMethodOf(c, m, args);
      if found.Err? {
        return Err(found.error);
      }
      if found.value.None? {
        return Throw(StaticMethodNotFound(m, |args|, c));
      }
      var md := found.value.value;
      if !md.isStatic {
        return Throw(MethodNotStatic(m));
      }
      if !IsClassType(vm, c) {
        return Throw(StaticOnNonClass(c));
      }
      var result := vm.invokeStatic(c, md, args);
      if result.Err? {
        return Throw(MethodThrew(result.error));
      }
      r := Ok(result.value);
    }

    /** `findMethod`: the first visible method of that name whose parameters all accept the arguments. */
    method FindMethodOf(typeName: string, name: string, args: seq<Value>) returns (r: Result<Option<MethodDecl>, EvalError>)
      requires Acyclic(vm)
      ensures r == FindMethod(vm, typeName, name, args)
    {
      var candidates := MethodsByName(vm, typeName, name);
      var i := 0;
      while i < |candidates|
        invariant 0 <= i <= |candidates|
        invariant FirstCompatible(vm, candidates, args) == FirstCompatible(vm, candidates[i..], args)
      {
        assert candidates[i..][1..] == candidates[i + 1..];
        var method_ := candidates[i];
        if method_.params.Some? && |method_.params.value| == |args| {
          var compatible := ArgumentsCompatible(method_.params.value, args);
          if compatible.Err? {
            return Err(compatible.error);
          }
          if compatible.value {
            return Ok(Some(method_));
          }
        }
        i := i + 1;
      }
      r := Ok(None);
    }

    /** The inner loop of `findMethod`: every argument assignable to its parameter, stopping at the first that is not. */
    method ArgumentsCompatible(paramTypes: seq<JType>, args: seq<Value>) returns (r: Result<bool, EvalError>)
      requires Acyclic(vm)
      requires |paramTypes| == |args|
      ensures r == AllAssignable(vm, paramTypes, args)
    {
      var j := 0;
      while j < |args|
        invariant 0 <= j <= |args|
        invariant AllAssignable(vm, paramTypes, args) == AllAssignable(vm, paramTypes[j..], args[j..])
      {
        assert paramTypes[j..][1..] == paramTypes[j + 1..] && args[j..][1..] == args[j + 1..];
        var ok := IsAssignableFrom(paramTypes[j], args[j]);
        if ok.Err? {
          return Err(ok.error);
        }
        if !ok.value {
          return Ok(false);
        }
        j := j + 1;
      }
      r := Ok(true);
    }

    /** `isAssignableFrom`. */
    method IsAssignableFrom(param: JType, arg: Value) returns (r: Result<bool, EvalError>)
      requires Acyclic(vm)
      ensures r == IsAssignable(vm, param, arg)
    {
      if arg.Null? {
        return Ok(!param.Prim?);
      }
      var argType := TypeOf(arg);
      if argType.Err? {
        return Err(argType.error);
      }
      var t := argType.value;
      if param == t {
        return Ok(true);
      }
      if param.Prim? && t.Prim? {
        return Ok(CanWiden(t.primName, param.primName));
      }
      if param.RefT? && t.RefT? && IsClassType(vm, t.refName) {
        var reaches := SuperclassWalk(t.refName, param.refName);
        if reaches {
          return Ok(true);
        }
      }
      if param.Prim? && t.RefT? {
        var wrapper := WrapperType(param.primName);
        return Ok(wrapper.Some? && t.refName == wrapper.value);
      }
      if param.RefT? && t.Prim? {
        var wrapper := WrapperType(t.primName);
        return Ok(wrapper.Some? && param.refName == wrapper.value);
      }
      r := Ok(false);
    }

    /** The walk up the superclass chain shared by `isAssignableFrom` and `evalInstanceOf`. */
    method SuperclassWalk(start: string, target: string) returns (found: bool)
      requires Acyclic(vm)
      ensures found == ClassReaches(vm, start, target)
    {
      var ct: Option<string> := if start in vm.types then Some(start) else None;
      while ct.Some?
        invariant ct.Some? ==> ct.value in vm.types
        invariant ClassReaches(vm, start, target) == (ct.Some? && ClassReaches(vm, ct.value, target))
        decreases if ct.Some? then Depth(vm, ct.value) + 1 else 0
      {
        var c := ct.value;
        if c == target {
          return true;
        }
        var ifaces := vm.types[c].interfaces;
        var k := 0;
        while k < |ifaces|
          invariant 0 <= k <= |ifaces|
          invariant Implements(vm, ifaces, target, vm.types[c].depth) ==
                    Implements(vm, ifaces[k..], target, vm.types[c].depth)
        {
          assert ifaces[k..][1..] == ifaces[k + 1..];
          var hit := ImplementsInterface(ifaces[k], target);
          if hit {
            return true;
          }
          k := k + 1;
        }
        var sup := vm.types[c].superclass;
        ct := if sup.Some? && sup.value in vm.types then sup else None;
      }
      found := false;
    }

    /** `implementsInterface`: the interface is the target or extends it, transitively. */
    method ImplementsInterface(iface: string, target: string) returns (r: bool)
      requires Acyclic(vm)
      ensures r == (iface == target ||
                    (iface in vm.types && Implements(vm, vm.types[iface].interfaces, target, vm.types[iface].depth)))
      decreases Depth(vm, iface), if iface in vm.types then 1 else 0
    {
      if iface == target {
        return true;
      }
      if iface !in vm.types {
        return false;
      }
      var supers := vm.types[iface].interfaces;
      var k := 0;
      while k < |supers|
        invariant 0 <= k <= |supers|
        invariant Implements(vm, supers, target, vm.types[iface].depth) ==
                  Implements(vm, supers[k..], target, vm.types[iface].depth)
      {
        assert supers[k..][1..] == supers[k + 1..];
        assert supers[k] in vm.types ==> vm.types[supers[k]].depth < vm.types[iface].depth;
        var hit := ImplementsInterface(supers[k], target);
        if hit {
          return true;
        }
        k := k + 1;
      }
      r := false;
    }

    /** `evalInstanceOf` once the operand is a value. */
    method InstanceOfCheck(v: Value, typeName: string) returns (r: Result<Value, EvalError>)
      requires Acyclic(vm)
      ensures r == InstanceOfTest(vm, v, typeName)
    {
      if v.Null? {
        return Ok(BoolV(false));
      }
      if !IsObject(v) {
        return Throw(InstanceOfPrimitive);
      }
      if typeName !in vm.types {
        return Throw(UnknownType(typeName));
      }
      var objType := ReferenceTypeName(v);
      if objType.Err? {
        return Err(objType.error);
      }
      var found := false;
      if IsClassType(vm, objType.value) {
        found := SuperclassWalk(objType.value, typeName);
      }
      r := Ok(BoolV(found));
    }
  }
}
