/**
 * Corrected counterparts of four interpreter behaviours, following the Java Language
 * Specification: int arithmetic wraps around (section 15.17), an integer `%` by zero throws
 * (section 15.17.3), booleans compare by value (section 15.21.2), a long narrowed to int keeps
 * its low 32 bits (section 5.1.3), and a simple name that is a local variable denotes the
 * variable, not a class (section 6.5.2). Each stands beside the as-written definition it
 * corrects; everything else is left to it.
 */
module InterpFixes {
  import opened Wrappers
  import opened Ast
  import opened Values
  import opened Interp

  /** The values of int kind: their arithmetic is int arithmetic. */
  predicate IsIntKind(v: Value) {
    v.IntV? || v.ShortV? || v.ByteV? || v.CharV?
  }

  function IntOf(v: Value): int
    requires IsIntKind(v)
  {
    match v
    case IntV(i) => i
    case ShortV(s) => s
    case ByteV(b) => b
    case CharV(c) => c
  }

  /** The mathematical result of an integer operator, division and remainder truncating. */
  function ExactResult(op: BinOp, x: int, y: int): int
    requires IsArithmetic(op)
    requires op.Div? || op.Rem? ==> y != 0
  {
    if op.Add? then x + y
    else if op.Sub? then x - y
    else if op.Mul? then x * y
    else if op.Div? then TruncDiv(x, y)
    else TruncRem(x, y)
  }

  /**
   * The corrected binary operation: booleans compare by value, int-kind arithmetic is done on
   * the integers and keeps the low 32 bits, and `/` or `%` by an integer zero throws.
   */
  function JavaBinaryOn(vm: Vm, op: BinOp, l: Value, r: Value): (res: Result<Value, EvalError>)
    requires !op.CondAnd? && !op.CondOr?
  {
    if (op.Eq? || op.Ne?) && l.BoolV? && r.BoolV? then Ok(BoolV((l.z == r.z) == op.Eq?))
    else if IsArithmetic(op) && IsIntKind(l) && IsIntKind(r) then
      if (op.Div? || op.Rem?) && IntOf(r) == 0 then Throw(DivisionByZero)
      else Ok(IntV(Wrap32(ExactResult(op, IntOf(l), IntOf(r)))))
    else BinaryOn(vm, op, l, r)
  }

  /** Two integers that differ by a multiple of 2^32. */
  predicate Congruent32(a: int, b: int) {
    (a - b) % 0x1_0000_0000 == 0
  }

  /** Wrapping keeps the value modulo 2^32. */
  lemma WrapCongruent(e: int)
    ensures Congruent32(Wrap32(e), e)
  {
    var m := 0x1_0000_0000;
    var a := e + 0x8000_0000;
    assert a == m * (a / m) + a % m;
    assert Wrap32(e) - e == -m * (a / m);
  }

  /** `true == true` is true, and in general booleans are equal exactly when they have the same value. */
  lemma JavaBooleanEquality(vm: Vm, a: bool, b: bool)
    ensures JavaBinaryOn(vm, Eq, BoolV(a), BoolV(b)) == Ok(BoolV(a == b))
    ensures JavaBinaryOn(vm, Ne, BoolV(a), BoolV(b)) == Ok(BoolV(a != b))
  {
  }

  /**
   * Int arithmetic yields an int that agrees with the mathematical result modulo 2^32, which
   * is the result itself whenever that is an int.
   */
  lemma JavaIntArithWraps(vm: Vm, op: BinOp, x: int, y: int)
    requires IsArithmetic(op) && IsInt32(x) && IsInt32(y)
    requires op.Div? || op.Rem? ==> y != 0
    ensures var res := JavaBinaryOn(vm, op, IntV(x), IntV(y));
      res.Ok? && res.value.IntV? && IsInt32(res.value.i) &&
      Congruent32(res.value.i, ExactResult(op, x, y)) &&
      (IsInt32(ExactResult(op, x, y)) ==> res.value.i == ExactResult(op, x, y))
  {
    hide BinaryOn;
    var e := ExactResult(op, x, y);
    WrapCongruent(e);
    assert JavaBinaryOn(vm, op, IntV(x), IntV(y)) == Ok(IntV(Wrap32(e)));
  }

  /** The largest int plus one is the smallest int, as in Java. */
  lemma JavaIntOverflowWraps(vm: Vm)
    ensures JavaBinaryOn(vm, Add, IntV(Int32Max), IntV(1)) == Ok(IntV(Int32Min))
    ensures JavaBinaryOn(vm, Div, IntV(Int32Min), IntV(-1)) == Ok(IntV(Int32Min))
  {
    assert ExactResult(Div, Int32Min, -1) == 0x8000_0000;
  }

  /** An integer remainder by zero throws, like an integer division by zero. */
  lemma JavaRemainderByZeroThrows(vm: Vm, l: Value, r: Value)
    requires IsIntKind(l) && IsIntKind(r) && IntOf(r) == 0
    ensures JavaBinaryOn(vm, Rem, l, r) == Throw(DivisionByZero)
    ensures JavaBinaryOn(vm, Div, l, r) == Throw(DivisionByZero)
  {
  }

  /** Where no int result overflows and nothing is divided by zero, the corrected operation agrees with the as-written one. */
  lemma JavaIntArithAgrees(vm: Vm, op: BinOp, x: int, y: int)
    requires IsArithmetic(op) && IsInt32(x) && IsInt32(y)
    requires op.Div? || op.Rem? ==> y != 0
    requires IsInt32(ExactResult(op, x, y))
    ensures JavaBinaryOn(vm, op, IntV(x), IntV(y)) == BinaryOn(vm, op, IntV(x), IntV(y))
  {
    assert ToDouble(vm.fp, IntV(x)) == Ok(Exact(x));
    assert ToDouble(vm.fp, IntV(y)) == Ok(Exact(y));
    assert IntArith(op, x, y) == ExactResult(op, x, y);
  }

  /** The corrected cast: a long narrowed to int, short, byte or char keeps its low bits. */
  function JavaCastTo(vm: Vm, typeName: string, v: Value): (r: Result<Value, EvalError>)
  {
    if v.LongV? && typeName == "int" then Ok(IntV(Wrap32(v.l)))
    else if v.LongV? && typeName == "short" then Ok(ShortV(Wrap16(v.l)))
    else if v.LongV? && typeName == "byte" then Ok(ByteV(Wrap8(v.l)))
    else if v.LongV? && typeName == "char" then Ok(CharV(WrapChar(v.l)))
    else CastTo(vm, typeName, v)
  }

  /** `(int)` of a long is the int congruent to it modulo 2^32, and the long itself when it is an int. */
  lemma JavaLongToIntKeepsLowBits(vm: Vm, l: int)
    ensures var r := JavaCastTo(vm, "int", LongV(l));
      r.Ok? && r.value.IntV? && IsInt32(r.value.i) && Congruent32(r.value.i, l) &&
      (IsInt32(l) ==> r.value.i == l)
  {
    WrapCongruent(l);
  }

  /** Where the long is an int, the corrected cast agrees with the as-written one. */
  lemma JavaCastAgrees(vm: Vm, l: int)
    requires IsInt32(l)
    ensures JavaCastTo(vm, "int", LongV(l)) == CastTo(vm, "int", LongV(l))
  {
    assert ToDouble(vm.fp, LongV(l)) == Ok(Exact(l));
    assert Truncated(vm.fp, Exact(l)) == l;
  }

  /**
   * The corrected method call once the arguments are values: a receiver that is the name of a
   * local variable is that variable's value; any other receiver is resolved as before.
   */
  function JavaCall(vm: Vm, env: Env, receiver: Option<Expr>, m: string, args: seq<Value>): (r: Result<Value, EvalError>)
    requires Acyclic(vm)
  {
    if receiver.Some? && receiver.value.Variable? && receiver.value.name in env.locals then
      CallOn(vm, env.locals[receiver.value.name], m, args)
    else if receiver.Some? && PotentialClassName(receiver.value).Some? then
      match ResolveClass(vm, receiver.value)
      case Some(c) => InvokeStatic(vm, c, m, args)
      case None => Throw(ClassNotLoaded(PotentialClassName(receiver.value).value))
    else if receiver.None? then
      match env.thisObject
      case None => Throw(NoTarget(m))
      case Some(v) => CallOn(vm, v, m, args)
    else
      match Eval(vm, env, receiver.value)
      case Err(err) => Err(err)
      case Ok(v) => CallOn(vm, v, m, args)
  }

  /** A call on a local variable invokes the method on the variable's value, whether or not a class has that name. */
  lemma LocalReceiverIsCalled(vm: Vm, env: Env, n: string, m: string, args: seq<Value>)
    requires Acyclic(vm) && n in env.locals
    ensures JavaCall(vm, env, Some(Variable(n)), m, args) == CallOn(vm, env.locals[n], m, args)
  {
  }

  /** For every receiver that is not a local variable's name, the corrected call is the as-written one. */
  lemma JavaCallAgrees(vm: Vm, env: Env, receiver: Option<Expr>, m: string, argExprs: seq<Expr>)
    requires Acyclic(vm) && EvalArgs(vm, env, argExprs).Ok?
    requires !(receiver.Some? && receiver.value.Variable? && receiver.value.name in env.locals)
    ensures Eval(vm, env, MethodCall(receiver, m, argExprs)) == JavaCall(vm, env, receiver, m, EvalArgs(vm, env, argExprs).value)
  {
  }
}
