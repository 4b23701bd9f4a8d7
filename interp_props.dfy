/**
 * Properties of the interpreter model: the conversion tables against the language's own rules,
 * the arithmetic against Java's integer operators, equality, method lookup, instanceof against
 * parameter passing, static access through dotted names, and the behaviours the code has that
 * a Java programmer would not expect.
 */
module InterpProps {
  import opened Wrappers
  import opened Ast
  import opened Values
  import opened Interp

  // ---------------------------------------------------------------- widening and boxing

  /** One step of the widening chain of section 5.1.2 of the Java Language Specification. */
  function WiderStep(t: string): Option<string> {
    match t
    case "byte" => Some("short")
    case "short" => Some("int")
    case "char" => Some("int")
    case "int" => Some("long")
    case "long" => Some("float")
    case "float" => Some("double")
    case _ => None
  }

  /** `to` is reached from `from` in one to `steps` widening steps. */
  predicate WidensWithin(from: string, to: string, steps: nat)
    decreases steps
  {
    steps > 0 && WiderStep(from).Some? &&
    (WiderStep(from).value == to || WidensWithin(WiderStep(from).value, to, steps - 1))
  }

  /** `canWiden` is exactly the chain of widening steps, which is never longer than five. */
  lemma CanWidenIsWideningChain(from: string, to: string)
    ensures CanWiden(from, to) <==> WidensWithin(from, to, 5)
  {
    assert WidensWithin("double", to, 0) == false;
    assert !WidensWithin("double", to, 1);
    assert WidensWithin("float", to, 2) <==> to == "double";
    assert WidensWithin("long", to, 3) <==> to == "float" || to == "double";
    assert WidensWithin("int", to, 4) <==> to == "long" || to == "float" || to == "double";
  }

  /** Widening is a strict order: never from a type to itself, and transitive. */
  lemma CanWidenStrictOrder(a: string, b: string, c: string)
    ensures !CanWiden(a, a)
    ensures CanWiden(a, b) && CanWiden(b, c) ==> CanWiden(a, c)
    ensures !CanWiden(a, "char") && !CanWiden(a, "byte") && !CanWiden("boolean", a) && !CanWiden(a, "boolean")
  {
  }

  /** Each primitive type has its own box class. */
  lemma WrapperTypeInjective(a: string, b: string)
    requires WrapperType(a).Some? && WrapperType(a) == WrapperType(b)
    ensures a == b
  {
  }

  // ---------------------------------------------------------------- integer arithmetic

  /** Truncating division and its remainder are Java's `/` and `%` on integers. */
  lemma TruncDivRem(a: int, b: int)
    requires b != 0
    ensures a == b * TruncDiv(a, b) + TruncRem(a, b)
    ensures -(if b < 0 then -b else b) < TruncRem(a, b) < (if b < 0 then -b else b)
    ensures TruncRem(a, b) == 0 || (TruncRem(a, b) < 0 <==> a < 0)
  {
    var x := if a < 0 then -a else a;
    var y := if b < 0 then -b else b;
    assert x == y * (x / y) + x % y && 0 <= x % y < y;
    var q := TruncDiv(a, b);
    if (a < 0) == (b < 0) {
      assert q == x / y;
      if a < 0 {
        assert TruncRem(a, b) == -(x % y) by { assert b * q == -(y * q); }
      } else {
        assert TruncRem(a, b) == x % y;
      }
    } else {
      assert q == -(x / y);
      if a < 0 {
        assert TruncRem(a, b) == -(x % y) by { assert b * q == -(y * (x / y)); }
      } else {
        assert TruncRem(a, b) == x % y by { assert b * q == y * (x / y); }
      }
    }
  }

  /** An int sum is Java's wherever Java does not overflow; beyond that it saturates where Java wraps around. */
  lemma IntAddSaturates(x: int, y: int)
    requires IsInt32(x) && IsInt32(y)
    ensures IntArith(Add, x, y) == if x + y > Int32Max then Int32Max else if x + y < Int32Min then Int32Min else x + y
    ensures IsInt32(x + y) ==> IntArith(Add, x, y) == Wrap32(x + y)
    ensures x + y > Int32Max ==> IntArith(Add, x, y) != Wrap32(x + y)
  {
  }

  /** A quotient by two or more is at most half the dividend. */
  lemma DivHalves(x: int, y: int)
    requires x >= 0 && y >= 2
    ensures 0 <= 2 * (x / y) <= x
  {
    var q := x / y;
    assert y * q <= x;
    assert y * q >= 2 * q by { assert (y - 2) * q >= 0; }
  }

  /** Int division is Java's truncating division, except that the one quotient that overflows saturates. */
  lemma IntDivIsTruncating(x: int, y: int)
    requires IsInt32(x) && IsInt32(y) && y != 0
    ensures !(x == Int32Min && y == -1) ==> IntArith(Div, x, y) == TruncDiv(x, y)
    ensures x == Int32Min && y == -1 ==> IntArith(Div, x, y) == Int32Max && Wrap32(TruncDiv(x, y)) == Int32Min
  {
    var ax := if x < 0 then -x else x;
    var ay := if y < 0 then -y else y;
    var q := ax / ay;
    assert TruncDiv(x, y) == if (x < 0) != (y < 0) then -q else q;
    if ay == 1 {
      assert q == ax;
    } else {
      DivHalves(ax, ay);
      assert IsInt32(q) && IsInt32(-q);
    }
  }

  /** `%` by zero is not an error: the double remainder is NaN, which the int cast makes 0. */
  lemma RemainderByZeroIsZero(vm: Vm, x: int)
    ensures BinaryOn(vm, Rem, IntV(x), IntV(0)) == Ok(IntV(0))
  {
    assert ToDouble(vm.fp, IntV(0)) == Ok(Exact(0));
  }

  /** Division by a zero of any numeric kind is the interpreter's own error. */
  lemma DivisionByZeroRaises(vm: Vm, l: Value, r: Value)
    requires IsPrimitive(l) && !l.BoolV? && IsPrimitive(r) && !r.BoolV? && IsZeroValue(r)
    ensures BinaryOn(vm, Div, l, r) == Throw(DivisionByZero)
  {
  }

  /** Negation wraps around like Java's: applied twice it gives back any int, the smallest one included. */
  lemma NegateTwice(i: int)
    requires IsInt32(i)
    ensures UnaryOn(Neg, IntV(i)).Ok?
    ensures UnaryOn(Neg, UnaryOn(Neg, IntV(i)).value) == Ok(IntV(i))
    ensures i == Int32Min ==> UnaryOn(Neg, IntV(i)) == Ok(IntV(Int32Min))
  {
    if i == Int32Min {
      assert Wrap32(-i) == Int32Min;
    } else {
      assert Wrap32(-i) == -i;
      assert Wrap32(i) == i;
    }
  }

  // ---------------------------------------------------------------- casts

  /** Casts from int are Java's narrowing and widening conversions. */
  lemma CastFromInt(vm: Vm, i: int)
    requires IsInt32(i)
    ensures CastTo(vm, "int", IntV(i)) == Ok(IntV(i))
    ensures CastTo(vm, "long", IntV(i)) == Ok(LongV(i))
    ensures CastTo(vm, "short", IntV(i)) == Ok(ShortV(Wrap16(i)))
    ensures CastTo(vm, "byte", IntV(i)) == Ok(ByteV(Wrap8(i)))
    ensures CastTo(vm, "char", IntV(i)) == Ok(CharV(i % 0x1_0000))
    ensures CastTo(vm, "boolean", IntV(i)) == Throw(CannotCastPrimitive("boolean"))
  {
    assert ToDouble(vm.fp, IntV(i)) == Ok(Exact(i));
    assert Truncated(vm.fp, Exact(i)) == i;
  }

  /**
   * A long outside the int range, cast to int, saturates at the nearer end of the range, where
   * Java's `(int)` of a long keeps the low 32 bits (2^32 becomes 0).
   */
  lemma CastLongToIntSaturates(vm: Vm, l: int)
    requires IsSafe(l) && !IsInt32(l)
    ensures CastTo(vm, "int", LongV(l)) == Ok(IntV(if l > 0 then Int32Max else Int32Min))
    ensures l == 0x1_0000_0000 ==> Wrap32(l) == 0
  {
    assert ToDouble(vm.fp, LongV(l)) == Ok(Exact(l));
    assert Truncated(vm.fp, Exact(l)) == l;
  }

  /** A char cast to int and back gives the same character. */
  lemma CharIntRoundTrip(vm: Vm, c: int)
    requires 0 <= c < 0x1_0000
    ensures CastTo(vm, "int", CharV(c)) == Ok(IntV(c))
    ensures CastTo(vm, "char", IntV(c)) == Ok(CharV(c))
  {
    assert ToDouble(vm.fp, CharV(c)) == Ok(Exact(c));
    assert ToDouble(vm.fp, IntV(c)) == Ok(Exact(c));
    assert Truncated(vm.fp, Exact(c)) == c;
  }

  // ---------------------------------------------------------------- equality

  /** Booleans never compare equal: `toDouble` rejects them and `valuesEqual` answers false. */
  lemma BooleansNeverEqual(fp: FloatOps, a: bool, b: bool)
    ensures ValuesEqual(fp, BoolV(a), BoolV(b)) == Ok(false)
  {
  }

  /** So `true == true` evaluates to false and `true != true` to true. */
  lemma TrueEqualsTrueIsFalse(vm: Vm, env: Env)
    requires Acyclic(vm)
    ensures Eval(vm, env, Binary(Literal(LBool(true)), Eq, Literal(LBool(true)))) == Ok(BoolV(false))
    ensures Eval(vm, env, Binary(Literal(LBool(true)), Ne, Literal(LBool(true)))) == Ok(BoolV(true))
  {
    BooleansNeverEqual(vm.fp, true, true);
  }

  /** Every string literal mirrors a new string, so two string literals are never the same object. */
  lemma StringLiteralsNeverIdentical(vm: Vm, env: Env, s: string, t: string)
    requires Acyclic(vm)
    ensures Eval(vm, env, Binary(Literal(LStr(s)), Eq, Literal(LStr(t)))) == Ok(BoolV(false))
  {
  }

  /** Integers of any kinds compare by value. */
  lemma IntegerEqualityIsNumeric(fp: FloatOps, l: Value, r: Value)
    requires WellFormed(l) && WellFormed(r)
    requires l.IntV? || l.ShortV? || l.ByteV? || l.CharV?
    requires r.IntV? || r.ShortV? || r.ByteV? || r.CharV?
    ensures ValuesEqual(fp, l, r) == Ok(ToDouble(fp, l).value.n == ToDouble(fp, r).value.n)
  {
  }

  /** Objects compare by identity. */
  lemma ObjectEqualityIsIdentity(fp: FloatOps, a: int, ta: string, b: int, tb: string)
    ensures ValuesEqual(fp, ObjV(a, ta), ObjV(b, tb)) == Ok(a == b)
  {
  }

  /** `==` is symmetric whenever the VM's double comparison is. */
  lemma ValuesEqualSymmetric(fp: FloatOps, l: Value, r: Value)
    requires forall x: bv64, y: bv64 :: fp.compare(Eq, x, y) == fp.compare(Eq, y, x)
    ensures ValuesEqual(fp, l, r).Ok? ==> ValuesEqual(fp, l, r) == ValuesEqual(fp, r, l)
  {
    if l.Null? || r.Null? {
    } else if IsObject(l) && IsObject(r) {
      var a, b := UniqueId(l), UniqueId(r);
      if a.Ok? && b.Ok? {
        assert ValuesEqual(fp, l, r) == Ok(a.value.Some? && b.value.Some? && a.value.value == b.value.value);
        assert ValuesEqual(fp, r, l) == Ok(b.value.Some? && a.value.Some? && b.value.value == a.value.value);
      }
    } else if IsPrimitive(l) && IsPrimitive(r) {
      var dl, dr := ToDouble(fp, l), ToDouble(fp, r);
      if dl.Ok? && dr.Ok? {
        CompareEqSymmetric(fp, dl.value, dr.value);
        assert ValuesEqual(fp, l, r) == Ok(Compare(fp, Eq, dl.value, dr.value));
        assert ValuesEqual(fp, r, l) == Ok(Compare(fp, Eq, dr.value, dl.value));
      } else {
        assert ValuesEqual(fp, l, r) == Ok(false) == ValuesEqual(fp, r, l);
      }
    } else {
      assert ValuesEqual(fp, l, r) == Ok(false) == ValuesEqual(fp, r, l);
    }
  }

  lemma CompareEqSymmetric(fp: FloatOps, a: Num, b: Num)
    requires forall x: bv64, y: bv64 :: fp.compare(Eq, x, y) == fp.compare(Eq, y, x)
    ensures Compare(fp, Eq, a, b) == Compare(fp, Eq, b, a)
  {
    if a.Exact? && b.Exact? {
      if !(IsSafe(a.n) && IsSafe(b.n)) {
        var p, q := fp.ofInt(a.n), fp.ofInt(b.n);
        assert fp.compare(Eq, p, q) == fp.compare(Eq, q, p);
      }
    } else {
      assert fp.compare(Eq, Bits(fp, a), Bits(fp, b)) == fp.compare(Eq, Bits(fp, b), Bits(fp, a));
    }
  }

  // ---------------------------------------------------------------- conditional operators and concatenation

  /** `&&` does not evaluate its right side when the left is false, so an error there does not matter. */
  lemma AndShortCircuits(vm: Vm, env: Env, l: Expr, r: Expr)
    requires Acyclic(vm)
    requires Eval(vm, env, l) == Ok(BoolV(false))
    ensures Eval(vm, env, Binary(l, CondAnd, r)) == Ok(BoolV(false))
  {
  }

  /** `||` does not evaluate its right side when the left is true. */
  lemma OrShortCircuits(vm: Vm, env: Env, l: Expr, r: Expr)
    requires Acyclic(vm)
    requires Eval(vm, env, l) == Ok(BoolV(true))
    ensures Eval(vm, env, Binary(l, CondOr, r)) == Ok(BoolV(true))
  {
  }

  /** A conditional operator needs a boolean on the left, whatever the right side is. */
  lemma ConditionalNeedsBoolean(vm: Vm, env: Env, l: Expr, op: BinOp, r: Expr, v: Value)
    requires Acyclic(vm)
    requires op.CondAnd? || op.CondOr?
    requires Eval(vm, env, l) == Ok(v) && !v.BoolV?
    ensures Eval(vm, env, Binary(l, op, r)) == Throw(ExpectedBoolean)
  {
  }

  /** `+` with a string on either side concatenates the text of both sides into a new string. */
  lemma ConcatenationText(vm: Vm, l: Value, r: Value)
    requires l.StrV? || r.StrV?
    requires !l.ClassRef? && !r.ClassRef?
    ensures BinaryOn(vm, Add, l, r) == Ok(StrV(ValueToString(vm, l).value + ValueToString(vm, r).value, None))
  {
  }

  /** A string and an int concatenate to the string followed by the int's decimal text. */
  lemma ConcatenateInt(vm: Vm, s: string, u: Option<int>, i: int)
    ensures BinaryOn(vm, Add, StrV(s, u), IntV(i)) == Ok(StrV(s + Strs.IntToString(i), None))
  {
  }

  // ---------------------------------------------------------------- method lookup

  /** `findMethod` answers the first applicable candidate: every candidate before it is not applicable. */
  lemma {:induction false} FirstCompatibleIsFirst(vm: Vm, ms: seq<MethodDecl>, args: seq<Value>)
    requires Acyclic(vm)
    requires FirstCompatible(vm, ms, args).Ok? && FirstCompatible(vm, ms, args).value.Some?
    ensures exists k | 0 <= k < |ms| ::
      ms[k] == FirstCompatible(vm, ms, args).value.value && Applicable(vm, ms[k], args) &&
      forall j | 0 <= j < k :: !Applicable(vm, ms[j], args)
  {
    if Applicable(vm, ms[0], args) {
      assert ms[0] == FirstCompatible(vm, ms, args).value.value;
    } else {
      FirstCompatibleIsFirst(vm, ms[1..], args);
      var k :| 0 <= k < |ms[1..]| &&
        ms[1..][k] == FirstCompatible(vm, ms[1..], args).value.value && Applicable(vm, ms[1..][k], args) &&
        forall j | 0 <= j < k :: !Applicable(vm, ms[1..][j], args);
      assert FirstCompatible(vm, ms, args) == FirstCompatible(vm, ms[1..], args);
      assert forall j | 0 <= j < k + 1 :: !Applicable(vm, ms[j], args) by {
        forall j | 0 <= j < k + 1 ensures !Applicable(vm, ms[j], args) {
          if j > 0 { assert ms[j] == ms[1..][j - 1]; }
        }
      }
      assert ms[k + 1] == ms[1..][k];
    }
  }

  /** Method lookup fails only when a class marker is passed as an argument. */
  lemma {:induction false} FindOnlyFailsOnMarkers(vm: Vm, ms: seq<MethodDecl>, args: seq<Value>)
    requires Acyclic(vm)
    requires forall i | 0 <= i < |args| :: !args[i].ClassRef?
    ensures FirstCompatible(vm, ms, args).Ok?
  {
    if ms != [] {
      FindOnlyFailsOnMarkers(vm, ms[1..], args);
    }
  }

  /** A null argument is accepted by a reference parameter and refused by a primitive one. */
  lemma NullArgument(vm: Vm, param: JType)
    requires Acyclic(vm)
    ensures IsAssignable(vm, param, Null) == Ok(param.RefT?)
  {
  }

  /** An int argument fits an int, long, float or double parameter and the Integer and Object-free boxes only as `java.lang.Integer`. */
  lemma IntArgument(vm: Vm, i: int, param: JType)
    requires Acyclic(vm)
    ensures param.Prim? ==>
      IsAssignable(vm, param, IntV(i)) == Ok(param.primName in {"int", "long", "float", "double"})
    ensures param.RefT? ==> IsAssignable(vm, param, IntV(i)) == Ok(param.refName == "java.lang.Integer")
  {
  }

  // ---------------------------------------------------------------- instanceof and parameter passing

  /** For an object of a loaded class, `instanceof T` holds exactly when the object may be passed for a `T` parameter. */
  lemma InstanceOfAgreesWithAssignability(vm: Vm, id: int, t: string, target: string)
    requires Acyclic(vm)
    requires IsClassType(vm, t) && target in vm.types
    ensures InstanceOfTest(vm, ObjV(id, t), target) == Ok(BoolV(IsAssignable(vm, RefT(target), ObjV(id, t)).value))
  {
  }

  /** Every class is an instance of itself and of everything its superclass is. */
  lemma ClassReachesInherited(vm: Vm, c: string, target: string)
    requires Acyclic(vm)
    requires c in vm.types
    ensures ClassReaches(vm, c, c)
    ensures vm.types[c].superclass.Some? && ClassReaches(vm, vm.types[c].superclass.value, target) ==>
      ClassReaches(vm, c, target)
  {
  }

  /** An interface a class lists is reached, and so is every superinterface of it, transitively. */
  lemma {:induction false} ImplementsSuperinterface(vm: Vm, ifaces: seq<string>, bound: nat, k: nat, target: string)
    requires Acyclic(vm)
    requires forall i | i in ifaces && i in vm.types :: vm.types[i].depth < bound
    requires k < |ifaces| && ifaces[k] in vm.types
    requires Implements(vm, vm.types[ifaces[k]].interfaces, target, vm.types[ifaces[k]].depth)
    ensures Implements(vm, ifaces, target, bound)
    decreases k
  {
    if k > 0 {
      assert ifaces[1..][k - 1] == ifaces[k];
      ImplementsSuperinterface(vm, ifaces[1..], bound, k - 1, target);
    }
  }

  // ---------------------------------------------------------------- dotted names and static access

  /** The tree the parser builds for `root.f1.f2...fn`. */
  function DottedPath(root: string, fields: seq<string>): Expr {
    if fields == [] then Variable(root)
    else FieldAccess(DottedPath(root, fields[..|fields| - 1]), fields[|fields| - 1])
  }

  function JoinDots(root: string, fields: seq<string>): string {
    if fields == [] then root else JoinDots(root, fields[..|fields| - 1]) + "." + fields[|fields| - 1]
  }

  /** A dotted path reads as the dotted name. */
  lemma {:induction false} PotentialClassNameOfPath(root: string, fields: seq<string>)
    ensures PotentialClassName(DottedPath(root, fields)) == Some(JoinDots(root, fields))
  {
    if fields != [] {
      PotentialClassNameOfPath(root, fields[..|fields| - 1]);
    }
  }

  /** And only dotted paths read as names. */
  lemma {:induction false} PathOfPotentialClassName(e: Expr) returns (root: string, fields: seq<string>)
    requires PotentialClassName(e).Some?
    ensures e == DottedPath(root, fields) && PotentialClassName(e) == Some(JoinDots(root, fields))
  {
    match e {
      case Variable(n) =>
        root, fields := n, [];
      case FieldAccess(t, f) =>
        var r, fs := PathOfPotentialClassName(t);
        root, fields := r, fs + [f];
        assert fields[..|fields| - 1] == fs;
    }
  }

  /** A dotted name of a loaded class, evaluated on its own, is refused, since a class is not a value. */
  lemma ClassNameIsNotAValue(vm: Vm, env: Env, root: string, fields: seq<string>)
    requires Acyclic(vm)
    requires fields != [] && JoinDots(root, fields) in vm.types
    ensures Evaluate(vm, env, DottedPath(root, fields)) == Throw(ClassAsValue(JoinDots(root, fields)))
  {
    PotentialClassNameOfPath(root, fields);
  }

  /** `C.f` for a loaded class C reads the static field, or names the missing or non-static field. */
  lemma StaticFieldThroughClassName(vm: Vm, env: Env, c: string, f: string)
    requires Acyclic(vm)
    requires c in vm.types && c + "." + f !in vm.types
    ensures Eval(vm, env, FieldAccess(Variable(c), f)) == StaticField(vm, c, f, true)
  {
    assert PotentialClassName(FieldAccess(Variable(c), f)) == Some(c + "." + f);
  }

  /**
   * A method call whose receiver is a plain name is always taken for a static call: when no
   * class of that name is loaded it fails with "Class not loaded", even for a local variable.
   */
  lemma NamedReceiverIsTakenForClass(vm: Vm, env: Env, n: string, m: string, args: seq<Expr>)
    requires Acyclic(vm)
    requires n !in vm.types && EvalArgs(vm, env, args).Ok?
    ensures Eval(vm, env, MethodCall(Some(Variable(n)), m, args)) == Throw(ClassNotLoaded(n))
  {
  }

  /** Arguments are evaluated before the receiver, so an argument's error wins over the receiver's. */
  lemma ArgumentsFirst(vm: Vm, env: Env, receiver: Option<Expr>, m: string, args: seq<Expr>)
    requires Acyclic(vm)
    requires EvalArgs(vm, env, args).Err?
    ensures Eval(vm, env, MethodCall(receiver, m, args)) == Err(EvalArgs(vm, env, args).error)
  {
  }
}
