/**
 * The debuggee as the interpreter sees it through JDI: values, the loaded types with their
 * hierarchy, visible methods and fields, and the calls that run code in the target VM, which
 * are oracles supplied with the VM.
 */
module Values {
  import opened Wrappers
  import opened Ast
  import Strs

  // ---------------------------------------------------------------- integer ranges

  const Int32Min: int := -0x8000_0000
  const Int32Max: int := 0x7FFF_FFFF
  const Int64Min: int := -0x8000_0000_0000_0000
  const Int64Max: int := 0x7FFF_FFFF_FFFF_FFFF
  /** Every integer of magnitude below 2^53 is a double, and so are the results of exact operations on them up to it. */
  const SafeBound: int := 0x20_0000_0000_0000

  predicate IsInt32(x: int) { Int32Min <= x <= Int32Max }
  predicate IsInt64(x: int) { Int64Min <= x <= Int64Max }
  predicate IsSafe(x: int) { -SafeBound < x < SafeBound }

  /** A narrowing cast from double to int or long: out-of-range values go to the nearest bound. */
  function Saturate(x: int, lo: int, hi: int): (r: int)
    requires lo <= hi
    ensures lo <= r <= hi
    ensures lo <= x <= hi ==> r == x
  {
    if x < lo then lo else if x > hi then hi else x
  }

  function Sat32(x: int): (r: int)
    ensures IsInt32(r)
  {
    Saturate(x, Int32Min, Int32Max)
  }

  function Sat64(x: int): (r: int)
    ensures IsInt64(r)
  {
    Saturate(x, Int64Min, Int64Max)
  }

  /** Narrowing integer conversions keep the low bits of the two's-complement value. */
  function Wrap32(x: int): (r: int)
    ensures IsInt32(r)
    ensures IsInt32(x) ==> r == x
  {
    (x + 0x8000_0000) % 0x1_0000_0000 - 0x8000_0000
  }

  function Wrap64(x: int): (r: int)
    ensures IsInt64(r)
    ensures IsInt64(x) ==> r == x
  {
    (x + 0x8000_0000_0000_0000) % 0x1_0000_0000_0000_0000 - 0x8000_0000_0000_0000
  }

  function Wrap16(x: int): (r: int)
    ensures -0x8000 <= r < 0x8000
    ensures -0x8000 <= x < 0x8000 ==> r == x
  {
    (x + 0x8000) % 0x1_0000 - 0x8000
  }

  function Wrap8(x: int): (r: int)
    ensures -0x80 <= r < 0x80
    ensures -0x80 <= x < 0x80 ==> r == x
  {
    (x + 0x80) % 0x100 - 0x80
  }

  function WrapChar(x: int): (r: int)
    ensures 0 <= r < 0x1_0000
    ensures 0 <= x < 0x1_0000 ==> r == x
  {
    x % 0x1_0000
  }

  /** Truncating division, as Java's `/` and a `(long)` of a double quotient. */
  function TruncDiv(a: int, b: int): (q: int)
    requires b != 0
  {
    var q := (if a < 0 then -a else a) / (if b < 0 then -b else b);
    if (a < 0) != (b < 0) then -q else q
  }

  /** The remainder that goes with TruncDiv: it takes the dividend's sign. */
  function TruncRem(a: int, b: int): (r: int)
    requires b != 0
  {
    a - b * TruncDiv(a, b)
  }

  // ---------------------------------------------------------------- values

  /** A JDI Value, or null. Float and double values are their IEEE 754 bit patterns. */
  datatype Value =
    | Null
    | IntV(i: int)                                // IntegerValue
    | LongV(l: int)                               // LongValue
    | ShortV(s: int)                              // ShortValue
    | ByteV(b: int)                               // ByteValue
    | CharV(code: int)                            // CharValue: a UTF-16 code unit
    | BoolV(z: bool)                              // BooleanValue
    | FloatV(fbits: bv32)                         // FloatValue
    | DoubleV(dbits: bv64)                        // DoubleValue
    | StrV(text: string, uid: Option<int>)        // StringReference; None: freshly mirrored
    | ObjV(objId: int, objType: string)           // any other ObjectReference
    | ArrV(arrId: int, arrType: string, elems: seq<Value>)   // ArrayReference
    | ClassRef(className: string)                 // the interpreter's ClassReferenceMarker

  predicate IsPrimitive(v: Value) {
    v.IntV? || v.LongV? || v.ShortV? || v.ByteV? || v.CharV? || v.BoolV? || v.FloatV? || v.DoubleV?
  }

  /** `instanceof ObjectReference`: strings, arrays, objects and the class marker. */
  predicate IsObject(v: Value) {
    v.StrV? || v.ObjV? || v.ArrV? || v.ClassRef?
  }

  /** Values whose integer field is in the range of their Java type. */
  predicate WellFormed(v: Value) {
    match v
    case IntV(i) => IsInt32(i)
    case LongV(l) => IsInt64(l)
    case ShortV(s) => -0x8000 <= s < 0x8000
    case ByteV(b) => -0x80 <= b < 0x80
    case CharV(c) => 0 <= c < 0x1_0000
    case _ => true
  }

  // ---------------------------------------------------------------- types

  /** A JDI Type: a primitive type or a reference type, each known by its name. */
  datatype JType = Prim(primName: string) | RefT(refName: string)

  const PrimitiveNames: set<string> := {"int", "long", "short", "byte", "char", "boolean", "float", "double"}

  datatype Kind = ClassKind | InterfaceKind | ArrayKind

  /** A method: its parameter types, unless one of them is a class not yet loaded. */
  datatype MethodDecl = MethodDecl(name: string, params: Option<seq<JType>>, isStatic: bool)

  /**
   * A loaded reference type. `methods` and `fields` are what JDI reports as visible (inherited
   * members included), `methods` in JDI's order. `depth` ranks the type above its supertypes.
   */
  datatype TypeDecl = TypeDecl(
    kind: Kind,
    superclass: Option<string>,
    interfaces: seq<string>,
    methods: seq<MethodDecl>,
    fields: map<string, bool>,      // field name to whether it is static
    depth: nat)

  /**
   * The operations on doubles the interpreter delegates to the target VM's arithmetic: the
   * model keeps floating-point values abstract and lets these decide them.
   */
  datatype FloatOps = FloatOps(
    ofInt: int -> bv64,                       // the double nearest an integer
    widen: bv32 -> bv64,                      // float to double
    narrow: bv64 -> bv32,                     // double to float
    arith: (BinOp, bv64, bv64) -> bv64,       // + - * / % on doubles
    compare: (BinOp, bv64, bv64) -> bool,     // < > <= >= == on doubles
    trunc: bv64 -> int,                       // toward zero, NaN to 0, before any saturation
    parseFloat: string -> bv32,
    parseDouble: string -> bv64,
    showFloat: bv32 -> string,
    showDouble: bv64 -> string)

  /** The target VM: loaded types, reads of field values, and the calls that run target code. */
  datatype Vm = Vm(
    types: map<string, TypeDecl>,
    staticValue: (string, string) -> Value,
    fieldValue: (Value, string) -> Value,
    invoke: (Value, MethodDecl, seq<Value>) -> Result<Value, string>,      // Err: the exception's type
    invokeStatic: (string, MethodDecl, seq<Value>) -> Result<Value, string>,
    newInstance: (string, MethodDecl, seq<Value>) -> Result<Value, string>,
    newArray: (string, int) -> Value,
    fp: FloatOps)

  /** The class hierarchy is acyclic: every loaded supertype ranks below its subtypes. */
  predicate Acyclic(vm: Vm) {
    forall n | n in vm.types ::
      (vm.types[n].superclass.Some? && vm.types[n].superclass.value in vm.types ==>
         vm.types[vm.types[n].superclass.value].depth < vm.types[n].depth) &&
      (forall i | i in vm.types[n].interfaces && i in vm.types :: vm.types[i].depth < vm.types[n].depth)
  }

  function Depth(vm: Vm, n: string): nat {
    if n in vm.types then vm.types[n].depth else 0
  }

  predicate IsClassType(vm: Vm, n: string) {
    n in vm.types && vm.types[n].kind == ClassKind
  }

  /** `methodsByName`: the visible methods with that name, in order. */
  function MethodsByName(vm: Vm, typeName: string, name: string): (ms: seq<MethodDecl>)
    ensures forall m | m in ms :: m.name == name
    ensures typeName in vm.types ==> forall m | m in vm.types[typeName].methods && m.name == name :: m in ms
    ensures typeName !in vm.types ==> ms == []
  {
    if typeName in vm.types then MethodsNamed(vm.types[typeName].methods, name) else []
  }

  function MethodsNamed(ms: seq<MethodDecl>, name: string): (r: seq<MethodDecl>)
    ensures forall m | m in r :: m.name == name && m in ms
    ensures forall m | m in ms && m.name == name :: m in r
  {
    if ms == [] then []
    else if ms[0].name == name then [ms[0]] + MethodsNamed(ms[1..], name)
    else MethodsNamed(ms[1..], name)
  }
}
