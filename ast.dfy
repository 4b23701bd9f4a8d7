/**
 * The expression tree produced by the expression parser and consumed by the interpreter:
 * twelve node kinds, each a record in the original.
 */
module Ast {
  import opened Wrappers

  /** A literal's value together with the Java type the parser tags it with. */
  datatype Literal =
    | LStr(text: string)         // String.class
    | LChar(c: char)             // char.class
    | LBool(b: bool)             // boolean.class
    | LNull                      // Object.class, value null
    | LInt(i: int)               // int.class, within the 32-bit range
    | LLong(l: int)              // long.class, within the 64-bit range
    | LFloat(text: string)       // float.class: the text handed to Float.parseFloat
    | LDouble(text: string)      // double.class: the text handed to Double.parseDouble

  /** The operator spellings the parser produces, as a closed set. */
  datatype BinOp = CondOr | CondAnd | Eq | Ne | Le | Ge | Lt | Gt | Add | Sub | Mul | Div | Rem

  datatype UnOp = Not | Neg

  datatype Expr =
    | Literal(lit: Literal)
    | Variable(name: string)
    | This
    | FieldAccess(target: Expr, fieldName: string)
    | MethodCall(receiver: Option<Expr>, methodName: string, arguments: seq<Expr>)
    | ArrayAccess(array: Expr, index: Expr)
    | Binary(left: Expr, op: BinOp, right: Expr)
    | Unary(uop: UnOp, operand: Expr)
    | Cast(typeName: string, castOperand: Expr)
    | InstanceOf(instance: Expr, testType: string)
    | NewObject(className: string, ctorArgs: seq<Expr>)
    | NewArray(elementType: string, size: Expr)

  /** The operator's spelling in source text. */
  function OpText(op: BinOp): (t: string)
    ensures 1 <= |t| <= 2
  {
    match op
    case CondOr => "||"
    case CondAnd => "&&"
    case Eq => "=="
    case Ne => "!="
    case Le => "<="
    case Ge => ">="
    case Lt => "<"
    case Gt => ">"
    case Add => "+"
    case Sub => "-"
    case Mul => "*"
    case Div => "/"
    case Rem => "%"
  }
}
