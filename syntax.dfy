/** The fragment of the TypeScript syntax tree that the class-decorator
    downleveling transformer reads and builds. */
module Syntax {

  datatype Option<T> = None | Some(value: T)

  /** The one failure of the transformer: a lowered decorator whose expression
      is neither an identifier nor a call. */
  datatype Error = UnimplementedKind(kind: string)

  datatype Result<T> = Ok(value: T) | Err(error: Error)

  /** Expressions. Only identifiers and calls are told apart by the
      transformer; object and array literals are what it builds. */
  datatype Expr =
    | Ident(name: string)
    | Call(callee: Expr, args: seq<Expr>)
    | PropertyAccess(target: Expr, member: string)
    | ObjectLiteral(props: seq<PropertyAssignment>)
    | ArrayLiteral(elements: seq<Expr>, multiLine: bool, trailingComma: bool)
    | OtherExpr(kind: string)

  /** `name: value` inside an object literal. */
  datatype PropertyAssignment = PropertyAssignment(name: string, value: Expr)

  /** The syntax-kind name of an expression, as it appears in error messages. */
  function KindName(e: Expr): string {
    match e
    case Ident(_) => "Identifier"
    case Call(_, _) => "CallExpression"
    case PropertyAccess(_, _) => "PropertyAccessExpression"
    case ObjectLiteral(_) => "ObjectLiteralExpression"
    case ArrayLiteral(_, _, _) => "ArrayLiteralExpression"
    case OtherExpr(k) => k
  }

  /** The text of the exception raised for an error. */
  function Message(e: Error): string {
    match e
    case UnimplementedKind(k) => "Unimplemented kind: " + k
  }

  /** A decorator at its use site. The position keeps two textually equal
      decorators apart: the semantic check may resolve them differently. */
  datatype Decorator = Decorator(pos: nat, expr: Expr)

  /** Type annotations, as far as the synthesized member needs them. */
  datatype TypeNode =
    | TypeReference(name: string)
    | AnyKeyword
    | ArrayType(element: TypeNode)
    | TypeLiteral(members: seq<PropertySignature>)

  /** `name?: typ` inside a type literal. */
  datatype PropertySignature = PropertySignature(name: string, optional: bool, typ: TypeNode)

  datatype Modifier = StaticKeyword | OtherModifier(kind: string)

  /** Statements, declarations and class members. `decorators == None` is a
      class without a decorator list, `Some([])` one with an empty list. */
  datatype Node =
    | ClassDeclaration(decorators: Option<seq<Decorator>>, name: string, members: seq<Node>)
    | PropertyDeclaration(modifiers: seq<Modifier>, name: string, typ: Option<TypeNode>, initializer: Option<Expr>)
    | OtherNode(kind: string, children: seq<Node>)

  /** Whether two nodes are of the same kind (and, for classes, the same class). */
  predicate SameKind(a: Node, b: Node) {
    match a
    case ClassDeclaration(_, name, _) => b.ClassDeclaration? && b.name == name
    case PropertyDeclaration(_, _, _, _) => b.PropertyDeclaration?
    case OtherNode(kind, _) => b.OtherNode? && b.kind == kind
  }
}
