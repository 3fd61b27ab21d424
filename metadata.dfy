/** The metadata literal built for one lowered decorator
    (`extractDecoratorMetadata`) and the type annotation of the synthesized
    `decorators` member (`createClassDecoratorType`). */
module Metadata {
  import opened Syntax

  /** The decorator shapes that can be turned into metadata. */
  predicate Lowerable(e: Expr) {
    e.Ident? || e.Call?
  }

  /** Whether a decorator is a call with at least one argument. */
  predicate HasArguments(e: Expr) {
    e.Call? && |e.args| > 0
  }

  /** The value the metadata records under `type`: the decorator itself when
      it is a bare reference, the callee when it is a call. */
  function DecoratorType(e: Expr): Expr {
    if e.Call? then e.callee else e
  }

  /** The names of an object literal's properties, in order. */
  function Keys(props: seq<PropertyAssignment>): (ks: seq<string>)
    ensures |ks| == |props|
  {
    if props == [] then [] else [props[0].name] + Keys(props[1..])
  }

  /** The value of the first property called `name`, if any. */
  function Lookup(props: seq<PropertyAssignment>, name: string): Option<Expr> {
    if props == [] then None
    else if props[0].name == name then Some(props[0].value)
    else Lookup(props[1..], name)
  }

  predicate DistinctKeys(props: seq<PropertyAssignment>) {
    forall i, j :: 0 <= i < j < |props| ==> props[i].name != props[j].name
  }

  /** The metadata object literal for one decorator:
      `@Foo` gives `{type: Foo}`, `@Foo(a, b)` gives `{type: Foo, args: [a, b,]}`,
      `@Foo()` gives `{type: Foo}`; any other shape is an error. */
  function DecoratorMetadata(d: Decorator): (r: Result<Expr>)
    ensures r.Ok? <==> Lowerable(d.expr)
    ensures r.Err? ==> r.error == UnimplementedKind(KindName(d.expr))
    ensures r.Err? ==> Message(r.error) == "Unimplemented kind: " + KindName(d.expr)
    ensures r.Ok? ==> r.value.ObjectLiteral? && DistinctKeys(r.value.props)
    ensures r.Ok? ==> Keys(r.value.props) == if HasArguments(d.expr) then ["type", "args"] else ["type"]
    ensures r.Ok? ==> Lookup(r.value.props, "type") == Some(DecoratorType(d.expr))
    ensures r.Ok? && HasArguments(d.expr) ==>
      Lookup(r.value.props, "args") == Some(ArrayLiteral(d.expr.args, false, true))
  {
    match d.expr
    case Ident(_) => Ok(ObjectLiteral([PropertyAssignment("type", d.expr)]))
    case Call(callee, args) =>
      if |args| == 0 then Ok(ObjectLiteral([PropertyAssignment("type", callee)]))
      else Ok(ObjectLiteral([PropertyAssignment("type", callee),
                             PropertyAssignment("args", ArrayLiteral(args, false, true))]))
    case _ => Err(UnimplementedKind(KindName(d.expr)))
  }

  /** The builder: pushes the `type` property, then copies the call's
      arguments one by one into a fresh array literal with a trailing comma. */
  method ExtractDecoratorMetadata(d: Decorator) returns (r: Result<Expr>)
    ensures r == DecoratorMetadata(d)
  {
    var metadataProperties: seq<PropertyAssignment> := [];
    var expr := d.expr;
    match expr {
      case Ident(_) =>
        metadataProperties := metadataProperties + [PropertyAssignment("type", expr)];
      case Call(callee, args) =>
        metadataProperties := metadataProperties + [PropertyAssignment("type", callee)];
        if |args| > 0 {
          var copied: seq<Expr> := [];
          for i := 0 to |args|
            invariant copied == args[..i]
          {
            copied := copied + [args[i]];
          }
          assert copied == args;
          metadataProperties := metadataProperties + [PropertyAssignment("args", ArrayLiteral(copied, false, true))];
        }
      case _ =>
        return Err(UnimplementedKind(KindName(expr)));
    }
    assert metadataProperties == DecoratorMetadata(d).value.props;
    r := Ok(ObjectLiteral(metadataProperties));
  }

  /** How a decorator is applied at run time: the decorator factory and the
      arguments it receives (none for a bare reference). */
  function Application(e: Expr): (Expr, seq<Expr>) {
    if e.Call? then (e.callee, e.args) else (e, [])
  }

  /** Reads a metadata literal back the way a reflective consumer does:
      `type` is required, `args` defaults to no arguments. */
  function ReadMetadata(obj: Expr): Option<(Expr, seq<Expr>)> {
    match obj
    case ObjectLiteral(props) =>
      (match Lookup(props, "type")
       case None => None
       case Some(t) =>
         match Lookup(props, "args")
         case None => Some((t, []))
         case Some(ArrayLiteral(es, _, _)) => Some((t, es))
         case Some(_) => None)
    case _ => None
  }

  /** Reading the metadata back gives the decorator's application. */
  lemma MetadataRoundTrip(d: Decorator)
    requires Lowerable(d.expr)
    ensures ReadMetadata(DecoratorMetadata(d).value) == Some(Application(d.expr))
  {
    var props := DecoratorMetadata(d).value.props;
    if !HasArguments(d.expr) {
      LookupAbsent(props, "args");
    }
  }

  /** A name that is not among the keys is not found. */
  lemma {:induction false} LookupAbsent(props: seq<PropertyAssignment>, name: string)
    requires name !in Keys(props)
    ensures Lookup(props, name) == None
  {
    if props != [] {
      LookupAbsent(props[1..], name);
    }
  }

  /** Two lowerable decorators get the same metadata exactly when they apply
      the same factory to the same arguments; in particular `@Foo` and
      `@Foo()` cannot be told apart after lowering. */
  lemma MetadataDeterminesApplication(d1: Decorator, d2: Decorator)
    requires Lowerable(d1.expr) && Lowerable(d2.expr)
    ensures DecoratorMetadata(d1) == DecoratorMetadata(d2) <==> Application(d1.expr) == Application(d2.expr)
  {
  }

  /** The annotation `{type: Function, args?: any[]}[]`. */
  function ClassDecoratorType(): TypeNode {
    ArrayType(TypeLiteral([PropertySignature("type", false, TypeReference("Function")),
                           PropertySignature("args", true, ArrayType(AnyKeyword))]))
  }

  /** The builder of that annotation, one property signature at a time. */
  method CreateClassDecoratorType() returns (t: TypeNode)
    ensures t == ClassDecoratorType()
  {
    var typeElements: seq<PropertySignature> := [];
    typeElements := typeElements + [PropertySignature("type", false, TypeReference("Function"))];
    typeElements := typeElements + [PropertySignature("args", true, ArrayType(AnyKeyword))];
    assert typeElements == ClassDecoratorType().element.members;
    t := ArrayType(TypeLiteral(typeElements));
  }

  /** Whether a literal value fits a type annotation: object literals carry
      only declared properties, each at most once, and every required one;
      array literals hold fitting elements. References to named types are
      not checked, since that needs the type checker. */
  predicate Conforms(e: Expr, t: TypeNode)
    decreases t
  {
    match t
    case TypeReference(_) => true
    case AnyKeyword => true
    case ArrayType(el) =>
      e.ArrayLiteral? && forall i :: 0 <= i < |e.elements| ==> Conforms(e.elements[i], el)
    case TypeLiteral(sigs) =>
      e.ObjectLiteral? && DistinctKeys(e.props)
      && (forall i :: 0 <= i < |e.props| ==>
            exists j :: 0 <= j < |sigs| && sigs[j].name == e.props[i].name && Conforms(e.props[i].value, sigs[j].typ))
      && (forall j :: 0 <= j < |sigs| && !sigs[j].optional ==> Lookup(e.props, sigs[j].name).Some?)
  }

  /** Every metadata literal fits one element of the declared annotation. */
  lemma MetadataConformsToDeclaredType(d: Decorator)
    requires Lowerable(d.expr)
    ensures Conforms(DecoratorMetadata(d).value, ClassDecoratorType().element)
  {
    var m := DecoratorMetadata(d).value;
    var sigs := ClassDecoratorType().element.members;
    forall i | 0 <= i < |m.props|
      ensures exists j :: 0 <= j < |sigs| && sigs[j].name == m.props[i].name && Conforms(m.props[i].value, sigs[j].typ)
    {
      if i == 0 {
        assert sigs[0].name == m.props[0].name;
      } else {
        assert sigs[1].name == m.props[1].name;
      }
    }
  }
}
