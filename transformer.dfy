/** The class-decorator downleveling transformer: a top-down rewrite of the
    syntax tree that, at every class whose decorators include some the
    semantic check approves, replaces the decorators by a trailing
    `static decorators` member listing their metadata.

    The semantic check (`DecoratorClassVisitor.shouldLower`, backed by the
    type checker) is the parameter `shouldLower`. */
module Transformer {
  import opened Syntax
  import opened Metadata

  /** The decorators the semantic check approves, in source order. */
  function Approved(ds: seq<Decorator>, shouldLower: Decorator -> bool): (r: seq<Decorator>)
    ensures |r| <= |ds|
    ensures forall d :: d in r <==> d in ds && shouldLower(d)
  {
    if ds == [] then []
    else (if shouldLower(ds[0]) then [ds[0]] else []) + Approved(ds[1..], shouldLower)
  }

  /** The decorators the semantic check rejects, in source order. */
  function Rejected(ds: seq<Decorator>, shouldLower: Decorator -> bool): (r: seq<Decorator>)
    ensures |r| <= |ds|
    ensures forall d :: d in r <==> d in ds && !shouldLower(d)
  {
    if ds == [] then []
    else (if shouldLower(ds[0]) then [] else [ds[0]]) + Rejected(ds[1..], shouldLower)
  }

  /** `a[i]` is the first decorator of `a` that cannot be lowered, and `e`
      is the error it raises. */
  predicate FirstFailure(a: seq<Decorator>, i: int, e: Error) {
    0 <= i < |a| && !Lowerable(a[i].expr) && e == UnimplementedKind(KindName(a[i].expr)) &&
    forall j :: 0 <= j < i ==> Lowerable(a[j].expr)
  }

  /** The entries of the synthesized `decorators` list: the metadata of each
      approved decorator, in source order, or the error of the first
      approved decorator whose shape cannot be lowered. */
  function LoweredMetadata(ds: seq<Decorator>, shouldLower: Decorator -> bool): (r: Result<seq<Expr>>)
    ensures r.Ok? <==> forall d :: d in Approved(ds, shouldLower) ==> Lowerable(d.expr)
  {
    if ds == [] then Ok([])
    else if !shouldLower(ds[0]) then LoweredMetadata(ds[1..], shouldLower)
    else
      match DecoratorMetadata(ds[0])
      case Err(e) => Err(e)
      case Ok(m) =>
        match LoweredMetadata(ds[1..], shouldLower)
        case Err(e) => Err(e)
        case Ok(ms) => Ok([m] + ms)
  }

  /** One entry per approved decorator, in source order: the i-th entry is
      the metadata of the i-th approved decorator. */
  lemma {:induction false} LoweredMetadataEntries(ds: seq<Decorator>, shouldLower: Decorator -> bool)
    requires LoweredMetadata(ds, shouldLower).Ok?
    ensures |LoweredMetadata(ds, shouldLower).value| == |Approved(ds, shouldLower)|
    ensures forall i :: 0 <= i < |Approved(ds, shouldLower)| ==>
      DecoratorMetadata(Approved(ds, shouldLower)[i]) == Ok(LoweredMetadata(ds, shouldLower).value[i])
  {
    if ds != [] {
      LoweredMetadataEntries(ds[1..], shouldLower);
      if shouldLower(ds[0]) {
        assert Approved(ds, shouldLower) == [ds[0]] + Approved(ds[1..], shouldLower);
      } else {
        assert Approved(ds, shouldLower) == Approved(ds[1..], shouldLower);
      }
    }
  }

  /** On failure, the error is the one raised by the first approved
      decorator that is neither an identifier nor a call. */
  lemma {:induction false} LoweredMetadataFailure(ds: seq<Decorator>, shouldLower: Decorator -> bool)
    requires LoweredMetadata(ds, shouldLower).Err?
    ensures exists i :: FirstFailure(Approved(ds, shouldLower), i, LoweredMetadata(ds, shouldLower).error)
  {
    var e := LoweredMetadata(ds, shouldLower).error;
    var a, rest := Approved(ds, shouldLower), Approved(ds[1..], shouldLower);
    if !shouldLower(ds[0]) {
      assert a == rest;
      LoweredMetadataFailure(ds[1..], shouldLower);
    } else {
      assert a == [ds[0]] + rest;
      if DecoratorMetadata(ds[0]).Err? {
        assert FirstFailure(a, 0, e);
      } else {
        LoweredMetadataFailure(ds[1..], shouldLower);
        var k :| FirstFailure(rest, k, e);
        assert a[k + 1] == rest[k];
        assert forall j :: 0 < j <= k ==> a[j] == rest[j - 1];
        assert FirstFailure(a, k + 1, e);
      }
    }
  }

  /** `acc` followed by the entries of `r`, or the error of `r`. */
  function Prepend(acc: seq<Expr>, r: Result<seq<Expr>>): Result<seq<Expr>> {
    match r
    case Ok(ms) => Ok(acc + ms)
    case Err(e) => Err(e)
  }

  /** The filtering loop over a class's decorators: each approved decorator
      is turned into metadata and appended; the first failure aborts. */
  method CollectDecoratorMetadata(ds: seq<Decorator>, shouldLower: Decorator -> bool)
    returns (r: Result<seq<Expr>>)
    ensures r == LoweredMetadata(ds, shouldLower)
  {
    var decoratorList: seq<Expr> := [];
    assert ds[0..] == ds;
    match LoweredMetadata(ds, shouldLower) {
      case Ok(ms) => assert [] + ms == ms;
      case Err(_) =>
    }
    for i := 0 to |ds|
      invariant LoweredMetadata(ds, shouldLower) == Prepend(decoratorList, LoweredMetadata(ds[i..], shouldLower))
    {
      var rest := ds[i..];
      assert rest[0] == ds[i] && rest[1..] == ds[i + 1..];
      if shouldLower(ds[i]) {
        var m := ExtractDecoratorMetadata(ds[i]);
        if m.Err? {
          return Err(m.error);
        }
        match LoweredMetadata(ds[i + 1..], shouldLower) {
          case Ok(ms) => assert decoratorList + ([m.value] + ms) == (decoratorList + [m.value]) + ms;
          case Err(_) =>
        }
        decoratorList := decoratorList + [m.value];
      }
    }
    assert ds[|ds|..] == [] && decoratorList + [] == decoratorList;
    r := Ok(decoratorList);
  }

  /** The synthesized member
      `static decorators: {type: Function, args?: any[]}[] = [<entries>,]`,
      its array literal written one entry per line with a trailing comma. */
  function DecoratorsProperty(entries: seq<Expr>): Node {
    PropertyDeclaration([StaticKeyword], "decorators", Some(ClassDecoratorType()),
                        Some(ArrayLiteral(entries, true, true)))
  }

  /** The visitor. A class with a non-empty decorator list is returned as
      given when no decorator is approved; otherwise its metadata is
      gathered, its members are visited, its decorators are dropped and the
      `decorators` member is appended. Every other node is rebuilt from its
      visited children. */
  function Visit(n: Node, shouldLower: Decorator -> bool): (r: Result<Node>)
    ensures r.Ok? ==> SameKind(n, r.value)
    decreases n
  {
    match n
    case ClassDeclaration(decorators, name, members) =>
      if decorators.Some? && |decorators.value| > 0 then
        (match LoweredMetadata(decorators.value, shouldLower)
         case Err(e) => Err(e)
         case Ok(list) =>
           if |list| == 0 then Ok(n)
           else
             match VisitAll(members, shouldLower)
             case Err(e) => Err(e)
             case Ok(visited) => Ok(ClassDeclaration(None, name, visited + [DecoratorsProperty(list)])))
      else
        (match VisitAll(members, shouldLower)
         case Err(e) => Err(e)
         case Ok(visited) => Ok(ClassDeclaration(decorators, name, visited)))
    case PropertyDeclaration(_, _, _, _) => Ok(n)
    case OtherNode(kind, children) =>
      match VisitAll(children, shouldLower)
      case Err(e) => Err(e)
      case Ok(visited) => Ok(OtherNode(kind, visited))
  }

  /** Visits a sequence of sibling nodes in order; the first failure aborts. */
  function VisitAll(ns: seq<Node>, shouldLower: Decorator -> bool): (r: Result<seq<Node>>)
    ensures r.Ok? <==> forall i :: 0 <= i < |ns| ==> Visit(ns[i], shouldLower).Ok?
    ensures r.Ok? ==> |r.value| == |ns|
    ensures r.Ok? ==> forall i :: 0 <= i < |ns| ==> Visit(ns[i], shouldLower) == Ok(r.value[i])
    ensures r.Err? ==>
      exists i :: 0 <= i < |ns| && Visit(ns[i], shouldLower) == Err(r.error) &&
        forall j :: 0 <= j < i ==> Visit(ns[j], shouldLower).Ok?
    decreases ns
  {
    if ns == [] then Ok([])
    else
      match Visit(ns[0], shouldLower)
      case Err(e) => Err(e)
      case Ok(v) =>
        match VisitAll(ns[1..], shouldLower)
        case Err(e) => Err(e)
        case Ok(vs) => Ok([v] + vs)
  }
}
