/** Two places where the visitor, as written, does not do what a
    downleveling pass evidently should, each shown on a concrete tree, and
    the visitor with both repaired:

    - a class whose decorators are all rejected is returned without being
      descended into, so an approved decorator on a class nested inside it
      is never lowered;
    - a class that has some decorator lowered loses every decorator,
      including the rejected ones, which then never run. */
module IntendedTransformer {
  import opened Syntax
  import opened Metadata
  import opened Transformer
  import opened TransformerProperties

  /** The decorator list left on a class: absent when nothing remains. */
  function Remaining(ds: seq<Decorator>): Option<seq<Decorator>> {
    if ds == [] then None else Some(ds)
  }

  /** The repaired visitor: it always descends into a class, and a lowered
      class keeps the decorators that were not lowered. */
  function VisitIntended(n: Node, shouldLower: Decorator -> bool): (r: Result<Node>)
    ensures r.Ok? ==> SameKind(n, r.value)
    decreases n
  {
    match n
    case ClassDeclaration(decorators, name, members) =>
      if decorators.Some? && |decorators.value| > 0 then
        (match LoweredMetadata(decorators.value, shouldLower)
         case Err(e) => Err(e)
         case Ok(list) =>
           match VisitAllIntended(members, shouldLower)
           case Err(e) => Err(e)
           case Ok(visited) =>
             if |list| == 0 then Ok(ClassDeclaration(decorators, name, visited))
             else Ok(ClassDeclaration(Remaining(Rejected(decorators.value, shouldLower)), name,
                                      visited + [DecoratorsProperty(list)])))
      else
        (match VisitAllIntended(members, shouldLower)
         case Err(e) => Err(e)
         case Ok(visited) => Ok(ClassDeclaration(decorators, name, visited)))
    case PropertyDeclaration(_, _, _, _) => Ok(n)
    case OtherNode(kind, children) =>
      match VisitAllIntended(children, shouldLower)
      case Err(e) => Err(e)
      case Ok(visited) => Ok(OtherNode(kind, visited))
  }

  function VisitAllIntended(ns: seq<Node>, shouldLower: Decorator -> bool): (r: Result<seq<Node>>)
    ensures r.Ok? <==> forall i :: 0 <= i < |ns| ==> VisitIntended(ns[i], shouldLower).Ok?
    ensures r.Ok? ==> |r.value| == |ns|
    ensures r.Ok? ==> forall i :: 0 <= i < |ns| ==> VisitIntended(ns[i], shouldLower) == Ok(r.value[i])
    decreases ns
  {
    if ns == [] then Ok([])
    else
      match VisitIntended(ns[0], shouldLower)
      case Err(e) => Err(e)
      case Ok(v) =>
        match VisitAllIntended(ns[1..], shouldLower)
        case Err(e) => Err(e)
        case Ok(vs) => Ok([v] + vs)
  }

  /** Rejected decorators contain no approved one. */
  lemma {:induction false} RejectedHaveNoneApproved(ds: seq<Decorator>, shouldLower: Decorator -> bool)
    ensures Approved(Rejected(ds, shouldLower), shouldLower) == []
  {
    if ds != [] {
      RejectedHaveNoneApproved(ds[1..], shouldLower);
      var r := Rejected(ds, shouldLower);
      if !shouldLower(ds[0]) {
        assert r[0] == ds[0] && r[1..] == Rejected(ds[1..], shouldLower);
        assert Approved(r, shouldLower) == Approved(r[1..], shouldLower);
      } else {
        assert r == Rejected(ds[1..], shouldLower);
      }
    }
  }

  /** With nothing approved, every decorator is rejected. */
  lemma {:induction false} NoneApprovedAllRejected(ds: seq<Decorator>, shouldLower: Decorator -> bool)
    requires Approved(ds, shouldLower) == []
    ensures Rejected(ds, shouldLower) == ds
  {
    if ds != [] {
      assert !shouldLower(ds[0]);
      assert Approved(ds[1..], shouldLower) == Approved(ds, shouldLower);
      NoneApprovedAllRejected(ds[1..], shouldLower);
      assert ds == [ds[0]] + ds[1..];
    }
  }

  /** The repaired visitor keeps exactly the rejected decorators of every
      class it reaches with a non-empty list, in source order. */
  lemma VisitIntendedKeepsRejected(n: Node, shouldLower: Decorator -> bool)
    requires n.ClassDeclaration? && n.decorators.Some? && |n.decorators.value| > 0
    requires VisitIntended(n, shouldLower).Ok?
    ensures VisitIntended(n, shouldLower).value.decorators == Remaining(Rejected(n.decorators.value, shouldLower))
  {
    var ds := n.decorators.value;
    LoweredMetadataEntries(ds, shouldLower);
    if Approved(ds, shouldLower) == [] {
      NoneApprovedAllRejected(ds, shouldLower);
    }
  }

  /** A class with at least one approved decorator keeps only its rejected
      decorators and its visited members in order, followed by exactly one
      last member: the static `decorators` property listing the metadata of
      its approved decorators. */
  lemma VisitIntendedLowersClass(n: Node, shouldLower: Decorator -> bool)
    requires n.ClassDeclaration? && n.decorators.Some?
    requires Approved(n.decorators.value, shouldLower) != []
    requires VisitIntended(n, shouldLower).Ok?
    ensures VisitIntended(n, shouldLower).value.ClassDeclaration?
    ensures VisitIntended(n, shouldLower).value.name == n.name
    ensures VisitIntended(n, shouldLower).value.decorators == Remaining(Rejected(n.decorators.value, shouldLower))
    ensures |VisitIntended(n, shouldLower).value.members| == |n.members| + 1
    ensures forall i :: 0 <= i < |n.members| ==>
      VisitIntended(n.members[i], shouldLower) == Ok(VisitIntended(n, shouldLower).value.members[i])
    ensures VisitIntended(n, shouldLower).value.members[|n.members|]
      == DecoratorsProperty(LoweredMetadata(n.decorators.value, shouldLower).value)
  {
    var ds := n.decorators.value;
    assert |ds| > 0;
    LoweredMetadataEntries(ds, shouldLower);
  }

  /** A class whose non-empty decorator list has no approved decorator keeps
      its decorators and is still descended into: its members are visited
      in order and nothing is added. */
  lemma VisitIntendedEntersUnloweredClass(n: Node, shouldLower: Decorator -> bool)
    requires n.ClassDeclaration? && n.decorators.Some? && |n.decorators.value| > 0
    requires Approved(n.decorators.value, shouldLower) == []
    requires VisitIntended(n, shouldLower).Ok?
    ensures VisitIntended(n, shouldLower).value.ClassDeclaration?
    ensures VisitIntended(n, shouldLower).value.name == n.name
    ensures VisitIntended(n, shouldLower).value.decorators == n.decorators
    ensures |VisitIntended(n, shouldLower).value.members| == |n.members|
    ensures forall i :: 0 <= i < |n.members| ==>
      VisitIntended(n.members[i], shouldLower) == Ok(VisitIntended(n, shouldLower).value.members[i])
  {
    LoweredMetadataEntries(n.decorators.value, shouldLower);
  }

  /** The repaired visitor lowers every approved decorator in the tree. */
  lemma {:induction false} VisitIntendedLowersAll(n: Node, shouldLower: Decorator -> bool)
    requires VisitIntended(n, shouldLower).Ok?
    ensures FullyLowered(VisitIntended(n, shouldLower).value, shouldLower)
    decreases n
  {
    match n
    case ClassDeclaration(decorators, name, members) =>
      forall i | 0 <= i < |members|
        ensures FullyLowered(VisitIntended(members[i], shouldLower).value, shouldLower)
      {
        VisitIntendedLowersAll(members[i], shouldLower);
      }
      var visited := VisitAllIntended(members, shouldLower).value;
      if decorators.Some? && |decorators.value| > 0 {
        var ds := decorators.value;
        LoweredMetadataEntries(ds, shouldLower);
        RejectedHaveNoneApproved(ds, shouldLower);
        var all := visited + [DecoratorsProperty(LoweredMetadata(ds, shouldLower).value)];
        assert forall i :: 0 <= i < |all| ==> FullyLowered(all[i], shouldLower) by {
          forall i | 0 <= i < |all|
            ensures FullyLowered(all[i], shouldLower)
          {
            if i < |visited| {
              assert VisitIntended(members[i], shouldLower) == Ok(all[i]);
            }
          }
        }
      }
    case PropertyDeclaration(_, _, _, _) =>
    case OtherNode(kind, children) =>
      forall i | 0 <= i < |children|
        ensures FullyLowered(VisitIntended(children[i], shouldLower).value, shouldLower)
      {
        VisitIntendedLowersAll(children[i], shouldLower);
      }
  }

  /** The semantic check of the two examples: only `Component` is a
      reflectable annotation. */
  function OnlyComponent(): Decorator -> bool {
    (d: Decorator) => d.expr == Ident("Component")
  }

  /** `@Plain class Outer { m() { @Component class Inner {} } }`: the code as
      written returns Outer untouched, so Inner keeps `@Component`; the
      repaired visitor keeps `@Plain` on Outer and gives Inner its
      `decorators` member with the entry `{type: Component}`. */
  lemma NestedClassSkippedAsWritten()
    ensures
      var inner := ClassDeclaration(Some([Decorator(1, Ident("Component"))]), "Inner", []);
      var outer := ClassDeclaration(Some([Decorator(0, Ident("Plain"))]), "Outer",
                                    [OtherNode("MethodDeclaration", [inner])]);
      var component := ObjectLiteral([PropertyAssignment("type", Ident("Component"))]);
      Visit(outer, OnlyComponent()) == Ok(outer) &&
      !FullyLowered(outer, OnlyComponent()) &&
      VisitIntended(outer, OnlyComponent()) ==
        Ok(ClassDeclaration(Some([Decorator(0, Ident("Plain"))]), "Outer",
             [OtherNode("MethodDeclaration",
                [ClassDeclaration(None, "Inner", [DecoratorsProperty([component])])])])) &&
      FullyLowered(VisitIntended(outer, OnlyComponent()).value, OnlyComponent())
  {
    var p := OnlyComponent();
    var plain := [Decorator(0, Ident("Plain"))];
    var comp := [Decorator(1, Ident("Component"))];
    var component := ObjectLiteral([PropertyAssignment("type", Ident("Component"))]);
    var inner := ClassDeclaration(Some(comp), "Inner", []);
    var m := OtherNode("MethodDeclaration", [inner]);
    var outer := ClassDeclaration(Some(plain), "Outer", [m]);
    assert Approved(plain, p) == [];
    VisitKeepsUnloweredClass(outer, p);
    assert Approved(comp, p) != [];
    assert !FullyLowered(inner, p);
    assert [inner][0] == inner;
    assert !FullyLowered(m, p);
    // the repaired visitor, bottom up
    assert p(comp[0]) && comp[1..] == [];
    assert DecoratorMetadata(comp[0]) == Ok(component);
    assert LoweredMetadata(comp[1..], p) == Ok([]);
    assert [component] + [] == [component];
    assert LoweredMetadata(comp, p) == Ok([component]);
    assert Rejected(comp, p) == [];
    assert VisitAllIntended([], p) == Ok([]);
    var innerR := ClassDeclaration(None, "Inner", [DecoratorsProperty([component])]);
    assert Remaining([]) == None;
    assert [] + [DecoratorsProperty([component])] == [DecoratorsProperty([component])];
    assert VisitIntended(inner, p) == Ok(innerR);
    assert [inner][1..] == [] && [innerR] + [] == [innerR];
    assert VisitAllIntended([inner], p) == Ok([innerR]);
    var methodR := OtherNode("MethodDeclaration", [innerR]);
    assert VisitIntended(m, p) == Ok(methodR);
    assert [m][0] == m && [m][1..] == [] && [methodR] + [] == [methodR];
    assert VisitAllIntended([m], p) == Ok([methodR]);
    assert LoweredMetadata(plain, p) == Ok([]);
    assert VisitIntended(outer, p) == Ok(ClassDeclaration(Some(plain), "Outer", [methodR]));
    VisitIntendedLowersAll(outer, p);
  }

  /** `@Component @Plain class C {}`: the code as written lowers
      `@Component` and drops `@Plain` as well; the repaired visitor lowers
      `@Component` the same way and keeps `@Plain` on the class. */
  lemma RejectedDecoratorDroppedAsWritten()
    ensures
      var ds := [Decorator(0, Ident("Component")), Decorator(1, Ident("Plain"))];
      var c := ClassDeclaration(Some(ds), "C", []);
      var decorators := DecoratorsProperty([ObjectLiteral([PropertyAssignment("type", Ident("Component"))])]);
      Rejected(ds, OnlyComponent()) == [Decorator(1, Ident("Plain"))] &&
      Visit(c, OnlyComponent()) == Ok(ClassDeclaration(None, "C", [decorators])) &&
      VisitIntended(c, OnlyComponent()) ==
        Ok(ClassDeclaration(Some([Decorator(1, Ident("Plain"))]), "C", [decorators]))
  {
    var p := OnlyComponent();
    var ds := [Decorator(0, Ident("Component")), Decorator(1, Ident("Plain"))];
    var component := ObjectLiteral([PropertyAssignment("type", Ident("Component"))]);
    assert p(ds[0]) && !p(ds[1]);
    assert ds[1..][1..] == [];
    assert DecoratorMetadata(ds[0]) == Ok(component);
    assert LoweredMetadata(ds[1..][1..], p) == Ok([]);
    assert LoweredMetadata(ds[1..], p) == Ok([]);
    assert [component] + [] == [component];
    assert LoweredMetadata(ds, p) == Ok([component]);
    assert Rejected(ds[1..], p) == [Decorator(1, Ident("Plain"))];
    assert Rejected(ds, p) == [Decorator(1, Ident("Plain"))];
    assert VisitAll([], p) == Ok([]);
    assert VisitAllIntended([], p) == Ok([]);
    assert [] + [DecoratorsProperty([component])] == [DecoratorsProperty([component])];
  }
}
