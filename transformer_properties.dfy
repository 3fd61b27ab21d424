/** What the visitor does to each kind of node, and what it does to a whole
    tree: a tree with nothing to lower comes back as given, rewriting twice
    changes nothing more (on trees whose expressions hold no classes), and it
    fails exactly when an approved decorator of an unsupported shape is
    reached. */
module TransformerProperties {
  import opened Syntax
  import opened Metadata
  import opened Transformer

  /** A class whose non-empty decorator list has no approved decorator is
      returned exactly as given: nothing inside it is visited. */
  lemma VisitKeepsUnloweredClass(n: Node, shouldLower: Decorator -> bool)
    requires n.ClassDeclaration? && n.decorators.Some? && |n.decorators.value| > 0
    requires Approved(n.decorators.value, shouldLower) == []
    ensures Visit(n, shouldLower) == Ok(n)
  {
    LoweredMetadataEntries(n.decorators.value, shouldLower);
  }

  /** A class with at least one approved decorator loses all its decorators,
      keeps its visited members in order and gains exactly one member, last:
      the static `decorators` property whose list holds one entry per
      approved decorator, in source order. */
  lemma VisitLowersClass(n: Node, shouldLower: Decorator -> bool)
    requires n.ClassDeclaration? && n.decorators.Some?
    requires Approved(n.decorators.value, shouldLower) != []
    requires Visit(n, shouldLower).Ok?
    ensures Visit(n, shouldLower).value.ClassDeclaration?
    ensures Visit(n, shouldLower).value.name == n.name
    ensures Visit(n, shouldLower).value.decorators == None
    ensures |Visit(n, shouldLower).value.members| == |n.members| + 1
    ensures forall i :: 0 <= i < |n.members| ==>
      Visit(n.members[i], shouldLower) == Ok(Visit(n, shouldLower).value.members[i])
    ensures Visit(n, shouldLower).value.members[|n.members|]
      == DecoratorsProperty(LoweredMetadata(n.decorators.value, shouldLower).value)
    ensures |LoweredMetadata(n.decorators.value, shouldLower).value| == |Approved(n.decorators.value, shouldLower)|
    ensures forall i :: 0 <= i < |Approved(n.decorators.value, shouldLower)| ==>
      DecoratorMetadata(Approved(n.decorators.value, shouldLower)[i])
        == Ok(LoweredMetadata(n.decorators.value, shouldLower).value[i])
  {
    var ds := n.decorators.value;
    assert |ds| > 0;
    LoweredMetadataEntries(ds, shouldLower);
  }

  /** A class without decorators (no list, or an empty one) is rebuilt from
      its visited members: same class, same decorators, as many members as
      before, nothing added. */
  lemma VisitRebuildsUndecoratedClass(n: Node, shouldLower: Decorator -> bool)
    requires n.ClassDeclaration? && (n.decorators == None || n.decorators == Some([]))
    ensures Visit(n, shouldLower).Ok? <==> forall i :: 0 <= i < |n.members| ==> Visit(n.members[i], shouldLower).Ok?
    ensures Visit(n, shouldLower).Ok? ==>
      Visit(n, shouldLower).value.ClassDeclaration? &&
      Visit(n, shouldLower).value.name == n.name &&
      Visit(n, shouldLower).value.decorators == n.decorators &&
      |Visit(n, shouldLower).value.members| == |n.members| &&
      forall i :: 0 <= i < |n.members| ==> Visit(n.members[i], shouldLower) == Ok(Visit(n, shouldLower).value.members[i])
  {
  }

  /** Every node that is not a class is rebuilt from its visited children:
      same kind, as many children as before, nothing added. */
  lemma VisitRebuildsOtherNode(n: Node, shouldLower: Decorator -> bool)
    requires n.OtherNode?
    ensures Visit(n, shouldLower).Ok? <==> forall i :: 0 <= i < |n.children| ==> Visit(n.children[i], shouldLower).Ok?
    ensures Visit(n, shouldLower).Ok? ==>
      Visit(n, shouldLower).value.OtherNode? &&
      Visit(n, shouldLower).value.kind == n.kind &&
      |Visit(n, shouldLower).value.children| == |n.children| &&
      forall i :: 0 <= i < |n.children| ==> Visit(n.children[i], shouldLower) == Ok(Visit(n, shouldLower).value.children[i])
  {
  }

  /** Sibling nodes that the visitor leaves alone are left alone as a list. */
  lemma VisitAllFixed(ns: seq<Node>, shouldLower: Decorator -> bool)
    requires forall i :: 0 <= i < |ns| ==> Visit(ns[i], shouldLower) == Ok(ns[i])
    ensures VisitAll(ns, shouldLower) == Ok(ns)
  {
    var vs := VisitAll(ns, shouldLower).value;
    assert vs == ns;
  }

  /** No class anywhere in the tree still carries an approved decorator. */
  predicate FullyLowered(n: Node, shouldLower: Decorator -> bool)
    decreases n
  {
    match n
    case ClassDeclaration(decorators, _, members) =>
      (decorators.None? || Approved(decorators.value, shouldLower) == []) &&
      forall i :: 0 <= i < |members| ==> FullyLowered(members[i], shouldLower)
    case PropertyDeclaration(_, _, _, _) => true
    case OtherNode(_, children) =>
      forall i :: 0 <= i < |children| ==> FullyLowered(children[i], shouldLower)
  }

  /** A tree in which no class carries an approved decorator comes back
      exactly as given. */
  lemma {:induction false} VisitKeepsUntouched(n: Node, shouldLower: Decorator -> bool)
    requires FullyLowered(n, shouldLower)
    ensures Visit(n, shouldLower) == Ok(n)
    decreases n
  {
    match n
    case ClassDeclaration(decorators, name, members) =>
      if decorators.Some? && |decorators.value| > 0 {
        VisitKeepsUnloweredClass(n, shouldLower);
      } else {
        forall i | 0 <= i < |members|
          ensures Visit(members[i], shouldLower) == Ok(members[i])
        {
          VisitKeepsUntouched(members[i], shouldLower);
        }
        VisitAllFixed(members, shouldLower);
      }
    case PropertyDeclaration(_, _, _, _) =>
    case OtherNode(kind, children) =>
      forall i | 0 <= i < |children|
        ensures Visit(children[i], shouldLower) == Ok(children[i])
      {
        VisitKeepsUntouched(children[i], shouldLower);
      }
      VisitAllFixed(children, shouldLower);
  }

  /** Rewriting an already rewritten tree changes nothing. This rests on
      expressions holding no statements: a decorated class declared inside
      a lowered decorator's argument is copied into the metadata unvisited,
      and a second rewrite would lower it. */
  lemma {:induction false} VisitIdempotent(n: Node, shouldLower: Decorator -> bool)
    requires Visit(n, shouldLower).Ok?
    ensures Visit(Visit(n, shouldLower).value, shouldLower) == Visit(n, shouldLower)
    decreases n
  {
    match n
    case ClassDeclaration(decorators, name, members) =>
      if decorators.Some? && |decorators.value| > 0 {
        var list := LoweredMetadata(decorators.value, shouldLower).value;
        if |list| > 0 {
          var visited := VisitAll(members, shouldLower).value;
          VisitAllIdempotent(members, shouldLower);
          var all := visited + [DecoratorsProperty(list)];
          forall i | 0 <= i < |all|
            ensures Visit(all[i], shouldLower) == Ok(all[i])
          {
            if i < |visited| {
              assert Visit(visited[i], shouldLower) == Ok(visited[i]);
            }
          }
          VisitAllFixed(all, shouldLower);
        }
      } else {
        VisitAllIdempotent(members, shouldLower);
      }
    case PropertyDeclaration(_, _, _, _) =>
    case OtherNode(_, children) =>
      VisitAllIdempotent(children, shouldLower);
  }

  lemma {:induction false} VisitAllIdempotent(ns: seq<Node>, shouldLower: Decorator -> bool)
    requires VisitAll(ns, shouldLower).Ok?
    ensures VisitAll(VisitAll(ns, shouldLower).value, shouldLower) == VisitAll(ns, shouldLower)
    decreases ns
  {
    var vs := VisitAll(ns, shouldLower).value;
    forall i | 0 <= i < |vs|
      ensures Visit(vs[i], shouldLower) == Ok(vs[i])
    {
      VisitIdempotent(ns[i], shouldLower);
    }
    VisitAllFixed(vs, shouldLower);
  }

  /** The visitor reaches an approved decorator that is neither an
      identifier nor a call: at a class with a non-empty decorator list, one
      of the approved ones; below it only if some decorator is approved
      (otherwise the class is not descended into); below every other node. */
  predicate Raises(n: Node, shouldLower: Decorator -> bool)
    decreases n
  {
    match n
    case ClassDeclaration(decorators, _, members) =>
      if decorators.Some? && |decorators.value| > 0 then
        (exists d :: d in Approved(decorators.value, shouldLower) && !Lowerable(d.expr))
        || (Approved(decorators.value, shouldLower) != [] &&
            exists i :: 0 <= i < |members| && Raises(members[i], shouldLower))
      else
        exists i :: 0 <= i < |members| && Raises(members[i], shouldLower)
    case PropertyDeclaration(_, _, _, _) => false
    case OtherNode(_, children) =>
      exists i :: 0 <= i < |children| && Raises(children[i], shouldLower)
  }

  /** The transformer throws "Unimplemented kind" exactly when it reaches an
      approved decorator it cannot lower. */
  lemma {:induction false} VisitFailsIffRaises(n: Node, shouldLower: Decorator -> bool)
    ensures Visit(n, shouldLower).Err? <==> Raises(n, shouldLower)
    decreases n
  {
    match n
    case ClassDeclaration(decorators, name, members) =>
      forall i | 0 <= i < |members|
        ensures Visit(members[i], shouldLower).Err? <==> Raises(members[i], shouldLower)
      {
        VisitFailsIffRaises(members[i], shouldLower);
      }
      var vs := VisitAll(members, shouldLower);
      assert vs.Err? <==> exists i :: 0 <= i < |members| && Raises(members[i], shouldLower);
      if decorators.Some? && |decorators.value| > 0 {
        var ds := decorators.value;
        var lowered := LoweredMetadata(ds, shouldLower);
        if lowered.Ok? {
          LoweredMetadataEntries(ds, shouldLower);
          assert !exists d :: d in Approved(ds, shouldLower) && !Lowerable(d.expr);
          if |lowered.value| == 0 {
            assert Visit(n, shouldLower) == Ok(n);
          } else {
            assert Visit(n, shouldLower).Err? <==> vs.Err?;
          }
        } else {
          assert Visit(n, shouldLower) == Err(lowered.error);
        }
      } else {
        assert Visit(n, shouldLower).Err? <==> vs.Err?;
      }
    case PropertyDeclaration(_, _, _, _) =>
    case OtherNode(kind, children) =>
      forall i | 0 <= i < |children|
        ensures Visit(children[i], shouldLower).Err? <==> Raises(children[i], shouldLower)
      {
        VisitFailsIffRaises(children[i], shouldLower);
      }
      var vs := VisitAll(children, shouldLower);
      assert vs.Err? <==> exists i :: 0 <= i < |children| && Raises(children[i], shouldLower);
      assert Visit(n, shouldLower).Err? <==> vs.Err?;
  }
}
