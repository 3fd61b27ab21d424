# Class-decorator downleveling, modelled in Dafny

tsickle's class-decorator downleveling transformer rewrites a TypeScript syntax
tree top-down. At every class declaration that carries decorators, it asks the
semantic check (`DecoratorClassVisitor.shouldLower`, backed by the type checker)
which decorators are reflectable annotations. It turns each approved decorator
into a metadata object literal:

- `@Foo` becomes `{type: Foo}`;
- `@Foo(a, b)` becomes `{type: Foo, args: [a, b,]}`;
- `@Foo()` becomes `{type: Foo}`;
- any other decorator shape raises "Unimplemented kind".

If at least one decorator is approved, the class loses its decorators and gains
one last member:
`static decorators: {type: Function, args?: any[]}[] = [ ... ]`.
A class whose decorators are all rejected is returned unchanged. Every other node
is rebuilt from its visited children.

Modules:

- `Syntax` (syntax.dfy): the part of the syntax tree the transformer reads and
  builds. It has expressions, decorators (with a source position), type
  annotations and nodes. Nodes are a class declaration, a property declaration,
  or any other node with its children.
- `Metadata` (metadata.dfy): `extractDecoratorMetadata` and
  `createClassDecoratorType`. Each has a function that specifies it and a method
  that builds the result one push at a time. Lemmas read the metadata back and
  check it against the declared type.
- `Transformer` (transformer.dfy): the filtering loop over a class's decorators
  and the recursive visitor. The semantic check is the parameter
  `shouldLower: Decorator -> bool`.
- `TransformerProperties` (transformer_properties.dfy): what the visitor does to
  each kind of node, that a tree with nothing to lower comes back as given,
  idempotence on the trees the model represents, and exactly when it fails.
- `IntendedTransformer` (intended_transformer.dfy): the two findings below. It
  gives a concrete tree for each and a repaired visitor with its properties
  proved. `Visit` stays the model of the code as written.

The semantic check is a parameter. It sees the decorator's position as well as
its expression, so two textually equal decorators in different scopes can be
judged differently.

tsickle also has a text annotator, src/decorator-annotator.ts, which is not part
of this model. test/decorator-annotator_test.ts exercises it. Two of its tests
show behaviour this transformer shares:

- a class whose only decorator is not marked as an annotation is left as it is
  (test/decorator-annotator_test.ts:93-99; here `VisitKeepsUnloweredClass`);
- a marked class nested in a method of a marked class is lowered as well
  (test/decorator-annotator_test.ts:230-266; here the members of a lowered class
  are visited, as `VisitLowersClass` states).

The annotator also emits `ctorParameters` (test/decorator-annotator_test.ts:102-208),
which this transformer does not. Those tests do not cover the two inputs
where this transformer's behaviour is questionable: a class mixing approved and
rejected decorators, and a class nested under a class whose decorators are all
rejected (see "## Findings").

The model follows the code of this transformer:

- an approved decorator of another shape throws "Unimplemented kind";
- when something is lowered, rejected decorators are dropped too;
- only the class-level `decorators` member is built.

## Model

| member | source | states |
|---|---|---|
| `Metadata.DecoratorMetadata` | src/class_decorator_downlevel_transformer.ts:40-66 | Metadata exists iff the decorator is an identifier or a call. Otherwise the error is "Unimplemented kind" naming the expression's kind. The literal has distinct keys: `type` alone, or `type` then `args` exactly when the call has at least one argument. `type` is the identifier itself or the callee. `args` is an array literal of the call's arguments, same order and number, with a trailing comma. |
| `Metadata.ExtractDecoratorMetadata` | src/class_decorator_downlevel_transformer.ts:40-66 | The builder pushes `type` and copies the arguments in a loop. It returns exactly `DecoratorMetadata`. |
| `Metadata.MetadataRoundTrip` | src/class_decorator_downlevel_transformer.ts:44-60 | Reading a metadata literal back (`type` required, `args` defaulting to none) gives the decorator's factory and the arguments it is applied to. |
| `Metadata.MetadataDeterminesApplication` | src/class_decorator_downlevel_transformer.ts:48-60 | Two lowerable decorators have equal metadata iff they apply the same factory to the same arguments. So `@Foo` and `@Foo()` are indistinguishable after lowering. |
| `Metadata.CreateClassDecoratorType` | src/class_decorator_downlevel_transformer.ts:5-10 | The builder returns the annotation `{type: Function, args?: any[]}[]`: `type` required, `args` optional and an array of `any`. |
| `Metadata.MetadataConformsToDeclaredType` | src/class_decorator_downlevel_transformer.ts:5-9 | Every metadata literal fits one element of that annotation. It has only declared keys, each once, includes the required `type`, and its `args` is an array literal. |
| `Transformer.Approved` | src/class_decorator_downlevel_transformer.ts:79-80 | The approved decorators are exactly those of the class that the semantic check accepts, never more than the class has. |
| `Transformer.LoweredMetadata` | src/class_decorator_downlevel_transformer.ts:78-83 | Gathering a class's metadata succeeds iff every approved decorator is an identifier or a call. |
| `Transformer.LoweredMetadataEntries` | src/class_decorator_downlevel_transformer.ts:78-83 | On success there is one entry per approved decorator, in source order. The i-th entry is the metadata of the i-th approved decorator. Rejected decorators contribute nothing. |
| `Transformer.LoweredMetadataFailure` | src/class_decorator_downlevel_transformer.ts:62-63 | On failure, the error is the one raised by the first approved decorator that is neither an identifier nor a call. |
| `Transformer.CollectDecoratorMetadata` | src/class_decorator_downlevel_transformer.ts:78-83 | The filtering loop returns exactly `LoweredMetadata` and aborts at the first failure. |
| `Transformer.Visit` | src/class_decorator_downlevel_transformer.ts:70-101 | Visiting never changes a node's kind or a class's name. |
| `Transformer.VisitAll` | src/class_decorator_downlevel_transformer.ts:96-100 | Visiting siblings succeeds iff each sibling's visit does, and then yields the visited siblings pointwise, in order. On failure the error is that of the first failing sibling. |
| `TransformerProperties.VisitKeepsUnloweredClass` | src/class_decorator_downlevel_transformer.ts:85-87 | A class with a non-empty decorator list and no approved decorator is returned exactly as given, nested classes included. |
| `TransformerProperties.VisitLowersClass` | src/class_decorator_downlevel_transformer.ts:88-95 | A class with an approved decorator keeps its name and has no decorators left, rejected ones included. Its members are its visited members in order, followed by exactly one last member: the static `decorators` property, annotated `{type: Function, args?: any[]}[]`. That property's list has one entry per approved decorator, in source order. |
| `TransformerProperties.VisitRebuildsUndecoratedClass` | src/class_decorator_downlevel_transformer.ts:75-97 | A class with no decorator list, or an empty one, keeps its name and decorators. It gets its visited members pointwise and no added member. It fails iff some member's visit fails. |
| `TransformerProperties.VisitRebuildsOtherNode` | src/class_decorator_downlevel_transformer.ts:99-100 | Any other node keeps its kind and gets its visited children pointwise, nothing added. It fails iff some child's visit fails. |
| `TransformerProperties.VisitKeepsUntouched` | src/class_decorator_downlevel_transformer.ts:75-100 | A tree in which no class carries an approved decorator comes back exactly as given, whatever its depth. |
| `TransformerProperties.VisitIdempotent` | src/class_decorator_downlevel_transformer.ts:70-101 | Rewriting an already rewritten tree gives the same tree, for trees whose expressions contain no class declarations (see "## Left out"). |
| `TransformerProperties.VisitFailsIffRaises` | src/class_decorator_downlevel_transformer.ts:62-63 | The rewrite throws iff it reaches an approved decorator that is neither an identifier nor a call. It looks at the decorators of any class it visits, and enters a decorated class only if some decorator is approved. |
| `IntendedTransformer.VisitIntended` | src/class_decorator_downlevel_transformer.ts:85-95 | The repaired visitor never changes a node's kind or a class's name. |
| `IntendedTransformer.VisitIntendedKeepsRejected` | src/class_decorator_downlevel_transformer.ts:93 | In the repaired visitor, a visited class with decorators keeps exactly its rejected decorators, in source order. The list is absent when none are rejected. |
| `IntendedTransformer.VisitIntendedLowersAll` | src/class_decorator_downlevel_transformer.ts:85-87 | After the repaired visitor, no class anywhere in the tree carries an approved decorator. |
| `IntendedTransformer.VisitIntendedLowersClass` | src/class_decorator_downlevel_transformer.ts:88-95 | In the repaired visitor, a class with an approved decorator keeps its name and exactly its rejected decorators. Its members are its visited members in order, followed by exactly one last member: the static `decorators` property listing the metadata of its approved decorators. |
| `IntendedTransformer.VisitIntendedEntersUnloweredClass` | src/class_decorator_downlevel_transformer.ts:85-87 | In the repaired visitor, a class with a non-empty decorator list and no approved decorator keeps its name and decorators. Its members are its visited members, pointwise and in order, with nothing added. |
| `IntendedTransformer.NestedClassSkippedAsWritten` | src/class_decorator_downlevel_transformer.ts:85-87 | `@Plain class Outer { m() { @Component class Inner {} } }` comes back unchanged from the code as written, so `@Component` survives. The repaired visitor returns `Outer` with `@Plain` kept and `Inner` with no decorators and the single member `static decorators = [{type: Component},]`. |
| `IntendedTransformer.RejectedDecoratorDroppedAsWritten` | src/class_decorator_downlevel_transformer.ts:93 | On `@Component @Plain class C {}`, the code as written returns `C` with no decorators and the single member `static decorators = [{type: Component},]`, so `@Plain` is dropped. The repaired visitor returns the same member and keeps `@Plain` on `C`. |

## Findings

| source | as written | input that shows it | evidently intended | confidence | as-written member | corrected member |
|---|---|---|---|---|---|---|
| src/class_decorator_downlevel_transformer.ts:85-87 | A class whose decorators are all rejected is returned without visiting its members. | `@Plain class Outer { m() { @Component class Inner {} } }` with only `Component` approved: `Inner` keeps `@Component` and gets no `decorators` member. | The members are still visited (`visitEachChild`), so nested classes are lowered at any depth. | medium, not executed | `IntendedTransformer.NestedClassSkippedAsWritten` | `IntendedTransformer.VisitIntendedLowersAll` |
| src/class_decorator_downlevel_transformer.ts:93 | `decorators = undefined` removes every decorator of a lowered class, rejected ones included. | `@Component @Plain class C {}` with only `Component` approved: `@Plain` disappears and never runs. | Only the lowered decorators are removed; the rejected ones stay on the class. | medium, not executed | `IntendedTransformer.RejectedDecoratorDroppedAsWritten` | `IntendedTransformer.VisitIntendedLowersClass` |

## Left out

- The type checker and `DecoratorClassVisitor.shouldLower`: src/decorator-annotator.ts is not part of this model. The check is the parameter `shouldLower`, a fixed predicate on a decorator and its position.
- The TypeScript factory and visitor library (`ts.create*`, `ts.visitEachChild`, `ts.getMutableClone`, `ts.visitNode`): replaced by datatype constructors and structural recursion. The whole-file transformer is `Visit` applied to the source-file node.
- The clone made at line 92 may share its `members` array with the input before the `push` at line 94. That aliasing is not modelled: every result is a fresh value.
- Expressions hold no statements. A class declared inside a decorator argument or inside a property initializer (an arrow-function body, say) is therefore not visited by the model. A property declaration is a leaf.
- TransformerProperties.VisitIdempotent: holds only because expressions hold no statements, so it is not a property of the source. On `@Comp(() => { @Comp class X {} }) class A {}` with `Comp` approved, the first rewrite builds the metadata from the original decorator (lines 54-55 and 79) and discards the visited decorators (line 93). The emitted `static decorators` initializer therefore still holds `X` with `@Comp`. A second rewrite enters `A`, which now has no decorators (line 97), visits that initializer (line 100) and lowers `X`.
- Type arguments of a decorator call (`@Foo<T>(x)`) are not represented. The callee alone is recorded, as in the source.
- `Conforms` does not check references to named types (`Function`): that needs the type checker.
- The error is modelled as a value propagated to the root of the file. In the source, the `Error` thrown at line 63 is not caught by the transformer: it escapes the compiler's emit call (`program.emit`, as called at test/e2e_transformer_prototype_test.ts:87-89) and stops the whole emit, not only the rewrite of one file. The model does not capture that effect on other files. The message text is fixed by `KindName`, which names only the kinds the model distinguishes.
- Decorators on members, constructor parameters and accessors are untouched by this transformer. They are visited as ordinary nodes, and the `ctorParameters` member of the text annotator is not built here.
- The commented-out `emitDecorator` (lines 12-38) is dead code.
- Source positions, emitted text, source maps and emit plumbing belong to the surrounding compiler.
- test/decorator-annotator_test.ts exercises the text annotator, whose source is not part of this model. test/e2e_transformer_prototype_test.ts and test/ast_printing_transform.ts only compile and print. gulpfile.js is build orchestration.
