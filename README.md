# Scope queries, `wrap_addr` and type-error reporting of the Hylo compiler, in Dafny

This project models three parts of the Hylo compiler front end and proves
properties of them:

- **Scope query algebra** (`Program` in `Sources/Core/Program.swift`). The
  program's nodes form a forest: `nodeToScope` links each node to the innermost
  scope that contains it. The queries are:
  - the chain of enclosing scopes, containment and overlap;
  - the innermost common scope, and the innermost module and translation unit;
  - whether a declaration is global, a member or local, and whether it is a
    non-static member;
  - whether it is public or exported, and the trait it is a requirement of;
  - the receiver a scope sees, whether a function is a module entry, and the
    scope that holds a body.

  `scope_index.dfy` (module `ScopeIndex`) holds the node store and the walks up
  the chain. `decl_queries.dfy` (module `DeclQueries`) holds the declaration
  queries.
- **The `wrap_addr` IR instruction**
  (`Sources/IR/Operands/Instruction/WrapAddrInstruction.swift`). It wraps the
  address of a witness into an existential container and carries the witness
  table as payload. Modelled in `wrap_addr.dfy` (module `WrapAddr`).
- **The type-error reporter** (`Sources/Sema/TypeErrorReporter.swift`). It
  sorts a batch of type errors and emits one diagnostic per error into the
  compilation context. The wording and the anchor of each diagnostic depend on
  the error. Modelled in `type_error_reporter.dfy` (module `TypeErrorReporting`).

`wrappers.dfy` holds `Option`, which stands for Swift's optionals.
`source_range.dfy` holds `SourceRange`, which both the IR and the diagnostics
use.

How the Swift code maps to Dafny:

- **Force-unwraps.** Each `!` in the Swift code becomes a precondition. Where
  the unwrap happens further up the scope chain, the precondition is a
  recursive `...Defined` predicate that follows the same walk.
- **Acyclicity.** `ScopeIndex.Valid` states that the scope links are acyclic:
  some rank decreases from each node to its scope. That rank is the termination
  measure of every walk up the chain.
- **Loops.** `isContained` keeps its `while true` loop and
  `innermostCommonScope` keeps its `for` loop, as methods. Each is proved
  against a specification function (`Contained`, `CommonScope`), and the
  properties of containment and of the common scope are proved about those
  functions.
- **The reporter.** The compilation context is a `Context` class whose
  `diagnostics` sequence `Report` appends to. `TypeErrorReporter.ReportAll`
  sorts the errors and loops over them, reporting each. The sort is an
  insertion sort. Like Swift's `sorted(by:)` it is stable; the model proves
  the consequence that errors already in order come back unchanged
  (`SortErrorsOfSorted`).

Two consequences of the code are worth stating, because the names of the
queries suggest otherwise:

- **Global and member overlap.** `isGlobal` and `isMember`
  (`Program.swift:114-185`) are not exclusive. A member is also global when it
  is type-level, an initializer, or a static binding, function or subscript.
  `DeclQueries.GlobalMemberLocal` states this in both directions, and
  `DeclQueries.ExampleQueries` shows a static function that is both.
- **Entries sit directly in a translation unit.** `isModuleEntry`
  (`Program.swift:31`) accepts only a public function named `main` whose scope
  is a translation unit. A public `main` inside a namespace is not an entry,
  as `DeclQueries.ExampleQueries` shows.

## Model

| member | source | states |
|---|---|---|
| ScopeIndex.ScopesFrom | Sources/Core/Program.swift:283-286 | The chain of scopes starts at `scope`, and each element is the scope of the one before it. It ends at a node that has no scope, and every ancestor in it is a known node. |
| ScopeIndex.ChainIsUnique | Sources/Core/Program.swift:283-286 | Every parent chain from `s` that runs to a root is `scopes(from: s)`. |
| ScopeIndex.ScopesFromSuffix | Sources/Core/Program.swift:283-286 | The chain from any scope on a chain is the rest of that chain. |
| ScopeIndex.RankDecreasesAlongChain | Sources/Core/Program.swift:283-286 | Scopes further out on a chain have strictly smaller rank, so a chain never repeats a scope. |
| ScopeIndex.IsContained | Sources/Core/Program.swift:34-56 | The loop answers true exactly when `ancestor` lies on `child`'s chain, `child` itself included. A scope with no parent is contained only in itself. |
| ScopeIndex.ContainedTransitive | Sources/Core/Program.swift:36-41 | Containment is transitive, as the doc comment promises. |
| ScopeIndex.ContainedAntisymmetric | Sources/Core/Program.swift:34-56 | Two scopes that contain each other are the same scope. |
| ScopeIndex.AreOverlapping | Sources/Core/Program.swift:58-61 | The result is true exactly when one scope contains the other, and it is the same with the arguments swapped. |
| ScopeIndex.InnermostCommonScope | Sources/Core/Program.swift:288-300 | The loop over the two root-first chains returns the last scope on which they still agree (`CommonScope`), or `None` when they differ from the root on. |
| ScopeIndex.CommonScopeProperties | Sources/Core/Program.swift:288-300 | The common scope is symmetric in its arguments. It is missing exactly when the two chains end at different roots. When present, it contains both scopes, and every scope containing both contains it, so it is the innermost one. |
| ScopeIndex.OverlappingIffCommonScopeIsEndpoint | Sources/Core/Program.swift:288-300 | Two scopes overlap exactly when their innermost common scope is one of them. |
| ScopeIndex.CommonScopeNoneIffDifferentModules | Sources/Core/Program.swift:288-289 | For attached scopes in a forest whose roots are modules, there is no common scope exactly when the two scopes lie in different modules. |
| ScopeIndex.FirstOfKind | Sources/Core/Program.swift:302-312 | `first(K.self)` returns the index of an element of kind `K`, and no earlier element has that kind. |
| ScopeIndex.InnermostOfKind | Sources/Core/Program.swift:302-312 | The result has the kind asked for and contains the scope. Every other scope of that kind that contains the scope contains the result too. |
| ScopeIndex.ModuleContaining | Sources/Core/Program.swift:302-305 | `module(containing:)` is a module that contains the scope, and it is the innermost such module. |
| ScopeIndex.SourceContaining | Sources/Core/Program.swift:307-312 | `source(containing:)` is a translation unit that contains the scope, and it is the innermost such unit. |
| ScopeIndex.ModuleIsLast | Sources/Core/Program.swift:302-305 | When modules are the roots, the module containing an attached scope is the last element of its chain. |
| DeclQueries.IsAtModuleScope | Sources/Core/Program.swift:104-112 | True exactly when the scope of `d` is a translation unit or a namespace. A declaration at module scope is global. |
| DeclQueries.IsGlobal | Sources/Core/Program.swift:114-162 | `d` is global exactly when it is type-level or a generic parameter, an initializer, declared at module scope, or a static binding, function or subscript. |
| DeclQueries.IsMember | Sources/Core/Program.swift:164-185 | Recursion-free closed form: `d` has a scope, and either that scope is a type body, or `d` is a method implementation in a method declaration, or `d` is a subscript implementation in a subscript declaration that is itself in a type body. A declaration without a scope is not a member. |
| DeclQueries.IsLocal | Sources/Core/Program.swift:207-210 | A local declaration is neither global nor a member. It has a scope, and that scope is neither module-level nor a type body. It is neither type-level nor an initializer. |
| DeclQueries.GlobalMemberLocal | Sources/Core/Program.swift:114-210 | Every declaration is global, a member or local, and a local one is neither of the others. A member is also global exactly when it is type-level, an initializer, or a static binding, function or subscript. |
| DeclQueries.IsNonStaticMember | Sources/Core/Program.swift:187-190 | `d` is a non-static member exactly when it is a member and is neither type-level, nor an initializer, nor a static binding, function or subscript. |
| DeclQueries.IsNonStaticMemberOfKind | Sources/Core/Program.swift:192-205 | The overloads read no scope. A method declaration is always a non-static member. A function or subscript declaration is one exactly when it is not static and is a member. Wherever the generic query is defined, every kind but method declarations gets the same answer from both. |
| DeclQueries.AccessSource | Sources/Core/Program.swift:212-224 | The declaration whose own modifier decides publicity is the enclosing declaration of a method or subscript implementation, the binding of a variable, and `d` itself otherwise. It never inherits its access in turn. |
| DeclQueries.IsPublic | Sources/Core/Program.swift:212-224 | `d` is public exactly when its access source carries the `public` modifier. A declaration without a modifier is not public. |
| DeclQueries.IsExported | Sources/Core/Program.swift:226-231 | Modules are always exported. An exported declaration that is not a module is public. |
| DeclQueries.IsExportingDecls | Sources/Core/Program.swift:233-255 | Modules and translation units always export their declarations. Scopes that are neither type or namespace declarations, nor modules, nor translation units never do. |
| DeclQueries.ExportedIffPublicPath | Sources/Core/Program.swift:226-255 | A declaration that is not a module is exported exactly when it is public and every scope between it and the nearest module or translation unit is a public type or namespace declaration. |
| DeclQueries.ExportPathThroughTypeScope | Sources/Core/Program.swift:233-255 | An export path goes through a type scope exactly when that scope is public and has an export path of its own. |
| DeclQueries.TraitDefining | Sources/Core/Program.swift:314-328 | A trait is returned exactly when `d` is a requirement: a declaration of a requirement kind directly in a trait, or an implementation whose declaration is directly in a trait. The trait is then a trait declaration, and it is `d`'s scope or, for an implementation, its declaration's scope. An associated type or value always yields its scope. |
| DeclQueries.TraitDefiningContains | Sources/Core/Program.swift:314-328 | The trait defining `d` is one of `d`'s enclosing scopes. |
| DeclQueries.IsRequirement | Sources/Core/Program.swift:257-260 | `d` is a requirement exactly when it is declared in a trait (through its declaration, for an implementation). A requirement is a member and lies inside a trait declaration. |
| DeclQueries.InnermostReceiver | Sources/Core/Program.swift:262-281 | `innermostReceiver(in: s)` is read at the first scope on `s`'s chain where the walk stops: nothing at a module, that scope's receiver otherwise. The walk passes functions and subscript implementations that have no receiver. |
| DeclQueries.AttachedReceiverLookupDefined | Sources/Core/Program.swift:262-281 | From any scope whose chain ends at a module, the walk of `innermostReceiver` stops before it runs out of scopes. |
| DeclQueries.IsModuleEntry | Sources/Core/Program.swift:28-32 | True exactly when `d` is declared directly in a translation unit, is public and is named `main`. An entry is global, not a member, and exported. |
| DeclQueries.ScopeContainingBody | Sources/Core/Program.swift:63-97 | With no body the result is `None`. A block body yields the block. An expression body yields the declaration itself. When the block's scope is the declaration, the result is contained in the declaration. |
| DeclQueries.ExampleQueries | Sources/Core/Program.swift:28-32 | On a concrete program, only the public `main` directly in a translation unit is an entry. A public `main` in a namespace is not, and neither is a private one. A static function in a public type is both global and a member, and it is exported. |
| WrapAddr.Types | Sources/IR/Operands/Instruction/WrapAddrInstruction.swift:26 | The instruction produces exactly one value, of the container's type. |
| WrapAddr.Operands | Sources/IR/Operands/Instruction/WrapAddrInstruction.swift:28 | The only structural operand is the witness. |
| WrapAddr.TableIsNotAnOperand | Sources/IR/Operands/Instruction/WrapAddrInstruction.swift:28 | The table is among the operands only when it is the very operand used as the witness. |
| WrapAddr.MakeWrapAddr | Sources/IR/Operands/Instruction/WrapAddrInstruction.swift:49-57 | The witness must have an address type. The result stores witness, table and anchor unchanged. Its types are exactly `[.address(interface)]`, and its operands exactly `[witness]`. |
| WrapAddr.Description | Sources/IR/Operands/Instruction/WrapAddrInstruction.swift:34-36 | The text is `wrap_addr ` followed by the witness, `, `, the table, ` as ` and the interface, each piece at its position. |
| WrapAddr.DescriptionIgnoresSite | Sources/IR/Operands/Instruction/WrapAddrInstruction.swift:34-36 | The description does not depend on the anchor. |
| WrapAddr.DescriptionDeterminesParts | Sources/IR/Operands/Instruction/WrapAddrInstruction.swift:34-36 | Take two instructions whose witnesses render alike and whose tables render to texts of the same length. They are described alike exactly when their tables and interfaces render alike. |
| TypeErrorReporting.AnchorOf | Sources/Sema/TypeErrorReporter.swift:31-36 | The anchor is the resolved locator's range when the constraint has a locator, and there is none otherwise. |
| TypeErrorReporting.Diagnose | Sources/Sema/TypeErrorReporter.swift:15-38 | A subtyping conflict reads "type 'L' is not a subtype of to type 'R'". Any other conflict reads "type 'L' is not equal to type 'R'". L and R are the reified sides of the constraint. Any other error is described by its own text. The anchor comes from the error's constraint. |
| TypeErrorReporting.WordingsDiffer | Sources/Sema/TypeErrorReporter.swift:23-28 | For the same two types, the subtyping and the equality wordings differ. |
| TypeErrorReporting.Insert | Sources/Sema/TypeErrorReporter.swift:12 | Inserting an error adds exactly that error to the multiset of errors. |
| TypeErrorReporting.SortErrors | Sources/Sema/TypeErrorReporter.swift:12 | The sorted errors are a permutation of the input. |
| TypeErrorReporting.InsertSorted | Sources/Sema/TypeErrorReporter.swift:12 | Under a strict weak order, inserting into a sorted sequence keeps it sorted. |
| TypeErrorReporting.SortErrorsSorted | Sources/Sema/TypeErrorReporter.swift:10-13 | Under a strict weak order, the sorted errors are in order: no error comes before one to its left. They are also a permutation of the input. |
| TypeErrorReporting.SortErrorsOfSorted | Sources/Sema/TypeErrorReporter.swift:12 | Errors that are already in order are left as they are. |
| TypeErrorReporting.Diagnostics | Sources/Sema/TypeErrorReporter.swift:12 | There is one diagnostic per error, in the same order, and the i-th is the diagnostic of the i-th error. |
| TypeErrorReporting.Context.Report | Sources/Sema/TypeErrorReporter.swift:32 | Reporting appends exactly one diagnostic after those already recorded. |
| TypeErrorReporting.TypeErrorReporter.ReportError | Sources/Sema/TypeErrorReporter.swift:15-38 | Reporting one error appends exactly its diagnostic to the context. |
| TypeErrorReporting.TypeErrorReporter.ReportAll | Sources/Sema/TypeErrorReporter.swift:10-13 | The context gains exactly the diagnostics of the sorted errors, one per error and in sorted order, after those it already had. |
| TypeErrorReporting.ReportedInOrder | Sources/Sema/TypeErrorReporter.swift:10-13 | A batch yields as many diagnostics as errors. Under a strict weak order, they come from a sorted permutation of the errors. |
| TypeErrorReporting.ByLocation | Sources/Sema/TypeErrorReporter.swift:11-12 | One error comes before another exactly when its locator resolves to an earlier offset. An error without a locator counts as offset -1. The file is not part of the key, so this orders the errors of one file. |
| TypeErrorReporting.ByLocationIsStrictWeak | Sources/Sema/TypeErrorReporter.swift:11-12 | Ordering by location is a strict weak order, so the sorting lemmas apply to it. |
| TypeErrorReporting.LocationOrderScenario | Sources/Sema/TypeErrorReporter.swift:10-38 | Input: a subtyping error at offset 20 and then an equality error at offset 10. The equality diagnostic ("is not equal to") comes out first, then the subtyping one ("is not a subtype of to"), each anchored at its locator. |

## Left out

- `isCallableBody` (`Program.swift:99-102`) asks `isCallable` of the declaration that owns a brace statement. That property of declaration identifiers is not part of this model.
- `name(of:)` and `debugDescription` (`Program.swift:330-384`) render names and AST nodes as text. That rendering is not part of this model.
- The `Program` subscript that bundles a node with the program (`Program.swift:22-25`) only packages data.
- The `scopeToDecls` property is left out: no query here reads it.
- Swift types declaration identifiers by kind, for example `FunctionDecl.ID`. Here a node's kind is data, and a query that takes a typed identifier requires the node to have that kind.
- `scopes(from:)` in Swift is a lazy sequence. Here `ScopeIndex.ScopesFrom` builds the whole chain as a sequence.
- Well-formedness is an assumption of the whole model. `ScopeIndex.Valid` assumes that the scope links form a forest and that every variable's binding is a binding declaration. The source assumes this of the scope index it builds.
- Type aliases are not modelled as a file of their own. A type alias is a node of kind `TypeAliasDecl`, its access modifier is the node's `access`, and its base name is the node's `identifier`.
- `Solution.reify`, the textual forms of types and errors, `locator.resolve()` and the ordering `<` on type errors are foreign. They are parameters of the model: the `Solution` and `Rendering` values and the `less` argument.
- TypeErrorReporting.TypeErrorReporter.ReportAll: requires nothing of `less`. Sortedness of its output is proved only under a strict weak order, which Swift demands of the comparison passed to `sorted(by:)`.
- TypeErrorReporting.ReportedInOrder: states order of the sorted errors rather than of the diagnostics' anchors. The ordering of errors is foreign, so "sorted by location" holds only for an ordering such as `ByLocation`.
- In the IR, the module's typing of operands is a total function (`WrapAddr.Module.typeOf`). The module's instruction storage is not modelled, since `makeWrapAddr` only builds a value.
- WrapAddr.Description: receives the text of operands and of lowered types as parameters. Their rendering is not part of this model.
- The instruction's field for the witness is called `witnessOperand`, because `witness` is a reserved word in Dafny.
- `Library/Library.swift` (file locations), `Sources/CodeGen/CXX/Stmt/CXXContinueStmt.swift` and `Sources/Compiler/AST/Expr/FunCallExpr.swift` are plain records or configuration with no behaviour to state. They are not part of this model.
- The constraint solver that produces the type errors is not part of this model.
