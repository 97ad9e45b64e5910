/**
 * The declaration queries of `Program` (Sources/Core/Program.swift): whether
 * a declaration is global, a member or local, whether it is public or
 * exported, which trait it is a requirement of, which receiver a scope sees,
 * whether a function is a module's entry, and which scope holds a body.
 *
 * Each Swift force-unwrap (`nodeToScope[d]!`, `MethodDecl.ID(...)!`,
 * `varToBinding[...]!`) becomes a precondition; where the unwrap happens
 * further up the scope chain, the precondition is a `...Defined` predicate
 * that follows the same walk.
 */
module DeclQueries {

  import opened Wrappers
  import opened ScopeIndex

  function KindOf(p: Program, n: NodeId): NodeKind
    requires n in p.nodes
  {
    p.nodes[n].kind
  }

  /** Translation units and namespaces: the scopes whose declarations are at module scope. */
  predicate IsModuleScopeKind(k: NodeKind) {
    k.TranslationUnit? || k.NamespaceDecl?
  }

  /** Type-level declarations and generic parameters, which are global wherever they are. */
  predicate IsTypeLevelKind(k: NodeKind) {
    match k
    case AssociatedTypeDecl | ImportDecl | ModuleDecl | NamespaceDecl | ProductTypeDecl | TraitDecl | TypeAliasDecl => true
    case GenericParameterDecl => true
    case _ => false
  }

  /** The scopes whose declarations are members of a type. */
  predicate IsTypeBodyKind(k: NodeKind) {
    match k
    case ConformanceDecl | ExtensionDecl | ProductTypeDecl | TraitDecl | TypeAliasDecl => true
    case _ => false
  }

  /** The scopes that export their public declarations when they are exported themselves. */
  predicate IsTypeScopeKind(k: NodeKind) {
    match k
    case ConformanceDecl | ExtensionDecl | NamespaceDecl | ProductTypeDecl | TraitDecl | TypeAliasDecl => true
    case _ => false
  }

  // ---------------------------------------------------------------------------
  // Global, member, local

  /** What `isGlobal` and `isLocal` need: the scope of `d` is looked up unless `d` is type-level. */
  predicate ScopeNeeded(p: Program, d: NodeId) {
    IsDecl(p, d) && (IsTypeLevelKind(KindOf(p, d)) || d in p.nodeToScope)
  }

  /** `isAtModuleScope(d)`: `d`'s scope is a translation unit or a namespace. */
  function IsAtModuleScope(p: Program, d: NodeId): (r: bool)
    requires Valid(p) && IsDecl(p, d) && d in p.nodeToScope
    ensures r <==> IsModuleScopeKind(KindOf(p, p.nodeToScope[d]))
    ensures r ==> IsGlobal(p, d)
  {
    match KindOf(p, p.nodeToScope[d])
    case TranslationUnit | NamespaceDecl => true
    case _ => false
  }

  /** `d` is a binding, function or subscript declared `static`. */
  predicate IsStaticDecl(p: Program, d: NodeId)
    requires d in p.nodes
  {
    p.nodes[d].isStatic && KindOf(p, d) in {BindingDecl, FunctionDecl, SubscriptDecl}
  }

  /**
   * `isGlobal(d)`: `d` is type-level or a generic parameter, or is declared
   * at module scope, or is a static binding, function or subscript, or is an
   * initializer.
   */
  function IsGlobal(p: Program, d: NodeId): (r: bool)
    requires Valid(p) && ScopeNeeded(p, d)
    ensures r <==>
      || IsTypeLevelKind(KindOf(p, d))
      || KindOf(p, d) == InitializerDecl
      || IsModuleScopeKind(KindOf(p, p.nodeToScope[d]))
      || IsStaticDecl(p, d)
  {
    if IsTypeLevelKind(KindOf(p, d)) then true
    else if IsModuleScopeKind(KindOf(p, p.nodeToScope[d])) then true
    else
      match KindOf(p, d)
      case BindingDecl => p.nodes[d].isStatic
      case FunctionDecl => p.nodes[d].isStatic
      case InitializerDecl => true
      case SubscriptDecl => p.nodes[d].isStatic
      case _ => false
  }

  /**
   * `isMember(d)`: `d`'s scope is the body of a type, or `d` is a method
   * implementation inside a method declaration, or a subscript implementation
   * inside a subscript declaration that is itself a member. An unattached
   * declaration is not a member.
   */
  function IsMember(p: Program, d: NodeId): (r: bool)
    requires Valid(p) && IsDecl(p, d)
    ensures r <==> d in p.nodeToScope && MemberByScopes(p, d)
    decreases Rank(p, d)
  {
    if d !in p.nodeToScope then false
    else
      var parent := p.nodeToScope[d];
      ParentRankBelow(p, d);
      match KindOf(p, parent)
      case ConformanceDecl | ExtensionDecl | ProductTypeDecl | TraitDecl | TypeAliasDecl => true
      case MethodDecl => KindOf(p, d) == MethodImpl
      case SubscriptDecl => KindOf(p, d) == SubscriptImpl && IsMember(p, parent)
      case _ => false
  }

  /**
   * Membership read off the scope and the scope's scope, without recursion:
   * the scope is a type body, or `d` is a method implementation in a method
   * declaration, or `d` is a subscript implementation in a subscript
   * declaration whose own scope is a type body.
   */
  predicate MemberByScopes(p: Program, d: NodeId)
    requires Valid(p) && IsDecl(p, d) && d in p.nodeToScope
  {
    var s := p.nodeToScope[d];
    || IsTypeBodyKind(KindOf(p, s))
    || (KindOf(p, d) == MethodImpl && KindOf(p, s) == MethodDecl)
    || (KindOf(p, d) == SubscriptImpl && KindOf(p, s) == SubscriptDecl
        && s in p.nodeToScope && IsTypeBodyKind(KindOf(p, p.nodeToScope[s])))
  }

  /** `isLocal(d)`: neither global nor a member. */
  function IsLocal(p: Program, d: NodeId): (r: bool)
    requires Valid(p) && ScopeNeeded(p, d)
    ensures r <==> !IsGlobal(p, d) && !IsMember(p, d)
    ensures r ==> && d in p.nodeToScope
                  && !IsTypeLevelKind(KindOf(p, d)) && KindOf(p, d) != InitializerDecl
                  && !IsModuleScopeKind(KindOf(p, p.nodeToScope[d]))
                  && !IsTypeBodyKind(KindOf(p, p.nodeToScope[d]))
  {
    !IsGlobal(p, d) && !IsMember(p, d)
  }

  /**
   * Every declaration is global, a member or local, and a local declaration
   * is neither of the others. A member is also global exactly when it is
   * type-level, an initializer, or a static binding, function or subscript:
   * a member's scope is never at module scope.
   */
  lemma GlobalMemberLocal(p: Program, d: NodeId)
    requires Valid(p) && ScopeNeeded(p, d)
    ensures IsGlobal(p, d) || IsMember(p, d) || IsLocal(p, d)
    ensures IsLocal(p, d) ==> !IsGlobal(p, d) && !IsMember(p, d)
    ensures IsGlobal(p, d) && IsMember(p, d) <==>
      IsMember(p, d) && (IsTypeLevelKind(KindOf(p, d)) || KindOf(p, d) == InitializerDecl || IsStaticDecl(p, d))
  {
  }

  /**
   * `isNonStaticMember(d)` for a declaration of any kind: a member that is
   * neither type-level, nor an initializer, nor a static binding, function
   * or subscript.
   */
  function IsNonStaticMember(p: Program, d: NodeId): (r: bool)
    requires Valid(p) && ScopeNeeded(p, d)
    ensures r <==>
      && IsMember(p, d)
      && !IsTypeLevelKind(KindOf(p, d)) && KindOf(p, d) != InitializerDecl
      && !IsStaticDecl(p, d)
  {
    !IsGlobal(p, d) && IsMember(p, d)
  }

  /**
   * `isNonStaticMember(d)` as Swift's overloading picks it when `d` is known
   * to be a function, method or subscript declaration: functions and
   * subscripts test their `static` flag, method declarations are always
   * non-static members, and the answer agrees with the generic query for
   * every kind but method declarations. The three overloads read no scope.
   */
  function IsNonStaticMemberOfKind(p: Program, d: NodeId): (r: bool)
    requires Valid(p) && IsDecl(p, d)
    requires KindOf(p, d) in {FunctionDecl, MethodDecl, SubscriptDecl} || ScopeNeeded(p, d)
    ensures KindOf(p, d) == MethodDecl ==> r
    ensures KindOf(p, d) in {FunctionDecl, SubscriptDecl} ==> (r <==> !p.nodes[d].isStatic && IsMember(p, d))
    ensures KindOf(p, d) != MethodDecl && ScopeNeeded(p, d) ==> (r <==> IsNonStaticMember(p, d))
  {
    var k := KindOf(p, d);
    if k == FunctionDecl || k == SubscriptDecl then !p.nodes[d].isStatic && IsMember(p, d)
    else if k == MethodDecl then true
    else IsNonStaticMember(p, d)
  }

  // ---------------------------------------------------------------------------
  // Access

  /**
   * What `isPublic(d)` unwraps: an implementation's scope is its method or
   * subscript declaration, and a variable has a binding.
   */
  ghost predicate PublicDefined(p: Program, d: NodeId) {
    && IsDecl(p, d)
    && match KindOf(p, d)
       case SubscriptImpl => d in p.nodeToScope && HasKind(p, p.nodeToScope[d], SubscriptDecl)
       case MethodImpl => d in p.nodeToScope && HasKind(p, p.nodeToScope[d], MethodDecl)
       case VarDecl => d in p.varToBinding
       case _ => true
  }

  /** Kinds whose access is inherited from another declaration. */
  predicate InheritsAccess(k: NodeKind) {
    k.SubscriptImpl? || k.MethodImpl? || k.VarDecl?
  }

  /**
   * The declaration whose own access modifier decides whether `d` is public:
   * the enclosing declaration of an implementation, the binding of a
   * variable, and `d` itself otherwise.
   */
  function AccessSource(p: Program, d: NodeId): (s: NodeId)
    requires Valid(p) && PublicDefined(p, d)
    ensures IsDecl(p, s) && !InheritsAccess(KindOf(p, s))
    ensures !InheritsAccess(KindOf(p, d)) ==> s == d
    ensures InheritsAccess(KindOf(p, d)) ==>
      s == (if KindOf(p, d) == VarDecl then p.varToBinding[d] else p.nodeToScope[d])
  {
    match KindOf(p, d)
    case SubscriptImpl => p.nodeToScope[d]
    case MethodImpl => p.nodeToScope[d]
    case VarDecl => p.varToBinding[d]
    case _ => d
  }

  /**
   * `isPublic(d)`: implementations are public when their method or subscript
   * declaration is, variables when their binding is, and every other
   * declaration when its own access modifier is `public`.
   */
  function IsPublic(p: Program, d: NodeId): (r: bool)
    requires Valid(p) && PublicDefined(p, d)
    ensures r <==> p.nodes[AccessSource(p, d)].access == Some(Public)
    decreases if InheritsAccess(KindOf(p, d)) then 1 else 0
  {
    var k := KindOf(p, d);
    if k == SubscriptImpl then IsPublic(p, p.nodeToScope[d])
    else if k == MethodImpl then IsPublic(p, p.nodeToScope[d])
    else if k == VarDecl then IsPublic(p, p.varToBinding[d])
    else p.nodes[d].access == Some(Public)
  }

  // ---------------------------------------------------------------------------
  // Export

  /** What `isExported(d)` unwraps along its walk up the chain. */
  ghost predicate ExportDefined(p: Program, d: NodeId)
    requires Valid(p)
    decreases Rank(p, d), 0
  {
    && IsDecl(p, d)
    && (|| KindOf(p, d) == ModuleDecl
        || (&& PublicDefined(p, d)
            && (IsPublic(p, d) ==> d in p.nodeToScope && ExportingDefined(p, p.nodeToScope[d]))))
  }

  /** What `isExportingDecls(s)` unwraps along its walk up the chain. */
  ghost predicate ExportingDefined(p: Program, s: NodeId)
    requires Valid(p)
    decreases Rank(p, s), 1
  {
    s in p.nodes && (IsTypeScopeKind(KindOf(p, s)) ==> ExportDefined(p, s))
  }

  /**
   * `isExported(d)`: modules are exported; any other declaration is exported
   * when it is public and its scope exports its declarations.
   */
  function IsExported(p: Program, d: NodeId): (r: bool)
    requires Valid(p) && ExportDefined(p, d)
    ensures KindOf(p, d) == ModuleDecl ==> r
    ensures r && KindOf(p, d) != ModuleDecl ==> IsPublic(p, d)
    decreases Rank(p, d), 0
  {
    KindOf(p, d) == ModuleDecl || (IsPublic(p, d) && IsExportingDecls(p, p.nodeToScope[d]))
  }

  /**
   * `isExportingDecls(s)`: modules and translation units export their public
   * declarations, type and namespace scopes do when they are exported
   * themselves, and every other scope (a function body, say) never does.
   */
  function IsExportingDecls(p: Program, s: NodeId): (r: bool)
    requires Valid(p) && ExportingDefined(p, s)
    ensures KindOf(p, s) == ModuleDecl || KindOf(p, s) == TranslationUnit ==> r
    ensures !IsTypeScopeKind(KindOf(p, s)) && KindOf(p, s) != ModuleDecl && KindOf(p, s) != TranslationUnit ==> !r
    decreases Rank(p, s), 1
  {
    match KindOf(p, s)
    case ConformanceDecl | ExtensionDecl | NamespaceDecl | ProductTypeDecl | TraitDecl | TypeAliasDecl =>
      IsExported(p, s)
    case ModuleDecl => true
    case TranslationUnit => true
    case _ => false
  }

  /**
   * The chain `c` leaves its first element through public type or namespace
   * scopes only (indices 1 to `k - 1`) and reaches a module or translation
   * unit at index `k`.
   */
  ghost predicate ExportPath(p: Program, c: seq<NodeId>, k: nat) {
    && 1 <= k < |c|
    && (HasKind(p, c[k], ModuleDecl) || HasKind(p, c[k], TranslationUnit))
    && forall i :: 1 <= i < k ==>
         c[i] in p.nodes && IsTypeScopeKind(p.nodes[c[i]].kind) && p.nodes[c[i]].access == Some(Public)
  }

  /** Some prefix of the chain `c` is an export path. */
  ghost predicate HasExportPath(p: Program, c: seq<NodeId>) {
    exists k: nat :: ExportPath(p, c, k)
  }

  /**
   * A declaration other than a module is exported exactly when it is public
   * and every scope between it and the nearest module or translation unit is
   * a public type or namespace declaration.
   */
  lemma {:induction false} ExportedIffPublicPath(p: Program, d: NodeId)
    requires Valid(p) && ExportDefined(p, d)
    ensures IsExported(p, d) <==>
      KindOf(p, d) == ModuleDecl || (IsPublic(p, d) && HasExportPath(p, ScopesFrom(p, d)))
    decreases Rank(p, d)
  {
    if KindOf(p, d) != ModuleDecl && IsPublic(p, d) {
      var s := p.nodeToScope[d];
      var cs := ScopesFrom(p, s);
      assert ScopesFrom(p, d) == [d] + cs;
      assert IsExported(p, d) == IsExportingDecls(p, s);
      var ks := KindOf(p, s);
      if ks == ModuleDecl || ks == TranslationUnit {
        ExportPathAtRoot(p, d, cs);
      } else if IsTypeScopeKind(ks) {
        assert IsExportingDecls(p, s) == IsExported(p, s);
        assert AccessSource(p, s) == s;
        ParentRankBelow(p, d);
        ExportedIffPublicPath(p, s);
        ExportPathThroughTypeScope(p, d, cs);
      } else {
        NoExportPathThroughOther(p, d, cs);
      }
    }
  }

  /** A declaration directly in a module or translation unit has an export path. */
  lemma ExportPathAtRoot(p: Program, d: NodeId, cs: seq<NodeId>)
    requires |cs| > 0 && (HasKind(p, cs[0], ModuleDecl) || HasKind(p, cs[0], TranslationUnit))
    ensures HasExportPath(p, [d] + cs)
  {
    assert ExportPath(p, [d] + cs, 1);
  }

  /** A declaration directly in any other scope than a type, module or translation unit has none. */
  lemma NoExportPathThroughOther(p: Program, d: NodeId, cs: seq<NodeId>)
    requires |cs| > 0 && cs[0] in p.nodes
    requires !IsTypeScopeKind(p.nodes[cs[0]].kind)
    requires !HasKind(p, cs[0], ModuleDecl) && !HasKind(p, cs[0], TranslationUnit)
    ensures !HasExportPath(p, [d] + cs)
  {
    var c := [d] + cs;
    forall k: nat | ExportPath(p, c, k) ensures false {
      ExportPathFirstScope(p, d, cs, k);
    }
  }

  /** The scope right above the start of an export path is a root or a public type scope. */
  lemma ExportPathFirstScope(p: Program, d: NodeId, cs: seq<NodeId>, k: nat)
    requires ExportPath(p, [d] + cs, k)
    ensures |cs| > 0 && cs[0] in p.nodes
    ensures || HasKind(p, cs[0], ModuleDecl) || HasKind(p, cs[0], TranslationUnit)
            || (IsTypeScopeKind(p.nodes[cs[0]].kind) && p.nodes[cs[0]].access == Some(Public))
  {
    assert ([d] + cs)[1] == cs[0];
  }

  /** An export path through a type scope exists exactly when that scope is public and has one. */
  lemma ExportPathThroughTypeScope(p: Program, d: NodeId, cs: seq<NodeId>)
    requires |cs| > 0 && cs[0] in p.nodes && IsTypeScopeKind(p.nodes[cs[0]].kind)
    ensures HasExportPath(p, [d] + cs) <==>
      p.nodes[cs[0]].access == Some(Public) && HasExportPath(p, cs)
  {
    if p.nodes[cs[0]].access == Some(Public) && HasExportPath(p, cs) {
      var k: nat :| ExportPath(p, cs, k);
      ExportPathExtend(p, d, cs, k);
    }
    if HasExportPath(p, [d] + cs) {
      var k: nat :| ExportPath(p, [d] + cs, k);
      ExportPathShrink(p, d, cs, k);
    }
  }

  /** An export path from a public type scope extends to a declaration directly inside it. */
  lemma ExportPathExtend(p: Program, d: NodeId, cs: seq<NodeId>, k: nat)
    requires ExportPath(p, cs, k) && cs[0] in p.nodes
    requires IsTypeScopeKind(p.nodes[cs[0]].kind) && p.nodes[cs[0]].access == Some(Public)
    ensures ExportPath(p, [d] + cs, k + 1)
  {
    var c := [d] + cs;
    forall i | 1 <= i < k + 1
      ensures c[i] in p.nodes && IsTypeScopeKind(p.nodes[c[i]].kind) && p.nodes[c[i]].access == Some(Public)
    {
      assert c[i] == cs[i - 1];
    }
  }

  /** An export path through a type scope starts with that scope being public, and continues from it. */
  lemma ExportPathShrink(p: Program, d: NodeId, cs: seq<NodeId>, k: nat)
    requires ExportPath(p, [d] + cs, k) && |cs| > 0 && cs[0] in p.nodes && IsTypeScopeKind(p.nodes[cs[0]].kind)
    ensures k >= 2 && p.nodes[cs[0]].access == Some(Public) && ExportPath(p, cs, k - 1)
  {
    var c := [d] + cs;
    assert c[1] == cs[0];
    forall i | 1 <= i < k - 1
      ensures cs[i] in p.nodes && IsTypeScopeKind(p.nodes[cs[i]].kind) && p.nodes[cs[i]].access == Some(Public)
    {
      assert cs[i] == c[i + 1];
    }
  }

  // ---------------------------------------------------------------------------
  // Requirements

  /** What `trait(defining: d)` unwraps. */
  ghost predicate TraitDefined(p: Program, d: NodeId) {
    && IsDecl(p, d)
    && match KindOf(p, d)
       case AssociatedTypeDecl | AssociatedValueDecl =>
         d in p.nodeToScope && HasKind(p, p.nodeToScope[d], TraitDecl)
       case FunctionDecl | InitializerDecl | MethodDecl | SubscriptDecl =>
         d in p.nodeToScope
       case MethodImpl =>
         d in p.nodeToScope && HasKind(p, p.nodeToScope[d], MethodDecl) && p.nodeToScope[d] in p.nodeToScope
       case SubscriptImpl =>
         d in p.nodeToScope && HasKind(p, p.nodeToScope[d], SubscriptDecl) && p.nodeToScope[d] in p.nodeToScope
       case _ => true
  }

  /** The kinds of declaration that can be requirements of a trait. */
  predicate IsRequirementKind(k: NodeKind) {
    match k
    case AssociatedTypeDecl | AssociatedValueDecl | FunctionDecl | InitializerDecl
       | MethodDecl | SubscriptDecl | MethodImpl | SubscriptImpl => true
    case _ => false
  }

  /**
   * `d` is a requirement: a declaration of a requirement kind directly in a
   * trait, or an implementation whose method or subscript declaration is
   * directly in a trait.
   */
  predicate DeclaredInTrait(p: Program, d: NodeId)
    requires IsDecl(p, d)
  {
    var k := KindOf(p, d);
    if k in {AssociatedTypeDecl, AssociatedValueDecl, FunctionDecl, InitializerDecl, MethodDecl, SubscriptDecl} then
      d in p.nodeToScope && HasKind(p, p.nodeToScope[d], TraitDecl)
    else if k in {MethodImpl, SubscriptImpl} then
      d in p.nodeToScope && p.nodeToScope[d] in p.nodeToScope
      && HasKind(p, p.nodeToScope[p.nodeToScope[d]], TraitDecl)
    else
      false
  }

  /**
   * `trait(defining: d)`: the trait whose body declares `d` (or, for an
   * implementation, declares its method or subscript) when `d` is a
   * requirement, and nothing otherwise.
   */
  function TraitDefining(p: Program, d: NodeId): (t: Option<NodeId>)
    requires Valid(p) && TraitDefined(p, d)
    ensures t.Some? <==> DeclaredInTrait(p, d)
    ensures t.Some? ==> HasKind(p, t.value, TraitDecl) && IsRequirementKind(KindOf(p, d))
    ensures t.Some? ==>
      || t.value == p.nodeToScope[d]
      || (KindOf(p, d) in {MethodImpl, SubscriptImpl} && t.value == p.nodeToScope[p.nodeToScope[d]])
    ensures KindOf(p, d) in {AssociatedTypeDecl, AssociatedValueDecl} ==> t == Some(p.nodeToScope[d])
    decreases if KindOf(p, d) in {MethodImpl, SubscriptImpl} then 1 else 0
  {
    match KindOf(p, d)
    case AssociatedTypeDecl | AssociatedValueDecl => Some(p.nodeToScope[d])
    case FunctionDecl | InitializerDecl | MethodDecl | SubscriptDecl =>
      if HasKind(p, p.nodeToScope[d], TraitDecl) then Some(p.nodeToScope[d]) else None
    case MethodImpl => TraitDefining(p, p.nodeToScope[d])
    case SubscriptImpl => TraitDefining(p, p.nodeToScope[d])
    case _ => None
  }

  /**
   * `isRequirement(d)`: `d` is declared in a trait (through its method or
   * subscript declaration, for an implementation); a requirement is a member
   * of its trait, and that trait contains it.
   */
  function IsRequirement(p: Program, d: NodeId): (r: bool)
    requires Valid(p) && TraitDefined(p, d)
    ensures r <==> DeclaredInTrait(p, d)
    ensures r ==> IsMember(p, d)
    ensures r ==> exists t :: Contained(p, d, t) && HasKind(p, t, TraitDecl)
  {
    TraitDefiningContains(p, d);
    TraitDefining(p, d).Some?
  }

  /** The trait defining `d` is one of `d`'s enclosing scopes. */
  lemma TraitDefiningContains(p: Program, d: NodeId)
    requires Valid(p) && TraitDefined(p, d)
    ensures TraitDefining(p, d).Some? ==> Contained(p, d, TraitDefining(p, d).value)
  {
    var t := TraitDefining(p, d);
    if t.Some? {
      var s := p.nodeToScope[d];
      assert ScopesFrom(p, d) == [d] + ScopesFrom(p, s);
      if t.value != s {
        assert ScopesFrom(p, s) == [s] + ScopesFrom(p, t.value);
      }
    }
  }

  // ---------------------------------------------------------------------------
  // Receivers

  /**
   * The walk of `innermostReceiver` stops at `s`: a function or subscript
   * implementation with a receiver, an initializer, a method implementation,
   * or a module.
   */
  predicate StopsReceiverLookup(p: Program, s: NodeId) {
    && s in p.nodes
    && match KindOf(p, s)
       case FunctionDecl | SubscriptImpl => p.nodes[s].receiver.Some?
       case InitializerDecl | MethodImpl | ModuleDecl => true
       case _ => false
  }

  /** The walk of `innermostReceiver(in: s)` stops before it runs out of scopes. */
  ghost predicate ReceiverLookupDefined(p: Program, s: NodeId)
    requires Valid(p)
    decreases Rank(p, s)
  {
    && s in p.nodes
    && (|| StopsReceiverLookup(p, s)
        || (s in p.nodeToScope && ReceiverLookupDefined(p, p.nodeToScope[s])))
  }

  /**
   * The walk of `innermostReceiver` along chain `c` stops first at index `i`,
   * and `r` is what it answers there: nothing at a module, the scope's
   * receiver otherwise.
   */
  ghost predicate FirstStopAt(p: Program, c: seq<NodeId>, i: nat, r: Option<NodeId>) {
    && i < |c|
    && StopsReceiverLookup(p, c[i])
    && (forall j :: 0 <= j < i ==> !StopsReceiverLookup(p, c[j]))
    && r == (if KindOf(p, c[i]) == ModuleDecl then None else p.nodes[c[i]].receiver)
  }

  /**
   * `innermostReceiver(in: s)`: the receiver exposed by the innermost
   * enclosing function, initializer or implementation, or `None` when the
   * walk meets a module first. The answer is read at the first scope on
   * `s`'s chain where the walk stops.
   */
  function InnermostReceiver(p: Program, s: NodeId): (r: Option<NodeId>)
    requires Valid(p) && ReceiverLookupDefined(p, s)
    ensures exists i: nat :: FirstStopAt(p, ScopesFrom(p, s), i, r)
    decreases Rank(p, s), 1
  {
    var stop := if KindOf(p, s) == ModuleDecl then None else p.nodes[s].receiver;
    assert StopsReceiverLookup(p, s) ==> FirstStopAt(p, ScopesFrom(p, s), 0, stop);
    match KindOf(p, s)
    case FunctionDecl =>
      if p.nodes[s].receiver.Some? then p.nodes[s].receiver else ReceiverOfScope(p, s)
    case InitializerDecl => p.nodes[s].receiver
    case MethodImpl => p.nodes[s].receiver
    case ModuleDecl => None
    case SubscriptImpl =>
      if p.nodes[s].receiver.Some? then p.nodes[s].receiver else ReceiverOfScope(p, s)
    case _ => ReceiverOfScope(p, s)
  }

  /** `innermostReceiver` continued from the scope of `s`, where `s` does not stop the walk. */
  function ReceiverOfScope(p: Program, s: NodeId): (r: Option<NodeId>)
    requires Valid(p) && ReceiverLookupDefined(p, s) && !StopsReceiverLookup(p, s)
    ensures exists i: nat :: FirstStopAt(p, ScopesFrom(p, s), i, r)
    decreases Rank(p, s), 0
  {
    ParentRankBelow(p, s);
    var r := InnermostReceiver(p, p.nodeToScope[s]);
    FirstStopFromScope(p, s, r);
    r
  }

  /** A first stop on the chain of `s`'s scope is a first stop on `s`'s chain when `s` does not stop the walk. */
  lemma FirstStopFromScope(p: Program, s: NodeId, r: Option<NodeId>)
    requires Valid(p) && s in p.nodeToScope && !StopsReceiverLookup(p, s)
    requires exists i: nat :: FirstStopAt(p, ScopesFrom(p, p.nodeToScope[s]), i, r)
    ensures exists i: nat :: FirstStopAt(p, ScopesFrom(p, s), i, r)
  {
    var c := ScopesFrom(p, s);
    var ct := ScopesFrom(p, p.nodeToScope[s]);
    assert c == [s] + ct;
    var i: nat :| FirstStopAt(p, ct, i, r);
    assert FirstStopAt(p, c, i + 1, r) by {
      assert c[i + 1] == ct[i];
      assert forall j :: 1 <= j < i + 1 ==> c[j] == ct[j - 1];
    }
  }

  /** On an attached scope the walk of `innermostReceiver` always stops (at the module at the latest). */
  lemma {:induction false} AttachedReceiverLookupDefined(p: Program, s: NodeId)
    requires Valid(p) && s in p.nodes && Attached(p, s)
    ensures ReceiverLookupDefined(p, s)
    decreases Rank(p, s)
  {
    if !StopsReceiverLookup(p, s) {
      var t := p.nodeToScope[s];
      ParentRankBelow(p, s);
      assert ScopesFrom(p, s) == [s] + ScopesFrom(p, t);
      AttachedReceiverLookupDefined(p, t);
    }
  }

  // ---------------------------------------------------------------------------
  // Entries and bodies

  /**
   * `isModuleEntry(d)`: `d` is declared directly in a translation unit, is
   * public and is named `main`. Such a function is global, not a member, and
   * exported.
   */
  function IsModuleEntry(p: Program, d: NodeId): (r: bool)
    requires Valid(p) && HasKind(p, d, FunctionDecl) && d in p.nodeToScope
    ensures r <==> && HasKind(p, p.nodeToScope[d], TranslationUnit)
                   && p.nodes[d].access == Some(Public)
                   && p.nodes[d].identifier == Some("main")
    ensures r ==> IsGlobal(p, d) && !IsMember(p, d) && ExportDefined(p, d) && IsExported(p, d)
  {
    var s := p.nodeToScope[d];
    var n := p.nodes[d].identifier;
    HasKind(p, s, TranslationUnit) && IsPublic(p, d) && n == Some("main")
  }

  /**
   * `scopeContainingBody(of: d)` for functions, method implementations and
   * subscript implementations: the block of a block body, `d` itself for an
   * expression body, nothing without a body. When the block is nested
   * directly in `d`, the result is a scope contained in `d`.
   */
  function ScopeContainingBody(p: Program, d: NodeId): (r: Option<NodeId>)
    requires Valid(p) && d in p.nodes && KindOf(p, d) in {FunctionDecl, MethodImpl, SubscriptImpl}
    ensures r.None? <==> p.nodes[d].body.NoBody?
    ensures p.nodes[d].body.ExprBody? ==> r == Some(d)
    ensures p.nodes[d].body.Block? ==> r == Some(p.nodes[d].body.scope)
    ensures r.Some? && (p.nodes[d].body.Block? ==> p.nodes[d].body.scope in p.nodeToScope
                                                   && p.nodeToScope[p.nodes[d].body.scope] == d)
            ==> Contained(p, r.value, d)
  {
    match p.nodes[d].body
    case NoBody => None
    case Block(s) => Some(s)
    case ExprBody => Some(d)
  }

  // ---------------------------------------------------------------------------
  // A worked example

  /** A declaration node without receiver or body. */
  function DeclNode(k: NodeKind, access: AccessModifier, isStatic: bool, name: string): Node {
    Node(k, Some(access), isStatic, None, Some(name), NoBody)
  }

  /**
   * Module 0 holds translation unit 1, which holds namespace 2, a public
   * function `main` (3), a private function `main` (5) and a public type `T`
   * (6); the namespace holds another public `main` (4), and the type a public
   * static function `make` (7).
   */
  function Example(): Program {
    Program(
      map[
        0 := Node(ModuleDecl, None, false, None, Some("M"), NoBody),
        1 := Node(TranslationUnit, None, false, None, None, NoBody),
        2 := DeclNode(NamespaceDecl, Public, false, "N"),
        3 := DeclNode(FunctionDecl, Public, false, "main"),
        4 := DeclNode(FunctionDecl, Public, false, "main"),
        5 := DeclNode(FunctionDecl, Private, false, "main"),
        6 := DeclNode(ProductTypeDecl, Public, false, "T"),
        7 := DeclNode(FunctionDecl, Public, true, "make")],
      map[1 := 0, 2 := 1, 3 := 1, 4 := 2, 5 := 1, 6 := 1, 7 := 6],
      map[])
  }

  lemma ExampleIsValid()
    ensures Valid(Example())
  {
    assert RankedBy(Example(), map[0 := 0, 1 := 1, 2 := 2, 3 := 2, 4 := 3, 5 := 2, 6 := 2, 7 := 3]);
  }

  /**
   * Only the public `main` directly in the translation unit is an entry: not
   * the one in the namespace, nor the private one. The static function of the
   * type is both global and a member, and it is exported through its public
   * type.
   */
  lemma ExampleQueries()
    ensures Valid(Example())
    ensures IsModuleEntry(Example(), 3)
    ensures !IsModuleEntry(Example(), 4) && IsAtModuleScope(Example(), 4)
    ensures !IsModuleEntry(Example(), 5)
    ensures IsGlobal(Example(), 7) && IsMember(Example(), 7) && !IsNonStaticMember(Example(), 7)
    ensures ExportDefined(Example(), 7) && IsExported(Example(), 7)
  {
    ExampleIsValid();
    var p := Example();
    assert ExportingDefined(p, 1);
    assert ExportDefined(p, 6);
    assert ExportingDefined(p, 6);
  }
}
