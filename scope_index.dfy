/**
 * The scope index of a Hylo program and the queries of `Program` that walk
 * its parent links: containment, overlap, the chain of enclosing scopes, the
 * innermost common scope and the module or translation unit that contains a
 * scope (Sources/Core/Program.swift).
 *
 * A node identifier is a `nat`; the data of each node (its kind, access
 * modifier, `static` flag, receiver, identifier and body) sits in `nodes`.
 * `nodeToScope` maps a node to the innermost scope that contains it and
 * `varToBinding` maps a variable declaration to its binding declaration.
 */
module ScopeIndex {

  import opened Wrappers

  type NodeId = nat

  /** The kinds of node the queries distinguish; every other node is `OtherNode`. */
  datatype NodeKind =
    | TranslationUnit
    | ModuleDecl
    | NamespaceDecl
    | ProductTypeDecl
    | TraitDecl
    | TypeAliasDecl
    | AssociatedTypeDecl
    | AssociatedValueDecl
    | ImportDecl
    | GenericParameterDecl
    | ConformanceDecl
    | ExtensionDecl
    | BindingDecl
    | VarDecl
    | FunctionDecl
    | InitializerDecl
    | MethodDecl
    | MethodImpl
    | SubscriptDecl
    | SubscriptImpl
    | ParameterDecl
    | OperatorDecl
    | BraceStmt
    | OtherNode

  /** Whether nodes of kind `k` are declarations (`DeclID`). */
  predicate IsDeclKind(k: NodeKind) {
    !(k.TranslationUnit? || k.BraceStmt? || k.OtherNode?)
  }

  datatype AccessModifier = Private | Internal | Public

  /** The body of a function, method implementation or subscript implementation. */
  datatype Body = NoBody | Block(scope: NodeId) | ExprBody

  /**
   * The data of a node. `access` is `None` for declarations that have no
   * access modifier (that are not exposable); a type alias always has one,
   * and its base name is its identifier.
   */
  datatype Node = Node(
    kind: NodeKind,
    access: Option<AccessModifier>,
    isStatic: bool,
    receiver: Option<NodeId>,
    identifier: Option<string>,
    body: Body)

  datatype Program = Program(
    nodes: map<NodeId, Node>,
    nodeToScope: map<NodeId, NodeId>,
    varToBinding: map<NodeId, NodeId>)

  predicate HasKind(p: Program, n: NodeId, k: NodeKind) {
    n in p.nodes && p.nodes[n].kind == k
  }

  /** `n` is the identifier of a declaration of `p`. */
  predicate IsDecl(p: Program, n: NodeId) {
    n in p.nodes && IsDeclKind(p.nodes[n].kind)
  }

  /** `rank` strictly decreases from every node to its scope. */
  ghost predicate RankedBy(p: Program, rank: map<NodeId, nat>) {
    forall n :: n in p.nodeToScope ==>
      n in rank && p.nodeToScope[n] in rank && rank[p.nodeToScope[n]] < rank[n]
  }

  /**
   * The invariant of a scope index built once from the node store: parent
   * links point to known nodes, a variable's binding is a binding declaration,
   * and the parent relation is a forest (some rank decreases towards the roots).
   */
  ghost predicate Valid(p: Program) {
    && (forall n :: n in p.nodeToScope ==> n in p.nodes && p.nodeToScope[n] in p.nodes)
    && (forall v :: v in p.varToBinding ==>
          v in p.nodes && p.nodes[v].kind == VarDecl && HasKind(p, p.varToBinding[v], BindingDecl))
    && exists rank :: RankedBy(p, rank)
  }

  /** A rank of `n` in the forest, the termination measure of every upward walk. */
  ghost function Rank(p: Program, n: NodeId): nat
    requires Valid(p)
  {
    var rank :| RankedBy(p, rank);
    if n in rank then rank[n] else 0
  }

  lemma ParentRankBelow(p: Program, n: NodeId)
    requires Valid(p) && n in p.nodeToScope
    ensures Rank(p, p.nodeToScope[n]) < Rank(p, n)
  {
  }

  /** `c` follows parent links: each element is the scope of the one before it. */
  ghost predicate IsChain(p: Program, c: seq<NodeId>) {
    forall i :: 0 <= i < |c| - 1 ==> c[i] in p.nodeToScope && p.nodeToScope[c[i]] == c[i + 1]
  }

  /**
   * `scopes(from: s)`: `s` and all its ancestors, from inner to outer. The
   * chain starts at `s`, follows parent links and stops at a node that has no
   * scope; every element after the first is a known node.
   */
  function ScopesFrom(p: Program, s: NodeId): (c: seq<NodeId>)
    requires Valid(p)
    ensures |c| >= 1 && c[0] == s
    ensures IsChain(p, c)
    ensures c[|c| - 1] !in p.nodeToScope
    ensures forall i :: 1 <= i < |c| ==> c[i] in p.nodes
    decreases Rank(p, s)
  {
    if s in p.nodeToScope then
      ParentRankBelow(p, s);
      [s] + ScopesFrom(p, p.nodeToScope[s])
    else
      [s]
  }

  /** The chain of `scopes(from: s)` is the only parent chain from `s` that runs to a root. */
  lemma {:induction false} ChainIsUnique(p: Program, s: NodeId, c: seq<NodeId>)
    requires Valid(p)
    requires |c| >= 1 && c[0] == s && IsChain(p, c) && c[|c| - 1] !in p.nodeToScope
    ensures c == ScopesFrom(p, s)
    decreases |c|
  {
    if |c| == 1 {
    } else {
      var t := c[1..];
      assert IsChain(p, t) by {
        forall i | 0 <= i < |t| - 1 ensures t[i] in p.nodeToScope && p.nodeToScope[t[i]] == t[i + 1] {
          assert t[i] == c[i + 1] && t[i + 1] == c[i + 2];
        }
      }
      ChainIsUnique(p, c[1], t);
      assert c == [s] + t;
    }
  }

  /** The chain from any element of a chain is the rest of that chain. */
  lemma {:induction false} ScopesFromSuffix(p: Program, s: NodeId, i: nat)
    requires Valid(p) && i < |ScopesFrom(p, s)|
    ensures ScopesFrom(p, ScopesFrom(p, s)[i]) == ScopesFrom(p, s)[i..]
  {
    var c := ScopesFrom(p, s);
    var t := c[i..];
    assert IsChain(p, t) by {
      forall j | 0 <= j < |t| - 1 ensures t[j] in p.nodeToScope && p.nodeToScope[t[j]] == t[j + 1] {
        assert t[j] == c[i + j] && t[j + 1] == c[i + j + 1];
      }
    }
    ChainIsUnique(p, c[i], t);
  }

  /** `isContained(child, in: ancestor)`, as a specification: `ancestor` lies on `child`'s chain. */
  predicate Contained(p: Program, child: NodeId, ancestor: NodeId)
    requires Valid(p)
  {
    ancestor in ScopesFrom(p, child)
  }

  /** Containment is transitive. */
  lemma ContainedTransitive(p: Program, a: NodeId, b: NodeId, c: NodeId)
    requires Valid(p) && Contained(p, a, b) && Contained(p, b, c)
    ensures Contained(p, a, c)
  {
    var ca := ScopesFrom(p, a);
    var i :| 0 <= i < |ca| && ca[i] == b;
    ScopesFromSuffix(p, a, i);
  }

  /** Containment is antisymmetric: two scopes that contain each other are the same. */
  lemma ContainedAntisymmetric(p: Program, a: NodeId, b: NodeId)
    requires Valid(p) && Contained(p, a, b) && Contained(p, b, a)
    ensures a == b
  {
    var ca := ScopesFrom(p, a);
    var i :| 0 <= i < |ca| && ca[i] == b;
    ScopesFromSuffix(p, a, i);
    if i > 0 {
      RankDecreasesAlongChain(p, a, 0, i);
      var cb := ScopesFrom(p, b);
      var j :| 0 <= j < |cb| && cb[j] == a;
      if j > 0 {
        RankDecreasesAlongChain(p, b, 0, j);
      }
    }
  }

  /** Ranks strictly decrease from inner to outer along a chain. */
  lemma {:induction false} RankDecreasesAlongChain(p: Program, s: NodeId, i: nat, j: nat)
    requires Valid(p) && i < j < |ScopesFrom(p, s)|
    ensures Rank(p, ScopesFrom(p, s)[j]) < Rank(p, ScopesFrom(p, s)[i])
    decreases j - i
  {
    var c := ScopesFrom(p, s);
    ParentRankBelow(p, c[j - 1]);
    if i < j - 1 {
      RankDecreasesAlongChain(p, s, i, j - 1);
    }
  }

  /**
   * `isContained(child, in: ancestor)`: walks up from `child` and answers
   * whether `ancestor` is met; an unattached `child` is contained only in itself.
   */
  method IsContained(p: Program, child: NodeId, ancestor: NodeId) returns (r: bool)
    requires Valid(p)
    ensures r <==> ancestor in ScopesFrom(p, child)
    ensures child !in p.nodeToScope ==> (r <==> ancestor == child)
  {
    var current := child;
    while true
      invariant (ancestor in ScopesFrom(p, child)) <==> (ancestor in ScopesFrom(p, current))
      decreases Rank(p, current)
    {
      if ancestor == current {
        return true;
      } else if current in p.nodeToScope {
        ParentRankBelow(p, current);
        current := p.nodeToScope[current];
      } else {
        return false;
      }
    }
  }

  /** `areOverlapping(l, r)`: one of the two scopes contains the other. */
  method AreOverlapping(p: Program, l: NodeId, r: NodeId) returns (o: bool)
    requires Valid(p)
    ensures o <==> Contained(p, l, r) || Contained(p, r, l)
    ensures o <==> Overlapping(p, r, l)
  {
    var lr := IsContained(p, l, r);
    var rl := IsContained(p, r, l);
    o := lr || rl;
  }

  predicate Overlapping(p: Program, l: NodeId, r: NodeId)
    requires Valid(p)
  {
    Contained(p, l, r) || Contained(p, r, l)
  }

  /** `s` in reverse order. */
  function Reversed(s: seq<NodeId>): (r: seq<NodeId>)
    ensures |r| == |s|
    ensures forall i :: 0 <= i < |s| ==> r[i] == s[|s| - 1 - i]
  {
    seq(|s|, i requires 0 <= i < |s| => s[|s| - 1 - i])
  }

  /** `x` and `y` agree on their first `n` elements. */
  predicate AgreeUpTo(x: seq<NodeId>, y: seq<NodeId>, n: nat) {
    n <= |x| && n <= |y| && forall k :: 0 <= k < n ==> x[k] == y[k]
  }

  /** The length of the longest common prefix of `x` and `y`. */
  function CommonPrefixLength(x: seq<NodeId>, y: seq<NodeId>): (n: nat)
    ensures AgreeUpTo(x, y, n)
    ensures n < |x| && n < |y| ==> x[n] != y[n]
  {
    if |x| == 0 || |y| == 0 || x[0] != y[0] then 0
    else 1 + CommonPrefixLength(x[1..], y[1..])
  }

  /** A common prefix that cannot be extended is the longest one. */
  lemma CommonPrefixLengthUnique(x: seq<NodeId>, y: seq<NodeId>, k: nat)
    requires AgreeUpTo(x, y, k)
    requires k == |x| || k == |y| || x[k] != y[k]
    ensures CommonPrefixLength(x, y) == k
  {
  }

  /**
   * The specification of `innermostCommonScope(a, b)`: the last scope on
   * which the two chains, read from the root, still agree; `None` when they
   * disagree from the root on.
   */
  function CommonScope(p: Program, a: NodeId, b: NodeId): (r: Option<NodeId>)
    requires Valid(p)
  {
    LastAgreement(Reversed(ScopesFrom(p, a)), Reversed(ScopesFrom(p, b)))
  }

  /** The last element of the longest common prefix of `x` and `y`, if any. */
  function LastAgreement(x: seq<NodeId>, y: seq<NodeId>): Option<NodeId> {
    var n := CommonPrefixLength(x, y);
    if n == 0 then None else Some(x[n - 1])
  }

  /**
   * `innermostCommonScope(a, b)`: scans the two reversed chains index-wise
   * and keeps the last scope where they agree.
   */
  method InnermostCommonScope(p: Program, a: NodeId, b: NodeId) returns (result: Option<NodeId>)
    requires Valid(p)
    ensures result == CommonScope(p, a, b)
  {
    var x := Reversed(ScopesFrom(p, a));
    var y := Reversed(ScopesFrom(p, b));
    ghost var expected := LastAgreement(x, y);
    assert expected == CommonScope(p, a, b);
    result := None;
    for i := 0 to |x|
      invariant AgreeUpTo(x, y, i)
      invariant result == if i == 0 then None else Some(x[i - 1])
    {
      if i == |y| || x[i] != y[i] {
        CommonPrefixLengthUnique(x, y, i);
        return;
      }
      result := Some(x[i]);
    }
    CommonPrefixLengthUnique(x, y, |x|);
  }

  /** Everything on both chains is contained in the innermost common scope. */
  lemma CommonScopeProperties(p: Program, a: NodeId, b: NodeId)
    requires Valid(p)
    ensures CommonScope(p, a, b) == CommonScope(p, b, a)
    ensures CommonScope(p, a, b).None? <==> Last(ScopesFrom(p, a)) != Last(ScopesFrom(p, b))
    ensures CommonScope(p, a, b).Some? ==>
      && Contained(p, a, CommonScope(p, a, b).value)
      && Contained(p, b, CommonScope(p, a, b).value)
    ensures CommonScope(p, a, b).Some? ==>
      forall c :: Contained(p, a, c) && Contained(p, b, c) ==> Contained(p, CommonScope(p, a, b).value, c)
  {
    var A, B := ScopesFrom(p, a), ScopesFrom(p, b);
    var x, y := Reversed(A), Reversed(B);
    var n := CommonPrefixLength(x, y);
    CommonPrefixLengthSymmetric(x, y);
    if n > 0 {
      assert x[n - 1] == A[|A| - n];
      assert x[n - 1] == y[n - 1] == B[|B| - n];
      forall c | Contained(p, a, c) && Contained(p, b, c)
        ensures Contained(p, x[n - 1], c)
      {
        CommonAncestorBelowPrefix(p, a, b, c);
        ScopesFromSuffix(p, a, |A| - n);
        var i :| 0 <= i < |A| && A[i] == c;
        ScopesFromSuffix(p, a, i);
        assert |A| - |ScopesFrom(p, c)| == i;
        assert A[i] in A[|A| - n..];
      }
    }
  }

  function Last(c: seq<NodeId>): NodeId
    requires |c| > 0
  {
    c[|c| - 1]
  }

  lemma CommonPrefixLengthSymmetric(x: seq<NodeId>, y: seq<NodeId>)
    ensures CommonPrefixLength(x, y) == CommonPrefixLength(y, x)
  {
    var n := CommonPrefixLength(x, y);
    CommonPrefixLengthUnique(y, x, n);
  }

  /** Two sequences with a common suffix of length `m` agree on the first `m` elements once reversed. */
  lemma ReversedCommonSuffix(A: seq<NodeId>, B: seq<NodeId>, i: nat, j: nat)
    requires i < |A| && j < |B| && A[i..] == B[j..]
    ensures AgreeUpTo(Reversed(A), Reversed(B), |A| - i)
  {
    var x, y, m := Reversed(A), Reversed(B), |A| - i;
    assert |B| - j == m;
    forall k | 0 <= k < m ensures x[k] == y[k] {
      calc {
        x[k];
        A[|A| - 1 - k];
        A[i..][m - 1 - k];
        B[j..][m - 1 - k];
        B[|B| - 1 - k];
        y[k];
      }
    }
  }

  /** A common ancestor `c` of `a` and `b` sits within the common prefix of the reversed chains. */
  lemma CommonAncestorBelowPrefix(p: Program, a: NodeId, b: NodeId, c: NodeId)
    requires Valid(p) && Contained(p, a, c) && Contained(p, b, c)
    ensures |ScopesFrom(p, c)| <= CommonPrefixLength(Reversed(ScopesFrom(p, a)), Reversed(ScopesFrom(p, b)))
  {
    var A, B := ScopesFrom(p, a), ScopesFrom(p, b);
    var i :| 0 <= i < |A| && A[i] == c;
    var j :| 0 <= j < |B| && B[j] == c;
    ScopesFromSuffix(p, a, i);
    ScopesFromSuffix(p, b, j);
    ReversedCommonSuffix(A, B, i, j);
    CommonPrefixAtLeast(Reversed(A), Reversed(B), |A| - i);
  }

  /** Every common prefix is at most as long as the longest one. */
  lemma CommonPrefixAtLeast(x: seq<NodeId>, y: seq<NodeId>, m: nat)
    requires AgreeUpTo(x, y, m)
    ensures m <= CommonPrefixLength(x, y)
  {
  }

  /** Two scopes overlap exactly when their innermost common scope is one of them. */
  lemma OverlappingIffCommonScopeIsEndpoint(p: Program, l: NodeId, r: NodeId)
    requires Valid(p)
    ensures Overlapping(p, l, r) <==> CommonScope(p, l, r) in {Some(l), Some(r)}
  {
    CommonScopeProperties(p, l, r);
    var cs := CommonScope(p, l, r);
    if Contained(p, l, r) {
      CommonAncestorBelowPrefix(p, l, r, r);
      assert Contained(p, r, r);
      ContainedAntisymmetric(p, cs.value, r);
    } else if Contained(p, r, l) {
      CommonAncestorBelowPrefix(p, l, r, l);
      assert Contained(p, l, l);
      ContainedAntisymmetric(p, cs.value, l);
    }
  }

  /** Some element of `s`'s chain has kind `k`. */
  predicate ChainHasKind(p: Program, s: NodeId, k: NodeKind)
    requires Valid(p)
  {
    exists n :: n in ScopesFrom(p, s) && HasKind(p, n, k)
  }

  /** The index of the first element of `c` whose kind is `k` (`first(K.self)`). */
  function FirstOfKind(p: Program, c: seq<NodeId>, k: NodeKind): (i: nat)
    requires exists n :: n in c && HasKind(p, n, k)
    ensures i < |c| && HasKind(p, c[i], k)
    ensures forall j :: 0 <= j < i ==> !HasKind(p, c[j], k)
  {
    if HasKind(p, c[0], k) then 0
    else
      assert exists n :: n in c[1..] && HasKind(p, n, k) by {
        var n :| n in c && HasKind(p, n, k);
        assert n != c[0];
      }
      1 + FirstOfKind(p, c[1..], k)
  }

  /** The innermost scope of kind `k` that contains `s`. */
  function InnermostOfKind(p: Program, s: NodeId, k: NodeKind): (r: NodeId)
    requires Valid(p) && ChainHasKind(p, s, k)
    ensures HasKind(p, r, k) && Contained(p, s, r)
    ensures forall n :: Contained(p, s, n) && HasKind(p, n, k) ==> Contained(p, r, n)
  {
    var c := ScopesFrom(p, s);
    var i := FirstOfKind(p, c, k);
    ScopesFromSuffix(p, s, i);
    assert forall n :: n in c && HasKind(p, n, k) ==> n in c[i..] by {
      forall n | n in c && HasKind(p, n, k) ensures n in c[i..] {
        var j :| 0 <= j < |c| && c[j] == n;
        assert c[i..][j - i] == n;
      }
    }
    c[i]
  }

  /** `module(containing: s)`: the innermost module declaration whose scope contains `s`. */
  function ModuleContaining(p: Program, s: NodeId): (m: NodeId)
    requires Valid(p) && ChainHasKind(p, s, ModuleDecl)
    ensures HasKind(p, m, ModuleDecl) && Contained(p, s, m)
    ensures forall n :: Contained(p, s, n) && HasKind(p, n, ModuleDecl) ==> Contained(p, m, n)
  {
    InnermostOfKind(p, s, ModuleDecl)
  }

  /** `source(containing: s)`: the innermost translation unit that contains `s`. */
  function SourceContaining(p: Program, s: NodeId): (u: NodeId)
    requires Valid(p) && ChainHasKind(p, s, TranslationUnit)
    ensures HasKind(p, u, TranslationUnit) && Contained(p, s, u)
    ensures forall n :: Contained(p, s, n) && HasKind(p, n, TranslationUnit) ==> Contained(p, u, n)
  {
    InnermostOfKind(p, s, TranslationUnit)
  }

  /** Module declarations are roots of the scope forest. */
  ghost predicate ModulesAreRoots(p: Program) {
    forall n :: n in p.nodeToScope ==> !HasKind(p, n, ModuleDecl)
  }

  /** `n` is attached: its chain ends at a module. */
  ghost predicate Attached(p: Program, n: NodeId)
    requires Valid(p)
  {
    HasKind(p, Last(ScopesFrom(p, n)), ModuleDecl)
  }

  /**
   * For attached scopes of a forest whose roots are modules, the innermost
   * common scope is missing exactly when the two scopes are in different modules.
   */
  lemma CommonScopeNoneIffDifferentModules(p: Program, a: NodeId, b: NodeId)
    requires Valid(p) && ModulesAreRoots(p) && Attached(p, a) && Attached(p, b)
    ensures ChainHasKind(p, a, ModuleDecl) && ChainHasKind(p, b, ModuleDecl)
    ensures CommonScope(p, a, b).None? <==> ModuleContaining(p, a) != ModuleContaining(p, b)
  {
    ModuleIsLast(p, a);
    ModuleIsLast(p, b);
    CommonScopeProperties(p, a, b);
  }

  /** The module containing an attached scope is the root of its chain. */
  lemma ModuleIsLast(p: Program, s: NodeId)
    requires Valid(p) && ModulesAreRoots(p) && Attached(p, s)
    ensures ChainHasKind(p, s, ModuleDecl)
    ensures ModuleContaining(p, s) == Last(ScopesFrom(p, s))
  {
    var c := ScopesFrom(p, s);
    assert Last(c) in c;
    var m := ModuleContaining(p, s);
  }
}
