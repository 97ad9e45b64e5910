/**
 * The type-error reporter: it turns the type errors left by constraint
 * solving into diagnostics, one per error, in the order of the errors'
 * source locations.
 *
 * The solver's substitution (`reify`), the rendering of types and errors as
 * text, the resolution of a locator to a source range, and the ordering of
 * errors are not part of this model: they are supplied as functions.
 */
module TypeErrorReporting {

  import opened Wrappers
  import opened SourceRanges

  /** A type term of the solver: a type variable, or a named type applied to arguments. */
  datatype TypeTerm = Variable(id: nat) | Named(name: string, arguments: seq<TypeTerm>)

  /** What a constraint requires of its two sides. */
  datatype ConstraintKind = Equality | Subtyping | Conformance

  /** Where a constraint comes from: a syntax node and a path inside it. */
  datatype Locator = Locator(node: nat, path: seq<nat>)

  /** A relation between two type terms, with the place in the source it stems from. */
  datatype Constraint = Constraint(
    kind: ConstraintKind,
    lhs: TypeTerm,
    rhs: TypeTerm,
    locator: Option<Locator>)

  /**
   * A type error: two types that conflict under some constraint, or any other
   * failure, which still names the constraint it stems from.
   */
  datatype TypeError =
    | ConflictingTypes(constraint: Constraint)
    | OtherError(reason: string, constraint: Constraint)

  /** A message to the user, anchored at a source range when one is known. */
  datatype Diagnostic = Diagnostic(message: string, anchor: Option<SourceRange>)

  /** The result of solving, reduced to the substitution it applies to type terms. */
  datatype Solution = Solution(reify: TypeTerm -> TypeTerm)

  /** How types and errors are written out, and how locators are resolved to ranges. */
  datatype Rendering = Rendering(
    typeText: TypeTerm -> string,
    errorText: TypeError -> string,
    resolve: Locator -> SourceRange)

  /** The source range a constraint's locator resolves to, if it has one. */
  function AnchorOf(r: Rendering, c: Constraint): (a: Option<SourceRange>)
    ensures a.None? <==> c.locator.None?
    ensures c.locator.Some? ==> a.value == r.resolve(c.locator.value)
  {
    match c.locator
    case None => None
    case Some(l) => Some(r.resolve(l))
  }

  /** The wording of a failed subtyping constraint, with the source's stray "of to" kept. */
  function SubtypeMessage(lhs: string, rhs: string): string {
    "type '" + lhs + "' is not a subtype of to type '" + rhs + "'"
  }

  /** The wording of any other failed constraint between two types. */
  function EqualMessage(lhs: string, rhs: string): string {
    "type '" + lhs + "' is not equal to type '" + rhs + "'"
  }

  /**
   * `report(_ error:)`'s diagnostic: a conflict is worded after its
   * constraint's kind, over the reified sides; any other error is described
   * by its own text. Either way it is anchored at the resolved locator.
   */
  function Diagnose(sol: Solution, r: Rendering, e: TypeError): (d: Diagnostic)
    ensures d.anchor == AnchorOf(r, e.constraint)
    ensures e.OtherError? ==> d.message == r.errorText(e)
    ensures e.ConflictingTypes? ==>
      var lhs := r.typeText(sol.reify(e.constraint.lhs));
      var rhs := r.typeText(sol.reify(e.constraint.rhs));
      d.message == if e.constraint.kind == Subtyping then SubtypeMessage(lhs, rhs) else EqualMessage(lhs, rhs)
  {
    match e
    case ConflictingTypes(c) =>
      var lhs := r.typeText(sol.reify(c.lhs));
      var rhs := r.typeText(sol.reify(c.rhs));
      var message := if c.kind == Subtyping then SubtypeMessage(lhs, rhs) else EqualMessage(lhs, rhs);
      Diagnostic(message, AnchorOf(r, c))
    case OtherError(_, c) =>
      Diagnostic(r.errorText(e), AnchorOf(r, c))
  }

  /**
   * For the same two types the two wordings never coincide, so a subtyping
   * failure can be told from an equality failure by its message alone.
   */
  lemma WordingsDiffer(lhs: string, rhs: string)
    ensures SubtypeMessage(lhs, rhs) != EqualMessage(lhs, rhs)
  {
    assert |SubtypeMessage(lhs, rhs)| == 38 + |lhs| + |rhs|;
    assert |EqualMessage(lhs, rhs)| == 31 + |lhs| + |rhs|;
  }

  // ---------------------------------------------------------------------------
  // Ordering the errors

  /**
   * `less` orders errors strictly and weakly, as the sort of the source
   * requires of its comparison: no two errors precede each other, and "not
   * before" is transitive.
   */
  ghost predicate StrictWeakOrder(less: (TypeError, TypeError) -> bool) {
    && (forall a, b :: less(a, b) ==> !less(b, a))
    && (forall a, b, c :: less(a, c) ==> less(a, b) || less(b, c))
  }

  /** No error of `s` comes before an error to its left. */
  ghost predicate SortedBy(s: seq<TypeError>, less: (TypeError, TypeError) -> bool) {
    forall i, j :: 0 <= i < j < |s| ==> !less(s[j], s[i])
  }

  /** `x` inserted into `s` after every element that comes before it. */
  function Insert(x: TypeError, s: seq<TypeError>, less: (TypeError, TypeError) -> bool): (t: seq<TypeError>)
    ensures multiset(t) == multiset(s) + multiset{x}
  {
    if s == [] then [x]
    else if less(s[0], x) then
      assert s == [s[0]] + s[1..];
      [s[0]] + Insert(x, s[1..], less)
    else [x] + s
  }

  /** `errors.sorted(by: <)`: the errors in order, by insertion sort. */
  function SortErrors(errors: seq<TypeError>, less: (TypeError, TypeError) -> bool): (s: seq<TypeError>)
    ensures multiset(s) == multiset(errors)
  {
    if errors == [] then []
    else
      assert errors == [errors[0]] + errors[1..];
      Insert(errors[0], SortErrors(errors[1..], less), less)
  }

  /** Inserting into a sorted sequence keeps it sorted. */
  lemma {:induction false} InsertSorted(x: TypeError, s: seq<TypeError>, less: (TypeError, TypeError) -> bool)
    requires StrictWeakOrder(less) && SortedBy(s, less)
    ensures SortedBy(Insert(x, s, less), less)
  {
    if s != [] {
      var t := Insert(x, s, less);
      if less(s[0], x) {
        var u := Insert(x, s[1..], less);
        InsertSorted(x, s[1..], less);
        assert t == [s[0]] + u;
        forall j | 0 < j < |t| ensures !less(t[j], t[0]) {
          assert t[j] in multiset(u);
          assert multiset(u) == multiset(s[1..]) + multiset{x};
          if t[j] != x {
            assert t[j] in multiset(s[1..]);
            var k :| 0 <= k < |s[1..]| && s[1..][k] == t[j];
            assert !less(s[k + 1], s[0]);
          }
        }
      } else {
        assert t == [x] + s;
        forall j | 0 < j < |t| ensures !less(t[j], x) {
          if j > 1 {
            assert !less(s[j - 1], s[0]);
          }
        }
      }
    }
  }

  /** Under a strict weak order, the sorted errors are in order and a permutation of the input. */
  lemma {:induction false} SortErrorsSorted(errors: seq<TypeError>, less: (TypeError, TypeError) -> bool)
    requires StrictWeakOrder(less)
    ensures SortedBy(SortErrors(errors, less), less)
    ensures multiset(SortErrors(errors, less)) == multiset(errors)
  {
    if errors != [] {
      SortErrorsSorted(errors[1..], less);
      InsertSorted(errors[0], SortErrors(errors[1..], less), less);
    }
  }

  /** An input already in order is left as it is. */
  lemma {:induction false} SortErrorsOfSorted(errors: seq<TypeError>, less: (TypeError, TypeError) -> bool)
    requires StrictWeakOrder(less) && SortedBy(errors, less)
    ensures SortErrors(errors, less) == errors
  {
    if errors != [] {
      var rest := errors[1..];
      assert SortedBy(rest, less) by {
        forall i, j | 0 <= i < j < |rest| ensures !less(rest[j], rest[i]) {
          assert rest[j] == errors[j + 1] && rest[i] == errors[i + 1];
        }
      }
      SortErrorsOfSorted(rest, less);
      if rest != [] {
        assert !less(errors[1], errors[0]);
      }
    }
  }

  // ---------------------------------------------------------------------------
  // Emitting the diagnostics

  /** The diagnostics of `errors`, one per error, in the same order. */
  function Diagnostics(sol: Solution, r: Rendering, errors: seq<TypeError>): (ds: seq<Diagnostic>)
    ensures |ds| == |errors|
    ensures forall i :: 0 <= i < |errors| ==> ds[i] == Diagnose(sol, r, errors[i])
  {
    seq(|errors|, i requires 0 <= i < |errors| => Diagnose(sol, r, errors[i]))
  }

  /** The diagnostic sink of the compilation context, which only ever grows. */
  class Context {
    var diagnostics: seq<Diagnostic>

    constructor ()
      ensures diagnostics == []
    {
      diagnostics := [];
    }

    /** `report(_:)`: records one diagnostic after those already recorded. */
    method Report(d: Diagnostic)
      modifies this
      ensures diagnostics == old(diagnostics) + [d]
    {
      diagnostics := diagnostics + [d];
    }
  }

  /** A reporter for the errors of one solution, writing into a context. */
  class TypeErrorReporter {
    const context: Context
    const solution: Solution
    const rendering: Rendering

    constructor (context: Context, solution: Solution, rendering: Rendering)
      ensures this.context == context && this.solution == solution && this.rendering == rendering
    {
      this.context := context;
      this.solution := solution;
      this.rendering := rendering;
    }

    /** `report(_ error:)`: records the diagnostic of one error. */
    method ReportError(e: TypeError)
      modifies context
      ensures context.diagnostics == old(context.diagnostics) + [Diagnose(solution, rendering, e)]
    {
      var d := Diagnose(solution, rendering, e);
      context.Report(d);
    }

    /**
     * `report(_ errors:)`: sorts the errors with `less` and records the
     * diagnostic of each, in that order, after those already recorded.
     */
    method ReportAll(errors: seq<TypeError>, less: (TypeError, TypeError) -> bool)
      modifies context
      ensures context.diagnostics == old(context.diagnostics) + Diagnostics(solution, rendering, SortErrors(errors, less))
    {
      var sorted := SortErrors(errors, less);
      for k := 0 to |sorted|
        invariant context.diagnostics == old(context.diagnostics) + Diagnostics(solution, rendering, sorted[..k])
      {
        ReportError(sorted[k]);
        assert sorted[..k + 1] == sorted[..k] + [sorted[k]];
      }
      assert sorted[..|sorted|] == sorted;
    }
  }

  /**
   * The batch's diagnostics are one per error, and under a strict weak order
   * each is the diagnostic of an error that no earlier-emitted error follows.
   */
  lemma ReportedInOrder(sol: Solution, r: Rendering, errors: seq<TypeError>, less: (TypeError, TypeError) -> bool)
    requires StrictWeakOrder(less)
    ensures var s := SortErrors(errors, less);
      && |Diagnostics(sol, r, s)| == |errors|
      && multiset(s) == multiset(errors)
      && forall i, j :: 0 <= i < j < |s| ==> !less(s[j], s[i])
  {
    SortErrorsSorted(errors, less);
    var s := SortErrors(errors, less);
    assert |s| == |multiset(s)| == |multiset(errors)| == |errors|;
  }

  // ---------------------------------------------------------------------------
  // A worked case

  /** Errors ordered by where their constraint's locator resolves; errors without one come first. */
  function ByLocation(r: Rendering): (less: (TypeError, TypeError) -> bool)
    ensures forall a, b :: less(a, b) <==> Position(r, a) < Position(r, b)
  {
    (a, b) => Position(r, a) < Position(r, b)
  }

  /** The offset an error is anchored at, -1 when it has no locator. */
  function Position(r: Rendering, e: TypeError): (n: int)
    ensures n == -1 <==> e.constraint.locator.None?
  {
    match AnchorOf(r, e.constraint)
    case None => -1
    case Some(range) => range.start
  }

  /** Ordering by location is a strict weak order. */
  lemma ByLocationIsStrictWeak(r: Rendering)
    ensures StrictWeakOrder(ByLocation(r))
  {
  }

  /**
   * A subtyping failure located at offset 20 reported together with an
   * equality failure located at offset 10: the equality failure's message
   * comes first, worded "is not equal to", then the subtyping one.
   */
  lemma LocationOrderScenario(sol: Solution, r: Rendering, l1: Locator, l2: Locator, t0: TypeTerm)
    requires r.resolve(l1).start == 10 && r.resolve(l2).start == 20
    ensures
      var int_ := Named("Int", []);
      var bool_ := Named("Bool", []);
      var sub := ConflictingTypes(Constraint(Subtyping, t0, int_, Some(l2)));
      var eq := ConflictingTypes(Constraint(Equality, t0, bool_, Some(l1)));
      var ds := Diagnostics(sol, r, SortErrors([sub, eq], ByLocation(r)));
      && |ds| == 2
      && ds[0].anchor == Some(r.resolve(l1))
      && ds[0].message == EqualMessage(r.typeText(sol.reify(t0)), r.typeText(sol.reify(bool_)))
      && ds[1].anchor == Some(r.resolve(l2))
      && ds[1].message == SubtypeMessage(r.typeText(sol.reify(t0)), r.typeText(sol.reify(int_)))
  {
    var int_ := Named("Int", []);
    var bool_ := Named("Bool", []);
    var sub := ConflictingTypes(Constraint(Subtyping, t0, int_, Some(l2)));
    var eq := ConflictingTypes(Constraint(Equality, t0, bool_, Some(l1)));
    var less := ByLocation(r);
    assert less(eq, sub);
    assert SortErrors([eq], less) == [eq];
    assert [sub, eq][1..] == [eq];
    assert SortErrors([sub, eq], less) == Insert(sub, [eq], less) == [eq, sub];
  }
}
