/**
  The generic constraint-programming driver as the source runs it: a
  problem object whose domains are narrowed in place by the constraints
  and whose state is overwritten by the evaluator, copied by
  `FixVariable` for every branch, and a recursive `Solve` that loops over
  the pivot's values. Every method is proved to compute the pure function
  of `CpSpec` that specifies it.
*/
module CpSolver {
  import opened Common
  import opened CpSpec

  class Problem<T(==,!new)> {
    var variables: Domains<T>
    var state: State

    constructor (variables: Domains<T>, state: State)
      ensures this.variables == variables && this.state == state
    {
      this.variables := variables;
      this.state := state;
    }

    /**
      One evaluation of `any(constraint(problem) for constraint in
      constraints)`: apply the constraints in order until one reports a
      change.
    */
    method ApplyCycle(cs: seq<Constraint<T>>) returns (changes: bool)
      modifies this`variables
      ensures (variables, changes) == Cycle(old(variables), cs)
    {
      ghost var start := variables;
      changes := false;
      var k := 0;
      while k < |cs| && !changes
        invariant 0 <= k <= |cs|
        invariant changes ==> Cycle(start, cs) == (variables, true)
        invariant !changes ==> variables == start && Cycle(start, cs) == Cycle(start, cs[k..])
        decreases |cs| - k
      {
        assert cs[k..][0] == cs[k] && cs[k..][1..] == cs[k + 1..];
        var next := cs[k](variables);
        changes := next != variables;
        variables := next;
        k := k + 1;
      }
      if !changes {
        assert cs[k..] == [];
      }
    }

    /** `propagate_constraints`: repeat cycles until one reports no change. */
    method PropagateConstraints(cs: seq<Constraint<T>>)
      requires AllNarrowing(cs)
      modifies this`variables
      ensures variables == Propagate(old(variables), cs)
    {
      ghost var target := Propagate(variables, cs);
      var changes := true;
      while changes
        invariant Propagate(variables, cs) == target
        invariant !changes ==> variables == target
        decreases Size(variables), changes
      {
        ghost var before := variables;
        changes := ApplyCycle(cs);
        CycleShrinks(before, cs);
      }
    }

    /**
      `get_undecided_variable`: the first variable, in enumeration order,
      whose domain holds more than one value; `None` when every variable is
      decided.
    */
    method GetUndecidedVariable() returns (pivot: Option<nat>)
      ensures pivot == FirstUndecided(variables)
      ensures pivot.Some? ==> pivot.value < |variables| && Undecided(variables[pivot.value]) &&
                              forall j :: 0 <= j < pivot.value ==> !Undecided(variables[j])
      ensures pivot.None? ==> forall j :: 0 <= j < |variables| ==> !Undecided(variables[j])
    {
      FirstUndecidedSpec(variables);
      var i := 0;
      while i < |variables|
        invariant 0 <= i <= |variables|
        invariant FirstUndecided(variables) == FirstUndecidedFrom(variables, i)
      {
        if |variables[i]| > 1 {
          return Some(i);
        }
        i := i + 1;
      }
      return None;
    }

    /**
      `fix_variable`: a new problem, equal to this one except that the
      domain of `pivot` is the single value `value`; this problem is left
      unchanged.
    */
    method FixVariable(pivot: nat, value: T) returns (branch: Problem<T>)
      requires pivot < |variables|
      ensures fresh(branch)
      ensures branch.variables == Fix(variables, pivot, value) && branch.state == state
      ensures branch.variables[pivot] == [value]
      ensures forall i :: 0 <= i < |variables| && i != pivot ==> branch.variables[i] == variables[i]
    {
      branch := new Problem(variables[pivot := [value]], state);
    }
  }

  /** The values `solve` returns: the final domains and state of the returned problem, or the error. */
  ghost function Observe<T(!new)>(r: Result<Problem<T>>): Result<Outcome<T>>
    reads if r.Ok? then {r.value} else {}
  {
    match r
    case Ok(p) => Ok(Outcome(p.variables, p.state))
    case Failure(e) => Failure(e)
  }

  /**
    `solve`: propagate, evaluate, and return the problem itself when it is
    solved or infeasible; otherwise branch on the first undecided variable.
    The result is what `SolveSpec` describes, so it is solved or infeasible
    (`SolveTerminal`) and only narrows the input domains (`SolveShrinks`).
    The argument itself is left propagated and evaluated: branches work on
    copies of it.
  */
  method Solve<T(==,!new)>(problem: Problem<T>, cs: seq<Constraint<T>>, eval: Evaluator<T>)
    returns (res: Result<Problem<T>>)
    requires AllNarrowing(cs)
    modifies problem
    ensures Observe(res) == SolveSpec(old(problem.variables), old(problem.state), cs, eval)
    ensures res.Ok? ==> Terminal(res.value.state)
    ensures problem.variables == Propagate(old(problem.variables), cs)
    ensures problem.state == eval(problem.variables, old(problem.state))
    decreases Size(problem.variables), 1
  {
    ghost var d0 := problem.variables;
    SolveTerminal(d0, problem.state, cs, eval);
    problem.PropagateConstraints(cs);
    problem.state := eval(problem.variables, problem.state);
    PropagateFixpoint(d0, cs);
    if problem.state == Solved || problem.state == Infeasible {
      return Ok(problem);
    }
    var pivot := problem.GetUndecidedVariable();
    if pivot.None? {
      return Failure(NoUndecidedVariable);
    }
    res := SolveBranches(problem, pivot.value, cs, eval);
  }

  /**
    The loop of `solve` over the pivot's values, in domain order: solve the
    problem with the pivot fixed to each value and return the first result
    that is solved; a raised error ends the loop; after the last value its
    result is returned, solved or not.
  */
  method SolveBranches<T(==,!new)>(problem: Problem<T>, pivot: nat, cs: seq<Constraint<T>>, eval: Evaluator<T>)
    returns (res: Result<Problem<T>>)
    requires AllNarrowing(cs) && pivot < |problem.variables| && Undecided(problem.variables[pivot])
    ensures Observe(res) == Branches(problem.variables, problem.state, pivot, 0, cs, eval)
    decreases Size(problem.variables), 0
  {
    var domain := problem.variables[pivot];
    var k := 0;
    while true
      invariant 0 <= k < |domain|
      invariant Branches(problem.variables, problem.state, pivot, 0, cs, eval) ==
                Branches(problem.variables, problem.state, pivot, k, cs, eval)
      decreases |domain| - k
    {
      var branch := problem.FixVariable(pivot, domain[k]);
      FixShrinks(problem.variables, pivot, domain[k]);
      res := Solve(branch, cs, eval);
      if res.Failure? || res.value.state == Solved || k == |domain| - 1 {
        return;
      }
      k := k + 1;
    }
  }
}
