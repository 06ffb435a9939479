/**
  The generic constraint-programming driver as pure functions. A problem's
  variables are the positions `0 .. |d| - 1` of a sequence of domains, in
  the order the driver enumerates them; a domain is the sequence of values
  still possible for its variable. A constraint is a function from domains
  to domains that may only remove values (`Narrowing`), and it reports a
  change exactly when its result differs from its input. The evaluator is
  a function of the domains and the current state.
*/
module CpSpec {
  import opened Common

  type Domains<T> = seq<seq<T>>

  type Constraint<!T> = Domains<T> -> Domains<T>

  type Evaluator<!T> = (Domains<T>, State) -> State

  /** The exception `solve` raises when no variable is undecided while the state is still unsolved. */
  datatype SolveError = NoUndecidedVariable

  datatype Result<X> = Ok(value: X) | Failure(error: SolveError)

  /** What `solve` returns, seen as values: the final domains and state. */
  datatype Outcome<T> = Outcome(variables: Domains<T>, state: State)

  // ---------------------------------------------------------- narrowing

  /** `a` is `b` with some elements removed, the rest in their order. */
  predicate Subseq<T(==)>(a: seq<T>, b: seq<T>)
    decreases |b|
  {
    if a == [] then true
    else if b == [] then false
    else if a[0] == b[0] then Subseq(a[1..], b[1..])
    else Subseq(a, b[1..])
  }

  lemma {:induction false} SubseqRefl<T>(a: seq<T>)
    ensures Subseq(a, a)
    decreases |a|
  {
    if a != [] {
      SubseqRefl(a[1..]);
    }
  }

  /** Removing elements never lengthens a sequence; removing none leaves it as it was. */
  lemma {:induction false} SubseqLength<T>(a: seq<T>, b: seq<T>)
    requires Subseq(a, b)
    ensures |a| <= |b|
    ensures |a| == |b| ==> a == b
    decreases |b|
  {
    if a != [] {
      if a[0] == b[0] {
        SubseqLength(a[1..], b[1..]);
        if |a| == |b| {
          assert a == [a[0]] + a[1..] && b == [b[0]] + b[1..];
        }
      } else {
        SubseqLength(a, b[1..]);
      }
    }
  }

  lemma {:induction false} SubseqTrans<T>(a: seq<T>, b: seq<T>, c: seq<T>)
    requires Subseq(a, b) && Subseq(b, c)
    ensures Subseq(a, c)
    decreases |c|
  {
    if a != [] && c != [] {
      if b[0] == c[0] {
        if a[0] == b[0] {
          SubseqTrans(a[1..], b[1..], c[1..]);
        } else {
          SubseqTrans(a, b[1..], c[1..]);
        }
      } else {
        SubseqTrans(a, b, c[1..]);
        SubseqCons(a, c);
      }
    }
  }

  /** Dropping the first element of a subsequence keeps it a subsequence. */
  lemma {:induction false} SubseqDropHead<T>(a: seq<T>, b: seq<T>)
    requires a != [] && Subseq(a, b)
    ensures Subseq(a[1..], b)
    decreases |b|, 1
  {
    if a[0] == b[0] {
      SubseqCons(a[1..], b);
    } else {
      SubseqDropHead(a, b[1..]);
      SubseqCons(a[1..], b);
    }
  }

  /** A subsequence of the tail is a subsequence of the whole. */
  lemma {:induction false} SubseqCons<T>(a: seq<T>, b: seq<T>)
    requires b != [] && Subseq(a, b[1..])
    ensures Subseq(a, b)
    decreases |b|, 0
  {
    if a != [] && a[0] == b[0] {
      SubseqDropHead(a, b[1..]);
    }
  }

  /** A value of a domain, alone, is a narrowing of that domain. */
  lemma {:induction false} SingletonSubseq<T>(x: T, b: seq<T>)
    requires x in b
    ensures Subseq([x], b)
    decreases |b|
  {
    if b[0] != x {
      SingletonSubseq(x, b[1..]);
    }
  }

  /** Every domain of `e` is its domain in `d` with some values removed. */
  ghost predicate Shrinks<T>(d: Domains<T>, e: Domains<T>) {
    |e| == |d| && forall i :: 0 <= i < |d| ==> Subseq(e[i], d[i])
  }

  lemma ShrinksRefl<T>(d: Domains<T>)
    ensures Shrinks(d, d)
  {
    forall i | 0 <= i < |d|
      ensures Subseq(d[i], d[i])
    {
      SubseqRefl(d[i]);
    }
  }

  lemma ShrinksTrans<T>(d: Domains<T>, e: Domains<T>, f: Domains<T>)
    requires Shrinks(d, e) && Shrinks(e, f)
    ensures Shrinks(d, f)
  {
    forall i | 0 <= i < |d|
      ensures Subseq(f[i], d[i])
    {
      SubseqTrans(f[i], e[i], d[i]);
    }
  }

  /** A constraint that only ever removes values: the contract of a constraint of `solve`. */
  ghost predicate Narrowing<T(!new)>(c: Constraint<T>) {
    forall d: Domains<T> :: Shrinks(d, c(d))
  }

  ghost predicate AllNarrowing<T(!new)>(cs: seq<Constraint<T>>) {
    forall k :: 0 <= k < |cs| ==> Narrowing(cs[k])
  }

  /** The total number of values in all domains: the measure that makes the driver terminate. */
  function Size<T>(d: Domains<T>): nat
    decreases |d|
  {
    if d == [] then 0 else |d[0]| + Size(d[1..])
  }

  /** Narrowing never increases the size, and any change decreases it strictly. */
  lemma {:induction false} ShrinksSize<T>(d: Domains<T>, e: Domains<T>)
    requires Shrinks(d, e)
    ensures Size(e) <= Size(d)
    ensures e != d ==> Size(e) < Size(d)
    decreases |d|
  {
    if d != [] {
      SubseqLength(e[0], d[0]);
      assert Shrinks(d[1..], e[1..]) by {
        forall i | 0 <= i < |d| - 1
          ensures Subseq(e[1..][i], d[1..][i])
        {
          assert e[1..][i] == e[i + 1] && d[1..][i] == d[i + 1];
        }
      }
      ShrinksSize(d[1..], e[1..]);
      if e != d && e[0] == d[0] {
        assert e == [e[0]] + e[1..] && d == [d[0]] + d[1..];
      }
    }
  }

  /** Replacing one domain changes the size by the difference of the two lengths. */
  lemma {:induction false} SizeUpdate<T>(d: Domains<T>, p: nat, dom: seq<T>)
    requires p < |d|
    ensures Size(d[p := dom]) == Size(d) - |d[p]| + |dom|
    decreases |d|
  {
    if p > 0 {
      assert d[p := dom][1..] == d[1..][p - 1 := dom];
      SizeUpdate(d[1..], p - 1, dom);
    }
  }

  // -------------------------------------------------------- propagation

  /**
    One pass of `any(constraint(problem) for constraint in constraints)`:
    the constraints in order, stopping after the first that changes the
    domains. Returns the new domains and whether one changed them.
  */
  function Cycle<T(==)>(d: Domains<T>, cs: seq<Constraint<T>>): (Domains<T>, bool)
    decreases |cs|
  {
    if cs == [] then (d, false)
    else
      var e := cs[0](d);
      if e != d then (e, true) else Cycle(d, cs[1..])
  }

  /** A cycle reports no change exactly when every constraint was applied and changed nothing. */
  lemma {:induction false} CycleQuiet<T>(d: Domains<T>, cs: seq<Constraint<T>>)
    ensures !Cycle(d, cs).1 <==> forall k :: 0 <= k < |cs| ==> cs[k](d) == d
    ensures !Cycle(d, cs).1 ==> Cycle(d, cs).0 == d
    decreases |cs|
  {
    if cs != [] {
      CycleQuiet(d, cs[1..]);
      assert forall k :: 1 <= k < |cs| ==> cs[k] == cs[1..][k - 1];
    }
  }

  /**
    A cycle that reports a change stops at the first constraint that makes
    one: every constraint before it left the domains alone, and the later
    ones are not applied.
  */
  lemma {:induction false} CycleShortCircuits<T>(d: Domains<T>, cs: seq<Constraint<T>>)
    requires Cycle(d, cs).1
    ensures exists k :: 0 <= k < |cs| && cs[k](d) != d && Cycle(d, cs).0 == cs[k](d) &&
                        forall j :: 0 <= j < k ==> cs[j](d) == d
    decreases |cs|
  {
    if cs[0](d) == d {
      CycleShortCircuits(d, cs[1..]);
      var k :| 0 <= k < |cs[1..]| && cs[1..][k](d) != d && Cycle(d, cs[1..]).0 == cs[1..][k](d) &&
               forall j :: 0 <= j < k ==> cs[1..][j](d) == d;
      assert forall j :: 1 <= j < k + 1 ==> cs[j] == cs[1..][j - 1];
      assert cs[k + 1] == cs[1..][k];
    } else {
      assert cs[0](d) != d && Cycle(d, cs).0 == cs[0](d);
    }
  }

  /** With narrowing constraints a cycle narrows, and strictly shrinks the size when it reports a change. */
  lemma {:induction false} CycleShrinks<T(!new)>(d: Domains<T>, cs: seq<Constraint<T>>)
    requires AllNarrowing(cs)
    ensures Shrinks(d, Cycle(d, cs).0)
    ensures Cycle(d, cs).1 <==> Cycle(d, cs).0 != d
    ensures Cycle(d, cs).1 ==> Size(Cycle(d, cs).0) < Size(d)
    decreases |cs|
  {
    if cs == [] {
      ShrinksRefl(d);
    } else if cs[0](d) != d {
      assert Narrowing(cs[0]);
      ShrinksSize(d, cs[0](d));
    } else {
      assert AllNarrowing(cs[1..]) by {
        forall k | 0 <= k < |cs| - 1
          ensures Narrowing(cs[1..][k])
        {
          assert cs[1..][k] == cs[k + 1];
        }
      }
      CycleShrinks(d, cs[1..]);
    }
  }

  /** `propagate_constraints`: cycles until one reports no change. */
  ghost function Propagate<T(!new)>(d: Domains<T>, cs: seq<Constraint<T>>): Domains<T>
    requires AllNarrowing(cs)
    decreases Size(d)
  {
    CycleShrinks(d, cs);
    var (e, changes) := Cycle(d, cs);
    if changes then Propagate(e, cs) else d
  }

  /**
    `propagate_constraints` returns only after a cycle in which every
    constraint was applied and changed nothing, and its result only narrows
    the input domains.
  */
  lemma {:induction false} PropagateFixpoint<T(!new)>(d: Domains<T>, cs: seq<Constraint<T>>)
    requires AllNarrowing(cs)
    ensures var r := Propagate(d, cs); forall k :: 0 <= k < |cs| ==> cs[k](r) == r
    ensures Shrinks(d, Propagate(d, cs)) && Size(Propagate(d, cs)) <= Size(d)
    decreases Size(d)
  {
    CycleShrinks(d, cs);
    var (e, changes) := Cycle(d, cs);
    if changes {
      PropagateFixpoint(e, cs);
      ShrinksTrans(d, e, Propagate(e, cs));
    } else {
      CycleQuiet(d, cs);
      ShrinksRefl(d);
    }
    ShrinksSize(d, Propagate(d, cs));
  }

  // ----------------------------------------------------------- branching

  /** A variable is undecided while its domain holds more than one value. */
  predicate Undecided<T>(dom: seq<T>) {
    |dom| > 1
  }

  function FirstUndecidedFrom<T>(d: Domains<T>, i: nat): Option<nat>
    requires i <= |d|
    decreases |d| - i
  {
    if i == |d| then None
    else if Undecided(d[i]) then Some(i)
    else FirstUndecidedFrom(d, i + 1)
  }

  /** `get_undecided_variable`: the first undecided variable in enumeration order, if any. */
  function FirstUndecided<T>(d: Domains<T>): Option<nat> {
    FirstUndecidedFrom(d, 0)
  }

  /**
    The first undecided variable is undecided and every variable before it
    is decided; there is none exactly when every variable is decided.
  */
  lemma {:induction false} FirstUndecidedFromSpec<T>(d: Domains<T>, i: nat)
    requires i <= |d|
    ensures match FirstUndecidedFrom(d, i)
            case Some(p) => i <= p < |d| && Undecided(d[p]) && forall j :: i <= j < p ==> !Undecided(d[j])
            case None => forall j :: i <= j < |d| ==> !Undecided(d[j])
    decreases |d| - i
  {
    if i < |d| && !Undecided(d[i]) {
      FirstUndecidedFromSpec(d, i + 1);
    }
  }

  lemma FirstUndecidedSpec<T>(d: Domains<T>)
    ensures match FirstUndecided(d)
            case Some(p) => p < |d| && Undecided(d[p]) && forall j :: 0 <= j < p ==> !Undecided(d[j])
            case None => forall j :: 0 <= j < |d| ==> !Undecided(d[j])
  {
    FirstUndecidedFromSpec(d, 0);
  }

  /** `fix_variable`'s domains: `pivot` reduced to the single value `value`. */
  function Fix<T>(d: Domains<T>, pivot: nat, value: T): Domains<T>
    requires pivot < |d|
  {
    d[pivot := [value]]
  }

  /** Fixing an undecided variable strictly shrinks the size; fixing it to one of its values narrows. */
  lemma FixShrinks<T>(d: Domains<T>, pivot: nat, value: T)
    requires pivot < |d| && Undecided(d[pivot])
    ensures Size(Fix(d, pivot, value)) < Size(d)
    ensures value in d[pivot] ==> Shrinks(d, Fix(d, pivot, value))
  {
    SizeUpdate(d, pivot, [value]);
    if value in d[pivot] {
      var e := Fix(d, pivot, value);
      forall i | 0 <= i < |d|
        ensures Subseq(e[i], d[i])
      {
        if i == pivot {
          SingletonSubseq(value, d[i]);
        } else {
          SubseqRefl(d[i]);
        }
      }
    }
  }

  // -------------------------------------------------------------- search

  /**
    `solve`: propagate, evaluate, stop if the state is solved or
    infeasible; otherwise branch on the first undecided variable. With no
    undecided variable left the source looks up the domain of `None` and
    raises, which is `Failure(NoUndecidedVariable)` here.
  */
  ghost function SolveSpec<T(!new)>(d: Domains<T>, st: State, cs: seq<Constraint<T>>, eval: Evaluator<T>): Result<Outcome<T>>
    requires AllNarrowing(cs)
    decreases Size(d), 1, 0
  {
    var d1 := Propagate(d, cs);
    PropagateFixpoint(d, cs);
    var st1 := eval(d1, st);
    if Terminal(st1) then Ok(Outcome(d1, st1))
    else match FirstUndecided(d1)
      case None => Failure(NoUndecidedVariable)
      case Some(p) =>
        FirstUndecidedSpec(d1);
        Branches(d1, st1, p, 0, cs, eval)
  }

  /** The branch of `solve` for the `k`-th value of the pivot's domain. */
  ghost function Branch<T(!new)>(d: Domains<T>, st: State, p: nat, k: nat,
                                 cs: seq<Constraint<T>>, eval: Evaluator<T>): Result<Outcome<T>>
    requires AllNarrowing(cs) && p < |d| && Undecided(d[p]) && k < |d[p]|
    decreases Size(d), 0, |d[p]| - k, 0
  {
    FixShrinks(d, p, d[p][k]);
    SolveSpec(Fix(d, p, d[p][k]), st, cs, eval)
  }

  /**
    The loop of `solve` over the pivot's values from the `k`-th on, in
    order: the first branch that is solved is the answer; when none is, the
    last branch's result is; a raised error ends the loop.
  */
  ghost function Branches<T(!new)>(d: Domains<T>, st: State, p: nat, k: nat,
                                   cs: seq<Constraint<T>>, eval: Evaluator<T>): Result<Outcome<T>>
    requires AllNarrowing(cs) && p < |d| && Undecided(d[p]) && k < |d[p]|
    decreases Size(d), 0, |d[p]| - k, 1
  {
    var r := Branch(d, st, p, k, cs, eval);
    if r.Failure? || r.value.state == Solved || k == |d[p]| - 1 then r
    else Branches(d, st, p, k + 1, cs, eval)
  }

  // ---------------------------------------------------------- properties

  /** When `solve` returns, the state is solved or infeasible. */
  lemma {:induction false} SolveTerminal<T(!new)>(d: Domains<T>, st: State, cs: seq<Constraint<T>>, eval: Evaluator<T>)
    requires AllNarrowing(cs)
    ensures SolveSpec(d, st, cs, eval).Ok? ==> Terminal(SolveSpec(d, st, cs, eval).value.state)
    decreases Size(d), 1, 0
  {
    var d1 := Propagate(d, cs);
    PropagateFixpoint(d, cs);
    var st1 := eval(d1, st);
    if !Terminal(st1) && FirstUndecided(d1).Some? {
      FirstUndecidedSpec(d1);
      BranchesTerminal(d1, st1, FirstUndecided(d1).value, 0, cs, eval);
    }
  }

  lemma {:induction false} BranchesTerminal<T(!new)>(d: Domains<T>, st: State, p: nat, k: nat,
                                                      cs: seq<Constraint<T>>, eval: Evaluator<T>)
    requires AllNarrowing(cs) && p < |d| && Undecided(d[p]) && k < |d[p]|
    ensures Branches(d, st, p, k, cs, eval).Ok? ==> Terminal(Branches(d, st, p, k, cs, eval).value.state)
    decreases Size(d), 0, |d[p]| - k
  {
    FixShrinks(d, p, d[p][k]);
    SolveTerminal(Fix(d, p, d[p][k]), st, cs, eval);
    if k < |d[p]| - 1 {
      BranchesTerminal(d, st, p, k + 1, cs, eval);
    }
  }

  /** The result of `solve` only narrows the input domains: no value a variable had ruled out comes back. */
  lemma {:induction false} SolveShrinks<T(!new)>(d: Domains<T>, st: State, cs: seq<Constraint<T>>, eval: Evaluator<T>)
    requires AllNarrowing(cs)
    ensures SolveSpec(d, st, cs, eval).Ok? ==> Shrinks(d, SolveSpec(d, st, cs, eval).value.variables)
    decreases Size(d), 1, 0
  {
    var d1 := Propagate(d, cs);
    PropagateFixpoint(d, cs);
    var st1 := eval(d1, st);
    if !Terminal(st1) && FirstUndecided(d1).Some? {
      FirstUndecidedSpec(d1);
      BranchesShrink(d1, st1, FirstUndecided(d1).value, 0, cs, eval);
      var r := SolveSpec(d, st, cs, eval);
      if r.Ok? {
        ShrinksTrans(d, d1, r.value.variables);
      }
    }
  }

  lemma {:induction false} BranchesShrink<T(!new)>(d: Domains<T>, st: State, p: nat, k: nat,
                                                    cs: seq<Constraint<T>>, eval: Evaluator<T>)
    requires AllNarrowing(cs) && p < |d| && Undecided(d[p]) && k < |d[p]|
    ensures Branches(d, st, p, k, cs, eval).Ok? ==> Shrinks(d, Branches(d, st, p, k, cs, eval).value.variables)
    decreases Size(d), 0, |d[p]| - k
  {
    var e := Fix(d, p, d[p][k]);
    FixShrinks(d, p, d[p][k]);
    SolveShrinks(e, st, cs, eval);
    var r := SolveSpec(e, st, cs, eval);
    if r.Ok? {
      ShrinksTrans(d, e, r.value.variables);
    }
    if k < |d[p]| - 1 {
      BranchesShrink(d, st, p, k + 1, cs, eval);
    }
  }

  /**
    When the evaluator finds the propagated problem solved or infeasible,
    `solve` returns it as it is, without branching.
  */
  lemma SolveStops<T(!new)>(d: Domains<T>, st: State, cs: seq<Constraint<T>>, eval: Evaluator<T>)
    requires AllNarrowing(cs) && Terminal(eval(Propagate(d, cs), st))
    ensures SolveSpec(d, st, cs, eval) == Ok(Outcome(Propagate(d, cs), eval(Propagate(d, cs), st)))
  {}

  /**
    The branches are tried in domain order: when the branches of the values
    `k .. m - 1` all return unsolved and without error, and the branch of
    value `m` is solved or raises, that branch's result is the answer.
  */
  lemma {:induction false} BranchesFirstSolved<T(!new)>(d: Domains<T>, st: State, p: nat, k: nat, m: nat,
                                                         cs: seq<Constraint<T>>, eval: Evaluator<T>)
    requires AllNarrowing(cs) && p < |d| && Undecided(d[p]) && k <= m < |d[p]|
    requires forall j :: k <= j < m ==>
               Branch(d, st, p, j, cs, eval).Ok? && Branch(d, st, p, j, cs, eval).value.state != Solved
    requires Branch(d, st, p, m, cs, eval).Failure? || Branch(d, st, p, m, cs, eval).value.state == Solved
    ensures Branches(d, st, p, k, cs, eval) == Branch(d, st, p, m, cs, eval)
    decreases m - k
  {
    if k < m {
      BranchesFirstSolved(d, st, p, k + 1, m, cs, eval);
    }
  }

  /**
    When no branch is solved, `solve` returns the last value's branch, and
    every branch before it returned without error and unsolved.
  */
  lemma {:induction false} BranchesNoneSolved<T(!new)>(d: Domains<T>, st: State, p: nat, k: nat,
                                                        cs: seq<Constraint<T>>, eval: Evaluator<T>)
    requires AllNarrowing(cs) && p < |d| && Undecided(d[p]) && k < |d[p]|
    requires forall j :: k <= j < |d[p]| ==>
               Branch(d, st, p, j, cs, eval).Ok? && Branch(d, st, p, j, cs, eval).value.state != Solved
    ensures Branches(d, st, p, k, cs, eval) == Branch(d, st, p, |d[p]| - 1, cs, eval)
    decreases |d[p]| - k
  {
    if k < |d[p]| - 1 {
      BranchesNoneSolved(d, st, p, k + 1, cs, eval);
    }
  }
}
