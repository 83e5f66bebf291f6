/**
 * The backward-induction solver of src/algorithms.rs, as written: a recursive
 * depth-first sweep that keeps the best utility among the successors of each
 * node (strict `>`, so the earliest of equal utilities stays) and inserts an
 * entry into the strategy profile on every strict improvement.
 *
 * `recurse` never asks a state for its utility, so a state without actions
 * yields no utility and its parent panics. The lemmas at the end of this
 * module make that behaviour explicit.
 */
module Algorithms {

  import opened Wrappers
  import opened GameTheory

  /** How a call of `recurse` ends: it panics, or it returns its best utility. */
  datatype Status = Panicked | Returned(utility: Option<real>)

  /** The way a call (or a part of its loop) ends, with its `insert` calls in order. */
  datatype Eval<I, A> = Eval(status: Status, writes: seq<(I, A)>)

  /**
   * What one iteration of the loop learns about one action: the action, the
   * information set of the successor it leads to, and how the recursive call
   * on that successor ended.
   */
  datatype Report<I, A> = Report(action: A, successorSet: I, eval: Eval<I, A>)

  /** The recursive call for this action returned a utility. */
  predicate Yields<I, A>(r: Report<I, A>)
  {
    r.eval.status.Returned? && r.eval.status.utility.Some?
  }

  /** The utility the recursive call for this action returned. */
  function Value<I, A>(r: Report<I, A>): real
    requires Yields(r)
  {
    r.eval.status.utility.value
  }

  /** Every recursive call in `rs` returned a utility. */
  predicate AllYield<I, A>(rs: seq<Report<I, A>>)
  {
    forall i :: 0 <= i < |rs| ==> Yields(rs[i])
  }

  /**
   * One iteration of the `for` loop, after the recursive call: the match on
   * the successor's utility and the best utility so far. Once a call has
   * panicked nothing further happens.
   */
  function Step<I, A>(e: Eval<I, A>, r: Report<I, A>): (next: Eval<I, A>)
    ensures e.status.Panicked? ==> next == e
    ensures e.status.Returned? ==> e.writes + r.eval.writes <= next.writes
    ensures next.status.Returned? <==> e.status.Returned? && Yields(r)
    ensures next.status.Returned? ==> next.status.utility.Some? && Value(r) <= next.status.utility.value
    ensures next.status.Returned? && e.status.utility.Some? ==>
              e.status.utility.value <= next.status.utility.value
  {
    match e.status
    case Panicked => e
    case Returned(best) =>
      var w := e.writes + r.eval.writes;
      match (r.eval.status, best)
      case (Returned(Some(x)), Some(y)) =>
        if x > y then Eval(Returned(Some(x)), w + [(r.successorSet, r.action)])
        else Eval(e.status, w)
      case (Returned(Some(x)), None) => Eval(Returned(Some(x)), w)
      case _ => Eval(Panicked, w)
  }

  /** The loop run over the reports `rs` in order, from `best_utility = None`. */
  function Scan<I, A>(rs: seq<Report<I, A>>): (e: Eval<I, A>)
    ensures rs != [] && e.status.Returned? ==> e.status.utility.Some?
    decreases |rs|
  {
    if rs == [] then Eval(Returned(None), [])
    else Step(Scan(rs[..|rs| - 1]), rs[|rs| - 1])
  }

  /** How `recurse(s, profile)` ends and which `insert` calls it makes. */
  function Run<I, P(==), A>(s: GameState<I, P, A>): (e: Eval<I, A>)
    ensures s.edges == [] ==> e == Eval(Returned(None), [])
    ensures s.edges != [] ==> e.status != Returned(None)
    decreases s, 1
  {
    Scan(Reports(s))
  }

  /** One report per action of `s`, in the order `actions()` yields them. */
  function Reports<I, P(==), A>(s: GameState<I, P, A>): (rs: seq<Report<I, A>>)
    ensures |rs| == |s.edges|
    ensures forall k :: 0 <= k < |rs| ==>
              rs[k] == Report(s.edges[k].action, s.edges[k].successor.informationSet, Run(s.edges[k].successor))
    decreases s, 0
  {
    seq(|s.edges|, k requires 0 <= k < |s.edges| =>
      Report(s.edges[k].action, s.edges[k].successor.informationSet, Run(s.edges[k].successor)))
  }

  /**
   * `Algorithms::recurse`: visit the successors in order, recursing into each
   * one right after advancing to it, and keep the best utility.
   */
  method Recurse<I, P(==), A>(state: GameState<I, P, A>, profile: PureStrategyProfile<I, A>)
    returns (status: Status)
    modifies profile
    ensures status == Run(state).status
    ensures profile.entries == Replay(old(profile.entries), Run(state).writes)
    decreases state
  {
    var bestUtility: Option<real> := None;
    ghost var reports := Reports(state);
    ghost var writes: seq<(I, A)> := [];
    ghost var start := profile.entries;
    for k := 0 to |state.edges|
      invariant Scan(reports[..k]) == Eval(Returned(bestUtility), writes)
      invariant profile.entries == Replay(start, writes)
    {
      var action := state.edges[k].action;
      var successor := state.edges[k].successor;
      var utility := Recurse(successor, profile);
      ghost var next := Step(Eval(Returned(bestUtility), writes), reports[k]);
      ScanStep(reports, k);
      ReplayConcat(start, writes, Run(successor).writes);
      writes := writes + Run(successor).writes;
      match (utility, bestUtility) {
        case (Returned(Some(x)), Some(y)) =>
          if x > y {
            bestUtility := Some(x);
            profile.Insert(successor.informationSet, action);
            ReplayAppend(start, writes, (successor.informationSet, action));
            writes := writes + [(successor.informationSet, action)];
          }
        case (Returned(Some(x)), None) =>
          bestUtility := Some(x);
        case _ =>
          ScanAfterPanic(reports, k + 1);
          return Panicked;
      }
      assert next == Eval(Returned(bestUtility), writes);
    }
    assert reports[..|state.edges|] == reports;
    return Returned(bestUtility);
  }

  /**
   * `Algorithms::subgame_perfect_nash_equilibrium`: start from the default
   * (empty) profile, run `recurse` on the root and hand back what it wrote.
   * `None` stands for the panic.
   */
  method SubgamePerfectNashEquilibrium<I, P(==), A>(root: GameState<I, P, A>)
    returns (result: Option<PureStrategyProfile<I, A>>)
    ensures result.Some? <==> Run(root).status.Returned?
    ensures result.Some? ==> fresh(result.value) && result.value.entries == Replay(map[], Run(root).writes)
  {
    var profile := new PureStrategyProfile.Default();
    var status := Recurse(root, profile);
    if status.Panicked? {
      return None;
    }
    return Some(profile);
  }

  /** The loop over one more report is one more `Step`. */
  lemma ScanStep<I, A>(rs: seq<Report<I, A>>, k: nat)
    requires k < |rs|
    ensures Scan(rs[..k + 1]) == Step(Scan(rs[..k]), rs[k])
  {
    assert rs[..k + 1][..k] == rs[..k];
  }

  /** A panic ends the loop: the later reports change nothing. */
  lemma {:induction false} ScanAfterPanic<I, A>(rs: seq<Report<I, A>>, k: nat)
    requires k <= |rs| && Scan(rs[..k]).status == Panicked
    ensures Scan(rs) == Scan(rs[..k])
    decreases |rs|
  {
    if k < |rs| {
      var n := |rs| - 1;
      assert rs[..n][..k] == rs[..k];
      ScanAfterPanic(rs[..n], k);
    } else {
      assert rs[..k] == rs;
    }
  }

  /** The loop returns normally exactly when every recursive call returned a utility. */
  lemma {:induction false} ScanReturnsIffAllYield<I, A>(rs: seq<Report<I, A>>)
    ensures Scan(rs).status.Returned? <==> AllYield(rs)
    decreases |rs|
  {
    if rs != [] {
      var n := |rs| - 1;
      ScanReturnsIffAllYield(rs[..n]);
      assert forall i :: 0 <= i < n ==> rs[..n][i] == rs[i];
    }
  }

  /** The largest utility among the reports: a reference definition of the argmax value. */
  function BestValue<I, A>(rs: seq<Report<I, A>>): (v: real)
    requires rs != [] && AllYield(rs)
    ensures forall i :: 0 <= i < |rs| ==> Value(rs[i]) <= v
    ensures exists i :: 0 <= i < |rs| && Value(rs[i]) == v
    decreases |rs|
  {
    var n := |rs| - 1;
    if n == 0 then Value(rs[0])
    else
      var m := BestValue(rs[..n]);
      assert forall i :: 0 <= i < n ==> rs[..n][i] == rs[i];
      if Value(rs[n]) > m then Value(rs[n]) else m
  }

  /** The action at index `i` beats every earlier one strictly and is not the first. */
  predicate Improves<I, A>(rs: seq<Report<I, A>>, i: nat)
    requires AllYield(rs) && i < |rs|
  {
    0 < i && forall j :: 0 <= j < i ==> Value(rs[j]) < Value(rs[i])
  }

  /** The node's own `insert` for the action at index `i`, if any. */
  function OwnWrite<I, A>(rs: seq<Report<I, A>>, i: nat): seq<(I, A)>
    requires AllYield(rs) && i < |rs|
  {
    if Improves(rs, i) then [(rs[i].successorSet, rs[i].action)] else []
  }

  /**
   * Reference for the writes of a node whose successors all returned a
   * utility: action by action, the successor's own writes, then an entry for
   * that action exactly when it strictly improves on all earlier ones.
   */
  function ReferenceWrites<I, A>(rs: seq<Report<I, A>>): seq<(I, A)>
    requires AllYield(rs)
    decreases |rs|
  {
    if rs == [] then []
    else
      var n := |rs| - 1;
      assert AllYield(rs[..n]) by {
        assert forall i :: 0 <= i < n ==> rs[..n][i] == rs[i];
      }
      ReferenceWrites(rs[..n]) + rs[n].eval.writes + OwnWrite(rs, n)
  }

  /**
   * When every successor returns a utility, the node returns the largest of
   * them (none when there is no action) and writes exactly what the reference
   * says: the strict `>` keeps the earliest of equal utilities and the first
   * action never writes.
   */
  lemma {:induction false} ScanMatchesReference<I, A>(rs: seq<Report<I, A>>)
    requires AllYield(rs)
    ensures Scan(rs).status == Returned(if rs == [] then None else Some(BestValue(rs)))
    ensures Scan(rs).writes == ReferenceWrites(rs)
    decreases |rs|
  {
    if rs != [] {
      var n := |rs| - 1;
      var p := rs[..n];
      assert forall i :: 0 <= i < n ==> p[i] == rs[i];
      ScanMatchesReference(p);
      if n > 0 {
        var m := BestValue(p);
        if Value(rs[n]) > m {
          assert Improves(rs, n);
        } else {
          var j :| 0 <= j < n && Value(p[j]) == m;
          assert Value(rs[j]) >= Value(rs[n]);
          assert !Improves(rs, n);
        }
      }
    }
  }

  /**
   * Tie-break: at the earliest action `i` reaching the best utility, the node
   * makes its last own write (none when `i` is the first action); no later
   * action, in particular none with the same utility, writes.
   */
  lemma EarliestBestWritesLast<I, A>(rs: seq<Report<I, A>>, i: nat)
    requires AllYield(rs) && i < |rs|
    requires Value(rs[i]) == BestValue(rs)
    requires forall j :: 0 <= j < i ==> Value(rs[j]) < Value(rs[i])
    ensures OwnWrite(rs, i) == if i == 0 then [] else [(rs[i].successorSet, rs[i].action)]
    ensures forall j :: i < j < |rs| ==> OwnWrite(rs, j) == []
  {
  }

  /**
   * A successor whose utility does not beat the current best changes neither
   * the best utility nor the profile, beyond what its own subtree wrote.
   */
  lemma StepWithoutImprovement<I, A>(e: Eval<I, A>, r: Report<I, A>, y: real)
    requires e.status == Returned(Some(y)) && Yields(r) && Value(r) <= y
    ensures Step(e, r) == Eval(Returned(Some(y)), e.writes + r.eval.writes)
  {
  }

  /**
   * The first action only sets the best utility: the node itself writes
   * nothing for it.
   */
  lemma FirstActionOnlyInitialises<I, A>(r: Report<I, A>)
    requires Yields(r)
    ensures Scan([r]) == Eval(Returned(Some(Value(r))), r.eval.writes)
  {
    assert [r][..0] == [];
  }

  /**
   * Every write of a node comes from a successor's subtree, or is the entry
   * (successor's information set, action) for an action that is not the first.
   */
  lemma {:induction false} WritesOrigin<I, A>(rs: seq<Report<I, A>>, w: (I, A))
    requires w in Scan(rs).writes
    ensures || (exists i :: 0 <= i < |rs| && w in rs[i].eval.writes)
            || (exists i :: 0 < i < |rs| && w == (rs[i].successorSet, rs[i].action))
    decreases |rs|
  {
    var n := |rs| - 1;
    var p := rs[..n];
    assert forall i :: 0 <= i < n ==> p[i] == rs[i];
    if w in Scan(p).writes {
      WritesOrigin(p, w);
    } else if w in rs[n].eval.writes {
    } else {
      assert n > 0;
      assert w == (rs[n].successorSet, rs[n].action);
    }
  }

  /**
   * Every `insert` made anywhere in the sweep writes the information set of a
   * successor together with the action that led to it.
   */
  lemma {:induction false} RunWritesAreEdges<I, P, A>(s: GameState<I, P, A>, w: (I, A))
    requires w in Run(s).writes
    ensures exists t, k :: t in Nodes(s) && 0 <= k < |t.edges| &&
              w == (t.edges[k].successor.informationSet, t.edges[k].action)
    decreases s
  {
    var rs := Reports(s);
    WritesOrigin(rs, w);
    if i :| 0 <= i < |rs| && w in rs[i].eval.writes {
      var child := s.edges[i].successor;
      RunWritesAreEdges(child, w);
      var t, k :| t in Nodes(child) && 0 <= k < |t.edges| &&
                  w == (t.edges[k].successor.informationSet, t.edges[k].action);
      assert 0 <= i < |s.edges| && t in Nodes(s.edges[i].successor);
      assert t in Nodes(s);
    } else {
      var i :| 0 < i < |rs| && w == (rs[i].successorSet, rs[i].action);
      assert s in Nodes(s);
    }
  }

  /** A state without actions returns no utility and writes nothing. */
  lemma NoActionsReturnsNone<I, P, A>(s: GameState<I, P, A>)
    requires s.edges == []
    ensures Run(s) == Eval(Returned(None), [])
  {
  }

  /**
   * A node with an action whose successor has no actions panics: that
   * successor returns no utility.
   */
  lemma PanicsOnActionlessSuccessor<I, P, A>(s: GameState<I, P, A>, k: nat)
    requires k < |s.edges| && s.edges[k].successor.edges == []
    ensures Run(s).status == Panicked
  {
    var rs := Reports(s);
    NoActionsReturnsNone(s.edges[k].successor);
    assert !Yields(rs[k]);
    ScanReturnsIffAllYield(rs);
  }

  /**
   * The code as written: since `recurse` never reads a utility, a state
   * without actions returns `None`, every other state panics, and no `insert`
   * is ever reached.
   */
  lemma {:induction false} RunAsWritten<I, P, A>(s: GameState<I, P, A>)
    ensures Run(s) == Eval(if s.edges == [] then Returned(None) else Panicked, [])
    decreases s
  {
    if s.edges != [] {
      var rs := Reports(s);
      RunAsWritten(s.edges[0].successor);
      assert !Yields(rs[0]);
      assert rs[..1] == [rs[0]];
      assert Scan(rs[..1]) == Eval(Panicked, []);
      ScanAfterPanic(rs, 1);
    }
  }

  /**
   * What the entry point does: it returns the empty profile when the root
   * has no actions and panics whenever the root has one.
   */
  lemma EntryPointAsWritten<I, P, A>(root: GameState<I, P, A>)
    ensures Run(root).status.Returned? <==> root.edges == []
    ensures Replay(map[], Run(root).writes) == map[]
  {
    RunAsWritten(root);
  }

  /** `s` and `t` have the same information sets and actions, node by node. */
  ghost predicate SameShape<I, P, A>(s: GameState<I, P, A>, t: GameState<I, P, A>)
    decreases s
  {
    && s.informationSet == t.informationSet
    && |s.edges| == |t.edges|
    && forall k :: 0 <= k < |s.edges| ==>
         s.edges[k].action == t.edges[k].action && SameShape(s.edges[k].successor, t.edges[k].successor)
  }

  /**
   * Two games of the same shape, whatever their players and utilities, give
   * the same run: `recurse` never calls `player`, `is_terminal` or `utility`.
   */
  lemma {:induction false} RunIgnoresPlayerAndUtility<I, P, A>(s: GameState<I, P, A>, t: GameState<I, P, A>)
    requires SameShape(s, t)
    ensures Run(s) == Run(t)
    decreases s
  {
    forall k | 0 <= k < |s.edges|
      ensures Run(s.edges[k].successor) == Run(t.edges[k].successor)
    {
      RunIgnoresPlayerAndUtility(s.edges[k].successor, t.edges[k].successor);
    }
    assert Reports(s) == Reports(t);
  }
}
