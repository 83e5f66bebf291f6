/**
 * The value types of the crate (src/lib.rs): the game-state abstraction as a
 * finite game tree, the histories, and the pure strategy profile that the
 * solver fills in.
 */
module GameTheory {

  import opened Wrappers

  /**
   * One node of a finite extensive-form game. The `GameState` trait's
   * `actions()` and `advance(action)` are collapsed into `edges`: the actions
   * in the order the iterator yields them, each with the state it leads to.
   * `utilities` gives `utility(player)` for the players that have one.
   */
  datatype GameState<I, P(==), A> = GameState(
    player: Option<P>,
    informationSet: I,
    utilities: map<P, real>,
    edges: seq<Edge<I, P, A>>)

  /** An action together with the successor state `advance` produces for it. */
  datatype Edge<I, P(==), A> = Edge(action: A, successor: GameState<I, P, A>)

  /** The default `GameState::is_terminal`: there is no player to move. */
  predicate IsTerminal<I, P(==), A>(s: GameState<I, P, A>): (b: bool)
    ensures b <==> s.player == None
  {
    s.player.None?
  }

  /** The actions offered at `s`, ignoring their order and repeats. */
  ghost function ActionSet<I, P, A>(s: GameState<I, P, A>): set<A>
  {
    set k | 0 <= k < |s.edges| :: s.edges[k].action
  }

  /** `GameState::utility`: the utility of `p` at `s`, if `s` has one. */
  function Utility<I, P(==), A>(s: GameState<I, P, A>, p: P): Option<real>
  {
    if p in s.utilities then Some(s.utilities[p]) else None
  }

  /** The nodes of the game tree rooted at `s`, `s` itself included. */
  ghost function Nodes<I, P, A>(s: GameState<I, P, A>): set<GameState<I, P, A>>
    decreases s
  {
    {s} + set k, t | 0 <= k < |s.edges| && t in Nodes(s.edges[k].successor) :: t
  }

  /**
   * What the trait's doc comments ask of implementors: all nodes of one
   * information set have the same player and the same set of actions.
   * (That a state is terminal exactly when it has no player is how
   * `IsTerminal` is defined.)
   */
  ghost predicate WellFormed<I, P, A>(root: GameState<I, P, A>)
  {
    forall t, u ::
      t in Nodes(root) && u in Nodes(root) && t.informationSet == u.informationSet ==>
        t.player == u.player && ActionSet(t) == ActionSet(u)
  }

  /** Each subgame of a well-formed game is well formed. */
  lemma WellFormedSubgame<I, P, A>(root: GameState<I, P, A>, k: nat)
    requires WellFormed(root) && k < |root.edges|
    ensures WellFormed(root.edges[k].successor)
  {
    var child := root.edges[k].successor;
    forall t | t in Nodes(child) ensures t in Nodes(root) {
      assert 0 <= k < |root.edges| && t in Nodes(root.edges[k].successor);
    }
  }

  /** `History`: the actions taken up to the current time point. */
  datatype History<A> = History(actions: seq<A>)

  /** `History::default`. */
  function DefaultHistory<A>(): (h: History<A>)
    ensures |h.actions| == 0
  {
    History([])
  }

  /** The map `insert` leaves behind: `i` now chooses `a`, nothing else changes. */
  function Inserted<I(==), A>(m: map<I, A>, i: I, a: A): (r: map<I, A>)
    ensures i in r && r[i] == a
    ensures forall j :: j in r ==> j in m || j == i
    ensures forall j :: j in m ==> j in r && (j != i ==> r[j] == m[j])
    ensures |r| == if i in m then |m| else |m| + 1
  {
    m[i := a]
  }

  /** `PureStrategyProfile`: the action chosen at each information set. */
  class PureStrategyProfile<I(==), A> {

    var entries: map<I, A>

    /** `PureStrategyProfile::default`: no information set has an action yet. */
    constructor Default()
      ensures entries == map[]
    {
      entries := map[];
    }

    /** `PureStrategyProfile::insert`: record `action` for `informationSet`. */
    method Insert(informationSet: I, action: A)
      modifies this
      ensures entries == Inserted(old(entries), informationSet, action)
    {
      entries := entries[informationSet := action];
    }
  }

  /** The profile `m` becomes after the `insert` calls `writes`, in order. */
  function Replay<I(==), A>(m: map<I, A>, writes: seq<(I, A)>): map<I, A>
    decreases |writes|
  {
    if writes == [] then m
    else
      var n := |writes| - 1;
      Inserted(Replay(m, writes[..n]), writes[n].0, writes[n].1)
  }

  /** Replaying one more write is one more `insert`. */
  lemma ReplayAppend<I, A>(m: map<I, A>, writes: seq<(I, A)>, w: (I, A))
    ensures Replay(m, writes + [w]) == Inserted(Replay(m, writes), w.0, w.1)
  {
    assert (writes + [w])[..|writes|] == writes;
  }

  /** Replaying two runs of writes is replaying their concatenation. */
  lemma {:induction false} ReplayConcat<I, A>(m: map<I, A>, a: seq<(I, A)>, b: seq<(I, A)>)
    ensures Replay(m, a + b) == Replay(Replay(m, a), b)
  {
    if b != [] {
      var n := |b| - 1;
      assert (a + b)[..|a| + n] == a + b[..n];
      assert (a + b)[|a| + n] == b[n];
      ReplayConcat(m, a, b[..n]);
      calc {
        Replay(m, a + b);
        Inserted(Replay(m, a + b[..n]), b[n].0, b[n].1);
        Inserted(Replay(Replay(m, a), b[..n]), b[n].0, b[n].1);
        Replay(Replay(m, a), b);
      }
    } else {
      assert a + b == a;
    }
  }

  /** The information sets with an entry after a replay are the old ones and the written ones. */
  lemma {:induction false} ReplayKeys<I, A>(m: map<I, A>, writes: seq<(I, A)>, i: I)
    ensures i in Replay(m, writes) <==> i in m || exists k :: 0 <= k < |writes| && writes[k].0 == i
  {
    if writes != [] {
      var n := |writes| - 1;
      ReplayKeys(m, writes[..n], i);
      if i in Replay(m, writes[..n]) && i !in m {
        var k :| 0 <= k < n && writes[..n][k].0 == i;
        assert writes[k].0 == i;
      }
    }
  }

  /** An information set no write mentions keeps its old entry (or its absence). */
  lemma {:induction false} ReplayUntouched<I, A>(m: map<I, A>, writes: seq<(I, A)>, i: I)
    requires forall w :: w in writes ==> w.0 != i
    ensures i in Replay(m, writes) <==> i in m
    ensures i in m ==> Replay(m, writes)[i] == m[i]
  {
    if writes != [] {
      var n := |writes| - 1;
      assert writes[n] in writes;
      ReplayUntouched(m, writes[..n], i);
    }
  }

  /** Last write wins: an information set ends with the action of its last write. */
  lemma {:induction false} ReplayLastWriteWins<I, A>(m: map<I, A>, writes: seq<(I, A)>, k: nat)
    requires k < |writes|
    requires forall j :: k < j < |writes| ==> writes[j].0 != writes[k].0
    ensures writes[k].0 in Replay(m, writes) && Replay(m, writes)[writes[k].0] == writes[k].1
  {
    var n := |writes| - 1;
    if k < n {
      ReplayLastWriteWins(m, writes[..n], k);
    }
  }
}
