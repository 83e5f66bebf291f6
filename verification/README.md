# Backward induction over a finite game tree

This project models the core of the `game-theory` crate: the `GameState`
trait, the `PureStrategyProfile` the solver fills in, and the recursive
solver `Algorithms::subgame_perfect_nash_equilibrium` / `Algorithms::recurse`.

- `wrappers.dfy`: the `Option` type.
- `game_theory.dfy` (module `GameTheory`, after `src/lib.rs`): a game state is a
  node of a finite tree (`GameState`). It has an optional player, an
  information set, a utility per player, and the ordered list of edges
  (action, successor). That list is what `actions()` yields, each action
  paired with what `advance(action)` returns. `IsTerminal` is the trait's
  default `is_terminal`. `Utility` is `utility(player)`. `WellFormed` is what
  the trait's doc comments ask of implementors: all nodes of one information
  set have the same player and the same set of actions.
  `PureStrategyProfile` is a class with an `entries` field of type `map`. The `Default`
  constructor creates it empty, and `Insert` changes it in place.
  `Inserted` is the map an `insert` leaves behind, and `Replay` applies a
  sequence of inserts in order.
- `algorithms.dfy` (module `Algorithms`, after `src/algorithms.rs`):
  `Recurse` is the recursive method with its `for` loop over the actions.
  Its body visits the actions in order and recurses into each successor
  right after advancing to it. It updates the profile object in place. It is proved against `Run`, which
  folds the loop body `Step` over one `Report` per action (`Scan`).
  `Run` gives how the call ends (a panic, or the best utility) and the
  ordered `insert` calls it makes. `SubgamePerfectNashEquilibrium` creates
  the default profile, runs `Recurse` on the root and returns the profile.
  `None` stands for the panic.

The model follows the code, not its doc comment ("Return a subgame-perfect
NE"). The code differs from that promise in these ways:

- `recurse` never calls `utility`. A state without actions therefore
  returns `None`, and its parent reaches the `panic!` arm of the match.
  `RunAsWritten` proves the consequence: every state with an action panics,
  and no `insert` is ever reached.
- The first action at a node only sets `best_utility`. Nothing is
  recorded for it.
- Entries are keyed by the *successor's* information set, not by the
  information set of the node that decides.
- `recurse` returns no utility at a terminal node and never checks whether
  the root is terminal. For a root without actions, terminal or not, the
  entry point returns the empty profile; a root with an action panics,
  terminal or not (`EntryPointAsWritten`).

The per-node properties are proved for any sequence of recursive results
(`Scan` over arbitrary `Report`s). These are the maximum, the strict
tie-break, the first action never writing, and where writes come from.
They do not depend on the fact above that leaves never yield a utility.

## Model

| member | source | states |
|---|---|---|
| `GameTheory.IsTerminal` | src/lib.rs:21-26 | definition row: the default `is_terminal` holds exactly when there is no player |
| `GameTheory.WellFormedSubgame` | src/lib.rs:31-47 | the implementor's contract (one player and one set of actions per information set) carries over to every subgame |
| `GameTheory.DefaultHistory` | src/lib.rs:100-104 | `History::default` holds no actions |
| `GameTheory.PureStrategyProfile.Default` | src/lib.rs:83-89 | the default profile maps no information set |
| `GameTheory.Inserted` | src/lib.rs:92-97 | after `insert(i, a)`, `i` maps to `a`; every other entry is kept and no other key appears; the key count grows by one exactly when `i` was new |
| `GameTheory.PureStrategyProfile.Insert` | src/lib.rs:92-97 | the profile's map becomes `Inserted` of its old map, updated in place |
| `GameTheory.ReplayConcat` | src/lib.rs:96 | two runs of `insert` calls act as their concatenation |
| `GameTheory.ReplayKeys` | src/lib.rs:96 | after a run of inserts, an information set has an entry iff it had one before or some insert wrote it |
| `GameTheory.ReplayUntouched` | src/lib.rs:96 | an information set that no insert mentions keeps its old entry, or stays absent |
| `GameTheory.ReplayLastWriteWins` | src/lib.rs:96 | an information set ends with the action of its last insert |
| `Algorithms.Step` | src/algorithms.rs:39-49 | one loop iteration: a panic is final; writes are only appended; the call goes on iff the successor returned a utility; the best utility then exists, is at least that utility, and never decreases |
| `Algorithms.Scan` | src/algorithms.rs:35-52 | the loop over the actions in order, from `best_utility = None`; over at least one action, a normal return carries `Some` utility |
| `Algorithms.Run` | src/algorithms.rs:26-53 | how `recurse` ends and the inserts it makes: a state without actions returns `None` with no write; a state with actions never returns `None` normally |
| `Algorithms.Reports` | src/algorithms.rs:36-38 | one report per action, in the order `actions()` yields them, each holding the run of the successor `advance` gives for that action |
| `Algorithms.RunIgnoresPlayerAndUtility` | src/lib.rs:44-53 | games with the same information sets and actions give the same run whatever their players and utilities: `recurse` never calls `player`, `is_terminal` or `utility` |
| `Algorithms.Recurse` | src/algorithms.rs:26-53 | returns the status `Run` gives and leaves the profile as `Run`'s inserts, replayed on the old profile, make it |
| `Algorithms.SubgamePerfectNashEquilibrium` | src/algorithms.rs:12-24 | starts from a fresh empty profile; returns exactly what `recurse` wrote into it unless `recurse` panics |
| `Algorithms.ScanAfterPanic` | src/algorithms.rs:48 | after the panic no later action changes the outcome or the writes |
| `Algorithms.ScanReturnsIffAllYield` | src/algorithms.rs:38-48 | the loop completes iff every recursive call returned a utility; one `None` (or a panic below) makes the call panic |
| `Algorithms.BestValue` | src/algorithms.rs:39-47 | a reference maximum: at least every successor's utility and equal to one of them |
| `Algorithms.ScanMatchesReference` | src/algorithms.rs:35-52 | when every successor returns a utility, the node returns `Some` of their maximum (`None` with no actions); its writes are each subtree's writes plus one entry per strict improvement on all earlier actions, never for the first |
| `Algorithms.EarliestBestWritesLast` | src/algorithms.rs:41-44 | the earliest action reaching the maximum makes the node's last own write (none if it is the first action); no later action with an equal utility writes |
| `Algorithms.StepWithoutImprovement` | src/algorithms.rs:40-46 | a utility not above the current best changes neither `best_utility` nor the profile beyond its subtree's writes |
| `Algorithms.FirstActionOnlyInitialises` | src/algorithms.rs:47 | the first action sets `best_utility` to its utility and the node itself writes nothing |
| `Algorithms.WritesOrigin` | src/algorithms.rs:42-44 | each write of a node comes from a successor's subtree or is (successor's information set, action) for an action other than the first |
| `Algorithms.RunWritesAreEdges` | src/algorithms.rs:36-44 | every insert anywhere in the sweep is (information set of a successor, the action that led to it) for an edge of the tree; true because there are no writes (`RunAsWritten`), so `WritesOrigin` is the non-vacuous form |
| `Algorithms.NoActionsReturnsNone` | src/algorithms.rs:35-36 | a state whose action iterator is empty returns `None` and writes nothing |
| `Algorithms.PanicsOnActionlessSuccessor` | src/algorithms.rs:38-48 | a node with a successor that has no actions panics |
| `Algorithms.RunAsWritten` | src/algorithms.rs:26-53 | because `utility` is never read, a state without actions returns `None`, every other state panics, and no insert is ever made |
| `Algorithms.EntryPointAsWritten` | src/algorithms.rs:20-23 | the entry point returns normally iff the root has no actions, and the profile it returns is then empty |

## Left out

- `ActionDistribution::sample` (src/lib.rs:107-120) is not modelled. It draws from a foreign random generator and sums `f32` probabilities.
- `ActionDistribution::weight` and `GameTree::from_root` are left out because their bodies are `todo!()`.
- `GameTree::root`, `terminal_nodes`, `predecessors` and `node_weight` are left out. They are wrappers over an external graph library, and no `GameTree` can be built because `from_root` is `todo!()`.
- The `Strategy` struct is an unused data holder and is left out.
- `src/test.rs` holds no behaviour: a `2 + 2` test, and a game whose methods are `todo!()`.
- Utilities are `real`. `f32` rounding and NaN comparison are not modelled. The solver only compares utilities with `>`.
- `actions()` is lazy and `advance(action)` consumes a clone of the state. Both are modelled as the ordered edge list of the node, with value semantics. Repeated actions at one node therefore keep their distinct successors.
- `utility` is modelled as an accessor (`GameTheory.Utility`) only, because the solver never calls it.
- The subgame-perfect optimality promised by the doc comment is not stated, because the code as written does not achieve it (see `RunAsWritten`).
- `IsTerminal` models only the trait's default `is_terminal`; an implementor's override is not modelled.
- Singleton information sets are neither required nor checked, matching the source.
- Only finite game trees are modelled; an infinite action iterator or an endless chain of `advance` calls, on which the source never returns, cannot be expressed.
- Stack depth is not modelled. The panic is modelled as a status value, and the process abort is not.
