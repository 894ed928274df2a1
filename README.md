# Tic-tac-toe MDP solvers, modelled in Dafny

The repository trains three tic-tac-toe agents on a Markov decision process
whose states are `Game`s and whose actions are `Move`s:

- **Policy iteration** (`PolicyIterationAgent`) keeps a value table
  `policyValues` and a policy `curPolicy`. `evaluatePolicy` runs in-place
  (Gauss-Seidel) sweeps of the expectation backup. `improvePolicy` makes one
  greedy pass and reports whether anything changed. `train` alternates them.
- **Value iteration** (`ValueIterationAgent`) runs `k` synchronous
  (Jacobi) optimality sweeps over `valueFunction` in `iterate`. Then
  `extractPolicy` repeats greedy passes over the frozen table until none
  changes anything.
- **Q-learning** (`QLearningAgent`) fills a Q-table with epsilon-greedy
  episodes against an environment. Each step applies the temporal-difference
  update `Q <- (1 - alpha) Q + alpha (r + gamma maxQ')` to one cell. After
  each episode it extracts a greedy policy.

The Dafny project has five modules, one per file:

- `Mdp` (`mdp.dfy`): the shared vocabulary. It holds outcomes, transition
  lists and the model, with Java's nullable references as `Option`, plus the
  one-step backup sum and the `(int) (Math.random() * n)` index.
- `Scan` (`scan.dfy`): the strict-`>` running-maximum scan that every agent
  writes inline. Ties keep the first winner. It is proved once here.
- `PolicyIteration`, `ValueIteration`, `QLearning`: one agent each. Each
  holds specification functions, lemmas about them, and a class whose
  methods are the Java loops. Every method is proved against the
  specification functions.

`Game` and `Move` are type parameters. `Game.getPossibleMoves` is a function
parameter `moves`. `TTTMDP.generateTransitions` is a parameter `trans`, where
`None` stands for a null list. Values are exact `real`s.

`HashMap` iteration order matters only to `evaluatePolicy`, whose sweep is
in place. That method takes the key order as an argument. The other key
loops do not depend on their order and iterate with `:|`.

The model follows the code where the code departs from its own doc-comments
or from the textbook algorithm:

- `evaluatePolicy` loops while the largest change is *below* delta and never
  resets it. It therefore stops after the first sweep that moved some value
  by at least delta, and never stops on a table that is already a fixed point
  (`FixedPointNeverExits`).
- `improvePolicy` ranks only the outcomes of the state's *current* move and
  adopts the move recorded in the best one. When outcomes record the action
  that produced them, it never changes anything, and `train` stops at once
  (`ImproveKeepsRecordedMoves`, `TrainStopsAtOnce`).
- `calculateMaxQValue` starts from `Double.NEGATIVE_INFINITY`. For a successor
  without legal moves it returns -infinity rather than the 0 that the textbook
  update gives a terminal successor; such a successor ends the episode when
  the environment treats it as terminal. `updateQValue` then writes NaN
  into the table when a factor 0 meets -infinity: alpha or the discount is
  0, or alpha is 1 and the cell already holds -infinity. It also writes NaN
  when the cell holds NaN. In every other case it writes -infinity
  (`TerminalStepWritesNaN`, `TerminalStepWritesNegInf`). Q-values are
  therefore modelled as `Ext`: a real, -infinity, or NaN. Java's `>` on
  them is `Gt`.
- Each value-iteration sweep starts a state's running maximum at its old
  value, so the new value is `max(V(s), max_a Q(s, a))`. Values never
  decrease (`IterateNeverDecreases`).

## Model

| member | source | states |
|---|---|---|
| `Mdp.Contribution` | PolicyIterationAgent.java:185-194 | defines one transition's share p(r + gamma V(s')) of the expected return: nothing for a null outcome or a null successor, and an unseen successor read as 0 by getOrDefault |
| `Mdp.Backup` | PolicyIterationAgent.java:182-197 | defines the expected one-step return of a transition list as the sum of the contributions in list order; `BackupFrame`, `BackupMonotone` and `BackupIsLiteralSum` state what it reads and how it relates to the strict sum |
| `Mdp.BackupFrame` | PolicyIterationAgent.java:184-195 | the backup sum reads the value table only at the successors of its outcomes, and reads a missing successor as 0 |
| `Mdp.BackupMonotone` | ValueIterationAgent.java:132-140 | with non-negative probabilities and discount, a pointwise larger table gives a larger backup |
| `Mdp.RandomIndex` | QLearningAgent.java:161 | `(int) (draw * n)` for a draw in [0, 1) is an index below n |
| `Scan.ScanStep` | QLearningAgent.java:170-173 | one strict-`>` comparison keeps "the holder is the first candidate that beats the incumbent and that no later candidate beats" |
| `Scan.ScanFromIsFirstMax` | QLearningAgent.java:168-174 | the rest of the scan keeps that invariant to the end |
| `Scan.FirstMaxIsFirstMax` | QLearningAgent.java:165-175 | the whole scan ends on the first maximal candidate that beats the incumbent, or on the incumbent when none does |
| `Scan.FirstMaxUnique` | QLearningAgent.java:168-174 | that invariant determines the winner, so a loop that keeps it ends where the scan function does |
| `Scan.HeldIsMax` | QLearningAgent.java:186-190 | the value held at the end is at least the incumbent and every non-skipped candidate, and it is -infinity only when everything was |
| `PolicyIteration.StateValue` | PolicyIterationAgent.java:168-198 | defines calculateStateValue: 0 without a policy move or with a null list, otherwise the Backup of the policy move's transitions; `StateValueFrame` and `CalculateStateValue` give its contract |
| `PolicyIteration.StateValueFrame` | PolicyIterationAgent.java:170-195 | a state's value depends on the table only through the getOrDefault values of the successors of its policy move, so it is 0 whatever the table without a policy move or a list |
| `PolicyIteration.EvalStep` | PolicyIterationAgent.java:154-159 | one update stores the state's recomputed value, changes no other key, and folds the size of the change into maxChange |
| `PolicyIteration.SweepPrefix` | PolicyIterationAgent.java:153-160 | a partial sweep keeps the key set and never lowers maxChange |
| `PolicyIteration.Sweep` | PolicyIterationAgent.java:153-160 | a whole sweep keeps the key set and never lowers maxChange |
| `PolicyIteration.SweepPrefixKeeps` | PolicyIterationAgent.java:153-157 | a key written at step i keeps that value for the rest of the sweep |
| `PolicyIteration.SweepPrefixUntouched` | PolicyIterationAgent.java:153-157 | a key not yet visited still holds its value from before the sweep |
| `PolicyIteration.SweepInPlace` | PolicyIterationAgent.java:153-157 | the sweep is in place: the state at position i is recomputed from this sweep's new values for earlier states and the old values for the rest |
| `PolicyIteration.EvalRun` | PolicyIterationAgent.java:151-161 | repeated sweeps keep the key set and run no more sweeps than the fuel |
| `PolicyIteration.EvalRunStep` | PolicyIterationAgent.java:151-160 | while maxChange is below delta and fuel remains, evaluation is one more sweep followed by the rest of the run, with one more sweep counted |
| `PolicyIteration.EvalRunExit` | PolicyIterationAgent.java:148-161 | evaluation stops only once maxChange reaches delta or the fuel runs out; maxChange only grows, and a sweep runs only while it is below delta |
| `PolicyIteration.SweepPrefixFixed` | PolicyIterationAgent.java:153-160 | a sweep over a table that is already the policy's fixed point changes nothing and leaves maxChange at 0 |
| `PolicyIteration.FixedPointNeverExits` | PolicyIterationAgent.java:151 | on a fixed-point table and for any positive delta, the inverted loop condition never lets evaluation exit, however much fuel it has |
| `PolicyIteration.ImprovedMove` | PolicyIterationAgent.java:210-233 | defines the move one improvePolicy pass leaves for a state: the current move when the list has no ranked outcome, otherwise the move of the first-found best ranked outcome; `ImprovedMoveIsFirstBest` states it |
| `PolicyIteration.ImprovedMoveIsFirstBest` | PolicyIterationAgent.java:209-233 | the entry stays when no outcome of the current move is ranked; otherwise it becomes the move recorded in a ranked outcome of largest value, the first such one on ties |
| `PolicyIteration.ImprovedStaysDefined` | PolicyIterationAgent.java:211-231 | when every move recorded in a ranked outcome of a defined move is itself defined, an improvement pass keeps every entry where the next pass runs without a NullPointerException |
| `PolicyIteration.Improved` | PolicyIterationAgent.java:209-234 | an improvement pass keeps the policy's key set |
| `PolicyIteration.StableIsFixedPoint` | PolicyIterationAgent.java:230-236 | "no entry would change" is exactly "the pass returns the same policy" |
| `PolicyIteration.ImproveKeepsRecordedMoves` | PolicyIterationAgent.java:210-226 | when outcomes record the action that produced them, the pass changes nothing |
| `PolicyIteration.TrainRound` | PolicyIterationAgent.java:252-254 | one pass of the train loop stops on the last round; it keeps the key sets of both the policy and the value table |
| `PolicyIteration.TrainRun` | PolicyIterationAgent.java:250-257 | the train loop keeps the key sets of both the policy and the value table |
| `PolicyIteration.TrainRunContinues` | PolicyIterationAgent.java:252-254 | after a round that continues, the loop goes on from the improved and evaluated tables |
| `PolicyIteration.TrainConverged` | PolicyIterationAgent.java:252-256 | when train ends because improvePolicy reported no change, one more improvement pass would change nothing |
| `PolicyIteration.TrainStopsAtOnce` | PolicyIterationAgent.java:252-254 | when outcomes record their action, train converges at once and returns both tables unchanged |
| `PolicyIteration.PolicyIterationAgent.constructor` | PolicyIterationAgent.java:28-35 | empty tables and policy, delta = 0.1 |
| `PolicyIteration.PolicyIterationAgent.InitValues` | PolicyIterationAgent.java:100-106 | every enumerated state maps to 0.0; the table gains nothing else |
| `PolicyIteration.PolicyIterationAgent.InitRandomPolicy` | PolicyIterationAgent.java:119-133 | every enumerated state with a legal move gets the move at its random index, which is legal; terminal states get no entry |
| `PolicyIteration.PolicyIterationAgent.CalculateStateValue` | PolicyIterationAgent.java:168-198 | the accumulation loop returns StateValue |
| `PolicyIteration.PolicyIterationAgent.SweepValues` | PolicyIterationAgent.java:153-160 | one pass of the keySet loop in the given order is Sweep |
| `PolicyIteration.PolicyIterationAgent.EvaluatePolicy` | PolicyIterationAgent.java:146-162 | the value table after evaluation is EvalRun from maxChange 0; it touches only policyValues and reports whether the exit condition was reached |
| `PolicyIteration.PolicyIterationAgent.BestMove` | PolicyIterationAgent.java:211-228 | the scan over the current move's outcomes yields the move ImprovedMove leaves |
| `PolicyIteration.PolicyIterationAgent.ImproveState` | PolicyIterationAgent.java:210-233 | one state's entry becomes its improved move, and the result says whether it changed |
| `PolicyIteration.PolicyIterationAgent.ImprovePolicy` | PolicyIterationAgent.java:206-237 | the new policy is Improved, and the result is true exactly when the old policy was not stable |
| `PolicyIteration.PolicyIterationAgent.TrainStep` | PolicyIterationAgent.java:252-254 | one loop pass is TrainRound |
| `PolicyIteration.PolicyIterationAgent.Train` | PolicyIterationAgent.java:250-257 | the final tables are TrainRun's; the policy is published only when the loop ended because nothing changed |
| `ValueIteration.QValue` | ValueIterationAgent.java:129-143 | defines Q(s, a) as the Backup of the transitions of a (0 for a null list, where Java would throw) |
| `ValueIteration.BackupIsLiteralSum` | ValueIterationAgent.java:129-143 | on the transitions calculateQValue accepts, the backup equals the sum written with strict table lookups |
| `ValueIteration.BestValue` | ValueIterationAgent.java:109-118 | defines the value one sweep gives a state: the strict-`>` running maximum over the legal moves' Q-values, started at the old value; `BestValueIsMax` states it |
| `ValueIteration.BestValueIsMax` | ValueIterationAgent.java:109-118 | the new value is max(V(s), max over legal a of Q(s, a)): at least each of them and equal to one; a state without moves keeps V(s) |
| `ValueIteration.Sweep` | ValueIterationAgent.java:106-123 | a synchronous sweep keeps the key set |
| `ValueIteration.IterateN` | ValueIterationAgent.java:103-125 | any number of sweeps keeps the key set |
| `ValueIteration.IterateNone` | ValueIterationAgent.java:105 | k <= 0 performs no sweep |
| `ValueIteration.IterateNStep` | ValueIterationAgent.java:105-124 | the (i + 1)-th sweep applies to the table after i sweeps |
| `ValueIteration.SweepBounds` | ValueIterationAgent.java:108-120 | a sweep never lowers a value, leaves each value at or above every Q-value of its state, and keeps states without moves |
| `ValueIteration.IterateNeverDecreases` | ValueIterationAgent.java:103-125 | over k sweeps no value ever decreases |
| `ValueIteration.TerminalKept` | ValueIterationAgent.java:108-120 | a state without legal moves keeps its value through every sweep |
| `ValueIteration.SweepMonotone` | ValueIterationAgent.java:106-121 | with non-negative probabilities and discount, a pointwise larger table sweeps to a pointwise larger table |
| `ValueIteration.RandomPolicy` | ValueIterationAgent.java:165-172 | the starting policy has an entry for exactly the states with moves, each a legal move |
| `ValueIteration.GreedyMove` | ValueIterationAgent.java:185-197 | defines the move a state holds after one greedy pass: the strict-`>` scan over the legal moves' Q-values, started at the current move's Q; `GreedyMoveIsArgmax` states it |
| `ValueIteration.GreedyMoveIsArgmax` | ValueIterationAgent.java:185-197 | the move after a pass is legal, maximises Q over the legal moves, and differs from the incumbent only when strictly better; a move that replaces the incumbent is the first legal move of its value, every earlier legal move being strictly worse |
| `ValueIteration.GreedyMoveStable` | ValueIterationAgent.java:185-197 | from a move that is already greedy, the pass keeps it |
| `ValueIteration.GreedySweep` | ValueIterationAgent.java:182-199 | a pass keeps the policy's key set |
| `ValueIteration.GreedySweepIsGreedy` | ValueIterationAgent.java:176-200 | a pass over a legal policy gives a legal policy in which every entry maximises Q |
| `ValueIteration.GreedySweepIdempotent` | ValueIterationAgent.java:174-200 | the second pass changes nothing, so the extraction loop ends after at most two passes |
| `ValueIteration.Extracted` | ValueIterationAgent.java:157-203 | defines what extractPolicy returns: one greedy pass over the random starting policy, the second pass changing nothing; `ExtractedIsGreedy` states it |
| `ValueIteration.ExtractedIsGreedy` | ValueIterationAgent.java:213-224 | the policy train publishes covers exactly the states with legal moves, with a legal move of largest Q-value against the final table |
| `ValueIteration.ValueIterationAgent.constructor` | ValueIterationAgent.java:22-37 | empty tables, k = 10 |
| `ValueIteration.ValueIterationAgent.InitValues` | ValueIterationAgent.java:75-84 | every enumerated state maps to 0.0; the table gains nothing else |
| `ValueIteration.ValueIterationAgent.CalculateQValue` | ValueIterationAgent.java:129-143 | the loop returns the backup sum, reading the table without changing it |
| `ValueIteration.ValueIterationAgent.MaxQValue` | ValueIterationAgent.java:109-118 | the running maximum from V(s) over the legal moves is BestValue |
| `ValueIteration.ValueIterationAgent.NewValues` | ValueIterationAgent.java:106-121 | the fresh map is one synchronous Sweep of the old table |
| `ValueIteration.ValueIterationAgent.Iterate` | ValueIterationAgent.java:103-125 | the table after iterate is exactly k sweeps of the old one (none when k <= 0) |
| `ValueIteration.ValueIterationAgent.InitialPolicy` | ValueIterationAgent.java:164-172 | the random starting policy is RandomPolicy |
| `ValueIteration.ValueIterationAgent.BestAction` | ValueIterationAgent.java:185-197 | one state's scan yields GreedyMove and reports a change exactly when the move differs |
| `ValueIteration.ValueIterationAgent.GreedyPass` | ValueIterationAgent.java:182-199 | one pass is GreedySweep; policyChanged is true exactly when the policy changed |
| `ValueIteration.ValueIterationAgent.ExtractPolicy` | ValueIterationAgent.java:157-203 | the loop terminates and returns one greedy pass over the random policy, without writing valueFunction |
| `ValueIteration.ValueIterationAgent.Train` | ValueIterationAgent.java:213-234 | train leaves k sweeps of the old table and publishes the policy extracted from them |
| `QLearning.Finite` | QLearningAgent.java:168-170 | defines what a `q > best` scan sees of a Q-value, its finite part; `GtIsBeats` gives it meaning |
| `QLearning.FromMax` | QLearningAgent.java:183-191 | defines the running maximum as the double Java holds, -infinity until a value beats it; `GtIsBeats` gives it meaning |
| `QLearning.GtIsBeats` | QLearningAgent.java:169-187 | Java's `q > best` against a running maximum started at -infinity holds exactly when Scan's Beats holds for the finite part of q: -infinity and NaN never beat, and a finite q beats -infinity |
| `QLearning.Lookup` | QLearningAgent.java:199-201 | defines qTable.getQValue: the stored value, and 0 for a missing cell (the assumption about QTable listed under Left out) |
| `QLearning.Store` | QLearningAgent.java:204 | addQValue adds the state to the table's keys |
| `QLearning.StoreWritesOneCell` | QLearningAgent.java:204 | addQValue writes exactly its cell: the cell reads back, and no other cell changes |
| `QLearning.ZeroMoves` | QLearningAgent.java:84-90 | defines the inner loop of initQTable as the stores of 0 into (g, m) for each legal m in turn; `ZeroMovesCells` states it |
| `QLearning.ZeroAll` | QLearningAgent.java:79-94 | defines initQTable as the inner loop for each enumerated state in turn; `ZeroAllCells` states it |
| `QLearning.ZeroMovesCells` | QLearningAgent.java:84-90 | the inner loop sets exactly the cells (g, m) for legal m to 0 and adds g when it has moves |
| `QLearning.ZeroAllCells` | QLearningAgent.java:79-94 | initQTable sets Q(g, m) = 0 for every enumerated g and legal m, keeps every other cell, and adds exactly the enumerated states with moves |
| `QLearning.MaxQ` | QLearningAgent.java:179-192 | defines calculateMaxQValue as the strict-`>` scan from -infinity over the legal moves' values; `MaxQIsMax` states it |
| `QLearning.MaxQIsMax` | QLearningAgent.java:179-192 | the result is -infinity exactly when no legal move has a finite value, in particular with no moves; otherwise it is the largest finite value, which some legal move attains |
| `QLearning.Greedy` | QLearningAgent.java:164-175 | defines the exploit choice as the strict-`>` scan from -infinity, giving null when no move beats it; `GreedyIsFirstArgmax` states it |
| `QLearning.GreedyIsFirstArgmax` | QLearningAgent.java:164-175 | the exploit choice is null exactly when no legal move has a finite value; otherwise it is the first legal move of largest finite value |
| `QLearning.EpsilonGreedy` | QLearningAgent.java:156-177 | defines the epsilon-greedy choice for draws (explore, index): the move at the random index when explore is below epsilon, the greedy choice otherwise; `EpsilonGreedyLegal`, `EpsilonZeroExploits` and `EpsilonOneExplores` state it |
| `QLearning.EpsilonGreedyLegal` | QLearningAgent.java:156-177 | a chosen move is legal, and with a legal move and a draw below epsilon there always is one |
| `QLearning.EpsilonZeroExploits` | QLearningAgent.java:159 | with epsilon <= 0 it never explores: the choice is the greedy one |
| `QLearning.EpsilonOneExplores` | QLearningAgent.java:159-161 | with epsilon >= 1 it always explores: the move at the random index, whatever the table |
| `QLearning.Extracted` | QLearningAgent.java:212-237 | defines extractPolicy: a fresh policy with the greedy choice for each table state with moves; `ExtractedIsGreedy` states it |
| `QLearning.ExtractedIsGreedy` | QLearningAgent.java:212-237 | the policy has an entry for exactly the table states with moves, each a legal move of largest finite value, or null when no move has a finite value |
| `QLearning.NewQValue` | QLearningAgent.java:202 | defines (1 - alpha) Q + alpha (r + gamma maxQ') in Java's arithmetic on finite values, -infinity and NaN; `NewQValueFinite`, `TerminalStepWritesNegInf` and `TerminalStepWritesNaN` state it |
| `QLearning.NewQValueFinite` | QLearningAgent.java:202 | from finite values the update is (1 - alpha) Q + alpha (r + gamma maxQ') over the reals |
| `QLearning.TerminalStepWritesNegInf` | QLearningAgent.java:196-202 | a move into a state without moves writes -infinity, whatever the reward, when alpha and the discount are positive and the cell holds a finite value, or -infinity with alpha below 1 |
| `QLearning.TerminalStepWritesNaN` | QLearningAgent.java:196-202 | the same step writes NaN exactly when alpha or the discount is 0, the cell holds NaN, or alpha is 1 and the cell holds -infinity; otherwise it writes -infinity |
| `QLearning.Update` | QLearningAgent.java:195-205 | defines updateQValue on a table: store NewQValue, computed from the table before the write, into cell (s, a); `UpdateWritesOneCell` states it |
| `QLearning.UpdateWritesOneCell` | QLearningAgent.java:195-205 | the update writes the temporal-difference value, computed from the table before the write with a missing cell as 0, into cell (s, a) only |
| `QLearning.Step` | QLearningAgent.java:124-138 | defines one step: observe the state, select with EpsilonGreedy, execute, and Update when executeMove returned an outcome; `StepWritesOneCell` states it |
| `QLearning.Episode` | QLearningAgent.java:122-139 | defines an episode as Steps until the environment is terminal, at most `fuel` of them, reporting whether it got there; `EpisodeKeepsStates` states it |
| `QLearning.EpisodeRound` | QLearningAgent.java:120-142 | defines one pass of the episode loop: reset, run the episode, and re-extract the policy from the table when it completes |
| `QLearning.Episodes` | QLearningAgent.java:118-150 | defines the episode loop as EpisodeRounds for the given number of episodes, stopping at one that runs out of fuel; `TrainPublishesFinalPolicy` states it |
| `QLearning.EpisodeStep` | QLearningAgent.java:122-138 | a non-terminal episode with fuel takes one Step and goes on |
| `QLearning.EpisodesContinue` | QLearningAgent.java:118-148 | after a completed episode, training goes on with the next episode number |
| `QLearning.TrainPublishesFinalPolicy` | QLearningAgent.java:118-142 | when training completes at least one episode, the published policy is the one extracted from the final table |
| `QLearning.StepWritesOneCell` | QLearningAgent.java:124-138 | one step changes at most the cell of the move it took in the state it observed, and never removes a state |
| `QLearning.EpisodeKeepsStates` | QLearningAgent.java:122-139 | the table's states only grow over an episode |
| `QLearning.QLearningAgent.constructor` | QLearningAgent.java:64-72 | the given rates and episode count, epsilon = 0.1, an empty table |
| `QLearning.QLearningAgent.InitState` | QLearningAgent.java:84-90 | the inner loop is ZeroMoves |
| `QLearning.QLearningAgent.InitQTable` | QLearningAgent.java:79-94 | the table after initQTable is ZeroAll of the old one |
| `QLearning.QLearningAgent.BestMove` | QLearningAgent.java:164-175 | the exploit scan, holding a double from -infinity and comparing with `>`, returns Greedy |
| `QLearning.QLearningAgent.EpsilonGreedyPolicy` | QLearningAgent.java:156-177 | the choice is EpsilonGreedy for the two draws |
| `QLearning.QLearningAgent.CalculateMaxQValue` | QLearningAgent.java:179-192 | the loop, holding a double from -infinity and comparing with `>`, returns MaxQ as that double |
| `QLearning.QLearningAgent.UpdateQValue` | QLearningAgent.java:195-205 | the table after the call is Update of the old one |
| `QLearning.QLearningAgent.ExtractPolicy` | QLearningAgent.java:212-237 | the fresh policy is Extracted from the table |
| `QLearning.QLearningAgent.TrainStep` | QLearningAgent.java:124-138 | one select, execute and update is Step |
| `QLearning.QLearningAgent.RunEpisode` | QLearningAgent.java:120-139 | an episode from reset is Episode, and the result says whether it reached a terminal state |
| `QLearning.QLearningAgent.Train` | QLearningAgent.java:116-153 | training runs Episodes for max(numEpisodes, 0) episodes, re-extracting the policy after each, and leaves its table, environment and policy |

## Left out

- `main`, the interactive `playOut` loops and the `System.out` messages are not modelled. They are I/O only.
- Constructors only initialise fields; a caller runs the corresponding methods in the Java order. The Java constructors differ in what they call:
  - `PolicyIterationAgent()`, `(double)` and the five-argument one (PolicyIterationAgent.java:45-54, 71-94) call `initValues`, `initRandomPolicy` and `train`.
  - `ValueIterationAgent()` and `(double)` (ValueIterationAgent.java:43-50, 62-68) call `initValues` and `train`. The five-argument one (lines 88-92) only sets the discount and the MDP.
  - `QLearningAgent(opponent, alpha, numEpisodes, discount)` and `QLearningAgent()` (QLearningAgent.java:64-72, 99-103) call `initQTable` and `train`.
  - The `(Policy p)` constructors of both planning agents (PolicyIterationAgent.java:61-64, ValueIterationAgent.java:57-60) only call `super(p)`. The inherited `Agent` is not part of this model.
- `Game.generateAllValidGames` is an argument `allGames`. `getPossibleMoves`, `TTTMDP.generateTransitions` and `TTTEnvironment` are injected functions. `QTable` and `Policy` are maps. Their sources are not part of this model, so no rewards or opponent behaviour are assumed.
- `Random.nextInt` and `Math.random` are injected draws: an index per state, or values in [0, 1). Probability distributions are not modelled.
- IEEE-754 rounding is not modelled; values are exact reals. The only infinities kept are the -infinity of `calculateMaxQValue` and the NaN it can produce. +infinity is kept out by alpha in its documented range [0, 1] and a non-negative discount.
- `QLearning.NewQValue`: requires alpha in its documented range [0, 1] and a non-negative discount, so that +infinity never arises.
- `QLearning.Lookup`: a missing cell reads as 0. This is an assumption about `QTable.getQValue`, whose source is not part of this model. `QLearning.UpdateWritesOneCell`, `QLearning.ZeroAllCells` and every scan over the table rely on it.
- `QLearning.QLearningAgent.UpdateQValue`: requires the same ranges of alpha and the discount, and an outcome with a successor (Java would throw a NullPointerException otherwise).
- `QLearning.QLearningAgent.EpsilonGreedyPolicy`: requires a legal move when the explore draw is below epsilon, where Java's `get` on an empty list would throw. The specification function gives None there.
- `QLearning.QLearningAgent.Train` runs each episode for at most `fuel` steps and reports false when one runs out. The Java loop is unbounded when the environment never becomes terminal.
- `QLearning.QLearningAgent.Train` assumes the environment rejects a null move with `IllegalMoveException`. Java would otherwise pass null to `updateQValue`.
- `QLearning.QLearningAgent.Train` also assumes non-terminal states have legal moves and outcomes carry a successor (`WellBehaved`). The catch-and-print of `IllegalMoveException` is modelled as "no update".
- `QLearning.QLearningAgent.RunEpisode`: at most `fuel` steps, for the same reason.
- `PolicyIteration.PolicyIterationAgent.EvaluatePolicy` runs at most `fuel` sweeps. The Java loop need not terminate (`FixedPointNeverExits`). The number of sweeps and whether the exit condition was reached are reported instead.
- `PolicyIteration.PolicyIterationAgent.Train` allows at most `rounds` evaluations of at most `evalFuel` sweeps each. It reports no convergence when either runs out, since improvement and evaluation can alternate forever.
- `PolicyIteration.PolicyIterationAgent.ImprovePolicy` requires, for every state of the policy and its current move, a non-null transition list whose ranked outcomes have a successor in the table (`PolicyDefined`). Java iterates a null list or unboxes a null value otherwise.
- `PolicyIteration.PolicyIterationAgent.Train` and `PolicyIteration.PolicyIterationAgent.TrainStep` require the same of the initial policy, and that every move recorded in a ranked outcome of a defined move is defined too (`RecordedMovesDefined`). Java's train needs this of every move a pass can adopt. The requirement also covers recorded moves that no run reaches, so some inputs on which Java's train completes are excluded. The model does not follow a run that reaches a move with a null list.
- `ValueIteration.ValueIterationAgent.Iterate`, `ValueIteration.ValueIterationAgent.ExtractPolicy` and `ValueIteration.ValueIterationAgent.Train` require every legal move of every key to have a non-null transition list whose outcomes and successors are non-null and keys of the table (`Closed`). Java throws otherwise. The specification functions are total and read a missing value as 0.
- `ValueIteration.ValueIterationAgent.CalculateQValue` requires the same of its transition list.
- Value iteration's `extractPolicy` calls `policy.policy.put` each time the running maximum improves. The model writes the state's final move once. No other state reads the entry in between, so the result is the same.
- `PolicyIteration.PolicyIterationAgent.EvaluatePolicy` takes the `HashMap` key order as an argument. The other key loops' results do not depend on it.
- The discount factor is part of the model (`Model.discount`). The Java constructors that set it and the reward parameters of `TTTMDP` are not modelled separately.
