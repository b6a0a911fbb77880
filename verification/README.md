# Game of Life engine: a Dafny model

This project models the cellular-automaton engine of a Game of Life
program with four variants, and proves properties of it. The variants:

- **Basic:** Conway's rule.
- **Aging:** live cells grow Old after three steps, and an Old cell dies.
- **Rule-based:** birth and survival counts are read from a string such as `B3/S23`.
- **Custom:** three species R, G and B compete. A cell next to two tied
  species is born as their hybrid, named by the least common multiple of
  the state codes.

The grid is a torus. Every cell sees eight neighbours, with the edges
wrapping round. One generation runs in two phases: every cell stages its
next state from the committed states around it, then every cell commits.
The grid also seeds cells from a list of coordinates and resets every cell
to Dead.

The model is functional. A cell is a record holding:

- its committed state;
- its staged state;
- its age. The Basic and rule-based cells carry the age but never change it.

A grid is a sequence of rows of cells. Neighbours are found by index
instead of by pointer. A failure of `vector::at` becomes an `Err` value.

Modules:

- `Outcomes`: `Option` and `Result`.
- `CellStates`: the states and their integer codes.
- `Euclid`: gcd and lcm. The engine's loop is proved against Euclid's recurrence.
- `RuleStrings`: the rule-string guard, the parser, and the canonical spelling.
- `Cells`: the cell record and the Basic, Aging and rule-based steps.
- `Multispecies`: the Custom step, `maxDict`, and hybrids.
- `Torus`: the neighbour wiring.
- `Grids`: construction, lookup, seeding, the generation, reset, and
  invariants across a whole grid.

Behaviours of the engine that the model keeps on purpose:

- A configuration with zero or negative rows or columns builds an empty grid. Nothing rejects it.
- In the Custom variant, a cell that is not live and has three or more
  species tied at 2 or 3 leaves its staged state unassigned. It keeps
  whatever the previous step left there; it is not set to "no birth".
  `Multispecies.StaleRevival` shows a reset cell coming back as R this way.
- `setState` keeps the staged state and the age in every variant, so a
  reset does not clear them.
- Seeding a position outside the grid fails at the first such seed, as
  `vector::at` throws there. The seeds before it have already been applied;
  the model returns the error in place of the partly-seeded grid.

## Model

| member | source | states |
|---|---|---|
| CellStates.Code | game.h:23-35 | The codes are 0 to 60, and only Dead, Alive and Old have codes up to 2 |
| CellStates.FromCode | game.h:273 | Casting an integer back to a state gives the state with that code, or none exists |
| CellStates.CodeRoundTrip | game.h:23-35 | Distinct states have distinct codes, and casting the code back recovers the state |
| Euclid.LcmLoop | game.h:291-303 | The swap-and-reduce loop returns the lcm computed from Euclid's recurrence, positive and a multiple of both operands |
| Euclid.Lcm | game.h:302 | The product divided by the gcd is positive and a multiple of both operands |
| Euclid.GcdDivides | game.h:293-301 | The gcd that survives the loop is positive and divides both operands |
| RuleStrings.IndexOf | game.h:172-173 | `find` gives the first occurrence, or the length when there is none |
| RuleStrings.ParseRule | game.h:170-177 | Birth count k is the value of the character k+1 places after 'B', for every character before the one two ahead of the first 'S'; survival count k is the value of the character k+1 places after that 'S', for every character to the end |
| RuleStrings.CheckRule | main.cpp:32-38 | A rule is accepted exactly when it starts with 'B' and contains "/S"; otherwise the error names the string |
| RuleStrings.CheckFormatted | main.cpp:34 | The guard accepts the canonical spelling of every rule with single-digit counts and gives back exactly that rule |
| RuleStrings.FormatRule | main.cpp:34 | The canonical spelling of any rule with single-digit counts passes the guard |
| RuleStrings.ParseFormat | game.h:170-177 | Parsing the canonical spelling of a rule gives the same rule back |
| RuleStrings.FormatParse | game.h:170-177 | A canonical rule string is reproduced by parsing it and spelling the result |
| RuleStrings.ConwayString | game.h:170-177 | "B3/S23" passes the guard and parses to birth [3], survival [2, 3] |
| Cells.CountIf | game.h:87-91 | The live-neighbour count never exceeds the number of neighbours |
| Cells.BasicAlive | game.h:80-83 | A Basic cell is live exactly when its code is 1 |
| Cells.AgingAlive | game.h:121-124 | An Aging cell is live exactly when its code is 1 or 2 |
| Cells.SetState | game.h:65 | Only the committed state changes; the staged state and age are kept |
| Cells.Commit | game.h:64 | The staged state becomes committed; nothing else changes |
| Cells.BasicNext | game.h:86-96 | Each branch of Conway's rule, and: staged Alive iff 3 live neighbours, or 2 and the cell is Alive |
| Cells.AgingNext | game.h:134-154 | Live iff it survives on 2-3 or is born on 3; Old dies; staged Old iff live at age 3; Dead resets the age; the three Aging states are kept |
| Cells.RuleNext | game.h:180-189 | Staged Alive iff the live count is in survive for an Alive cell or in birth for any other; otherwise Dead or unchanged |
| Cells.RuleBasicAgreement | game.h:180-189 | A rule drives every cell exactly as Conway's rule iff it lists 3 for birth and 2, 3 for survival among 0..8 |
| Cells.ConwayRuleIsBasic | game.h:170-189 | The rule parsed from "B3/S23" passes the guard, agrees with Conway's rule on every count, and steps every cell exactly as the Basic cell does |
| Multispecies.IsAlive | game.h:221-224 | A Custom cell is live exactly when its code is at least 2 |
| Multispecies.Producible | game.h:233-236 | A cell is a species exactly when its code is at least 3 |
| Multispecies.Tally | game.h:240-250 | One entry per species key in map order, each a count between 0 and the neighbour count |
| Multispecies.MaxAmount | game.h:283-285 | The maximum bounds every value and, when positive, is attained |
| Multispecies.KeysAt | game.h:286 | Exactly the keys carrying the given value; their order is stated by `Multispecies.KeysAtAscending` |
| Multispecies.KeysAtAscending | game.h:286 | Keys visited in ascending order are collected in ascending order |
| Multispecies.MaxDict | game.h:282-288 | The largest tally and, ascending and non-empty, exactly the keys that reach it |
| Multispecies.TiedStatesProducible | game.h:251-252 | The tied states are distinct species in ascending code order |
| Multispecies.Hybrid | game.h:273 | The hybrid is a species whose code is the lcm of the two codes and a multiple of each, made of the species of both |
| Multispecies.HybridCodeClosed | game.h:27-33 | The lcm of two distinct species codes is again a code, naming the union of their species |
| Multispecies.LcmOfCodes | game.h:291-303 | The lcm of every pair of species codes |
| Multispecies.HybridSymmetric | game.h:273 | The hybrid does not depend on which tied state comes first |
| Multispecies.CustomNext | game.h:239-279 | Survival, Old at age 3, death of Old, birth into the single top state or into the species state made of the two tied ones, the stale staged state on larger ties, age resets; the Custom states are kept |
| Multispecies.TallyFacts | game.h:248-252 | The maximum is the count of a species no other outnumbers, and the tied keys are exactly the species with that count |
| Multispecies.CustomSurvival | game.h:253-265 | A species cell lives on iff 2 to 4 neighbours share its state and no species has more |
| Multispecies.CustomBirthNeedsTop | game.h:269-277 | A cell that is not live changes only if a top species counts 2 or 3 |
| Multispecies.CustomBirthUnique | game.h:271-272 | A unique top species counting 2 or 3 is copied |
| Multispecies.CustomBirthHybrid | game.h:271-273 | Two top species tied at 2 or 3 give birth to the state made of both |
| Multispecies.CustomBirthStale | game.h:271-276 | Three species tied at the top at 2 or 3 leave the staged state untouched |
| Multispecies.HybridBirthExample | game.h:271-274 | Two R and two G neighbours give birth to R-and-G |
| Multispecies.UniqueBirthExample | game.h:271-272 | Three R neighbours give birth to R |
| Multispecies.StaleRevival | game.h:271-276 | A reset cell still staging R comes back as R on a three-way tie |
| Torus.Neighbour | game.h:384-400 | The if-based wrap stays in the grid and equals stepping modulo the grid size |
| Torus.Wraps | game.h:385-392 | Each if-based wrap is a step of -1 or +1 taken modulo the axis length |
| Torus.Neighbours | game.h:384-410 | Eight cells inside the grid, the k-th one step along the k-th offset modulo the grid size; they are eight distinct cells other than the cell itself iff the grid has at least three rows and three columns |
| Torus.CornerWraps | game.h:389-393 | The top-left cell's first neighbour is the bottom-right cell |
| Torus.NeighbourSymmetric | game.h:385-400 | If B is A's k-th neighbour, A is B's (7-k)-th |
| Torus.SeparatedIffWide | game.h:404-411 | The eight neighbours are distinct and exclude the cell iff rows and columns are at least 3 |
| Grids.NewGrid | game.h:368-419 | The dimensions are clamped at zero, every cell is fresh, each game mode builds its own cell class, and a rule-based grid carries the parsed rule |
| Grids.IsAlive | game.h:62 | The virtual `isAlive` (overridden at game.h:80-83, 121-124 and 221-224): Dead is never live, Alive is live in every class but Custom, Old only in Aging and Custom |
| Grids.GetCell | game.h:352 | The cell is returned iff the position is in range, else an out-of-range error |
| Grids.GetAfterSet | game.h:352 | After one seed, the seeded position reads as the seeded cell and every other position reads as before |
| Grids.NeighbourStates | game.h:404-411 | The committed states of the eight neighbours, found by wrapping modulo the grid size |
| Grids.ComputeNext | game.h:66 | Computing a step never changes the committed state |
| Grids.ComputePhase | game.h:439 | Every cell stages its variant's step from the pre-step neighbourhood; committed states are unchanged |
| Grids.CommitPhase | game.h:440 | Every cell commits its staged state |
| Grids.UpdateCells | game.h:438-441 | Each cell's new state is its variant's rule applied to the pre-step grid |
| Grids.UpdateIsLocal | game.h:438-441 | A cell's outcome depends only on itself and its neighbours' states |
| Grids.BasicGeneration | game.h:86-96 | On a Basic grid a cell is alive after a step iff 3 wrapped neighbours were, or 2 and it was |
| Grids.ComputeAt | game.h:439 | An in-place step of one cell changes that cell alone |
| Grids.ComputeInOrder | game.h:439 | Stepping cells in place one by one never changes a committed state |
| Grids.InPlaceCell | game.h:439 | At any one cell, stepping distinct cells in place in any order matches the two-phase result if the cell was visited and leaves it unchanged otherwise |
| Grids.InPlacePhase | game.h:439 | Stepping distinct cells in place, in any order, matches the two-phase result on the visited cells and leaves the others alone |
| Grids.OrderIrrelevant | game.h:438-441 | Any order that visits each cell once gives the same staged grid |
| Grids.RowMajor | game.h:439 | The engine's loop order covers every cell once and stays in the grid |
| Grids.SourceOrderIsPhase | game.h:439 | The engine's row-major loop gives the two-phase result |
| Grids.SetCell | game.h:433 | One cell's committed state changes; every other cell is untouched |
| Grids.ReadAfterSeeding | game.h:432-435 | After in-range seeding, reading a position gives the state of the last seed naming it, or the cell as it was; a position outside still raises |
| Grids.InitializeCells | game.h:432-435 | Ok iff every seed is in range; the error names the first bad seed; each cell takes its last seed's state, or is unchanged |
| Grids.ResetCells | game.h:444-448 | Every committed state becomes Dead; staged states and ages are kept |
| Grids.ResetKillsAll | game.h:444-448 | No cell is live after a reset in any variant, and resetting twice equals resetting once |
| Grids.ResetThenUpdate | game.h:444-448 | A reset grid stays dead for one generation iff it is not a rule-based grid with 0 as a birth count |
| Grids.StepKeepsDomain | game.h:134-154 | One cell's step keeps the state set of its variant |
| Grids.GenerationKeepsDomain | game.h:438-441 | A generation keeps Basic and rule-based grids in {Dead, Alive}, Aging grids in {Dead, Alive, Old}, and Custom grids in their states |
| Grids.ConwayStepLikeBasic | game.h:438-441 | One generation of a rule-based grid whose rule agrees with Conway's gives the same cells as the Basic grid |
| Grids.ConwayRunsLikeBasic | game.h:180-189 | A rule-based grid whose rule agrees with Conway's, such as "B3/S23", evolves exactly like the same grid in Basic mode for any number of generations |

## Left out

- The game manager, the window, drawing, colours and pixel geometry: these are presentation only, and a colour never feeds back into a state.
- Reading the configuration file (main.cpp): file and console I/O. Its conversion of the file's 1-based seed positions to 0-based ones (main.cpp:45) is not modelled; seeds here are 0-based.
- The destructor and the dynamic allocation of cells and neighbour arrays: memory management has no counterpart in a value model.
- Casting an integer that no enumerator carries to a state: `CellStates.FromCode` returns None there. Within the engine only codes of species hybrids are cast, and `Multispecies.HybridCodeClosed` proves those are always named.
- Grids.CellCoord: a seed carries one of the ten named states. The configuration reader casts any integer in the file to a state (main.cpp:45), and `setState` stores it (game.h:433). Such an unnamed code is never live, and a cell holding it stages its own state again unless a birth applies or, in the Custom variant, a tie of three or more leaves the previous staged state. The model has no value for it.
- RuleStrings.ParseRule: the rule string is a sequence of Unicode characters, while the engine's is a byte string. A rule with non-ASCII characters is split into different characters, so its lists differ. Rules written in ASCII, which is all the guard's format describes, parse the same.
- Multispecies.CustomNext: the Custom cell's age (game.h:204, 255) is an unbounded integer rather than a 32-bit `int`, for the same reason as in `Cells.AgingNext`.
- Euclid.Lcm: states divisibility and positivity but not that no smaller common multiple exists. Only the values at species codes are used, and `Multispecies.LcmOfCodes` pins those down.
- Cells.AgingNext: ages are unbounded integers rather than 32-bit `int`. An age grows by one per generation, so wrap-around would need more than two billion generations.
- Grids.Run: states only that the grid keeps its shape. What a number of generations yields is stated for grids whose rule agrees with Conway's by `Grids.ConwayRunsLikeBasic`.
- Concrete pattern scenarios (blinker, glider) on a small grid are not proved. The per-cell rules and `Grids.UpdateCells` determine them, but unfolding whole grids literally is beyond what the verifier handles cheaply.
- Grids.InitializeCells: on an out-of-range seed the engine has already applied the seeds before it when the exception propagates. The model reports the error and does not return that partly-seeded grid.
