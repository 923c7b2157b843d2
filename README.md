# Research-site simulators, modelled in Dafny

The research pages of this site show three small animated simulators. Each
one keeps a little state in React cells and advances it on a timer:

* **KolakoskiVis** (`MathVis`, `math_vis.dfy`) builds the Kolakoski sequence
  on screen.
  - It starts from the seed `[1, 2, 2]` with a read pointer at index 2.
  - On every tick it reads the run length at the pointer and appends a block
    of that many copies of the symbol opposite to the last one (1 ↔ 2).
  - When the sequence would grow past 25 terms, it falls back to the seed.
* **KimberlingVis** (`SimulationVis`, `simulation_vis.dfy`) shows an
  "expulsion" process.
  - It starts from the numbers 1..15 at stage 1.
  - Each tick deletes the element in position `stage` (1-based) and moves on
    to the next stage.
  - When fewer than two numbers are left, or the stage exceeds the length,
    it starts again from 1..15.
  - A first timer registered by the component only returns its state
    unchanged.
* **HeavyVis** (`SimulationVis`) draws a heavy-tailed random walk.
  - It starts at `[0]`.
  - Each tick appends `last + jump`, where `jump` is uniform in [-1, 1).
    With probability 5% the jump is scaled by 15.
  - A trajectory that would exceed 50 points is reset to `[0]`.

Each component is modelled in three layers:

1. Its state updaters are pure functions: `NextSequence`/`NextPointer`,
   `NextNums`/`NextStage` and `NextWalk`.
2. One tick is a function of the committed state (`Step`), and `Run` iterates
   ticks from the initial state. The lemmas speak about every reachable state.
3. A class holds the component's state cells as fields. Its `Tick` method
   overwrites them as one timer firing does.

### Kolakoski sequence

The main result is that every state the component ever shows is a prefix of
the terms listed on the Kolakoski page (`Listed`).

- **Self-describing words.** `Expand(s, n)` decodes the first `n` entries of
  `s` as run lengths of alternating symbols 1, 2, 1, …. A word is
  *self-describing up to `p`* when `s == Expand(s, p)`.
- **The invariant.** Until the first overflow, every reachable state is
  self-describing up to its pointer. After it, the state is parked at the
  seed.
- **Uniqueness.** `SelfDescribingUnique` shows that two self-describing words
  that start with the seed agree on their common prefix.
- **The listed terms.** `ListedSelfDescribing` shows that the listed terms
  form such a word. Together with uniqueness, this gives the prefix result.

The pointer updater has a reset branch (`sequence.length > 25`). That branch
is dead, because the committed sequence never has more than 25 terms
(`PointerNeverResets`). So the pointer is always `2 + ticks`. After the first
overflow the pointer stays past the end of `[1, 2, 2]`, and the display stays
at the seed for good (`StaysAtSeed`, `EventuallyParkedAtSeed`). The trace is
exact: no tick overflows up to tick 15, tick 15 shows the 25 listed terms, and
from tick 16 on the display is `[1, 2, 2]` (`FillsThenParks`). A reading of
the component as a generator that restarts is therefore not what the code
does. The model follows the code.

### Expulsion process

The process the code runs is plain deletion at position `stage`.
`FirstTwoTicks` computes its first two states. It is not the "shuffle"
process of OEIS A007063.

The `stage` cell is set in two places in one tick:

- a nested `setStage(1)` issued inside the `nums` updater, and
- a functional `s => nums.length < 2 ? 1 : s + 1` whose closure reads the
  committed `nums`.

The order in which the framework applies these two requests is not fixed by
the code. It is the parameter `resetFirst`. After a reset, the stage is
therefore 1 or 2 (exactly 2 when the nested request goes first and the
committed list still had two or more elements), not always 1. The model
follows the code.

The deletion guard `stage - 1 < next.length` and `splice` are modelled with
the ECMAScript semantics of `Array.prototype.splice(start, 1)`:

- a negative start counts from the end;
- a start before the beginning is clamped to 0;
- a start past the end deletes nothing.

Three one-line helpers carry no contract of their own: their behaviour is
stated by the members that use them.
- `SpliceStart` normalises the splice start; see `SpliceOne`.
- `StageUpdater` is the functional `stage` updater; see `NextStage`.
- `IdleUpdater` is the first timer's identity updater; see `KimberlingVis.IdleTick`.

### Random walk

The two `Math.random()` draws of a tick are the parameters `r` (the
black-swan test) and `u` (the jump). Values are reals.

## Model

| member | source | states |
|---|---|---|
| MathVis.Opposite | src/components/visualizations/math-vis.tsx:74-75 | the appended symbol is always 1 or 2, and differs from the last symbol whenever that is 1 or 2 |
| MathVis.Repeat | src/components/visualizations/math-vis.tsx:90 | the new block has exactly the run length many elements, each equal to the appended symbol |
| MathVis.NextSequence | src/components/visualizations/math-vis.tsx:72-97 | a stale pointer (at or past the end) leaves the sequence unchanged; a block that would exceed 25 terms yields exactly the seed [1,2,2]; otherwise the old sequence is kept as a prefix, the length grows by `prev[pointer]`, and every new term is the opposite of the old last term; the 25-term cap is never exceeded |
| MathVis.NextPointer | src/components/visualizations/math-vis.tsx:99-102 | the pointer returns to the seed pointer 2 exactly when the committed sequence is longer than 25 terms, and otherwise advances by one |
| MathVis.Step | src/components/visualizations/math-vis.tsx:71-104 | a tick with a stale pointer leaves the sequence unchanged; a tick from a sequence within the 25-term cap stays within it and advances the pointer by one |
| MathVis.Run | src/components/visualizations/math-vis.tsx:67-107 | after n ticks from the seed the sequence is within the 25-term cap and the pointer is 2 + n |
| MathVis.SeedInvariant | src/components/visualizations/math-vis.tsx:67-68 | the seed [1,2,2] with pointer 2 is self-describing, and its first tick shows [1,2,2,1,1] with pointer 3 |
| MathVis.StepBeforeOverflow | src/components/visualizations/math-vis.tsx:72-102 | from a state within 25 terms that starts with the seed and is self-describing up to its pointer, a tick yields either another such state or the seed parked with the pointer past its end; the pointer advances by one |
| MathVis.StepAfterOverflow | src/components/visualizations/math-vis.tsx:87-101 | once parked at the seed with the pointer past its end, a tick keeps [1,2,2] and only advances the pointer |
| MathVis.StepPreservesInvariant | src/components/visualizations/math-vis.tsx:72-102 | every tick preserves the reachable-state invariant (self-describing prefix or parked at seed) and advances the pointer by one |
| MathVis.InvariantBounds | src/components/visualizations/math-vis.tsx:89-94 | a state satisfying the invariant has at most 25 terms, all of them 1 or 2 |
| MathVis.RunInvariant | src/components/visualizations/math-vis.tsx:67-107 | after n ticks the pointer is 2 + n, the invariant holds, and the sequence has at most 25 terms, all 1 or 2 |
| MathVis.PointerNeverResets | src/components/visualizations/math-vis.tsx:99-102 | the pointer reset branch is never taken: the committed length never exceeds 25, so every tick advances the pointer by one |
| MathVis.StaysAtSeed | src/components/visualizations/math-vis.tsx:87-94 | once a run has overflowed to the seed, every later state shows exactly [1,2,2] |
| MathVis.EventuallyParkedAtSeed | src/components/visualizations/math-vis.tsx:87-101 | from tick 16 on, the component shows the seed [1,2,2] forever |
| MathVis.NoOverflowBelowPointer17 | src/components/visualizations/math-vis.tsx:87-96 | from a self-describing state whose pointer is below 17, the next run still fits within 25 terms: the tick stays self-describing and longer than the seed |
| MathVis.GrowsThroughTick15 | src/components/visualizations/math-vis.tsx:67-107 | no tick up to tick 15 overflows: every state up to tick 15 is self-describing, and every one after tick 0 is longer than the seed |
| MathVis.FullAtPointer17 | src/components/visualizations/math-vis.tsx:87-102 | a self-describing state with pointer 17 holds exactly the 25 listed terms, and its tick overflows to the seed with pointer 18 |
| MathVis.FillsThenParks | src/components/visualizations/math-vis.tsx:67-107 | tick 15 shows the 25 listed terms with pointer 17, and tick 16 shows the seed with pointer 18, parked for good |
| MathVis.SelfDescribingUnique | src/app/research/kolakoski/page.tsx:117 | two self-describing words of 1s and 2s starting with 1,2,2 agree on their common length: the sequence that is its own run-length encoding is unique |
| MathVis.ListedSelfDescribing | src/app/research/kolakoski/page.tsx:119 | the first 25 listed terms are the run-length decoding of their own first 17 terms and start with the seed |
| MathVis.InvariantIsListedPrefix | src/components/visualizations/math-vis.tsx:87-96 | every state satisfying the invariant is a prefix of the terms listed on the Kolakoski page |
| MathVis.KolakoskiVis.constructor | src/components/visualizations/math-vis.tsx:67-68 | the cells start as [1,2,2] and pointer 2, with the invariant established |
| MathVis.KolakoskiVis.Tick | src/components/visualizations/math-vis.tsx:71-104 | one timer firing replaces the cells by the two updaters' results; the pointer advances by one, and the shown sequence stays within 25 terms of 1s and 2s and is a prefix of the listed Kolakoski terms |
| SimulationVis.Population | src/components/visualizations/simulation-vis.tsx:9 | the initial list is 1..15 in order |
| SimulationVis.SpliceOne | src/components/visualizations/simulation-vis.tsx:46-48 | `splice(start, 1)` deletes exactly the element at `start`, or at `length + start` for a negative start, clamps a start before the beginning to 0, and deletes nothing from a start past the end |
| SimulationVis.NextNums | src/components/visualizations/simulation-vis.tsx:31-51 | a list shorter than 2 or a stage past the end resets to 1..15; otherwise exactly the element in position `stage` is deleted and the rest keep their order |
| SimulationVis.NextStage | src/components/visualizations/simulation-vis.tsx:52-55 | without a reset the stage advances by one; after a reset it is 2 exactly when the nested reset is applied first and the committed list had at least two elements, and 1 otherwise |
| SimulationVis.Step | src/components/visualizations/simulation-vis.tsx:30-56 | a tick that is not a reset shortens the list by one and advances the stage by one; a reset tick restores 1..15 with stage 1 or 2 |
| SimulationVis.Run | src/components/visualizations/simulation-vis.tsx:9-60 | every reachable list has between 1 and 15 elements, and after n ticks the stage is between 1 and n + 1 |
| SimulationVis.DeletionKeepsOrder | src/components/visualizations/simulation-vis.tsx:38-48 | deleting one element from an increasing list of numbers in 1..15 leaves an increasing list of numbers in 1..15 |
| SimulationVis.PopulationInvariant | src/components/visualizations/simulation-vis.tsx:9-10 | the initial state is non-empty, increasing and within 1..15, and its first tick is not a reset |
| SimulationVis.StepPreservesInvariant | src/components/visualizations/simulation-vis.tsx:30-56 | whatever the update order, a tick keeps the list non-empty, increasing, within 1..15 and the stage at least 1; a non-reset tick deletes exactly position `stage` |
| SimulationVis.RunInvariant | src/components/visualizations/simulation-vis.tsx:9-60 | every state reachable under any sequence of update orders satisfies that invariant |
| SimulationVis.FirstTwoTicks | src/components/visualizations/simulation-vis.tsx:30-55 | the first tick shows 2..15 at stage 2 and the second shows 2,4..15 at stage 3, whatever the update order |
| SimulationVis.SingletonResets | src/components/visualizations/simulation-vis.tsx:32-35 | a one-element list always resets to 1..15 at stage 1, whatever the stage and update order |
| SimulationVis.KimberlingVis.constructor | src/components/visualizations/simulation-vis.tsx:9-10 | the cells start as 1..15 and stage 1 |
| SimulationVis.KimberlingVis.IdleTick | src/components/visualizations/simulation-vis.tsx:12-26 | the first timer's firing changes neither cell |
| SimulationVis.KimberlingVis.Tick | src/components/visualizations/simulation-vis.tsx:29-60 | one firing of the step timer deletes position `stage` and advances the stage, or resets to 1..15 with stage 1 or 2, keeping the invariant |
| SimulationVis.Jump | src/components/visualizations/simulation-vis.tsx:98-103 | for a draw in [0,1), an ordinary jump lies in [-1,1) and a black-swan jump (r < 0.05) in [-15,15) |
| SimulationVis.NextWalk | src/components/visualizations/simulation-vis.tsx:95-108 | a 50-point trajectory resets to [0]; a shorter one is kept as a prefix and gains one point equal to the last value plus the jump |
| SimulationVis.Walk | src/components/visualizations/simulation-vis.tsx:91-108 | the trajectory is never empty |
| SimulationVis.NextWalkPreservesInvariant | src/components/visualizations/simulation-vis.tsx:91-106 | a tick keeps the trajectory between 1 and 50 points starting at 0, growing by one point or dropping back to one point at 50 |
| SimulationVis.WalkLengthCycles | src/components/visualizations/simulation-vis.tsx:91-111 | after n ticks the trajectory has n mod 50 + 1 points and starts at 0 |
| SimulationVis.ZeroJumpExample | src/components/visualizations/simulation-vis.tsx:96-105 | a tick whose jump draw is exactly 0.5 repeats the last value |
| SimulationVis.HeavyVis.constructor | src/components/visualizations/simulation-vis.tsx:91 | the trajectory starts as [0] |
| SimulationVis.HeavyVis.Tick | src/components/visualizations/simulation-vis.tsx:94-109 | one timer firing appends one point to a trajectory shorter than 50 and resets a 50-point one to [0], keeping 1 to 50 points starting at 0 |

## Left out

- Timers, periods (1200 ms, 1000 ms, 1500 ms, 100 ms), effect dependency arrays and the re-registration of intervals are not modelled. One tick is one timer firing applied to the committed state, and at most one firing happens per commit.
- React StrictMode's double invocation of updaters is not modelled, and neither is the interleaving of two firings before a re-render.
- Rendering, animation, colours and layout are left out: the markup of all three components, framer-motion and recharts.
- Math.random is not modelled: its two draws per HeavyVis tick are the parameters `r` and `u`.
- IEEE-754 double arithmetic is modelled by exact reals, so rounding in `last + jump` is not modelled.
- HeavyVis points `{ val }` are modelled as bare reals.
- The other visualisations in the same files (ZetaVis, the twin-prime visualisation), the pages, providers, the math typesetting and the project cards are not part of this model. They hold no state logic of the simulators.
- MathVis.NextSequence: run lengths are natural numbers. A negative length would make `Array(n)` throw, and fractional values are not modelled; neither can arise from the seed.
- SimulationVis.NextWalk: requires a non-empty trajectory. The source reads `prev[prev.length - 1].val` and would throw on an empty one, and no reachable trajectory is empty.
- SimulationVis.SpliceOne: a fractional `start` (which splice truncates) is not modelled, since stages are integers.
- The Kolakoski facts are proved for the 25 terms the component can show. The remaining four listed terms are carried in `Listed` but not checked against the sequence's definition.
