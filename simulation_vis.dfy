/**
 * The two simulators of src/components/visualizations/simulation-vis.tsx:
 *
 * - `KimberlingVis`, a positional-deletion ("expulsion") process: at stage
 *   `k` the element at 1-based position `k` of the list is deleted, and the
 *   list is reset to `[1..15]` once that position no longer exists;
 * - `HeavyVis`, a bounded random-walk buffer that appends one jump per tick
 *   and is reset to `[0]` when it grows past 50 entries.
 *
 * As in the Kolakoski model, the updaters are pure functions, one tick is a
 * function of the committed state (`Step`, `NextWalk`), and each component
 * is a class whose `Tick` overwrites its state cells.
 */
module SimulationVis {

  // ---------------------------------------------------------------------
  // The expulsion process (KimberlingVis)
  // ---------------------------------------------------------------------

  /** Size of the population the expulsion process starts from. */
  const PopulationSize: nat := 15

  /** `[1, 2, ..., 15]`: the initial list, and the list after every reset. */
  function Population(): (r: seq<int>)
    ensures |r| == PopulationSize
    ensures forall i :: 0 <= i < |r| ==> r[i] == i + 1
  {
    seq(PopulationSize, i => i + 1)
  }

  /** The committed state of the component: its two state cells. */
  datatype Expulsion = Expulsion(nums: seq<int>, stage: int)

  /** `r` is `a` with exactly its element at index `k` removed, the others in their order. */
  ghost predicate DeletesAt(a: seq<int>, r: seq<int>, k: int) {
    && 0 <= k < |a|
    && |r| == |a| - 1
    && (forall i :: 0 <= i < k ==> r[i] == a[i])
    && (forall i :: k <= i < |r| ==> r[i] == a[i + 1])
  }

  /** Strictly increasing. */
  ghost predicate Increasing(s: seq<int>) {
    forall i, j :: 0 <= i < j < |s| ==> s[i] < s[j]
  }

  /** Every element lies in `1..15`. */
  ghost predicate InPopulation(s: seq<int>) {
    forall i :: 0 <= i < |s| ==> 1 <= s[i] <= PopulationSize
  }

  /**
   * The index at which `splice(start, 1)` deletes, as ECMAScript's
   * `Array.prototype.splice` computes it: a negative start counts from the
   * end (and stops at 0), a start past the end is clamped to the length.
   */
  function SpliceStart(length: nat, start: int): (k: nat)
    ensures k <= length
  {
    if start < 0 then (if length + start < 0 then 0 else length + start)
    else if start > length then length
    else start
  }

  /** The array left behind by `a.splice(start, 1)`. */
  function SpliceOne(a: seq<int>, start: int): (r: seq<int>)
    ensures 0 <= start < |a| ==> DeletesAt(a, r, start)
    ensures start >= |a| ==> r == a
    ensures -|a| <= start < 0 ==> DeletesAt(a, r, |a| + start)
    ensures start < -|a| && |a| > 0 ==> DeletesAt(a, r, 0)
  {
    var k := SpliceStart(|a|, start);
    if k < |a| then a[..k] + a[k + 1..] else a
  }

  /** The next deletion position does not exist: the process must start over. */
  predicate ResetDue(nums: seq<int>, stage: int) {
    |nums| < 2 || stage > |nums|
  }

  /**
   * The `nums` updater: reset to the population when the next deletion is
   * undefined, otherwise delete the element at 1-based position `stage`.
   */
  function NextNums(current: seq<int>, stage: int): (r: seq<int>)
    ensures ResetDue(current, stage) ==> r == Population()
    ensures !ResetDue(current, stage) ==> |r| == |current| - 1
    ensures !ResetDue(current, stage) && stage >= 1 ==> DeletesAt(current, r, stage - 1)
  {
    if ResetDue(current, stage) then Population()
    else
      // The guard of the source; it holds whenever no reset is due.
      if stage - 1 < |current| then SpliceOne(current, stage - 1) else current
  }

  /** The functional `stage` updater; `committedLength` is the length of `nums` its closure saw. */
  function StageUpdater(committedLength: nat, s: int): int {
    if committedLength < 2 then 1 else s + 1
  }

  /**
   * The stage after a tick. On a reset the updater of `nums` also requests
   * `stage := 1`; `resetFirst` says whether the framework applies that
   * request before the functional updater (which then sees 1) or after it.
   */
  function NextStage(committed: seq<int>, stage: int, resetFirst: bool): (s: int)
    ensures !ResetDue(committed, stage) ==> s == stage + 1
    ensures ResetDue(committed, stage) ==> (s == 2 <==> resetFirst && |committed| >= 2)
    ensures ResetDue(committed, stage) ==> (s == 1 <==> !resetFirst || |committed| < 2)
  {
    if ResetDue(committed, stage) then
      if resetFirst then StageUpdater(|committed|, 1) else 1
    else
      StageUpdater(|committed|, stage)
  }

  /** One interval tick of the stepping effect, applied to the committed state. */
  function Step(st: Expulsion, resetFirst: bool): (r: Expulsion)
    ensures !ResetDue(st.nums, st.stage) ==> |r.nums| == |st.nums| - 1 && r.stage == st.stage + 1
    ensures ResetDue(st.nums, st.stage) ==> r.nums == Population() && 1 <= r.stage <= 2
  {
    Expulsion(NextNums(st.nums, st.stage), NextStage(st.nums, st.stage, resetFirst))
  }

  /** The state after the ticks whose update orders are `orders`, from `[1..15]` at stage 1. */
  function Run(orders: seq<bool>): (r: Expulsion)
    ensures 1 <= |r.nums| <= PopulationSize
    ensures 1 <= r.stage <= |orders| + 1
  {
    if |orders| == 0 then Expulsion(Population(), 1)
    else Step(Run(orders[..|orders| - 1]), orders[|orders| - 1])
  }

  /** The states the component can be in. */
  ghost predicate Invariant(st: Expulsion) {
    && st.stage >= 1
    && |st.nums| >= 1
    && Increasing(st.nums)
    && InPopulation(st.nums)
  }

  /** Deleting one element keeps a strictly increasing list of members of `1..15` so. */
  lemma DeletionKeepsOrder(a: seq<int>, r: seq<int>, k: int)
    requires DeletesAt(a, r, k)
    requires Increasing(a) && InPopulation(a)
    ensures Increasing(r) && InPopulation(r)
  {
    forall i, j | 0 <= i < j < |r|
      ensures r[i] < r[j]
    {
      var i', j' := if i < k then i else i + 1, if j < k then j else j + 1;
      assert r[i] == a[i'] && r[j] == a[j'];
    }
  }

  /** The population is a strictly increasing list of members of `1..15`, and does not trigger a reset at stage 1. */
  lemma PopulationInvariant()
    ensures Invariant(Expulsion(Population(), 1))
    ensures !ResetDue(Population(), 1)
  {
  }

  /**
   * Every tick keeps the list a strictly increasing selection of `1..15`
   * and the stage positive, whatever order the framework picks; the
   * deletion then removes exactly the element at 1-based position `stage`.
   */
  lemma StepPreservesInvariant(st: Expulsion, resetFirst: bool)
    requires Invariant(st)
    ensures Invariant(Step(st, resetFirst))
    ensures !ResetDue(st.nums, st.stage) ==> DeletesAt(st.nums, Step(st, resetFirst).nums, st.stage - 1)
  {
    if ResetDue(st.nums, st.stage) {
      PopulationInvariant();
    } else {
      DeletionKeepsOrder(st.nums, Step(st, resetFirst).nums, st.stage - 1);
    }
  }

  /** Every state reachable from the initial one satisfies the invariant. */
  lemma {:induction false} RunInvariant(orders: seq<bool>)
    ensures Invariant(Run(orders))
  {
    if |orders| == 0 {
      PopulationInvariant();
    } else {
      RunInvariant(orders[..|orders| - 1]);
      StepPreservesInvariant(Run(orders[..|orders| - 1]), orders[|orders| - 1]);
    }
  }

  /** The first two ticks: stage 1 deletes 1, stage 2 then deletes 3. */
  lemma FirstTwoTicks(b1: bool, b2: bool)
    ensures Step(Expulsion(Population(), 1), b1) == Expulsion(seq(14, i => i + 2), 2)
    ensures Step(Step(Expulsion(Population(), 1), b1), b2) == Expulsion([2] + seq(12, i => i + 4), 3)
  {
    var p := Population();
    var one := Step(Expulsion(p, 1), b1);
    assert !ResetDue(p, 1) && one.stage == 2;
    assert DeletesAt(p, one.nums, 0);
    assert one.nums == seq(14, i => i + 2) by {
      forall i | 0 <= i < 14 ensures one.nums[i] == i + 2 {
        assert one.nums[i] == p[i + 1];
      }
    }
    var two := Step(one, b2);
    assert !ResetDue(one.nums, 2) && two.stage == 3;
    assert DeletesAt(one.nums, two.nums, 1);
    assert two.nums == [2] + seq(12, i => i + 4) by {
      forall i | 0 <= i < 13 ensures two.nums[i] == ([2] + seq(12, i => i + 4))[i] {
        if i > 0 {
          assert two.nums[i] == one.nums[i + 1];
        }
      }
    }
  }

  /** A one-element list is reset to the population at stage 1, whatever the update order. */
  lemma SingletonResets(x: int, stage: int, resetFirst: bool)
    ensures Step(Expulsion([x], stage), resetFirst) == Expulsion(Population(), 1)
  {
  }

  /** The first effect's updater hands back the list it was given. */
  function IdleUpdater(prev: seq<int>): seq<int> {
    prev
  }

  /** The component itself: its two state cells, overwritten on every tick. */
  class KimberlingVis {
    var nums: seq<int>
    var stage: int

    ghost predicate Valid()
      reads this
    {
      Invariant(Expulsion(nums, stage))
    }

    constructor ()
      ensures Valid()
      ensures nums == Population() && stage == 1
    {
      nums := Population();
      stage := 1;
      PopulationInvariant();
    }

    /** A tick of the first effect: its updater returns the list unchanged. */
    method IdleTick()
      requires Valid()
      modifies this
      ensures Valid()
      ensures nums == old(nums) && stage == old(stage)
    {
      nums := IdleUpdater(nums);
    }

    /**
     * A tick of the stepping effect: the list loses the element at position
     * `stage` and the stage advances, or both start over.
     */
    method Tick(resetFirst: bool)
      requires Valid()
      modifies this
      ensures Valid()
      ensures nums == NextNums(old(nums), old(stage))
      ensures stage == NextStage(old(nums), old(stage), resetFirst)
      ensures !ResetDue(old(nums), old(stage)) ==> DeletesAt(old(nums), nums, old(stage) - 1) && stage == old(stage) + 1
      ensures ResetDue(old(nums), old(stage)) ==> nums == Population() && (stage == 1 || stage == 2)
    {
      StepPreservesInvariant(Expulsion(nums, stage), resetFirst);
      var committed := nums;
      nums := NextNums(committed, stage);
      stage := NextStage(committed, stage, resetFirst);
    }
  }

  // ---------------------------------------------------------------------
  // The bounded random-walk buffer (HeavyVis)
  // ---------------------------------------------------------------------

  /** A trajectory longer than this is replaced by `[0]`. */
  const WalkCap: nat := 50

  /** A draw `r` below this makes the jump heavy. */
  const HeavyChance: real := 0.05

  /** The factor by which a heavy jump is scaled. */
  const HeavyScale: real := 15.0

  /** The two random draws of one tick, each taken in `[0, 1)`. */
  datatype Draw = Draw(r: real, u: real)

  /** The jump of one tick: `u` spread over `[-1, 1)`, scaled by 15 when `r` is below 0.05. */
  function Jump(r: real, u: real): (j: real)
    ensures 0.0 <= u < 1.0 && r < HeavyChance ==> -HeavyScale <= j < HeavyScale
    ensures 0.0 <= u < 1.0 && r >= HeavyChance ==> -1.0 <= j < 1.0
  {
    var base := (u - 0.5) * 2.0;
    if r < HeavyChance then base * HeavyScale else base
  }

  /**
   * The `data` updater: append the last level plus the jump, or start over
   * from `[0]` when the trajectory would exceed 50 entries.
   */
  function NextWalk(prev: seq<real>, r: real, u: real): (d: seq<real>)
    requires |prev| > 0
    ensures |prev| >= WalkCap ==> d == [0.0]
    ensures |prev| < WalkCap ==>
      && |d| == |prev| + 1
      && d[..|prev|] == prev
      && d[|prev|] == prev[|prev| - 1] + Jump(r, u)
  {
    var next := prev + [prev[|prev| - 1] + Jump(r, u)];
    if |next| > WalkCap then [0.0] else next
  }

  /** The trajectory after the ticks whose draws are `draws`, from `[0]`. */
  function Walk(draws: seq<Draw>): (d: seq<real>)
    ensures |d| > 0
  {
    if |draws| == 0 then [0.0]
    else
      var last := draws[|draws| - 1];
      NextWalk(Walk(draws[..|draws| - 1]), last.r, last.u)
  }

  /** The trajectories the component can hold: never empty, starting at 0, at most 50 entries. */
  ghost predicate WalkInvariant(d: seq<real>) {
    1 <= |d| <= WalkCap && d[0] == 0.0
  }

  /** Every tick keeps the invariant, whatever the draws. */
  lemma NextWalkPreservesInvariant(prev: seq<real>, r: real, u: real)
    requires WalkInvariant(prev)
    ensures WalkInvariant(NextWalk(prev, r, u))
    ensures |NextWalk(prev, r, u)| == if |prev| == WalkCap then 1 else |prev| + 1
  {
    if |prev| < WalkCap {
      assert NextWalk(prev, r, u)[0] == NextWalk(prev, r, u)[..|prev|][0];
    }
  }

  /**
   * Whatever the draws, after `n` ticks the trajectory holds `n % 50 + 1`
   * entries: it fills up to 50 and then starts over from `[0]`.
   */
  lemma {:induction false} WalkLengthCycles(draws: seq<Draw>)
    ensures WalkInvariant(Walk(draws))
    ensures |Walk(draws)| == |draws| % WalkCap + 1
  {
    if |draws| > 0 {
      var prefix := draws[..|draws| - 1];
      var last := draws[|draws| - 1];
      WalkLengthCycles(prefix);
      NextWalkPreservesInvariant(Walk(prefix), last.r, last.u);
    }
  }

  /** With draws 0.9 and 0.5 the jump is zero, so `[10]` becomes `[10, 10]`. */
  lemma ZeroJumpExample()
    ensures NextWalk([10.0], 0.9, 0.5) == [10.0, 10.0]
  {
  }

  /** The component itself: its trajectory cell, overwritten on every tick. */
  class HeavyVis {
    var data: seq<real>

    ghost predicate Valid()
      reads this
    {
      WalkInvariant(data)
    }

    constructor ()
      ensures Valid() && data == [0.0]
    {
      data := [0.0];
    }

    /** One interval tick, with the two draws passed in. */
    method Tick(r: real, u: real)
      requires Valid()
      modifies this
      ensures Valid()
      ensures data == NextWalk(old(data), r, u)
      ensures |old(data)| < WalkCap ==> data[..|old(data)|] == old(data) && |data| == |old(data)| + 1
      ensures |old(data)| == WalkCap ==> data == [0.0]
    {
      NextWalkPreservesInvariant(data, r, u);
      data := NextWalk(data, r, u);
    }
  }
}
