/**
 * The `KolakoskiVis` component of src/components/visualizations/math-vis.tsx:
 * a self-reading generator of the Kolakoski sequence over {1, 2} that is
 * advanced once per interval tick and cut back to its seed when it grows
 * past a display cap.
 *
 * The two per-tick updaters are pure (`NextSequence`, `NextPointer`); one
 * tick applies both to the committed state (`Step`), and the component
 * itself is the class `KolakoskiVis`, whose `Tick` overwrites its two state
 * cells. The lemmas describe every state reachable from the seed (`Run`).
 */
module MathVis {

  /** The sequence the component starts from. */
  const Seed: seq<nat> := [1, 2, 2]
  /** The read pointer the component starts from, and the value of a pointer reset. */
  const SeedPointer: nat := 2
  /** A sequence longer than this is replaced by `Seed`. */
  const Cap: nat := 25

  /** The first 29 terms of the Kolakoski sequence, as the repository's article lists them. */
  const Listed: seq<nat> := [1, 2, 2, 1, 1, 2, 1, 2, 2, 1, 2, 2, 1, 1, 2, 1, 1, 2, 2, 1, 2, 1, 1, 2, 1, 2, 2, 1, 1]

  /** The committed state of the component: its two state cells. */
  datatype Kolakoski = Kolakoski(sequence: seq<nat>, pointer: nat)

  /** Every element is 1 or 2. */
  predicate IsSymbols(s: seq<nat>) {
    forall i :: 0 <= i < |s| ==> s[i] == 1 || s[i] == 2
  }

  /** The symbol appended after `last`: 2 after a 1, and 1 after anything else. */
  function Opposite(last: nat): (v: nat)
    ensures v == 1 || v == 2
    ensures (last == 1 || last == 2) ==> v != last
  {
    if last == 1 then 2 else 1
  }

  /** `n` copies of `v` (the array built by `Array(n).fill(v)`). */
  function Repeat(v: nat, n: nat): (r: seq<nat>)
    ensures |r| == n
    ensures forall i :: 0 <= i < n ==> r[i] == v
  {
    seq(n, _ => v)
  }

  /**
   * The sequence updater: append `prev[pointer]` copies of the symbol
   * opposite to the last one, unless the pointer is out of range; a result
   * longer than `Cap` is replaced by the seed.
   */
  function NextSequence(prev: seq<nat>, pointer: nat): (r: seq<nat>)
    ensures pointer >= |prev| ==> r == prev
    ensures pointer < |prev| && |prev| + prev[pointer] > Cap ==> r == Seed
    ensures pointer < |prev| && |prev| + prev[pointer] <= Cap ==>
      && |r| == |prev| + prev[pointer]
      && r[..|prev|] == prev
      && forall i :: |prev| <= i < |r| ==> r[i] == Opposite(prev[|prev| - 1])
    ensures |prev| <= Cap ==> |r| <= Cap
  {
    if pointer >= |prev| then prev
    else
      var nextSeq := prev + Repeat(Opposite(prev[|prev| - 1]), prev[pointer]);
      if |nextSeq| > Cap then Seed else nextSeq
  }

  /**
   * The pointer updater: `committedLength` is the length of the sequence
   * the tick's closure saw, `prev` the latest pointer.
   */
  function NextPointer(committedLength: nat, prev: nat): (p: nat)
    ensures committedLength <= Cap ==> p == prev + 1
    ensures committedLength > Cap ==> p == SeedPointer
  {
    if committedLength > Cap then SeedPointer else prev + 1
  }

  /** One interval tick: both updaters applied to the committed state. */
  function Step(st: Kolakoski): (r: Kolakoski)
    ensures st.pointer >= |st.sequence| ==> r.sequence == st.sequence
    ensures |st.sequence| <= Cap ==> |r.sequence| <= Cap && r.pointer == st.pointer + 1
  {
    Kolakoski(NextSequence(st.sequence, st.pointer), NextPointer(|st.sequence|, st.pointer))
  }

  /** The state after `n` ticks from the seed: never over the cap, pointer `2 + n`. */
  function Run(n: nat): (r: Kolakoski)
    ensures |r.sequence| <= Cap
    ensures r.pointer == SeedPointer + n
  {
    if n == 0 then Kolakoski(Seed, SeedPointer) else Step(Run(n - 1))
  }

  /** The symbol of the `i`-th run of a Kolakoski word: runs alternate 1, 2, 1, 2, ... */
  function RunSymbol(i: nat): nat {
    if i % 2 == 0 then 1 else 2
  }

  /**
   * The word whose first `n` runs have the lengths `s[0], ..., s[n-1]`:
   * the run-length decoding of the first `n` terms of `s`.
   */
  ghost function Expand(s: seq<nat>, n: nat): seq<nat>
    requires n <= |s|
  {
    if n == 0 then [] else Expand(s, n - 1) + Repeat(RunSymbol(n - 1), s[n - 1])
  }

  /** `s` is the run-length decoding of its own first `p` terms. */
  ghost predicate SelfDescribing(s: seq<nat>, p: nat) {
    p <= |s| && s == Expand(s, p)
  }

  /** A state before the first overflow: the generator is still reading its own output. */
  ghost predicate BeforeOverflow(st: Kolakoski) {
    && SeedPointer <= st.pointer < |st.sequence| <= Cap
    && st.sequence[..3] == Seed
    && SelfDescribing(st.sequence, st.pointer)
  }

  /** A state after an overflow: the seed with a pointer past its end. */
  ghost predicate AfterOverflow(st: Kolakoski) {
    st.sequence == Seed && st.pointer >= |Seed|
  }

  /** The states the component can be in. */
  ghost predicate Invariant(st: Kolakoski) {
    BeforeOverflow(st) || AfterOverflow(st)
  }

  /** `Expand` reads only the first `n` terms of its argument. */
  lemma {:induction false} ExpandReadsPrefix(s: seq<nat>, t: seq<nat>, n: nat)
    requires n <= |s| && n <= |t| && s[..n] == t[..n]
    ensures Expand(s, n) == Expand(t, n)
  {
    if n > 0 {
      assert s[n - 1] == s[..n][n - 1] == t[..n][n - 1] == t[n - 1];
      ExpandReadsPrefix(s, t, n - 1);
    }
  }

  /** A decoded word uses only the symbols 1 and 2, and ends with the symbol of its last non-empty run. */
  lemma {:induction false} ExpandSymbols(s: seq<nat>, n: nat)
    requires n <= |s|
    ensures IsSymbols(Expand(s, n))
    ensures n > 0 && s[n - 1] > 0 ==> |Expand(s, n)| > 0 && Expand(s, n)[|Expand(s, n)| - 1] == RunSymbol(n - 1)
  {
    if n > 0 {
      ExpandSymbols(s, n - 1);
    }
  }

  /** Decoding fewer terms gives a prefix. */
  lemma {:induction false} ExpandExtends(s: seq<nat>, m: nat, n: nat)
    requires m <= n <= |s|
    ensures |Expand(s, m)| <= |Expand(s, n)|
    ensures Expand(s, m) == Expand(s, n)[..|Expand(s, m)|]
  {
    if m < n {
      ExpandExtends(s, m, n - 1);
    }
  }

  /** A self-describing word holds only 1s and 2s and ends with the symbol of its last decoded run. */
  lemma SelfDescribingEnds(s: seq<nat>, p: nat)
    requires 1 <= p && SelfDescribing(s, p)
    ensures IsSymbols(s)
    ensures |s| > 0 && s[|s| - 1] == RunSymbol(p - 1)
  {
    ExpandSymbols(s, p);
  }

  /** Appending the run that the next unread term describes keeps a word self-describing. */
  lemma SelfDescribingGrows(s: seq<nat>, p: nat)
    requires p < |s| && SelfDescribing(s, p)
    ensures SelfDescribing(s + Repeat(RunSymbol(p), s[p]), p + 1)
  {
    var next := s + Repeat(RunSymbol(p), s[p]);
    assert next[..p] == s[..p];
    ExpandReadsPrefix(next, s, p);
  }

  /**
   * A tick taken before the first overflow appends exactly the next run of
   * the Kolakoski word, so the generator stays self-describing, or it
   * overflows to the seed; either way the pointer advances by one.
   */
  lemma StepBeforeOverflow(st: Kolakoski)
    requires BeforeOverflow(st)
    ensures BeforeOverflow(Step(st)) || AfterOverflow(Step(st))
    ensures Step(st).pointer == st.pointer + 1
  {
    var s, p := st.sequence, st.pointer;
    SelfDescribingEnds(s, p);
    assert Opposite(s[|s| - 1]) == RunSymbol(p);
    var next := s + Repeat(RunSymbol(p), s[p]);
    assert Step(st).sequence == if |next| > Cap then Seed else next;
    if |next| <= Cap {
      SelfDescribingGrows(s, p);
      assert next[..3] == s[..3];
    }
  }

  /** A tick taken after an overflow keeps the seed and advances the pointer. */
  lemma StepAfterOverflow(st: Kolakoski)
    requires AfterOverflow(st)
    ensures Step(st) == Kolakoski(Seed, st.pointer + 1)
    ensures AfterOverflow(Step(st))
  {
  }

  /** The seed is a state before overflow, and its first tick appends the run `[1, 1]`. */
  lemma SeedInvariant()
    ensures BeforeOverflow(Kolakoski(Seed, SeedPointer))
    ensures Step(Kolakoski(Seed, SeedPointer)) == Kolakoski([1, 2, 2, 1, 1], 3)
  {
    assert Expand(Seed, 1) == [1];
    assert Expand(Seed, 2) == [1] + [2, 2];
  }

  /** Every tick keeps the invariant and advances the pointer by exactly one. */
  lemma StepPreservesInvariant(st: Kolakoski)
    requires Invariant(st)
    ensures Invariant(Step(st))
    ensures Step(st).pointer == st.pointer + 1
  {
    if BeforeOverflow(st) {
      StepBeforeOverflow(st);
    } else {
      StepAfterOverflow(st);
    }
  }

  /** A state of the invariant respects the cap and holds only 1s and 2s. */
  lemma InvariantBounds(st: Kolakoski)
    requires Invariant(st)
    ensures |st.sequence| <= Cap && IsSymbols(st.sequence)
  {
    if BeforeOverflow(st) {
      SelfDescribingEnds(st.sequence, st.pointer);
    }
  }

  /**
   * Every state reachable from the seed: the pointer equals 2 plus the
   * number of ticks (it is never reset), the sequence holds only 1s and 2s
   * and never exceeds the cap, and either the generator is still reading
   * its own output or it is parked at the seed.
   */
  lemma {:induction false} RunInvariant(n: nat)
    ensures Run(n).pointer == SeedPointer + n
    ensures Invariant(Run(n))
    ensures |Run(n).sequence| <= Cap && IsSymbols(Run(n).sequence)
  {
    if n == 0 {
      SeedInvariant();
    } else {
      RunInvariant(n - 1);
      StepPreservesInvariant(Run(n - 1));
    }
    InvariantBounds(Run(n));
  }

  /** The pointer-reset branch is never taken: every tick advances the pointer by exactly one. */
  lemma PointerNeverResets(n: nat)
    ensures |Run(n).sequence| <= Cap
    ensures NextPointer(|Run(n).sequence|, Run(n).pointer) == Run(n).pointer + 1
    ensures Run(n + 1).pointer == Run(n).pointer + 1
  {
    RunInvariant(n);
  }

  /** Once the sequence has overflowed to the seed it stays there. */
  lemma {:induction false} StaysAtSeed(n: nat, m: nat)
    requires AfterOverflow(Run(n)) && n <= m
    ensures Run(m).sequence == Seed
    ensures AfterOverflow(Run(m))
  {
    if n < m {
      StaysAtSeed(n, m - 1);
      var st := Run(m - 1);
      StepAfterOverflow(st);
      assert Run(m) == Step(st);
    }
  }

  /** From tick 16 on the sequence is the seed for good. */
  lemma EventuallyParkedAtSeed(n: nat)
    requires n >= 16
    ensures Run(n).sequence == Seed
  {
    FillsThenParks();
    StaysAtSeed(16, n);
  }

  /** A word starting with the seed decodes its first two runs into the seed. */
  lemma SeedRuns(s: seq<nat>)
    requires |s| >= 3 && s[..3] == Seed
    ensures Expand(s, 2) == Seed
  {
    assert s[0] == Seed[0] && s[1] == Seed[1];
    assert Expand(s, 1) == [1];
  }

  /** Two self-describing words with the seed prefix decode the same first `m` runs. */
  lemma {:induction false} ExpandsAgree(s: seq<nat>, p: nat, t: seq<nat>, q: nat, m: nat)
    requires |s| >= 3 && |t| >= 3 && s[..3] == Seed && t[..3] == Seed
    requires IsSymbols(s) && IsSymbols(t)
    requires SelfDescribing(s, p) && SelfDescribing(t, q)
    requires 2 <= m <= p && m <= q
    ensures Expand(s, m) == Expand(t, m)
    ensures |Expand(s, m)| >= m + 1
  {
    if m == 2 {
      SeedRuns(s);
      SeedRuns(t);
    } else {
      ExpandsAgree(s, p, t, q, m - 1);
      var e := Expand(s, m - 1);
      ExpandExtends(s, m - 1, p);
      ExpandExtends(t, m - 1, q);
      assert s[m - 1] == e[m - 1] == t[m - 1];
    }
  }

  /**
   * The Kolakoski word is unique: of two self-describing words that start
   * with the seed, the shorter is a prefix of the longer.
   */
  lemma SelfDescribingUnique(s: seq<nat>, p: nat, t: seq<nat>, q: nat)
    requires |s| >= 3 && |t| >= 3 && s[..3] == Seed && t[..3] == Seed
    requires 2 <= p && 2 <= q
    requires SelfDescribing(s, p) && SelfDescribing(t, q)
    ensures |s| <= |t| ==> s == t[..|s|]
    ensures |t| <= |s| ==> t == s[..|t|]
  {
    ExpandSymbols(s, p);
    ExpandSymbols(t, q);
    if p <= q {
      ExpandsAgree(s, p, t, q, p);
      ExpandExtends(t, p, q);
    } else {
      ExpandsAgree(s, p, t, q, q);
      ExpandExtends(s, q, p);
    }
  }

  /** Decoding one more term appends that term's run, read here off the word itself. */
  lemma ExpandStep(s: seq<nat>, k: nat, a: nat)
    requires 1 <= k <= |s| && a + s[k - 1] <= |s|
    requires Expand(s, k - 1) == s[..a]
    requires s[k - 1] == 1 || s[k - 1] == 2
    requires s[a] == RunSymbol(k - 1)
    requires s[k - 1] == 2 ==> s[a + 1] == RunSymbol(k - 1)
    ensures Expand(s, k) == s[..a + s[k - 1]]
  {
    assert s[..a + s[k - 1]] == s[..a] + s[a..a + s[k - 1]];
  }

  /** The listed terms decode their own first 5 terms into their first 7. */
  lemma ListedRuns5()
    ensures Expand(Listed, 5) == Listed[..7]
  {
    // The run boundaries go through variables so that the solver does
    // not unfold `Expand` on literal arguments.
    var k, a := 1, 0;
    ExpandStep(Listed, k, a);
    k, a := 2, 1;
    ExpandStep(Listed, k, a);
    k, a := 3, 3;
    ExpandStep(Listed, k, a);
    k, a := 4, 5;
    ExpandStep(Listed, k, a);
    k, a := 5, 6;
    ExpandStep(Listed, k, a);
  }

  /** The listed terms decode their own first 9 terms into their first 14. */
  lemma ListedRuns9()
    requires Expand(Listed, 5) == Listed[..7]
    ensures Expand(Listed, 9) == Listed[..14]
  {
    // The run boundaries go through variables so that the solver does
    // not unfold `Expand` on literal arguments.
    var k, a := 6, 7;
    ExpandStep(Listed, k, a);
    k, a := 7, 9;
    ExpandStep(Listed, k, a);
    k, a := 8, 10;
    ExpandStep(Listed, k, a);
    k, a := 9, 12;
    ExpandStep(Listed, k, a);
  }

  /** The listed terms decode their own first 13 terms into their first 20. */
  lemma ListedRuns13()
    requires Expand(Listed, 9) == Listed[..14]
    ensures Expand(Listed, 13) == Listed[..20]
  {
    // The run boundaries go through variables so that the solver does
    // not unfold `Expand` on literal arguments.
    var k, a := 10, 14;
    ExpandStep(Listed, k, a);
    k, a := 11, 15;
    ExpandStep(Listed, k, a);
    k, a := 12, 17;
    ExpandStep(Listed, k, a);
    k, a := 13, 19;
    ExpandStep(Listed, k, a);
  }

  /** The listed terms decode their own first 17 terms into their first 25. */
  lemma ListedRuns17()
    requires Expand(Listed, 13) == Listed[..20]
    ensures Expand(Listed, 17) == Listed[..25]
  {
    // The run boundaries go through variables so that the solver does
    // not unfold `Expand` on literal arguments.
    var k, a := 14, 20;
    ExpandStep(Listed, k, a);
    k, a := 15, 21;
    ExpandStep(Listed, k, a);
    k, a := 16, 23;
    ExpandStep(Listed, k, a);
    k, a := 17, 24;
    ExpandStep(Listed, k, a);
  }

  /** The first 25 listed terms are the decoding of their own first 17 terms. */
  lemma ListedSelfDescribing()
    ensures SelfDescribing(Listed[..Cap], 17)
    ensures Listed[..Cap][..3] == Seed
  {
    ListedRuns5();
    ListedRuns9();
    ListedRuns13();
    ListedRuns17();
    ExpandReadsPrefix(Listed[..Cap], Listed, 17);
  }

  /** Every state of the invariant holds a prefix of the listed Kolakoski terms. */
  lemma InvariantIsListedPrefix(st: Kolakoski)
    requires Invariant(st)
    ensures |st.sequence| <= Cap
    ensures st.sequence == Listed[..|st.sequence|]
  {
    if BeforeOverflow(st) {
      ListedSelfDescribing();
      SelfDescribingUnique(st.sequence, st.pointer, Listed[..Cap], 17);
    }
  }

  /**
   * A self-describing state whose pointer is below 17 does not overflow:
   * the next run still fits within the cap, so the tick stays self-describing
   * and longer than the seed.
   */
  lemma NoOverflowBelowPointer17(st: Kolakoski)
    requires BeforeOverflow(st) && st.pointer < 17
    ensures BeforeOverflow(Step(st))
    ensures |Step(st).sequence| > |Seed|
  {
    var s, p := st.sequence, st.pointer;
    InvariantBounds(st);
    InvariantIsListedPrefix(st);
    ListedSelfDescribing();
    var l := Listed[..Cap];
    assert s[..p + 1] == l[..p + 1];
    ExpandReadsPrefix(s, l, p + 1);
    ExpandExtends(l, p + 1, 17);
    // |s| + s[p] is the length of the first p + 1 listed runs.
    assert Expand(s, p + 1) == s + Repeat(RunSymbol(p), s[p]);
    StepBeforeOverflow(st);
  }

  /** Up to tick 15 no tick overflows, and after tick 0 the sequence is longer than the seed. */
  lemma {:induction false} GrowsThroughTick15(n: nat)
    requires n <= 15
    ensures BeforeOverflow(Run(n))
    ensures n > 0 ==> |Run(n).sequence| > |Seed|
  {
    if n == 0 {
      SeedInvariant();
    } else {
      GrowsThroughTick15(n - 1);
      NoOverflowBelowPointer17(Run(n - 1));
    }
  }

  /**
   * A self-describing state whose pointer has reached 17 holds exactly the
   * 25 listed terms, and its tick overflows to the seed.
   */
  lemma FullAtPointer17(st: Kolakoski)
    requires BeforeOverflow(st) && st.pointer == 17
    ensures st.sequence == Listed[..Cap]
    ensures Step(st) == Kolakoski(Seed, 18)
  {
    InvariantIsListedPrefix(st);
    ListedSelfDescribing();
    var s, l, p := st.sequence, Listed[..Cap], st.pointer;
    assert s[..p] == l[..p];
    ExpandReadsPrefix(s, l, p);
    assert s == l;
    assert s[p] == 2;
  }

  /** The display fills up to the 25 listed terms at tick 15 and falls back to the seed at tick 16. */
  lemma FillsThenParks()
    ensures Run(15) == Kolakoski(Listed[..Cap], 17)
    ensures Run(16) == Kolakoski(Seed, 18)
    ensures AfterOverflow(Run(16))
  {
    var n := 15;
    GrowsThroughTick15(n);
    FullAtPointer17(Run(n));
    assert Run(n + 1) == Step(Run(n));
  }

  /** The component itself: its two state cells, overwritten on every tick. */
  class KolakoskiVis {
    var sequence: seq<nat>
    var pointer: nat
    /** The number of ticks taken since the component was created. */
    ghost var ticks: nat

    ghost predicate Valid()
      reads this
    {
      Invariant(Kolakoski(sequence, pointer)) && pointer == SeedPointer + ticks
    }

    constructor ()
      ensures Valid() && ticks == 0
      ensures sequence == Seed && pointer == SeedPointer
    {
      sequence := Seed;
      pointer := SeedPointer;
      ticks := 0;
      SeedInvariant();
    }

    /**
     * One interval tick: both updaters run against the committed state.
     * The pointer advances by one on every tick, and the sequence stays a
     * prefix of the listed Kolakoski terms no longer than the cap.
     */
    method Tick()
      requires Valid()
      modifies this
      ensures Valid() && ticks == old(ticks) + 1
      ensures sequence == NextSequence(old(sequence), old(pointer))
      ensures pointer == old(pointer) + 1
      ensures |sequence| <= Cap && IsSymbols(sequence)
      ensures sequence == Listed[..|sequence|]
    {
      ghost var committed := Kolakoski(sequence, pointer);
      StepPreservesInvariant(committed);
      InvariantBounds(Step(committed));
      InvariantIsListedPrefix(Step(committed));
      var prev := sequence;
      sequence := NextSequence(prev, pointer);
      pointer := NextPointer(|prev|, pointer);
      ticks := ticks + 1;
    }
  }
}
