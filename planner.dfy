/**
 * The cash-target planner: a take/skip depth-first search with
 * branch-and-bound over a list of candidate actions (mortgage a lot, sell
 * one house) that keeps the plan of least penalty whose gains reach a cash
 * target, while checking that house sales keep a colour group even.
 */
module Planner {
  import opened Wrappers

  datatype Kind = Mortgage | SellHouse

  /** A candidate action on the lot at `index`, raising `gain` at the cost of `penalty`. */
  datatype Action = Action(kind: Kind, index: int, gain: nat, penalty: nat)

  /**
   * The board as the planner sees it: the number of houses on each lot (a
   * hotel counting as five) and the lots of each lot's colour group.
   */
  datatype Ledger = Ledger(base: int -> int, group: int -> seq<int>)

  /** The scratch state the search mutates: cash raised, lots mortgaged, house counts changed. */
  datatype Scratch = Scratch(cash: int, mortgaged: seq<int>, houses: map<int, int>)

  /** What the planner reports. */
  datatype PlanResult = NothingNeeded | Infeasible | Found(pen: int, picks: seq<Action>)

  /** `houses[idx] || base`: a missing or zero entry falls back to the board count. */
  function OrBase(h: map<int, int>, l: Ledger, idx: int): int
  {
    if idx in h && h[idx] != 0 then h[idx] else l.base(idx)
  }

  /** `houses[idx] || 0`. */
  function OrZero(h: map<int, int>, idx: int): int
  {
    if idx in h then h[idx] else 0
  }

  /** The house count the legality check reads: the scratch entry when present, else the board count. */
  function Effective(h: map<int, int>, l: Ledger, idx: int): int
  {
    if idx in h then h[idx] else l.base(idx)
  }

  /** `mortgaged.pop()`, which leaves an empty list empty. */
  function Pop(s: seq<int>): seq<int>
  {
    if |s| == 0 then s else s[..|s| - 1]
  }

  function Apply(st: Scratch, a: Action, l: Ledger): Scratch
  {
    match a.kind
    case Mortgage => Scratch(st.cash + a.gain, st.mortgaged + [a.index], st.houses)
    case SellHouse => Scratch(st.cash + a.gain, st.mortgaged, st.houses[a.index := OrBase(st.houses, l, a.index) - 1])
  }

  function Revert(st: Scratch, a: Action): Scratch
  {
    match a.kind
    case Mortgage => Scratch(st.cash - a.gain, Pop(st.mortgaged), st.houses)
    case SellHouse => Scratch(st.cash - a.gain, st.mortgaged, st.houses[a.index := OrZero(st.houses, a.index) + 1])
  }

  /**
   * Reverting an action just applied restores the cash and the mortgage
   * list exactly and every effective house count, provided the lot sold
   * does not hold an explicit zero over a non-zero board count.
   */
  lemma RevertApply(st: Scratch, a: Action, l: Ledger)
    requires a.kind == SellHouse ==> OrBase(st.houses, l, a.index) == Effective(st.houses, l, a.index)
    ensures Revert(Apply(st, a, l), a).cash == st.cash
    ensures Revert(Apply(st, a, l), a).mortgaged == st.mortgaged
    ensures forall idx :: Effective(Revert(Apply(st, a, l), a).houses, l, idx) == Effective(st.houses, l, idx)
  {
    if a.kind == Mortgage {
      assert (st.mortgaged + [a.index])[..|st.mortgaged|] == st.mortgaged;
    }
  }

  /**
   * Without that proviso the pair is not an inverse: a lot whose scratch
   * count is 0 but whose board count is 2 comes back with 2 houses.
   */
  lemma RevertApplyZeroed()
    ensures var l := Ledger(_ => 2, _ => []);
            var st := Scratch(0, [], map[7 := 0]);
            Effective(Revert(Apply(st, Action(SellHouse, 7, 10, 4), l), Action(SellHouse, 7, 10, 4)).houses, l, 7) == 2 &&
            Effective(st.houses, l, 7) == 0
  {
  }

  /** The source's sentinels: the maximum starts at -1 and the minimum at 10. */
  function Hi(x: int): int { if x > -1 then x else -1 }
  function Lo(x: int): int { if x < 10 then x else 10 }

  /** The group passes the check `max - min <= 1` over the counts `h` gives. */
  ghost predicate SpreadIn(grp: seq<int>, h: map<int, int>, l: Ledger)
  {
    forall t, u :: 0 <= t < |grp| && 0 <= u < |grp| ==> Hi(Effective(h, l, grp[t])) - Lo(Effective(h, l, grp[u])) <= 1
  }

  /** With counts between -1 and 10 the sentinels play no part: the check is pairwise evenness. */
  lemma SpreadMeansEven(grp: seq<int>, h: map<int, int>, l: Ledger)
    requires forall t :: 0 <= t < |grp| ==> -1 <= Effective(h, l, grp[t]) <= 10
    ensures SpreadIn(grp, h, l) <==>
      forall t, u :: 0 <= t < |grp| && 0 <= u < |grp| ==> Effective(h, l, grp[t]) - Effective(h, l, grp[u]) <= 1
  {
  }

  // ---------------------------------------------------------------------
  // Plans as choice vectors: c[k] says whether action k is taken.
  // ---------------------------------------------------------------------

  function Gain(f: seq<Action>, c: seq<bool>): nat
    requires |c| <= |f|
  {
    if |c| == 0 then 0 else Gain(f, c[..|c| - 1]) + (if c[|c| - 1] then f[|c| - 1].gain else 0)
  }

  function Pen(f: seq<Action>, c: seq<bool>): nat
    requires |c| <= |f|
  {
    if |c| == 0 then 0 else Pen(f, c[..|c| - 1]) + (if c[|c| - 1] then f[|c| - 1].penalty else 0)
  }

  function Picked(f: seq<Action>, c: seq<bool>): seq<Action>
    requires |c| <= |f|
  {
    if |c| == 0 then [] else Picked(f, c[..|c| - 1]) + (if c[|c| - 1] then [f[|c| - 1]] else [])
  }

  function MortgagedOf(f: seq<Action>, c: seq<bool>): seq<int>
    requires |c| <= |f|
  {
    if |c| == 0 then []
    else MortgagedOf(f, c[..|c| - 1]) + (if c[|c| - 1] && f[|c| - 1].kind == Mortgage then [f[|c| - 1].index] else [])
  }

  /** How many houses the plan sells on lot `idx`. */
  function Sold(f: seq<Action>, c: seq<bool>, idx: int): nat
    requires |c| <= |f|
  {
    if |c| == 0 then 0
    else Sold(f, c[..|c| - 1], idx) + (if c[|c| - 1] && f[|c| - 1].kind == SellHouse && f[|c| - 1].index == idx then 1 else 0)
  }

  /** The house count on lot `idx` once the plan's sales are made. */
  function CountAfter(f: seq<Action>, l: Ledger, c: seq<bool>, idx: int): int
    requires |c| <= |f|
  {
    l.base(idx) - Sold(f, c, idx)
  }

  ghost predicate SpreadOk(grp: seq<int>, f: seq<Action>, l: Ledger, c: seq<bool>)
    requires |c| <= |f|
  {
    forall t, u :: 0 <= t < |grp| && 0 <= u < |grp| ==> Hi(CountAfter(f, l, c, grp[t])) - Lo(CountAfter(f, l, c, grp[u])) <= 1
  }

  /** The last action of `c`, taken, leaves its group passing the check (mortgages always pass). */
  ghost predicate StepOk(f: seq<Action>, l: Ledger, c: seq<bool>)
    requires 0 < |c| <= |f|
  {
    f[|c| - 1].kind == Mortgage || SpreadOk(l.group(f[|c| - 1].index), f, l, c)
  }

  /** Every action the plan takes passes the check right after it is applied. */
  ghost predicate Legal(f: seq<Action>, l: Ledger, c: seq<bool>)
    requires |c| <= |f|
  {
    |c| == 0 || (Legal(f, l, c[..|c| - 1]) && (c[|c| - 1] ==> StepOk(f, l, c)))
  }

  /** A plan over all the actions that is legal and raises at least the target. */
  ghost predicate Reaches(f: seq<Action>, l: Ledger, target: int, c: seq<bool>)
  {
    |c| == |f| && Legal(f, l, c) && Gain(f, c) >= target
  }

  /** The candidate list offers at most one house sale per lot. */
  ghost predicate UniqueSales(f: seq<Action>)
  {
    forall i, j :: 0 <= i < j < |f| && f[i].kind == SellHouse && f[j].kind == SellHouse ==> f[i].index != f[j].index
  }

  /** Total gain of a list of actions. */
  function GainOf(s: seq<Action>): nat
  {
    if |s| == 0 then 0 else s[0].gain + GainOf(s[1..])
  }

  lemma {:induction false} GainOfSnoc(s: seq<Action>)
    requires |s| > 0
    ensures GainOf(s) == GainOf(s[..|s| - 1]) + s[|s| - 1].gain
  {
    if |s| > 1 {
      GainOfSnoc(s[1..]);
      assert s[1..][..|s| - 2] == s[..|s| - 1][1..];
    }
  }

  lemma {:induction false} LegalPrefix(f: seq<Action>, l: Ledger, c: seq<bool>, k: nat)
    requires k <= |c| <= |f| && Legal(f, l, c)
    decreases |c| - k
    ensures Legal(f, l, c[..k])
  {
    if k < |c| {
      LegalPrefix(f, l, c[..|c| - 1], k);
      assert c[..|c| - 1][..k] == c[..k];
    } else {
      assert c[..k] == c;
    }
  }

  /** In a legal plan, every action taken passed the check when it was applied. */
  lemma LegalTake(f: seq<Action>, l: Ledger, c: seq<bool>, k: nat)
    requires k < |c| <= |f|
    ensures Legal(f, l, c) && c[k] ==> StepOk(f, l, c[..k + 1])
  {
    if Legal(f, l, c) {
      LegalPrefix(f, l, c, k + 1);
      assert c[..k + 1][..k] == c[..k];
    }
  }

  /** Taking more actions never lowers the penalty. */
  lemma {:induction false} PenPrefix(f: seq<Action>, c: seq<bool>, k: nat)
    requires k <= |c| <= |f|
    decreases |c| - k
    ensures Pen(f, c[..k]) <= Pen(f, c)
  {
    if k < |c| {
      PenPrefix(f, c[..|c| - 1], k);
      assert c[..|c| - 1][..k] == c[..k];
    } else {
      assert c[..k] == c;
    }
  }

  /** The actions from `k` on can add at most their total gain. */
  lemma {:induction false} GainUpper(f: seq<Action>, c: seq<bool>, k: nat)
    requires k <= |c| <= |f|
    decreases |c| - k
    ensures Gain(f, c) <= Gain(f, c[..k]) + GainOf(f[k..|c|])
  {
    if k < |c| {
      GainUpper(f, c[..|c| - 1], k);
      assert c[..|c| - 1][..k] == c[..k];
      GainOfSnoc(f[k..|c|]);
      assert f[k..|c|][..|c| - k - 1] == f[k..|c| - 1];
    } else {
      assert c[..k] == c;
    }
  }

  /** A plan with positive gain takes some action. */
  lemma {:induction false} GainPicks(f: seq<Action>, c: seq<bool>)
    requires |c| <= |f| && Gain(f, c) > 0
    ensures |Picked(f, c)| > 0
  {
    if !c[|c| - 1] {
      GainPicks(f, c[..|c| - 1]);
    }
  }

  /** Appending a skipped action changes nothing about a plan. */
  lemma SkipKeeps(f: seq<Action>, l: Ledger, c: seq<bool>)
    requires |c| < |f|
    ensures (c + [false])[..|c|] == c
    ensures Gain(f, c + [false]) == Gain(f, c) && Pen(f, c + [false]) == Pen(f, c)
    ensures Picked(f, c + [false]) == Picked(f, c) && MortgagedOf(f, c + [false]) == MortgagedOf(f, c)
    ensures forall idx :: Sold(f, c + [false], idx) == Sold(f, c, idx)
    ensures Legal(f, l, c + [false]) == Legal(f, l, c)
  {
    assert (c + [false])[..|c|] == c;
  }

  /** A plan padded with skips to cover every action. */
  function Pad(f: seq<Action>, c: seq<bool>): (r: seq<bool>)
    requires |c| <= |f|
    ensures |r| == |f| && r[..|c|] == c
  {
    c + seq(|f| - |c|, _ => false)
  }

  lemma {:induction false} PadKeeps(f: seq<Action>, l: Ledger, c: seq<bool>)
    requires |c| <= |f|
    decreases |f| - |c|
    ensures Gain(f, Pad(f, c)) == Gain(f, c) && Pen(f, c) == Pen(f, Pad(f, c))
    ensures Picked(f, Pad(f, c)) == Picked(f, c) && Legal(f, l, Pad(f, c)) == Legal(f, l, c)
  {
    if |c| < |f| {
      SkipKeeps(f, l, c);
      PadKeeps(f, l, c + [false]);
      assert Pad(f, c + [false]) == Pad(f, c);
    } else {
      assert Pad(f, c) == c;
    }
  }

  /** A legal partial plan that has reached the target, padded with skips, is a complete one. */
  lemma PadReaches(f: seq<Action>, l: Ledger, target: int, c: seq<bool>)
    requires |c| <= |f| && Legal(f, l, c) && Gain(f, c) >= target
    ensures Reaches(f, l, target, Pad(f, c)) && Pen(f, Pad(f, c)) == Pen(f, c) && Picked(f, Pad(f, c)) == Picked(f, c)
  {
    PadKeeps(f, l, c);
  }

  /** No earlier action sells on the lot of a later sale. */
  lemma {:induction false} SoldNone(f: seq<Action>, c: seq<bool>, pos: nat)
    requires UniqueSales(f) && |c| <= pos < |f| && f[pos].kind == SellHouse
    ensures Sold(f, c, f[pos].index) == 0
  {
    if |c| > 0 {
      SoldNone(f, c[..|c| - 1], pos);
    }
  }

  // ---------------------------------------------------------------------
  // Coverage: every complete legal plan below a search node is at least as
  // costly as the best penalty recorded.
  // ---------------------------------------------------------------------

  /** `b` is at least as good as `prev`: Infinity (`None`) is beaten by anything. */
  predicate Improves(b: Option<int>, prev: Option<int>)
  {
    prev.None? || (b.Some? && b.value <= prev.value)
  }

  ghost predicate Covers(f: seq<Action>, l: Ledger, target: int, ch: seq<bool>, best: Option<int>)
  {
    forall c :: |ch| <= |c| == |f| && c[..|ch|] == ch && Legal(f, l, c) && Gain(f, c) >= target ==>
      best.Some? && best.value <= Pen(f, c)
  }

  lemma CoversImproves(f: seq<Action>, l: Ledger, target: int, ch: seq<bool>, best: Option<int>, better: Option<int>)
    requires Covers(f, l, target, ch, best) && Improves(better, best)
    ensures Covers(f, l, target, ch, better)
  {
  }

  /** A node that has reached the target is covered once its own penalty is recorded. */
  lemma CoversReached(f: seq<Action>, l: Ledger, target: int, ch: seq<bool>, best: Option<int>)
    requires |ch| <= |f| && Gain(f, ch) >= target && best.Some? && best.value <= Pen(f, ch)
    ensures Covers(f, l, target, ch, best)
  {
    forall c | |ch| <= |c| == |f| && c[..|ch|] == ch && Legal(f, l, c) && Gain(f, c) >= target
      ensures best.value <= Pen(f, c)
    {
      PenPrefix(f, c, |ch|);
    }
  }

  /** A node whose penalty already matches the best recorded is covered. */
  lemma CoversCostly(f: seq<Action>, l: Ledger, target: int, ch: seq<bool>, best: Option<int>)
    requires |ch| <= |f| && best.Some? && Pen(f, ch) >= best.value
    ensures Covers(f, l, target, ch, best)
  {
    forall c | |ch| <= |c| == |f| && c[..|ch|] == ch && Legal(f, l, c) && Gain(f, c) >= target
      ensures best.value <= Pen(f, c)
    {
      PenPrefix(f, c, |ch|);
    }
  }

  /** A node that cannot reach the target even taking every remaining action is covered. */
  lemma CoversHopeless(f: seq<Action>, l: Ledger, target: int, ch: seq<bool>, best: Option<int>)
    requires |ch| <= |f| && Gain(f, ch) + GainOf(f[|ch|..]) < target
    ensures Covers(f, l, target, ch, best)
  {
    forall c | |ch| <= |c| == |f| && c[..|ch|] == ch && Legal(f, l, c)
      ensures Gain(f, c) < target
    {
      GainUpper(f, c, |ch|);
      assert f[|ch|..|c|] == f[|ch|..];
    }
  }

  /** A node whose next action, taken, fails the check has no legal plan below the take branch. */
  lemma CoversIllegal(f: seq<Action>, l: Ledger, target: int, ch: seq<bool>, best: Option<int>)
    requires |ch| < |f| && !StepOk(f, l, ch + [true])
    ensures Covers(f, l, target, ch + [true], best)
  {
    var tk := ch + [true];
    forall c | |tk| <= |c| == |f| && c[..|tk|] == tk
      ensures !Legal(f, l, c)
    {
      LegalTake(f, l, c, |ch|);
    }
  }

  /** A node is covered when both of its branches are. */
  lemma CoversBranches(f: seq<Action>, l: Ledger, target: int, ch: seq<bool>, best: Option<int>)
    requires |ch| < |f| && Covers(f, l, target, ch + [true], best) && Covers(f, l, target, ch + [false], best)
    ensures Covers(f, l, target, ch, best)
  {
    forall c | |ch| <= |c| == |f| && c[..|ch|] == ch && Legal(f, l, c) && Gain(f, c) >= target
      ensures best.Some? && best.value <= Pen(f, c)
    {
      if c[|ch|] {
        assert c[..|ch| + 1] == ch + [true];
      } else {
        assert c[..|ch| + 1] == ch + [false];
      }
    }
  }

  /** Coverage of the root with no plan recorded means no plan reaches the target. */
  lemma NothingCovered(f: seq<Action>, l: Ledger, target: int)
    requires Covers(f, l, target, [], None)
    ensures forall c :: !Reaches(f, l, target, c)
  {
    forall c: seq<bool> | |c| == |f| ensures c[..0] == [] {
    }
  }

  /** A node at the end of the list that has not reached the target is covered. */
  lemma CoversEnd(f: seq<Action>, l: Ledger, target: int, ch: seq<bool>, best: Option<int>)
    requires |ch| == |f| && Gain(f, ch) < target
    ensures Covers(f, l, target, ch, best)
  {
    forall c | |ch| <= |c| == |f| && c[..|ch|] == ch
      ensures c == ch
    {
      assert c[..|ch|] == c;
    }
  }

  // ---------------------------------------------------------------------
  // The scratch state against the plan it stands for.
  // ---------------------------------------------------------------------

  /** The scratch state and pick list are what applying the plan's actions produces. */
  ghost predicate Tracks(f: seq<Action>, l: Ledger, ch: seq<bool>, st: Scratch, picks: seq<Action>)
  {
    |ch| <= |f| && picks == Picked(f, ch) && st.cash == Gain(f, ch) && st.mortgaged == MortgagedOf(f, ch) &&
    forall idx :: Effective(st.houses, l, idx) == CountAfter(f, l, ch, idx)
  }

  lemma TakeTracks(f: seq<Action>, l: Ledger, ch: seq<bool>, st: Scratch, picks: seq<Action>)
    requires UniqueSales(f) && |ch| < |f| && Tracks(f, l, ch, st, picks)
    ensures Tracks(f, l, ch + [true], Apply(st, f[|ch|], l), picks + [f[|ch|]])
  {
    var tk := ch + [true];
    var a := f[|ch|];
    assert tk[..|ch|] == ch;
    if a.kind == SellHouse {
      SoldNone(f, ch, |ch|);
      var st' := Apply(st, a, l);
      forall idx ensures Effective(st'.houses, l, idx) == CountAfter(f, l, tk, idx) {
        assert Effective(st.houses, l, idx) == CountAfter(f, l, ch, idx);
        assert Sold(f, tk, idx) == Sold(f, ch, idx) + (if idx == a.index then 1 else 0);
      }
    }
  }

  lemma UndoTracks(f: seq<Action>, l: Ledger, ch: seq<bool>, st: Scratch, picks: seq<Action>)
    requires |ch| < |f| && Tracks(f, l, ch + [true], st, picks)
    ensures Tracks(f, l, ch, Revert(st, f[|ch|]), picks[..|picks| - 1])
  {
    var tk := ch + [true];
    var a := f[|ch|];
    assert tk[..|ch|] == ch;
    assert picks == Picked(f, ch) + [a];
    assert picks[..|picks| - 1] == Picked(f, ch);
    if a.kind == Mortgage {
      assert st.mortgaged == MortgagedOf(f, ch) + [a.index];
      assert Pop(st.mortgaged) == MortgagedOf(f, ch);
    } else {
      assert Effective(st.houses, l, a.index) == CountAfter(f, l, tk, a.index);
      var st' := Revert(st, a);
      forall idx ensures Effective(st'.houses, l, idx) == CountAfter(f, l, ch, idx) {
        assert Effective(st.houses, l, idx) == CountAfter(f, l, tk, idx);
        assert Sold(f, tk, idx) == Sold(f, ch, idx) + (if idx == a.index then 1 else 0);
      }
    }
  }

  /** Read through a tracked state, the legality check is the plan's step check. */
  lemma CheckTracks(f: seq<Action>, l: Ledger, tk: seq<bool>, st: Scratch, picks: seq<Action>)
    requires 0 < |tk| && Tracks(f, l, tk, st, picks)
    ensures StepOk(f, l, tk) <==> f[|tk| - 1].kind == Mortgage || SpreadIn(l.group(f[|tk| - 1].index), st.houses, l)
  {
  }

  /**
   * Suffix sums of gain, filled by a backward loop: entry k is the total
   * gain of the actions from k on.
   */
  method PrefixGain(actions: seq<Action>) returns (pg: array<int>)
    ensures fresh(pg) && pg.Length == |actions| + 1
    ensures forall k :: 0 <= k <= |actions| ==> pg[k] == GainOf(actions[k..])
  {
    pg := new int[|actions| + 1];
    pg[|actions|] := 0;
    var k := |actions|;
    while k > 0
      invariant 0 <= k <= |actions|
      invariant forall j :: k <= j <= |actions| ==> pg[j] == GainOf(actions[j..])
    {
      k := k - 1;
      assert actions[k..][1..] == actions[k + 1..];
      pg[k] := pg[k + 1] + actions[k].gain;
    }
  }

  /** The search state: the fixed inputs, the scratch state, the current picks and the best plan so far. */
  class Search {
    const actions: seq<Action>
    const ledger: Ledger
    const target: int
    const prefixGain: array<int>
    var state: Scratch
    var picks: seq<Action>
    var bestPen: Option<int>
    var bestPicks: seq<Action>
    ghost var bestChoice: seq<bool>

    constructor(actions: seq<Action>, ledger: Ledger, target: int, prefixGain: array<int>)
      ensures this.actions == actions && this.ledger == ledger && this.target == target && this.prefixGain == prefixGain
      ensures state == Scratch(0, [], map[]) && picks == [] && bestPen == None && bestPicks == []
    {
      this.actions := actions;
      this.ledger := ledger;
      this.target := target;
      this.prefixGain := prefixGain;
      state := Scratch(0, [], map[]);
      picks := [];
      bestPen := None;
      bestPicks := [];
    }

    /** The suffix sums are right and the candidate list sells on each lot at most once. */
    ghost predicate Tables()
      reads prefixGain
    {
      prefixGain.Length == |actions| + 1 && UniqueSales(actions) &&
      forall k :: 0 <= k <= |actions| ==> prefixGain[k] == GainOf(actions[k..])
    }

    /** The best plan recorded is a legal plan reaching the target, with the penalty recorded. */
    ghost predicate BestOk()
      reads this
    {
      (bestPen.None? ==> bestPicks == []) &&
      (bestPen.Some? ==>
        Reaches(actions, ledger, target, bestChoice) &&
        bestPen.value == Pen(actions, bestChoice) && bestPicks == Picked(actions, bestChoice))
    }

    /**
     * `legalAfterApply`: after a sale, the lot's group must still have a
     * spread of at most one house, computed with the minimum starting at 10
     * and the maximum at -1 over the counts in the scratch state.
     */
    method LegalAfterApply(a: Action) returns (ok: bool)
      ensures ok <==> a.kind == Mortgage || SpreadIn(ledger.group(a.index), state.houses, ledger)
    {
      if a.kind == SellHouse {
        var grp := ledger.group(a.index);
        var lo, hi := 10, -1;
        for t := 0 to |grp|
          invariant forall k :: 0 <= k < t ==> lo <= Lo(Effective(state.houses, ledger, grp[k])) && Hi(Effective(state.houses, ledger, grp[k])) <= hi
          invariant lo <= 10 && hi >= -1
          invariant t == 0 ==> lo == 10 && hi == -1
          invariant lo == 10 || exists k :: 0 <= k < t && lo == Lo(Effective(state.houses, ledger, grp[k]))
          invariant hi == -1 || exists k :: 0 <= k < t && hi == Hi(Effective(state.houses, ledger, grp[k]))
        {
          var h := Effective(state.houses, ledger, grp[t]);
          if h < lo {
            lo := h;
          }
          if h > hi {
            hi := h;
          }
        }
        if hi - lo > 1 {
          ok := false;
          ghost var i, j := 0, 0;
          if hi != -1 {
            i :| 0 <= i < |grp| && hi == Hi(Effective(state.houses, ledger, grp[i]));
          } else {
            assert |grp| > 0;
            i := 0;
          }
          if lo != 10 {
            j :| 0 <= j < |grp| && lo == Lo(Effective(state.houses, ledger, grp[j]));
          } else {
            assert |grp| > 0;
            j := 0;
          }
          assert Hi(Effective(state.houses, ledger, grp[i])) - Lo(Effective(state.houses, ledger, grp[j])) > 1;
          return;
        }
      }
      ok := true;
    }

    /**
     * The take branch of a search node: pushes action `pos` onto the picks,
     * applies it, searches below it when the legality check passes, then
     * reverts it and pops it. Afterwards the scratch state and picks are as
     * they were and the take branch is covered.
     */
    method TryTake(pos: nat, raised: int, pen: int, ghost ch: seq<bool>)
      requires |ch| == pos < |actions| && Tables() && BestOk() && Legal(actions, ledger, ch)
      requires Tracks(actions, ledger, ch, state, picks) && raised == Gain(actions, ch) && pen == Pen(actions, ch)
      modifies this
      decreases |actions| - pos, 0
      ensures BestOk() && Tracks(actions, ledger, ch, state, picks)
      ensures picks == old(picks) && state.cash == old(state.cash) && state.mortgaged == old(state.mortgaged)
      ensures Improves(bestPen, old(bestPen))
      ensures Covers(actions, ledger, target, ch + [true], bestPen)
    {
      var a := actions[pos];
      ghost var tk := ch + [true];
      TakeTracks(actions, ledger, ch, state, picks);
      picks := picks + [a];
      state := Apply(state, a, ledger);
      var legal := LegalAfterApply(a);
      CheckTracks(actions, ledger, tk, state, picks);
      assert tk[..pos] == ch;
      if legal {
        Dfs(pos + 1, raised + a.gain, pen + a.penalty, tk);
      } else {
        CoversIllegal(actions, ledger, target, ch, bestPen);
      }
      UndoTracks(actions, ledger, ch, state, picks);
      state := Revert(state, a);
      picks := picks[..|picks| - 1];
    }

    /**
     * `dfs(pos, raised, pen)`: at a node whose picks stand for the choices
     * `ch` over the first `pos` actions, records the node's penalty if it
     * reaches the target and beats the best, and otherwise (unless the
     * node is pruned) tries taking action `pos` and then skipping it. On
     * return the scratch state and picks are as they were, the best penalty
     * has not grown, and every complete legal plan below the node that
     * reaches the target costs at least the best penalty.
     */
    method Dfs(pos: nat, raised: int, pen: int, ghost ch: seq<bool>)
      requires |ch| == pos <= |actions| && Tables() && BestOk() && Legal(actions, ledger, ch)
      requires Tracks(actions, ledger, ch, state, picks) && raised == Gain(actions, ch) && pen == Pen(actions, ch)
      modifies this
      decreases |actions| - pos, 2
      ensures BestOk() && Tracks(actions, ledger, ch, state, picks)
      ensures picks == old(picks) && state.cash == old(state.cash) && state.mortgaged == old(state.mortgaged)
      ensures Improves(bestPen, old(bestPen))
      ensures Covers(actions, ledger, target, ch, bestPen)
    {
      if raised >= target {
        if bestPen.None? || pen < bestPen.value {
          PadReaches(actions, ledger, target, ch);
          bestPen := Some(pen);
          bestPicks := picks;
          bestChoice := Pad(actions, ch);
        }
        CoversReached(actions, ledger, target, ch, bestPen);
        return;
      }
      if pos >= |actions| {
        CoversEnd(actions, ledger, target, ch, bestPen);
        return;
      }
      if bestPen.Some? && pen >= bestPen.value {
        CoversCostly(actions, ledger, target, ch, bestPen);
        return;
      }
      if raised + prefixGain[pos] < target {
        CoversHopeless(actions, ledger, target, ch, bestPen);
        return;
      }
      Branch(pos, raised, pen, ch);
    }

    /** The two children of an open node: take the next action first, then skip it. */
    method Branch(pos: nat, raised: int, pen: int, ghost ch: seq<bool>)
      requires |ch| == pos < |actions| && Tables() && BestOk() && Legal(actions, ledger, ch)
      requires Tracks(actions, ledger, ch, state, picks) && raised == Gain(actions, ch) && pen == Pen(actions, ch)
      modifies this
      decreases |actions| - pos, 1
      ensures BestOk() && Tracks(actions, ledger, ch, state, picks)
      ensures Improves(bestPen, old(bestPen))
      ensures Covers(actions, ledger, target, ch, bestPen)
    {
      TryTake(pos, raised, pen, ch);
      ghost var best1 := bestPen;
      SkipKeeps(actions, ledger, ch);
      Dfs(pos + 1, raised, pen, ch + [false]);
      CoversImproves(actions, ledger, target, ch + [true], best1, bestPen);
      CoversBranches(actions, ledger, target, ch, bestPen);
    }
  }

  /**
   * The planner for a cash target: with a zero target nothing is needed;
   * otherwise it runs the search over the candidate actions and reports
   * the least-penalty legal plan reaching the target, or that none exists.
   */
  method Plan(actions: seq<Action>, ledger: Ledger, target: nat) returns (res: PlanResult)
    requires UniqueSales(actions)
    ensures res == NothingNeeded <==> target == 0
    ensures res == Infeasible <==> target > 0 && forall c :: !Reaches(actions, ledger, target, c)
    ensures res.Found? ==> exists c :: Reaches(actions, ledger, target, c) && Pen(actions, c) == res.pen && Picked(actions, c) == res.picks
    ensures res.Found? ==> forall c :: Reaches(actions, ledger, target, c) ==> res.pen <= Pen(actions, c)
  {
    if target == 0 {
      return NothingNeeded;
    }
    var pg := PrefixGain(actions);
    var s := new Search(actions, ledger, target, pg);
    s.Dfs(0, 0, 0, []);
    if s.bestPen.Some? {
      GainPicks(actions, s.bestChoice);
    }
    if |s.bestPicks| == 0 {
      NothingCovered(actions, ledger, target);
      return Infeasible;
    }
    res := Found(s.bestPen.value, s.bestPicks);
    assert Reaches(actions, ledger, target, s.bestChoice);
  }
}
