/**
 * Rule-based inference over a player's financial facts: three threshold
 * rules chained forward into recommendations, and two goals justified
 * backward into one step each.
 */
module Rules {

  /** The facts the rules read: cash on hand, complete colour sets owned, debt. */
  datatype Facts = Facts(cash: int, sets: int, debt: int)

  const MortgageAdvice: string := "Mortgage low-yield properties to cover debt"
  const BuildAdvice: string := "Consider even building on owned color sets"
  const LiquidityAdvice: string := "Preserve liquidity; avoid new purchases"
  const NoAction: string := "No action suggested"

  const StaySolvent: string := "stay_solvent"
  const IncreaseIncome: string := "increase_income"

  const RaiseCash: string := "To stay solvent: raise cash → mortgage low-yield or trade"
  const AlreadySolvent: string := "Already solvent: no urgent action"
  const BuildEvenly: string := "Build evenly on a color group to raise rents"
  const AcquireFirst: string := "Acquire missing properties via trades before building"

  /** R1: the debt cannot be covered from cash. */
  predicate InDebt(f: Facts) { f.debt > 0 && f.cash < f.debt }

  /** R2: a complete set is owned and cash is above the fixed 100 threshold. */
  predicate CanBuild(f: Facts) { f.sets > 0 && f.cash > 100 }

  /** R3: cash is below the fixed 100 threshold. */
  predicate LowCash(f: Facts) { f.cash < 100 }

  /** Appends `rec` to `recs` when `fires`; the push of a single rule. */
  function Fire(recs: seq<string>, fires: bool, rec: string): (r: seq<string>)
    ensures fires ==> r == recs + [rec]
    ensures !fires ==> r == recs
  {
    if fires then recs + [rec] else recs
  }

  /**
   * Forward chaining: every rule whose condition holds contributes its
   * recommendation, in rule order; with none firing the list is the single
   * "no action" entry.
   */
  function ForwardChain(f: Facts): (recs: seq<string>)
    ensures 1 <= |recs| <= 2
    ensures forall r :: r in recs ==> r in {MortgageAdvice, BuildAdvice, LiquidityAdvice, NoAction}
    ensures MortgageAdvice in recs <==> InDebt(f)
    ensures BuildAdvice in recs <==> CanBuild(f)
    ensures LiquidityAdvice in recs <==> LowCash(f)
    ensures NoAction in recs <==> !InDebt(f) && !CanBuild(f) && !LowCash(f)
    ensures NoAction in recs ==> recs == [NoAction]
    ensures InDebt(f) ==> recs[0] == MortgageAdvice
    ensures forall i, j :: 0 <= i < j < |recs| ==> recs[i] != recs[j]
  {
    var recs := Fire([], InDebt(f), MortgageAdvice);
    var recs := Fire(recs, CanBuild(f), BuildAdvice);
    var recs := Fire(recs, LowCash(f), LiquidityAdvice);
    if |recs| == 0 then [NoAction] else recs
  }

  /**
   * Backward chaining from a goal to the step that serves it: each of the
   * two recognised goals yields exactly one step, any other goal none.
   */
  function BackwardChain(goal: string, f: Facts): (steps: seq<string>)
    ensures |steps| == (if goal == StaySolvent || goal == IncreaseIncome then 1 else 0)
    ensures goal == StaySolvent ==> (steps == [RaiseCash] <==> InDebt(f)) && (steps == [AlreadySolvent] <==> !InDebt(f))
    ensures goal == IncreaseIncome ==> (steps == [BuildEvenly] <==> CanBuild(f)) && (steps == [AcquireFirst] <==> !CanBuild(f))
  {
    if goal == StaySolvent then
      if InDebt(f) then [RaiseCash] else [AlreadySolvent]
    else if goal == IncreaseIncome then
      if CanBuild(f) then [BuildEvenly] else [AcquireFirst]
    else
      []
  }

  /** The two goals the backward demo asks about, in order. */
  function BackwardReport(f: Facts): (steps: seq<string>)
    ensures |steps| == 2
    ensures steps[0] in {RaiseCash, AlreadySolvent} && steps[1] in {BuildEvenly, AcquireFirst}
  {
    BackwardChain(StaySolvent, f) + BackwardChain(IncreaseIncome, f)
  }

  /**
   * The two chaining directions agree: backward chaining asks to raise cash
   * exactly when forward chaining recommends mortgaging, and to build exactly
   * when forward chaining recommends building.
   */
  lemma ChainsAgree(f: Facts)
    ensures BackwardReport(f)[0] == RaiseCash <==> MortgageAdvice in ForwardChain(f)
    ensures BackwardReport(f)[1] == BuildEvenly <==> BuildAdvice in ForwardChain(f)
  {
    var s := BackwardChain(StaySolvent, f);
    var b := BackwardChain(IncreaseIncome, f);
    assert BackwardReport(f) == s + b;
    assert BackwardReport(f)[0] == s[0] && BackwardReport(f)[1] == b[0];
  }

  /** Building and preserving liquidity never fire together. */
  lemma BuildExcludesLiquidity(f: Facts)
    ensures !(BuildAdvice in ForwardChain(f) && LiquidityAdvice in ForwardChain(f))
  {
  }

  /**
   * With the facts the demo clamps to be non-negative, "no action" is
   * recommended exactly when cash is at least 100, no building is possible
   * and the debt is covered.
   */
  lemma NoActionCharacterised(f: Facts)
    requires f.cash >= 0 && f.sets >= 0 && f.debt >= 0
    ensures ForwardChain(f) == [NoAction] <==> f.cash >= 100 && (f.sets == 0 || f.cash == 100) && (f.debt == 0 || f.cash >= f.debt)
  {
  }
}
