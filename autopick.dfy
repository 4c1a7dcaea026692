/** `autoPick` of the scoring library: score every candidate, run the
    greedy pass over the five role groups with `Infinity` for a missing
    salary, then the budget pass, and return the picked candidates. */
module AutoPick {
  import opened Records
  import opened Tables
  import opened Scoring
  import opened Ranking
  import opened Greedy
  import opened Budget

  /** `{ cand: c, meta: computeScore(c, weights) }`. */
  function ScoreOf(c: Candidate, weights: map<Category, real>): Scored {
    Scored(c, ScoreMeta(Score(c, weights), Categories(c), ParseSalary(c)))
  }

  /** `cands.map((c) => ({ cand: c, meta: computeScore(c, weights) }))`. */
  function ScoreAll(cands: seq<Candidate>, weights: map<Category, real>): (r: seq<Scored>)
    ensures |r| == |cands|
  {
    seq(|cands|, k requires 0 <= k < |cands| => ScoreOf(cands[k], weights))
  }

  lemma ScoredAppend(cands: seq<Candidate>, weights: map<Category, real>, scored: seq<Scored>, s: Scored)
    requires |scored| < |cands| && s == ScoreOf(cands[|scored|], weights)
    requires forall j :: 0 <= j < |scored| ==> scored[j] == ScoreOf(cands[j], weights)
    ensures forall j :: 0 <= j <= |scored| ==> (scored + [s])[j] == ScoreOf(cands[j], weights)
  {
  }

  /** Scores every candidate, in input order. */
  method ScoreCandidates(cands: seq<Candidate>, weights: map<Category, real>) returns (scored: seq<Scored>)
    ensures scored == ScoreAll(cands, weights)
  {
    scored := [];
    for k := 0 to |cands|
      invariant |scored| == k
      invariant forall j :: 0 <= j < k ==> scored[j] == ScoreOf(cands[j], weights)
    {
      var meta := ComputeScore(cands[k], weights);
      ScoredAppend(cands, weights, scored, Scored(cands[k], meta));
      scored := scored + [Scored(cands[k], meta)];
    }
  }

  /** What a greedy run followed by the budget pass gives: at most one
      pick per group, none twice, each of some role group, and no pick
      only when no candidate is of any role group. */
  lemma PickFacts(scored: seq<Scored>, regions: seq<Region>, groups: seq<seq<Category>>, prefer: bool, budget: Option<real>,
                  tr: Trace, picks: seq<nat>)
    requires |regions| == |scored| && IsGreedyRun(scored, regions, groups, prefer, Inf, |groups|, tr)
    requires picks == BudgetRepair(scored, groups, tr.picks, budget)
    ensures InRange(|scored|, picks) && |picks| <= |groups| && Distinct(picks)
    ensures forall t :: 0 <= t < |picks| ==> 0 <= GroupIndex(groups, scored[picks[t]].meta.cats)
    ensures picks == [] <==> forall k, g :: 0 <= k < |scored| && 0 <= g < |groups| ==> !InGroup(scored[k].meta.cats, groups[g])
  {
    GreedyPickGroups(scored, regions, groups, prefer, Inf, tr);
    GreedyEmptyIff(scored, regions, groups, prefer, Inf, tr);
    BudgetPreserves(scored, groups, tr.picks, budget);
  }

  /** `autoPick(cands, weights, { preferDiversity, budgetAvg })`. Besides
      the candidates it returns their positions in `cands`. The result is
      the budget pass applied to a greedy run over the five role groups
      with `Infinity` for a missing salary, so `PickFacts` holds of it; as
      the greedy run is unique, every run gives these picks. */
  method AutoPick(cands: seq<Candidate>, weights: map<Category, real>, preferDiversity: bool, budgetAvg: Option<real>)
    returns (chosen: seq<Candidate>, picks: seq<nat>)
    ensures InRange(|cands|, picks) && |chosen| == |picks|
    ensures forall t :: 0 <= t < |picks| ==> chosen[t] == cands[picks[t]]
    ensures var scored := ScoreAll(cands, weights);
      exists tr: Trace :: IsGreedyRun(scored, Regions(scored), Groups, preferDiversity, Inf, |Groups|, tr)
        && picks == BudgetRepair(scored, Groups, tr.picks, budgetAvg)
    ensures var scored := ScoreAll(cands, weights);
      forall tr: Trace :: IsGreedyRun(scored, Regions(scored), Groups, preferDiversity, Inf, |Groups|, tr)
        ==> picks == BudgetRepair(scored, Groups, tr.picks, budgetAvg)
    ensures var scored := ScoreAll(cands, weights);
      |picks| <= |Groups| && Distinct(picks)
      && (forall t :: 0 <= t < |picks| ==> 0 <= GroupIndex(Groups, scored[picks[t]].meta.cats))
      && (picks == [] <==> forall k, g :: 0 <= k < |cands| && 0 <= g < |Groups| ==> !InGroup(scored[k].meta.cats, Groups[g]))
  {
    var scored := ScoreCandidates(cands, weights);
    var regions := Regions(scored);
    var greedy, forGroup := GreedyPass(scored, regions, Groups, preferDiversity, Inf);
    ghost var tr := Trace(greedy, forGroup);
    picks := BudgetPass(scored, Groups, greedy, budgetAvg);
    PickFacts(scored, regions, Groups, preferDiversity, budgetAvg, tr, picks);
    forall tr2: Trace | IsGreedyRun(scored, regions, Groups, preferDiversity, Inf, |Groups|, tr2)
      ensures picks == BudgetRepair(scored, Groups, tr2.picks, budgetAvg)
    {
      GreedyRunUnique(scored, regions, Groups, preferDiversity, Inf, |Groups|, tr, tr2);
    }
    chosen := seq(|picks|, t requires 0 <= t < |picks| => cands[picks[t]]);
  }
}
