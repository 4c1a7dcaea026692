/** The second copy of the engine, inside the application component. Its
    scoring helpers are the library's; its `autoPick` differs in two
    ways: the greedy comparator reads a missing salary as `9e9` rather
    than `Infinity`, and the budget pass compares the plain mean of the
    salaries, an unknown one counted as 0, with the budget and then only
    ever replaces the last pick, by the cheapest candidate whose salary is
    known and lower than the last pick's, with no regard to role group or
    to whether that candidate is picked already. */
module Legacy {
  import opened Records
  import opened Tables
  import opened Ranking
  import opened Greedy
  import opened Budget
  import opened AutoPick

  /** `9e9`, the salary an unknown one is read as. */
  const NoSalary: nat := 9_000_000_000

  /** `p.meta.salary ?? 0`, summed over the picks. */
  function Total(scored: seq<Scored>, picks: seq<nat>): nat
    requires InRange(|scored|, picks)
  {
    if picks == [] then 0
    else
      var n := |picks| - 1;
      Total(scored, picks[..n]) + match scored[picks[n]].meta.salary case Some(s) => s case None => 0
  }

  /** The salaries an unknown salary adds nothing to: the total is the sum
      of the known salaries. */
  lemma {:induction false} TotalOfKnown(scored: seq<Scored>, picks: seq<nat>)
    requires InRange(|scored|, picks)
    ensures Total(scored, picks) == Sum(KnownSalaries(scored, picks))
  {
    if picks != [] {
      var n := |picks| - 1;
      TotalOfKnown(scored, picks[..n]);
      var front := KnownSalaries(scored, picks[..n]);
      match scored[picks[n]].meta.salary
      case Some(s) =>
        assert KnownSalaries(scored, picks) == front + [s];
        assert (front + [s])[..|front|] == front;
      case None =>
    }
  }

  /** `pick.reduce((s, p) => s + (p.meta.salary ?? 0), 0) / Math.max(1, pick.length)`. */
  function Mean(scored: seq<Scored>, picks: seq<nat>): real
    requires InRange(|scored|, picks)
  {
    Total(scored, picks) as real / (if |picks| == 0 then 1 else |picks|) as real
  }

  /** The legacy mean is the total of the known salaries over the number
      of picks, unknown salaries counting as picks; with no pick it is 0. */
  lemma MeanOfKnown(scored: seq<Scored>, picks: seq<nat>)
    requires InRange(|scored|, picks)
    ensures picks == [] ==> Mean(scored, picks) == 0.0
    ensures picks != [] ==> Mean(scored, picks) == Sum(KnownSalaries(scored, picks)) as real / |picks| as real
  {
    TotalOfKnown(scored, picks);
  }

  /** `last?.meta.salary ?? 9e9`. */
  function Limit(scored: seq<Scored>, picks: seq<nat>): nat
    requires InRange(|scored|, picks)
  {
    if picks == [] then NoSalary
    else match scored[picks[|picks| - 1]].meta.salary case Some(s) => s case None => NoSalary
  }

  /** The filter of `cheaper`: a known, non-zero salary below the limit. */
  function CheaperMask(scored: seq<Scored>, limit: nat): (r: seq<bool>)
    ensures |r| == |scored|
  {
    seq(|scored|, k requires 0 <= k < |scored| =>
      scored[k].meta.salary.Some? && scored[k].meta.salary.value != 0 && scored[k].meta.salary.value < limit)
  }

  /** The comparator of `cheaper`: `salary ?? 9e9`, lower first. */
  function CheaperKeys(scored: seq<Scored>): (r: seq<Key>)
    ensures |r| == |scored|
  {
    seq(|scored|, k requires 0 <= k < |scored| =>
      Key(match scored[k].meta.salary case Some(s) => s case None => NoSalary, 0.0, Fin(0)))
  }

  function Cheaper(scored: seq<Scored>, picks: seq<nat>): (r: seq<nat>)
    requires InRange(|scored|, picks)
    ensures InRange(|scored|, r)
  {
    SortByKey(CheaperKeys(scored), Select(CheaperMask(scored, Limit(scored, picks))))
  }

  /** The legacy budget pass runs: a truthy budget below the mean. */
  predicate Over(scored: seq<Scored>, picks: seq<nat>, budget: Option<real>)
    requires InRange(|scored|, picks)
  {
    Truthy(budget) && Mean(scored, picks) > budget.value
  }

  /** The picks after the legacy budget pass. With no pick,
      `pick[pick.length - 1] = …` sets a property that `pick.map` does not
      see, so nothing changes. */
  function Repair(scored: seq<Scored>, picks: seq<nat>, budget: Option<real>): (r: seq<nat>)
    requires InRange(|scored|, picks)
    ensures |r| == |picks| && InRange(|scored|, r)
  {
    var cheaper := Cheaper(scored, picks);
    if Over(scored, picks, budget) && picks != [] && cheaper != [] then picks[|picks| - 1 := cheaper[0]]
    else picks
  }

  /** `k` is a candidate with a known non-zero salary below that of the
      last pick (below 9e9 when it has none). */
  predicate IsCheaper(scored: seq<Scored>, picks: seq<nat>, k: nat)
    requires InRange(|scored|, picks)
  {
    k < |scored| && scored[k].meta.salary.Some?
    && 0 < scored[k].meta.salary.value < Limit(scored, picks)
  }

  /** What `cheaper` holds: every candidate cheaper than the last pick,
      once, cheapest first and the earliest among equals. */
  lemma CheaperMeaning(scored: seq<Scored>, picks: seq<nat>)
    requires InRange(|scored|, picks)
    ensures var cheaper := Cheaper(scored, picks);
      (cheaper == [] <==> forall k :: 0 <= k < |scored| ==> !IsCheaper(scored, picks, k))
      && (cheaper != [] ==> IsCheapest(scored, picks, cheaper[0]))
  {
    var ok := CheaperMask(scored, Limit(scored, picks));
    var sel := Select(ok);
    var keys := CheaperKeys(scored);
    var cheaper := Cheaper(scored, picks);
    SelectMeaning(ok);
    SortedHead(keys, sel);
    assert forall k :: 0 <= k < |scored| ==> (ok[k] <==> IsCheaper(scored, picks, k));
    if cheaper != [] {
      var k := cheaper[0];
      assert IsLeast(keys, sel, k);
      forall j | 0 <= j < |scored| && j != k && IsCheaper(scored, picks, j)
        ensures scored[k].meta.salary.value < scored[j].meta.salary.value
                || (scored[k].meta.salary.value == scored[j].meta.salary.value && k < j)
      {
        assert j in sel;
        assert Precedes(keys, k, j);
      }
    }
  }

  /** `k` is cheaper than the last pick, and its salary is below that of
      every other such candidate or equal to it with `k` earlier. */
  predicate IsCheapest(scored: seq<Scored>, picks: seq<nat>, k: nat)
    requires InRange(|scored|, picks)
  {
    IsCheaper(scored, picks, k)
    && forall j :: 0 <= j < |scored| && j != k && IsCheaper(scored, picks, j) ==>
         scored[k].meta.salary.value < scored[j].meta.salary.value
         || (scored[k].meta.salary.value == scored[j].meta.salary.value && k < j)
  }

  /** The legacy pass changes the picks exactly when it runs, there is a
      pick, and some candidate is cheaper than the last pick; it then puts
      the cheapest such candidate in the last slot and leaves the other
      slots alone. */
  lemma RepairMeaning(scored: seq<Scored>, picks: seq<nat>, budget: Option<real>)
    requires InRange(|scored|, picks)
    ensures var r := Repair(scored, picks, budget);
      (r != picks <==> Over(scored, picks, budget) && picks != [] && exists k :: 0 <= k < |scored| && IsCheaper(scored, picks, k))
      && (r != picks ==> r == picks[|picks| - 1 := r[|picks| - 1]] && IsCheapest(scored, picks, r[|picks| - 1]))
  {
    CheaperMeaning(scored, picks);
    var cheaper := Cheaper(scored, picks);
    if cheaper != [] && picks != [] {
      assert cheaper[0] != picks[|picks| - 1];
    }
  }

  /** The legacy budget pass as the component writes it. */
  method BudgetPass(scored: seq<Scored>, picks: seq<nat>, budget: Option<real>) returns (r: seq<nat>)
    requires InRange(|scored|, picks)
    ensures r == Repair(scored, picks, budget)
  {
    r := picks;
    if Truthy(budget) {
      var avg := Mean(scored, picks);
      if avg > budget.value {
        var cheaper := SortByKey(CheaperKeys(scored), Select(CheaperMask(scored, Limit(scored, picks))));
        if |cheaper| > 0 && |picks| > 0 {
          r := r[|r| - 1 := cheaper[0]];
        }
      }
    }
  }

  /** Two candidates with salaries 100 and 200. */
  function TwoSalaries(c: Candidate): seq<Scored> {
    [Scored(c, ScoreMeta(0.0, {}, Some(100))), Scored(c, ScoreMeta(0.0, {}, Some(200)))]
  }

  lemma TwoSalariesMean(c: Candidate)
    ensures Mean(TwoSalaries(c), [0, 1]) == 150.0
  {
    var scored := TwoSalaries(c);
    assert [0, 1][..1] == [0];
    assert [0][..0] == [];
    assert Total(scored, [0]) == 100;
  }

  lemma TwoSalariesCheaper(c: Candidate)
    ensures Cheaper(TwoSalaries(c), [0, 1]) == [0]
  {
    var scored := TwoSalaries(c);
    var ok := CheaperMask(scored, Limit(scored, [0, 1]));
    assert ok == [true, false];
    assert ok[..1] == [true];
    assert [true][..0] == [];
    assert Select([true]) == [0];
    assert Select(ok) == [0];
    assert [0][1..] == [];
    assert SortByKey(CheaperKeys(scored), [0]) == [0];
  }

  /** The legacy pass may return the same candidate twice: with picks
      0 and 1 at salaries 100 and 200 and a budget of 1, candidate 0 also
      replaces the last pick. */
  lemma RepairMayRepeat(c: Candidate)
    ensures Distinct([0, 1]) && Repair(TwoSalaries(c), [0, 1], Some(1.0)) == [0, 0]
  {
    TwoSalariesMean(c);
    TwoSalariesCheaper(c);
  }

  /** `autoPick` of the component: the greedy pass with `9e9` for a
      missing salary, then the legacy budget pass. */
  method LegacyAutoPick(cands: seq<Candidate>, weights: map<Category, real>, preferDiversity: bool, budgetAvg: Option<real>)
    returns (chosen: seq<Candidate>, picks: seq<nat>)
    ensures InRange(|cands|, picks) && |chosen| == |picks|
    ensures forall t :: 0 <= t < |picks| ==> chosen[t] == cands[picks[t]]
    ensures var scored := ScoreAll(cands, weights);
      exists tr: Trace :: IsGreedyRun(scored, Regions(scored), Groups, preferDiversity, Fin(NoSalary), |Groups|, tr)
        && picks == Repair(scored, tr.picks, budgetAvg)
    ensures var scored := ScoreAll(cands, weights);
      forall tr: Trace :: IsGreedyRun(scored, Regions(scored), Groups, preferDiversity, Fin(NoSalary), |Groups|, tr)
        ==> picks == Repair(scored, tr.picks, budgetAvg)
    ensures |picks| <= |Groups|
  {
    var scored := ScoreCandidates(cands, weights);
    var regions := Regions(scored);
    var greedy, forGroup := GreedyPass(scored, regions, Groups, preferDiversity, Fin(NoSalary));
    ghost var tr := Trace(greedy, forGroup);
    GreedyPickGroups(scored, regions, Groups, preferDiversity, Fin(NoSalary), tr);
    picks := BudgetPass(scored, greedy, budgetAvg);
    forall tr2: Trace | IsGreedyRun(scored, regions, Groups, preferDiversity, Fin(NoSalary), |Groups|, tr2)
      ensures picks == Repair(scored, tr2.picks, budgetAvg)
    {
      GreedyRunUnique(scored, regions, Groups, preferDiversity, Fin(NoSalary), |Groups|, tr, tr2);
    }
    chosen := seq(|picks|, t requires 0 <= t < |picks| => cands[picks[t]]);
  }
}
