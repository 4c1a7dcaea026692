# hirepilot: candidate scoring and auto-selection, modelled in Dafny

hirepilot is a single-page hiring dashboard. It loads a list of candidate
records, then:

- scores and categorises each candidate;
- filters and sorts the list, and pages through it;
- lets the user build a shortlist by hand, or have the auto-selector build
  one. The auto-selector picks one candidate per role group, prefers
  regions not yet represented, and can swap picks for cheaper ones to meet
  an average-salary budget.

This project models that engine and the small list helpers around it as
Dafny datatypes, functions and methods, and proves what they guarantee.

Modules, in dependency order:

- `Text`: `norm` (ASCII lower-casing), substring search (`includes`) and
  `join`.
- `Records`: the candidate record and the values derived from it.
- `Tables`: the static tables `kw`, `roleMap`, `prioScore`, `GROUPS` and
  the region rules.
- `Scoring`: the per-candidate functions:
  - salary parsing, graduate tier and skill lookup;
  - `categorize` (as a method with its loops, and as a specification
    function);
  - `regionOf`;
  - `computeScore` (as a method, and as a specification function).
- `Ranking`: the comparators the engine sorts with. The model's stable sort
  on positions is the stable `Array.prototype.sort`. `filter` is also here.
- `Greedy`: the greedy pass of `autoPick`, one pick per role group. It is
  shared by both copies of the engine, which differ only in the salary
  that a missing salary counts as. `groupIndexOf` is here too.
- `Budget`: the budget-repair pass of `src/lib/scoring.js` and its rounded
  average of known salaries.
- `AutoPick`: `autoPick` of `src/lib/scoring.js`, end to end.
- `Legacy`: the older `autoPick` in `src/App.js` and its different budget
  pass. That pass averages with missing salaries counted as 0, then
  replaces only the last pick with the cheapest cheaper candidate overall.
- `Explain`: `explain`, the rationale bullets.
- `Listing`: the search filter, the in-place score sort, and the manual
  shortlist add and remove in `src/App.js`.
- `Paging`: the pagination arithmetic of `src/App.js` and of the `Pager`
  component.

How the model represents the source:

- An absent string is modelled as "" and an absent list as []. The source
  reads each one through `norm`, `|| ""`, `|| []` or a truthiness test,
  which treat the two cases alike.
- A candidate's identity (`p.cand === cand`) is its position in the scored
  list, so picks are lists of positions.
- "Sort, then take element 0" is `SortByKey` followed by the head. Its
  meaning is proved: the head is the least element under the comparator,
  and ties go to the earliest position (`Ranking.SortedHead`).
- Weights are `real`s, and a missing weight counts as 1.
- `Math.round(sum / n)` of non-negative integers is `(2 * sum + n) / (2 * n)`.
- The budget is `Option<real>`, and "truthy" means present and non-zero.

## Model

| member | source | states |
|---|---|---|
| Text.Norm | src/lib/scoring.js:33 | the result has the input's length and is the input lower-cased character by character |
| Text.NormIdempotent | src/lib/scoring.js:33 | normalising twice is normalising once |
| Text.Contains | src/lib/scoring.js:51 | `includes` holds exactly when the needle occurs at some position of the haystack |
| Text.ContainsConcat | src/App.js:218-220 | a string contained in one part of a concatenation is contained in the whole |
| Text.ContainsTransitive | src/lib/scoring.js:51 | a substring of a substring is a substring |
| Text.ContainsAny | src/lib/scoring.js:61 | `list.some((k) => ns.includes(k))` holds exactly when some keyword of the list occurs in the string |
| Text.Join | src/App.js:219 | every joined part occurs in the joined string |
| Scoring.DigitsOf | src/lib/scoring.js:38 | stripping non-digits leaves only digit characters and never lengthens the string |
| Scoring.DigitsOfConcat | src/lib/scoring.js:38 | stripping non-digits works piece by piece over a concatenation |
| Scoring.DecimalRoundTrip | src/lib/scoring.js:38 | the decimal numeral of n is all digits and `Number` of it is n again |
| Scoring.ParseSalary | src/lib/scoring.js:34-40 | null exactly when the full-time entry is empty or its digits read as 0; otherwise the number its digits spell, which is positive; the older copy at src/App.js:43-48 is the same function |
| Scoring.ParseSalaryReadsAmount | src/lib/scoring.js:34-40 | an amount written between non-digit text parses to exactly that amount |
| Scoring.ParseSalaryExample | src/lib/scoring.js:34-40 | "$92,000" parses to 92000 |
| Scoring.FindFlagged | src/lib/scoring.js:177 | `find` returns the first degree that carries the flag, and none only when no degree carries it |
| Scoring.GradTier | src/lib/scoring.js:42-47 | the tier is at most 2; it is 2 iff some degree is top-25, and 1 iff none is top-25 and some is top-50 |
| Scoring.RoleNames | src/lib/scoring.js:52 | the role names of the work entries, one per entry, in order |
| Scoring.Companies | src/lib/scoring.js:175 | the companies of the work entries, one per entry, in order |
| Scoring.Subjects | src/lib/scoring.js:53 | the subjects of the degrees, one per degree, in order |
| Scoring.SomeNormContains | src/lib/scoring.js:51-53 | holds exactly when some normalised element contains the needle |
| Scoring.HasSkillMeaning | src/lib/scoring.js:48-55 | `hasSkill` holds iff a normalised skill, role name or degree subject contains the normalised key |
| Scoring.HasSkillOfPart | src/lib/scoring.js:48-55 | having a skill implies having every part of its name |
| Scoring.TableHitsMembership | src/lib/scoring.js:60-62 | a category is hit iff one of its table entries has a keyword contained in the string |
| Scoring.SkillCatsAt | src/lib/scoring.js:58-63 | a category comes from the skills iff some normalised skill hits it |
| Scoring.RoleCatsAt | src/lib/scoring.js:64-71 | a category comes from the work history iff some normalised role name hits it |
| Scoring.CategorizeSkills | src/lib/scoring.js:57-63 | the nested skill loops add exactly the skill categories |
| Scoring.CategorizeRoles | src/lib/scoring.js:64-71 | the role loops add exactly the role categories, including the two hard-coded role rules |
| Scoring.Categorize | src/lib/scoring.js:56-73 | the set built in place equals the categories of the candidate; the older copy at src/App.js:64-81 builds the same set |
| Scoring.CategoriesMembership | src/lib/scoring.js:56-73 | a category is present iff it comes from a skill keyword, a role keyword, the full-stack developer rule or the software-engineer rule |
| Scoring.SkillCatsMembership | src/lib/scoring.js:58-63 | a skill category needs a skill and a keyword entry of that category that meet |
| Scoring.RoleHitsMembership | src/lib/scoring.js:65-70 | the categories of one role name: table entries plus the `fullstack` and `backend` rules |
| Scoring.RoleCatsMembership | src/lib/scoring.js:64-71 | a role category needs a work entry whose normalised role name meets its rule |
| Scoring.CategoriesOfEmpty | src/lib/scoring.js:56-73 | no skills and no work entries give no categories |
| Scoring.CategoriesOrderIndependent | src/lib/scoring.js:56-73 | permuting the skills or the work entries does not change the categories |
| Scoring.SkillCatsSubset | src/lib/scoring.js:58-63 | more skills never remove a skill category |
| Scoring.RoleCatsSubset | src/lib/scoring.js:64-71 | more work entries never remove a role category |
| Scoring.TableKeys | src/lib/scoring.js:2-23 | `mobile` is no key of `roleMap` and `fullstack` no key of `kw` |
| Scoring.MobileOnlyFromSkills | src/lib/scoring.js:56-73 | `mobile` can only come from a skill |
| Scoring.FullstackOnlyFromRoles | src/lib/scoring.js:56-73 | `fullstack` can only come from a role name |
| Scoring.FirstMatchingRule | src/lib/scoring.js:78-87 | the first region rule, from a given one on, with a fragment in the string; none iff no later rule matches |
| Scoring.RegionOf | src/lib/scoring.js:75-89 | an empty location is "Unknown" |
| Scoring.RegionOfFirstRule | src/lib/scoring.js:75-89 | a non-empty location gets the region of the first rule that matches it |
| Scoring.RegionUnknownIff | src/lib/scoring.js:75-89 | "Unknown" iff the location is empty or no rule matches; the older copy at src/App.js:83-97 has the same rules in the same order |
| Scoring.ScaleIsProduct | src/lib/scoring.js:95 | adding the weight once per unit of priority is weight times priority |
| Scoring.CategoryPointsReweigh | src/lib/scoring.js:94-96 | changing one weight moves the category part by the change times that category's priority, and only for a member category |
| Scoring.PriorityOfEntry | src/lib/scoring.js:24 | in a table without repeated keys, a key's total priority is its entry |
| Scoring.PriorityOfAbsent | src/lib/scoring.js:24 | a key the table lacks has priority 0 |
| Scoring.PriorityTable | src/lib/scoring.js:24 | the priorities are 10, 10, 9, 9, 9, 8, 7 and 6, and 0 for `qa` and `mobile` |
| Scoring.Points | src/lib/scoring.js:97-102 | a conditional bonus is at most its amount |
| Scoring.SkillBonus | src/lib/scoring.js:97-102 | the skill bonuses total at most 16 |
| Scoring.SkillBonusOfFields | src/lib/scoring.js:97-102 | the skill bonuses depend only on the skills, work entries and degrees |
| Scoring.SalaryBracket | src/lib/scoring.js:106-111 | no salary adds nothing; a salary adds +5, +3, +1 or −1, and −1 only from 140000 up |
| Scoring.FlatPoints | src/lib/scoring.js:97-114 | the non-category part of the score lies between −2 and 36 |
| Scoring.FlatPointsSalary | src/lib/scoring.js:103-114 | the salary affects the flat part only through its bracket |
| Scoring.ScoreSalaryContribution | src/lib/scoring.js:105-111 | the score is the score without a salary plus the salary's bracket |
| Scoring.WeightedBase | src/lib/scoring.js:93-96 | the accumulating loop adds weight times priority for every prioritised category the candidate has |
| Scoring.ComputeScore | src/lib/scoring.js:91-116 | returns the score, the categories and the parsed salary of the candidate; the older copy at src/App.js:99-121 returns the same |
| Scoring.ScoreReweigh | src/lib/scoring.js:91-116 | re-weighting a member category changes the score by the weight change taken priority times (`Scale`, which `ScaleIsProduct` proves is the product); a non-member's score does not change |
| Scoring.ScoreWeightMonotone | src/lib/scoring.js:91-116 | raising a weight never lowers a member's score and leaves a non-member's unchanged |
| Scoring.CategoryPointsMonotone | src/lib/scoring.js:94-96 | raising a weight never lowers the category part of a member |
| Ranking.BeforeOrder | src/lib/scoring.js:137-144 | the lexicographic comparator is a strict order, total on distinct keys |
| Ranking.PrecedesOrder | src/lib/scoring.js:137-144 | the stable-sort order (key, then position) is a strict total order |
| Ranking.Select | src/lib/scoring.js:136 | `filter` on positions returns positions within the list |
| Ranking.SelectMeaning | src/lib/scoring.js:136 | `filter` keeps exactly the positions whose test holds, in increasing order |
| Ranking.SortByKey | src/lib/scoring.js:137-144 | the sorted positions stay within the list |
| Ranking.SortByKeyPermutes | src/lib/scoring.js:137-144 | the sort is a permutation |
| Ranking.SortByKeySorted | src/lib/scoring.js:137-144 | the sort orders by key and, among equal keys, by input position |
| Ranking.SortedHead | src/lib/scoring.js:145 | element 0 after the sort exists iff the list is non-empty, and it is the least element |
| Ranking.LeastUnique | src/lib/scoring.js:145 | there is only one least element |
| Ranking.FirstOfSorted | src/lib/scoring.js:160-164 | the first element of a sorted list that passes a test precedes every other element that passes it |
| Greedy.Regions | src/lib/scoring.js:138 | one region per scored candidate |
| Greedy.UsedRegionsAppend | src/lib/scoring.js:145 | a pick adds exactly its own region to the used regions |
| Greedy.GreedyKeys | src/lib/scoring.js:139-143 | one comparator key (novelty, score, salary) per candidate |
| Greedy.EligibleMask | src/lib/scoring.js:136 | one eligibility flag per candidate |
| Greedy.EligibleHead | src/lib/scoring.js:135-145 | the eligible list is empty iff every group member is already picked; otherwise its head is the candidate chosen for the group |
| Greedy.RunExtend | src/lib/scoring.js:145 | taking the chosen candidate extends a valid run of the greedy loop by one group |
| Greedy.RunSkip | src/lib/scoring.js:145 | skipping a group all of whose members are picked extends a valid run |
| Greedy.GreedyPass | src/lib/scoring.js:134-146 | the loop's picks form a greedy run: in group order, each pick is the group member not yet picked that is least under (novelty, score, salary) with ties to the earliest, and a group is skipped only when all its members were picked before its turn; such a run is unique (Greedy.GreedyRunUnique); the older loop at src/App.js:136-148 is the same run, with a missing salary counted as 9e9 instead of +∞ |
| Greedy.GroupIndexFromMeaning | src/lib/scoring.js:123-127 | the scan from group i returns the first matching group from i on, or −1 when none matches |
| Greedy.GroupIndexMeaning | src/lib/scoring.js:123-127 | `groupIndexOf` is the first group the categories meet, or −1 when they meet none |
| Greedy.GroupIndexOf | src/lib/scoring.js:123-127 | the loop with early return computes the first matching group, or −1 |
| Greedy.GreedyPickGroups | src/lib/scoring.js:134-146 | at most one pick per group; each pick has a category in the group it was picked for, and its `groupIndexOf` is that group or an earlier one |
| Greedy.GreedyEmptyIff | src/lib/scoring.js:134-146 | the greedy pass picks nobody iff no candidate has a category in any group |
| Greedy.RunRestrict | src/lib/scoring.js:134-146 | the state of the loop after the first n groups of a run over n+1 groups is a run itself |
| Greedy.RunStep | src/lib/scoring.js:135-145 | one iteration for group n: nothing is pushed iff every member of the group was picked before, and otherwise the pushed candidate is the group's choice |
| Greedy.ChosenUnique | src/lib/scoring.js:135-143 | the head of the filtered and sorted eligible list is at most one candidate |
| Greedy.GreedyRunUnique | src/lib/scoring.js:134-146 | two greedy runs over the same candidates, groups and options are equal, picks and groups alike |
| Greedy.TwoCandidatesRun | src/lib/scoring.js:134-146 | with A of frontend and backend (score 10) and B of backend (score 5), the run picks A for frontend and B for backend |
| Greedy.TwoCandidatesNotSkipped | src/lib/scoring.js:134-146 | for the same two candidates, picking only A, for backend, while skipping frontend is not a run |
| Budget.KnownSalaries | src/lib/scoring.js:120 | the known salaries are no more numerous than the picks |
| Budget.AvgKnownRounds | src/lib/scoring.js:119-122 | the average is null iff no salary is known; otherwise it is the mean of the known salaries rounded half up |
| Budget.PriceyKeys | src/lib/scoring.js:152 | one sort key per slot |
| Budget.Slots | src/lib/scoring.js:152 | the slot numbers 0 to n−1, in order |
| Budget.Pricey | src/lib/scoring.js:152-153 | the slot order stays within the slots |
| Budget.PriceyOrder | src/lib/scoring.js:152-153 | every slot is tried exactly once, in non-increasing salary order, with a missing salary first |
| Budget.PriceySlots | src/lib/scoring.js:152-153 | the slot order covers every slot and is sorted by the slot keys |
| Budget.AltFilter | src/lib/scoring.js:158 | one flag per candidate |
| Budget.AltMask | src/lib/scoring.js:158 | one flag per candidate |
| Budget.AltKeys | src/lib/scoring.js:159 | one sort key (salary with missing as 1e12, then score) per candidate |
| Budget.Alts | src/lib/scoring.js:157-159 | the alternatives are candidates |
| Budget.AltsMeaning | src/lib/scoring.js:157-159 | the alternatives for a slot are exactly the unpicked candidates of the same `groupIndexOf` and a strictly lower salary, sorted without repeats |
| Budget.FirstFit | src/lib/scoring.js:160-164 | the alternative found is one of the alternatives |
| Budget.FirstFitMeaning | src/lib/scoring.js:160-164 | the scan finds the first alternative whose swap brings the average within budget, or none when no alternative does |
| Budget.SlotChoice | src/lib/scoring.js:155-164 | a slot finds an alternative iff some alternative fits, and the one found is a valid swap |
| Budget.TrySlot | src/lib/scoring.js:155-164 | the inner loop swaps in the first fitting alternative and returns the new average, which is within budget; with no fit it changes nothing |
| Budget.RepairFrom | src/lib/scoring.js:154-166 | the repair keeps the number of picks and picks only candidates |
| Budget.RepairFromKeeps | src/lib/scoring.js:154-166 | when no remaining slot has a fit, the picks are unchanged |
| Budget.RepairFromSwaps | src/lib/scoring.js:154-166 | when some remaining slot has a fit, the result is one swap at the first such slot in the slot order |
| Budget.RepairChanges | src/lib/scoring.js:154-166 | the repair changes the picks iff some slot has a fit |
| Budget.RepairSwapsFirst | src/lib/scoring.js:154-166 | a change is a single valid swap at the slot that comes first in the salary order among the slots with a fit |
| Budget.BudgetRepair | src/lib/scoring.js:149-168 | the budget pass keeps the number of picks and picks only candidates |
| Budget.BudgetUnchanged | src/lib/scoring.js:149-168 | the picks are unchanged iff the pass does not run (budget falsy, no known salary, or average within budget) or no slot has a fit |
| Budget.BudgetSwap | src/lib/scoring.js:149-168 | over budget with a fit, the result is exactly one swap, at the priciest slot with a fit |
| Budget.BudgetPreserves | src/lib/scoring.js:149-168 | every slot keeps its `groupIndexOf` and either its pick or gets a strictly cheaper one; distinct picks stay distinct; any change leaves the average within budget |
| Budget.BudgetPass | src/lib/scoring.js:149-168 | the loop with its two `break`s computes the budget repair |
| AutoPick.ScoreAll | src/lib/scoring.js:130 | one scored record per candidate |
| AutoPick.ScoreCandidates | src/lib/scoring.js:130 | the loop scores every candidate in order |
| AutoPick.PickFacts | src/lib/scoring.js:129-170 | at most one pick per group, no candidate twice, each pick in some group, and no picks iff no candidate is in any group |
| AutoPick.AutoPick | src/lib/scoring.js:129-170 | returns the candidates of a greedy run followed by the budget repair, and every greedy run over the same inputs gives these picks, so they are determined by the inputs; at most 5 distinct picks, each in a group, empty iff no candidate is in any group |
| Legacy.TotalOfKnown | src/App.js:150 | the sum with missing salaries as 0 is the sum of the known salaries |
| Legacy.MeanOfKnown | src/App.js:150 | the average is 0 for no picks, else the sum of known salaries over the number of picks |
| Legacy.CheaperMask | src/App.js:154 | one flag per candidate |
| Legacy.CheaperKeys | src/App.js:155 | one key per candidate |
| Legacy.Cheaper | src/App.js:153-155 | the cheaper list holds candidates |
| Legacy.CheaperMeaning | src/App.js:153-155 | the cheaper list is empty iff no candidate has a known salary below the last pick's (9e9 when unknown); otherwise its head is the cheapest, ties to the earliest |
| Legacy.Repair | src/App.js:149-158 | the repair keeps the number of picks and picks only candidates |
| Legacy.RepairMeaning | src/App.js:149-158 | the picks change iff the average is over a truthy budget, there is a pick and a cheaper candidate; a change replaces only the last pick, with the cheapest cheaper candidate |
| Legacy.BudgetPass | src/App.js:149-158 | the conditional assignment computes the repair |
| Legacy.TwoSalariesMean | src/App.js:150 | the average of salaries 100 and 200 is 150 |
| Legacy.TwoSalariesCheaper | src/App.js:153-155 | of those two, only the first is cheaper than the last pick |
| Legacy.RepairMayRepeat | src/App.js:152-156 | with no already-picked filter, the repair can pick the same candidate twice |
| Legacy.LegacyAutoPick | src/App.js:133-160 | returns the candidates of a greedy run (missing salary 9e9) followed by the older repair, and every such run gives these picks; at most 5 of them |
| Explain.Take | src/lib/scoring.js:174 | `slice(0, n)` keeps the first n elements, or all when fewer |
| Explain.NonEmpty | src/lib/scoring.js:175 | `filter(Boolean)` keeps exactly the non-empty strings |
| Explain.BulletsOf | src/lib/scoring.js:180-185 | there are 1 to 4 bullets and the region bullet is last |
| Explain.BulletsCount | src/lib/scoring.js:180-185 | one bullet per non-empty part plus the region bullet, none of them empty |
| Explain.Explain | src/lib/scoring.js:172-187 | the role categories are the candidate's categories; 1 to 4 bullets, the region bullet last; the older copy at src/App.js:162-177 is the same function |
| Explain.ExplainCount | src/lib/scoring.js:178-186 | the number of bullets is one plus one per present optional bullet, and every bullet is non-empty |
| Explain.HeadedList | src/lib/scoring.js:181-182 | a headed comma-joined list starts with its heading and contains every item |
| Explain.ExperienceBullet | src/lib/scoring.js:175 | the experience bullet is there iff one of the first three work entries names a company; it comes first and names every such company |
| Explain.SkillsBullet | src/lib/scoring.js:174 | the skills bullet is there iff there are skills; it follows the experience bullet and names the first eight skills |
| Explain.TopSchoolMeaning | src/lib/scoring.js:177 | the top school is a flagged degree's school, the first top-25 school when it has one, and empty only when both lookups fail |
| Explain.PedigreeBullet | src/lib/scoring.js:183 | with a top school, the bullet before last is "Pedigree: " and the school |
| Explain.RegionBulletMeaning | src/lib/scoring.js:184 | the last bullet names the region and the raw salary text, or "—" when it is empty |
| Listing.MatchMask | src/App.js:216-221 | one flag per record |
| Listing.Pick | src/App.js:216 | the records at the kept positions, in order |
| Listing.SearchEmptyQuery | src/App.js:217 | an empty normalised query keeps every record in order |
| Listing.IdentitySelect | src/App.js:217 | filtering with an always-true test keeps every position |
| Listing.SearchKeepsMatches | src/App.js:213-222 | the search keeps exactly the records whose haystack contains the normalised query, in input order |
| Listing.SearchFindsField | src/App.js:218-220 | a record whose name, email, location, skill, role name or company contains the query matches |
| Listing.SortByScore | src/App.js:227 | the in-place sort leaves the scores non-increasing and the same records |
| Listing.InsertLast | src/App.js:227 | one insertion step extends the sorted prefix by one and permutes the array |
| Listing.ShortlistAdd | src/App.js:376 | after adding, the shortlist has an entry with the candidate's email |
| Listing.AddMeaning | src/App.js:376 | adding changes nothing if an entry has the same email, and otherwise appends exactly the candidate |
| Listing.AddIdempotent | src/App.js:376 | adding twice is adding once |
| Listing.AddKeepsEmailsDistinct | src/App.js:376 | a shortlist without repeated emails keeps none |
| Listing.ShortlistRemove | src/App.js:409 | the target is gone and every other entry is kept |
| Listing.RemoveConcat | src/App.js:409 | removal works piece by piece, so the rest keep their order |
| Listing.RemoveCounts | src/App.js:409 | every other entry keeps its multiplicity and the target has none |
| Listing.RemoveUndoesAdd | src/App.js:409 | removing a newly added candidate gives back the shortlist |
| Listing.RemoveAbsent | src/App.js:409 | removing an absent candidate changes nothing |
| Paging.PageCountMeaning | src/App.js:233 | at least one page; the pages hold every row and one page fewer would not |
| Paging.Settle | src/App.js:235-237 | a page past the end moves to the last page, which exists; a page in range stays |
| Paging.CurrentRowsMeaning | src/App.js:239-242 | the rows on a page are the next pageSize rows from (page−1)·pageSize, fewer at the end, none past it |
| Paging.PagesCover | src/App.js:233-242 | every row is on page k / pageSize + 1, which exists, at position k % pageSize |
| Paging.Goto | src/App.js:244 | lands in [1, pageCount] whenever pageCount ≥ 1, and on n itself when n is in range; the component's `goto` at src/components/Pager.jsx:4 is the same clamp |
| Paging.GotoClamp | src/components/Pager.jsx:4 | going twice is going once; below 1 gives 1 and past the end gives the last page |
| Paging.PageWindowMeaning | src/App.js:245-249 | the consecutive pages from start = max(1, page−2) to min(pageCount, start+4), so at most five, all existing, containing the current page when it exists; the component's window at src/components/Pager.jsx:5-7 is the same run |
| Paging.ShowingMeaning | src/components/Pager.jsx:12 | neither bound exceeds the row count; on an existing page they count exactly the rows on show, from (page−1)·pageSize+1; an empty list shows 0–0 on a page from 1; the inline pager at src/App.js:254 shows the same bounds |
| Paging.ChangePageSizeMeaning | src/components/Pager.jsx:25 | a new page size lands on page 1, which exists and shows the first rows; the inline pager at src/App.js:265 resets the same way |

## Left out

- Rendering, React hooks and the effects that reset the page (`useEffect` on data, query and weights) are not modelled. The model covers the values these compute from, not when React recomputes them.
- Loading, upload, export, `alert` and the demo fetch are I/O and are not modelled.
- In `norm`, only ASCII letters are lower-cased. Unicode case mapping is not modelled.
- The region rules are literal fragment lists tested with substring search, not regular expressions.
- Scoring.ParseSalary: reads the digit string as an unbounded natural number. It does not model JavaScript `Number` rounding for very long digit strings.
- Weights and scores are exact `real`s, not IEEE doubles. A budget that is NaN or not a number is not modelled.
- Candidate identity (`===` on records) is modelled as a position for the auto-selector and as value equality for the shortlist.
- Listing.ShortlistRemove: removes every entry equal in value to the target. Two records that are equal in value, but are distinct objects, are both removed.
- Listing.ShortlistAdd: an absent email and an empty one are the same, so two records without an email count as the same email, as `undefined === undefined` does.
- Explain.Explain: `roleCats` is the category set. The order `Array.from` lists the categories in is not modelled.
- Explain.Explain: each bullet is a concatenation of fixed text and the named parts. The `join(", ")` separators are modelled, but no formatting beyond that.
- Listing.SortByScore: states that the result is sorted and a permutation. It does not state that the sort is stable, as `Array.prototype.sort` is.
- Greedy.GreedyPass: the groups each pick was made for are returned as a ghost value, used only to state the run.
- Records and list entries are never null. Scoring reads work entries and degrees through `?.`, so a null entry there would act like one with empty fields. `explain` reads `w.company` without a guard (src/lib/scoring.js:175), and the search reads `w.roleName`, `w.company` and `c.name` without one (src/App.js:218). There a null entry or record throws a `TypeError`. Those error paths are not modelled: `Explain.Explain` and `Listing.Search` always return a result.
- The regions of the candidates are computed once (`Greedy.Regions`) rather than in every comparator call; they depend on the candidate alone.
- Paging.PageCount: requires a positive page size. The page-size selector offers only 10, 25, 50 and 100, so a zero page size cannot occur.
- Pager components other than the arithmetic (buttons, disabled states) and all other components are markup and are not modelled.
- `yearsExperience` is the length of the work-entry list and appears only inside the score; it has no contract of its own.
