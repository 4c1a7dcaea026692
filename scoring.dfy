/** The per-candidate part of the engine in src/lib/scoring.js: the field
    extractors, the categoriser, the region resolver and the scorer. */
module Scoring {
  import opened Records
  import opened Text
  import opened Tables

  // ---------------------------------------------------------------------
  // parseSalary

  predicate IsDigit(ch: char) {
    '0' as int <= ch as int <= '9' as int
  }

  /** `s.replace(/[^\d]/g, "")`: the digit characters of `s`, in order. */
  function DigitsOf(s: string): (r: string)
    ensures |r| <= |s|
    ensures forall i :: 0 <= i < |r| ==> IsDigit(r[i])
  {
    if s == [] then []
    else (if IsDigit(s[0]) then [s[0]] else []) + DigitsOf(s[1..])
  }

  lemma {:induction false} DigitsOfConcat(a: string, b: string)
    ensures DigitsOf(a + b) == DigitsOf(a) + DigitsOf(b)
  {
    if a == [] {
      assert a + b == b;
    } else {
      assert (a + b)[0] == a[0];
      assert (a + b)[1..] == a[1..] + b;
      DigitsOfConcat(a[1..], b);
    }
  }

  /** The value of a string of decimal digits (`Number(digits)`; "" is 0). */
  function DecimalValue(ds: string): nat
    requires forall i :: 0 <= i < |ds| ==> IsDigit(ds[i])
  {
    if ds == [] then 0
    else
      assert IsDigit(ds[|ds| - 1]);
      DecimalValue(ds[..|ds| - 1]) * 10 + (ds[|ds| - 1] as int - '0' as int)
  }

  /** The decimal spelling of `n`, without leading zeros. */
  function Decimal(n: nat): (r: string)
    ensures |r| > 0 && forall i :: 0 <= i < |r| ==> IsDigit(r[i])
  {
    if n < 10 then [('0' as int + n) as char]
    else Decimal(n / 10) + [('0' as int + n % 10) as char]
  }

  /** Reading back the decimal spelling of a number gives the number. */
  lemma {:induction false} DecimalRoundTrip(n: nat)
    ensures DigitsOf(Decimal(n)) == Decimal(n)
    ensures DecimalValue(Decimal(n)) == n
  {
    var d := ('0' as int + n % 10) as char;
    if n < 10 {
      assert Decimal(n) == [d];
    } else {
      DecimalRoundTrip(n / 10);
      DigitsOfConcat(Decimal(n / 10), [d]);
      var r := Decimal(n);
      assert r[..|r| - 1] == Decimal(n / 10);
    }
  }

  /** `parseSalary`: the number formed by the digits of the "full-time"
      salary string, or None when the string is empty or its digits make 0. */
  function ParseSalary(c: Candidate): (r: Option<nat>)
    ensures r.Some? ==> r.value > 0
    ensures r.Some? ==> r.value == DecimalValue(DigitsOf(c.fullTimeSalary))
    ensures r.None? <==> c.fullTimeSalary == "" || DecimalValue(DigitsOf(c.fullTimeSalary)) == 0
  {
    if c.fullTimeSalary == "" then None
    else
      var v := DecimalValue(DigitsOf(c.fullTimeSalary));
      if v == 0 then None else Some(v)
  }

  /** A positive amount written with any non-digit decoration around it
      (a currency sign, a suffix) is read back exactly. */
  lemma ParseSalaryReadsAmount(c: Candidate, pre: string, n: nat, post: string)
    requires n > 0
    requires forall i :: 0 <= i < |pre| ==> !IsDigit(pre[i])
    requires forall i :: 0 <= i < |post| ==> !IsDigit(post[i])
    requires c.fullTimeSalary == pre + Decimal(n) + post
    ensures ParseSalary(c) == Some(n)
  {
    DigitsOfConcat(pre + Decimal(n), post);
    DigitsOfConcat(pre, Decimal(n));
    NoDigits(pre);
    NoDigits(post);
    DecimalRoundTrip(n);
    assert DigitsOf(c.fullTimeSalary) == Decimal(n);
    assert |c.fullTimeSalary| >= |Decimal(n)| > 0;
  }

  lemma {:induction false} NoDigits(s: string)
    requires forall i :: 0 <= i < |s| ==> !IsDigit(s[i])
    ensures DigitsOf(s) == ""
  {
    if s != [] {
      NoDigits(s[1..]);
    }
  }

  /** "$92,000" reads as 92000. */
  lemma ParseSalaryExample(c: Candidate)
    requires c.fullTimeSalary == "$92,000"
    ensures ParseSalary(c) == Some(92000)
  {
    ExampleDigits();
    assert "92000"[..4] == "9200" && "9200"[..3] == "920" && "920"[..2] == "92" && "92"[..1] == "9";
    assert DecimalValue("92000") == 92000;
  }

  lemma ExampleDigits()
    ensures DigitsOf("$92,000") == "92000"
  {
    assert "$92,000" == "$" + "92" + ",000";
    DigitsOfConcat("$" + "92", ",000");
    DigitsOfConcat("$", "92");
    assert DigitsOf(",000") == "000";
    assert DigitsOf("92") == "92";
    assert DigitsOf("$") == "";
  }

  // ---------------------------------------------------------------------
  // yearsExperience, gradTier

  /** `yearsExperience`: the number of work entries. */
  function YearsExperience(c: Candidate): nat {
    |c.workExperiences|
  }

  predicate Flagged(d: Degree, top25: bool) {
    if top25 then d.isTop25 else d.isTop50
  }

  /** `degs.find((d) => d?.isTop25)` (or `isTop50`), as an index. */
  function FindFlagged(degs: seq<Degree>, top25: bool): (r: Option<nat>)
    ensures r.Some? ==> r.value < |degs| && Flagged(degs[r.value], top25)
    ensures r.Some? ==> forall j :: 0 <= j < r.value ==> !Flagged(degs[j], top25)
    ensures r.None? <==> forall j :: 0 <= j < |degs| ==> !Flagged(degs[j], top25)
  {
    if degs == [] then None
    else if Flagged(degs[0], top25) then Some(0)
    else
      var rest := FindFlagged(degs[1..], top25);
      assert forall j :: 1 <= j < |degs| ==> degs[j] == degs[1..][j - 1];
      match rest
      case None => None
      case Some(k) => Some(k + 1)
  }

  /** `gradTier`: 2 when some degree is top-25, else 1 when some degree is
      top-50, else 0. */
  function GradTier(c: Candidate): (r: nat)
    ensures r <= 2
    ensures r == 2 <==> exists j :: 0 <= j < |c.degrees| && c.degrees[j].isTop25
    ensures r == 1 <==> (forall j :: 0 <= j < |c.degrees| ==> !c.degrees[j].isTop25)
                        && (exists j :: 0 <= j < |c.degrees| && c.degrees[j].isTop50)
  {
    var top25 := FindFlagged(c.degrees, true).Some?;
    var top50 := FindFlagged(c.degrees, false).Some?;
    if top25 then 2 else if top50 then 1 else 0
  }

  // ---------------------------------------------------------------------
  // hasSkill

  /** `hays.some((h) => norm(h).includes(ns))`. */
  function SomeNormContains(hays: seq<string>, ns: string): (r: bool)
    ensures r <==> exists i :: 0 <= i < |hays| && Contains(Norm(hays[i]), ns)
  {
    if hays == [] then false
    else if Contains(Norm(hays[0]), ns) then true
    else
      var rest := SomeNormContains(hays[1..], ns);
      assert forall i :: 1 <= i < |hays| ==> hays[i] == hays[1..][i - 1];
      rest
  }

  function RoleNames(work: seq<WorkEntry>): (r: seq<string>)
    ensures |r| == |work| && forall i :: 0 <= i < |work| ==> r[i] == work[i].roleName
  {
    seq(|work|, i requires 0 <= i < |work| => work[i].roleName)
  }

  function Companies(work: seq<WorkEntry>): (r: seq<string>)
    ensures |r| == |work| && forall i :: 0 <= i < |work| ==> r[i] == work[i].company
  {
    seq(|work|, i requires 0 <= i < |work| => work[i].company)
  }

  function Subjects(degs: seq<Degree>): (r: seq<string>)
    ensures |r| == |degs| && forall i :: 0 <= i < |degs| ==> r[i] == degs[i].subject
  {
    seq(|degs|, i requires 0 <= i < |degs| => degs[i].subject)
  }

  /** `hasSkill`: the normalised term occurs in some normalised skill, role
      name or degree subject. */
  function HasSkill(c: Candidate, key: string): bool {
    var ns := Norm(key);
    SomeNormContains(c.skills, ns) || SomeNormContains(RoleNames(c.workExperiences), ns)
    || SomeNormContains(Subjects(c.degrees), ns)
  }

  /** What `hasSkill` tests, without the intermediate lists. */
  lemma HasSkillMeaning(c: Candidate, key: string)
    ensures HasSkill(c, key) <==>
      || (exists i :: 0 <= i < |c.skills| && Contains(Norm(c.skills[i]), Norm(key)))
      || (exists i :: 0 <= i < |c.workExperiences| && Contains(Norm(c.workExperiences[i].roleName), Norm(key)))
      || (exists i :: 0 <= i < |c.degrees| && Contains(Norm(c.degrees[i].subject), Norm(key)))
  {
    var rn := RoleNames(c.workExperiences);
    var sb := Subjects(c.degrees);
    assert SomeNormContains(rn, Norm(key)) <==>
      exists i :: 0 <= i < |c.workExperiences| && Contains(Norm(c.workExperiences[i].roleName), Norm(key));
    assert SomeNormContains(sb, Norm(key)) <==>
      exists i :: 0 <= i < |c.degrees| && Contains(Norm(c.degrees[i].subject), Norm(key));
  }

  /** The match is by substring: whatever has a longer term also has every
      part of it ("react native" counts for "react"). */
  lemma HasSkillOfPart(c: Candidate, whole: string, part: string)
    requires Contains(Norm(whole), Norm(part))
    requires HasSkill(c, whole)
    ensures HasSkill(c, part)
  {
    HasSkillMeaning(c, whole);
    HasSkillMeaning(c, part);
    if i :| 0 <= i < |c.skills| && Contains(Norm(c.skills[i]), Norm(whole)) {
      ContainsTransitive(Norm(c.skills[i]), Norm(whole), Norm(part));
    } else if i :| 0 <= i < |c.workExperiences| && Contains(Norm(c.workExperiences[i].roleName), Norm(whole)) {
      ContainsTransitive(Norm(c.workExperiences[i].roleName), Norm(whole), Norm(part));
    } else {
      var i :| 0 <= i < |c.degrees| && Contains(Norm(c.degrees[i].subject), Norm(whole));
      ContainsTransitive(Norm(c.degrees[i].subject), Norm(whole), Norm(part));
    }
  }

  // ---------------------------------------------------------------------
  // categorize

  type Table = seq<(Category, seq<string>)>

  /** The keys of `table` that have some keyword occurring in `ns`. */
  function TableHits(ns: string, table: Table): set<Category> {
    if table == [] then {}
    else
      var n := |table| - 1;
      TableHits(ns, table[..n]) + (if ContainsAny(ns, table[n].1) then {table[n].0} else {})
  }

  /** A category is hit exactly when one of its entries has a keyword in `ns`. */
  lemma {:induction false} TableHitsMembership(ns: string, table: Table, cat: Category)
    ensures cat in TableHits(ns, table) <==>
      exists j :: 0 <= j < |table| && table[j].0 == cat && ContainsAny(ns, table[j].1)
  {
    if table != [] {
      var n := |table| - 1;
      TableHitsMembership(ns, table[..n], cat);
      assert forall j :: 0 <= j < n ==> table[..n][j] == table[j];
    }
  }

  /** What one normalised role name adds: the hits of the role table and
      the two hard-coded rules. */
  function RoleHits(rn: string, roles: Table): set<Category> {
    TableHits(rn, roles)
    + (if Contains(rn, "developer") && Contains(rn, "full") then {Fullstack} else {})
    + (if Contains(rn, "software engineer") then {Backend} else {})
  }

  /** What the skills contribute: the keyword hits of each normalised skill. */
  function SkillCats(skills: seq<string>, table: Table): set<Category> {
    if skills == [] then {}
    else
      var n := |skills| - 1;
      SkillCats(skills[..n], table) + TableHits(Norm(skills[n]), table)
  }

  /** A category comes from the skills exactly when some normalised skill hits it. */
  lemma {:induction false} SkillCatsAt(skills: seq<string>, table: Table, cat: Category)
    ensures cat in SkillCats(skills, table) <==>
      exists i :: 0 <= i < |skills| && cat in TableHits(Norm(skills[i]), table)
  {
    if skills != [] {
      var n := |skills| - 1;
      SkillCatsAt(skills[..n], table, cat);
      assert forall i :: 0 <= i < n ==> skills[..n][i] == skills[i];
    }
  }

  /** What the work history contributes. */
  function RoleCats(work: seq<WorkEntry>, roles: Table): set<Category> {
    if work == [] then {}
    else
      var n := |work| - 1;
      RoleCats(work[..n], roles) + RoleHits(Norm(work[n].roleName), roles)
  }

  /** A category comes from the work history exactly when some normalised
      role name hits it. */
  lemma {:induction false} RoleCatsAt(work: seq<WorkEntry>, roles: Table, cat: Category)
    ensures cat in RoleCats(work, roles) <==>
      exists w :: w in work && cat in RoleHits(Norm(w.roleName), roles)
  {
    if work != [] {
      var n := |work| - 1;
      RoleCatsAt(work[..n], roles, cat);
      assert forall w :: w in work <==> w in work[..n] || w == work[n];
    }
  }

  /** The category set `categorize` returns. */
  function Categories(c: Candidate): set<Category> {
    SkillCats(c.skills, Kw) + RoleCats(c.workExperiences, RoleMap)
  }

  /** The skill half of `categorize`: for each skill, every table entry. */
  method CategorizeSkills(skills: seq<string>, table: Table) returns (cats: set<Category>)
    ensures cats == SkillCats(skills, table)
  {
    cats := {};
    for i := 0 to |skills|
      invariant cats == SkillCats(skills[..i], table)
    {
      var ns := Norm(skills[i]);
      for j := 0 to |table|
        invariant cats == SkillCats(skills[..i], table) + TableHits(ns, table[..j])
      {
        if ContainsAny(ns, table[j].1) {
          cats := cats + {table[j].0};
        }
        assert table[..j + 1][..j] == table[..j];
      }
      assert table[..|table|] == table;
      assert skills[..i + 1][..i] == skills[..i];
    }
    assert skills[..|skills|] == skills;
  }

  /** The work half of `categorize`, adding to `cats`. */
  method CategorizeRoles(work: seq<WorkEntry>, roles: Table, init: set<Category>) returns (cats: set<Category>)
    ensures cats == init + RoleCats(work, roles)
  {
    cats := init;
    for i := 0 to |work|
      invariant cats == init + RoleCats(work[..i], roles)
    {
      var rn := Norm(work[i].roleName);
      for j := 0 to |roles|
        invariant cats == init + RoleCats(work[..i], roles) + TableHits(rn, roles[..j])
      {
        if ContainsAny(rn, roles[j].1) {
          cats := cats + {roles[j].0};
        }
        assert roles[..j + 1][..j] == roles[..j];
      }
      assert roles[..|roles|] == roles;
      if Contains(rn, "developer") && Contains(rn, "full") {
        cats := cats + {Fullstack};
      }
      if Contains(rn, "software engineer") {
        cats := cats + {Backend};
      }
      assert work[..i + 1][..i] == work[..i];
    }
    assert work[..|work|] == work;
  }

  /** `categorize`: fills one set from the skills against `kw` and then from
      the role names against `roleMap`. */
  method Categorize(c: Candidate) returns (cats: set<Category>)
    ensures cats == Categories(c)
  {
    cats := CategorizeSkills(c.skills, Kw);
    cats := CategorizeRoles(c.workExperiences, RoleMap, cats);
  }

  /** Membership in the category set, stated without the recursion over the
      tables: a category is in it exactly when one of its `kw` keywords
      occurs in a normalised skill, one of its `roleMap` keywords occurs in
      a normalised role name, or one of the two role rules fires. */
  lemma CategoriesMembership(c: Candidate, cat: Category)
    ensures cat in Categories(c) <==>
      || (exists i, j :: 0 <= i < |c.skills| && 0 <= j < |Kw| && Kw[j].0 == cat && ContainsAny(Norm(c.skills[i]), Kw[j].1))
      || (exists w, j :: w in c.workExperiences && 0 <= j < |RoleMap| && RoleMap[j].0 == cat
                         && ContainsAny(Norm(w.roleName), RoleMap[j].1))
      || (cat == Fullstack && exists w :: (w in c.workExperiences
                         && Contains(Norm(w.roleName), "developer") && Contains(Norm(w.roleName), "full")))
      || (cat == Backend && exists w :: w in c.workExperiences && Contains(Norm(w.roleName), "software engineer"))
  {
    SkillCatsMembership(c.skills, Kw, cat);
    RoleCatsMembership(c.workExperiences, RoleMap, cat);
    assert cat in Categories(c) <==>
      cat in SkillCats(c.skills, Kw) || cat in RoleCats(c.workExperiences, RoleMap);
  }

  lemma SkillCatsMembership(skills: seq<string>, kw: Table, cat: Category)
    ensures cat in SkillCats(skills, kw) <==>
      exists i, j :: 0 <= i < |skills| && 0 <= j < |kw| && kw[j].0 == cat && ContainsAny(Norm(skills[i]), kw[j].1)
  {
    SkillCatsAt(skills, kw, cat);
    if cat in SkillCats(skills, kw) {
      var i :| 0 <= i < |skills| && cat in TableHits(Norm(skills[i]), kw);
      TableHitsMembership(Norm(skills[i]), kw, cat);
    }
    if exists i, j :: 0 <= i < |skills| && 0 <= j < |kw| && kw[j].0 == cat && ContainsAny(Norm(skills[i]), kw[j].1) {
      var i, j :| 0 <= i < |skills| && 0 <= j < |kw| && kw[j].0 == cat && ContainsAny(Norm(skills[i]), kw[j].1);
      TableHitsMembership(Norm(skills[i]), kw, cat);
    }
  }

  lemma RoleHitsMembership(rn: string, roles: Table, cat: Category)
    ensures cat in RoleHits(rn, roles) <==>
      || (exists j :: 0 <= j < |roles| && roles[j].0 == cat && ContainsAny(rn, roles[j].1))
      || (cat == Fullstack && Contains(rn, "developer") && Contains(rn, "full"))
      || (cat == Backend && Contains(rn, "software engineer"))
  {
    TableHitsMembership(rn, roles, cat);
  }

  lemma RoleCatsMembership(work: seq<WorkEntry>, roles: Table, cat: Category)
    ensures cat in RoleCats(work, roles) <==>
      || (exists w, j :: w in work && 0 <= j < |roles| && roles[j].0 == cat
                         && ContainsAny(Norm(w.roleName), roles[j].1))
      || (cat == Fullstack && exists w :: (w in work
                         && Contains(Norm(w.roleName), "developer") && Contains(Norm(w.roleName), "full")))
      || (cat == Backend && exists w :: w in work && Contains(Norm(w.roleName), "software engineer"))
  {
    RoleCatsAt(work, roles, cat);
    forall w | w in work {
      RoleHitsMembership(Norm(w.roleName), roles, cat);
    }
  }

  /** A candidate with no skills and no work history has no category. */
  lemma CategoriesOfEmpty(c: Candidate)
    requires c.skills == [] && c.workExperiences == []
    ensures Categories(c) == {}
  {
  }

  /** Reordering (or otherwise permuting) the skills and the work entries
      does not change the category set. */
  lemma CategoriesOrderIndependent(c: Candidate, d: Candidate)
    requires multiset(c.skills) == multiset(d.skills)
    requires multiset(c.workExperiences) == multiset(d.workExperiences)
    ensures Categories(c) == Categories(d)
  {
    forall s ensures s in c.skills <==> s in d.skills {
      assert s in c.skills <==> s in multiset(c.skills);
      assert s in d.skills <==> s in multiset(d.skills);
    }
    forall w ensures w in c.workExperiences <==> w in d.workExperiences {
      assert w in c.workExperiences <==> w in multiset(c.workExperiences);
      assert w in d.workExperiences <==> w in multiset(d.workExperiences);
    }
    SkillCatsSubset(c.skills, d.skills, Kw);
    SkillCatsSubset(d.skills, c.skills, Kw);
    RoleCatsSubset(c.workExperiences, d.workExperiences, RoleMap);
    RoleCatsSubset(d.workExperiences, c.workExperiences, RoleMap);
  }

  /** Skills that all occur in `b` yield no category `b` does not yield. */
  lemma SkillCatsSubset(a: seq<string>, b: seq<string>, table: Table)
    requires forall s :: s in a ==> s in b
    ensures SkillCats(a, table) <= SkillCats(b, table)
  {
    forall cat | cat in SkillCats(a, table) ensures cat in SkillCats(b, table) {
      SkillCatsAt(a, table, cat);
      SkillCatsAt(b, table, cat);
      var i :| 0 <= i < |a| && cat in TableHits(Norm(a[i]), table);
      assert a[i] in b;
      var j :| 0 <= j < |b| && b[j] == a[i];
    }
  }

  /** Work entries that all occur in `b` yield no category `b` does not yield. */
  lemma RoleCatsSubset(a: seq<WorkEntry>, b: seq<WorkEntry>, roles: Table)
    requires forall w :: w in a ==> w in b
    ensures RoleCats(a, roles) <= RoleCats(b, roles)
  {
    forall cat | cat in RoleCats(a, roles) ensures cat in RoleCats(b, roles) {
      RoleCatsAt(a, roles, cat);
      RoleCatsAt(b, roles, cat);
    }
  }

  /** No entry of `roleMap` has the key mobile, and no entry of `kw` the key
      fullstack. */
  lemma TableKeys()
    ensures forall j :: 0 <= j < |RoleMap| ==> RoleMap[j].0 != Mobile
    ensures forall j :: 0 <= j < |Kw| ==> Kw[j].0 != Fullstack
  {
  }

  /** Mobile only ever comes from a skill: no role name yields it. */
  lemma MobileOnlyFromSkills(c: Candidate)
    requires Mobile in Categories(c)
    ensures exists i :: 0 <= i < |c.skills| && Mobile in TableHits(Norm(c.skills[i]), Kw)
  {
    RoleCatsAt(c.workExperiences, RoleMap, Mobile);
    SkillCatsAt(c.skills, Kw, Mobile);
    if Mobile in RoleCats(c.workExperiences, RoleMap) {
      var w :| w in c.workExperiences && Mobile in RoleHits(Norm(w.roleName), RoleMap);
      RoleHitsMembership(Norm(w.roleName), RoleMap, Mobile);
      TableKeys();
      assert false;
    }
    assert Mobile in SkillCats(c.skills, Kw);
  }

  /** Fullstack only ever comes from a role name: no skill yields it. */
  lemma FullstackOnlyFromRoles(c: Candidate)
    requires Fullstack in Categories(c)
    ensures exists w :: w in c.workExperiences && Fullstack in RoleHits(Norm(w.roleName), RoleMap)
  {
    RoleCatsAt(c.workExperiences, RoleMap, Fullstack);
    SkillCatsAt(c.skills, Kw, Fullstack);
    if Fullstack in SkillCats(c.skills, Kw) {
      var i :| 0 <= i < |c.skills| && Fullstack in TableHits(Norm(c.skills[i]), Kw);
      TableHitsMembership(Norm(c.skills[i]), Kw, Fullstack);
      TableKeys();
      assert false;
    }
  }

  // ---------------------------------------------------------------------
  // regionOf

  /** The first location rule, from index `from` on, with a fragment in `s`. */
  function FirstMatchingRule(s: string, from: nat): (r: Option<nat>)
    requires from <= |RegionRules|
    ensures r.Some? ==> from <= r.value < |RegionRules| && ContainsAny(s, RegionRules[r.value].0)
    ensures r.Some? ==> forall j :: from <= j < r.value ==> !ContainsAny(s, RegionRules[j].0)
    ensures r.None? <==> forall j :: from <= j < |RegionRules| ==> !ContainsAny(s, RegionRules[j].0)
    decreases |RegionRules| - from
  {
    if from == |RegionRules| then None
    else if ContainsAny(s, RegionRules[from].0) then Some(from)
    else FirstMatchingRule(s, from + 1)
  }

  /** `regionOf`. */
  function RegionOf(loc: string): (r: Region)
    ensures loc == "" ==> r == Unknown
  {
    var s := Norm(loc);
    if s == "" then Unknown
    else match FirstMatchingRule(s, 0)
      case Some(k) => RegionRules[k].1
      case None => Unknown
  }

  /** A non-empty location resolves to the region of the first rule, in list
      order, that has one of its fragments in the normalised location. */
  lemma RegionOfFirstRule(loc: string, k: nat)
    requires loc != ""
    requires k < |RegionRules| && ContainsAny(Norm(loc), RegionRules[k].0)
    requires forall j :: 0 <= j < k ==> !ContainsAny(Norm(loc), RegionRules[j].0)
    ensures RegionOf(loc) == RegionRules[k].1
  {
    var r := FirstMatchingRule(Norm(loc), 0);
    assert r.Some?;
  }

  /** "Unknown" exactly for an empty location or one that no rule matches
      (no rule maps to Unknown). */
  lemma RegionUnknownIff(loc: string)
    ensures RegionOf(loc) == Unknown <==>
      loc == "" || forall j :: 0 <= j < |RegionRules| ==> !ContainsAny(Norm(loc), RegionRules[j].0)
  {
    assert forall j :: 0 <= j < |RegionRules| ==> RegionRules[j].1 != Unknown;
  }

  // ---------------------------------------------------------------------
  // computeScore

  /** `weights?.[cat] ?? 1`. */
  function WeightOf(weights: map<Category, real>, cat: Category): real {
    if cat in weights then weights[cat] else 1.0
  }

  /** `w * p` for a natural `p`, as `p` additions of `w`; every priority is a
      natural number. */
  function Scale(w: real, p: nat): real {
    if p == 0 then 0.0 else Scale(w, p - 1) + w
  }

  lemma {:induction false} ScaleIsProduct(w: real, p: nat)
    ensures Scale(w, p) == w * p as real
  {
    if p > 0 {
      ScaleIsProduct(w, p - 1);
      assert w * p as real == w * (p - 1) as real + w;
    }
  }

  lemma {:induction false} ScaleSplit(a: real, b: real, p: nat)
    ensures Scale(a + b, p) == Scale(a, p) + Scale(b, p)
  {
    if p > 0 {
      ScaleSplit(a, b, p - 1);
    }
  }

  lemma {:induction false} ScaleAdd(w: real, m: nat, n: nat)
    ensures Scale(w, m + n) == Scale(w, m) + Scale(w, n)
  {
    if n > 0 {
      ScaleAdd(w, m, n - 1);
    }
  }

  lemma {:induction false} ScaleNonNegative(w: real, p: nat)
    requires w >= 0.0
    ensures Scale(w, p) >= 0.0
  {
    if p > 0 {
      ScaleNonNegative(w, p - 1);
    }
  }

  /** The category part of the score: over the entries of `prio` whose key
      is in `cats`, their weight times their priority, summed. */
  function CategoryPoints(cats: set<Category>, weights: map<Category, real>, prio: seq<(Category, nat)>): real {
    if prio == [] then 0.0
    else
      var n := |prio| - 1;
      CategoryPoints(cats, weights, prio[..n])
      + (if prio[n].0 in cats then Scale(WeightOf(weights, prio[n].0), prio[n].1) else 0.0)
  }

  /** The total priority `prio` attaches to `cat`. */
  function PriorityOf(cat: Category, prio: seq<(Category, nat)>): nat {
    if prio == [] then 0
    else
      var n := |prio| - 1;
      PriorityOf(cat, prio[..n]) + (if prio[n].0 == cat then prio[n].1 else 0)
  }

  /** Changing one weight moves the category part by exactly the change
      times the category's priority, and only for a member category. */
  lemma {:induction false} CategoryPointsReweigh(cats: set<Category>, weights: map<Category, real>,
                                                 cat: Category, x: real, prio: seq<(Category, nat)>)
    ensures CategoryPoints(cats, weights[cat := x], prio) ==
      CategoryPoints(cats, weights, prio)
      + (if cat in cats then Scale(x - WeightOf(weights, cat), PriorityOf(cat, prio)) else 0.0)
  {
    if prio != [] {
      var n := |prio| - 1;
      var (k, p) := prio[n];
      var w := WeightOf(weights, cat);
      CategoryPointsReweigh(cats, weights, cat, x, prio[..n]);
      if k == cat && cat in cats {
        ScaleSplit(w, x - w, p);
        assert w + (x - w) == x;
        ScaleAdd(x - w, PriorityOf(cat, prio[..n]), p);
      } else if k != cat {
        assert WeightOf(weights[cat := x], k) == WeightOf(weights, k);
      }
    }
  }

  /** A category's priority is its entry's, when the keys are distinct. */
  lemma {:induction false} PriorityOfEntry(prio: seq<(Category, nat)>, j: nat)
    requires j < |prio|
    requires forall i, k :: 0 <= i < k < |prio| ==> prio[i].0 != prio[k].0
    ensures PriorityOf(prio[j].0, prio) == prio[j].1
  {
    var n := |prio| - 1;
    if j < n {
      PriorityOfEntry(prio[..n], j);
    } else {
      PriorityOfAbsent(prio[..n], prio[j].0);
    }
  }

  /** A category that is no key has priority 0. */
  lemma {:induction false} PriorityOfAbsent(prio: seq<(Category, nat)>, cat: Category)
    requires forall i :: 0 <= i < |prio| ==> prio[i].0 != cat
    ensures PriorityOf(cat, prio) == 0
  {
    if prio != [] {
      PriorityOfAbsent(prio[..|prio| - 1], cat);
    }
  }

  /** `n` points when `b` holds. */
  function Points(b: bool, n: nat): (r: nat)
    ensures r <= n
  {
    if b then n else 0
  }

  /** The flat skill bonuses: React 4, TypeScript 3, any of AWS, Azure and
      GCP 3, Node 2, Python 2, Machine Learning 2. */
  function SkillBonus(c: Candidate): (r: nat)
    ensures r <= 16
  {
    Points(HasSkill(c, "React"), 4)
    + Points(HasSkill(c, "TypeScript"), 3)
    + Points(HasSkill(c, "AWS") || HasSkill(c, "Azure") || HasSkill(c, "GCP"), 3)
    + Points(HasSkill(c, "Node"), 2)
    + Points(HasSkill(c, "Python"), 2)
    + Points(HasSkill(c, "Machine Learning"), 2)
  }

  /** The salary bracket: +5 below 80000, +3 below 110000, +1 below 140000,
      -1 from 140000, nothing without a salary. */
  function SalaryBracket(sal: Option<nat>): (r: int)
    ensures sal.None? ==> r == 0
    ensures sal.Some? ==> r in {5, 3, 1, -1}
    ensures sal.Some? && r == -1 ==> sal.value >= 140000
  {
    match sal
    case None => 0
    case Some(s) => if s < 80000 then 5 else if s < 110000 then 3 else if s < 140000 then 1 else -1
  }

  /** Everything the score adds that does not depend on the weights. */
  function FlatPoints(c: Candidate): (r: int)
    ensures -2 <= r <= 36
  {
    SkillBonus(c)
    + (if YearsExperience(c) < 8 then YearsExperience(c) else 8)
    + 2 * GradTier(c)
    + SalaryBracket(ParseSalary(c))
    + (if |c.skills| > 0 then 1 else 0)
    + (if c.name == "" then -1 else 0)
    + (if "full-time" in c.workAvailability then 2 else 0)
  }

  /** The score `computeScore` gives. */
  function Score(c: Candidate, weights: map<Category, real>): real {
    CategoryPoints(Categories(c), weights, PrioScore) + FlatPoints(c) as real
  }

  /** The weighted-category loop of `computeScore`: adds weight times
      priority for each entry of `prio` whose key is in `cats`. */
  method WeightedBase(cats: set<Category>, weights: map<Category, real>, prio: seq<(Category, nat)>)
    returns (base: real)
    ensures base == CategoryPoints(cats, weights, prio)
  {
    base := 0.0;
    for k := 0 to |prio|
      invariant base == CategoryPoints(cats, weights, prio[..k])
    {
      var (cat, p) := prio[k];
      if cat in cats {
        ScaleIsProduct(WeightOf(weights, cat), p);
        base := base + WeightOf(weights, cat) * p as real;
      }
      assert prio[..k + 1][..k] == prio[..k];
    }
    assert prio[..|prio|] == prio;
  }

  /** `computeScore`: `{ score, cats, salary }` for one candidate. */
  method ComputeScore(c: Candidate, weights: map<Category, real>) returns (meta: ScoreMeta)
    ensures meta == ScoreMeta(Score(c, weights), Categories(c), ParseSalary(c))
  {
    var cats := Categorize(c);
    var base := WeightedBase(cats, weights, PrioScore);
    meta := ScoreMeta(base + FlatPoints(c) as real, cats, ParseSalary(c));
  }

  /** The priorities of the eight weighted categories; qa and mobile carry
      none. */
  lemma PriorityTable()
    ensures PriorityOf(Frontend, PrioScore) == 10 && PriorityOf(Backend, PrioScore) == 10
    ensures PriorityOf(Fullstack, PrioScore) == 9 && PriorityOf(DataMl, PrioScore) == 9
    ensures PriorityOf(DataEngineer, PrioScore) == 9 && PriorityOf(DevopsCloud, PrioScore) == 8
    ensures PriorityOf(Product, PrioScore) == 7 && PriorityOf(Design, PrioScore) == 6
    ensures PriorityOf(Qa, PrioScore) == 0 && PriorityOf(Mobile, PrioScore) == 0
  {
    forall j | 0 <= j < |PrioScore| ensures PriorityOf(PrioScore[j].0, PrioScore) == PrioScore[j].1 {
      PriorityOfEntry(PrioScore, j);
    }
    assert PrioScore[0] == (Frontend, 10) && PrioScore[1] == (Backend, 10);
    assert PrioScore[2] == (Fullstack, 9) && PrioScore[3] == (DataMl, 9);
    assert PrioScore[4] == (DataEngineer, 9) && PrioScore[5] == (DevopsCloud, 8);
    assert PrioScore[6] == (Product, 7) && PrioScore[7] == (Design, 6);
    PriorityOfAbsent(PrioScore, Qa);
    PriorityOfAbsent(PrioScore, Mobile);
  }

  /** Changing one category's weight from w to x changes the score of a
      member of that category by exactly x - w added once per unit of its
      priority, which `ScaleIsProduct` shows is (x - w) times the priority,
      and leaves the score of a non-member unchanged. */
  lemma ScoreReweigh(c: Candidate, weights: map<Category, real>, cat: Category, x: real)
    ensures cat in Categories(c) ==>
      Score(c, weights[cat := x]) == Score(c, weights) + Scale(x - WeightOf(weights, cat), PriorityOf(cat, PrioScore))
    ensures cat !in Categories(c) ==> Score(c, weights[cat := x]) == Score(c, weights)
  {
    CategoryPointsReweigh(Categories(c), weights, cat, x, PrioScore);
  }

  /** Raising one category's weight never lowers the score of a member of
      that category and leaves the score of a non-member unchanged. */
  lemma ScoreWeightMonotone(c: Candidate, weights: map<Category, real>, cat: Category, x: real)
    requires x >= WeightOf(weights, cat)
    ensures cat in Categories(c) ==> Score(c, weights[cat := x]) >= Score(c, weights)
    ensures cat !in Categories(c) ==> Score(c, weights[cat := x]) == Score(c, weights)
  {
    CategoryPointsMonotone(Categories(c), weights, cat, x, PrioScore);
  }

  lemma CategoryPointsMonotone(cats: set<Category>, weights: map<Category, real>,
                               cat: Category, x: real, prio: seq<(Category, nat)>)
    requires x >= WeightOf(weights, cat)
    ensures cat in cats ==> CategoryPoints(cats, weights[cat := x], prio) >= CategoryPoints(cats, weights, prio)
    ensures cat !in cats ==> CategoryPoints(cats, weights[cat := x], prio) == CategoryPoints(cats, weights, prio)
  {
    CategoryPointsReweigh(cats, weights, cat, x, prio);
    ScaleNonNegative(x - WeightOf(weights, cat), PriorityOf(cat, prio));
  }

  /** The salary string contributes exactly its bracket: removing it changes
      the score by the bracket and nothing else. */
  lemma ScoreSalaryContribution(c: Candidate, weights: map<Category, real>)
    ensures Score(c, weights) == Score(c.(fullTimeSalary := ""), weights) + SalaryBracket(ParseSalary(c)) as real
  {
    FlatPointsSalary(c);
    assert Categories(c) == Categories(c.(fullTimeSalary := ""));
  }

  /** The flat points with and without the salary string differ by the bracket. */
  lemma FlatPointsSalary(c: Candidate)
    ensures FlatPoints(c) == FlatPoints(c.(fullTimeSalary := "")) + SalaryBracket(ParseSalary(c))
  {
    var d := c.(fullTimeSalary := "");
    SkillBonusOfFields(c, d);
    assert ParseSalary(d) == None;
  }

  /** The skill bonuses read only the skills, the role names and the degree
      subjects. */
  lemma SkillBonusOfFields(c: Candidate, d: Candidate)
    requires c.skills == d.skills && c.workExperiences == d.workExperiences && c.degrees == d.degrees
    ensures SkillBonus(c) == SkillBonus(d)
  {
    forall key ensures HasSkill(c, key) == HasSkill(d, key) {
    }
  }
}
