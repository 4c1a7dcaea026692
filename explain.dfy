/** `explain`: the role categories of a candidate and up to four bullet
    lines saying why it was picked, always in the same order: experience
    (the named companies of the first three work entries), skills (the
    first eight), pedigree (the school of the first top-25 degree, else of
    the first top-50 one) and, always present, region and expected
    salary. A bullet whose subject is empty is dropped. */
module Explain {
  import opened Records
  import opened Text
  import opened Scoring

  datatype Explanation = Explanation(roleCats: set<Category>, bullets: seq<string>)

  /** The first `n` elements of `s`, or all of them: `s.slice(0, n)`. */
  function Take<T>(s: seq<T>, n: nat): (r: seq<T>)
    ensures |r| == if |s| < n then |s| else n
    ensures forall i :: 0 <= i < |r| ==> r[i] == s[i]
  {
    if |s| < n then s else s[..n]
  }

  /** `.filter(Boolean)` on strings: drops the empty ones, keeps the order. */
  function NonEmpty(s: seq<string>): (r: seq<string>)
    ensures |r| <= |s|
    ensures forall x :: x in r <==> x in s && x != ""
  {
    if s == [] then []
    else
      var rest := NonEmpty(s[1..]);
      assert forall x :: x in s <==> x == s[0] || x in s[1..];
      if s[0] == "" then rest else [s[0]] + rest
  }

  /** The companies the experience bullet names: those of the first three
      work entries, the empty ones dropped. */
  function NamedCompanies(c: Candidate): seq<string> {
    NonEmpty(Companies(Take(c.workExperiences, 3)))
  }

  /** The skills the skills bullet names: the first eight. */
  function KeySkills(c: Candidate): seq<string> {
    Take(c.skills, 8)
  }

  /** `degs.find(flagged)?.originalSchool`, "" when there is none. */
  function FirstSchool(degs: seq<Degree>, top25: bool): string {
    match FindFlagged(degs, top25)
    case Some(j) => degs[j].originalSchool
    case None => ""
  }

  /** `topUni`: the first top-25 school, or if that is missing or empty the
      first top-50 school. */
  function TopSchool(degs: seq<Degree>): string {
    var a := FirstSchool(degs, true);
    if a != "" then a else FirstSchool(degs, false)
  }

  function RegionName(r: Region): string {
    match r
    case APAC => "APAC"
    case EU => "EU"
    case NA => "NA"
    case LATAM => "LATAM"
    case MEA => "MEA"
    case Unknown => "Unknown"
  }

  /** The last bullet: region and the raw expected salary, "—" when it is
      empty. */
  function RegionBullet(c: Candidate): string {
    "Region: " + RegionName(RegionOf(c.location)) + "  •  Expected salary: "
    + (if c.fullTimeSalary != "" then c.fullTimeSalary else "—")
  }

  /** The bullet list from its parts: the experience, skills and pedigree
      bullets when they have something to say, then the region bullet. */
  function BulletsOf(companies: seq<string>, skills: seq<string>, school: string, last: string): (r: seq<string>)
    ensures 1 <= |r| <= 4 && r[|r| - 1] == last
  {
    (if companies != [] then ["Experience at " + Join(companies, ", ")] else [])
    + (if skills != [] then ["Skills: " + Join(skills, ", ")] else [])
    + (if school != "" then ["Pedigree: " + school] else [])
    + [last]
  }

  /** `explain(c)`: `roleCats` and `bullets`. */
  function Explain(c: Candidate): (r: Explanation)
    ensures r.roleCats == Categories(c)
    ensures 1 <= |r.bullets| <= 4 && r.bullets[|r.bullets| - 1] == RegionBullet(c)
  {
    Explanation(Categories(c), BulletsOf(NamedCompanies(c), KeySkills(c), TopSchool(c.degrees), RegionBullet(c)))
  }

  /** A bullet made of a heading and a joined list starts with the
      heading and names every element of the list. */
  lemma HeadedList(head: string, parts: seq<string>)
    ensures var b := head + Join(parts, ", ");
      IsPrefix(head, b) && forall k :: 0 <= k < |parts| ==> Contains(b, parts[k])
  {
    var j := Join(parts, ", ");
    assert (head + j)[..|head|] == head;
    forall k | 0 <= k < |parts| ensures Contains(head + j, parts[k]) {
      ContainsConcat(head, j, parts[k]);
    }
  }

  /** How many bullets there are, and that none is empty: one for the
      region, plus one for each of experience, skills and pedigree that has
      something to say. */
  lemma ExplainCount(c: Candidate)
    ensures var e := Explain(c);
      |e.bullets| == 1 + (if NamedCompanies(c) != [] then 1 else 0) + (if KeySkills(c) != [] then 1 else 0)
                       + (if TopSchool(c.degrees) != "" then 1 else 0)
      && forall i :: 0 <= i < |e.bullets| ==> e.bullets[i] != ""
  {
    BulletsCount(NamedCompanies(c), KeySkills(c), TopSchool(c.degrees), RegionBullet(c));
  }

  lemma BulletsCount(companies: seq<string>, skills: seq<string>, school: string, last: string)
    requires last != ""
    ensures var r := BulletsOf(companies, skills, school, last);
      |r| == 1 + (if companies != [] then 1 else 0) + (if skills != [] then 1 else 0) + (if school != "" then 1 else 0)
      && forall i :: 0 <= i < |r| ==> r[i] != ""
  {
  }

  /** Where each optional bullet sits in the list. */
  lemma BulletsLayout(companies: seq<string>, skills: seq<string>, school: string, last: string)
    ensures var r := BulletsOf(companies, skills, school, last);
      (companies != [] ==> r[0] == "Experience at " + Join(companies, ", "))
      && (skills != [] ==> r[if companies != [] then 1 else 0] == "Skills: " + Join(skills, ", "))
      && (school != "" ==> r[|r| - 2] == "Pedigree: " + school)
  {
  }

  /** There is an experience bullet exactly when one of the first three
      work entries names a company; it comes first and names each of those
      companies. */
  lemma ExperienceBullet(c: Candidate)
    ensures var e := Explain(c);
      var companies := NamedCompanies(c);
      (companies != [] <==> exists k :: 0 <= k < |c.workExperiences| && k < 3 && c.workExperiences[k].company != "")
      && (companies != [] ==>
            IsPrefix("Experience at ", e.bullets[0]) && forall k :: 0 <= k < |companies| ==> Contains(e.bullets[0], companies[k]))
      && (forall k :: 0 <= k < |c.workExperiences| && k < 3 && c.workExperiences[k].company != "" ==> c.workExperiences[k].company in companies)
  {
    var companies := NamedCompanies(c);
    var first3 := Companies(Take(c.workExperiences, 3));
    if companies != [] {
      assert companies[0] in first3;
      var k :| 0 <= k < |first3| && first3[k] == companies[0];
      assert c.workExperiences[k].company != "";
      BulletsLayout(companies, KeySkills(c), TopSchool(c.degrees), RegionBullet(c));
      HeadedList("Experience at ", companies);
    }
    forall k | 0 <= k < |c.workExperiences| && k < 3 && c.workExperiences[k].company != ""
      ensures c.workExperiences[k].company in companies
    {
      assert first3[k] == c.workExperiences[k].company;
    }
  }

  /** There is a skills bullet exactly when the candidate lists a skill; it
      follows the experience bullet, and names the first eight skills (all
      of them when there are fewer). */
  lemma SkillsBullet(c: Candidate)
    ensures var e := Explain(c);
      var skills := KeySkills(c);
      (skills != [] <==> c.skills != [])
      && |skills| == (if |c.skills| < 8 then |c.skills| else 8)
      && (skills != [] ==>
            var b := e.bullets[if NamedCompanies(c) != [] then 1 else 0];
            IsPrefix("Skills: ", b) && forall k :: 0 <= k < |skills| ==> skills[k] == c.skills[k] && Contains(b, skills[k]))
  {
    var skills := KeySkills(c);
    BulletsLayout(NamedCompanies(c), skills, TopSchool(c.degrees), RegionBullet(c));
    if skills != [] {
      HeadedList("Skills: ", skills);
    }
  }

  /** The pedigree school: a school of a top-25 or top-50 degree; the first
      top-25 degree's when that one names a school; otherwise the first
      top-50 degree's. */
  lemma TopSchoolMeaning(degs: seq<Degree>)
    ensures var s := TopSchool(degs);
      (s != "" ==> exists j :: 0 <= j < |degs| && (degs[j].isTop25 || degs[j].isTop50) && degs[j].originalSchool == s)
      && (forall j :: (0 <= j < |degs| && degs[j].isTop25 && degs[j].originalSchool != ""
                       && forall i :: 0 <= i < j ==> !degs[i].isTop25) ==> s == degs[j].originalSchool)
      && (s == "" <==> FirstSchool(degs, true) == "" && FirstSchool(degs, false) == "")
  {
    var a := FindFlagged(degs, true);
    var b := FindFlagged(degs, false);
    forall j | 0 <= j < |degs| && degs[j].isTop25 && degs[j].originalSchool != "" && (forall i :: 0 <= i < j ==> !degs[i].isTop25)
      ensures TopSchool(degs) == degs[j].originalSchool
    {
      assert a.Some?;
      assert !(a.value < j) && !(j < a.value);
    }
  }

  /** There is a pedigree bullet exactly when a top school is known; it
      comes just before the region bullet and names the school. */
  lemma PedigreeBullet(c: Candidate)
    ensures var e := Explain(c);
      var school := TopSchool(c.degrees);
      school != "" ==> e.bullets[|e.bullets| - 2] == "Pedigree: " + school && Contains(e.bullets[|e.bullets| - 2], school)
  {
    var school := TopSchool(c.degrees);
    BulletsLayout(NamedCompanies(c), KeySkills(c), school, RegionBullet(c));
    if school != "" {
      ContainsTrivial(school);
      ContainsConcat("Pedigree: ", school, school);
    }
  }

  /** A bullet made of a heading, a value, more text and a second value
      starts with the heading and contains both values. */
  lemma BulletParts(head: string, x: string, mid: string, y: string)
    ensures var b := head + x + mid + y;
      IsPrefix(head, b) && Contains(b, x) && Contains(b, y)
  {
    var b := head + x + mid + y;
    assert b[..|head|] == head;
    ContainsTrivial(x);
    ContainsConcat(head, x, x);
    ContainsConcat(head + x, mid, x);
    ContainsConcat(head + x + mid, y, x);
    ContainsTrivial(y);
    ContainsConcat(head + x + mid, y, y);
  }

  /** The region bullet names the region of the location and the raw
      expected salary, or "—" when that is empty. */
  lemma RegionBulletMeaning(c: Candidate)
    ensures var b := RegionBullet(c);
      IsPrefix("Region: ", b) && Contains(b, RegionName(RegionOf(c.location)))
      && Contains(b, if c.fullTimeSalary != "" then c.fullTimeSalary else "—")
  {
    BulletParts("Region: ", RegionName(RegionOf(c.location)), "  •  Expected salary: ",
                if c.fullTimeSalary != "" then c.fullTimeSalary else "—");
  }
}
