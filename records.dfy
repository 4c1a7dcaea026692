/** The engine's data model: the raw candidate record it reads and the
    derived values it produces. Every optional string of the record is
    modelled as a string that is "" when absent, every optional list as a
    sequence that is [] when absent: the engine reads each one through
    `norm`, `|| ""`, `|| []` or a truthiness test, which treat the two
    cases alike. */
module Records {

  datatype Option<T> = None | Some(value: T)

  /** One entry of `work_experiences`. */
  datatype WorkEntry = WorkEntry(company: string, roleName: string)

  /** One entry of `education.degrees`. */
  datatype Degree = Degree(subject: string, originalSchool: string, isTop25: bool, isTop50: bool)

  /** A candidate record. `fullTimeSalary` is the "full-time" entry of
      `annual_salary_expectation`, the only entry the engine reads. */
  datatype Candidate = Candidate(
    name: string,
    email: string,
    location: string,
    skills: seq<string>,
    workExperiences: seq<WorkEntry>,
    degrees: seq<Degree>,
    fullTimeSalary: string,
    workAvailability: seq<string>)

  /** The role categories, in the spelling of the tables: frontend,
      backend, fullstack, data_ml, data_engineer, devops_cloud, product,
      design, qa, mobile. */
  datatype Category = Frontend | Backend | Fullstack | DataMl | DataEngineer
                    | DevopsCloud | Product | Design | Qa | Mobile

  datatype Region = APAC | EU | NA | LATAM | MEA | Unknown

  /** What `computeScore` returns: `{ score, cats, salary }`. */
  datatype ScoreMeta = ScoreMeta(score: real, cats: set<Category>, salary: Option<nat>)

  /** One element of `scored`: `{ cand, meta }`. */
  datatype Scored = Scored(cand: Candidate, meta: ScoreMeta)
}
