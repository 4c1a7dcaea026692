/** The static configuration of the engine: the keyword tables `kw` and
    `roleMap`, the base priorities `prioScore`, the role groups `GROUPS`
    and the ordered location rules of `regionOf`. A JavaScript object
    literal is an ordered list of (key, value) pairs here, in the order
    of the literal, which is the order `Object.entries` and
    `Object.keys` visit. */
module Tables {
  import opened Records

  /** `kw`: skill keywords per category. */
  const Kw: seq<(Category, seq<string>)> := [
    (Frontend, ["react", "angular", "vue", "javascript", "typescript", "html", "css", "tailwind", "next js", "redux", "bootstrap"]),
    (Backend, ["node", "express", "django", "flask", "spring", "java", "kotlin", "go", "golang", "php", "c#", ".net", "ruby", "rails", "graphql", "microservices"]),
    (DataMl, ["machine learning", "ml", "data science", "pandas", "numpy", "pytorch", "tensorflow", "scikit", "sql", "spark", "etl", "dbt", "snowflake"]),
    (DevopsCloud, ["aws", "amazon web services", "gcp", "azure", "docker", "kubernetes", "terraform", "ci", "cd", "jenkins"]),
    (Mobile, ["react native", "android", "ios", "swift", "kotlin"]),
    (Product, ["product manager", "product management"]),
    (Design, ["ui/ux", "ux", "ui", "designer", "photoshop", "figma", "illustrator"]),
    (Qa, ["qa", "quality", "test", "testing"]),
    (DataEngineer, ["spark", "kafka", "hadoop", "databricks", "airflow"])
  ]

  /** `roleMap`: role-name keywords per category. */
  const RoleMap: seq<(Category, seq<string>)> := [
    (Frontend, ["frontend engineer", "web developer", "frontend developer"]),
    (Backend, ["backend engineer", "backend developer"]),
    (Fullstack, ["full stack", "fullstack"]),
    (Product, ["product manager", "product"]),
    (DataMl, ["data scientist", "ml", "machine learning", "data analyst"]),
    (DataEngineer, ["data engineer"]),
    (DevopsCloud, ["devops", "sre", "cloud"]),
    (Qa, ["qa", "quality"]),
    (Design, ["ux", "ui", "designer"])
  ]

  /** `prioScore`: the eight weighted categories and their base priority. */
  const PrioScore: seq<(Category, nat)> := [
    (Frontend, 10), (Backend, 10), (Fullstack, 9), (DataMl, 9),
    (DataEngineer, 9), (DevopsCloud, 8), (Product, 7), (Design, 6)
  ]

  /** `GROUPS`: the role groups, one pick each, in this order. */
  const Groups: seq<seq<Category>> := [
    [Frontend], [Backend], [DataMl, DataEngineer], [DevopsCloud], [Product, Design, Fullstack]
  ]

  /** The rules of `regionOf`, in evaluation order; each regular expression
      is an alternation of literal fragments. */
  const RegionRules: seq<(seq<string>, Region)> := [
    (["india", "bangladesh", "pakistan", "nepal", "sri lanka", "hydrabad", "hyderabad"], APAC),
    (["brazil", "rio", "salvador", "belo horizonte", "laguna", "pelotas", "maceió", "maceio"], LATAM),
    (["argentina", "mendoza", "rosario", "quilmes", "caba", "posadas", "buenos aires"], LATAM),
    (["colombia", "bogotá", "medellín", "medellin", "manizales"], LATAM),
    (["united states", "usa", "philadelphia", "malvern", "san diego", "new jersey"], NA),
    (["canada", "toronto", "vancouver", "montreal"], NA),
    (["uk", "london", "england", "britain"], EU),
    (["spain", "italy", "romania", "timisoara", "seville"], EU),
    (["amman", "jordan"], MEA),
    (["jamaica", "kingston"], LATAM)
  ]
}
