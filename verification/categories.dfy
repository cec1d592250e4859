/** The fixed set of task categories shared by the store, the request
    validators and the client. */
module Categories {
  import opened Wrappers

  datatype Category = Work | Personal | Shopping | Health | Finance | Education | Home | Other

  /** The spelling used in requests, in the database and in the client. */
  function Name(c: Category): string
  {
    match c
    case Work => "Work"
    case Personal => "Personal"
    case Shopping => "Shopping"
    case Health => "Health"
    case Finance => "Finance"
    case Education => "Education"
    case Home => "Home"
    case Other => "Other"
  }

  /** `validCategories`, in the order the error message lists them. */
  const Names: seq<string> :=
    ["Work", "Personal", "Shopping", "Health", "Finance", "Education", "Home", "Other"]

  /** `validCategories.includes(s)`, returning the category it names. */
  function Parse(s: string): (r: Option<Category>)
    ensures r.Some? <==> s in Names
    ensures r.Some? ==> Name(r.value) == s
  {
    if s == "Work" then Some(Work)
    else if s == "Personal" then Some(Personal)
    else if s == "Shopping" then Some(Shopping)
    else if s == "Health" then Some(Health)
    else if s == "Finance" then Some(Finance)
    else if s == "Education" then Some(Education)
    else if s == "Home" then Some(Home)
    else if s == "Other" then Some(Other)
    else None
  }

  /** Every category is accepted under its own name, and two categories
      never share a name. */
  lemma ParseName(c: Category)
    ensures Parse(Name(c)) == Some(c)
    ensures Name(c) in Names
  {
  }
}
