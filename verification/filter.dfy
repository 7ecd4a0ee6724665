/** The `--name`, `--email` and `--origin` filters shared by listing and bulk removal. */
module ProfileFilter {
  import opened Profiles

  /** The three flag values; "" means the flag was not given. */
  datatype Filters = Filters(name: string, email: string, origin: string)

  const NoFilters := Filters("", "", "")

  predicate IsEmpty(f: Filters) {
    f == NoFilters
  }

  /** A profile passes when every given filter equals the corresponding field exactly. */
  function Matches(f: Filters, p: Profile): (r: bool)
    ensures IsEmpty(f) ==> r
    ensures f == Filters(p.name, p.email, p.origin) ==> r
    ensures f.name != "" && f.name != p.name ==> !r
    ensures f.email != "" && f.email != p.email ==> !r
    ensures f.origin != "" && f.origin != p.origin ==> !r
  {
    && (f.name == "" || f.name == p.name)
    && (f.email == "" || f.email == p.email)
    && (f.origin == "" || f.origin == p.origin)
  }

  lemma EmptyFiltersMatchAll(p: Profile)
    ensures Matches(NoFilters, p)
  {
  }
}
