/** `git-profile list [profile-name]`: show one profile, or the profiles passing the filters. */
module ListCommand {
  import opened Wrappers
  import opened Profiles
  import opened ProfileStore
  import opened ProfileFilter
  import opened Seqs

  datatype Listing =
    | DoesNotExist(profileName: string)
    | Shown(profile: Profile)
    | NoProfiles
    | Listed(profiles: seq<Profile>)

  /** The per-profile decision of the listing loop, branch by branch. */
  function Shows(f: Filters, p: Profile): (show: bool)
    ensures show <==> Matches(f, p)
  {
    if f.name == "" && f.email == "" && f.origin == "" then true
    else if f.name != "" && f.name != p.name then false
    else if f.email != "" && f.email != p.email then false
    else if f.origin != "" && f.origin != p.origin then false
    else true
  }

  /** `runLs` over the in-memory list; it only reads the store. */
  function RunList(ps: seq<Profile>, arg: Option<string>, f: Filters): (r: Listing)
    ensures arg.Some? && IsAbsent(GetProfileByName(ps, arg.value)) ==> r == DoesNotExist(arg.value)
    ensures arg.Some? && !IsAbsent(GetProfileByName(ps, arg.value)) ==>
      r.Shown? && r.profile.profileName == arg.value
      && forall i | IsFirstNamed(ps, arg.value, i) :: r.profile == ps[i]
    ensures arg.None? && ps == [] ==> r == NoProfiles
    ensures arg.None? && ps != [] ==>
      && r.Listed?
      && IsSubsequence(r.profiles, ps)
      && (forall p :: p in r.profiles <==> p in ps && Matches(f, p))
      && (forall p :: Matches(f, p) ==> multiset(r.profiles)[p] == multiset(ps)[p])
    ensures arg.None? && ps != [] && IsEmpty(f) ==> r == Listed(ps)
  {
    match arg
    case Some(name) =>
      var p := GetProfileByName(ps, name);
      if IsAbsent(p) then DoesNotExist(name) else Shown(p)
    case None =>
      if ps == [] then NoProfiles
      else
        var shows := (p: Profile) => Shows(f, p);
        SelectExact(ps, shows);
        SelectAll(ps, shows);
        var r := Select(ps, shows);
        assert forall i :: 0 <= i < |ps| && Matches(f, ps[i]) ==> multiset(r)[ps[i]] > 0;
        Listed(r)
  }
}
