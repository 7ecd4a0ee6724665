/** `git-profile rm [profile-name]`: clear everything, remove one profile, or remove by filters. */
module RemoveCommand {
  import opened Wrappers
  import opened Profiles
  import opened ProfileStore
  import opened ProfileFilter
  import opened Seqs

  datatype Removal =
    | Cleared
    | RemovedProfile(profileName: string)
    | RemovedCount(count: nat)
    | NothingToRemove
    | ConflictingArguments
    | Failed(error: StoreError)

  /** The per-profile decision of the removal loop: skip on the first filter that does not fit. */
  function Selects(f: Filters, p: Profile): (remove: bool)
    ensures remove <==> Matches(f, p)
  {
    if f.name != "" && f.name != p.name then false
    else if f.email != "" && f.email != p.email then false
    else if f.origin != "" && f.origin != p.origin then false
    else true
  }

  function Doomed(f: Filters): Profile -> bool {
    p => Matches(f, p)
  }

  function Survives(f: Filters): Profile -> bool {
    p => !Matches(f, p)
  }

  /**
   With unique names, the next snapshot profile is the first of its name in the list
   "survivors so far, then the unvisited rest of the snapshot".
   */
  lemma NextIsFirstOfItsName(snap: seq<Profile>, k: nat, survivors: seq<Profile>)
    requires UniqueNames(snap) && k < |snap|
    requires forall p :: p in survivors ==> p in snap[..k]
    ensures IsFirstNamed(survivors + snap[k..], snap[k].profileName, |survivors|)
  {
    var mem := survivors + snap[k..];
    forall j | 0 <= j < |survivors|
      ensures mem[j].profileName != snap[k].profileName
    {
      assert mem[j] in snap[..k];
      var a :| 0 <= a < k && snap[..k][a] == mem[j];
      assert snap[a] == mem[j];
    }
  }

  /** Deleting the next snapshot profile by name removes exactly that position. */
  lemma StepRemoves(snap: seq<Profile>, k: nat, survivors: seq<Profile>, cur: Store)
    requires UniqueNames(snap) && k < |snap|
    requires forall p :: p in survivors ==> p in snap[..k]
    requires cur.mem == survivors + snap[k..]
    ensures var m := DeleteProfile(cur, snap[k].profileName);
      && m.store.mem == survivors + snap[k + 1..]
      && (cur.writable ==> m.error.None?)
  {
    NextIsFirstOfItsName(snap, k, survivors);
    var i := |survivors|;
    assert cur.mem[..i] == survivors && cur.mem[i + 1..] == snap[k + 1..];
  }

  /** One iteration of the removal loop: delete the profile by name when it passes the filters. */
  function Visit(cur: Store, p: Profile, f: Filters): (m: Mutation)
    ensures !Matches(f, p) ==> m == Mutation(cur, None)
    ensures Matches(f, p) ==> m == DeleteProfile(cur, p.profileName)
  {
    if Selects(f, p) then DeleteProfile(cur, p.profileName) else Mutation(cur, None)
  }

  /** A profile that passes the filters leaves the survivors as they were. */
  lemma StepDropped(snap: seq<Profile>, k: nat, f: Filters)
    requires k < |snap| && Matches(f, snap[k])
    ensures Select(snap[..k + 1], Survives(f)) == Select(snap[..k], Survives(f))
  {
    assert snap[..k + 1] == snap[..k] + [snap[k]];
    SelectSnoc(snap[..k], snap[k], Survives(f));
  }

  /** A profile that fails the filters joins the survivors. */
  lemma StepKept(snap: seq<Profile>, k: nat, f: Filters)
    requires k < |snap| && !Matches(f, snap[k])
    ensures Select(snap[..k + 1], Survives(f)) + snap[k + 1..] == Select(snap[..k], Survives(f)) + snap[k..]
  {
    assert Survives(f)(snap[k]);
    SelectKeepsNext(snap, k, Survives(f));
  }

  /** The list expected after visiting `k` snapshot profiles: the survivors among them, then the unvisited rest. */
  function Frontier(snap: seq<Profile>, k: nat, f: Filters): seq<Profile>
    requires k <= |snap|
  {
    Select(snap[..k], Survives(f)) + snap[k..]
  }

  /** The surviving list after visiting one more snapshot profile, names being unique. */
  lemma StepSurvivors(snap: seq<Profile>, k: nat, f: Filters, cur: Store)
    requires UniqueNames(snap) && k < |snap|
    requires cur.mem == Frontier(snap, k, f)
    ensures var m := Visit(cur, snap[k], f);
      && m.store.mem == Frontier(snap, k + 1, f)
      && (cur.writable ==> m.error.None?)
  {
    if Matches(f, snap[k]) {
      StepDropped(snap, k, f);
      StepRemoves(snap, k, Select(snap[..k], Survives(f)), cur);
    } else {
      StepKept(snap, k, f);
    }
  }

  /** Visiting one more snapshot profile adds one to the number of matches exactly when it matches. */
  lemma StepCount(snap: seq<Profile>, k: nat, f: Filters)
    requires k < |snap|
    ensures |Select(snap[..k + 1], Doomed(f))| == |Select(snap[..k], Doomed(f))| + (if Matches(f, snap[k]) then 1 else 0)
  {
    assert snap[..k + 1] == snap[..k] + [snap[k]];
    SelectAppend(snap[..k], [snap[k]], Doomed(f));
  }

  /**
   What the removal loop knows after visiting the first `k` profiles of the snapshot `snap`
   of `s`, having counted `count` deletions and reached `cur`, with `failure` set once a
   delete has failed.
   */
  ghost predicate Progress(s: Store, snap: seq<Profile>, f: Filters, k: nat, count: nat, cur: Store,
                           failure: Option<StoreError>)
  {
    && k <= |snap|
    && cur.writable == s.writable
    && (failure.None? ==> count == |Select(snap[..k], Doomed(f))| && |cur.mem| + count == |snap|)
    && (UniqueNames(snap) && failure.None? ==> cur.mem == Frontier(snap, k, f))
    && (UniqueNames(snap) && s.writable ==> failure.None?)
    && (count == 0 && failure.None? ==> cur == s)
    && (count > 0 && failure.None? ==> Persisted(cur))
    && (!s.writable ==> count == 0 && cur.disk == s.disk)
  }

  /** One pass of the removal loop: visit `snap[k]`, counting it when it is deleted. */
  method Visited(s: Store, snap: seq<Profile>, f: Filters, k: nat, count: nat, cur: Store)
    returns (count': nat, cur': Store, failure: Option<StoreError>)
    requires k < |snap| && Progress(s, snap, f, k, count, cur, None)
    ensures Progress(s, snap, f, k + 1, count', cur', failure)
    ensures failure.None? ==> count' == count + (if Matches(f, snap[k]) then 1 else 0)
  {
    var p := snap[k];
    StepCount(snap, k, f);
    ghost var next := Frontier(snap, k + 1, f);
    var m := Visit(cur, p, f);
    if UniqueNames(snap) {
      StepSurvivors(snap, k, f, cur);
      assert m.store.mem == next;
    }
    count' := count;
    failure := None;
    if m.error.Some? {
      failure := m.error;
    } else if Selects(f, p) {
      DeleteSucceeded(cur, p.profileName);
      count' := count + 1;
    }
    cur' := m.store;
  }

  /**
   The bulk removal over a snapshot of the list, deleting by name each profile that passes
   the filters; a failing delete stops it (the tool exits).
   */
  method RemoveMatching(s: Store, f: Filters) returns (count: nat, s': Store, failure: Option<StoreError>)
    ensures failure.None? ==> count == |Select(s.mem, Doomed(f))| && |s'.mem| + count == |s.mem|
    ensures UniqueNames(s.mem) && failure.None? ==> s'.mem == Select(s.mem, Survives(f))
    ensures UniqueNames(s.mem) && s.writable ==> failure.None?
    ensures count == 0 && failure.None? ==> s' == s
    ensures count > 0 && failure.None? ==> Persisted(s')
    ensures !s.writable ==> count == 0 && s'.disk == s.disk
    ensures s'.writable == s.writable
  {
    var snap := GetAllProfiles(s);
    var k := 0;
    count := 0;
    s' := s;
    failure := None;
    while k < |snap| && failure.None?
      invariant Progress(s, snap, f, k, count, s', failure)
    {
      count, s', failure := Visited(s, snap, f, k, count, s');
      k := k + 1;
    }
    assert failure.None? ==> snap[..k] == snap && snap[k..] == [];
  }

  /** `rm`: `--all` truncates the file only; a name excludes filters; otherwise remove by filters. */
  method RunRemove(s: Store, all: bool, arg: Option<string>, f: Filters) returns (outcome: Removal, s': Store)
    ensures all ==> s'.mem == s.mem
    ensures all && s.writable ==> outcome == Cleared && s'.disk == []
    ensures all && !s.writable ==> outcome == Failed(ResetFailed) && s' == s
    ensures !all && arg.Some? && !IsEmpty(f) ==> outcome == ConflictingArguments && s' == s
    ensures !all && arg.Some? && IsEmpty(f) ==>
      var m := DeleteProfile(s, arg.value);
      && s' == m.store
      && (m.error.None? ==> outcome == RemovedProfile(arg.value))
      && (m.error.Some? ==> outcome == Failed(m.error.value))
    ensures !all && arg.None? && s.mem == [] ==> outcome == NothingToRemove && s' == s
    ensures !all && arg.None? && s.mem != [] && UniqueNames(s.mem) && s.writable ==>
      && s'.mem == Select(s.mem, Survives(f))
      && (var n := |Select(s.mem, Doomed(f))|;
          && (n > 0 ==> outcome == RemovedCount(n) && Persisted(s'))
          && (n == 0 ==> outcome == NothingToRemove && s' == s))
  {
    if all {
      var m := ClearConfig(s);
      s' := m.store;
      outcome := if m.error.None? then Cleared else Failed(m.error.value);
      return;
    }
    if arg.Some? {
      if f.name != "" || f.email != "" || f.origin != "" {
        return ConflictingArguments, s;
      }
      var m := DeleteProfile(s, arg.value);
      s' := m.store;
      outcome := if m.error.None? then RemovedProfile(arg.value) else Failed(m.error.value);
      return;
    }
    if s.mem == [] {
      return NothingToRemove, s;
    }
    var count, failure;
    count, s', failure := RemoveMatching(s, f);
    if failure.Some? {
      outcome := Failed(failure.value);
    } else if count > 0 {
      outcome := RemovedCount(count);
    } else {
      outcome := NothingToRemove;
    }
  }

  /** Without filters the bulk removal takes every profile. */
  lemma NoFiltersRemoveAll(ps: seq<Profile>)
    ensures Select(ps, Survives(NoFilters)) == []
    ensures Select(ps, Doomed(NoFilters)) == ps
  {
    SelectAll(ps, Doomed(NoFilters));
    assert forall p :: p in Select(ps, Survives(NoFilters)) ==> !Matches(NoFilters, p);
  }
}
