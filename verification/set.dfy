/** `git-profile set <profile-name>`: apply a named profile to the current repository. */
module SetCommand {
  import opened Wrappers
  import opened Profiles
  import opened ProfileStore
  import opened ProfileFilter
  import opened Console
  import AddCommand
  import Git

  datatype SetOutcome =
    | Declined
    | Unanswered
    | AddFailed(storeError: StoreError)
    | NameUnreadable(error: Git.GitError)
    | AlreadySet
    | NameWriteFailed(error: Git.GitError)
    | Applied

  /** The final store and git state, and whether the origin-mismatch warning was printed. */
  datatype SetRun = SetRun(outcome: SetOutcome, store: Store, git: Git.GitState, originWarning: bool)

  /**
   Read the local identity, stop when the name is unreadable or both fields already match,
   otherwise write the name and then the e-mail, each in the local scope.
   */
  function WriteIdentity(g: Git.GitState, name: string, email: string): (r: (SetOutcome, Git.GitState))
    ensures r.0.NameUnreadable? || r.0.AlreadySet? || r.0.NameWriteFailed? || r.0.Applied?
    ensures Git.GetUser(g, Git.UserName).Err? ==> r == (NameUnreadable(Git.GetUser(g, Git.UserName).error), g)
    ensures r.0.NameUnreadable? <==> Git.GetUser(g, Git.UserName).Err?
    ensures r.0.Applied? <==> Git.GetUser(g, Git.UserName).Ok? && r.0 != AlreadySet && g.writable
    ensures !r.0.Applied? ==> r.1 == g
    ensures r.0 == AlreadySet <==>
      && Git.GetUser(g, Git.UserName).Ok?
      && name == Git.GetUser(g, Git.UserName).value
      && email == Git.CurrentOrEmpty(g, Git.UserEmail)
    ensures r.0.NameWriteFailed? <==>
      Git.GetUser(g, Git.UserName).Ok? && r.0 != AlreadySet && !g.writable
    ensures r.0.Applied? ==>
      && Git.GetUser(r.1, Git.UserName) == Ok(Strings.TrimSpace(name))
      && Git.GetUser(r.1, Git.UserEmail) == Ok(Strings.TrimSpace(email))
      && r.1.global == g.global && r.1.originUrl == g.originUrl
  {
    var currentName := Git.GetUser(g, Git.UserName);
    if currentName.Err? then (NameUnreadable(currentName.error), g)
    else if name == currentName.value && email == Git.CurrentOrEmpty(g, Git.UserEmail) then (AlreadySet, g)
    else
      var named := Git.SetUser(g, Git.UserName, name, false);
      if named.error.Some? then (NameWriteFailed(named.error.value), g)
      else
        var mailed := Git.SetUser(named.git, Git.UserEmail, email, false);
        Git.SetThenGet(g, Git.UserName, name);
        Git.SetThenGet(named.git, Git.UserEmail, email);
        Git.SetLeavesOthers(named.git, Git.UserEmail, Git.UserName, email, false);
        (Applied, mailed.git)
  }

  /** From the profile lookup on: warn on an origin mismatch, then write the identity. */
  function Apply(s: Store, g: Git.GitState, p: Profile): (r: SetRun)
    ensures r.store == s
    ensures r.originWarning <==> p.origin != Git.OriginOrEmpty(g)
    ensures (r.outcome, r.git) == WriteIdentity(g, p.name, p.email)
    ensures r.outcome.NameUnreadable? || r.outcome.AlreadySet? || r.outcome.NameWriteFailed? || r.outcome.Applied?
  {
    var (outcome, g') := WriteIdentity(g, p.name, p.email);
    SetRun(outcome, s, g', p.origin != Git.OriginOrEmpty(g))
  }

  /** After the add flow: a failed add ends the run, otherwise the stored record is applied. */
  function ApplyAdded(added: AddCommand.AddRun, g: Git.GitState, profileName: string): (r: SetRun)
    ensures added.outcome.AddFailed? <==> r.outcome.AddFailed?
    ensures r.outcome.AddFailed? ==> r.git == g && r.store == added.store
    ensures !added.outcome.AddFailed? ==> r == Apply(added.store, g, GetProfileByName(added.store.mem, profileName))
  {
    if added.outcome.AddFailed? then SetRun(AddFailed(added.outcome.error), added.store, g, false)
    else Apply(added.store, g, GetProfileByName(added.store.mem, profileName))
  }

  /** The "y" path: run the add flow for `profileName` with no flags, then apply what it stored. */
  function CreateThenApply(s: Store, g: Git.GitState, profileName: string, rest: seq<string>): (r: SetRun)
    requires IsAbsent(GetProfileByName(s.mem, profileName))
    ensures AddCommand.RunAdd(s, g, [profileName], NoFilters, rest).outcome.AddFailed? <==> r.outcome.AddFailed?
    ensures r.outcome.AddFailed? ==> r.git == g && r.store.disk == s.disk
    ensures var added := AddCommand.RunAdd(s, g, [profileName], NoFilters, rest);
      added.outcome.Added? ==> r == Apply(added.store, g, added.outcome.profile)
    ensures !r.outcome.AddFailed? ==>
      exists p :: r.store.mem == s.mem + [p] && p.profileName == profileName
  {
    var added := AddCommand.RunAdd(s, g, [profileName], NoFilters, rest);
    if added.outcome.Added? then
      AppendedIsFound(s.mem, added.outcome.profile);
      ApplyAdded(added, g, profileName)
    else ApplyAdded(added, g, profileName)
  }

  /** `runSet`: an absent profile may be created first (after a yes/no prompt), then applied. */
  function RunSet(s: Store, g: Git.GitState, profileName: string, input: seq<string>): (r: SetRun)
    ensures !IsAbsent(GetProfileByName(s.mem, profileName)) ==> r == Apply(s, g, GetProfileByName(s.mem, profileName))
    ensures IsAbsent(GetProfileByName(s.mem, profileName)) && ReadAnswer(input).None? ==>
      r == SetRun(Unanswered, s, g, false)
    ensures IsAbsent(GetProfileByName(s.mem, profileName)) && ReadAnswer(input).Some? ==>
      r == if ReadAnswer(input).value.0 == "n" then SetRun(Declined, s, g, false)
           else CreateThenApply(s, g, profileName, ReadAnswer(input).value.1)
  {
    var p := GetProfileByName(s.mem, profileName);
    if !IsAbsent(p) then Apply(s, g, p)
    else
      match ReadAnswer(input)
      case None => SetRun(Unanswered, s, g, false)
      case Some((answer, rest)) =>
        if answer == "n" then SetRun(Declined, s, g, false)
        else CreateThenApply(s, g, profileName, rest)
  }

  /** An origin mismatch only warns: the outcome and the git state ignore the origin. */
  lemma OriginMismatchOnlyWarns(s: Store, g: Git.GitState, p: Profile, origin: string)
    ensures Apply(s, g, p).outcome == Apply(s, g, p.(origin := origin)).outcome
    ensures Apply(s, g, p).git == Apply(s, g, p.(origin := origin)).git
  {
    var q := p.(origin := origin);
    assert (q.name, q.email) == (p.name, p.email);
  }

  /** Without a local user name (nothing set, or not a repository) set stops before writing anything. */
  lemma NeedsReadableLocalName(s: Store, g: Git.GitState, profileName: string, input: seq<string>)
    requires !IsAbsent(GetProfileByName(s.mem, profileName))
    requires !Git.CheckGitRepo(g) || g.local.name.None?
    ensures RunSet(s, g, profileName, input).outcome.NameUnreadable?
    ensures RunSet(s, g, profileName, input).git == g
  {
  }

  /** Answering "n" to the creation prompt changes nothing. */
  lemma DeclineChangesNothing(s: Store, g: Git.GitState, profileName: string, line: string, input: seq<string>)
    requires IsAbsent(GetProfileByName(s.mem, profileName))
    requires Normalize(line) == "n"
    ensures RunSet(s, g, profileName, [line] + input) == SetRun(Declined, s, g, false)
  {
    assert IsFirstAnswer([line] + input, 0);
    ReadAnswerFirst([line] + input, 0);
  }

  /** A successful set leaves git reading back the profile's name and e-mail. */
  lemma AppliedReadsBack(s: Store, g: Git.GitState, profileName: string, input: seq<string>)
    requires !IsAbsent(GetProfileByName(s.mem, profileName))
    requires RunSet(s, g, profileName, input).outcome == Applied
    ensures var p := GetProfileByName(s.mem, profileName);
      var g' := RunSet(s, g, profileName, input).git;
      && Git.GetUser(g', Git.UserName) == Ok(Strings.TrimSpace(p.name))
      && Git.GetUser(g', Git.UserEmail) == Ok(Strings.TrimSpace(p.email))
  {
  }

  /** An existing profile whose name differs from the readable local name is written when the file can be. */
  lemma DifferingNameIsWritten(s: Store, g: Git.GitState, profileName: string, input: seq<string>)
    requires !IsAbsent(GetProfileByName(s.mem, profileName)) && g.writable
    requires Git.GetUser(g, Git.UserName).Ok?
    requires GetProfileByName(s.mem, profileName).name != Git.GetUser(g, Git.UserName).value
    ensures var p := GetProfileByName(s.mem, profileName);
      var r := RunSet(s, g, profileName, input);
      && r.outcome == Applied
      && Git.GetUser(r.git, Git.UserName) == Ok(Strings.TrimSpace(p.name))
      && Git.GetUser(r.git, Git.UserEmail) == Ok(Strings.TrimSpace(p.email))
  {
  }
}
