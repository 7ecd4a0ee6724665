/**
 `git-profile init`: choose a profile by the repository's origin host and apply it. No match
 offers to create one, one match is applied, several matches are picked from by name.
 */
module InitCommand {
  import opened Wrappers
  import opened Strings
  import opened Profiles
  import opened ProfileStore
  import opened ProfileFilter
  import opened Console
  import AddCommand
  import Git

  datatype InitOutcome =
    | OriginUnavailable(error: Git.GitError)
    | Declined
    | Unanswered
    | AddFailed(storeError: StoreError)
    | Crashed
    | Unpicked
    | AlreadySet(profile: Profile)
    | Applied(profile: Profile, nameError: Option<Git.GitError>, emailError: Option<Git.GitError>)

  /** The final store and git state of one run. */
  datatype InitRun = InitRun(outcome: InitOutcome, store: Store, git: Git.GitState)

  /** `CredentialsAlreadySet`: both fields equal the local values, read errors counting as "". */
  function CredentialsAlreadySet(g: Git.GitState, p: Profile): (b: bool)
    ensures !Git.CheckGitRepo(g) ==> (b <==> p.name == "" && p.email == "")
    ensures Git.CheckGitRepo(g) ==>
      (b <==> p.name == Git.Shown(g.local.name) && p.email == Git.Shown(g.local.email))
  {
    p.name == Git.CurrentOrEmpty(g, Git.UserName) && p.email == Git.CurrentOrEmpty(g, Git.UserEmail)
  }

  /** `i` is the position of the last candidate called `name`. */
  predicate IsLastNamed(cands: seq<Profile>, name: string, i: int) {
    && 0 <= i < |cands|
    && cands[i].profileName == name
    && forall j :: i < j < |cands| ==> cands[j].profileName != name
  }

  /** The inner loop of the pick prompt: every candidate is compared, so the last match wins. */
  function LastMatch(cands: seq<Profile>, name: string): (r: Option<Profile>)
    ensures r.None? <==> !HasName(cands, name)
    ensures forall i | IsLastNamed(cands, name, i) :: r == Some(cands[i])
    ensures r.Some? ==> r.value in cands && r.value.profileName == name
    decreases |cands|
  {
    if cands == [] then None
    else
      var n := |cands| - 1;
      if cands[n].profileName == name then Some(cands[n])
      else
        var r := LastMatch(cands[..n], name);
        assert forall i | IsLastNamed(cands, name, i) :: IsLastNamed(cands[..n], name, i);
        assert HasName(cands, name) ==> HasName(cands[..n], name);
        r
  }

  /** `k` is the first input line whose trimmed text names a candidate. */
  predicate IsFirstPick(cands: seq<Profile>, input: seq<string>, k: int) {
    && 0 <= k < |input|
    && HasName(cands, TrimSpace(input[k]))
    && forall j :: 0 <= j < k ==> !HasName(cands, TrimSpace(input[j]))
  }

  /**
   The pick prompt: lines are read until one names a candidate. Past the end of input every
   read yields "", so the prompt then succeeds only if a candidate is called ""; `None` is
   the case where it would ask for ever.
   */
  function Pick(cands: seq<Profile>, input: seq<string>): (r: Option<Profile>)
    ensures r.Some? ==> r.value in cands
    decreases |input|
  {
    if input == [] then LastMatch(cands, "")
    else
      var m := LastMatch(cands, TrimSpace(input[0]));
      if m.Some? then m else Pick(cands, input[1..])
  }

  /** When the first line names no candidate, the first pick is found one line later in the rest. */
  lemma FirstPickShift(cands: seq<Profile>, input: seq<string>, k: int)
    requires input != [] && !HasName(cands, TrimSpace(input[0])) && IsFirstPick(cands, input, k)
    ensures k >= 1 && IsFirstPick(cands, input[1..], k - 1) && input[1..][k - 1] == input[k]
  {
    forall j | 0 <= j < k - 1 ensures !HasName(cands, TrimSpace(input[1..][j])) {
      assert input[1..][j] == input[j + 1];
    }
  }

  /** The first line naming a candidate decides, and the last candidate with that name is taken. */
  lemma {:induction false} PickFirst(cands: seq<Profile>, input: seq<string>, k: int)
    requires IsFirstPick(cands, input, k)
    ensures Pick(cands, input) == LastMatch(cands, TrimSpace(input[k]))
    decreases |input|
  {
    var first := TrimSpace(input[0]);
    if k == 0 {
      assert LastMatch(cands, first).Some?;
      assert Pick(cands, input) == LastMatch(cands, first);
    } else {
      assert !HasName(cands, first);
      assert LastMatch(cands, first).None?;
      assert Pick(cands, input) == Pick(cands, input[1..]);
      FirstPickShift(cands, input, k);
      PickFirst(cands, input[1..], k - 1);
      var chosen := TrimSpace(input[k]);
      assert TrimSpace(input[1..][k - 1]) == chosen;
      assert Pick(cands, input[1..]) == LastMatch(cands, chosen);
    }
  }

  /** When no line names a candidate, the reads past the end of input decide. */
  lemma {:induction false} PickExhausted(cands: seq<Profile>, input: seq<string>)
    requires forall j :: 0 <= j < |input| ==> !HasName(cands, TrimSpace(input[j]))
    ensures Pick(cands, input) == LastMatch(cands, "")
    decreases |input|
  {
    if input != [] {
      assert forall j :: 0 <= j < |input[1..]| ==> input[1..][j] == input[j + 1];
      PickExhausted(cands, input[1..]);
    }
  }

  /**
   Apply a chosen profile: nothing happens when the credentials already match; otherwise the
   name and the e-mail are both written to the local scope, a failed name write not stopping
   the e-mail write.
   */
  function ApplyProfile(s: Store, g: Git.GitState, p: Profile): (r: InitRun)
    ensures r.store == s
    ensures r.git == g.(local := r.git.local)
    ensures CredentialsAlreadySet(g, p) ==> r == InitRun(AlreadySet(p), s, g)
    ensures !CredentialsAlreadySet(g, p) ==> r.outcome.Applied? && r.outcome.profile == p
    ensures r.outcome.Applied? ==>
      && (r.outcome.nameError.None? <==> Git.CheckGitRepo(g) && g.writable)
      && (r.outcome.emailError.None? <==> Git.CheckGitRepo(g) && g.writable)
    ensures r.outcome.Applied? && r.outcome.nameError.Some? ==> r.git == g
    ensures r.outcome.Applied? && r.outcome.nameError.None? ==>
      && Git.GetUser(r.git, Git.UserName) == Ok(TrimSpace(p.name))
      && Git.GetUser(r.git, Git.UserEmail) == Ok(TrimSpace(p.email))
  {
    if CredentialsAlreadySet(g, p) then InitRun(AlreadySet(p), s, g)
    else
      var named := Git.SetUser(g, Git.UserName, p.name, false);
      var mailed := Git.SetUser(named.git, Git.UserEmail, p.email, false);
      if named.error.None? then
        Git.SetThenGet(g, Git.UserName, p.name);
        Git.SetThenGet(named.git, Git.UserEmail, p.email);
        Git.SetLeavesOthers(named.git, Git.UserEmail, Git.UserName, p.email, false);
        InitRun(Applied(p, named.error, mailed.error), s, mailed.git)
      else InitRun(Applied(p, named.error, mailed.error), s, mailed.git)
  }

  /** One candidate is applied directly; from several, the user picks one by name. */
  function FromCandidates(s: Store, g: Git.GitState, ps: seq<Profile>, input: seq<string>): (r: InitRun)
    requires ps != []
    ensures |ps| == 1 ==> r == ApplyProfile(s, g, ps[0])
    ensures |ps| > 1 && Pick(ps, input).None? ==> r == InitRun(Unpicked, s, g)
    ensures |ps| > 1 && Pick(ps, input).Some? ==> r == ApplyProfile(s, g, Pick(ps, input).value)
    ensures r.outcome.AlreadySet? || r.outcome.Applied? ==> r.outcome.profile in ps
    ensures r.outcome.AlreadySet? || r.outcome.Applied? ==> r == ApplyProfile(r.store, g, r.outcome.profile)
  {
    if |ps| == 1 then ApplyProfile(s, g, ps[0])
    else
      match Pick(ps, input)
      case None => InitRun(Unpicked, s, g)
      case Some(p) => ApplyProfile(s, g, p)
  }

  /**
   After the add flow: a panic (no argument) or a failed save ends the run; otherwise the
   profiles are queried again by origin and the first is applied, the query coming back
   empty being an index out of range.
   */
  function AfterAdd(g: Git.GitState, origin: string, added: AddCommand.AddRun): (r: InitRun)
    ensures added.outcome.MissingArgument? ==> r == InitRun(Crashed, added.store, g)
    ensures added.outcome.AddFailed? ==> r == InitRun(AddFailed(added.outcome.error), added.store, g)
    ensures r.store == added.store
    ensures r.outcome.AlreadySet? || r.outcome.Applied? ==>
      r.outcome.profile in added.store.mem && r.outcome.profile.origin == origin
    ensures (added.outcome.Added? || added.outcome.AlreadyPresent?) ==>
      (r.outcome.Crashed? <==> GetProfilesByOrigin(added.store.mem, origin) == [])
    ensures !r.outcome.Applied? ==> r.git == g
    ensures r.git == g.(local := r.git.local)
    ensures r.outcome.AlreadySet? || r.outcome.Applied? ==> r == ApplyProfile(r.store, g, r.outcome.profile)
    ensures (added.outcome.Added? || added.outcome.AlreadyPresent?) && GetProfilesByOrigin(added.store.mem, origin) != [] ==>
      r == ApplyProfile(added.store, g, GetProfilesByOrigin(added.store.mem, origin)[0])
  {
    match added.outcome
    case MissingArgument => InitRun(Crashed, added.store, g)
    case AddFailed(e) => InitRun(AddFailed(e), added.store, g)
    case _ =>
      var ps := GetProfilesByOrigin(added.store.mem, origin);
      if ps == [] then InitRun(Crashed, added.store, g)
      else
        assert ps[0] in ps;
        ApplyProfile(added.store, g, ps[0])
  }

  /** The creation step as the command writes it: the add flow receives no arguments. */
  function CreateAsWritten(s: Store, g: Git.GitState, input: seq<string>): (r: AddCommand.AddRun)
    ensures r == AddCommand.AddRun(AddCommand.MissingArgument, s, input)
  {
    AddCommand.RunAdd(s, g, [], NoFilters, input)
  }

  /** The creation step as intended: the new profile's name is read first and passed on. */
  function CreateIntended(s: Store, g: Git.GitState, input: seq<string>): (r: AddCommand.AddRun)
    ensures !r.outcome.MissingArgument?
  {
    AddCommand.RunAdd(s, g, [LineAt(input, 0)], NoFilters, Skip(input, 1))
  }

  /** The repaired creation step names the new profile by the first line read, and refuses a name in use. */
  lemma CreateIntendedNames(s: Store, g: Git.GitState, input: seq<string>)
    ensures var r := CreateIntended(s, g, input);
      && (!IsAbsent(GetProfileByName(s.mem, LineAt(input, 0))) ==>
            r == AddCommand.AddRun(AddCommand.AlreadyPresent, s, Skip(input, 1)))
      && (r.outcome.Added? ==>
            r.outcome.profile.profileName == LineAt(input, 0) && r.store.mem == s.mem + [r.outcome.profile])
  {
    var args := [LineAt(input, 0)];
    assert args[0] == LineAt(input, 0);
  }

  /** No profile has the repository's origin: offer to create one, then continue as the add flow left things. */
  function Offer(s: Store, g: Git.GitState, origin: string, input: seq<string>, intended: bool): (r: InitRun)
    ensures ReadAnswer(input).None? ==> r == InitRun(Unanswered, s, g)
    ensures ReadAnswer(input).Some? && ReadAnswer(input).value.0 == "n" ==> r == InitRun(Declined, s, g)
    ensures r.outcome.AlreadySet? || r.outcome.Applied? ==>
      r.outcome.profile.origin == origin && r.outcome.profile in r.store.mem
    ensures !r.outcome.Applied? ==> r.git == g
    ensures r.git == g.(local := r.git.local)
    ensures r.outcome.AlreadySet? || r.outcome.Applied? ==> r == ApplyProfile(r.store, g, r.outcome.profile)
    ensures !intended ==> r.outcome.Unanswered? || r.outcome.Declined? || r.outcome.Crashed?
  {
    var answer := ReadAnswer(input);
    if answer.None? then InitRun(Unanswered, s, g)
    else if answer.value.0 == "n" then InitRun(Declined, s, g)
    else
      var added := if intended then CreateIntended(s, g, answer.value.1) else CreateAsWritten(s, g, answer.value.1);
      AfterAdd(g, origin, added)
  }

  /** `runInit` once the origin query has answered `origin`, with the creation step chosen by `intended`. */
  function ResolveFrom(s: Store, g: Git.GitState, origin: Result<string, Git.GitError>,
                       input: seq<string>, intended: bool): (r: InitRun)
    ensures origin.Err? ==> r == InitRun(OriginUnavailable(origin.error), s, g)
    ensures origin.Ok? ==>
      var ps := GetProfilesByOrigin(s.mem, origin.value);
      && (ps != [] ==> r == FromCandidates(s, g, ps, input))
      && (ps == [] ==> r == Offer(s, g, origin.value, input, intended))
    ensures r.outcome.AlreadySet? || r.outcome.Applied? ==>
      && origin.Ok?
      && r.outcome.profile.origin == origin.value
      && r.outcome.profile in r.store.mem
    ensures !intended && (r.outcome.AlreadySet? || r.outcome.Applied?) ==>
      origin.Ok? && GetProfilesByOrigin(s.mem, origin.value) != []
    ensures !r.outcome.Applied? ==> r.git == g
    ensures r.git == g.(local := r.git.local)
    ensures r.outcome.AlreadySet? || r.outcome.Applied? ==> r == ApplyProfile(r.store, g, r.outcome.profile)
  {
    match origin
    case Err(e) => InitRun(OriginUnavailable(e), s, g)
    case Ok(o) =>
      var ps := GetProfilesByOrigin(s.mem, o);
      if ps != [] then FromCandidates(s, g, ps, input)
      else Offer(s, g, o, input, intended)
  }

  /** `runInit`: query the origin, then resolve. */
  function Resolve(s: Store, g: Git.GitState, input: seq<string>, intended: bool): (r: InitRun)
    ensures r == ResolveFrom(s, g, Git.GetRepoOrigin(g), input, intended)
    ensures !Git.CheckGitRepo(g) ==> r == InitRun(OriginUnavailable(Git.NotARepository), s, g)
  {
    ResolveFrom(s, g, Git.GetRepoOrigin(g), input, intended)
  }

  /** `runInit` exactly as written. */
  function InitAsWritten(s: Store, g: Git.GitState, input: seq<string>): (r: InitRun)
    ensures r.outcome.AlreadySet? || r.outcome.Applied? ==>
      Git.GetRepoOrigin(g).Ok? && GetProfilesByOrigin(s.mem, Git.GetRepoOrigin(g).value) != []
  {
    Resolve(s, g, input, false)
  }

  /** `runInit` with the creation step repaired; the rest of the model uses this one. */
  function Init(s: Store, g: Git.GitState, input: seq<string>): (r: InitRun)
    ensures Git.GetRepoOrigin(g).Err? ==> r == InitRun(OriginUnavailable(Git.GetRepoOrigin(g).error), s, g)
    ensures r.outcome.AlreadySet? || r.outcome.Applied? ==>
      && Git.GetRepoOrigin(g).Ok?
      && r.outcome.profile.origin == Git.GetRepoOrigin(g).value
      && r.outcome.profile in r.store.mem
    ensures !r.outcome.Applied? ==> r.git == g
    ensures r.outcome.AlreadySet? || r.outcome.Applied? ==> r == ApplyProfile(r.store, g, r.outcome.profile)
  {
    Resolve(s, g, input, true)
  }

  /**
   The repaired creation step reading a profile name, a name, an e-mail, a signing key and an
   origin line stores the new profile and saves it.
   */
  lemma CreateIntendedStores(s: Store, g: Git.GitState, profileName: string, name: string,
                             email: string, key: string, originLine: string, input: seq<string>)
    requires !HasName(s.mem, TrimSpace(profileName)) && s.writable
    ensures var p := Profile(TrimSpace(profileName), TrimSpace(name), TrimSpace(email),
                             AddCommand.AddOrigin("", TrimSpace(originLine), Git.OriginOrEmpty(g)));
      var added := CreateIntended(s, g, [profileName, name, email, key, originLine] + input);
      && added.outcome == AddCommand.Added(p)
      && added.store.mem == s.mem + [p]
      && Persisted(added.store)
  {
    var x0 := [profileName, name, email, key, originLine] + input;
    var x1 := [name, email, key, originLine] + input;
    assert x0[0] == profileName && Skip(x0, 1) == x1;
    assert x1[0] == name && x1[1] == email && x1[3] == originLine;
    assert LineAt(x0, 0) == TrimSpace(profileName);
    assert LineAt(x1, 0) == TrimSpace(name) && LineAt(x1, 1) == TrimSpace(email);
    assert LineAt(x1, 3) == TrimSpace(originLine);
    assert IsAbsent(GetProfileByName(s.mem, TrimSpace(profileName)));
    AddCommand.RunAddRecord(s, g, TrimSpace(profileName), NoFilters, x1);
  }

  /** Answering "y" with no candidates hands the rest of the input to the creation step. */
  lemma OfferYes(s: Store, g: Git.GitState, origin: string, yes: string, rest: seq<string>, intended: bool)
    requires Normalize(yes) == "y"
    ensures Offer(s, g, origin, [yes] + rest, intended)
      == AfterAdd(g, origin, if intended then CreateIntended(s, g, rest) else CreateAsWritten(s, g, rest))
  {
    assert IsFirstAnswer([yes] + rest, 0);
    ReadAnswerFirst([yes] + rest, 0);
    assert ([yes] + rest)[1..] == rest;
  }

  /** With no candidates and a "y", the command as written panics in the add flow. */
  lemma InitAsWrittenCrashesOnCreate(s: Store, g: Git.GitState, yes: string, input: seq<string>)
    requires Git.GetRepoOrigin(g).Ok?
    requires GetProfilesByOrigin(s.mem, Git.GetRepoOrigin(g).value) == []
    requires Normalize(yes) == "y"
    ensures InitAsWritten(s, g, [yes] + input) == InitRun(Crashed, s, g)
  {
    OfferYes(s, g, Git.GetRepoOrigin(g).value, yes, input, false);
  }

  /**
   With the repair, answering "y", then a fresh profile name, a name, an e-mail, a skipped
   signing key and an empty origin line, stores the new profile with the repository's origin
   and applies it.
   */
  lemma InitCreatesAndApplies(s: Store, g: Git.GitState, yes: string, profileName: string,
                              name: string, email: string, key: string, input: seq<string>)
    requires Git.GetRepoOrigin(g).Ok?
    requires GetProfilesByOrigin(s.mem, Git.GetRepoOrigin(g).value) == []
    requires Normalize(yes) == "y" && !HasName(s.mem, TrimSpace(profileName)) && s.writable
    ensures var p := Profile(TrimSpace(profileName), TrimSpace(name), TrimSpace(email), Git.GetRepoOrigin(g).value);
      var r := Init(s, g, [yes] + ([profileName, name, email, key, ""] + input));
      && r.store.mem == s.mem + [p]
      && Persisted(r.store)
      && r == ApplyProfile(r.store, g, p)
  {
    var origin := Git.GetRepoOrigin(g).value;
    var rest := [profileName, name, email, key, ""] + input;
    assert TrimSpace("") == "";
    assert Git.OriginOrEmpty(g) == origin;
    CreateIntendedStores(s, g, profileName, name, email, key, "", input);
    var p := Profile(TrimSpace(profileName), TrimSpace(name), TrimSpace(email), origin);
    var added := CreateIntended(s, g, rest);
    assert added.store.mem == s.mem + [p];
    ByOriginAfterAppend(s.mem, p, origin);
    var ps := GetProfilesByOrigin(added.store.mem, origin);
    assert AfterAdd(g, origin, added) == ApplyProfile(added.store, g, p) by {
      assert added.outcome.Added? && ps != [] && ps[0] == p;
    }
    OfferYes(s, g, origin, yes, rest, true);
    assert Init(s, g, [yes] + rest) == Offer(s, g, origin, [yes] + rest, true);
  }

  /**
   Even with the repair, a new profile given some other origin is not found by the second
   query, and the run ends in an index out of range.
   */
  lemma CreateElsewhereCrashes(s: Store, g: Git.GitState, yes: string, profileName: string,
                               name: string, email: string, key: string, typed: string, input: seq<string>)
    requires Git.GetRepoOrigin(g).Ok?
    requires GetProfilesByOrigin(s.mem, Git.GetRepoOrigin(g).value) == []
    requires Normalize(yes) == "y" && !HasName(s.mem, TrimSpace(profileName)) && s.writable
    requires TrimSpace(typed) != "" && TrimSpace(typed) != Git.GetRepoOrigin(g).value
    ensures Init(s, g, [yes] + ([profileName, name, email, key, typed] + input)).outcome == Crashed
  {
    var origin := Git.GetRepoOrigin(g).value;
    var rest := [profileName, name, email, key, typed] + input;
    CreateIntendedStores(s, g, profileName, name, email, key, typed, input);
    var added := CreateIntended(s, g, rest);
    OfferYes(s, g, origin, yes, rest, true);
    var p := Profile(TrimSpace(profileName), TrimSpace(name), TrimSpace(email), TrimSpace(typed));
    assert added.store.mem == s.mem + [p];
    ByOriginAfterAppend(s.mem, p, origin);
    assert GetProfilesByOrigin(added.store.mem, origin) == [];
  }

  /** A clean apply of trimmed values makes applying the same profile again a no-op. */
  lemma ApplyIsIdempotent(s: Store, g: Git.GitState, p: Profile)
    requires ApplyProfile(s, g, p).outcome == Applied(p, None, None)
    requires TrimSpace(p.name) == p.name && TrimSpace(p.email) == p.email
    ensures var g' := ApplyProfile(s, g, p).git;
      ApplyProfile(s, g', p) == InitRun(AlreadySet(p), s, g')
  {
    var g' := ApplyProfile(s, g, p).git;
    assert Git.GetUser(g', Git.UserName) == Ok(p.name);
    assert Git.GetUser(g', Git.UserEmail) == Ok(p.email);
    assert Git.CurrentOrEmpty(g', Git.UserName) == p.name;
    assert Git.CurrentOrEmpty(g', Git.UserEmail) == p.email;
    assert CredentialsAlreadySet(g', p);
  }

  /** Applying a profile writes only the local identity, so the origin git reports is unchanged. */
  lemma ApplyKeepsOrigin(s: Store, g: Git.GitState, p: Profile)
    ensures Git.GetRepoOrigin(ApplyProfile(s, g, p).git) == Git.GetRepoOrigin(g)
  {
    var r := ApplyProfile(s, g, p);
    Git.OriginIgnoresLocal(g, r.git.local);
  }

  /** The one element of a singleton sequence is any member of it. */
  lemma SingletonHolds(ps: seq<Profile>, p: Profile)
    requires |ps| == 1 && p in ps
    ensures ps[0] == p
  {
  }

  /** When the candidates contain `p` and the run selects it, init applies `p`. */
  lemma SelectsCandidate(s: Store, g: Git.GitState, input: seq<string>, p: Profile)
    requires Git.GetRepoOrigin(g).Ok?
    requires var ps := GetProfilesByOrigin(s.mem, Git.GetRepoOrigin(g).value);
      p in ps && (|ps| == 1 || Pick(ps, input) == Some(p))
    ensures Init(s, g, input) == ApplyProfile(s, g, p)
  {
    var ps := GetProfilesByOrigin(s.mem, Git.GetRepoOrigin(g).value);
    assert ps != [] && Init(s, g, input) == FromCandidates(s, g, ps, input);
    if |ps| == 1 {
      SingletonHolds(ps, p);
    }
  }

  /**
   Running init again after it applied a profile cleanly finds the credentials already set,
   as long as the second run selects the same profile (it is the only match, or it is picked).
   */
  lemma InitAgainIsAlreadySet(s: Store, g: Git.GitState, input: seq<string>, again: seq<string>, p: Profile)
    requires Init(s, g, input).outcome == Applied(p, None, None)
    requires TrimSpace(p.name) == p.name && TrimSpace(p.email) == p.email
    requires var r := Init(s, g, input);
      var ps := GetProfilesByOrigin(r.store.mem, Git.GetRepoOrigin(g).value);
      |ps| == 1 || Pick(ps, again) == Some(p)
    ensures var r := Init(s, g, input);
      Init(r.store, r.git, again) == InitRun(AlreadySet(p), r.store, r.git)
  {
    var r := Init(s, g, input);
    assert r == ApplyProfile(r.store, g, p);
    ApplyKeepsOrigin(r.store, g, p);
    SelectsCandidate(r.store, r.git, again, p);
    ApplyIsIdempotent(r.store, g, p);
  }
}
