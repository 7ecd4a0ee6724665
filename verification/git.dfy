/**
 The git gateway: the wrapper's decisions around the `git` commands it runs. Git itself is an
 abstract state that answers each command with an exit status and output.
 */
module Git {
  import opened Wrappers
  import opened Strings
  import opened NotSetErrors
  import Origin

  /** What running one external command produced. */
  datatype ExecResult = Exited(code: int, output: string) | LaunchFailed

  /** The two identity fields the tool manages. */
  datatype Field = UserName | UserEmail

  datatype Identity = Identity(name: Option<string>, email: Option<string>)

  /**
   Where the working directory is for git: outside any repository, inside a work tree, or
   inside a repository without one (a `.git` directory or a bare repository).
   */
  datatype Place = Outside | WorkTree | GitDir

  /**
   The part of the world git reports on: whether the binary can be launched, where the
   working directory is, whether configuration files can be written, the local and global
   identities, and the `remote.origin.url` value.
   */
  datatype GitState = GitState(
    installed: bool,
    place: Place,
    writable: bool,
    local: Identity,
    global: Identity,
    originUrl: Option<string>)

  datatype GitError =
    | NotARepository
    | NotSet(cause: NotSetError)
    | NothingToUnset(field: Field)
    | ToolFailed(result: ExecResult)

  /** Exit statuses `git config` documents: a missing key, an unwritable file, nothing to unset. */
  const KeyMissing := 1
  const CannotWrite := 4
  const NoSuchKeyToUnset := 5

  function Read(id: Identity, f: Field): Option<string> {
    match f
    case UserName => id.name
    case UserEmail => id.email
  }

  function Write(id: Identity, f: Field, v: Option<string>): Identity {
    match f
    case UserName => id.(name := v)
    case UserEmail => id.(email := v)
  }

  function Scoped(g: GitState, global: bool): Identity {
    if global then g.global else g.local
  }

  /** git's status for a fatal error, such as running outside a repository. */
  const Fatal := 128

  /**
   How git answers `git rev-parse --is-inside-work-tree`: a fatal error outside a repository,
   otherwise status 0 with "true" in a work tree and "false" in a `.git` directory or a bare
   repository.
   */
  function RunRevParse(g: GitState): ExecResult {
    if !g.installed then LaunchFailed
    else match g.place
      case Outside => Exited(Fatal, "")
      case WorkTree => Exited(0, "true\n")
      case GitDir => Exited(0, "false\n")
  }

  /** `CheckGitRepo`: `git rev-parse --is-inside-work-tree` succeeds; any failure reads as false. */
  function CheckGitRepo(g: GitState): (r: bool)
    ensures r <==> g.installed && g.place != Outside
  {
    var res := RunRevParse(g);
    res.Exited? && res.code == 0
  }

  /** The check reads only the exit status, so it also holds where git answers "false". */
  lemma CheckHoldsOutsideWorkTree(g: GitState)
    requires g.installed && g.place == GitDir
    ensures RunRevParse(g) == Exited(0, "false\n")
    ensures CheckGitRepo(g)
  {
  }

  /** How git answers `git config --get <key>`. */
  function RunGet(g: GitState, value: Option<string>): ExecResult {
    if !g.installed then LaunchFailed
    else match value
      case None => Exited(KeyMissing, "")
      case Some(v) => Exited(0, v + "\n")
  }

  /** The getters' reading of a command result: exit 0 is a value, exit 1 is "not set", anything else an error. */
  function ClassifyRead(res: ExecResult, configName: string): (r: Result<string, GitError>)
    ensures r.Ok? <==> res.Exited? && res.code == 0
    ensures r.Ok? ==> r.value == TrimSpace(res.output)
    ensures r.Err? && r.error.NotSet? <==> res.Exited? && res.code == KeyMissing
    ensures r.Err? && r.error.NotSet? ==> r.error.cause == NotSetError(configName, false)
    ensures r.Err? && !r.error.NotSet? ==> r.error == ToolFailed(res)
  {
    match res
    case Exited(code, out) =>
      if code == 0 then Ok(TrimSpace(out))
      else if code == KeyMissing then Err(NotSet(NotSetError(configName, false)))
      else Err(ToolFailed(res))
    case LaunchFailed => Err(ToolFailed(res))
  }

  function LocalConfigName(f: Field): string {
    match f
    case UserName => "username"
    case UserEmail => "email"
  }

  function GlobalConfigName(f: Field): string {
    match f
    case UserName => "global username"
    case UserEmail => "global email"
  }

  /** What a getter returns when git holds `value`: its trimmed text, or "" when absent. */
  function Shown(value: Option<string>): string {
    match value
    case None => ""
    case Some(v) => TrimSpace(v)
  }

  /** `GetUserName` / `GetUserEmail`: the local value, after the repository check. */
  function GetUser(g: GitState, f: Field): (r: Result<string, GitError>)
    ensures !CheckGitRepo(g) ==> r == Err(NotARepository)
    ensures CheckGitRepo(g) && Read(g.local, f).Some? ==> r == Ok(TrimSpace(Read(g.local, f).value))
    ensures CheckGitRepo(g) && Read(g.local, f).None? ==>
      r == Err(NotSet(NotSetError(LocalConfigName(f), false)))
  {
    if !CheckGitRepo(g) then Err(NotARepository)
    else
      match Read(g.local, f)
      case Some(v) =>
        TrimSpaceAppendSpace(v, '\n');
        ClassifyRead(RunGet(g, Some(v)), LocalConfigName(f))
      case None => ClassifyRead(RunGet(g, None), LocalConfigName(f))
  }

  /** A local getter's value with its error ignored, as the commands compare identities. */
  function CurrentOrEmpty(g: GitState, f: Field): (r: string)
    ensures r == Shown(if CheckGitRepo(g) then Read(g.local, f) else None)
  {
    match GetUser(g, f)
    case Ok(v) => v
    case Err(_) => ""
  }

  /**
   `GetGlobalUserName` / `GetGlobalUserEmail`: no repository check; the not-set error
   carries a config name saying "global" but its scope flag stays false.
   */
  function GetGlobalUser(g: GitState, f: Field): (r: Result<string, GitError>)
    ensures !g.installed ==> r == Err(ToolFailed(LaunchFailed))
    ensures g.installed && Read(g.global, f).Some? ==> r == Ok(TrimSpace(Read(g.global, f).value))
    ensures g.installed && Read(g.global, f).None? ==>
      r == Err(NotSet(NotSetError(GlobalConfigName(f), false)))
  {
    match Read(g.global, f)
    case Some(v) =>
      TrimSpaceAppendSpace(v, '\n');
      ClassifyRead(RunGet(g, Some(v)), GlobalConfigName(f))
    case None => ClassifyRead(RunGet(g, None), GlobalConfigName(f))
  }

  /** A git state and the error of the command that produced it, if any. */
  datatype Effect = Effect(git: GitState, error: Option<GitError>)

  /** How git runs `git config [--global] <key> <value>`. */
  function RunSet(g: GitState, global: bool, f: Field, value: string): (ExecResult, GitState) {
    if !g.installed then (LaunchFailed, g)
    else if !g.writable then (Exited(CannotWrite, ""), g)
    else if global then (Exited(0, ""), g.(global := Write(g.global, f, Some(value))))
    else (Exited(0, ""), g.(local := Write(g.local, f, Some(value))))
  }

  /** Exit 0 succeeds; any other outcome is returned as the error. */
  function Outcome(res: ExecResult): Option<GitError> {
    if res.Exited? && res.code == 0 then None else Some(ToolFailed(res))
  }

  /** `SetUserName` / `SetUserEmail`: the repository check applies only to the local scope. */
  function SetUser(g: GitState, f: Field, value: string, global: bool): (r: Effect)
    ensures !global && !CheckGitRepo(g) ==> r == Effect(g, Some(NotARepository))
    ensures global ==> r.error != Some(NotARepository)
    ensures r.error.None? <==> (global || CheckGitRepo(g)) && g.installed && g.writable
    ensures r.error.Some? ==> r.git == g
    ensures r.error.None? ==>
      && Read(Scoped(r.git, global), f) == Some(value)
      && r.git == (if global then g.(global := Write(g.global, f, Some(value)))
                   else g.(local := Write(g.local, f, Some(value))))
  {
    if !global && !CheckGitRepo(g) then Effect(g, Some(NotARepository))
    else
      var (res, g') := RunSet(g, global, f, value);
      if Outcome(res).None? then Effect(g', None) else Effect(g, Outcome(res))
  }

  /** A successful local write is what the local getter reads back, trimmed. */
  lemma SetThenGet(g: GitState, f: Field, value: string)
    requires SetUser(g, f, value, false).error.None?
    ensures GetUser(SetUser(g, f, value, false).git, f) == Ok(TrimSpace(value))
  {
  }

  /** A write touches only its own field in its own scope. */
  lemma SetLeavesOthers(g: GitState, f: Field, other: Field, value: string, global: bool)
    requires other != f
    ensures var g' := SetUser(g, f, value, global).git;
      && Read(g'.local, other) == Read(g.local, other)
      && Read(g'.global, other) == Read(g.global, other)
      && Read(Scoped(g', !global), f) == Read(Scoped(g, !global), f)
      && CheckGitRepo(g') == CheckGitRepo(g) && g'.originUrl == g.originUrl
  {
  }

  /** How git runs `git config [--global] --unset <key>`. */
  function RunUnset(g: GitState, global: bool, f: Field): (ExecResult, GitState) {
    if !g.installed then (LaunchFailed, g)
    else if Read(Scoped(g, global), f).None? then (Exited(NoSuchKeyToUnset, ""), g)
    else if !g.writable then (Exited(CannotWrite, ""), g)
    else if global then (Exited(0, ""), g.(global := Write(g.global, f, None)))
    else (Exited(0, ""), g.(local := Write(g.local, f, None)))
  }

  /**
   `UnsetUserName` / `UnsetUserEmail`: before unsetting, the LOCAL getter must succeed,
   whatever the scope; otherwise "no local ... to unset" and nothing is run.
   */
  function UnsetUser(g: GitState, f: Field, global: bool): (r: Effect)
    ensures !global && !CheckGitRepo(g) ==> r == Effect(g, Some(NotARepository))
    ensures (global || CheckGitRepo(g)) && GetUser(g, f).Err? ==> r == Effect(g, Some(NothingToUnset(f)))
    ensures r.error.None? <==>
      CheckGitRepo(g) && Read(g.local, f).Some? && Read(Scoped(g, global), f).Some? && g.writable
    ensures r.error.Some? ==> r.git == g
    ensures r.error.None? ==>
      && Read(Scoped(r.git, global), f).None?
      && r.git == (if global then g.(global := Write(g.global, f, None)) else g.(local := Write(g.local, f, None)))
  {
    if !global && !CheckGitRepo(g) then Effect(g, Some(NotARepository))
    else if GetUser(g, f).Err? then Effect(g, Some(NothingToUnset(f)))
    else
      assert g.installed && CheckGitRepo(g) && Read(g.local, f).Some?;
      var res := RunUnset(g, global, f);
      if Outcome(res.0).None? then Effect(res.1, None) else Effect(g, Outcome(res.0))
  }

  /**
   `GetRepoOrigin`: outside a repository it fails before reading any configuration; a missing
   origin is a plain command failure (exit status 1 is not read as "not set" here); a value
   is reduced to its host name.
   */
  function GetRepoOrigin(g: GitState): (r: Result<string, GitError>)
    ensures !CheckGitRepo(g) ==> r == Err(NotARepository)
    ensures r.Ok? <==> CheckGitRepo(g) && g.originUrl.Some?
    ensures r.Ok? ==> r.value == Origin.ExtractHost(TrimSpace(g.originUrl.value))
    ensures CheckGitRepo(g) && g.originUrl.None? ==> r == Err(ToolFailed(Exited(KeyMissing, "")))
  {
    if !CheckGitRepo(g) then Err(NotARepository)
    else
      var res := RunGet(g, g.originUrl);
      if res.Exited? && res.code == 0 then
        TrimSpaceAppendSpace(g.originUrl.value, '\n');
        Ok(Origin.Hostname(res.output))
      else Err(ToolFailed(res))
  }

  /** The origin query never reads the local scope. */
  lemma OriginIgnoresLocal(g: GitState, local: Identity)
    ensures GetRepoOrigin(g.(local := local)) == GetRepoOrigin(g)
  {
  }

  /** The value a caller gets when it ignores the error: the host name, or "". */
  function OriginOrEmpty(g: GitState): string {
    match GetRepoOrigin(g)
    case Ok(o) => o
    case Err(_) => ""
  }

  /**
   A global unset with only a global value (the situation of the global-unset tests, run
   from a work tree without a local identity) is refused and git is left unchanged.
   */
  lemma GlobalUnsetNeedsLocalValue(g: GitState, f: Field)
    requires CheckGitRepo(g) && g.writable
    requires Read(g.global, f).Some? && Read(g.local, f).None?
    ensures UnsetUser(g, f, true) == Effect(g, Some(NothingToUnset(f)))
  {
  }

  /** The getter of the scope being unset: the check the pre-check evidently means to make. */
  function GetScoped(g: GitState, f: Field, global: bool): Result<string, GitError> {
    if global then GetGlobalUser(g, f) else GetUser(g, f)
  }

  /** Unset whose pre-check reads the scope it is about to unset. */
  function UnsetUserIntended(g: GitState, f: Field, global: bool): (r: Effect)
    ensures !global && !CheckGitRepo(g) ==> r == Effect(g, Some(NotARepository))
    ensures r.error.None? <==>
      (global || CheckGitRepo(g)) && g.installed && Read(Scoped(g, global), f).Some? && g.writable
    ensures r.error.Some? ==> r.git == g
    ensures r.error.None? ==>
      && Read(Scoped(r.git, global), f).None?
      && r.git == (if global then g.(global := Write(g.global, f, None)) else g.(local := Write(g.local, f, None)))
  {
    if !global && !CheckGitRepo(g) then Effect(g, Some(NotARepository))
    else if GetScoped(g, f, global).Err? then Effect(g, Some(NothingToUnset(f)))
    else
      assert g.installed;
      var res := RunUnset(g, global, f);
      if Outcome(res.0).None? then Effect(res.1, None) else Effect(g, Outcome(res.0))
  }

  /** With the intended pre-check, a global value is removed whatever the local scope holds. */
  lemma IntendedGlobalUnsetRemovesGlobalValue(g: GitState, f: Field)
    requires g.installed && g.writable && Read(g.global, f).Some?
    ensures var r := UnsetUserIntended(g, f, true);
      r.error.None? && Read(r.git.global, f).None? && r.git.local == g.local
  {
  }
}
