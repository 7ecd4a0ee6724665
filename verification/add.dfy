/** `git-profile add <profile-name>`: build a new profile from flags and prompts and store it. */
module AddCommand {
  import opened Wrappers
  import opened Strings
  import opened Profiles
  import opened ProfileStore
  import opened ProfileFilter
  import opened Console
  import Git

  datatype AddOutcome =
    | AlreadyPresent
    | Added(profile: Profile)
    | AddFailed(error: StoreError)
    | MissingArgument

  /** The store after the command and the input it left unread. */
  datatype AddRun = AddRun(outcome: AddOutcome, store: Store, rest: seq<string>)

  /** A flag value if given, else the next trimmed line. */
  function FlagOrPrompt(flag: string, input: seq<string>): (r: (string, seq<string>))
    ensures flag != "" ==> r == (flag, input)
    ensures flag == "" ==> r == ReadTrimmed(input)
  {
    if flag != "" then (flag, input) else ReadTrimmed(input)
  }

  /**
   The origin of a new profile: with no flag the typed line, or the repository's origin when
   the line is empty; the flag value "auto" means the repository's origin; any other flag
   value is taken literally.
   */
  function AddOrigin(flag: string, typed: string, current: string): (o: string)
    ensures flag == "auto" ==> o == current
    ensures flag != "" && flag != "auto" ==> o == flag
    ensures flag == "" && typed == "" ==> o == current
    ensures flag == "" && typed != "" ==> o == typed
  {
    if flag == "" then (if typed == "" then current else typed)
    else if flag == "auto" then current
    else flag
  }

  /** What the prompts of `add` yield: name, e-mail, the typed origin line ("" when the flag is set) and the unread input. */
  datatype Fields = Fields(name: string, email: string, typed: string, rest: seq<string>)

  /** Name, e-mail, the signing-key line (read and dropped) and, with no origin flag, the origin line. */
  function ReadFields(f: Filters, input: seq<string>): Fields {
    var (name, in1) := FlagOrPrompt(f.name, input);
    var (email, in2) := FlagOrPrompt(f.email, in1);
    var (_, in3) := ReadLine(in2);
    var (typed, in4) := if f.origin == "" then ReadTrimmed(in3) else ("", in3);
    Fields(name, email, typed, in4)
  }

  /** Hand a new record to the store: refused under a taken name, otherwise appended and saved if it can be. */
  function Submit(s: Store, p: Profile, rest: seq<string>): (r: AddRun)
    ensures r.rest == rest
    ensures HasName(s.mem, p.profileName) ==> r.outcome == AddFailed(AlreadyExists(p.profileName)) && r.store == s
    ensures !HasName(s.mem, p.profileName) ==>
      && r.store.mem == s.mem + [p]
      && (s.writable ==> r.outcome == Added(p) && Persisted(r.store))
      && (!s.writable ==> r.outcome == AddFailed(SaveFailed) && r.store.disk == s.disk)
  {
    var m := AddProfile(s, p);
    AddRun(if m.error.None? then Added(p) else AddFailed(m.error.value), m.store, rest)
  }

  /**
   `addRun`: refuse a name that already resolves to a record; otherwise read name, e-mail,
   the (discarded) signing key and the origin, and add the record.
   */
  function RunAdd(s: Store, g: Git.GitState, args: seq<string>, f: Filters, input: seq<string>): (r: AddRun)
    ensures |args| == 0 ==> r == AddRun(MissingArgument, s, input)
    ensures |args| > 0 && !IsAbsent(GetProfileByName(s.mem, args[0])) ==> r == AddRun(AlreadyPresent, s, input)
    ensures |args| > 0 && IsAbsent(GetProfileByName(s.mem, args[0])) ==> r.outcome.Added? || r.outcome.AddFailed?
    ensures r.outcome.Added? ==>
      && r.outcome.profile.profileName == args[0]
      && r.store.mem == s.mem + [r.outcome.profile]
      && Persisted(r.store)
    ensures r.outcome.AddFailed? ==> r.store.disk == s.disk
  {
    if |args| == 0 then AddRun(MissingArgument, s, input)
    else if !IsAbsent(GetProfileByName(s.mem, args[0])) then AddRun(AlreadyPresent, s, input)
    else
      var read := ReadFields(f, input);
      Submit(s, Profile(args[0], read.name, read.email, AddOrigin(f.origin, read.typed, Git.OriginOrEmpty(g))), read.rest)
  }

  /** A flag-or-prompt read after `n` lines takes line `n` when the flag is empty, and consumes it. */
  lemma FlagAt(flag: string, input: seq<string>, n: nat)
    ensures FlagOrPrompt(flag, Skip(input, n)) ==
      (if flag != "" then flag else LineAt(input, n), Skip(input, n + Prompted(flag)))
  {
    ReadAt(input, n);
  }

  /**
   The prompts of `add` by line: the name at line 0 unless flagged, the e-mail at the next
   line unless flagged, then the signing key, then the origin line unless flagged.
   */
  lemma FieldsAt(f: Filters, input: seq<string>)
    ensures
      var atEmail := Prompted(f.name);
      var atOrigin := atEmail + Prompted(f.email) + 1;
      ReadFields(f, input) == Fields(
        if f.name != "" then f.name else LineAt(input, 0),
        if f.email != "" then f.email else LineAt(input, atEmail),
        if f.origin == "" then LineAt(input, atOrigin) else "",
        Skip(input, atOrigin + Prompted(f.origin)))
  {
    AddReadsAt(f, input);
  }

  /** The same reads one at a time. */
  lemma AddReadsAt(f: Filters, input: seq<string>)
    ensures FlagOrPrompt(f.name, input) ==
      (if f.name != "" then f.name else LineAt(input, 0), Skip(input, Prompted(f.name)))
    ensures FlagOrPrompt(f.email, Skip(input, Prompted(f.name))) ==
      (if f.email != "" then f.email else LineAt(input, Prompted(f.name)),
       Skip(input, Prompted(f.name) + Prompted(f.email)))
    ensures ReadLine(Skip(input, Prompted(f.name) + Prompted(f.email))).1 ==
      Skip(input, Prompted(f.name) + Prompted(f.email) + 1)
    ensures f.origin == "" ==>
      ReadTrimmed(Skip(input, Prompted(f.name) + Prompted(f.email) + 1)) ==
        (LineAt(input, Prompted(f.name) + Prompted(f.email) + 1),
         Skip(input, Prompted(f.name) + Prompted(f.email) + 1 + Prompted(f.origin)))
    ensures f.origin != "" ==>
      Skip(input, Prompted(f.name) + Prompted(f.email) + 1 + Prompted(f.origin)) ==
        Skip(input, Prompted(f.name) + Prompted(f.email) + 1)
  {
    assert Skip(input, 0) == input;
    FlagAt(f.name, input, 0);
    FlagAt(f.email, input, Prompted(f.name));
    ReadAt(input, Prompted(f.name) + Prompted(f.email));
    OptionalReadAt(input, Prompted(f.name) + Prompted(f.email) + 1, f.origin);
  }

  /**
   The record a fresh name gets, by input line: the name is the `--name` flag or line 0; the
   e-mail is the `--email` flag or the next line; the line after that is the signing key,
   read and dropped; the origin follows the flag, or the line after the signing key. A name
   already stored (only possible for "" against a stored zero record) is refused by the store;
   otherwise the record is appended, and saved exactly when the file can be written.
   */
  lemma RunAddRecord(s: Store, g: Git.GitState, profileName: string, f: Filters, input: seq<string>)
    requires IsAbsent(GetProfileByName(s.mem, profileName))
    ensures
      var atEmail := Prompted(f.name);
      var atOrigin := atEmail + Prompted(f.email) + 1;
      var p := Profile(profileName,
        if f.name != "" then f.name else LineAt(input, 0),
        if f.email != "" then f.email else LineAt(input, atEmail),
        AddOrigin(f.origin, if f.origin == "" then LineAt(input, atOrigin) else "", Git.OriginOrEmpty(g)));
      var r := RunAdd(s, g, [profileName], f, input);
      && r.rest == Skip(input, atOrigin + Prompted(f.origin))
      && (HasName(s.mem, profileName) ==> r.outcome == AddFailed(AlreadyExists(profileName)) && r.store == s)
      && (!HasName(s.mem, profileName) ==>
            && r.store.mem == s.mem + [p]
            && (s.writable ==> r.outcome == Added(p) && Persisted(r.store))
            && (!s.writable ==> r.outcome == AddFailed(SaveFailed) && r.store.disk == s.disk))
  {
    FieldsAt(f, input);
  }

  /** The stored record is named by the argument and uses the flags as given, without prompting. */
  lemma FlagsUsedAsGiven(s: Store, g: Git.GitState, name: string, f: Filters, input: seq<string>)
    requires f.name != "" && f.email != "" && f.origin != "" && f.origin != "auto"
    requires IsAbsent(GetProfileByName(s.mem, name))
    ensures var r := RunAdd(s, g, [name], f, input);
      r.outcome.Added? ==>
        && r.outcome.profile == Profile(name, f.name, f.email, f.origin)
        && r.store.mem == s.mem + [r.outcome.profile]
    ensures |RunAdd(s, g, [name], f, input).rest| == if input == [] then 0 else |input| - 1
  {
    RunAddRecord(s, g, name, f, input);
  }

  /** A stored all-empty record makes `add ""` pass the duplicate check and then fail in the store. */
  lemma EmptyNameAgainstStoredZero(s: Store, g: Git.GitState, f: Filters, input: seq<string>)
    requires |s.mem| > 0 && s.mem[0] == Zero
    ensures RunAdd(s, g, [""], f, input).outcome == AddFailed(AlreadyExists(""))
  {
    StoredZeroLooksAbsent(s.mem);
    RunAddRecord(s, g, "", f, input);
    assert HasName(s.mem, "") by { assert s.mem[0].profileName == ""; }
  }

  /** One line is read per empty flag, plus the signing-key line. */
  lemma PromptsOnlyForEmptyFlags(s: Store, g: Git.GitState, name: string, f: Filters, input: seq<string>)
    requires IsAbsent(GetProfileByName(s.mem, name))
    requires |input| >= 4
    ensures |RunAdd(s, g, [name], f, input).rest| == |input| - 1 - Prompted(f.name) - Prompted(f.email) - Prompted(f.origin)
  {
    RunAddRecord(s, g, name, f, input);
  }

  /** An empty origin line means the repository's origin, whatever it is. */
  lemma EmptyLineTakesRepositoryOrigin(s: Store, g: Git.GitState, name: string, input: seq<string>)
    requires IsAbsent(GetProfileByName(s.mem, name)) && !HasName(s.mem, name) && s.writable
    requires |input| == 4 && TrimSpace(input[3]) == ""
    ensures var r := RunAdd(s, g, [name], NoFilters, input);
      r.outcome.Added? && r.outcome.profile.origin == Git.OriginOrEmpty(g)
      && r.outcome.profile.name == TrimSpace(input[0]) && r.outcome.profile.email == TrimSpace(input[1])
  {
    RunAddRecord(s, g, name, NoFilters, input);
    assert LineAt(input, 0) == TrimSpace(input[0]) && LineAt(input, 1) == TrimSpace(input[1]);
    assert LineAt(input, 3) == "";
  }
}
