/** `git-profile update <profile-name>`: edit a profile's fields, keeping what is left empty. */
module UpdateCommand {
  import opened Wrappers
  import opened Strings
  import opened Profiles
  import opened ProfileStore
  import opened ProfileFilter
  import opened Console
  import AddCommand
  import Git

  datatype UpdateOutcome = Missing | Updated(profile: Profile) | EditFailed(error: StoreError)

  datatype UpdateRun = UpdateRun(outcome: UpdateOutcome, store: Store, rest: seq<string>)

  /** A field's new value: the flag if given, else the typed line, else the old value. */
  function MergeField(flag: string, previous: string, input: seq<string>): (r: (string, seq<string>))
    ensures flag != "" ==> r == (flag, input)
    ensures flag == "" ==> r.1 == ReadLine(input).1
    ensures flag == "" && ReadTrimmed(input).0 == "" ==> r.0 == previous
    ensures flag == "" && ReadTrimmed(input).0 != "" ==> r.0 == ReadTrimmed(input).0
  {
    if flag != "" then (flag, input)
    else
      var (typed, rest) := ReadTrimmed(input);
      (if typed == "" then previous else typed, rest)
  }

  /**
   The edited origin: the flag value "auto" means the repository's origin, another flag value
   is literal, and with no flag an empty line keeps the old origin.
   */
  function UpdateOrigin(flag: string, typed: string, current: string, previous: string): (o: string)
    ensures flag == "auto" ==> o == current
    ensures flag != "" && flag != "auto" ==> o == flag
    ensures flag == "" && typed == "" ==> o == previous
    ensures flag == "" && typed != "" ==> o == typed
  {
    if flag == "" then (if typed == "" then previous else typed)
    else if flag == "auto" then current
    else flag
  }

  /** Add and update choose the same origin except on an empty line, where add takes the repository's. */
  lemma OriginChoicesAgree(flag: string, typed: string, current: string, previous: string)
    ensures flag != "" || typed != "" ==> UpdateOrigin(flag, typed, current, previous) == AddCommand.AddOrigin(flag, typed, current)
    ensures flag == "" && typed == "" ==>
      UpdateOrigin(flag, typed, current, previous) == previous && AddCommand.AddOrigin(flag, typed, current) == current
  {
  }

  /** `runUpdate`: nothing happens for an absent profile; otherwise the merged record replaces it. */
  function RunUpdate(s: Store, g: Git.GitState, profileName: string, f: Filters, input: seq<string>): (r: UpdateRun)
    ensures IsAbsent(GetProfileByName(s.mem, profileName)) ==> r == UpdateRun(Missing, s, input)
    ensures r.outcome.Updated? ==>
      && r.outcome.profile.profileName == profileName
      && (forall i | IsFirstNamed(s.mem, profileName, i) :: r.store.mem == s.mem[i := r.outcome.profile])
      && Persisted(r.store)
    ensures !IsAbsent(GetProfileByName(s.mem, profileName)) ==>
      && |r.store.mem| == |s.mem|
      && (r.outcome.Updated? <==> s.writable)
      && (!s.writable ==> r.outcome == EditFailed(SaveFailed) && r.store.disk == s.disk)
  {
    var previous := GetProfileByName(s.mem, profileName);
    if IsAbsent(previous) then UpdateRun(Missing, s, input)
    else
      var (name, in1) := MergeField(f.name, previous.name, input);
      var (email, in2) := MergeField(f.email, previous.email, in1);
      var current := Git.OriginOrEmpty(g);
      var (typed, in3) := if f.origin == "" then ReadTrimmed(in2) else ("", in2);
      var p := Profile(profileName, name, email, UpdateOrigin(f.origin, typed, current, previous.origin));
      assert HasName(s.mem, profileName);
      var m := EditProfile(s, profileName, p);
      UpdateRun(if m.error.None? then Updated(p) else EditFailed(m.error.value), m.store, in3)
  }

  /** The reads of `RunUpdate` one after the other, for a stored profile. */
  lemma RunUpdateSteps(s: Store, g: Git.GitState, profileName: string, f: Filters, input: seq<string>)
    requires !IsAbsent(GetProfileByName(s.mem, profileName))
    ensures
      var prev := GetProfileByName(s.mem, profileName);
      var (name, in1) := MergeField(f.name, prev.name, input);
      var (email, in2) := MergeField(f.email, prev.email, in1);
      var (typed, in3) := if f.origin == "" then ReadTrimmed(in2) else ("", in2);
      var p := Profile(profileName, name, email, UpdateOrigin(f.origin, typed, Git.OriginOrEmpty(g), prev.origin));
      var m := EditProfile(s, profileName, p);
      RunUpdate(s, g, profileName, f, input) ==
        UpdateRun(if m.error.None? then Updated(p) else EditFailed(m.error.value), m.store, in3)
  {
  }

  /** A merged field read after `n` lines takes line `n` when the flag is empty, and consumes it. */
  lemma MergeAt(flag: string, previous: string, input: seq<string>, n: nat)
    ensures MergeField(flag, previous, Skip(input, n)) ==
      (if flag != "" then flag else if LineAt(input, n) != "" then LineAt(input, n) else previous,
       Skip(input, n + Prompted(flag)))
  {
    ReadAt(input, n);
  }

  /**
   The record an update writes, by input line: the name is the `--name` flag, else line 0 when
   it is not empty, else the old name; the e-mail likewise from the next line read; the origin
   follows the flag, or the line after those, an empty one keeping the old origin. It replaces
   the first record with the name, and is saved exactly when the file can be written.
   */
  lemma RunUpdateRecord(s: Store, g: Git.GitState, profileName: string, f: Filters, input: seq<string>)
    requires !IsAbsent(GetProfileByName(s.mem, profileName))
    ensures
      var prev := GetProfileByName(s.mem, profileName);
      var atEmail := Prompted(f.name);
      var atOrigin := atEmail + Prompted(f.email);
      var p := Profile(profileName,
        if f.name != "" then f.name else if LineAt(input, 0) != "" then LineAt(input, 0) else prev.name,
        if f.email != "" then f.email else if LineAt(input, atEmail) != "" then LineAt(input, atEmail) else prev.email,
        UpdateOrigin(f.origin, if f.origin == "" then LineAt(input, atOrigin) else "", Git.OriginOrEmpty(g), prev.origin));
      var r := RunUpdate(s, g, profileName, f, input);
      && r.rest == Skip(input, atOrigin + Prompted(f.origin))
      && (forall i | IsFirstNamed(s.mem, profileName, i) :: r.store.mem == s.mem[i := p])
      && (s.writable ==> r.outcome == Updated(p))
  {
    var prev := GetProfileByName(s.mem, profileName);
    UpdateReadsAt(prev, f, input);
    RunUpdateSteps(s, g, profileName, f, input);
    assert HasName(s.mem, profileName);
  }

  /** The three prompts of an update read lines 0, 1 and 2 of what the flags leave to prompt for. */
  lemma UpdateReadsAt(prev: Profile, f: Filters, input: seq<string>)
    ensures
      var atEmail := Prompted(f.name);
      var atOrigin := atEmail + Prompted(f.email);
      var (name, in1) := MergeField(f.name, prev.name, input);
      var (email, in2) := MergeField(f.email, prev.email, in1);
      var (typed, in3) := if f.origin == "" then ReadTrimmed(in2) else ("", in2);
      && name == (if f.name != "" then f.name else if LineAt(input, 0) != "" then LineAt(input, 0) else prev.name)
      && email == (if f.email != "" then f.email else if LineAt(input, atEmail) != "" then LineAt(input, atEmail) else prev.email)
      && typed == (if f.origin == "" then LineAt(input, atOrigin) else "")
      && in3 == Skip(input, atOrigin + Prompted(f.origin))
  {
    var atEmail := Prompted(f.name);
    var atOrigin := atEmail + Prompted(f.email);
    assert Skip(input, 0) == input;
    MergeAt(f.name, prev.name, input, 0);
    MergeAt(f.email, prev.email, input, atEmail);
    ReadAt(input, atOrigin);
  }

  /** Empty answers to every prompt leave the profile exactly as it was. */
  lemma EmptyAnswersKeepProfile(s: Store, g: Git.GitState, profileName: string, input: seq<string>)
    requires !IsAbsent(GetProfileByName(s.mem, profileName)) && s.writable
    requires |input| == 3 && forall i :: 0 <= i < 3 ==> TrimSpace(input[i]) == ""
    ensures RunUpdate(s, g, profileName, NoFilters, input).outcome == Updated(GetProfileByName(s.mem, profileName))
  {
    var previous := GetProfileByName(s.mem, profileName);
    assert ReadTrimmed(input).0 == "";
    assert ReadTrimmed(input[1..]).0 == "";
    assert ReadTrimmed(input[1..][1..]).0 == "";
    assert previous.profileName == profileName;
  }

  /** Given flags are used without prompting, and the profile keeps its name. */
  lemma FlagsSkipPrompts(s: Store, g: Git.GitState, profileName: string, f: Filters, input: seq<string>)
    requires !IsAbsent(GetProfileByName(s.mem, profileName)) && s.writable
    requires f.name != "" && f.email != "" && f.origin != "" && f.origin != "auto"
    ensures var r := RunUpdate(s, g, profileName, f, input);
      r.outcome == Updated(Profile(profileName, f.name, f.email, f.origin)) && r.rest == input
  {
  }
}
