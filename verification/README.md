# git-profile in Dafny

A model of the core of `git-profile`, a command-line tool that keeps named git identities
(profile name, `user.name`, `user.email`, origin host) in a configuration file and applies one of
them to the current repository. The model covers four areas:

- the profile store: an in-memory list and its persisted copy;
- the git gateway over an abstract git state, together with the host-name extraction from the
  origin URL;
- the `init` resolution engine, which picks a profile by the repository's origin;
- the decision rules of the `rm`, `ls`, `set`, `add` and `update` commands.

Standard input is a finite sequence of lines. A read past the end yields "", as the tool's
ignored read error does. A prompt loop that would spin for ever on such input returns an
explicit outcome instead: `Unanswered` or `Unpicked`.

Modules, one per component:

| module | file | models |
|---|---|---|
| `Wrappers` | wrappers.dfy | `Option` and `Result` |
| `Strings` | strings.dfy | Go's `strings.TrimSpace`, ASCII `ToLower`, `Index`-and-cut |
| `Seqs` | seqs.dfy | order-preserving selection, the shape of every filtering loop |
| `Profiles` | profiles.dfy | the four-field record, its zero value, its persisted key/value entry |
| `NotSetErrors` | not_set.dfy | the not-set error and its message |
| `ProfileStore` | store.dfy | `Conf.Profiles` (`mem`), the file (`disk`), and the store operations |
| `Origin` | origin.dfy | host extraction from a remote URL |
| `Git` | git.dfy | the getters, setters, unsetters and origin query over a `GitState` |
| `Console` | console.dfy | line reads and the y/n prompt |
| `ProfileFilter` | filter.dfy | the `--name`/`--email`/`--origin` filter predicate |
| `ListCommand`, `RemoveCommand`, `AddCommand`, `UpdateCommand`, `SetCommand`, `InitCommand` | list.dfy, remove.dfy, add.dfy, update.dfy, set.dfy, init.dfy | the commands |

The store is `Store(mem, disk, writable)`:
- `disk` is a list of key/value entries under the keys `profile_name`, `name`, `email` and
  `origin`.
- Saving writes `disk := EncodeAll(mem)` and loading reads `mem := DecodeAll(disk)`.
  `Persisted(s)` means the two agree.
- `writable = false` stands for the file not being creatable. A save then fails, and memory
  keeps the change already made to it, as the source does.

Git is `GitState(installed, place, writable, local, global, originUrl)`:
- Each `git` command is answered by an exit status and an output.
- The statuses are those `git config` documents: 1 for a missing key, 4 for an unwritable file,
  5 for nothing to unset.
- `place` is `Outside`, `WorkTree`, or `GitDir` (a `.git` directory or a bare repository).
  The repository check is "`git rev-parse --is-inside-work-tree` exits 0". That holds in a
  work tree and also in a `GitDir`, where git prints "false".

The cmd files call `SetUserName(x)` and `SetUserEmail(x)` with one argument. The model treats
those calls as the local scope of the two-argument functions in `internal/git.go`. `runAdd` in
`cmd/set.go` is read as `addRun`. The record has the four fields of
`models/profile_config.go`, so the signing key that `add` prompts for is read and discarded.

## Model

| member | source | states |
|---|---|---|
| Strings.TrimSpace | internal/git.go:49 | the result has no leading or trailing white space and is no longer than the input; it is a prefix of the input with its leading white space dropped, and what is dropped before it and after it is all white space |
| Strings.TrimSpaceAppendSpace | internal/git.go:134 | a trailing newline on git's output does not change the trimmed value (by induction) |
| Strings.ToLower | cmd/set.go:93 | each character is lowered in place and the length is kept |
| Strings.IndexOf | internal/git.go:57 | the position found holds the character and none before it does; there is none exactly when the character does not occur |
| Strings.CutAt | internal/git.go:57-63 | the result is a prefix of the input without the separator, and is either the whole input or stops right before the first separator |
| Seqs.SelectExact | internal/config.go:143-153 | a filtering loop keeps the input's order (a subsequence) and keeps every passing element with its multiplicity (by induction) |
| Seqs.SelectAppend | internal/config.go:146-150 | filtering a concatenation is the concatenation of the filtered parts (by induction) |
| Seqs.SelectSnoc | cmd/rm.go:70-87 | filtering a list with one more element adds that element exactly when it passes |
| Seqs.SelectKeepsNext | cmd/rm.go:70-87 | when the next element passes, "kept so far, then the rest" is the same one position later |
| Profiles.Encode | models/profile_config.go:3-8 | a record is persisted under exactly the four keys, and decoding the entry gives the record back |
| Profiles.Decode | models/profile_config.go:4-7 | an entry with none of the four keys decodes to the zero record |
| Profiles.DecodeEncodeAll | internal/config.go:64-84 | decoding the encoded list gives the list back |
| ProfileStore.FindFirst | internal/config.go:117-124 | the scan finds the first position holding the name, and finds none exactly when the name is absent (recursive) |
| ProfileStore.Open | internal/config.go:53-57 | at start-up, memory holds what the file holds, and the file and its writability are the ones given |
| ProfileStore.LoadConfig | internal/config.go:64-70 | memory is replaced by the file's contents; the file is untouched |
| ProfileStore.SaveConfig | internal/config.go:72-84 | a save succeeds exactly when the file can be created, and then the file holds memory; a failure changes nothing |
| ProfileStore.SaveLoadRoundTrip | internal/test/config_test.go:50-71 | save then load leaves the in-memory list unchanged |
| ProfileStore.AddProfile | internal/config.go:86-95 | a duplicate name is an error and changes nothing; a fresh name appends the record and saves it; uniqueness of names is preserved |
| ProfileStore.AddTwiceKeepsOrder | internal/config.go:93 | two adds under distinct fresh names keep both records, in the order they were added |
| ProfileStore.AddSurvivesRestart | internal/config.go:86-95 | a record added under a fresh name is found again, field for field, after the file is reopened |
| ProfileStore.AppendedIsFound | internal/config.go:117-124 | a record appended under a name no record has is what the lookup by that name returns |
| ProfileStore.EditProfile | internal/config.go:97-105 | only the first record with the name is replaced and the length is kept; a missing name is an error and changes nothing |
| ProfileStore.EditRenameForgetsOldName | internal/config.go:97-105 | with unique names, an edit that renames leaves nothing under the old name |
| ProfileStore.EditCanDuplicateNames | internal/config.go:97-105 | an edit may copy another record's name, so uniqueness is not preserved in general |
| ProfileStore.DeleteProfile | internal/config.go:107-115 | exactly the first record with the name is removed, the others keep their order, and the length drops by one; a missing name is an error and changes nothing |
| ProfileStore.CutKeepsUnique | internal/config.go:107-115 | with unique names, cutting out one record leaves its name nowhere and the rest unique |
| ProfileStore.DeleteUniqueForgetsName | internal/config.go:107-115 | with unique names, a delete removes the name altogether and keeps the rest unique |
| ProfileStore.DeleteSucceeded | internal/config.go:107-115 | a delete without error found the name, could save, and shrank the list by one |
| ProfileStore.GetProfileByName | internal/config.go:117-124 | the lookup returns the first record with the name, or the zero record when there is none |
| ProfileStore.StoredZeroLooksAbsent | internal/config.go:117-124 | a stored all-empty record, found under the empty name, reads as absent |
| ProfileStore.ClearConfig | internal/config.go:134-141 | the file is emptied and memory is left as it was; an uncreatable file changes nothing |
| ProfileStore.ClearThenLoad | internal/test/config_test.go:166-190 | after a clear, memory is empty only once the file is loaded again |
| ProfileStore.GetProfilesByOrigin | internal/config.go:143-153 | exactly the records with that origin, as a subsequence with multiplicities; empty exactly when none matches |
| ProfileStore.ByOriginAfterAppend | internal/config.go:143-153 | with no record from an origin, an appended record of that origin is the first answer to the query, and a record of another origin is not an answer |
| NotSetErrors.Message | custom_errors/not_set.go:10-20 | the message starts with "no " and ends with " set"; it reads "no global …" or "no local …" by the flag; the middle is the scope and the config name |
| NotSetErrors.MessageInjective | custom_errors/not_set.go:10-20 | the message determines the flag and the config name |
| NotSetErrors.GlobalUserNameReadsLocal | internal/git.go:191 | the global getter's not-set error, named "global username" with the flag left false, reads "no local global username set" |
| Git.CheckGitRepo | internal/git.go:28-34 | the repository check holds exactly when git can run and finds a repository here (rev-parse exits 0), in a work tree or not; a failure to launch or a fatal status reads as false |
| Git.CheckHoldsOutsideWorkTree | internal/git.go:29-33 | inside a `.git` directory or a bare repository rev-parse prints "false" with status 0, and the check still holds |
| Origin.Hostname | internal/git.go:44-64 | the host taken from git's output never contains '/' and is no longer than the output |
| Origin.SchemeOf | internal/git.go:51-60 | the first of `https://`, `http://`, `git@` the URL starts with is stripped, and none when it starts with none of them |
| Origin.ExtractHost | internal/git.go:49-64 | the host never contains '/'; in the `git@` form it has no ':'; prefix followed by host is a prefix of the URL, ending at the end, at the first '/' or (in the `git@` form) at the first ':' |
| Origin.HostnameOfLine | internal/git.go:44-49 | git's output line with its newline yields the host of the URL |
| Origin.HttpsForm | internal/git.go:51-64 | `https://host/path` yields `host` |
| Origin.HttpForm | internal/git.go:53-64 | `http://host/path` yields `host` |
| Origin.SshForm | internal/git.go:55-64 | `git@host:path` yields `host` even when the path holds '/' |
| Origin.HttpsExample | internal/git.go:51-64 | "https://example.com/repo.git" yields "example.com" |
| Origin.HttpExample | internal/git.go:53-64 | "http://x.org/a/b" yields "x.org" |
| Origin.RepositoryTestExample | internal/test/git_test.go:99-110 | the output for "https://example.com/repo.git" yields "example.com" |
| Origin.SshExample | internal/git.go:55-59 | "git@gitlab.com:u/r.git" yields "gitlab.com" |
| Git.ClassifyRead | internal/git.go:124-134 | exit 0 is the trimmed output; exit 1 is a not-set error whose scope flag is false; anything else is a tool error |
| Git.GetUser | internal/git.go:117-135 | outside a repository it is an error; otherwise it is the local value trimmed, or not-set when there is none |
| Git.GetGlobalUser | internal/git.go:182-197 | no repository check; the global value trimmed, or not-set carrying "global …" as its config name |
| Git.CurrentOrEmpty | cmd/init.go:143-144 | a getter whose error is ignored reads the trimmed local value, and "" outside a repository or when the value is unset |
| Git.SetUser | internal/git.go:72-86 | the repository check applies only to the local scope; the write succeeds exactly when git can run and write, then only that field of that scope changes; on error nothing changes |
| Git.SetThenGet | internal/git.go:72-86 | a successful local write is read back, trimmed, by the local getter |
| Git.SetLeavesOthers | internal/git.go:72-86 | a write changes no other field or scope, and neither the repository check nor the origin |
| Git.UnsetUser | internal/git.go:91-112 | whatever the scope, the pre-check uses the local getter; success exactly when in a repository with a local value, a value in the target scope and a writable file |
| Git.GetRepoOrigin | internal/git.go:39-67 | outside a repository it fails before reading anything; a missing origin is a plain tool error; otherwise the host of the trimmed URL |
| Git.OriginIgnoresLocal | internal/git.go:39-67 | the origin query does not depend on the local identity |
| Git.GlobalUnsetNeedsLocalValue | internal/git.go:96-99 | a global unset with only a global value is refused and git is unchanged |
| Git.UnsetUserIntended | internal/git.go:91-112 | the pre-check reads the scope being unset; success exactly when that scope holds a value and git can write |
| Git.IntendedGlobalUnsetRemovesGlobalValue | internal/test/git_test.go:210-223 | with the intended pre-check, a global unset removes the global value and leaves the local identity alone |
| Console.ReadAnswer | cmd/set.go:86-104 | only "y" or "n" is returned, and at least one line is consumed |
| Console.ReadAnswerFirst | cmd/set.go:90-102 | the first line that normalises to "y" or "n" decides, and the input after that line is what remains (by induction) |
| Console.ReadAnswerNone | cmd/set.go:90-102 | the prompt gives up exactly when no line is an answer (by induction) |
| Console.AnswerSpellings | cmd/set.go:91-93 | a line is read as "y" exactly when it trims to "y" or "Y" (and likewise for "n") |
| Console.PaddedUpperCaseYes | cmd/set.go:91-97 | " Y " is read as "y" |
| Console.ReadLine | cmd/set.go:91 | a read takes the next line and leaves the rest; past the end of input it yields "" and leaves nothing |
| Console.ReadTrimmed | cmd/add.go:50-51 | a prompt yields the next line trimmed and leaves the rest; past the end of input it yields "" |
| Console.ReadAt | cmd/add.go:48-71 | after `n` lines have been read, the next prompt yields line `n` trimmed, or "" past the end, and leaves the input after it |
| ProfileFilter.EmptyFiltersMatchAll | cmd/ls.go:54-56 | with no filter given, every profile passes |
| ProfileFilter.Matches | cmd/rm.go:71-77 | no filter given passes every profile; a profile passes the filter built from its own fields; a given `--name`, `--email` or `--origin` that differs from the profile's field rejects it |
| ListCommand.Shows | cmd/ls.go:53-65 | the branchy per-profile decision of the listing loop is the shared filter predicate |
| ListCommand.RunList | cmd/ls.go:33-67 | a name argument shows the first record of that name or reports it missing; without it, the listing is exactly the passing records in store order, all of them with no filter |
| RemoveCommand.Selects | cmd/rm.go:70-77 | the loop's skip decisions remove exactly the profiles passing the shared filter predicate |
| RemoveCommand.StepSurvivors | cmd/rm.go:70-87 | one iteration of the bulk loop turns "survivors so far, then the unvisited snapshot" into the same for the next position |
| RemoveCommand.StepCount | cmd/rm.go:86 | the count grows by one exactly when the visited profile passes the filters |
| RemoveCommand.Visit | cmd/rm.go:71-83 | a visited profile that fails the filters is skipped with the store unchanged; one that passes is deleted by its profile name |
| RemoveCommand.Visited | cmd/rm.go:70-87 | one visit keeps the loop invariant for the next position, and without a failure the count grows by one exactly when the profile passes the filters |
| RemoveCommand.RemoveMatching | cmd/rm.go:60-95 | the count is the number of passing profiles; survivors are the failing ones in order; nothing changes when none passes; a failed delete stops the loop |
| RemoveCommand.RunRemove | cmd/rm.go:30-96 | `--all` only truncates the file; a name with a filter is refused; a name alone deletes that profile; an empty store reports nothing to remove; otherwise the bulk removal and its count |
| RemoveCommand.NoFiltersRemoveAll | cmd/rm.go:70-77 | with no filter given, the bulk removal takes every profile |
| AddCommand.FlagOrPrompt | cmd/add.go:48-58 | a given flag is used as is; an empty flag reads the next trimmed line |
| AddCommand.AddOrigin | cmd/add.go:64-82 | "auto" gives the repository's origin, another flag value is literal, and with no flag an empty line gives the repository's origin |
| AddCommand.RunAdd | cmd/add.go:39-99 | no argument panics; a name resolving to a record adds nothing; otherwise the run adds or fails; an add appends a record named by the argument and leaves the file holding memory; a failure leaves the file as it was |
| AddCommand.Submit | cmd/add.go:92-96 | a record whose name is taken is refused with the store unchanged; otherwise it is appended, and it is saved and reported added exactly when the file can be written, the file being kept otherwise |
| AddCommand.FieldsAt | cmd/add.go:48-75 | the name is the `--name` flag or else line 0; the e-mail is the `--email` flag or else the next line; the line after that (the signing key) is consumed; the typed origin is the line after the signing key when there is no `--origin` flag; the input after the last line read is left |
| AddCommand.RunAddRecord | cmd/add.go:48-96 | for a name that does not resolve to a record, by input position: name from `--name` or line 0, e-mail from `--email` or the next line, the signing-key line dropped, the origin from the flag ("auto" taking the repository's) or else the next line ("" taking the repository's); a name already stored is refused, otherwise the record is appended, and it is added and saved exactly when the file can be written; the input after the last prompt is left |
| AddCommand.FlagsUsedAsGiven | cmd/add.go:48-90 | with all flags given, the record is the argument plus the flags and only the signing-key line is read |
| AddCommand.EmptyNameAgainstStoredZero | cmd/add.go:41-44 | a stored all-empty record lets `add ""` past the duplicate check, and the store then refuses it |
| AddCommand.PromptsOnlyForEmptyFlags | cmd/add.go:48-71 | one line is read per empty flag, plus the signing-key line |
| AddCommand.EmptyLineTakesRepositoryOrigin | cmd/add.go:67-75 | an empty origin line stores the repository's origin |
| UpdateCommand.MergeField | cmd/update.go:39-58 | a given flag is used; otherwise a typed line replaces the value and an empty line keeps the old one |
| UpdateCommand.UpdateOrigin | cmd/update.go:60-78 | "auto" gives the repository's origin, another flag value is literal, and with no flag an empty line keeps the old origin |
| UpdateCommand.OriginChoicesAgree | cmd/update.go:63-78 | add and update choose the same origin except on an empty line, where add takes the repository's origin and update keeps the old one |
| UpdateCommand.RunUpdate | cmd/update.go:28-92 | an absent profile changes nothing; otherwise the first record with the name is replaced in place by one keeping that name, succeeding exactly when the file can be written |
| UpdateCommand.RunUpdateRecord | cmd/update.go:39-89 | for an existing profile, by input position: name and e-mail from the flag, else the typed line, else the old value; the origin from the flag ("auto" taking the repository's), else the typed line, else the old origin; that record replaces the first record with the name, and the update is reported with it when the file can be written; the input after the last prompt is left |
| UpdateCommand.EmptyAnswersKeepProfile | cmd/update.go:39-71 | empty answers to every prompt leave the profile as it was |
| UpdateCommand.FlagsSkipPrompts | cmd/update.go:39-85 | given flags are used without reading input, and the profile keeps its name |
| SetCommand.WriteIdentity | cmd/set.go:59-83 | an unreadable local name stops before any write; a read error on the e-mail counts as ""; nothing is written when both fields match; a readable name that differs, or a differing e-mail, with a writable file is written, and the run is applied exactly then; a failed name write stops before the e-mail write; success reads both values back |
| SetCommand.Apply | cmd/set.go:48-83 | an origin mismatch only raises the warning; the store is untouched |
| SetCommand.ApplyAdded | cmd/set.go:43-48 | the run ends as a failed add exactly when the add flow failed, and then git is untouched and the store is the add flow's; otherwise the record the store now holds under the name is applied to the add flow's store |
| SetCommand.CreateThenApply | cmd/set.go:43-48 | the run ends as a failed add exactly when the add flow fails, and a failed add ends the run without touching git or the file; a successful add applies the record just added to the store it was added to; any run past the add has appended one record under the name |
| SetCommand.RunSet | cmd/set.go:27-84 | an existing profile is applied; an absent one is created after a "y", left alone after an "n", and input without an answer changes nothing |
| SetCommand.OriginMismatchOnlyWarns | cmd/set.go:50-57 | the outcome and git state do not depend on the profile's origin |
| SetCommand.NeedsReadableLocalName | cmd/set.go:59-64 | outside a repository or without a local name, the run stops with git unchanged |
| SetCommand.DeclineChangesNothing | cmd/set.go:32-41 | answering "n" for an absent profile changes nothing |
| SetCommand.AppliedReadsBack | cmd/set.go:71-83 | after a successful run git reads back the profile's name and e-mail |
| SetCommand.DifferingNameIsWritten | cmd/set.go:59-83 | for an existing profile whose name differs from the readable local name, with a writable file, the run is applied and git then reads back the profile's name and e-mail |
| InitCommand.CredentialsAlreadySet | cmd/init.go:142-150 | true exactly when name and e-mail equal the local values, trimmed, with an unreadable value counting as "" |
| InitCommand.LastMatch | cmd/init.go:109-115 | the inner loop returns the last candidate with the name, and none exactly when no candidate has it (recursive) |
| InitCommand.Pick | cmd/init.go:105-121 | a picked profile is one of the candidates |
| InitCommand.PickFirst | cmd/init.go:105-121 | the first input line naming a candidate decides, and the last candidate with that name is taken (by induction) |
| InitCommand.PickExhausted | cmd/init.go:105-121 | when no line names a candidate, only a candidate named "" can be picked, as every read past the end yields "" (by induction) |
| InitCommand.ApplyProfile | cmd/init.go:78-91 | nothing is written when the credentials match; otherwise both writes are attempted, a failed name write not stopping the e-mail write; only the local identity changes |
| InitCommand.FromCandidates | cmd/init.go:77-139 | a single match is applied; from several, the picked one is applied, and an unanswerable pick changes nothing |
| InitCommand.AfterAdd | cmd/init.go:55-75 | a panic or a failed save in the add flow ends the run; otherwise the store is queried again by origin and, when the answer is not empty, its first record is applied to the store the add flow left; an empty answer is an index out of range |
| InitCommand.CreateAsWritten | cmd/init.go:55 | the add flow as called here receives no argument and panics |
| InitCommand.Offer | cmd/init.go:45-75 | with no match, "n" and a missing answer change nothing; any applied profile has the repository's origin and is in the store |
| InitCommand.ResolveFrom | cmd/init.go:35-140 | given the origin query's answer, a failure ends the run before any query or write; then zero, one or several matches decide; an applied profile has that origin and is stored; only an applied profile changes git, and only its local identity |
| InitCommand.Resolve | cmd/init.go:35-44 | the engine runs on the repository's origin, and outside a repository the run ends as not a repository |
| InitCommand.InitAsWritten | cmd/init.go:35-140 | as written, a profile is applied only when one already matched the origin |
| InitCommand.Init | cmd/init.go:35-140 | the repaired run: an applied profile always has the repository's origin and is stored |
| InitCommand.InitAsWrittenCrashesOnCreate | cmd/init.go:54-56 | with no match, answering "y" panics |
| InitCommand.CreateIntended | cmd/init.go:54-56 | the repaired creation step always hands the add flow a name, so it never panics on a missing argument |
| InitCommand.CreateIntendedNames | cmd/init.go:54-56 | the name is the first line typed, trimmed; a name that resolves to a record adds nothing and leaves the input after that line; an added record carries that name and is appended |
| InitCommand.CreateIntendedStores | cmd/add.go:39-96 | the repaired creation step stores and saves the record typed in |
| InitCommand.InitCreatesAndApplies | cmd/init.go:45-75 | repaired: with no match, "y", a fresh name and an empty origin line, the new profile is stored with the repository's origin and is the one applied |
| InitCommand.CreateElsewhereCrashes | cmd/init.go:58-60 | a new profile typed with another origin is not found by the second query, and the run ends in an index out of range |
| InitCommand.ApplyIsIdempotent | cmd/init.go:78-81 | after a clean apply of trimmed values, applying the same profile again writes nothing |
| InitCommand.ApplyKeepsOrigin | cmd/init.go:83-91 | applying a profile does not change the origin git reports |
| InitCommand.SelectsCandidate | cmd/init.go:77-121 | a candidate that is the only match, or is picked, is the one applied |
| InitCommand.InitAgainIsAlreadySet | cmd/init.go:78-81 | running init again after a clean apply, selecting the same profile, finds the credentials already set |

## Left out

- TOML text, and its decode and encode errors (internal/config.go:66, internal/config.go:78): the file is a list of key/value entries. A decode error at start-up is not modelled.
- Executable-path discovery and creation of the file in `init()` (internal/config.go:35-52): these are operating-system calls. `Open` starts from a given file.
- Process execution and output wiring in internal/git.go: git is an abstract state that answers with an exit status. The check `err.Error() == "exit status 1"` is taken to hold for every exit status 1.
- Console printing and message text: dropped, except the not-set message.
- Buffering between `bufio.Reader`s: each prompt is taken to consume exactly one line.
- `strings.ToLower` on non-ASCII letters: only ASCII upper case is lowered. The answers compared against are ASCII.
- `ProfileStore.GetAllProfiles`: it returns the in-memory list and has no contract of its own. The bulk removal takes its snapshot through it.
- cmd/config.go (editor launch), cmd/root.go (command wiring), cmd/check.go, cmd/unset.go and cmd/tempset.go (print and prompt wrappers around the gateway), and cmd/edit.go (a stub): none of these is part of this model.
- Concurrent invocations and file locking: the tool is one sequential process.
- RemoveCommand.RemoveMatching: survivors are characterised only when profile names are unique. With duplicate names, each delete removes the first record of a name, which need not be the visited one. For that case only the count and the length are stated.
- RemoveCommand.RunRemove: the bulk outcome is stated for unique names and a writable file. Failure cases are stated through `RemoveMatching`'s contract.
- SetCommand.WriteIdentity: one `writable` flag covers both writes. Once the name write has succeeded, the e-mail write succeeds too, so the exit on a failed e-mail write (cmd/set.go:77-81) cannot happen here.
- InitCommand.ApplyProfile: for the same reason, the name and e-mail writes fail or succeed together.
- InitCommand.Pick: an input that would keep the pick prompt asking for ever is reported as `None`. The model does not loop. Its own contract states only membership; `PickFirst` and `PickExhausted` state the choice.
- Console.ReadAnswer: its own contract states only the answer's values and that input is consumed; `ReadAnswerFirst` and `ReadAnswerNone` state which line decides.
- AddCommand.RunAdd: its own contract does not give the record's fields; `RunAddRecord` gives them by input position.
- UpdateCommand.RunUpdate: its own contract does not give the merged record's fields; `RunUpdateRecord` gives them by input position.
- Origin.Hostname: its own contract states only that the host holds no '/' and is no longer than the output; `ExtractHost` and `HostnameOfLine` state which part of the URL it is.

## Findings

| source | as written | input that shows it | evidently intended | confidence | as-written member | corrected member |
|---|---|---|---|---|---|---|
| cmd/init.go:55 | with no profile for the origin and the answer "y", the add flow is called with an empty argument list, and cmd/add.go:40 reads `args[0]` | a repository whose origin host matches no stored profile, and "y" typed at the prompt | the new profile's name is obtained (here read from the next line) and passed to the add flow, which then stores and applies the new profile | not executed | InitCommand.InitAsWrittenCrashesOnCreate | InitCommand.InitCreatesAndApplies |
| internal/git.go:96 | a global unset pre-checks the local getter, so a global value with no local value is refused as "no local username to unset" (the same at internal/git.go:227 for the e-mail) | the scenario of internal/test/git_test.go:210-223: a global `user.name`, no local one, then `UnsetUserName(true)` | the pre-check reads the scope being unset, so the global value is removed | not executed | Git.GlobalUnsetNeedsLocalValue | Git.IntendedGlobalUnsetRemovesGlobalValue |

`Git.UnsetUser` keeps the source's behaviour. `Git.UnsetUserIntended` is the repaired operation
that the second finding's lemma is about. `InitCommand.Init` is the repaired `runInit` used by the
idempotence lemmas. `InitCommand.InitAsWritten` runs the same engine with the creation step as
written.
