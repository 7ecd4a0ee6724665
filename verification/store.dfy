/**
 The profile store: the in-memory list `Conf.Profiles` (`mem`) and the configuration file
 it is mirrored to (`disk`), each mutation rewriting the whole file.
 */
module ProfileStore {
  import opened Wrappers
  import opened Profiles
  import opened Seqs

  /**
   `writable` is false when the configuration file cannot be created for writing;
   saving then fails and leaves `disk` as it was.
   */
  datatype Store = Store(mem: seq<Profile>, disk: seq<Table>, writable: bool)

  datatype StoreError =
    | AlreadyExists(profileName: string)
    | NotFound(profileName: string)
    | SaveFailed
    | ResetFailed

  /** A store after an operation, and the error that operation returned, if any. */
  datatype Mutation = Mutation(store: Store, error: Option<StoreError>)

  /** The file holds exactly the in-memory list. */
  predicate Persisted(s: Store) {
    DecodeAll(s.disk) == s.mem
  }

  predicate HasName(ps: seq<Profile>, name: string) {
    exists i :: 0 <= i < |ps| && ps[i].profileName == name
  }

  /** `i` is the position of the first profile called `name`, the one every scan stops at. */
  predicate IsFirstNamed(ps: seq<Profile>, name: string, i: int) {
    && 0 <= i < |ps|
    && ps[i].profileName == name
    && forall j :: 0 <= j < i ==> ps[j].profileName != name
  }

  /** No two profiles share a profile name. */
  predicate UniqueNames(ps: seq<Profile>) {
    forall i, j :: 0 <= i < j < |ps| ==> ps[i].profileName != ps[j].profileName
  }

  /** The linear scan shared by the store operations: the first position holding `name`. */
  function FindFirst(ps: seq<Profile>, name: string): (r: Option<nat>)
    ensures r.Some? ==> IsFirstNamed(ps, name, r.value)
    ensures r.None? <==> !HasName(ps, name)
  {
    if |ps| == 0 then None
    else if ps[0].profileName == name then Some(0)
    else
      match FindFirst(ps[1..], name)
      case None =>
        assert forall i :: 1 <= i < |ps| ==> ps[i] == ps[1..][i - 1];
        None
      case Some(i) => Some(i + 1)
  }

  /** The process start: the file is read into memory. */
  function Open(disk: seq<Table>, writable: bool): (s: Store)
    ensures Persisted(s)
    ensures s.disk == disk && s.writable == writable
  {
    Store(DecodeAll(disk), disk, writable)
  }

  /** `LoadConfig`: the in-memory list is replaced by the file's contents. */
  function LoadConfig(s: Store): (r: Store)
    ensures Persisted(r)
    ensures r.disk == s.disk && r.writable == s.writable
  {
    s.(mem := DecodeAll(s.disk))
  }

  /** `SaveConfig`: the file is rewritten from memory, unless it cannot be created. */
  function SaveConfig(s: Store): (r: Mutation)
    ensures r.store.mem == s.mem && r.store.writable == s.writable
    ensures s.writable <==> r.error.None?
    ensures s.writable ==> Persisted(r.store)
    ensures !s.writable ==> r.store == s && r.error == Some(SaveFailed)
  {
    if s.writable then Mutation(s.(disk := EncodeAll(s.mem)), None)
    else Mutation(s, Some(SaveFailed))
  }

  /** Saving and loading back leaves the in-memory list unchanged. */
  lemma SaveLoadRoundTrip(s: Store)
    requires s.writable
    ensures LoadConfig(SaveConfig(s).store).mem == s.mem
  {
    DecodeEncodeAll(s.mem);
  }

  /** `AddProfile`: refuse a taken profile name, otherwise append and save. */
  function AddProfile(s: Store, p: Profile): (r: Mutation)
    ensures HasName(s.mem, p.profileName) ==> r == Mutation(s, Some(AlreadyExists(p.profileName)))
    ensures !HasName(s.mem, p.profileName) ==>
      && r.store.mem == s.mem + [p]
      && (s.writable ==> r.error.None? && Persisted(r.store))
      && (!s.writable ==> r.error == Some(SaveFailed) && r.store.disk == s.disk)
    ensures r.store.writable == s.writable
    ensures UniqueNames(s.mem) ==> UniqueNames(r.store.mem)
  {
    if FindFirst(s.mem, p.profileName).Some? then Mutation(s, Some(AlreadyExists(p.profileName)))
    else SaveConfig(s.(mem := s.mem + [p]))
  }

  /**
   `EditProfile`: the first record called `name` is replaced wholesale. The new record's
   own name is not checked against the others.
   */
  function EditProfile(s: Store, name: string, updated: Profile): (r: Mutation)
    ensures !HasName(s.mem, name) ==> r == Mutation(s, Some(NotFound(name)))
    ensures forall i | IsFirstNamed(s.mem, name, i) ::
      && r.store.mem == s.mem[i := updated]
      && (s.writable ==> r.error.None? && Persisted(r.store))
      && (!s.writable ==> r.error == Some(SaveFailed) && r.store.disk == s.disk)
    ensures |r.store.mem| == |s.mem| && r.store.writable == s.writable
  {
    match FindFirst(s.mem, name)
    case None => Mutation(s, Some(NotFound(name)))
    case Some(i) => SaveConfig(s.(mem := s.mem[i := updated]))
  }

  /** `DeleteProfile`: the first record called `name` is cut out, the others keep their order. */
  function DeleteProfile(s: Store, name: string): (r: Mutation)
    ensures !HasName(s.mem, name) ==> r == Mutation(s, Some(NotFound(name)))
    ensures forall i | IsFirstNamed(s.mem, name, i) ::
      && r.store.mem == s.mem[..i] + s.mem[i + 1..]
      && (s.writable ==> r.error.None? && Persisted(r.store))
      && (!s.writable ==> r.error == Some(SaveFailed) && r.store.disk == s.disk)
    ensures HasName(s.mem, name) ==> |r.store.mem| == |s.mem| - 1
    ensures r.store.writable == s.writable
  {
    match FindFirst(s.mem, name)
    case None => Mutation(s, Some(NotFound(name)))
    case Some(i) => SaveConfig(s.(mem := s.mem[..i] + s.mem[i + 1..]))
  }

  /** `GetProfileByName`: the first record with that name, or the zero record. */
  function GetProfileByName(ps: seq<Profile>, name: string): (r: Profile)
    ensures forall i | IsFirstNamed(ps, name, i) :: r == ps[i]
    ensures !HasName(ps, name) ==> IsAbsent(r)
    ensures IsAbsent(r) || r.profileName == name
  {
    match FindFirst(ps, name)
    case None => Zero
    case Some(i) => ps[i]
  }

  /** `GetAllProfiles`: the in-memory list itself, in insertion order. */
  function GetAllProfiles(s: Store): seq<Profile> {
    s.mem
  }

  /** `ClearConfig`: truncates the file but leaves the in-memory list as it was. */
  function ClearConfig(s: Store): (r: Mutation)
    ensures r.store.mem == s.mem && r.store.writable == s.writable
    ensures s.writable ==> r.error.None? && r.store.disk == []
    ensures !s.writable ==> r == Mutation(s, Some(ResetFailed))
  {
    if s.writable then Mutation(s.(disk := []), None) else Mutation(s, Some(ResetFailed))
  }

  /** `GetProfilesByOrigin`: exactly the records whose origin is `origin`, in store order. */
  function GetProfilesByOrigin(ps: seq<Profile>, origin: string): (r: seq<Profile>)
    ensures IsSubsequence(r, ps)
    ensures forall p: Profile :: p in r <==> p in ps && p.origin == origin
    ensures forall p: Profile :: p.origin == origin ==> multiset(r)[p] == multiset(ps)[p]
    ensures r == [] <==> forall i :: 0 <= i < |ps| ==> ps[i].origin != origin
  {
    var fromOrigin := (p: Profile) => p.origin == origin;
    SelectExact(ps, fromOrigin);
    var r := Select(ps, fromOrigin);
    assert forall i :: 0 <= i < |ps| && ps[i].origin == origin ==> multiset(r)[ps[i]] > 0;
    r
  }

  /**
   A record appended to a store with no record from `origin` is the first (and only) answer
   to the origin query when it carries that origin, and is invisible to it otherwise.
   */
  lemma ByOriginAfterAppend(ps: seq<Profile>, p: Profile, origin: string)
    requires GetProfilesByOrigin(ps, origin) == []
    ensures var r := GetProfilesByOrigin(ps + [p], origin);
      && (p.origin == origin ==> r != [] && r[0] == p)
      && (p.origin != origin ==> r == [])
  {
    var qs := ps + [p];
    var r := GetProfilesByOrigin(qs, origin);
    assert qs[|ps|] == p;
    assert forall i :: 0 <= i < |ps| ==> qs[i] == ps[i];
    if p.origin == origin {
      assert r != [];
      assert r[0] in r;
    }
  }

  /** Two adds under distinct fresh names keep both records, in the order they were added. */
  lemma AddTwiceKeepsOrder(s: Store, p1: Profile, p2: Profile)
    requires s.writable
    requires !HasName(s.mem, p1.profileName) && !HasName(s.mem, p2.profileName)
    requires p1.profileName != p2.profileName
    ensures var first := AddProfile(s, p1);
      var second := AddProfile(first.store, p2);
      first.error.None? && second.error.None? && second.store.mem == s.mem + [p1, p2]
  {
    var first := AddProfile(s, p1);
    assert first.store.mem == s.mem + [p1];
    assert !HasName(first.store.mem, p2.profileName) by {
      forall i | 0 <= i < |first.store.mem|
        ensures first.store.mem[i].profileName != p2.profileName
      {
        if i < |s.mem| {
          assert first.store.mem[i] == s.mem[i];
        }
      }
    }
  }

  /** A record appended under a name no earlier record has is what a lookup of that name finds. */
  lemma AppendedIsFound(ps: seq<Profile>, p: Profile)
    ensures !HasName(ps, p.profileName) ==> GetProfileByName(ps + [p], p.profileName) == p
  {
    if !HasName(ps, p.profileName) {
      assert IsFirstNamed(ps + [p], p.profileName, |ps|);
    }
  }

  /** A profile added under a fresh name is found again, field for field, after the file is reopened. */
  lemma AddSurvivesRestart(s: Store, p: Profile)
    requires s.writable && !HasName(s.mem, p.profileName)
    ensures var reopened := Open(AddProfile(s, p).store.disk, s.writable);
      GetProfileByName(reopened.mem, p.profileName) == p
  {
    var added := AddProfile(s, p).store;
    DecodeEncodeAll(added.mem);
    AppendedIsFound(s.mem, p);
  }

  /** Truncating the file and loading it empties memory; the truncation alone does not. */
  lemma ClearThenLoad(s: Store)
    requires s.writable
    ensures ClearConfig(s).store.mem == s.mem
    ensures LoadConfig(ClearConfig(s).store).mem == []
  {
  }

  /**
   Renaming through an edit, with names unique before, leaves nothing under the old name:
   a lookup by it returns the zero record.
   */
  lemma EditRenameForgetsOldName(s: Store, name: string, updated: Profile)
    requires UniqueNames(s.mem) && HasName(s.mem, name) && updated.profileName != name
    ensures IsAbsent(GetProfileByName(EditProfile(s, name, updated).store.mem, name))
  {
    var i := FindFirst(s.mem, name).value;
    var after := EditProfile(s, name, updated).store.mem;
    assert after == s.mem[i := updated];
    assert !HasName(after, name) by {
      forall j | 0 <= j < |after| ensures after[j].profileName != name {
        if j != i {
          assert after[j] == s.mem[j];
          if j < i {
            assert s.mem[i].profileName != s.mem[j].profileName;
          } else {
            assert s.mem[j].profileName != s.mem[i].profileName;
          }
        }
      }
    }
  }

  /** An edit may give a record the name of another one: uniqueness is not preserved in general. */
  lemma EditCanDuplicateNames()
    ensures var s := Store([Profile("a", "", "", ""), Profile("b", "", "", "")], [], true);
      UniqueNames(s.mem) && !UniqueNames(EditProfile(s, "a", Profile("b", "", "", "")).store.mem)
  {
    var s := Store([Profile("a", "", "", ""), Profile("b", "", "", "")], [], true);
    assert IsFirstNamed(s.mem, "a", 0);
    var after := EditProfile(s, "a", Profile("b", "", "", "")).store.mem;
    assert after[0].profileName == after[1].profileName;
  }

  /** Cutting one position out of a list with unique names removes that name and keeps the rest unique. */
  lemma CutKeepsUnique(ps: seq<Profile>, i: nat)
    requires UniqueNames(ps) && i < |ps|
    ensures !HasName(ps[..i] + ps[i + 1..], ps[i].profileName)
    ensures UniqueNames(ps[..i] + ps[i + 1..])
  {
    var after := ps[..i] + ps[i + 1..];
    assert forall j :: 0 <= j < |after| ==> after[j] == (if j < i then ps[j] else ps[j + 1]);
    forall j | 0 <= j < |after| ensures after[j].profileName != ps[i].profileName {
      if j >= i {
        assert ps[i].profileName != ps[j + 1].profileName;
      }
    }
    forall a, b | 0 <= a < b < |after| ensures after[a].profileName != after[b].profileName {
      var a' := if a < i then a else a + 1;
      var b' := if b < i then b else b + 1;
      assert a' < b';
    }
  }

  /** With unique names, a delete removes the name altogether and keeps the others unique. */
  lemma DeleteUniqueForgetsName(s: Store, name: string)
    requires UniqueNames(s.mem) && HasName(s.mem, name)
    ensures var after := DeleteProfile(s, name).store.mem;
      !HasName(after, name) && UniqueNames(after)
  {
    var i := FindFirst(s.mem, name).value;
    assert IsFirstNamed(s.mem, name, i);
    CutKeepsUnique(s.mem, i);
  }

  /** A stored all-empty record is returned by a lookup under the empty name, and reads as absent. */
  lemma StoredZeroLooksAbsent(ps: seq<Profile>)
    requires |ps| > 0 && ps[0] == Zero
    ensures IsAbsent(GetProfileByName(ps, ""))
  {
    assert IsFirstNamed(ps, "", 0);
  }

  /** A delete that reports no error found the name, could save, and shrank the list by one. */
  lemma DeleteSucceeded(s: Store, name: string)
    requires DeleteProfile(s, name).error.None?
    ensures HasName(s.mem, name) && s.writable
    ensures Persisted(DeleteProfile(s, name).store)
    ensures |DeleteProfile(s, name).store.mem| == |s.mem| - 1
  {
    var i := FindFirst(s.mem, name).value;
    assert IsFirstNamed(s.mem, name, i);
  }
}
