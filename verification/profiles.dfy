/** The profile record and the key/value table it is persisted as. */
module Profiles {

  /** One stored identity: a unique short name, the git identity, and the origin host it is meant for. */
  datatype Profile = Profile(profileName: string, name: string, email: string, origin: string)

  /** The zero value of the record, which lookups return to mean "no such profile". */
  const Zero := Profile("", "", "", "")

  /**
   The "absent" test the commands use: comparison with the zero record. It cannot tell
   a stored all-empty record from a missing one.
   */
  predicate IsAbsent(p: Profile) {
    p == Zero
  }

  /** The keys a profile is persisted under. */
  const ProfileNameKey := "profile_name"
  const NameKey := "name"
  const EmailKey := "email"
  const OriginKey := "origin"

  /** One persisted profile entry: key to string value. */
  type Table = map<string, string>

  function Field(t: Table, key: string): string {
    if key in t then t[key] else ""
  }

  /** Reads a persisted entry back; a missing key decodes to the empty string and unknown keys are ignored. */
  function Decode(t: Table): (p: Profile)
    ensures ProfileNameKey !in t && NameKey !in t && EmailKey !in t && OriginKey !in t ==> IsAbsent(p)
  {
    Profile(Field(t, ProfileNameKey), Field(t, NameKey), Field(t, EmailKey), Field(t, OriginKey))
  }

  /** Writes a profile as an entry holding exactly the four keys, empty values included. */
  function Encode(p: Profile): (t: Table)
    ensures t.Keys == {ProfileNameKey, NameKey, EmailKey, OriginKey}
    ensures |t.Keys| == 4
    ensures Decode(t) == p
  {
    map[ProfileNameKey := p.profileName, NameKey := p.name, EmailKey := p.email, OriginKey := p.origin]
  }

  function EncodeAll(ps: seq<Profile>): (ts: seq<Table>)
    ensures |ts| == |ps|
    ensures forall i :: 0 <= i < |ps| ==> ts[i] == Encode(ps[i])
  {
    seq(|ps|, i requires 0 <= i < |ps| => Encode(ps[i]))
  }

  function DecodeAll(ts: seq<Table>): (ps: seq<Profile>)
    ensures |ps| == |ts|
    ensures forall i :: 0 <= i < |ts| ==> ps[i] == Decode(ts[i])
  {
    seq(|ts|, i requires 0 <= i < |ts| => Decode(ts[i]))
  }

  /** Reading back what was written yields the same list of profiles. */
  lemma DecodeEncodeAll(ps: seq<Profile>)
    ensures DecodeAll(EncodeAll(ps)) == ps
  {
  }
}
