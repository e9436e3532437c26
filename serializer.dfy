/**
 * `UserProfileSerializer`: the output record of one user, combining the User
 * row with the four fields of its Profile.
 */
module Serializer {
  import opened Wrappers
  import opened Models
  import opened Store

  /**
   * A value in the output. `LibraryDefault` stands for whatever the serializer
   * library emits for a profile field of a user who has no Profile; that value
   * is decided by the library and is not modelled.
   */
  datatype FieldValue = IntValue(n: int) | TextValue(s: string) | LibraryDefault

  /**
   * One serialized user: exactly the fields of `Meta.fields`, in their declared
   * order; `Entries` gives the output keys.
   */
  datatype ProfileRecord = ProfileRecord(
    id: FieldValue,
    email: FieldValue,
    username: FieldValue,
    firstName: FieldValue,
    lastName: FieldValue,
    fullName: FieldValue,
    affiliation: FieldValue,
    homepage: FieldValue,
    scholar: FieldValue,
    github: FieldValue)

  /** `Meta.fields`: the output keys, in declared order. */
  const MetaFields: seq<string> :=
    ["id", "email", "username", "first_name", "last_name", "full_name",
     "affiliation", "homepage", "scholar", "github"]

  /**
   * A record as the output object: each key of `Meta.fields`, in order, paired
   * with its value.
   */
  function Entries(r: ProfileRecord): (e: seq<(string, FieldValue)>)
    ensures |e| == |MetaFields|
    ensures forall k :: 0 <= k < |e| ==> e[k].0 == MetaFields[k]
  {
    [("id", r.id), ("email", r.email), ("username", r.username),
     ("first_name", r.firstName), ("last_name", r.lastName), ("full_name", r.fullName),
     ("affiliation", r.affiliation), ("homepage", r.homepage), ("scholar", r.scholar),
     ("github", r.github)]
  }

  /** Every key occurs once, so the output object loses no field. */
  lemma MetaFieldsDistinct()
    ensures forall k, l :: 0 <= k < l < |MetaFields| ==> MetaFields[k] != MetaFields[l]
  {
  }

  /** Two records with the same output are the same record. */
  lemma EntriesInjective(r1: ProfileRecord, r2: ProfileRecord)
    requires Entries(r1) == Entries(r2)
    ensures r1 == r2
  {
    var e1, e2 := Entries(r1), Entries(r2);
    assert e1[0].1 == e2[0].1 && e1[1].1 == e2[1].1 && e1[2].1 == e2[2].1;
    assert e1[3].1 == e2[3].1 && e1[4].1 == e2[4].1 && e1[5].1 == e2[5].1;
    assert e1[6].1 == e2[6].1 && e1[7].1 == e2[7].1 && e1[8].1 == e2[8].1;
    assert e1[9].1 == e2[9].1;
  }

  /** A field with `source='profile.<name>'`, given that field of the Profile if there is one. */
  function ProfileValue(field: Option<string>): FieldValue {
    if field.Some? then TextValue(field.value) else LibraryDefault
  }

  /**
   * The serialized record of `u`, whose Profile (if any) is `p`: the first five
   * fields are columns of the User row, `full_name` is `get_full_name`, and the
   * last four are read through `profile.<field>` from the Profile record.
   */
  function Serialize(u: User, p: Option<Profile>): (r: ProfileRecord)
    ensures r.id == IntValue(u.id) && r.email == TextValue(u.email)
    ensures r.username == TextValue(u.username)
    ensures r.firstName == TextValue(u.firstName) && r.lastName == TextValue(u.lastName)
    ensures r.fullName == TextValue(FullName(u.firstName, u.lastName))
    ensures p.Some? ==> r.affiliation == TextValue(p.value.affiliation)
    ensures p.Some? ==> r.homepage == TextValue(p.value.homepage)
    ensures p.Some? ==> r.scholar == TextValue(p.value.scholar)
    ensures p.Some? ==> r.github == TextValue(p.value.github)
  {
    ProfileRecord(
      IntValue(u.id), TextValue(u.email), TextValue(u.username),
      TextValue(u.firstName), TextValue(u.lastName), TextValue(FullName(u.firstName, u.lastName)),
      ProfileValue(if p.Some? then Some(p.value.affiliation) else None),
      ProfileValue(if p.Some? then Some(p.value.homepage) else None),
      ProfileValue(if p.Some? then Some(p.value.scholar) else None),
      ProfileValue(if p.Some? then Some(p.value.github) else None))
  }

  /** The record of a user in the store, with the Profile found through the relation. */
  function SerializeUser(u: User, profiles: map<nat, Profile>): ProfileRecord {
    Serialize(u, ProfileOf(profiles, u.id))
  }

  /** `UserProfileSerializer(queryset, many=True).data`: one record per row, in order. */
  function SerializeMany(qs: seq<User>, profiles: map<nat, Profile>): (r: seq<ProfileRecord>)
    ensures |r| == |qs|
    ensures forall i :: 0 <= i < |qs| ==> r[i] == SerializeUser(qs[i], profiles)
  {
    seq(|qs|, i requires 0 <= i < |qs| => SerializeUser(qs[i], profiles))
  }

  /** The four profile fields depend on the Profile only, never on the User row. */
  lemma ProfileFieldsFromProfile(u1: User, u2: User, p: Option<Profile>)
    ensures var r1, r2 := Serialize(u1, p), Serialize(u2, p);
            r1.affiliation == r2.affiliation && r1.homepage == r2.homepage
            && r1.scholar == r2.scholar && r1.github == r2.github
  {
  }

  /** The six user fields depend on the User row only, never on the Profile. */
  lemma UserFieldsFromUser(u: User, p1: Option<Profile>, p2: Option<Profile>)
    ensures var r1, r2 := Serialize(u, p1), Serialize(u, p2);
            r1.id == r2.id && r1.email == r2.email && r1.username == r2.username
            && r1.firstName == r2.firstName && r1.lastName == r2.lastName && r1.fullName == r2.fullName
  {
  }

  /** The record's `full_name` is the string form of the Profile minus " Profile". */
  lemma ProfileStringMatchesFullName(u: User, p: Profile)
    requires p.user == u.id
    ensures var s := ProfileString(u, p);
            Serialize(u, Some(p)).fullName == TextValue(s[..|s| - |ProfileSuffix|])
  {
  }
}
