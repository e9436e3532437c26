/**
 * The records of the accounts app: the columns of Django's `User` that the
 * views read or write, and the `Profile` model of accounts/models.py.
 */
module Models {
  import opened Text

  /** `Profile.affiliation` is a CharField(max_length=255). */
  const AffiliationMaxLength: nat := 255
  /** A URLField declared without max_length gets Django's default of 200. */
  const UrlMaxLength: nat := 200

  /**
   * One row of the user table. `password` stands for the credential handed to
   * `create_user`; hashing it belongs to the framework.
   */
  datatype User = User(
    id: nat,
    username: string,
    email: string,
    firstName: string,
    lastName: string,
    password: string)

  /** A Profile row; `user` is the id of the one User it belongs to. */
  datatype Profile = Profile(
    user: nat,
    affiliation: string,
    homepage: string,
    scholar: string,
    github: string)

  /**
   * The field constraints of Profile: length limits only, since every field is
   * declared blank=True (URL syntax is checked by the framework's validator).
   */
  predicate ProfileFieldsValid(p: Profile) {
    && |p.affiliation| <= AffiliationMaxLength
    && |p.homepage| <= UrlMaxLength
    && |p.scholar| <= UrlMaxLength
    && |p.github| <= UrlMaxLength
  }

  /** blank=True: a Profile whose four fields are all empty is valid. */
  lemma BlankProfileValid(owner: nat)
    ensures ProfileFieldsValid(Profile(owner, "", "", "", ""))
  {
  }

  /**
   * The display name `f"{first} {last}".strip()`: first and last name joined by
   * one space, surrounding whitespace removed. This is the formula of Django's
   * `User.get_full_name`, of the user-detail view and of the serializer.
   */
  function FullName(first: string, last: string): (r: string)
    ensures Stripped(r)
    ensures |r| <= |first| + 1 + |last|
    ensures first == "" && last == "" ==> r == ""
  {
    Strip(first + " " + last)
  }

  /**
   * An empty last name leaves no trailing space: the full name is the stripped
   * first name, and the first name itself when it is already stripped.
   */
  lemma FullNameWithoutLastName(first: string)
    ensures FullName(first, "") == Strip(first)
    ensures Stripped(first) ==> FullName(first, "") == first
  {
    assert first + " " + "" == first + " ";
    StripTrailingSpace(first);
    if Stripped(first) {
      StripStripped(first);
    }
  }

  /** A name that is already stripped on both ends is joined by exactly one space. */
  lemma FullNameOfStrippedParts(first: string, last: string)
    requires first != "" && last != "" && Stripped(first) && Stripped(last)
    ensures FullName(first, last) == first + " " + last
  {
    StripStripped(first + " " + last);
  }

  const ProfileSuffix: string := " Profile"

  /** `Profile.__str__`: the owner's full name followed by " Profile". */
  function ProfileString(owner: User, p: Profile): (r: string)
    requires p.user == owner.id
    ensures |r| >= |ProfileSuffix|
    ensures r[|r| - |ProfileSuffix|..] == ProfileSuffix
    ensures r[..|r| - |ProfileSuffix|] == FullName(owner.firstName, owner.lastName)
  {
    FullName(owner.firstName, owner.lastName) + ProfileSuffix
  }
}
