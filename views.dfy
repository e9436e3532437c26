/**
 * The account views: signup, login, the logged-in user's details, the profile
 * list with its optional filters and the profile of one user.
 */
module Views {
  import opened Wrappers
  import opened Text
  import opened Models
  import opened Queries
  import opened Store
  import opened Serializer

  /** The JSON body of a response. */
  datatype Body =
    | ErrorBody(error: string)
    | MessageBody(message: string)
    | ProfilesBody(profiles: seq<ProfileRecord>)
    | ProfileBody(profile: ProfileRecord)
    | UserDetailBody(email: string, firstName: string, lastName: string, fullName: string)
      /** An exception the view does not catch; the framework answers 500. */
    | ServerFault

  datatype Response = Response(status: nat, body: Body)

  const MissingSignupFields: string := "Email, full name, and password are required."
  const InvalidEmailAddress: string := "Invalid email address."
  const EmailAlreadyRegistered: string := "Email is already registered."
  const UserCreated: string := "User created successfully."
  const MissingLoginFields: string := "Email and password are required"
  const InvalidCredentials: string := "Invalid credentials"
  const LoginSuccessful: string := "Login successful"
  const UserNotFound: string := "User not found"

  /** Python truthiness of a request value: an absent or empty value is missing. */
  predicate Blank(v: Option<string>) {
    v.None? || v.value == ""
  }

  // ----------------------------------------------------------------------
  // signup_api: validation

  /**
   * The response of a signup that is turned away, or None when the input
   * passes. The checks run in a fixed order, each with its own message: a
   * missing field first, then the email format, then an email already held.
   */
  function SignupRejection(users: seq<User>, email: Option<string>, password: Option<string>,
                           fullname: Option<string>, isValidEmail: string -> bool): (r: Option<Response>)
    ensures r.Some? ==> r.value.status == 400 && r.value.body.ErrorBody?
    ensures (r == Some(Response(400, ErrorBody(MissingSignupFields))))
            <==> (Blank(email) || Blank(password) || Blank(fullname))
    ensures (r == Some(Response(400, ErrorBody(InvalidEmailAddress))))
            <==> (!Blank(email) && !Blank(password) && !Blank(fullname) && !isValidEmail(email.value))
    ensures (r == Some(Response(400, ErrorBody(EmailAlreadyRegistered))))
            <==> (!Blank(email) && !Blank(password) && !Blank(fullname) && isValidEmail(email.value)
                  && Exists(users, EmailIs(email.value)))
    ensures r.None? <==> (!Blank(email) && !Blank(password) && !Blank(fullname)
                          && isValidEmail(email.value) && !Exists(users, EmailIs(email.value)))
  {
    if Blank(email) || Blank(password) || Blank(fullname) then
      Some(Response(400, ErrorBody(MissingSignupFields)))
    else if !isValidEmail(email.value) then
      Some(Response(400, ErrorBody(InvalidEmailAddress)))
    else if Exists(users, EmailIs(email.value)) then
      Some(Response(400, ErrorBody(EmailAlreadyRegistered)))
    else
      None
  }

  // ----------------------------------------------------------------------
  // signup_api: username derivation

  /** `email.split('@')[0]`: the text before the first `@`, or all of it. */
  function EmailLocalPart(email: string): (base: string)
    ensures |base| <= |email| && base == email[..|base|]
    ensures '@' !in base
    ensures |base| < |email| ==> email[|base|] == '@'
  {
    SplitOnce(email, '@')[0]
  }

  /** The k-th username tried: `base` itself, then `f"{base}{k}"` for k = 1, 2, ... */
  function Candidate(base: string, k: nat): string {
    if k == 0 then base else base + NatToDecimal(k)
  }

  /** `User.objects.filter(username=name).exists()`. */
  predicate UsernameTaken(users: seq<User>, name: string) {
    Exists(users, UsernameIs(name))
  }

  /** The candidates are pairwise distinct. */
  lemma CandidateInjective(base: string, j: nat, k: nat)
    requires Candidate(base, j) == Candidate(base, k)
    ensures j == k
  {
    if j != 0 && k != 0 {
      assert NatToDecimal(j) == Candidate(base, j)[|base|..];
      assert NatToDecimal(k) == Candidate(base, k)[|base|..];
      NatToDecimalInjective(j, k);
    }
  }

  /** The first m candidates, as a set. */
  ghost function CandidateSet(base: string, m: nat): (s: set<string>)
    ensures |s| == m
    ensures forall j :: 0 <= j < m ==> Candidate(base, j) in s
    ensures forall x :: x in s ==> exists j :: 0 <= j < m && x == Candidate(base, j)
  {
    if m == 0 then {}
    else
      var s := CandidateSet(base, m - 1);
      assert Candidate(base, m - 1) !in s by {
        forall j | 0 <= j < m - 1 ensures Candidate(base, j) != Candidate(base, m - 1) {
          if Candidate(base, j) == Candidate(base, m - 1) {
            CandidateInjective(base, j, m - 1);
          }
        }
      }
      s + {Candidate(base, m - 1)}
  }

  /** Distinct usernames that are all taken number at most the rows of the table. */
  lemma {:induction false} TakenNamesBound(names: set<string>, users: seq<User>)
    requires forall n :: n in names ==> UsernameTaken(users, n)
    ensures |names| <= |users|
  {
    if users != [] {
      var rest := names - {users[0].username};
      forall n | n in rest ensures UsernameTaken(users[1..], n) {
        var u :| u in users && Matches(u, UsernameIs(n));
        var i :| 0 <= i < |users| && users[i] == u;
        assert i != 0;
        assert users[1..][i - 1] == u;
      }
      TakenNamesBound(rest, users[1..]);
    }
  }

  /** If the first m candidates are all taken, the table has at least m rows. */
  lemma TakenCandidatesBound(users: seq<User>, base: string, m: nat)
    requires forall j :: 0 <= j < m ==> UsernameTaken(users, Candidate(base, j))
    ensures m <= |users|
  {
    var s := CandidateSet(base, m);
    forall x | x in s ensures UsernameTaken(users, x) {
      var j :| 0 <= j < m && x == Candidate(base, j);
    }
    TakenNamesBound(s, users);
  }

  /**
   * The index of the first free candidate at or after k, given that every
   * candidate before k is taken. It exists because the candidates are distinct
   * and only finitely many names are taken.
   */
  function FreeSuffixFrom(users: seq<User>, base: string, k: nat): (n: nat)
    requires forall j :: 0 <= j < k ==> UsernameTaken(users, Candidate(base, j))
    ensures k <= n
    ensures !UsernameTaken(users, Candidate(base, n))
    ensures forall j :: 0 <= j < n ==> UsernameTaken(users, Candidate(base, j))
    decreases |users| - k
  {
    if !UsernameTaken(users, Candidate(base, k)) then k
    else
      assert forall j :: 0 <= j < k + 1 ==> UsernameTaken(users, Candidate(base, j));
      TakenCandidatesBound(users, base, k + 1);
      FreeSuffixFrom(users, base, k + 1)
  }

  /** The username signup derives for `email`: the first candidate nobody holds. */
  function DerivedUsername(users: seq<User>, email: string): (r: string)
    ensures !UsernameTaken(users, r)
    ensures var base := EmailLocalPart(email); |base| <= |r| && r[..|base|] == base
  {
    var base := EmailLocalPart(email);
    Candidate(base, FreeSuffixFrom(users, base, 0))
  }

  /** The derived username is free, and every earlier candidate is taken. */
  lemma DerivedUsernameFirstFree(users: seq<User>, email: string)
    ensures var base := EmailLocalPart(email);
            exists n: nat :: DerivedUsername(users, email) == Candidate(base, n)
              && !UsernameTaken(users, Candidate(base, n))
              && forall j :: 0 <= j < n ==> UsernameTaken(users, Candidate(base, j))
  {
    var base := EmailLocalPart(email);
    var n := FreeSuffixFrom(users, base, 0);
    assert DerivedUsername(users, email) == Candidate(base, n);
  }

  /** The local part itself is used exactly when no one holds it. */
  lemma DerivedUsernameIsLocalPart(users: seq<User>, email: string)
    ensures DerivedUsername(users, email) == EmailLocalPart(email)
            <==> !UsernameTaken(users, EmailLocalPart(email))
  {
    var base := EmailLocalPart(email);
    var n := FreeSuffixFrom(users, base, 0);
    if DerivedUsername(users, email) == base {
      assert Candidate(base, n) == Candidate(base, 0);
      CandidateInjective(base, n, 0);
    }
  }

  /**
   * The loop of signup_api: try the local part, then the local part followed
   * by 1, 2, ... until no user holds the name. It terminates because each
   * taken candidate is a different row of the finite table.
   */
  method DeriveUsername(users: seq<User>, email: string) returns (username: string)
    ensures username == DerivedUsername(users, email)
    ensures !UsernameTaken(users, username)
  {
    var base := EmailLocalPart(email);
    username := base;
    var counter: nat := 1;
    while UsernameTaken(users, username)
      invariant counter >= 1
      invariant username == Candidate(base, counter - 1)
      invariant forall j :: 0 <= j < counter - 1 ==> UsernameTaken(users, Candidate(base, j))
      invariant FreeSuffixFrom(users, base, counter - 1) == FreeSuffixFrom(users, base, 0)
      decreases |users| - counter
    {
      TakenCandidatesBound(users, base, counter);
      username := base + NatToDecimal(counter);
      counter := counter + 1;
    }
  }

  /** The local part ends at the first `@`. */
  lemma LocalPartAt(email: string, k: nat)
    requires k < |email| && email[k] == '@' && '@' !in email[..k]
    ensures EmailLocalPart(email) == email[..k]
  {
  }

  lemma AliceLocalPart(email: string)
    requires |email| > 5 && email[..6] == "alice@"
    ensures EmailLocalPart(email) == "alice"
  {
    assert email[..5] == email[..6][..5] == "alice";
    assert email[5] == email[..6][5];
    LocalPartAt(email, 5);
  }

  /** A first signup with "alice@x.com" gets the username "alice". */
  lemma FirstAliceGetsLocalPart()
    ensures DerivedUsername([], "alice@x.com") == "alice"
  {
    AliceLocalPart("alice@x.com");
  }

  /** With "alice" held, the search for "alice" stops at suffix 1. */
  lemma AliceSuffixSearch(alice: User)
    requires alice.username == "alice"
    ensures FreeSuffixFrom([alice], "alice", 0) == 1 && Candidate("alice", 1) == "alice1"
  {
    assert UsernameTaken([alice], "alice") by {
      assert alice in [alice];
    }
    assert !UsernameTaken([alice], "alice1") by {
      assert Filter([alice], UsernameIs("alice1")) == [];
    }
    assert Candidate("alice", 1) == "alice1" by {
      assert NatToDecimal(1) == "1";
    }
    assert FreeSuffixFrom([alice], "alice", 1) == 1;
  }

  /** A later signup with "alice@y.com", once "alice" is held, gets "alice1". */
  lemma SecondAliceGetsSuffixOne(alice: User)
    requires alice.username == "alice"
    ensures DerivedUsername([alice], "alice@y.com") == "alice1"
  {
    AliceLocalPart("alice@y.com");
    AliceSuffixSearch(alice);
  }

  // ----------------------------------------------------------------------
  // signup_api: name split

  datatype Names = Names(first: string, last: string)

  /**
   * `full_name.strip().split(' ', 1)`: the first name is the stripped text up to
   * the first space; the last name is the rest verbatim, or stays "" when
   * there is no space.
   */
  function SplitFullName(fullname: string): (n: Names)
    ensures var t := Strip(fullname);
            && (' ' in t ==> t == n.first + " " + n.last && ' ' !in n.first)
            && (' ' !in t ==> n.first == t && n.last == "")
  {
    var names := SplitOnce(Strip(fullname), ' ');
    Names(names[0], if |names| > 1 then names[1] else "")
  }

  /** Joining the two parts again gives the stripped input back. */
  lemma SplitFullNameRoundTrip(fullname: string)
    ensures var n := SplitFullName(fullname);
            FullName(n.first, n.last) == Strip(fullname)
  {
    var t := Strip(fullname);
    var n := SplitFullName(fullname);
    if ' ' in t {
      StripStripped(t);
    } else {
      FullNameWithoutLastName(t);
    }
  }

  /** A name of only whitespace gives two empty parts. */
  lemma SplitFullNameBlank(fullname: string)
    requires forall k :: 0 <= k < |fullname| ==> IsSpace(fullname[k])
    ensures SplitFullName(fullname) == Names("", "")
  {
  }

  /** Otherwise the first name is never empty. */
  lemma SplitFullNameFirstNonEmpty(fullname: string)
    requires exists k :: 0 <= k < |fullname| && !IsSpace(fullname[k])
    ensures SplitFullName(fullname).first != ""
  {
    var t := Strip(fullname);
    var n := SplitFullName(fullname);
    assert t != [];
  }

  // ----------------------------------------------------------------------
  // signup_api

  /** The row a successful signup appends. */
  function NewUser(users: seq<User>, id: nat, email: string, password: string, fullname: string): (r: User)
    ensures r.id == id && r.email == email && r.password == password
    ensures r.username == DerivedUsername(users, email) && !UsernameTaken(users, r.username)
    ensures r.firstName == SplitFullName(fullname).first && r.lastName == SplitFullName(fullname).last
    ensures FullName(r.firstName, r.lastName) == Strip(fullname)
  {
    SplitFullNameRoundTrip(fullname);
    var n := SplitFullName(fullname);
    User(id, DerivedUsername(users, email), email, n.first, n.last, password)
  }

  /** The new username differs from every existing one, so usernames stay unique. */
  lemma NewUserKeepsUsernamesUnique(users: seq<User>, id: nat, email: string, password: string, fullname: string)
    requires UniqueUsernames(users)
    ensures forall u :: u in users ==> u.username != NewUser(users, id, email, password, fullname).username
    ensures UniqueUsernames(users + [NewUser(users, id, email, password, fullname)])
  {
    var v := NewUser(users, id, email, password, fullname);
    var base := EmailLocalPart(email);
    assert !UsernameTaken(users, v.username);
    var all := users + [v];
    forall i, j | 0 <= i < j < |all| ensures all[i].username != all[j].username {
      if j == |users| {
        assert all[i] in users;
      }
    }
  }

  /** Appending a row whose email nobody holds keeps emails distinct. */
  lemma AppendKeepsUniqueEmails(users: seq<User>, v: User)
    requires UniqueEmails(users) && !Exists(users, EmailIs(v.email))
    ensures UniqueEmails(users + [v])
  {
    var all := users + [v];
    forall i, j | 0 <= i < j < |all| ensures all[i].email != all[j].email {
      if j == |users| {
        assert all[i] in users;
      }
    }
  }

  lemma ReplaceLast(s: seq<User>, x: User, y: User)
    ensures (s + [x])[|s| := y] == s + [y]
  {
  }

  /**
   * The creating half of signup_api, once the input has passed: derive the
   * username, create the row, then set and save the split name.
   */
  method CreateAccount(db: AccountStore, email: string, password: string, fullname: string)
    requires db.Valid()
    requires !Exists(db.users, EmailIs(email))
    modifies db
    ensures db.Valid()
    ensures db.users == old(db.users) + [NewUser(old(db.users), old(db.nextId), email, password, fullname)]
    ensures db.profiles == old(db.profiles) && db.nextId == old(db.nextId) + 1
    ensures UniqueEmails(old(db.users)) ==> UniqueEmails(db.users)
  {
    ghost var before := db.users;
    var username := DeriveUsername(db.users, email);
    var id := db.CreateUser(username, email, password);
    var names := SplitOnce(Strip(fullname), ' ');
    var first := names[0];
    var last := "";
    if |names| > 1 {
      last := names[1];
    }
    db.SaveNames(|db.users| - 1, first, last);
    ghost var created := User(id, username, email, "", "", password);
    ghost var saved := User(id, username, email, first, last, password);
    assert saved == NewUser(before, id, email, password, fullname);
    ReplaceLast(before, created, saved);
    if UniqueEmails(before) {
      AppendKeepsUniqueEmails(before, saved);
    }
  }

  /**
   * signup_api. A rejected signup answers its 400 and leaves the store as it
   * was; an accepted one answers 201 and appends exactly one row: the next id,
   * the derived username, the given email and password, and the split name.
   * Emails that were distinct stay distinct.
   */
  method SignupApi(db: AccountStore, email: Option<string>, password: Option<string>,
                   fullname: Option<string>, isValidEmail: string -> bool) returns (resp: Response)
    requires db.Valid()
    modifies db
    ensures db.Valid()
    ensures UniqueEmails(old(db.users)) ==> UniqueEmails(db.users)
    ensures var rejected := SignupRejection(old(db.users), email, password, fullname, isValidEmail);
            rejected.Some? ==> resp == rejected.value && unchanged(db)
    ensures var rejected := SignupRejection(old(db.users), email, password, fullname, isValidEmail);
            rejected.None? ==>
              && resp == Response(201, MessageBody(UserCreated))
              && db.users == old(db.users)
                             + [NewUser(old(db.users), old(db.nextId), email.value, password.value, fullname.value)]
              && db.profiles == old(db.profiles)
              && db.nextId == old(db.nextId) + 1
  {
    if Blank(email) || Blank(password) || Blank(fullname) {
      return Response(400, ErrorBody(MissingSignupFields));
    }
    if !isValidEmail(email.value) {
      return Response(400, ErrorBody(InvalidEmailAddress));
    }
    if Exists(db.users, EmailIs(email.value)) {
      return Response(400, ErrorBody(EmailAlreadyRegistered));
    }
    CreateAccount(db, email.value, password.value, fullname.value);
    resp := Response(201, MessageBody(UserCreated));
  }

  // ----------------------------------------------------------------------
  // login_api

  /**
   * login_api. `checkPassword(username, password)` stands for the framework's
   * `authenticate`. An unknown email and a wrong password get the same 401;
   * 200 means the password check passed for the one user holding the email.
   */
  function LoginApi(users: seq<User>, email: Option<string>, password: Option<string>,
                    checkPassword: (string, string) -> bool): (r: Response)
    ensures (Blank(email) || Blank(password)) <==> r == Response(400, ErrorBody(MissingLoginFields))
    ensures r.status == 200 <==>
              && !Blank(email) && !Blank(password)
              && Get(users, EmailIs(email.value)).Found?
              && checkPassword(Get(users, EmailIs(email.value)).user.username, password.value)
    ensures r.status == 200 ==> r.body == MessageBody(LoginSuccessful)
    ensures r.status == 401 ==> r.body == ErrorBody(InvalidCredentials)
    ensures !Blank(email) && !Blank(password) && !Exists(users, EmailIs(email.value))
            ==> r == Response(401, ErrorBody(InvalidCredentials))
    ensures && !Blank(email) && !Blank(password)
            && Get(users, EmailIs(email.value)).Found?
            && !checkPassword(Get(users, EmailIs(email.value)).user.username, password.value)
            ==> r == Response(401, ErrorBody(InvalidCredentials))
    ensures && !Blank(email) && !Blank(password)
            && Get(users, EmailIs(email.value)).MultipleObjectsReturned?
            ==> r == Response(500, ServerFault)
    ensures r.status in {200, 400, 401, 500}
  {
    if Blank(email) || Blank(password) then
      Response(400, ErrorBody(MissingLoginFields))
    else
      match Get(users, EmailIs(email.value))
      case DoesNotExist => Response(401, ErrorBody(InvalidCredentials))
      case MultipleObjectsReturned => Response(500, ServerFault)
      case Found(u) =>
        if checkPassword(u.username, password.value) then Response(200, MessageBody(LoginSuccessful))
        else Response(401, ErrorBody(InvalidCredentials))
  }

  /** An unknown email and a wrong password cannot be told apart. */
  lemma LoginFailuresIndistinguishable(users: seq<User>, unknown: string, known: string,
                                       p1: string, p2: string, checkPassword: (string, string) -> bool)
    requires unknown != "" && known != "" && p1 != "" && p2 != ""
    requires !Exists(users, EmailIs(unknown))
    requires Get(users, EmailIs(known)).Found?
    requires !checkPassword(Get(users, EmailIs(known)).user.username, p2)
    ensures LoginApi(users, Some(unknown), Some(p1), checkPassword)
            == LoginApi(users, Some(known), Some(p2), checkPassword)
  {
  }

  /** Distinct emails make the lookup unambiguous. */
  lemma UniqueEmailsAtMostOne(users: seq<User>, email: string)
    requires UniqueEmails(users)
    ensures AtMostOneMatch(users, EmailIs(email))
  {
  }

  /**
   * With distinct emails login never faults: it succeeds exactly when some
   * user holds the email and the password check passes for that user's
   * username, and otherwise answers 401.
   */
  lemma LoginWithUniqueEmails(users: seq<User>, email: string, password: string,
                              checkPassword: (string, string) -> bool)
    requires UniqueEmails(users) && email != "" && password != ""
    ensures var r := LoginApi(users, Some(email), Some(password), checkPassword);
            && (r.status == 200 <==> exists u :: u in users && u.email == email && checkPassword(u.username, password))
            && (r.status == 200 || r == Response(401, ErrorBody(InvalidCredentials)))
  {
    UniqueEmailsAtMostOne(users, email);
    GetUnique(users, EmailIs(email));
  }

  // ----------------------------------------------------------------------
  // user_detail_api

  /**
   * user_detail_api for the authenticated user `u`: its email and names, and
   * the full name, which has no surrounding whitespace and, when the last
   * name is empty, is just the first name.
   */
  function UserDetailApi(u: User): (r: Response)
    ensures r.status == 200 && r.body.UserDetailBody?
    ensures r.body.email == u.email && r.body.firstName == u.firstName && r.body.lastName == u.lastName
    ensures Stripped(r.body.fullName)
    ensures u.firstName == "" && u.lastName == "" ==> r.body.fullName == ""
    ensures u.lastName == "" ==> r.body.fullName == Strip(u.firstName)
    ensures u.lastName == "" && Stripped(u.firstName) ==> r.body.fullName == u.firstName
  {
    FullNameWithoutLastName(u.firstName);
    Response(200, UserDetailBody(u.email, u.firstName, u.lastName, FullName(u.firstName, u.lastName)))
  }

  /** The user-detail view and the serializer compute the same full name. */
  lemma UserDetailAgreesWithSerializer(u: User, p: Option<Profile>)
    ensures TextValue(UserDetailApi(u).body.fullName) == Serialize(u, p).fullName
  {
  }

  // ----------------------------------------------------------------------
  // profile_list_api

  /** Whether `u` passes the filters; an absent or empty filter passes everyone. */
  predicate Selects(u: User, email: Option<string>, id: Option<nat>) {
    && (Blank(email) || u.email == email.value)
    && (id.None? || u.id == id.value)
  }

  /** The users that pass every filter, in table order. */
  function SelectedUsers(users: seq<User>, email: Option<string>, id: Option<nat>): (r: seq<User>)
    ensures |r| <= |users|
    ensures forall u :: u in r <==> u in users && Selects(u, email, id)
  {
    if users == [] then []
    else if Selects(users[0], email, id) then [users[0]] + SelectedUsers(users[1..], email, id)
    else SelectedUsers(users[1..], email, id)
  }

  /** With no filter every user is listed, in table order. */
  lemma {:induction false} SelectedWithoutFilters(users: seq<User>, email: Option<string>, id: Option<nat>)
    requires Blank(email) && id.None?
    ensures SelectedUsers(users, email, id) == users
  {
    if users != [] {
      SelectedWithoutFilters(users[1..], email, id);
    }
  }

  /** Selection distributes over concatenation, so it keeps table order. */
  lemma {:induction false} SelectedConcat(a: seq<User>, b: seq<User>, email: Option<string>, id: Option<nat>)
    ensures SelectedUsers(a + b, email, id) == SelectedUsers(a, email, id) + SelectedUsers(b, email, id)
  {
    if a == [] {
      assert a + b == b;
    } else {
      assert (a + b)[0] == a[0];
      assert (a + b)[1..] == a[1..] + b;
      SelectedConcat(a[1..], b, email, id);
      if Selects(a[0], email, id) {
        assert [a[0]] + (SelectedUsers(a[1..], email, id) + SelectedUsers(b, email, id))
               == ([a[0]] + SelectedUsers(a[1..], email, id)) + SelectedUsers(b, email, id);
      }
    }
  }

  /** The email filter followed by the id filter is the conjunctive selection. */
  lemma {:induction false} FiltersCompose(users: seq<User>, email: Option<string>, id: Option<nat>)
    ensures var byEmail := if Blank(email) then users else Filter(users, EmailIs(email.value));
            var byId := if id.None? then byEmail else Filter(byEmail, IdIs(id.value));
            byId == SelectedUsers(users, email, id)
  {
    if users != [] {
      FiltersCompose(users[1..], email, id);
    }
  }

  /**
   * profile_list_api: start from all users, narrow by email when one is
   * given, then by id when one is given, and serialize what is left.
   */
  method ProfileListApi(users: seq<User>, profiles: map<nat, Profile>, email: Option<string>, id: Option<nat>)
    returns (r: Response)
    ensures r == Response(200, ProfilesBody(SerializeMany(SelectedUsers(users, email, id), profiles)))
  {
    var queryset := users;
    if !Blank(email) {
      queryset := Filter(queryset, EmailIs(email.value));
    }
    if id.Some? {
      queryset := Filter(queryset, IdIs(id.value));
    }
    FiltersCompose(users, email, id);
    r := Response(200, ProfilesBody(SerializeMany(queryset, profiles)));
  }

  // ----------------------------------------------------------------------
  // profile_detail_api

  /** profile_detail_api: the record of the user with that id, or 404. */
  function ProfileDetailApi(users: seq<User>, profiles: map<nat, Profile>, userId: nat): (r: Response)
    ensures r.status == 404 <==> !Exists(users, IdIs(userId))
    ensures r.status == 404 ==> r.body == ErrorBody(UserNotFound)
    ensures r.status == 200 ==> exists u :: u in users && u.id == userId && r.body == ProfileBody(SerializeUser(u, profiles))
    ensures Exists(users, IdIs(userId)) && AtMostOneMatch(users, IdIs(userId)) ==> r.status == 200
    ensures r.status == 500 ==> r.body == ServerFault && !AtMostOneMatch(users, IdIs(userId))
    ensures r.status in {200, 404, 500}
  {
    match Get(users, IdIs(userId))
    case DoesNotExist => Response(404, ErrorBody(UserNotFound))
    case MultipleObjectsReturned => Response(500, ServerFault)
    case Found(u) => Response(200, ProfileBody(SerializeUser(u, profiles)))
  }

  /** The primary key makes the lookup unambiguous, so the view never faults. */
  lemma ProfileDetailWithUniqueIds(users: seq<User>, profiles: map<nat, Profile>, userId: nat)
    requires UniqueIds(users)
    ensures ProfileDetailApi(users, profiles, userId).status != 500
  {
    assert AtMostOneMatch(users, IdIs(userId));
    GetUnique(users, IdIs(userId));
  }
}
