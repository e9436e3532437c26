/**
 * The user table and the profile table as one in-memory store. Rows keep their
 * insertion order; ids come from an auto-increment counter; a Profile is
 * reached from its User through the one-to-one relation, keyed by user id.
 */
module Store {
  import opened Wrappers
  import opened Models
  import opened Queries

  /** The primary key: no two rows share an id. */
  predicate UniqueIds(users: seq<User>) {
    forall i, j :: 0 <= i < j < |users| ==> users[i].id != users[j].id
  }

  /** `username` is declared unique on Django's User. */
  predicate UniqueUsernames(users: seq<User>) {
    forall i, j :: 0 <= i < j < |users| ==> users[i].username != users[j].username
  }

  /** Not a database constraint: the signup view is what keeps emails distinct. */
  predicate UniqueEmails(users: seq<User>) {
    forall i, j :: 0 <= i < j < |users| ==> users[i].email != users[j].email
  }

  /** Every id was handed out by the auto-increment counter, which starts at 1. */
  predicate IdsBelow(users: seq<User>, nextId: nat) {
    && 1 <= nextId
    && forall i :: 0 <= i < |users| ==> 1 <= users[i].id < nextId
  }

  /**
   * The one-to-one relation: a map keyed by user id holds at most one Profile
   * per User, each Profile names the key it is stored under as its owner, that
   * owner exists (no dangling Profile), and the field constraints hold.
   */
  predicate ProfilesConsistent(users: seq<User>, profiles: map<nat, Profile>) {
    forall id :: id in profiles ==>
      profiles[id].user == id && Exists(users, IdIs(id)) && ProfileFieldsValid(profiles[id])
  }

  predicate TableInvariant(users: seq<User>, profiles: map<nat, Profile>, nextId: nat) {
    && UniqueIds(users)
    && UniqueUsernames(users)
    && IdsBelow(users, nextId)
    && ProfilesConsistent(users, profiles)
  }

  /** `user.profile`: the Profile of the user with this id, if there is one. */
  function ProfileOf(profiles: map<nat, Profile>, id: nat): (r: Option<Profile>)
    ensures r.Some? <==> id in profiles
    ensures r.Some? ==> r.value == profiles[id]
  {
    if id in profiles then Some(profiles[id]) else None
  }

  /** The rows whose id differs from `id`, in their order. */
  function WithoutId(users: seq<User>, id: nat): (r: seq<User>)
    ensures |r| <= |users|
    ensures forall u :: u in r <==> u in users && u.id != id
  {
    if users == [] then []
    else if users[0].id == id then WithoutId(users[1..], id)
    else [users[0]] + WithoutId(users[1..], id)
  }

  /** A row whose id and username differ from every other row's keeps both unique. */
  lemma ConsKeepsUnique(u: User, r: seq<User>)
    requires UniqueIds(r) && UniqueUsernames(r)
    requires forall k :: 0 <= k < |r| ==> r[k].id != u.id && r[k].username != u.username
    ensures UniqueIds([u] + r) && UniqueUsernames([u] + r)
  {
    var all := [u] + r;
    forall i, j | 0 <= i < j < |all| ensures all[i].id != all[j].id && all[i].username != all[j].username {
      assert all[j] == r[j - 1];
      if i > 0 {
        assert all[i] == r[i - 1];
      }
    }
  }

  /** Dropping rows keeps every uniqueness constraint. */
  lemma {:induction false} WithoutIdKeepsUnique(users: seq<User>, id: nat)
    requires UniqueIds(users) && UniqueUsernames(users)
    ensures UniqueIds(WithoutId(users, id)) && UniqueUsernames(WithoutId(users, id))
  {
    if users != [] {
      var rest := users[1..];
      assert UniqueIds(rest) && UniqueUsernames(rest) by {
        forall i, j | 0 <= i < j < |rest| ensures rest[i].id != rest[j].id && rest[i].username != rest[j].username {
          assert rest[i] == users[i + 1] && rest[j] == users[j + 1];
        }
      }
      WithoutIdKeepsUnique(rest, id);
      var r := WithoutId(rest, id);
      if users[0].id != id {
        forall k | 0 <= k < |r| ensures r[k].id != users[0].id && r[k].username != users[0].username {
          assert r[k] in rest;
          var m :| 0 <= m < |rest| && rest[m] == r[k];
          assert users[m + 1] == r[k];
        }
        ConsKeepsUnique(users[0], r);
        assert WithoutId(users, id) == [users[0]] + r;
      }
    }
  }

  /** Appending a row with the next id and a free username keeps the invariant. */
  lemma AppendKeepsInvariant(users: seq<User>, profiles: map<nat, Profile>, nextId: nat, u: User)
    requires TableInvariant(users, profiles, nextId)
    requires u.id == nextId && !Exists(users, UsernameIs(u.username))
    ensures TableInvariant(users + [u], profiles, nextId + 1)
  {
    var all := users + [u];
    forall i, j | 0 <= i < j < |all| ensures all[i].id != all[j].id && all[i].username != all[j].username {
      if j == |users| {
        assert all[i] in users;
      }
    }
    forall k | k in profiles ensures Exists(all, IdIs(k)) {
      var w :| w in users && Matches(w, IdIs(k));
      assert w in all;
    }
  }

  /** Changing the names of one row keeps the invariant: ids and usernames stay put. */
  lemma RenameKeepsInvariant(users: seq<User>, profiles: map<nat, Profile>, nextId: nat,
                             i: nat, first: string, last: string)
    requires TableInvariant(users, profiles, nextId) && i < |users|
    ensures TableInvariant(users[i := users[i].(firstName := first, lastName := last)], profiles, nextId)
  {
    var after := users[i := users[i].(firstName := first, lastName := last)];
    forall k | k in profiles ensures Exists(after, IdIs(k)) {
      var w :| w in users && Matches(w, IdIs(k));
      var j :| 0 <= j < |users| && users[j] == w;
      assert after[j] in after && after[j].id == k;
    }
  }

  /** Removing the rows with one id and that id's Profile keeps the invariant. */
  lemma DeleteKeepsInvariant(users: seq<User>, profiles: map<nat, Profile>, nextId: nat, id: nat)
    requires TableInvariant(users, profiles, nextId)
    ensures TableInvariant(WithoutId(users, id), profiles - {id}, nextId)
  {
    var after := WithoutId(users, id);
    WithoutIdKeepsUnique(users, id);
    forall k | k in profiles - {id} ensures Exists(after, IdIs(k)) {
      var w :| w in users && Matches(w, IdIs(k));
      assert w in after;
    }
    forall i | 0 <= i < |after| ensures 1 <= after[i].id < nextId {
      assert after[i] in after;
      var j :| 0 <= j < |users| && users[j] == after[i];
    }
  }

  class AccountStore {
    var users: seq<User>
    var profiles: map<nat, Profile>
    var nextId: nat

    ghost predicate Valid()
      reads this
    {
      TableInvariant(users, profiles, nextId)
    }

    /** An empty table whose first row will get id 1. */
    constructor ()
      ensures Valid()
      ensures users == [] && profiles == map[] && nextId == 1
    {
      users := [];
      profiles := map[];
      nextId := 1;
    }

    /** A table holding existing rows. */
    constructor Load(users0: seq<User>, profiles0: map<nat, Profile>, nextId0: nat)
      requires TableInvariant(users0, profiles0, nextId0)
      ensures Valid()
      ensures users == users0 && profiles == profiles0 && nextId == nextId0
    {
      users := users0;
      profiles := profiles0;
      nextId := nextId0;
    }

    /**
     * `User.objects.create_user(username=..., email=..., password=...)`: appends
     * a row with the next id and empty first and last names. The database's
     * unique constraint on `username` is the caller's obligation.
     */
    method CreateUser(username: string, email: string, password: string) returns (id: nat)
      requires Valid()
      requires !Exists(users, UsernameIs(username))
      modifies this
      ensures Valid()
      ensures id == old(nextId) && nextId == old(nextId) + 1
      ensures users == old(users) + [User(id, username, email, "", "", password)]
      ensures profiles == old(profiles)
    {
      id := nextId;
      var u := User(id, username, email, "", "", password);
      AppendKeepsInvariant(users, profiles, nextId, u);
      users := users + [u];
      nextId := nextId + 1;
    }

    /** `user.first_name = ...; user.last_name = ...; user.save()` on row `i`. */
    method SaveNames(i: nat, first: string, last: string)
      requires Valid()
      requires i < |users|
      modifies this
      ensures Valid()
      ensures users == old(users)[i := old(users)[i].(firstName := first, lastName := last)]
      ensures profiles == old(profiles) && nextId == old(nextId)
    {
      RenameKeepsInvariant(users, profiles, nextId, i, first, last);
      users := users[i := users[i].(firstName := first, lastName := last)];
    }

    /**
     * Deleting a User row. `on_delete=CASCADE` removes its Profile with it, so
     * no Profile is left pointing at a missing user.
     */
    method DeleteUser(id: nat)
      requires Valid()
      modifies this
      ensures Valid()
      ensures users == WithoutId(old(users), id)
      ensures profiles == old(profiles) - {id}
      ensures nextId == old(nextId)
      ensures !Exists(users, IdIs(id)) && id !in profiles
    {
      DeleteKeepsInvariant(users, profiles, nextId, id);
      users := WithoutId(users, id);
      profiles := profiles - {id};
    }
  }
}
