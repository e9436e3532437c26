/**
 * The ORM queries the views issue on the user table, over the table's rows in
 * their natural order: `filter(field=value)`, `.exists()` and `get(field=value)`.
 */
module Queries {
  import opened Models

  /** The single-field equality conditions the views use. */
  datatype Criterion = EmailIs(email: string) | IdIs(id: nat) | UsernameIs(username: string)

  predicate Matches(u: User, c: Criterion) {
    match c
    case EmailIs(e) => u.email == e
    case IdIs(n) => u.id == n
    case UsernameIs(n) => u.username == n
  }

  /** `queryset.filter(...)`: the matching rows, in queryset order. */
  function Filter(qs: seq<User>, c: Criterion): (r: seq<User>)
    ensures |r| <= |qs|
    ensures forall u :: u in r <==> u in qs && Matches(u, c)
  {
    if qs == [] then []
    else if Matches(qs[0], c) then [qs[0]] + Filter(qs[1..], c)
    else Filter(qs[1..], c)
  }

  /** Filtering distributes over concatenation, so the result keeps queryset order. */
  lemma {:induction false} FilterConcat(a: seq<User>, b: seq<User>, c: Criterion)
    ensures Filter(a + b, c) == Filter(a, c) + Filter(b, c)
  {
    if a != [] {
      var ab := a + b;
      assert ab[0] == a[0] && ab[1..] == a[1..] + b;
      FilterConcat(a[1..], b, c);
      var rest := Filter(a[1..], c) + Filter(b, c);
      assert Filter(a[1..] + b, c) == rest;
      if Matches(a[0], c) {
        assert Filter(ab, c) == [a[0]] + rest;
        assert [a[0]] + rest == ([a[0]] + Filter(a[1..], c)) + Filter(b, c);
      } else {
        assert Filter(ab, c) == rest;
      }
    } else {
      assert a + b == b;
    }
  }

  /** A filter no row passes returns nothing. */
  lemma {:induction false} FilterNone(qs: seq<User>, c: Criterion)
    requires forall u :: u in qs ==> !Matches(u, c)
    ensures Filter(qs, c) == []
  {
    if qs != [] {
      assert qs[0] in qs;
      FilterNone(qs[1..], c);
    }
  }

  /** `queryset.filter(...).exists()`. */
  function Exists(qs: seq<User>, c: Criterion): (b: bool)
    ensures b <==> exists u :: u in qs && Matches(u, c)
  {
    var m := Filter(qs, c);
    if m == [] then false else assert m[0] in m; true
  }

  /** What `Model.objects.get(...)` does: return the one match, or raise. */
  datatype Lookup = DoesNotExist | Found(user: User) | MultipleObjectsReturned

  function Get(qs: seq<User>, c: Criterion): (r: Lookup)
    ensures r.DoesNotExist? <==> !Exists(qs, c)
    ensures r.Found? ==> r.user in qs && Matches(r.user, c)
    ensures r.Found? ==> forall u :: u in qs && Matches(u, c) ==> u == r.user
    ensures r.MultipleObjectsReturned? ==> !AtMostOneMatch(qs, c)
    ensures !AtMostOneMatch(qs, c) ==> r.MultipleObjectsReturned?
  {
    var m := Filter(qs, c);
    assert !AtMostOneMatch(qs, c) ==> |m| >= 2 by {
      if !AtMostOneMatch(qs, c) {
        var i, j :| 0 <= i < j < |qs| && Matches(qs[i], c) && Matches(qs[j], c);
        FilterTwoMatches(qs, c, i, j);
      }
    }
    if m == [] then DoesNotExist
    else if |m| == 1 then
      assert m[0] in m;
      Found(m[0])
    else
      assert !AtMostOneMatch(qs, c) by {
        if AtMostOneMatch(qs, c) {
          FilterAtMostOne(qs, c);
        }
      }
      MultipleObjectsReturned
  }

  /** No two rows at different positions satisfy `c`. */
  predicate AtMostOneMatch(qs: seq<User>, c: Criterion) {
    forall i, j :: 0 <= i < j < |qs| ==> !(Matches(qs[i], c) && Matches(qs[j], c))
  }

  /** Two matching positions leave at least two rows after the filter, even equal ones. */
  lemma {:induction false} FilterTwoMatches(qs: seq<User>, c: Criterion, i: nat, j: nat)
    requires i < j < |qs| && Matches(qs[i], c) && Matches(qs[j], c)
    ensures |Filter(qs, c)| >= 2
  {
    var rest := qs[1..];
    if i == 0 {
      assert rest[j - 1] == qs[j] && qs[j] in rest;
      assert qs[j] in Filter(rest, c);
    } else {
      assert rest[i - 1] == qs[i] && rest[j - 1] == qs[j];
      FilterTwoMatches(rest, c, i - 1, j - 1);
    }
  }

  lemma {:induction false} FilterAtMostOne(qs: seq<User>, c: Criterion)
    requires AtMostOneMatch(qs, c)
    ensures |Filter(qs, c)| <= 1
  {
    if qs != [] {
      assert AtMostOneMatch(qs[1..], c) by {
        forall i, j | 0 <= i < j < |qs| - 1 ensures !(Matches(qs[1..][i], c) && Matches(qs[1..][j], c)) {
          assert qs[1..][i] == qs[i + 1] && qs[1..][j] == qs[j + 1];
        }
      }
      FilterAtMostOne(qs[1..], c);
      if Matches(qs[0], c) {
        forall u | u in qs[1..] ensures !Matches(u, c) {
          var j :| 0 <= j < |qs[1..]| && qs[1..][j] == u;
          assert qs[j + 1] == u;
        }
        FilterNone(qs[1..], c);
      }
    }
  }

  /** When the condition picks out at most one row, `get` never raises MultipleObjectsReturned. */
  lemma GetUnique(qs: seq<User>, c: Criterion)
    requires AtMostOneMatch(qs, c)
    ensures Get(qs, c).DoesNotExist? || Get(qs, c).Found?
    ensures Exists(qs, c) ==> Get(qs, c).Found?
  {
    FilterAtMostOne(qs, c);
  }
}
