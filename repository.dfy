/** The document store behind the service (repository.UserRepository, a
    MongoRepository<User, String>), reduced to an in-memory table: a map from
    id to stored user and the sequence of ids in the order findAll lists them. */
module Repository {
  import opened Domain

  predicate NoDuplicates(s: seq<string>) {
    forall i, j :: 0 <= i < j < |s| ==> s[i] != s[j]
  }

  /** `s` without `x`, the other ids in their order. */
  function Remove(s: seq<string>, x: string): (r: seq<string>)
    ensures forall y :: y in r <==> y in s && y != x
    ensures forall i :: 0 <= i < |r| ==> r[i] in s && r[i] != x
    ensures NoDuplicates(s) ==> NoDuplicates(r)
    ensures x !in s ==> r == s
  {
    if s == [] then []
    else
      var rest := Remove(s[1..], x);
      assert NoDuplicates(s) ==> s[0] !in s[1..] && NoDuplicates(s[1..]) by {
        if NoDuplicates(s) {
          assert forall j :: 1 <= j < |s| ==> s[1..][j - 1] == s[j];
        }
      }
      if s[0] == x then rest
      else
        assert forall i :: 1 <= i < |rest| + 1 ==> ([s[0]] + rest)[i] == rest[i - 1];
        [s[0]] + rest
  }

  /** A list without repetitions has as many elements as the set of them. */
  lemma {:induction false} DistinctCardinality(s: seq<string>)
    requires NoDuplicates(s)
    ensures |set x | x in s| == |s|
  {
    if s != [] {
      DistinctCardinality(s[1..]);
      assert (set x | x in s) == {s[0]} + (set x | x in s[1..]);
      assert s[0] !in (set x | x in s[1..]);
    }
  }

  /** The length of the longest id in `ids`. */
  function LongestLength(ids: seq<string>): (n: nat)
    ensures forall i :: 0 <= i < |ids| ==> |ids[i]| <= n
  {
    if ids == [] then 0
    else
      var rest := LongestLength(ids[1..]);
      assert forall i :: 1 <= i < |ids| ==> ids[i] == ids[1..][i - 1];
      if |ids[0]| > rest then |ids[0]| else rest
  }

  /** The id the store assigns on insert. The real store makes a
      24-character ObjectId; all that matters here is that it is non-empty
      and not among the ids already used, which holds because it is longer
      than every one of them. */
  function FreshId(ids: seq<string>): (k: string)
    ensures k !in ids
    ensures |k| > 0
  {
    seq(LongestLength(ids) + 1, _ => '0')
  }

  /** The users stored under `ids`, in that order. */
  function Lookup(users: map<string, User>, ids: seq<string>): (r: seq<User>)
    requires forall i :: 0 <= i < |ids| ==> ids[i] in users
    ensures |r| == |ids|
    ensures forall i :: 0 <= i < |ids| ==> r[i] == users[ids[i]]
  {
    if ids == [] then [] else [users[ids[0]]] + Lookup(users, ids[1..])
  }

  /** The first user in `us` with the given email, if any. */
  function FirstWithEmail(us: seq<User>, email: string): (r: Option<User>)
    ensures r.Some? <==> exists i :: 0 <= i < |us| && us[i].emailAddress == email
    ensures r.Some? ==> r.value in us && r.value.emailAddress == email
  {
    if us == [] then None
    else if us[0].emailAddress == email then Some(us[0])
    else
      var rest := FirstWithEmail(us[1..], email);
      assert forall i :: 1 <= i < |us| ==> us[i] == us[1..][i - 1];
      rest
  }

  class UserRepository {
    var users: map<string, User>
    var order: seq<string>

    /** Every stored id is listed once in `order`, and every stored user carries its own id. */
    ghost predicate Valid()
      reads this
    {
      && NoDuplicates(order)
      && (forall i :: 0 <= i < |order| ==> order[i] in users)
      && (forall k :: k in users ==> k in order)
      && (forall k :: k in users ==> users[k].id == Some(k))
    }

    constructor ()
      ensures Valid() && users == map[] && order == []
    {
      users := map[];
      order := [];
    }

    /** CrudRepository.findById */
    function FindById(id: string): (r: Option<User>)
      reads this
      ensures r.Some? <==> id in users
      ensures r.Some? ==> r.value == users[id]
    {
      if id in users then Some(users[id]) else None
    }

    /** CrudRepository.findAll: every stored user exactly once, in the store's order. */
    function FindAll(): (r: seq<User>)
      reads this
      requires Valid()
      ensures |r| == |users| == |order|
      ensures forall i :: 0 <= i < |r| ==> r[i] == users[order[i]]
      ensures forall k :: k in users ==> users[k] in r
    {
      assert (set x | x in order) == users.Keys;
      DistinctCardinality(order);
      Lookup(users, order)
    }

    /** The derived query findOneByEmailAddress. With duplicate emails the
        real store would throw; here the first match in findAll order wins. */
    function FindOneByEmailAddress(email: string): (r: Option<User>)
      reads this
      requires Valid()
      ensures r.Some? <==> EmailInUse(users, email)
      ensures r.Some? ==> r.value.emailAddress == email && r.value.id.Some?
      ensures r.Some? ==> r.value.id.value in users && users[r.value.id.value] == r.value
    {
      var all := FindAll();
      var r := FirstWithEmail(all, email);
      assert EmailInUse(users, email) ==> exists i :: 0 <= i < |all| && all[i].emailAddress == email by {
        if EmailInUse(users, email) {
          var k :| k in users && users[k].emailAddress == email;
          assert users[k] in all;
        }
      }
      assert r.Some? ==> EmailInUse(users, email) by {
        if r.Some? {
          var i :| 0 <= i < |all| && all[i] == r.value;
          assert users[order[i]].emailAddress == email;
        }
      }
      r
    }

    /** CrudRepository.save: a user without an id is inserted under a fresh id
        (appended to the listing order); a user with an id replaces whatever
        is stored under it, or is inserted there. The saved user is returned. */
    method Save(user: User) returns (saved: User)
      requires Valid()
      modifies this
      ensures Valid()
      ensures saved.id.Some? && saved == user.(id := saved.id)
      ensures user.id.Some? ==> saved.id == user.id
      ensures user.id.None? ==> saved.id.value !in old(users) && |saved.id.value| > 0
      ensures users == old(users)[saved.id.value := saved]
      ensures order == if saved.id.value in old(users) then old(order) else old(order) + [saved.id.value]
    {
      var id := if user.id.Some? then user.id.value else FreshId(order);
      saved := user.(id := Some(id));
      if id !in users {
        order := order + [id];
      }
      users := users[id := saved];
    }

    /** CrudRepository.deleteById: the record under `id` goes, the rest stay in their order. */
    method DeleteById(id: string)
      requires Valid()
      modifies this
      ensures Valid()
      ensures users == old(users) - {id}
      ensures order == Remove(old(order), id)
    {
      users := users - {id};
      order := Remove(order, id);
    }
  }
}
