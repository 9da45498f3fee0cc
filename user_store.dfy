/**
 * The `users` table as the services see it through sea_orm: a sequence of
 * rows, `find().filter(..).one(db)` queries that return a matching row, an
 * insert and an update by primary key. Without `order_by` the database may
 * return any matching row; the first in store order stands in for it. The primary key on `id` is
 * always enforced. The users migration also puts a unique index on `email`
 * alone, while the service only keeps emails unique per tenant; a store is
 * created with or without that index, and an insert that would break an
 * enforced constraint is refused, as the database refuses it.
 */
module Persistence {
  import opened Domain

  /** One `.filter(Column::X.eq(v))` condition. */
  datatype Filter = IdEq(id: Uuid) | TenantIdEq(tenantId: Uuid) | EmailEq(email: string)

  predicate Holds(f: Filter, u: User)
  {
    match f
    case IdEq(id) => u.id == id
    case TenantIdEq(t) => u.tenantId == t
    case EmailEq(e) => u.email == e
  }

  /** Chained filters are a conjunction. */
  predicate MatchesAll(fs: seq<Filter>, u: User)
  {
    forall i :: 0 <= i < |fs| ==> Holds(fs[i], u)
  }

  /** One filter, or two chained, mean what they say. */
  lemma Filters(f: Filter, g: Filter, u: User)
    ensures MatchesAll([f], u) <==> Holds(f, u)
    ensures MatchesAll([f, g], u) <==> Holds(f, u) && Holds(g, u)
  {
    assert [f][0] == f && [f, g][0] == f && [f, g][1] == g;
  }

  /** The position of the first row matching every filter. */
  function FindIndex(users: seq<User>, fs: seq<Filter>): (r: Option<nat>)
    ensures r.Some? ==> r.value < |users| && MatchesAll(fs, users[r.value])
    ensures r.Some? ==> forall j :: 0 <= j < r.value ==> !MatchesAll(fs, users[j])
    ensures r.None? <==> forall j :: 0 <= j < |users| ==> !MatchesAll(fs, users[j])
  {
    if users == [] then None
    else if MatchesAll(fs, users[0]) then Some(0)
    else
      match FindIndex(users[1..], fs)
      case None => None
      case Some(k) => Some(k + 1)
  }

  /** `.one(db)`: a matching row, if any (here the first in store order). */
  function FindOne(users: seq<User>, fs: seq<Filter>): (r: Option<User>)
    ensures r.Some? ==> r.value in users && MatchesAll(fs, r.value)
    ensures r.None? <==> forall u :: u in users ==> !MatchesAll(fs, u)
  {
    match FindIndex(users, fs)
    case None => None
    case Some(k) => Some(users[k])
  }

  /** The primary key. */
  ghost predicate UniqueIds(users: seq<User>)
  {
    forall i, j :: 0 <= i < j < |users| ==> users[i].id != users[j].id
  }

  /** The migration's unique index on `email`. */
  ghost predicate UniqueEmails(users: seq<User>)
  {
    forall i, j :: 0 <= i < j < |users| ==> users[i].email != users[j].email
  }

  /** The service's own rule: an email occurs at most once per tenant. */
  ghost predicate UniqueTenantEmails(users: seq<User>)
  {
    forall i, j :: 0 <= i < j < |users| && users[i].tenantId == users[j].tenantId ==> users[i].email != users[j].email
  }

  /** With unique emails, an email lookup finds the one row holding it. */
  lemma {:induction false} FindByUniqueEmail(users: seq<User>, k: nat)
    requires UniqueEmails(users) && k < |users|
    ensures FindOne(users, [EmailEq(users[k].email)]) == Some(users[k])
  {
    var fs := [EmailEq(users[k].email)];
    assert MatchesAll(fs, users[k]) by { assert Holds(fs[0], users[k]); }
    var i := FindIndex(users, fs).value;
    assert Holds(fs[0], users[i]);
  }

  /** With unique ids, an id lookup finds the one row holding it. */
  lemma {:induction false} FindByUniqueId(users: seq<User>, k: nat)
    requires UniqueIds(users) && k < |users|
    ensures FindOne(users, [IdEq(users[k].id)]) == Some(users[k])
  {
    var fs := [IdEq(users[k].id)];
    assert MatchesAll(fs, users[k]) by { assert Holds(fs[0], users[k]); }
    var i := FindIndex(users, fs).value;
    assert Holds(fs[0], users[i]);
  }

  class UserStore {
    /** Whether the unique index on `email` is in place. */
    const uniqueEmail: bool
    var users: seq<User>

    ghost predicate Valid()
      reads this
    {
      UniqueIds(users) && (uniqueEmail ==> UniqueEmails(users))
    }

    constructor (uniqueEmail: bool)
      ensures this.uniqueEmail == uniqueEmail && users == [] && Valid()
    {
      this.uniqueEmail := uniqueEmail;
      users := [];
    }

    /**
     * `ActiveModel::insert`: the row is appended unless its id, or its email
     * under the unique index, is taken; then the database reports an error
     * and nothing changes.
     */
    method Insert(u: User) returns (ok: bool)
      requires Valid()
      modifies this
      ensures Valid()
      ensures ok <==> forall v :: v in old(users) ==> v.id != u.id && (uniqueEmail ==> v.email != u.email)
      ensures ok ==> users == old(users) + [u]
      ensures !ok ==> users == old(users)
    {
      var byId := FindOne(users, [IdEq(u.id)]);
      var byEmail := if uniqueEmail then FindOne(users, [EmailEq(u.email)]) else None;
      if byId.Some? || byEmail.Some? {
        var v := if byId.Some? then byId.value else byEmail.value;
        assert v in users && (v.id == u.id || (uniqueEmail && v.email == u.email)) by {
          if byId.Some? {
            assert Holds([IdEq(u.id)][0], byId.value);
          } else {
            assert Holds([EmailEq(u.email)][0], byEmail.value);
          }
        }
        ok := false;
        return;
      }
      forall v | v in users ensures v.id != u.id && (uniqueEmail ==> v.email != u.email) {
        assert !MatchesAll([IdEq(u.id)], v) && !Holds(IdEq(u.id), v);
        if uniqueEmail {
          assert !MatchesAll([EmailEq(u.email)], v) && !Holds(EmailEq(u.email), v);
        }
      }
      users := users + [u];
      ok := true;
    }

    /**
     * `ActiveModel::update` of the row at position `k`, which keeps its
     * primary key and its email.
     */
    method Update(k: nat, u: User)
      requires Valid()
      requires k < |users| && users[k].id == u.id && users[k].email == u.email
      modifies this
      ensures Valid()
      ensures users == old(users)[k := u]
    {
      users := users[k := u];
    }
  }
}
