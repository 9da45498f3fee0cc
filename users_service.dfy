/**
 * `UsersService` of src/services/users_service.rs: an admin flips the
 * status or the role of one user of a tenant, in place in the store.
 */
module UsersService {
  import opened Domain
  import opened Persistence
  import opened AppErrors

  function ToggledStatus(s: UserStatus): (r: UserStatus)
    ensures r != s
  {
    match s
    case Active => Inactive
    case Inactive => Active
  }

  function ToggledRole(role: UserRole): (r: UserRole)
    ensures r != role
  {
    match role
    case Admin => Regular
    case Regular => Admin
  }

  /** Each toggle is its own inverse. */
  lemma TogglesAreInvolutions(s: UserStatus, role: UserRole)
    ensures ToggledStatus(ToggledStatus(s)) == s
    ensures ToggledRole(ToggledRole(role)) == role
  {
  }

  /** The row with this id in this tenant. */
  predicate InTenant(u: User, userId: Uuid, tenantId: Uuid)
  {
    u.id == userId && u.tenantId == tenantId
  }

  /**
   * `change_user_status`: the user must match both id and tenant; a user of
   * another tenant is `UserNotFound` exactly like an absent one. On success
   * only the status of that row changes (`updated_at` included, it is not
   * touched) and the updated row is returned.
   */
  method ChangeUserStatus(db: UserStore, userId: Uuid, tenantId: Uuid) returns (r: Result<User, AppError>)
    requires db.Valid()
    modifies db
    ensures db.Valid()
    ensures r.Failure? <==> forall u :: u in old(db.users) ==> !InTenant(u, userId, tenantId)
    ensures r.Failure? ==> r.error == UserNotFound && db.users == old(db.users)
    ensures r.Success? ==>
      exists k :: && 0 <= k < |old(db.users)| && InTenant(old(db.users)[k], userId, tenantId)
                  && r.value == old(db.users)[k].(status := ToggledStatus(old(db.users)[k].status))
                  && db.users == old(db.users)[k := r.value]
  {
    var k := FindTarget(db.users, userId, tenantId);
    if k.None? {
      return Failure(UserNotFound);
    }
    var user := db.users[k.value];
    var updated := user.(status := ToggledStatus(user.status));
    db.Update(k.value, updated);
    return Success(updated);
  }

  /** `change_role`: as `ChangeUserStatus`, flipping the role instead. */
  method ChangeRole(db: UserStore, userId: Uuid, tenantId: Uuid) returns (r: Result<User, AppError>)
    requires db.Valid()
    modifies db
    ensures db.Valid()
    ensures r.Failure? <==> forall u :: u in old(db.users) ==> !InTenant(u, userId, tenantId)
    ensures r.Failure? ==> r.error == UserNotFound && db.users == old(db.users)
    ensures r.Success? ==>
      exists k :: && 0 <= k < |old(db.users)| && InTenant(old(db.users)[k], userId, tenantId)
                  && r.value == old(db.users)[k].(role := ToggledRole(old(db.users)[k].role))
                  && db.users == old(db.users)[k := r.value]
  {
    var k := FindTarget(db.users, userId, tenantId);
    if k.None? {
      return Failure(UserNotFound);
    }
    var user := db.users[k.value];
    var updated := user.(role := ToggledRole(user.role));
    db.Update(k.value, updated);
    return Success(updated);
  }

  /** The lookup both operations share: `filter(Id.eq(..)).filter(TenantId.eq(..)).one(db)`. */
  function FindTarget(users: seq<User>, userId: Uuid, tenantId: Uuid): (r: Option<nat>)
    ensures r.Some? ==> r.value < |users| && InTenant(users[r.value], userId, tenantId)
    ensures r.None? <==> forall u :: u in users ==> !InTenant(u, userId, tenantId)
  {
    forall u ensures MatchesAll([IdEq(userId), TenantIdEq(tenantId)], u) <==> InTenant(u, userId, tenantId) {
      Filters(IdEq(userId), TenantIdEq(tenantId), u);
    }
    FindIndex(users, [IdEq(userId), TenantIdEq(tenantId)])
  }

  /** Changing the status twice gives the store back. */
  method ToggleStatusTwice(db: UserStore, userId: Uuid, tenantId: Uuid) returns (first: Result<User, AppError>, second: Result<User, AppError>)
    requires db.Valid()
    modifies db
    ensures db.users == old(db.users)
    ensures first.Success? <==> second.Success?
  {
    ghost var original := db.users;
    first := ChangeUserStatus(db, userId, tenantId);
    ghost var middle := db.users;
    second := ChangeUserStatus(db, userId, tenantId);
    if first.Success? {
      ghost var k :| 0 <= k < |original| && InTenant(original[k], userId, tenantId)
        && first.value == original[k].(status := ToggledStatus(original[k].status))
        && middle == original[k := first.value];
      assert middle[k] in middle && InTenant(middle[k], userId, tenantId);
      ghost var m :| 0 <= m < |middle| && InTenant(middle[m], userId, tenantId)
        && second.value == middle[m].(status := ToggledStatus(middle[m].status))
        && db.users == middle[m := second.value];
      assert m == k;
      assert db.users == original;
    }
  }
}
