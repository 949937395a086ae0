/** What keeps tenants apart. Two composite foreign keys and one tenant column make every grant stay
    inside a tenant; cascades and other tenants' statements cannot reach across. */
module Tenancy {
  import opened Wrappers
  import opened Schema
  import opened Cascade
  import opened Database
  import opened Runs

  // ----- grants -------------------------------------------------------------------------------

  /** The user, the role and the grant itself name one tenant. */
  predicate GrantIsLocal(db: Rows, grant: Row)
    requires grant.UserRole?
  {
    && UserKey(grant.user) in db && db[UserKey(grant.user)].User? && db[UserKey(grant.user)].tenant == grant.tenant
    && RoleKey(grant.role) in db && db[RoleKey(grant.role)].Role? && db[RoleKey(grant.role)].tenant == grant.tenant
  }

  lemma GrantsAreLocal(db: Rows, k: Key)
    requires Consistent(db) && k in db && db[k].UserRole?
    ensures GrantIsLocal(db, db[k])
  {
    hide Unique, EntryOf;
    assert FkHolds(db, UserRolesUserTenant, db[k]);
    assert FkHolds(db, UserRolesRoleTenant, db[k]);
  }

  /** In every state of every run, no grant crosses tenants. */
  lemma GrantsAreLocalInEveryRun(db: Rows, txns: seq<seq<Statement>>, k: Key)
    requires Consistent(db) && k in Run(db, txns) && Run(db, txns)[k].UserRole?
    ensures GrantIsLocal(Run(db, txns), Run(db, txns)[k])
  {
    hide Consistent, Run, GrantIsLocal;
    RunKeepsConsistent(db, txns);
    GrantsAreLocal(Run(db, txns), k);
  }

  // ----- ownership ----------------------------------------------------------------------------

  function UserTenant(db: Rows, user: Id): Option<Id> {
    if UserKey(user) in db && db[UserKey(user)].User? then Some(db[UserKey(user)].tenant) else None
  }

  /** The tenant a row belongs to: by its own column, or by the user, role or client it hangs on. A
      token's own tenant column is not used, because no constraint ties it to the user. */
  function Owner(db: Rows, row: Row): Option<Id> {
    match row
    case Tenant(id, _) => Some(id)
    case User(_, tenant, _, _, _) => Some(tenant)
    case Role(_, tenant, _, _) => Some(tenant)
    case UserRole(_, _, tenant) => Some(tenant)
    case RoleScope(role, _) =>
      if RoleKey(role) in db && db[RoleKey(role)].Role? then Some(db[RoleKey(role)].tenant) else None
    case RefreshToken(_, _, user, _, _, _, _) => UserTenant(db, user)
    case VerificationToken(_, user, _, _) => UserTenant(db, user)
    case OauthClient(_, _, owner) => owner
    case OauthClientSecret(_, client) =>
      if ClientKey(client) in db && db[ClientKey(client)].OauthClient? then db[ClientKey(client)].owner else None
    case RoleTemplate(_) | Scope(_) | SigningKey(_, _) => None
  }

  lemma CascadeKeepsOwner(db: Rows, fk: Fk, child: Row, parent: Row)
    requires KeyOf(parent) in db && db[KeyOf(parent)] == parent && Action(fk) == Cascade && Points(fk, child, parent)
    ensures Owner(db, parent) == Owner(db, child)
  {
  }

  /** A cascade never leaves the tenant it starts in. */
  lemma EdgeKeepsOwner(db: Rows, x: Key, y: Key)
    requires Keyed(db) && Edge(db, x, y)
    ensures Owner(db, db[x]) == Owner(db, db[y])
  {
    hide Owner, Points, KeyOf;
    var fk: Fk :| Action(fk) == Cascade && Points(fk, db[y], db[x]);
    CascadeKeepsOwner(db, fk, db[y], db[x]);
  }

  ghost function OwnedBy(db: Rows, owner: Option<Id>): set<Key> {
    set x | x in db && Owner(db, db[x]) == owner
  }

  lemma ClosureKeepsOwner(db: Rows, k: Key)
    requires Keyed(db) && k in db
    ensures Closure(db, k) <= OwnedBy(db, Owner(db, db[k]))
  {
    hide Owner, Edge, Closure, KeyOf;
    var s := OwnedBy(db, Owner(db, db[k]));
    forall x, y | x in s && Edge(db, x, y) ensures y in s {
      EdgeEnds(db, x, y);
      EdgeKeepsOwner(db, x, y);
    }
    ClosureIsLeast(db, k, s);
  }

  // ----- effective scopes ---------------------------------------------------------------------

  /** What a user may do: `user_roles` joined with `role_scopes`. */
  function EffectiveScopes(db: Rows, user: Id): set<string> {
    set k | k in db && k.RoleScopeKey? && UserRoleKey(user, k.role) in db :: k.scope
  }

  /** Row `c` grants the user a role, and row `d` gives that role the scope. */
  predicate GivesScope(db: Rows, c: Key, d: Key, user: Id, scope: string) {
    && c in db && d in db && db[c].UserRole? && db[c].user == user
    && db[d].RoleScope? && db[d].role == db[c].role && db[d].scope == scope
  }

  /** On rows: a user has a scope exactly when one of its roles is given it. */
  lemma ScopesAreGiven(db: Rows, user: Id, scope: string)
    requires Keyed(db)
    ensures scope in EffectiveScopes(db, user) <==> exists c: Key, d: Key :: GivesScope(db, c, d, user, scope)
  {
    if scope in EffectiveScopes(db, user) {
      var d :| d in db && d.RoleScopeKey? && UserRoleKey(user, d.role) in db && d.scope == scope;
      var c := UserRoleKey(user, d.role);
      assert KeyOf(db[c]) == c && KeyOf(db[d]) == d;
      assert GivesScope(db, c, d, user, scope);
    }
    if c: Key, d: Key :| GivesScope(db, c, d, user, scope) {
      assert KeyOf(db[c]) == c && KeyOf(db[d]) == d;
    }
  }

  /** What a role is given. */
  function ScopesOf(db: Rows, role: Id): set<string> {
    set k | k in db && db[k].RoleScope? && db[k].role == role :: db[k].scope
  }

  lemma GrantedScope(db: Rows, grant: Row, user: Id, scope: string)
    requires Keyed(db) && grant.UserRole? && KeyOf(grant) !in db && scope in EffectiveScopes(Inserted(db, grant), user)
    ensures scope in EffectiveScopes(db, user) || (user == grant.user && scope in ScopesOf(db, grant.role))
  {
    var after := Inserted(db, grant);
    var k :| k in after && k.RoleScopeKey? && UserRoleKey(user, k.role) in after && k.scope == scope;
    assert k in db && KeyOf(db[k]) == k;
  }

  lemma ScopeStaysGranted(db: Rows, grant: Row, user: Id, scope: string)
    requires Keyed(db) && grant.UserRole? && KeyOf(grant) !in db
    requires scope in EffectiveScopes(db, user) || (user == grant.user && scope in ScopesOf(db, grant.role))
    ensures scope in EffectiveScopes(Inserted(db, grant), user)
  {
    var after := Inserted(db, grant);
    if scope in EffectiveScopes(db, user) {
      var k :| k in db && k.RoleScopeKey? && UserRoleKey(user, k.role) in db && k.scope == scope;
      assert k in after && UserRoleKey(user, k.role) in after;
    } else {
      var k :| k in db && db[k].RoleScope? && db[k].role == grant.role && db[k].scope == scope;
      assert KeyOf(db[k]) == k && k in after;
    }
  }

  /** A grant that is accepted gives its user exactly the scopes of the role, and no other user anything. */
  lemma GrantAddsScopes(db: Rows, grant: Row, user: Id)
    requires Consistent(db) && grant.UserRole? && Apply(db, Insert(grant)).Some?
    ensures EffectiveScopes(Execute(db, Insert(grant)), user)
         == EffectiveScopes(db, user) + (if user == grant.user then ScopesOf(db, grant.role) else {})
  {
    hide Unique, NoDangling, EffectiveScopes, ScopesOf, Inserted, KeyOf;
    var after := Inserted(db, grant);
    forall scope: string
      ensures scope in EffectiveScopes(after, user) <==>
        scope in EffectiveScopes(db, user) || (user == grant.user && scope in ScopesOf(db, grant.role))
    {
      if scope in EffectiveScopes(after, user) {
        GrantedScope(db, grant, user, scope);
      } else if scope in EffectiveScopes(db, user) || (user == grant.user && scope in ScopesOf(db, grant.role)) {
        ScopeStaysGranted(db, grant, user, scope);
      }
    }
  }

  predicate Grants(db: Rows, user: Id, role: Id, scope: string) {
    UserRoleKey(user, role) in db && RoleScopeKey(role, scope) in db
  }

  lemma SameGrantsSameScopes(before: Rows, after: Rows, user: Id)
    requires forall role: Id, scope: string :: Grants(before, user, role, scope) == Grants(after, user, role, scope)
    ensures EffectiveScopes(before, user) == EffectiveScopes(after, user)
  {
    forall scope: string ensures scope in EffectiveScopes(before, user) <==> scope in EffectiveScopes(after, user) {
      if scope in EffectiveScopes(before, user) {
        var k :| k in before && k.RoleScopeKey? && UserRoleKey(user, k.role) in before && k.scope == scope;
        assert Grants(before, user, k.role, scope);
        assert RoleScopeKey(k.role, scope) in after;
      }
      if scope in EffectiveScopes(after, user) {
        var k :| k in after && k.RoleScopeKey? && UserRoleKey(user, k.role) in after && k.scope == scope;
        assert Grants(after, user, k.role, scope);
        assert RoleScopeKey(k.role, scope) in before;
      }
    }
  }

  predicate IsUserOf(db: Rows, user: Id, tenant: Id) {
    UserTenant(db, user) == Some(tenant)
  }

  /** Both rows behind a grant of a scope belong to the user's tenant. */
  lemma GrantsAreOwned(db: Rows, user: Id, tenant: Id, role: Id)
    requires Consistent(db) && IsUserOf(db, user, tenant) && UserRoleKey(user, role) in db
    ensures Owner(db, db[UserRoleKey(user, role)]) == Some(tenant)
    ensures RoleKey(role) in db && db[RoleKey(role)].Role? && db[RoleKey(role)].tenant == tenant
    ensures forall scope: string | RoleScopeKey(role, scope) in db :: Owner(db, db[RoleScopeKey(role, scope)]) == Some(tenant)
  {
    hide Unique, NoDangling, EntryOf;
    var k := UserRoleKey(user, role);
    assert KeyOf(db[k]) == k;
    GrantsAreLocal(db, k);
    forall scope: string | RoleScopeKey(role, scope) in db ensures Owner(db, db[RoleScopeKey(role, scope)]) == Some(tenant) {
      assert KeyOf(db[RoleScopeKey(role, scope)]) == RoleScopeKey(role, scope);
    }
  }

  // ----- isolation ----------------------------------------------------------------------------

  /** The statement names no row of `tenant`, neither the one it changes nor the one it writes. */
  predicate Spares(db: Rows, s: Statement, tenant: Id) {
    match s
    case Insert(row) => Owner(db, row) != Some(tenant)
    case Update(k, row) => k in db ==> Owner(db, db[k]) != Some(tenant) && Owner(db, row) != Some(tenant)
    case Delete(k) => k in db ==> Owner(db, db[k]) != Some(tenant)
  }

  lemma KeyedOf(db: Rows)
    requires Consistent(db)
    ensures Keyed(db)
  {
  }

  lemma OwnerOfUser(db: Rows, user: Id, tenant: Id)
    requires IsUserOf(db, user, tenant)
    ensures Owner(db, db[UserKey(user)]) == Some(tenant)
  {
  }

  lemma NulledUser(db: Rows, gone: set<Key>, user: Id)
    ensures UserKey(user) in db && db[UserKey(user)].User? ==> Nulled(db[UserKey(user)], gone) == db[UserKey(user)]
  {
  }

  lemma SparedDelete(db: Rows, k: Key, user: Id, tenant: Id)
    requires Consistent(db) && k in db && Owner(db, db[k]) != Some(tenant) && IsUserOf(db, user, tenant)
    ensures
      var after := Without(db, Closure(db, k));
      IsUserOf(after, user, tenant)
      && forall role: Id, scope: string :: Grants(db, user, role, scope) == Grants(after, user, role, scope)
  {
    hide Closure, Consistent, Owner, Nulled;
    var gone := Closure(db, k);
    assert Keyed(db) by {
      KeyedOf(db);
    }
    ClosureKeepsOwner(db, k);
    NulledUser(db, gone, user);
    forall role: Id, scope: string ensures Grants(db, user, role, scope) ==> Grants(Without(db, gone), user, role, scope) {
      if Grants(db, user, role, scope) {
        GrantsAreOwned(db, user, tenant, role);
      }
    }
    OwnerOfUser(db, user, tenant);
  }

  /** A row that is not the tenant's own gives its users nothing. */
  lemma NewRowGrantsNothing(db: Rows, after: Rows, row: Row, user: Id, tenant: Id, role: Id, scope: string)
    requires Consistent(after) && KeyOf(row) in after && after[KeyOf(row)] == row
    requires Owner(db, row) != Some(tenant) && IsUserOf(after, user, tenant)
    requires RoleKey(role) in after && !row.Role? ==> RoleKey(role) in db && db[RoleKey(role)] == after[RoleKey(role)]
    ensures UserRoleKey(user, role) != KeyOf(row)
    ensures UserRoleKey(user, role) in after ==> RoleScopeKey(role, scope) != KeyOf(row)
  {
    hide Consistent;
    if UserRoleKey(user, role) in after {
      GrantsAreOwned(after, user, tenant, role);
    }
  }

  lemma SparedInsert(db: Rows, row: Row, user: Id, tenant: Id)
    requires Consistent(db) && KeyOf(row) !in db && Consistent(Inserted(db, row))
    requires Owner(db, row) != Some(tenant) && IsUserOf(db, user, tenant)
    ensures
      var after := Inserted(db, row);
      IsUserOf(after, user, tenant)
      && forall role: Id, scope: string :: Grants(db, user, role, scope) == Grants(after, user, role, scope)
  {
    hide Consistent;
    var after := Inserted(db, row);
    forall role: Id, scope: string ensures Grants(db, user, role, scope) == Grants(after, user, role, scope) {
      NewRowGrantsNothing(db, after, row, user, tenant, role, scope);
    }
  }

  lemma SparedRoleStays(db: Rows, k: Key, row: Row, user: Id, tenant: Id, role: Id)
    requires Consistent(db) && k in db && SameTable(k, KeyOf(row))
    ensures RoleKey(role) in Updated(db, k, row) && !row.Role? ==>
              RoleKey(role) in db && db[RoleKey(role)] == Updated(db, k, row)[RoleKey(role)]
  {
  }

  lemma SparedUpdate(db: Rows, k: Key, row: Row, user: Id, tenant: Id)
    requires Consistent(db) && k in db && SameTable(k, KeyOf(row)) && (KeyOf(row) == k || KeyOf(row) !in db)
    requires Consistent(Updated(db, k, row)) && Spares(db, Update(k, row), tenant) && IsUserOf(db, user, tenant)
    ensures
      var after := Updated(db, k, row);
      IsUserOf(after, user, tenant)
      && forall role: Id, scope: string :: Grants(db, user, role, scope) == Grants(after, user, role, scope)
  {
    hide Consistent;
    var after := Updated(db, k, row);
    forall role: Id, scope: string ensures Grants(db, user, role, scope) == Grants(after, user, role, scope) {
      if UserRoleKey(user, role) in db {
        GrantsAreOwned(db, user, tenant, role);
      }
      SparedRoleStays(db, k, row, user, tenant, role);
      NewRowGrantsNothing(db, after, row, user, tenant, role, scope);
    }
  }

  /** A statement that names no row of a tenant changes no effective scope of any of its users: not by
      writing a row of its own, not by moving one, and not by what its deletes cascade to. */
  lemma StatementIsolation(db: Rows, s: Statement, user: Id, tenant: Id)
    requires Consistent(db) && Spares(db, s, tenant) && IsUserOf(db, user, tenant)
    ensures IsUserOf(Execute(db, s), user, tenant)
    ensures EffectiveScopes(Execute(db, s), user) == EffectiveScopes(db, user)
  {
    hide Consistent, Closure, Without, Inserted, Updated, Owner, EffectiveScopes, Grants, UserTenant, DeleteRefused;
    if Apply(db, s).Some? {
      match s {
        case Insert(row) =>
          SparedInsert(db, row, user, tenant);
          SameGrantsSameScopes(db, Inserted(db, row), user);
        case Update(k, row) =>
          if k in db {
            SparedUpdate(db, k, row, user, tenant);
            SameGrantsSameScopes(db, Updated(db, k, row), user);
          }
        case Delete(k) =>
          if k in db {
            SparedDelete(db, k, user, tenant);
            SameGrantsSameScopes(db, Without(db, Closure(db, k)), user);
          }
      }
    }
  }

  /** Each statement of the transaction, where it runs, spares `tenant`. */
  ghost predicate AllSpare(db: Rows, ss: seq<Statement>, tenant: Id)
    decreases ss
  {
    ss == [] || (Spares(db, ss[0], tenant) && AllSpare(Execute(db, ss[0]), ss[1..], tenant))
  }

  ghost predicate RunSpares(db: Rows, txns: seq<seq<Statement>>, tenant: Id)
    decreases txns
  {
    txns == [] || (AllSpare(db, txns[0], tenant) && RunSpares(Commit(db, txns[0]), txns[1..], tenant))
  }

  lemma {:induction false} AttemptIsolation(db: Rows, ss: seq<Statement>, user: Id, tenant: Id)
    requires Consistent(db) && AllSpare(db, ss, tenant) && IsUserOf(db, user, tenant) && Attempt(db, ss).Some?
    ensures IsUserOf(Attempt(db, ss).value, user, tenant)
    ensures EffectiveScopes(Attempt(db, ss).value, user) == EffectiveScopes(db, user)
    decreases ss
  {
    hide Consistent, Apply, EffectiveScopes, IsUserOf, Spares;
    if ss != [] {
      StatementIsolation(db, ss[0], user, tenant);
      ApplyKeepsConsistent(db, ss[0]);
      AttemptIsolation(Execute(db, ss[0]), ss[1..], user, tenant);
    }
  }

  /** Over whole runs: whatever the other tenants do, a tenant's users keep exactly their scopes. */
  lemma {:induction false} TenantIsolation(db: Rows, txns: seq<seq<Statement>>, user: Id, tenant: Id)
    requires Consistent(db) && RunSpares(db, txns, tenant) && IsUserOf(db, user, tenant)
    ensures IsUserOf(Run(db, txns), user, tenant)
    ensures EffectiveScopes(Run(db, txns), user) == EffectiveScopes(db, user)
    decreases txns
  {
    hide Consistent, Attempt, EffectiveScopes, IsUserOf, AllSpare;
    if txns != [] {
      if Attempt(db, txns[0]).Some? {
        AttemptIsolation(db, txns[0], user, tenant);
      }
      AttemptKeepsConsistent(db, txns[0]);
      TenantIsolation(Commit(db, txns[0]), txns[1..], user, tenant);
    }
  }

  // ----- isolation of rows --------------------------------------------------------------------

  /** The row that a row belongs to its tenant through, if not by a column of its own. */
  function Holder(row: Row): Option<Key> {
    match row
    case RoleScope(role, _) => Some(RoleKey(role))
    case RefreshToken(_, _, user, _, _, _, _) => Some(UserKey(user))
    case VerificationToken(_, user, _, _) => Some(UserKey(user))
    case OauthClientSecret(_, client) => Some(ClientKey(client))
    case _ => None
  }

  function HolderFk(row: Row): Fk
    requires Holder(row).Some?
  {
    match row
    case RoleScope(_, _) => RoleScopesRole
    case RefreshToken(_, _, _, _, _, _, _) => TokensUser
    case VerificationToken(_, _, _, _) => VerificationUser
    case _ => SecretsClient
  }

  /** A holder exists, is held by none, and takes what it holds along when it is deleted. */
  lemma HolderExists(db: Rows, x: Key)
    requires Consistent(db) && x in db && Holder(db[x]).Some?
    ensures
      var h := Holder(db[x]).value;
      h in db && !SameTable(h, x) && KeyOf(db[h]) == h && Holder(db[h]).None? && Edge(db, h, x)
      && Owner(db, db[x]) == Owner(db, db[h])
  {
    hide Unique, EntryOf;
    assert KeyOf(db[x]) == x;
    assert FkHolds(db, HolderFk(db[x]), db[x]);
    assert Points(HolderFk(db[x]), db[x], db[Holder(db[x]).value]);
  }

  /** The owner of a row is in its own columns or in those of its holder. */
  lemma SameHolderSameOwner(db: Rows, after: Rows, row: Row)
    requires Holder(row).Some? ==>
               var h := Holder(row).value;
               h in db && h in after && KeyOf(db[h]) == h == KeyOf(after[h]) && Owner(db, db[h]) == Owner(after, after[h])
    ensures Owner(after, row) == Owner(db, row)
  {
  }

  predicate Unmoved(row: Row, later: Row) {
    || later == row
    || (row.Role? && later == row.(template := None))
    || (row.RefreshToken? && later == row.(parent := None))
  }

  /** `after` holds the same rows of the tenant as `db`, each as it was but for set-null references. */
  ghost predicate Undisturbed(db: Rows, after: Rows, tenant: Id) {
    && OwnedBy(after, Some(tenant)) == OwnedBy(db, Some(tenant))
    && forall x <- OwnedBy(db, Some(tenant)) :: Unmoved(db[x], after[x])
  }

  lemma HeldByOldRow(db: Rows, row: Row, x: Key)
    requires Consistent(db) && KeyOf(row) !in db && Consistent(Inserted(db, row)) && x in Inserted(db, row)
    ensures var after := Inserted(db, row);
      Holder(after[x]).Some? ==>
        var h := Holder(after[x]).value;
        h in db && after[h] == db[h] && KeyOf(db[h]) == h && Owner(db, db[h]) == Owner(after, after[h])
  {
    hide Consistent, Edge;
    var after := Inserted(db, row);
    if Holder(after[x]).Some? {
      HolderExists(after, x);
      if x in db {
        HolderExists(db, x);
      }
      SameHolderSameOwner(db, after, after[Holder(after[x]).value]);
    }
  }

  lemma InsertDisturbsNone(db: Rows, row: Row, tenant: Id)
    requires Consistent(db) && KeyOf(row) !in db && Consistent(Inserted(db, row)) && Owner(db, row) != Some(tenant)
    ensures Undisturbed(db, Inserted(db, row), tenant)
  {
    hide Consistent, Owner, Edge, KeyOf, Holder, SameTable;
    var after := Inserted(db, row);
    forall x | x in after ensures Owner(after, after[x]) == Owner(db, after[x]) {
      HeldByOldRow(db, row, x);
      SameHolderSameOwner(db, after, after[x]);
    }
  }

  lemma NulledIsUnmoved(db: Rows, row: Row, gone: set<Key>)
    ensures Unmoved(row, Nulled(row, gone)) && Holder(Nulled(row, gone)) == Holder(row)
    ensures KeyOf(Nulled(row, gone)) == KeyOf(row) && Owner(db, Nulled(row, gone)) == Owner(db, row)
  {
  }

  lemma KeptOwner(db: Rows, k: Key, x: Key)
    requires Consistent(db) && k in db && x in Without(db, Closure(db, k))
    ensures var after := Without(db, Closure(db, k));
      Owner(after, after[x]) == Owner(db, db[x]) && Unmoved(db[x], after[x])
  {
    hide Consistent, Owner, Edge, KeyOf, Holder, SameTable, Closure, Nulled, Unmoved;
    var gone := Closure(db, k);
    var after := Without(db, gone);
    NulledIsUnmoved(db, db[x], gone);
    if Holder(db[x]).Some? {
      var h := Holder(db[x]).value;
      HolderExists(db, x);
      if h in gone {
        ClosureStep(db, k, h, x);
      }
      NulledIsUnmoved(db, db[h], gone);
      SameHolderSameOwner(db, after, after[h]);
    }
    SameHolderSameOwner(db, after, after[x]);
  }

  lemma DeleteDisturbsNone(db: Rows, k: Key, tenant: Id)
    requires Consistent(db) && k in db && Owner(db, db[k]) != Some(tenant)
    ensures Undisturbed(db, Without(db, Closure(db, k)), tenant)
  {
    hide Consistent, Owner, Edge, KeyOf, Holder, SameTable, Closure, Nulled;
    var gone := Closure(db, k);
    var after := Without(db, gone);
    KeyedOf(db);
    ClosureKeepsOwner(db, k);
    forall x | x in after ensures Owner(after, after[x]) == Owner(db, db[x]) && Unmoved(db[x], after[x]) {
      KeptOwner(db, k, x);
    }
  }

  lemma NewRowKeepsOwner(db: Rows, k: Key, row: Row)
    requires Consistent(db) && k in db && SameTable(k, KeyOf(row)) && Consistent(Updated(db, k, row))
    ensures Owner(Updated(db, k, row), row) == Owner(db, row)
  {
    hide Consistent, Edge;
    var after := Updated(db, k, row);
    assert after[KeyOf(row)] == row;
    if Holder(row).Some? {
      HolderExists(after, KeyOf(row));
      SameHolderSameOwner(db, after, after[Holder(row).value]);
    }
    SameHolderSameOwner(db, after, row);
  }

  lemma OtherRowKeepsOwner(db: Rows, k: Key, row: Row, tenant: Id, x: Key)
    requires Consistent(db) && k in db && SameTable(k, KeyOf(row)) && (KeyOf(row) == k || KeyOf(row) !in db)
    requires Consistent(Updated(db, k, row)) && Owner(db, db[k]) != Some(tenant) && Owner(db, row) != Some(tenant)
    requires x in Updated(db, k, row) && x != KeyOf(row)
    ensures Owner(Updated(db, k, row), Updated(db, k, row)[x]) == Some(tenant) <==> Owner(db, db[x]) == Some(tenant)
  {
    hide Consistent, Owner, Edge, KeyOf, Holder, SameTable;
    var after := Updated(db, k, row);
    assert x in db && after[x] == db[x];
    if Holder(db[x]).Some? {
      var h := Holder(db[x]).value;
      HolderExists(db, x);
      HolderExists(after, x);
      if h == KeyOf(row) {
        NewRowKeepsOwner(db, k, row);
      } else {
        SameHolderSameOwner(db, after, db[h]);
      }
    } else {
      SameHolderSameOwner(db, after, db[x]);
    }
  }

  lemma UpdateDisturbsNone(db: Rows, k: Key, row: Row, tenant: Id)
    requires Consistent(db) && k in db && SameTable(k, KeyOf(row)) && (KeyOf(row) == k || KeyOf(row) !in db)
    requires Consistent(Updated(db, k, row)) && Owner(db, db[k]) != Some(tenant) && Owner(db, row) != Some(tenant)
    ensures Undisturbed(db, Updated(db, k, row), tenant)
  {
    hide Consistent, Owner, Edge, KeyOf, Holder, SameTable;
    var after := Updated(db, k, row);
    forall x | x in after && x != KeyOf(row)
      ensures Owner(after, after[x]) == Some(tenant) <==> Owner(db, db[x]) == Some(tenant)
    {
      OtherRowKeepsOwner(db, k, row, tenant, x);
    }
    NewRowKeepsOwner(db, k, row);
  }

  /** A statement that names no row of a tenant leaves the tenant with exactly the rows it had, and those
      unchanged but for references that a delete sets to null. */
  lemma RowIsolation(db: Rows, s: Statement, tenant: Id)
    requires Consistent(db) && Spares(db, s, tenant)
    ensures Undisturbed(db, Execute(db, s), tenant)
  {
    hide Consistent, Closure, Without, Inserted, Updated, Owner, DeleteRefused;
    if Apply(db, s).Some? {
      match s {
        case Insert(row) => InsertDisturbsNone(db, row, tenant);
        case Update(k, row) =>
          if k in db {
            UpdateDisturbsNone(db, k, row, tenant);
          }
        case Delete(k) =>
          if k in db {
            DeleteDisturbsNone(db, k, tenant);
          }
      }
    }
  }

  lemma UndisturbedTwice(x: Rows, y: Rows, z: Rows, tenant: Id)
    requires Undisturbed(x, y, tenant) && Undisturbed(y, z, tenant)
    ensures Undisturbed(x, z, tenant)
  {
    hide Owner;
    forall k | k in OwnedBy(x, Some(tenant)) ensures Unmoved(x[k], z[k]) {
      assert k in OwnedBy(y, Some(tenant));
    }
  }

  lemma {:induction false} AttemptDisturbsNone(db: Rows, ss: seq<Statement>, tenant: Id)
    requires Consistent(db) && AllSpare(db, ss, tenant) && Attempt(db, ss).Some?
    ensures Undisturbed(db, Attempt(db, ss).value, tenant)
    decreases ss
  {
    hide Consistent, Apply, Owner, Spares;
    if ss != [] {
      RowIsolation(db, ss[0], tenant);
      ApplyKeepsConsistent(db, ss[0]);
      AttemptDisturbsNone(Execute(db, ss[0]), ss[1..], tenant);
      UndisturbedTwice(db, Execute(db, ss[0]), Attempt(db, ss).value, tenant);
    }
  }

  /** The same over whole runs of transactions. */
  lemma {:induction false} RowIsolationInRuns(db: Rows, txns: seq<seq<Statement>>, tenant: Id)
    requires Consistent(db) && RunSpares(db, txns, tenant)
    ensures Undisturbed(db, Run(db, txns), tenant)
    decreases txns
  {
    hide Consistent, Attempt, Owner, AllSpare;
    if txns != [] {
      if Attempt(db, txns[0]).Some? {
        AttemptDisturbsNone(db, txns[0], tenant);
      }
      AttemptKeepsConsistent(db, txns[0]);
      RowIsolationInRuns(Commit(db, txns[0]), txns[1..], tenant);
      UndisturbedTwice(db, Commit(db, txns[0]), Run(db, txns), tenant);
    }
  }

  // ----- deleting a tenant --------------------------------------------------------------------

  predicate HasUsers(db: Rows, tenant: Id) {
    exists k <- db :: db[k].User? && db[k].tenant == tenant
  }

  /** A tenant can be deleted exactly when no user row names it, soft-deleted ones included. */
  lemma TenantDelete(db: Rows, tenant: Id)
    requires Consistent(db) && TenantKey(tenant) in db
    ensures Apply(db, Delete(TenantKey(tenant))).Some? <==> !HasUsers(db, tenant)
  {
    hide Unique, EntryOf, NoDangling, DeleteRefused, Closure;
    var k := TenantKey(tenant);
    RefusedExactlyAtRoot(db, k);
    assert KeyOf(db[k]) == k;
    if Restricted(db, k) {
      var c, fk: Fk :| c in db && Action(fk) == Restrict && Points(fk, db[c], db[k]);
      assert db[c].User? && db[c].tenant == tenant;
    }
    if HasUsers(db, tenant) {
      var c :| c in db && db[c].User? && db[c].tenant == tenant;
      assert Points(UsersTenant, db[c], db[k]) && Action(UsersTenant) == Restrict;
      assert Restricted(db, k);
    }
  }

  predicate NeedsUser(row: Row) {
    row.User? || row.UserRole? || row.RefreshToken? || row.VerificationToken?
  }

  lemma OwnerOfTenant(db: Rows, tenant: Id)
    requires Keyed(db) && TenantKey(tenant) in db
    ensures Owner(db, db[TenantKey(tenant)]) == Some(tenant)
  {
  }

  lemma OwnedNeedsNoUser(db: Rows, tenant: Id, x: Key)
    requires Consistent(db) && !HasUsers(db, tenant) && x in OwnedBy(db, Some(tenant))
    ensures !NeedsUser(db[x])
  {
    hide Unique, EntryOf, NoDangling;
    if db[x].UserRole? {
      GrantsAreLocal(db, x);
    }
  }

  lemma RoleIsReached(db: Rows, tenant: Id, x: Key)
    requires Keyed(db) && TenantKey(tenant) in db && x in db && db[x].Role? && db[x].tenant == tenant
    ensures x in Closure(db, TenantKey(tenant))
  {
    hide Closure;
    var k := TenantKey(tenant);
    ClosureHasRoot(db, k);
    assert KeyOf(db[k]) == k;
    assert Points(RolesTenant, db[x], db[k]);
    ClosureStep(db, k, k, x);
  }

  lemma ClientIsReached(db: Rows, tenant: Id, x: Key)
    requires Keyed(db) && TenantKey(tenant) in db && x in db && db[x].OauthClient? && db[x].owner == Some(tenant)
    ensures x in Closure(db, TenantKey(tenant))
  {
    hide Closure;
    var k := TenantKey(tenant);
    ClosureHasRoot(db, k);
    assert KeyOf(db[k]) == k;
    assert Points(ClientsTenant, db[x], db[k]);
    ClosureStep(db, k, k, x);
  }

  lemma OwnedIsReached(db: Rows, tenant: Id, x: Key)
    requires Consistent(db) && TenantKey(tenant) in db && !HasUsers(db, tenant) && x in OwnedBy(db, Some(tenant))
    ensures x in Closure(db, TenantKey(tenant)) && !NeedsUser(db[x])
  {
    hide Unique, EntryOf, NoDangling, Closure;
    var k := TenantKey(tenant);
    ClosureHasRoot(db, k);
    OwnedNeedsNoUser(db, tenant, x);
    assert KeyOf(db[k]) == k && KeyOf(db[x]) == x;
    match db[x] {
      case Tenant(_, _) =>
      case Role(_, _, _, _) =>
        RoleIsReached(db, tenant, x);
      case RoleScope(role, _) =>
        assert KeyOf(db[RoleKey(role)]) == RoleKey(role);
        RoleIsReached(db, tenant, RoleKey(role));
        assert Points(RoleScopesRole, db[x], db[RoleKey(role)]);
        ClosureStep(db, k, RoleKey(role), x);
      case OauthClient(_, _, _) =>
        ClientIsReached(db, tenant, x);
      case OauthClientSecret(_, client) =>
        assert KeyOf(db[ClientKey(client)]) == ClientKey(client);
        ClientIsReached(db, tenant, ClientKey(client));
        assert Points(SecretsClient, db[x], db[ClientKey(client)]);
        ClosureStep(db, k, ClientKey(client), x);
    }
  }

  /** What goes with it is exactly what it owns, and that holds no user, grant or token: with no users
      the tenant has no grants, because a grant names a user of its own tenant. */
  lemma TenantDeleteRemoves(db: Rows, tenant: Id)
    requires Consistent(db) && TenantKey(tenant) in db && !HasUsers(db, tenant)
    ensures Closure(db, TenantKey(tenant)) == OwnedBy(db, Some(tenant))
    ensures forall x | x in Closure(db, TenantKey(tenant)) ::
              !db[x].User? && !db[x].UserRole? && !db[x].RefreshToken? && !db[x].VerificationToken?
  {
    hide Consistent, Closure, Owner;
    var k := TenantKey(tenant);
    KeyedOf(db);
    assert KeyOf(db[k]) == k;
    OwnerOfTenant(db, tenant);
    ClosureKeepsOwner(db, k);
    forall x | x in OwnedBy(db, Some(tenant)) ensures x in Closure(db, k) && !NeedsUser(db[x]) {
      OwnedIsReached(db, tenant, x);
    }
  }

  // ----- the scope catalogue ------------------------------------------------------------------

  /** No effective scope is outside the catalogue. */
  lemma ScopesAreCatalogued(db: Rows, user: Id, scope: string)
    requires Consistent(db) && scope in EffectiveScopes(db, user)
    ensures ScopeKey(scope) in db
  {
    hide Unique, EntryOf;
    var k :| k in db && k.RoleScopeKey? && UserRoleKey(user, k.role) in db && k.scope == scope;
    assert KeyOf(db[k]) == k;
    assert FkHolds(db, RoleScopesScope, db[k]);
  }

  lemma ScopesAreCataloguedInEveryRun(db: Rows, txns: seq<seq<Statement>>, user: Id, scope: string)
    requires Consistent(db) && scope in EffectiveScopes(Run(db, txns), user)
    ensures ScopeKey(scope) in Run(db, txns)
  {
    hide Consistent, Run, EffectiveScopes;
    RunKeepsConsistent(db, txns);
    ScopesAreCatalogued(Run(db, txns), user, scope);
  }

  predicate IsGranted(db: Rows, scope: string) {
    exists k <- db :: k.RoleScopeKey? && k.scope == scope
  }

  lemma ScopeClosure(db: Rows, scope: string)
    requires Keyed(db) && ScopeKey(scope) in db
    ensures Closure(db, ScopeKey(scope)) <= {ScopeKey(scope)}
  {
    hide Closure;
    var k := ScopeKey(scope);
    forall y ensures !Edge(db, k, y) {
      assert KeyOf(db[k]) == k;
    }
    ClosureIsLeast(db, k, {k});
  }

  /** A scope can be deleted exactly when no role grants it, and then nobody's effective scopes change. */
  lemma ScopeDelete(db: Rows, scope: string, user: Id)
    requires Consistent(db) && ScopeKey(scope) in db
    ensures Apply(db, Delete(ScopeKey(scope))).Some? <==> !IsGranted(db, scope)
    ensures EffectiveScopes(Execute(db, Delete(ScopeKey(scope))), user) == EffectiveScopes(db, user)
  {
    hide Unique, EntryOf, NoDangling, DeleteRefused, Closure, EffectiveScopes;
    var k := ScopeKey(scope);
    RefusedExactlyAtRoot(db, k);
    assert KeyOf(db[k]) == k;
    if Restricted(db, k) {
      var c, fk: Fk :| c in db && Action(fk) == Restrict && Points(fk, db[c], db[k]);
      assert KeyOf(db[c]) == c;
    }
    if IsGranted(db, scope) {
      var c :| c in db && c.RoleScopeKey? && c.scope == scope;
      assert KeyOf(db[c]) == c;
      assert Points(RoleScopesScope, db[c], db[k]) && Action(RoleScopesScope) == Restrict;
      assert Restricted(db, k);
    }
    ScopeClosure(db, scope);
    SameGrantsSameScopes(db, Without(db, Closure(db, k)), user);
  }
}
