/** Inserts and deletes table by table, told on rows alone: when each is accepted and what is left after it.
    Foreign keys, their actions and index entries are not mentioned in what is stated, so this is what the
    declarations of `Schema` come to for a caller. */
module RowRules {
  import opened Wrappers
  import opened Schema
  import opened Cascade
  import opened Database
  import opened Accounts

  // ----- inserts ------------------------------------------------------------------------------

  /** The rows that a row needs to be there. A grant needs a user and a role of the tenant it names. */
  predicate NeedsAreMet(db: Rows, row: Row) {
    match row
    case User(_, tenant, _, _, _) => TenantKey(tenant) in db
    case Role(_, tenant, _, template) =>
      TenantKey(tenant) in db && (template.Some? ==> TemplateKey(template.value) in db)
    case RoleScope(role, scope) => RoleKey(role) in db && ScopeKey(scope) in db
    case UserRole(user, role, tenant) =>
      && UserKey(user) in db && db[UserKey(user)].User? && db[UserKey(user)].tenant == tenant
      && RoleKey(role) in db && db[RoleKey(role)].Role? && db[RoleKey(role)].tenant == tenant
    case RefreshToken(id, _, user, _, _, parent, _) =>
      UserKey(user) in db && (parent.Some? ==> parent.value == id || TokenKey(parent.value) in db)
    case OauthClient(_, _, owner) => owner.Some? ==> TenantKey(owner.value) in db
    case OauthClientSecret(_, client) => ClientKey(client) in db
    case VerificationToken(_, user, _, _) => UserKey(user) in db
    case Tenant(_, _) | RoleTemplate(_) | Scope(_) | SigningKey(_, _) => true
  }

  /** Do the two rows claim something that only one row may have? */
  predicate Collide(row: Row, other: Row) {
    match (row, other)
    case (Tenant(_, slug), Tenant(_, slug')) => slug == slug'
    case (User(_, tenant, _, email, deletedAt), User(_, tenant', _, email', deletedAt')) =>
      tenant == tenant' && email == email' && deletedAt.None? && deletedAt'.None?
    case (Role(_, tenant, key, _), Role(_, tenant', key', _)) => tenant == tenant' && key == key'
    case (RefreshToken(_, _, _, _, hash, _, _), RefreshToken(_, _, _, _, hash', _, _)) => hash == hash'
    case (OauthClient(_, clientId, _), OauthClient(_, clientId', _)) => clientId == clientId'
    case (SigningKey(_, status), SigningKey(_, status')) => status == Active && status' == Active
    case (VerificationToken(_, _, _, hash), VerificationToken(_, _, _, hash')) => hash == hash'
    case _ => false
  }

  lemma CollideIsSameEntry(row: Row, other: Row)
    ensures Collide(row, other) <==> EntryOf(row).Some? && EntryOf(other) == EntryOf(row)
  {
  }

  /** The key that a row is found under. */
  lemma RowAt(db: Rows, k: Key)
    requires Keyed(db) && k in db
    ensures match k
      case TenantKey(id) => db[k].Tenant? && db[k].id == id
      case TemplateKey(key) => db[k] == RoleTemplate(key)
      case ScopeKey(key) => db[k] == Scope(key)
      case UserKey(id) => db[k].User? && db[k].id == id
      case RoleKey(id) => db[k].Role? && db[k].id == id
      case RoleScopeKey(role, scope) => db[k] == RoleScope(role, scope)
      case UserRoleKey(user, role) => db[k].UserRole? && db[k].user == user && db[k].role == role
      case TokenKey(id) => db[k].RefreshToken? && db[k].id == id
      case ClientKey(id) => db[k].OauthClient? && db[k].id == id
      case SecretKey(id) => db[k].OauthClientSecret? && db[k].id == id
      case KidKey(kid) => db[k].SigningKey? && db[k].kid == kid
      case VerificationKey(id) => db[k].VerificationToken? && db[k].id == id
  {
    assert KeyOf(db[k]) == k;
  }

  lemma HeldReference(after: Rows, row: Row, fk: Fk)
    requires RowHolds(after, row)
    ensures FkHolds(after, fk, row)
  {
  }

  lemma HeldGrant(db: Rows, row: Row)
    requires row.UserRole? && KeyOf(row) !in db && RowHolds(Inserted(db, row), row)
    ensures NeedsAreMet(db, row)
  {
    hide RowHolds;
    HeldReference(Inserted(db, row), row, UserRolesUserTenant);
    HeldReference(Inserted(db, row), row, UserRolesRoleTenant);
  }

  lemma HeldNeeds(db: Rows, row: Row)
    requires KeyOf(row) !in db && RowHolds(Inserted(db, row), row)
    ensures NeedsAreMet(db, row)
  {
    hide RowHolds, Satisfies;
    var after := Inserted(db, row);
    match row {
      case User(_, _, _, _, _) => HeldReference(after, row, UsersTenant);
      case Role(_, _, _, _) =>
        HeldReference(after, row, RolesTenant);
        HeldReference(after, row, RolesTemplate);
      case RoleScope(_, _) =>
        HeldReference(after, row, RoleScopesRole);
        HeldReference(after, row, RoleScopesScope);
      case UserRole(_, _, _) => HeldGrant(db, row);
      case RefreshToken(_, _, _, _, _, _, _) =>
        HeldReference(after, row, TokensUser);
        HeldReference(after, row, TokensParent);
      case OauthClient(_, _, _) => HeldReference(after, row, ClientsTenant);
      case OauthClientSecret(_, _) => HeldReference(after, row, SecretsClient);
      case VerificationToken(_, _, _, _) => HeldReference(after, row, VerificationUser);
      case _ =>
    }
  }

  lemma MetReference(db: Rows, row: Row, fk: Fk)
    requires Keyed(db) && KeyOf(row) !in db && NeedsAreMet(db, row)
    ensures FkHolds(Inserted(db, row), fk, row)
  {
    var target := Reference(fk, row);
    if target.Some? && target.value.key in db {
      RowAt(db, target.value.key);
    }
  }

  lemma NeedsAreReferences(db: Rows, row: Row)
    requires Keyed(db) && KeyOf(row) !in db
    ensures RowHolds(Inserted(db, row), row) <==> NeedsAreMet(db, row)
  {
    hide NeedsAreMet, FkHolds, Keyed, KeyOf;
    var after := Inserted(db, row);
    if RowHolds(after, row) {
      HeldNeeds(db, row);
    }
    if NeedsAreMet(db, row) {
      forall fk: Fk ensures FkHolds(after, fk, row) {
        MetReference(db, row, fk);
      }
    }
  }

  /** An insert is accepted exactly when its key is unused, the rows it needs are there, and no row has what
      only one may have. */
  lemma InsertIsAccepted(db: Rows, row: Row)
    requires Consistent(db)
    ensures Apply(db, Insert(row)).Some? <==>
      KeyOf(row) !in db && NeedsAreMet(db, row) && forall k <- db :: !Collide(row, db[k])
  {
    hide Consistent, EntryOf, KeyOf, IndexFree, ScanIndex, Inserted, RowHolds, NeedsAreMet, Collide;
    UniqueOf(db);
    if KeyOf(row) !in db {
      IndexIsScan(db, ScanIndex(db));
      InsertCheck(db, ScanIndex(db), row);
      FreshEntry(db, row);
      NeedsAreReferences(db, row);
      forall k | k in db ensures Collide(row, db[k]) <==> EntryOf(row).Some? && EntryOf(db[k]) == EntryOf(row) {
        CollideIsSameEntry(row, db[k]);
      }
    }
  }

  // ----- updates ------------------------------------------------------------------------------

  /** Are the two rows of one table? */
  predicate SameKind(row: Row, other: Row) {
    && row.Tenant? == other.Tenant? && row.RoleTemplate? == other.RoleTemplate? && row.Scope? == other.Scope?
    && row.User? == other.User? && row.Role? == other.Role? && row.RoleScope? == other.RoleScope?
    && row.UserRole? == other.UserRole? && row.RefreshToken? == other.RefreshToken?
    && row.OauthClient? == other.OauthClient? && row.OauthClientSecret? == other.OauthClientSecret?
    && row.SigningKey? == other.SigningKey? && row.VerificationToken? == other.VerificationToken?
  }

  /** Does the row name the one at `k`? */
  predicate Names(row: Row, k: Key) {
    match k
    case TenantKey(tenant) =>
      (row.User? && row.tenant == tenant) || (row.Role? && row.tenant == tenant)
      || (row.OauthClient? && row.owner == Some(tenant))
    case TemplateKey(key) => row.Role? && row.template == Some(key)
    case ScopeKey(scope) => row.RoleScope? && row.scope == scope
    case UserKey(user) =>
      (row.UserRole? && row.user == user) || (row.RefreshToken? && row.user == user)
      || (row.VerificationToken? && row.user == user)
    case RoleKey(role) => (row.RoleScope? && row.role == role) || (row.UserRole? && row.role == role)
    case TokenKey(id) => row.RefreshToken? && row.parent == Some(id)
    case ClientKey(client) => row.OauthClientSecret? && row.client == client
    case _ => false
  }

  /** The reference through which a row names the one at `k`. */
  function NamingFk(row: Row, k: Key): Fk {
    match k
    case TenantKey(_) => if row.User? then UsersTenant else if row.Role? then RolesTenant else ClientsTenant
    case TemplateKey(_) => RolesTemplate
    case ScopeKey(_) => RoleScopesScope
    case UserKey(_) => if row.UserRole? then UserRolesUserTenant else if row.RefreshToken? then TokensUser else VerificationUser
    case RoleKey(_) => if row.RoleScope? then RoleScopesRole else UserRolesRoleTenant
    case TokenKey(_) => TokensParent
    case _ => SecretsClient
  }

  lemma NamesRefers(row: Row, k: Key)
    requires Names(row, k)
    ensures Reference(NamingFk(row, k), row).Some? && Reference(NamingFk(row, k), row).value.key == k
  {
  }

  lemma RefersNames(row: Row, k: Key, fk: Fk)
    requires Reference(fk, row).Some? && Reference(fk, row).value.key == k
    ensures Names(row, k)
  {
  }

  lemma NamesIsReference(row: Row, k: Key)
    ensures Names(row, k) <==> exists fk: Fk :: Reference(fk, row).Some? && Reference(fk, row).value.key == k
  {
    hide Names, Reference, NamingFk;
    if Names(row, k) {
      NamesRefers(row, k);
    }
    if fk: Fk :| Reference(fk, row).Some? && Reference(fk, row).value.key == k {
      RefersNames(row, k, fk);
    }
  }

  /** The rows that name the one at `k` can live with `row` in its place: none does if the key changes, and no
      grant does if a user or role changes its tenant. */
  predicate NamersAgree(db: Rows, k: Key, row: Row)
    requires k in db
  {
    && (KeyOf(row) != k ==> forall c <- db | c != k :: !Names(db[c], k))
    && ((row.User? && db[k].User? && row.tenant != db[k].tenant) || (row.Role? && db[k].Role? && row.tenant != db[k].tenant) ==>
          forall c <- db | c != k :: !(db[c].UserRole? && Names(db[c], k)))
  }

  lemma KindIsTable(db: Rows, k: Key, row: Row)
    requires Keyed(db) && k in db
    ensures SameTable(k, KeyOf(row)) <==> SameKind(row, db[k])
  {
    RowAt(db, k);
  }

  lemma NamerHolds(db: Rows, k: Key, row: Row, c: Key, fk: Fk)
    requires Consistent(db) && k in db && SameKind(row, db[k]) && (KeyOf(row) == k || KeyOf(row) !in db)
    requires c in db && c != k && NamersAgree(db, k, row) && Points(fk, db[c], db[k])
    ensures FkHolds(Updated(db, k, row), fk, db[c])
  {
    hide NoDangling, Unique, EntryOf, Names;
    assert KeyOf(db[k]) == k;
    NamesIsReference(db[c], k);
    assert Updated(db, k, row)[KeyOf(row)] == row;
  }

  lemma BrokenReference(db: Rows, k: Key, row: Row, c: Key, fk: Fk)
    requires k in db && SameKind(row, db[k]) && c in db && c != k
    requires Reference(fk, db[c]).Some? && Reference(fk, db[c]).value.key == k && FkHolds(db, fk, db[c])
    requires KeyOf(row) != k || (db[c].UserRole? && ((row.User? && row.tenant != db[k].tenant) || (row.Role? && row.tenant != db[k].tenant)))
    ensures !FkHolds(Updated(db, k, row), fk, db[c])
  {
  }

  lemma NamerBreaks(db: Rows, k: Key, row: Row, c: Key) returns (fk: Fk)
    requires Consistent(db) && k in db && SameKind(row, db[k]) && c in db && c != k && Names(db[c], k)
    requires KeyOf(row) != k || (db[c].UserRole? && ((row.User? && row.tenant != db[k].tenant) || (row.Role? && row.tenant != db[k].tenant)))
    requires KeyOf(row) == k || KeyOf(row) !in db
    ensures Points(fk, db[c], db[k]) && !FkHolds(Updated(db, k, row), fk, db[c])
  {
    hide Unique, EntryOf, Names, KeyOf;
    NamesIsReference(db[c], k);
    fk :| Reference(fk, db[c]).Some? && Reference(fk, db[c]).value.key == k;
    assert FkHolds(db, fk, db[c]);
    BrokenReference(db, k, row, c, fk);
  }

  lemma OffendingNamer(db: Rows, k: Key, row: Row) returns (c: Key)
    requires k in db && !NamersAgree(db, k, row)
    ensures c in db && c != k && Names(db[c], k)
    ensures KeyOf(row) != k || (db[c].UserRole? && ((row.User? && db[k].User? && row.tenant != db[k].tenant) || (row.Role? && db[k].Role? && row.tenant != db[k].tenant)))
  {
    hide Names, KeyOf;
    if KeyOf(row) != k && exists d <- db :: d != k && Names(db[d], k) {
      c :| c in db && c != k && Names(db[c], k);
    } else {
      c :| c in db && c != k && db[c].UserRole? && Names(db[c], k);
    }
  }

  lemma NamersAreReferrers(db: Rows, k: Key, row: Row)
    requires Consistent(db) && k in db && SameKind(row, db[k]) && (KeyOf(row) == k || KeyOf(row) !in db)
    ensures ReferrersHold(db, k, Updated(db, k, row)) <==> NamersAgree(db, k, row)
  {
    hide Consistent, Names, KeyOf, Points, FkHolds, Updated;
    if NamersAgree(db, k, row) {
      forall c, fk: Fk | c in db && c != k && Points(fk, db[c], db[k]) ensures FkHolds(Updated(db, k, row), fk, db[c]) {
        NamerHolds(db, k, row, c, fk);
      }
    } else {
      var c := OffendingNamer(db, k, row);
      var fk := NamerBreaks(db, k, row, c);
    }
  }

  lemma UpdatedNeeds(db: Rows, k: Key, row: Row)
    requires Keyed(db) && k in db && SameKind(row, db[k]) && (KeyOf(row) == k || KeyOf(row) !in db)
    ensures RowHolds(Updated(db, k, row), row) <==> NeedsAreMet(db - {k}, row)
  {
    hide NeedsAreMet, RowHolds, KeyOf;
    NeedsAreReferences(db - {k}, row);
    assert Updated(db, k, row) == Inserted(db - {k}, row);
  }

  /** An update is accepted exactly when the row stays in its table, its key is its own or unused, the other
      rows it needs are there, no other row has what only one may have, and the rows that name the old one
      can live with the new. Then the new row is in place of the old, and nothing else changes. An update
      that finds no row is accepted and changes nothing. */
  lemma UpdateIsAccepted(db: Rows, k: Key, row: Row)
    requires Consistent(db)
    ensures k !in db ==> Apply(db, Update(k, row)) == Some(db)
    ensures k in db ==>
      (Apply(db, Update(k, row)).Some? <==>
        && SameKind(row, db[k]) && (KeyOf(row) == k || KeyOf(row) !in db) && NeedsAreMet(db - {k}, row)
        && (forall j <- db | j != k :: !Collide(row, db[j])) && NamersAgree(db, k, row))
    ensures k in db && Apply(db, Update(k, row)).Some? ==>
      var after := Execute(db, Update(k, row));
      && KeyOf(row) in after && after[KeyOf(row)] == row
      && forall x | x != KeyOf(row) :: (x in after <==> x in db && x != k) && (x in after ==> after[x] == db[x])
  {
    hide Consistent, EntryOf, KeyOf, IndexFree, IndexRemove, ScanIndex, RowHolds, NeedsAreMet, Collide, SameKind, SameTable;
    hide NamersAgree, ReferrersHold;
    UniqueOf(db);
    if k in db {
      KindIsTable(db, k, row);
      if SameKind(row, db[k]) && (KeyOf(row) == k || KeyOf(row) !in db) {
        IndexIsScan(db, ScanIndex(db));
        UpdateCheck(db, ScanIndex(db), k, row);
        EntryTaken(db, k, row);
        UpdatedNeeds(db, k, row);
        NamersAreReferrers(db, k, row);
        forall j | j in db ensures Collide(row, db[j]) <==> EntryOf(row).Some? && EntryOf(db[j]) == EntryOf(row) {
          CollideIsSameEntry(row, db[j]);
        }
      }
    }
  }

  // ----- deletes ------------------------------------------------------------------------------

  predicate IsRoleOf(db: Rows, role: Id, tenant: Id) {
    RoleKey(role) in db && db[RoleKey(role)].Role? && db[RoleKey(role)].tenant == tenant
  }

  predicate IsClientOf(db: Rows, client: Id, tenant: Id) {
    ClientKey(client) in db && db[ClientKey(client)].OauthClient? && db[ClientKey(client)].owner == Some(tenant)
  }

  /** The rows that a delete takes along: with a user its grants and tokens; with a role its scopes and
      grants; with a client its secrets; with a tenant its roles, their scopes, its clients and their
      secrets. Everything else goes alone. */
  predicate GoesAlong(db: Rows, k: Key, row: Row) {
    match k
    case UserKey(user) =>
      (row.UserRole? && row.user == user) || (row.RefreshToken? && row.user == user)
      || (row.VerificationToken? && row.user == user)
    case RoleKey(role) => (row.RoleScope? && row.role == role) || (row.UserRole? && row.role == role)
    case ClientKey(client) => row.OauthClientSecret? && row.client == client
    case TenantKey(tenant) =>
      (row.Role? && row.tenant == tenant) || (row.RoleScope? && IsRoleOf(db, row.role, tenant))
      || (row.OauthClient? && row.owner == Some(tenant)) || (row.OauthClientSecret? && IsClientOf(db, row.client, tenant))
    case _ => false
  }

  predicate Goes(db: Rows, k: Key, x: Key) {
    x in db && (x == k || GoesAlong(db, k, db[x]))
  }

  /** A tenant waits for its users to go, and a scope for the roles that grant it. */
  predicate IsFree(db: Rows, k: Key) {
    match k
    case TenantKey(tenant) => forall c <- db :: !(db[c].User? && db[c].tenant == tenant)
    case ScopeKey(scope) => forall c <- db :: !(db[c].RoleScope? && db[c].scope == scope)
    case _ => true
  }

  lemma BlocksDelete(db: Rows, k: Key, c: Key, fk: Fk)
    requires k in db && c in db && KeyOf(db[k]) == k && Action(fk) == Restrict && Points(fk, db[c], db[k])
    ensures !IsFree(db, k)
  {
  }

  lemma BlockedIsRestricted(db: Rows, k: Key)
    requires k in db && KeyOf(db[k]) == k && !IsFree(db, k)
    ensures Restricted(db, k)
  {
    hide EntryOf;
    if k.TenantKey? {
      var c :| c in db && db[c].User? && db[c].tenant == k.id;
      assert Points(UsersTenant, db[c], db[k]) && Action(UsersTenant) == Restrict;
    } else {
      var c :| c in db && db[c].RoleScope? && db[c].scope == k.key;
      assert Points(RoleScopesScope, db[c], db[k]) && Action(RoleScopesScope) == Restrict;
    }
  }

  lemma FreeIsUnrestricted(db: Rows, k: Key)
    requires Consistent(db) && k in db
    ensures IsFree(db, k) <==> !Restricted(db, k)
  {
    hide Consistent, IsFree, Points, Action, KeyOf;
    UniqueOf(db);
    assert KeyOf(db[k]) == k;
    if Restricted(db, k) {
      var c, fk: Fk :| c in db && Action(fk) == Restrict && Points(fk, db[c], db[k]);
      BlocksDelete(db, k, c, fk);
    } else if !IsFree(db, k) {
      BlockedIsRestricted(db, k);
    }
  }

  /** A grant of a tenant's role is held by a user of the tenant. */
  lemma GrantHasUser(db: Rows, y: Key)
    requires Consistent(db) && y in db && db[y].UserRole?
    ensures UserKey(db[y].user) in db && db[UserKey(db[y].user)].User? && db[UserKey(db[y].user)].tenant == db[y].tenant
    ensures IsRoleOf(db, db[y].role, db[y].tenant)
  {
    hide Unique, EntryOf;
    assert FkHolds(db, UserRolesUserTenant, db[y]);
    assert FkHolds(db, UserRolesRoleTenant, db[y]);
  }

  lemma PointGoesAlong(db: Rows, k: Key, x: Key, y: Key, fk: Fk)
    requires Consistent(db) && IsFree(db, k) && Goes(db, k, x) && y in db && KeyOf(db[x]) == x
    requires Action(fk) == Cascade && Points(fk, db[y], db[x])
    ensures Goes(db, k, y)
  {
    hide Consistent;
    if db[y].UserRole? {
      GrantHasUser(db, y);
    }
  }

  /** Cascades lead nowhere else. */
  lemma EdgeGoesAlong(db: Rows, k: Key, x: Key, y: Key)
    requires Consistent(db) && IsFree(db, k) && Goes(db, k, x) && Edge(db, x, y)
    ensures Goes(db, k, y)
  {
    hide Unique, EntryOf, NoDangling, Points;
    var fk: Fk :| Action(fk) == Cascade && Points(fk, db[y], db[x]);
    assert KeyOf(db[x]) == x && KeyOf(db[y]) == y;
    PointGoesAlong(db, k, x, y, fk);
  }

  lemma CascadeActions()
    ensures Action(UserRolesUserTenant) == Action(UserRolesRoleTenant) == Action(TokensUser) == Action(VerificationUser) == Cascade
    ensures Action(RolesTenant) == Action(ClientsTenant) == Action(RoleScopesRole) == Action(SecretsClient) == Cascade
  {
  }

  lemma StepIsReached(db: Rows, k: Key, x: Key, y: Key, fk: Fk)
    requires x in Closure(db, k) && x in db && y in db && Action(fk) == Cascade && Points(fk, db[y], db[x])
    ensures y in Closure(db, k)
  {
    hide Closure;
    ClosureStep(db, k, x, y);
  }

  /** The reference through which a row hangs on the row that it goes along with. */
  function LinkOf(k: Key, row: Row): Fk {
    match row
    case UserRole(_, _, _) => if k.UserKey? then UserRolesUserTenant else UserRolesRoleTenant
    case RefreshToken(_, _, _, _, _, _, _) => TokensUser
    case VerificationToken(_, _, _, _) => VerificationUser
    case Role(_, _, _, _) => RolesTenant
    case RoleScope(_, _) => RoleScopesRole
    case OauthClient(_, _, _) => ClientsTenant
    case _ => SecretsClient
  }

  lemma LinkPoints(db: Rows, k: Key, row: Row, top: Row)
    requires KeyOf(top) == k && GoesAlong(db, k, row) && !(k.TenantKey? && (row.RoleScope? || row.OauthClientSecret?))
    requires row.UserRole? ==> (top.User? || top.Role?) && top.tenant == row.tenant
    ensures Points(LinkOf(k, row), row, top)
  {
  }

  /** Of what goes with a tenant, the scopes of its roles and the secrets of its clients hang on those. */
  lemma GoesOverLink(db: Rows, k: Key, x: Key)
    requires Consistent(db) && k in db && Goes(db, k, x) && x != k
    ensures !(k.TenantKey? && (db[x].RoleScope? || db[x].OauthClientSecret?)) ==> Points(LinkOf(k, db[x]), db[x], db[k])
  {
    hide Consistent, LinkOf, Points;
    UniqueOf(db);
    assert KeyOf(db[k]) == k;
    if db[x].UserRole? {
      GrantHasUser(db, x);
    }
    if !(k.TenantKey? && (db[x].RoleScope? || db[x].OauthClientSecret?)) {
      LinkPoints(db, k, db[x], db[k]);
    }
  }

  lemma LinkCascades(k: Key, row: Row)
    ensures Action(LinkOf(k, row)) == Cascade
  {
  }

  lemma TenantGoesOver(db: Rows, k: Key, x: Key) returns (mid: Key)
    requires Keyed(db) && k in db && Goes(db, k, x) && k.TenantKey? && (db[x].RoleScope? || db[x].OauthClientSecret?)
    ensures mid in db && Points(if db[x].RoleScope? then RolesTenant else ClientsTenant, db[mid], db[k])
    ensures Points(LinkOf(k, db[x]), db[x], db[mid])
  {
    RowAt(db, k);
    mid := if db[x].RoleScope? then RoleKey(db[x].role) else ClientKey(db[x].client);
    RowAt(db, mid);
  }

  lemma GoesIsReached(db: Rows, k: Key, x: Key)
    requires Consistent(db) && k in db && Goes(db, k, x)
    ensures x in Closure(db, k)
  {
    hide Consistent, Closure, Action, Points, GoesAlong, LinkOf;
    ClosureHasRoot(db, k);
    UniqueOf(db);
    CascadeActions();
    if x != k {
      GoesOverLink(db, k, x);
      LinkCascades(k, db[x]);
      if k.TenantKey? && (db[x].RoleScope? || db[x].OauthClientSecret?) {
        var mid := TenantGoesOver(db, k, x);
        StepIsReached(db, k, k, mid, if db[x].RoleScope? then RolesTenant else ClientsTenant);
        StepIsReached(db, k, mid, x, LinkOf(k, db[x]));
      } else {
        StepIsReached(db, k, k, x, LinkOf(k, db[x]));
      }
    }
  }

  lemma ClosureIsWhatGoes(db: Rows, k: Key)
    requires Consistent(db) && k in db && IsFree(db, k)
    ensures forall x :: x in Closure(db, k) <==> Goes(db, k, x)
  {
    hide Consistent, Closure, GoesAlong, IsFree, Edge;
    var s := set x | x in db && Goes(db, k, x);
    forall x, y | x in s && Edge(db, x, y) ensures y in s {
      EdgeGoesAlong(db, k, x, y);
    }
    ClosureIsLeast(db, k, s);
    forall x | Goes(db, k, x) ensures x in Closure(db, k) {
      GoesIsReached(db, k, x);
    }
  }

  /** A row that stays, with a reference to what is gone set to null. */
  function Kept(after: Rows, k: Key, row: Row): Row {
    match row
    case Role(id, tenant, key, Some(template)) => if k == TemplateKey(template) then Role(id, tenant, key, None) else row
    case RefreshToken(id, family, user, tenant, hash, Some(parent), usedAt) =>
      if TokenKey(parent) in after then row else RefreshToken(id, family, user, tenant, hash, None, usedAt)
    case _ => row
  }

  lemma ReferencedIsThere(db: Rows, x: Key)
    requires Consistent(db) && x in db
    ensures db[x].RefreshToken? && db[x].parent.Some? ==> TokenKey(db[x].parent.value) in db
    ensures db[x].Role? && db[x].template.Some? ==> TemplateKey(db[x].template.value) in db
  {
    hide Unique, EntryOf;
    assert FkHolds(db, TokensParent, db[x]);
    assert FkHolds(db, RolesTemplate, db[x]);
  }

  lemma NulledIsKept(db: Rows, k: Key, x: Key)
    requires Consistent(db) && k in db && x in db && forall y :: y in Closure(db, k) <==> Goes(db, k, y)
    ensures Nulled(db[x], Closure(db, k)) == Kept(Without(db, Closure(db, k)), k, db[x])
  {
    hide Consistent, Closure;
    UniqueOf(db);
    ReferencedIsThere(db, x);
    if db[x].Role? && db[x].template.Some? {
      RowAt(db, TemplateKey(db[x].template.value));
    }
  }

  /** A delete of a row that is there is accepted exactly when the row is free. Then exactly the rows that go
      along go with it, and the others stay as they are but for references to a row that is gone. A delete
      that finds no row is accepted and changes nothing. */
  lemma DeleteExactly(db: Rows, k: Key)
    requires Consistent(db)
    ensures k !in db ==> Apply(db, Delete(k)) == Some(db)
    ensures k in db ==> (Apply(db, Delete(k)).Some? <==> IsFree(db, k))
    ensures k in db && IsFree(db, k) ==>
      var after := Execute(db, Delete(k));
      && (forall x :: x in after <==> x in db && !Goes(db, k, x))
      && forall x <- after :: after[x] == Kept(after, k, db[x])
  {
    hide Consistent, Closure, DeleteRefused, IsFree, GoesAlong, Nulled, Kept, Restricted;
    if k in db {
      RefusedExactlyAtRoot(db, k);
      FreeIsUnrestricted(db, k);
      if IsFree(db, k) {
        ClosureIsWhatGoes(db, k);
        forall x | x in Execute(db, Delete(k)) ensures Nulled(db[x], Closure(db, k)) == Kept(Execute(db, Delete(k)), k, db[x]) {
          NulledIsKept(db, k, x);
        }
      }
    }
  }
}
