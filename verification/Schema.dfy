/** The tables of the initial migration as rows, and what the database lets them say: primary keys,
    foreign keys with their delete actions, and unique indexes, partial ones included.

    Only the columns that a key, a foreign key or an index reads are kept, and those that a rule about
    them mentions. */
module Schema {
  import opened Wrappers

  type Id = nat

  datatype KeyStatus = Pending | Active | Retiring | Revoked

  datatype Row =
    | Tenant(id: Id, slug: string)
    | RoleTemplate(key: string)
    | Scope(key: string)
    | User(id: Id, tenant: Id, email: string, emailNormalized: string, deletedAt: Option<int>)
    | Role(id: Id, tenant: Id, key: string, template: Option<string>)
    | RoleScope(role: Id, scope: string)
    | UserRole(user: Id, role: Id, tenant: Id)
    | RefreshToken(id: Id, family: Id, user: Id, tenant: Id, hash: string, parent: Option<Id>, usedAt: Option<int>)
    | OauthClient(id: Id, clientId: string, owner: Option<Id>)
    | OauthClientSecret(id: Id, client: Id)
    | SigningKey(kid: string, status: KeyStatus)
    | VerificationToken(id: Id, user: Id, tenant: Id, hash: string)

  /** Primary keys. */
  datatype Key =
    | TenantKey(id: Id)
    | TemplateKey(key: string)
    | ScopeKey(key: string)
    | UserKey(id: Id)
    | RoleKey(id: Id)
    | RoleScopeKey(role: Id, scope: string)
    | UserRoleKey(user: Id, role: Id)
    | TokenKey(id: Id)
    | ClientKey(id: Id)
    | SecretKey(id: Id)
    | KidKey(kid: string)
    | VerificationKey(id: Id)

  function KeyOf(row: Row): Key {
    match row
    case Tenant(id, _) => TenantKey(id)
    case RoleTemplate(key) => TemplateKey(key)
    case Scope(key) => ScopeKey(key)
    case User(id, _, _, _, _) => UserKey(id)
    case Role(id, _, _, _) => RoleKey(id)
    case RoleScope(role, scope) => RoleScopeKey(role, scope)
    case UserRole(user, role, _) => UserRoleKey(user, role)
    case RefreshToken(id, _, _, _, _, _, _) => TokenKey(id)
    case OauthClient(id, _, _) => ClientKey(id)
    case OauthClientSecret(id, _) => SecretKey(id)
    case SigningKey(kid, _) => KidKey(kid)
    case VerificationToken(id, _, _, _) => VerificationKey(id)
  }

  // ----- foreign keys -------------------------------------------------------------------------

  datatype Fk =
    | UsersTenant
    | RolesTenant
    | RolesTemplate
    | RoleScopesRole
    | RoleScopesScope
    | UserRolesUserTenant
    | UserRolesRoleTenant
    | TokensUser
    | TokensParent
    | ClientsTenant
    | SecretsClient
    | VerificationUser

  datatype OnDelete = Cascade | Restrict | SetNull

  function Action(fk: Fk): OnDelete {
    match fk
    case UsersTenant | RoleScopesScope => Restrict
    case RolesTemplate | TokensParent => SetNull
    case RolesTenant | RoleScopesRole | UserRolesUserTenant | UserRolesRoleTenant | TokensUser
       | ClientsTenant | SecretsClient | VerificationUser => Cascade
  }

  /** The columns a foreign key refers to: a primary key, and for the two composite keys a tenant too. */
  datatype Target = Target(key: Key, tenant: Option<Id>)

  /** What `row` refers to through `fk`, if anything. */
  function Reference(fk: Fk, row: Row): Option<Target> {
    match (fk, row)
    case (UsersTenant, User(_, tenant, _, _, _)) => Some(Target(TenantKey(tenant), None))
    case (RolesTenant, Role(_, tenant, _, _)) => Some(Target(TenantKey(tenant), None))
    case (RolesTemplate, Role(_, _, _, Some(template))) => Some(Target(TemplateKey(template), None))
    case (RoleScopesRole, RoleScope(role, _)) => Some(Target(RoleKey(role), None))
    case (RoleScopesScope, RoleScope(_, scope)) => Some(Target(ScopeKey(scope), None))
    case (UserRolesUserTenant, UserRole(user, _, tenant)) => Some(Target(UserKey(user), Some(tenant)))
    case (UserRolesRoleTenant, UserRole(_, role, tenant)) => Some(Target(RoleKey(role), Some(tenant)))
    case (TokensUser, RefreshToken(_, _, user, _, _, _, _)) => Some(Target(UserKey(user), None))
    case (TokensParent, RefreshToken(_, _, _, _, _, Some(parent), _)) => Some(Target(TokenKey(parent), None))
    case (ClientsTenant, OauthClient(_, _, Some(owner))) => Some(Target(TenantKey(owner), None))
    case (SecretsClient, OauthClientSecret(_, client)) => Some(Target(ClientKey(client), None))
    case (VerificationUser, VerificationToken(_, user, _, _)) => Some(Target(UserKey(user), None))
    case _ => None
  }

  /** Is `row` the row that `target` refers to? */
  predicate Satisfies(row: Row, target: Target) {
    && KeyOf(row) == target.key
    && (target.tenant.Some? ==> (row.User? || row.Role?) && row.tenant == target.tenant.value)
  }

  /** `child` refers to `parent` through `fk`. */
  predicate Points(fk: Fk, child: Row, parent: Row) {
    Reference(fk, child).Some? && Satisfies(parent, Reference(fk, child).value)
  }

  // ----- unique indexes -----------------------------------------------------------------------

  /** No table has more than one unique index besides its primary key and, for users and roles, the pair
      (id, tenant) that contains the primary key. */
  datatype Entry =
    | SlugEntry(slug: string)
    | EmailEntry(tenant: Id, email: string)
    | RoleEntry(tenant: Id, key: string)
    | TokenEntry(hash: string)
    | ClientEntry(clientId: string)
    | ActiveKeyEntry
    | VerificationEntry(hash: string)

  /** The entry of `row` in the unique index of its table. The index on e-mail holds live users only, and
      the one on signing keys holds active keys only, all under one entry. */
  function EntryOf(row: Row): Option<Entry> {
    match row
    case Tenant(_, slug) => Some(SlugEntry(slug))
    case User(_, tenant, _, email, deletedAt) => if deletedAt.None? then Some(EmailEntry(tenant, email)) else None
    case Role(_, tenant, key, _) => Some(RoleEntry(tenant, key))
    case RefreshToken(_, _, _, _, hash, _, _) => Some(TokenEntry(hash))
    case OauthClient(_, clientId, _) => Some(ClientEntry(clientId))
    case SigningKey(_, status) => if status == Active then Some(ActiveKeyEntry) else None
    case VerificationToken(_, _, _, hash) => Some(VerificationEntry(hash))
    case _ => None
  }

  // ----- the database -------------------------------------------------------------------------

  type Rows = map<Key, Row>

  /** `row`'s reference through `fk` is to a row that exists. */
  predicate FkHolds(db: Rows, fk: Fk, row: Row) {
    var target := Reference(fk, row);
    target.Some? ==> target.value.key in db && Satisfies(db[target.value.key], target.value)
  }

  predicate Keyed(db: Rows) {
    forall k <- db :: KeyOf(db[k]) == k
  }

  predicate NoDangling(db: Rows) {
    forall k <- db, fk: Fk :: FkHolds(db, fk, db[k])
  }

  ghost predicate Unique(db: Rows) {
    forall j, k | j in db && k in db && EntryOf(db[j]).Some? && EntryOf(db[j]) == EntryOf(db[k]) :: j == k
  }

  /** Every constraint of the schema holds. */
  ghost predicate Consistent(db: Rows) {
    Keyed(db) && NoDangling(db) && Unique(db)
  }

  /** A set-null action on every reference to a row in `gone`. */
  function Nulled(row: Row, gone: set<Key>): Row {
    match row
    case Role(_, _, _, Some(template)) => if TemplateKey(template) in gone then row.(template := None) else row
    case RefreshToken(_, _, _, _, _, Some(parent), _) => if TokenKey(parent) in gone then row.(parent := None) else row
    case _ => row
  }

  /** Nothing but the set-null references changes. */
  lemma NulledFacts(row: Row, gone: set<Key>)
    ensures KeyOf(Nulled(row, gone)) == KeyOf(row) && EntryOf(Nulled(row, gone)) == EntryOf(row)
    ensures forall t: Target :: Satisfies(Nulled(row, gone), t) == Satisfies(row, t)
    ensures forall fk: Fk | Action(fk) != SetNull :: Reference(fk, Nulled(row, gone)) == Reference(fk, row)
    ensures forall fk: Fk | Action(fk) == SetNull ::
              Reference(fk, Nulled(row, gone))
              == if Reference(fk, row).Some? && Reference(fk, row).value.key in gone then None else Reference(fk, row)
  {
  }
}
