/** The partial unique indexes at work: one live user per tenant and address, one active signing key. */
module Accounts {
  import opened Wrappers
  import opened Schema
  import opened Database
  import opened Runs

  // ----- the index a scan would build ---------------------------------------------------------

  ghost function ScanIndex(db: Rows): Index
    requires Unique(db)
  {
    map k | k in db && EntryOf(db[k]).Some? :: EntryOf(db[k]).value := k
  }

  /** The index a database maintains statement by statement is the one a scan of its rows builds. */
  lemma IndexIsScan(db: Rows, index: Index)
    requires Unique(db)
    ensures IndexMatches(db, index) <==> index == ScanIndex(db)
  {
  }

  // ----- users --------------------------------------------------------------------------------

  /** Another live user of the tenant holds the address. */
  predicate AddressTaken(db: Rows, tenant: Id, email: string, except: Id) {
    exists k <- db :: && k != UserKey(except) && db[k].User? && db[k].deletedAt.None?
                      && db[k].tenant == tenant && db[k].emailNormalized == email
  }

  predicate HasGrants(db: Rows, user: Id) {
    exists k <- db :: k.UserRoleKey? && k.user == user
  }

  lemma EntryIsFree(db: Rows, index: Index, k: Key, row: Row)
    requires IndexMatches(db, index) && k in db
    ensures IndexFree(IndexRemove(index, db[k]), row)
      <==> EntryOf(row).None? || forall j <- db | j != k :: EntryOf(db[j]) != EntryOf(row)
  {
    hide EntryOf, KeyOf;
    if EntryOf(row).Some? && EntryOf(row).value in index {
      var j := index[EntryOf(row).value];
      assert j in db && EntryOf(db[j]) == EntryOf(row);
    }
  }

  lemma EntryTaken(db: Rows, k: Key, row: Row)
    requires Consistent(db) && k in db
    ensures IndexFree(IndexRemove(ScanIndex(db), db[k]), row)
      <==> EntryOf(row).None? || !exists j <- db :: j != k && EntryOf(db[j]) == EntryOf(row)
  {
    hide EntryOf, KeyOf, NoDangling, IndexMatches, IndexFree, IndexRemove, ScanIndex;
    IndexIsScan(db, ScanIndex(db));
    EntryIsFree(db, ScanIndex(db), k, row);
  }

  lemma AddressEntry(db: Rows, row: Row)
    requires row.User? && row.deletedAt.None?
    ensures AddressTaken(db, row.tenant, row.emailNormalized, row.id)
      <==> exists j <- db :: j != UserKey(row.id) && EntryOf(db[j]) == EntryOf(row)
  {
  }

  lemma UniqueOf(db: Rows)
    requires Consistent(db)
    ensures Unique(db) && Keyed(db)
  {
  }

  lemma UserRowIsUser(db: Rows, row: Row)
    requires Consistent(db) && row.User? && UserKey(row.id) in db
    ensures KeyOf(row) == UserKey(row.id) && db[UserKey(row.id)].User? && SameTable(UserKey(row.id), KeyOf(row))
  {
  }

  lemma LiveEntry(row: Row)
    requires row.User?
    ensures EntryOf(row).None? <==> row.deletedAt.Some?
  {
  }

  lemma UserTenantHolds(db: Rows, row: Row)
    requires Consistent(db) && row.User? && UserKey(row.id) in db
    ensures RowHolds(Updated(db, UserKey(row.id), row), row) <==> TenantKey(row.tenant) in db
  {
    hide Unique, NoDangling, EntryOf;
    var after := Updated(db, UserKey(row.id), row);
    if TenantKey(row.tenant) in db {
      assert KeyOf(db[TenantKey(row.tenant)]) == TenantKey(row.tenant);
      assert FkHolds(after, UsersTenant, row);
    }
    if RowHolds(after, row) {
      assert FkHolds(after, UsersTenant, row);
    }
  }

  /** Only the composite key of a grant minds which tenant the user is in. */
  lemma UserReferrers(db: Rows, row: Row)
    requires Consistent(db) && row.User? && UserKey(row.id) in db && db[UserKey(row.id)].User?
    ensures ReferrersHold(db, UserKey(row.id), Updated(db, UserKey(row.id), row))
      <==> db[UserKey(row.id)].tenant == row.tenant || !HasGrants(db, row.id)
  {
    hide Unique, EntryOf;
    var k := UserKey(row.id);
    var after := Updated(db, k, row);
    if db[k].tenant != row.tenant && HasGrants(db, row.id) {
      var c :| c in db && c.UserRoleKey? && c.user == row.id;
      assert KeyOf(db[c]) == c;
      assert FkHolds(db, UserRolesUserTenant, db[c]);
      assert c != k && Points(UserRolesUserTenant, db[c], db[k]) && !FkHolds(after, UserRolesUserTenant, db[c]);
    }
    if db[k].tenant == row.tenant || !HasGrants(db, row.id) {
      forall c, fk: Fk | c in db && c != k && Points(fk, db[c], db[k]) ensures FkHolds(after, fk, db[c]) {
        assert KeyOf(db[c]) == c;
        assert after[k] == row;
      }
    }
  }

  /** Renaming, soft-deleting, undeleting or moving a user is refused exactly when two live users would
      share an address, when the new tenant does not exist, or when the user would leave grants behind. */
  lemma UserUpdate(db: Rows, row: Row)
    requires Consistent(db) && row.User? && UserKey(row.id) in db
    ensures Apply(db, Update(UserKey(row.id), row)).Some? <==>
      && TenantKey(row.tenant) in db
      && (row.deletedAt.Some? || !AddressTaken(db, row.tenant, row.emailNormalized, row.id))
      && (db[UserKey(row.id)].tenant == row.tenant || !HasGrants(db, row.id))
  {
    hide Consistent, EntryOf, RowHolds, ReferrersHold, IndexFree, IndexRemove, ScanIndex, AddressTaken, HasGrants, Updated;
    var k := UserKey(row.id);
    UniqueOf(db);
    IndexIsScan(db, ScanIndex(db));
    UserRowIsUser(db, row);
    UpdateCheck(db, ScanIndex(db), k, row);
    EntryTaken(db, k, row);
    if row.deletedAt.None? {
      AddressEntry(db, row);
    }
    LiveEntry(row);
    UserTenantHolds(db, row);
    UserReferrers(db, row);
  }

  lemma FreshEntry(db: Rows, row: Row)
    requires Consistent(db) && KeyOf(row) !in db
    ensures IndexFree(ScanIndex(db), row)
      <==> EntryOf(row).None? || !exists j <- db :: j != KeyOf(row) && EntryOf(db[j]) == EntryOf(row)
  {
    hide EntryOf, KeyOf, NoDangling;
    IndexIsScan(db, ScanIndex(db));
  }

  lemma NewUserTenant(db: Rows, row: Row)
    requires Consistent(db) && row.User? && UserKey(row.id) !in db
    ensures RowHolds(Inserted(db, row), row) <==> TenantKey(row.tenant) in db
  {
    hide Unique, NoDangling, EntryOf;
    var after := Inserted(db, row);
    if TenantKey(row.tenant) in db {
      assert KeyOf(db[TenantKey(row.tenant)]) == TenantKey(row.tenant);
      assert FkHolds(after, UsersTenant, row);
    }
    if RowHolds(after, row) {
      assert FkHolds(after, UsersTenant, row);
    }
  }

  /** A new user is refused exactly when the id is in use, the tenant does not exist, or the address is
      taken by a live user. */
  lemma UserInsert(db: Rows, row: Row)
    requires Consistent(db) && row.User?
    ensures Apply(db, Insert(row)).Some? <==>
      && UserKey(row.id) !in db && TenantKey(row.tenant) in db
      && (row.deletedAt.Some? || !AddressTaken(db, row.tenant, row.emailNormalized, row.id))
  {
    hide Consistent, EntryOf, IndexFree, ScanIndex, AddressTaken, Inserted, RowHolds;
    assert KeyOf(row) == UserKey(row.id);
    if UserKey(row.id) !in db {
      UniqueOf(db);
      IndexIsScan(db, ScanIndex(db));
      InsertCheck(db, ScanIndex(db), row);
      FreshEntry(db, row);
      if row.deletedAt.None? {
        AddressEntry(db, row);
      }
      LiveEntry(row);
      NewUserTenant(db, row);
    }
  }

  lemma KeyedUser(db: Rows, user: Id)
    requires Consistent(db) && UserKey(user) in db
    ensures db[UserKey(user)].User? && db[UserKey(user)].id == user
  {
  }

  lemma TenantOfUser(db: Rows, user: Id)
    requires Consistent(db) && UserKey(user) in db && db[UserKey(user)].User?
    ensures TenantKey(db[UserKey(user)].tenant) in db
  {
    assert FkHolds(db, UsersTenant, db[UserKey(user)]);
  }

  lemma AppliedUpdate(db: Rows, k: Key, row: Row)
    requires k in db && Apply(db, Update(k, row)).Some?
    ensures Execute(db, Update(k, row)) == Updated(db, k, row)
  {
  }

  lemma AddressFreed(db: Rows, holder: Id, newcomer: Row, row: Row)
    requires Consistent(db) && newcomer.User? && UserKey(newcomer.id) !in db && UserKey(holder) in db
    requires db[UserKey(holder)].User? && db[UserKey(holder)].deletedAt.None?
    requires db[UserKey(holder)].tenant == newcomer.tenant && db[UserKey(holder)].emailNormalized == newcomer.emailNormalized
    requires row.User? && row.id == holder && row.deletedAt.Some? && TenantKey(newcomer.tenant) in db
    ensures
      var next := Updated(db, UserKey(holder), row);
      !AddressTaken(next, newcomer.tenant, newcomer.emailNormalized, newcomer.id)
      && TenantKey(newcomer.tenant) in next && UserKey(newcomer.id) !in next
  {
  }

  /** An address that a live user holds is refused to a newcomer, and free once the holder is soft-deleted. */
  lemma AddressReuse(db: Rows, holder: Id, newcomer: Row, at: int)
    requires Consistent(db) && newcomer.User? && newcomer.deletedAt.None? && UserKey(newcomer.id) !in db
    requires UserKey(holder) in db && db[UserKey(holder)].User? && db[UserKey(holder)].deletedAt.None?
    requires db[UserKey(holder)].tenant == newcomer.tenant
    requires db[UserKey(holder)].emailNormalized == newcomer.emailNormalized
    ensures Apply(db, Insert(newcomer)).None?
    ensures Attempt(db, [Update(UserKey(holder), db[UserKey(holder)].(deletedAt := Some(at))), Insert(newcomer)]).Some?
  {
    hide Consistent, Apply;
    var k := UserKey(holder);
    var row := db[k].(deletedAt := Some(at));
    var first, second := Update(k, row), Insert(newcomer);
    KeyedUser(db, holder);
    assert AddressTaken(db, newcomer.tenant, newcomer.emailNormalized, newcomer.id);
    UserInsert(db, newcomer);
    TenantOfUser(db, holder);
    UserUpdate(db, row);
    ApplyKeepsConsistent(db, first);
    var next := Execute(db, first);
    assert next == Updated(db, k, row) by {
      AppliedUpdate(db, k, row);
    }
    AddressFreed(db, holder, newcomer, row);
    UserInsert(next, newcomer);
    assert [first, second][1..] == [second] && [second][1..] == [];
    assert Attempt(next, [second]) == Attempt(Apply(next, second).value, []);
  }

  // ----- signing keys -------------------------------------------------------------------------

  predicate IsActive(db: Rows, kid: string) {
    KidKey(kid) in db && db[KidKey(kid)] == SigningKey(kid, Active)
  }

  lemma OneActiveKey(db: Rows, x: string, y: string)
    requires Consistent(db) && IsActive(db, x) && IsActive(db, y)
    ensures x == y
  {
  }

  /** In every state of every run, at most one signing key is active. */
  lemma OneActiveKeyInEveryRun(db: Rows, txns: seq<seq<Statement>>, x: string, y: string)
    requires Consistent(db) && IsActive(Run(db, txns), x) && IsActive(Run(db, txns), y)
    ensures x == y
  {
    hide Run;
    RunKeepsConsistent(db, txns);
    OneActiveKey(Run(db, txns), x, y);
  }

  predicate ActiveElsewhere(db: Rows, kid: string) {
    exists k <- db :: k != KidKey(kid) && db[k].SigningKey? && db[k].status == Active
  }

  lemma ActiveEntry(db: Rows, kid: string, status: KeyStatus)
    ensures EntryOf(SigningKey(kid, status)).None? <==> status != Active
    ensures status == Active ==>
              (ActiveElsewhere(db, kid) <==> exists j <- db :: j != KidKey(kid) && EntryOf(db[j]) == EntryOf(SigningKey(kid, status)))
  {
  }

  lemma KeyHasNoReferences(db: Rows, kid: string, status: KeyStatus)
    requires Consistent(db) && KidKey(kid) in db
    ensures RowHolds(Updated(db, KidKey(kid), SigningKey(kid, status)), SigningKey(kid, status))
    ensures ReferrersHold(db, KidKey(kid), Updated(db, KidKey(kid), SigningKey(kid, status)))
  {
  }

  /** A status change is refused exactly when it would make a second key active. */
  lemma KeyUpdate(db: Rows, kid: string, status: KeyStatus)
    requires Consistent(db) && KidKey(kid) in db
    ensures Apply(db, Update(KidKey(kid), SigningKey(kid, status))).Some? <==> !(status == Active && ActiveElsewhere(db, kid))
  {
    hide Consistent, EntryOf, RowHolds, ReferrersHold, IndexFree, IndexRemove, ScanIndex, ActiveElsewhere, Updated;
    var k, row := KidKey(kid), SigningKey(kid, status);
    UniqueOf(db);
    IndexIsScan(db, ScanIndex(db));
    UpdateCheck(db, ScanIndex(db), k, row);
    EntryTaken(db, k, row);
    ActiveEntry(db, kid, status);
    KeyHasNoReferences(db, kid, status);
  }

  /** Retire one key and promote another. */
  function Rotation(from: string, to: string): seq<Statement> {
    [Update(KidKey(from), SigningKey(from, Retiring)), Update(KidKey(to), SigningKey(to, Active))]
  }

  predicate ThirdActive(db: Rows, from: string, to: string) {
    exists k <- db :: k != KidKey(from) && k != KidKey(to) && db[k].SigningKey? && db[k].status == Active
  }

  lemma UpdatedKey(db: Rows, kid: string, status: KeyStatus)
    requires KidKey(kid) in db
    ensures Updated(db, KidKey(kid), SigningKey(kid, status)) == db[KidKey(kid) := SigningKey(kid, status)]
  {
  }

  lemma RetiredIsNotActive(db: Rows, from: string, to: string)
    requires from != to
    ensures ActiveElsewhere(db[KidKey(from) := SigningKey(from, Retiring)], to) <==> ThirdActive(db, from, to)
  {
    var next := db[KidKey(from) := SigningKey(from, Retiring)];
    if ThirdActive(db, from, to) {
      var k :| k in db && k != KidKey(from) && k != KidKey(to) && db[k].SigningKey? && db[k].status == Active;
      assert k in next;
    }
  }

  /** A rotation commits exactly when no third key is active, and then its key is the only active one;
      otherwise it leaves everything as it was. */
  lemma RotationCommits(db: Rows, from: string, to: string)
    requires Consistent(db) && from != to && KidKey(from) in db && KidKey(to) in db
    ensures Attempt(db, Rotation(from, to)).Some? <==> !ThirdActive(db, from, to)
    ensures ThirdActive(db, from, to) ==> Commit(db, Rotation(from, to)) == db
    ensures !ThirdActive(db, from, to) ==>
              Commit(db, Rotation(from, to)) == db[KidKey(from) := SigningKey(from, Retiring)][KidKey(to) := SigningKey(to, Active)]
  {
    hide Consistent, Apply, ThirdActive, ActiveElsewhere;
    var first, second := Rotation(from, to)[0], Rotation(from, to)[1];
    KeyUpdate(db, from, Retiring);
    ApplyKeepsConsistent(db, first);
    AppliedUpdate(db, KidKey(from), SigningKey(from, Retiring));
    var next := Execute(db, first);
    UpdatedKey(db, from, Retiring);
    RetiredIsNotActive(db, from, to);
    KeyUpdate(next, to, Active);
    UpdatedKey(next, to, Active);
    if Apply(next, second).Some? {
      AppliedUpdate(next, KidKey(to), SigningKey(to, Active));
    }
    assert Rotation(from, to)[1..] == [second] && [second][1..] == [];
    AttemptOne(next, second);
  }

  /** Of two rotations away from one key, the later loses and is rolled back. */
  lemma SecondRotationLoses(db: Rows, from: string, x: string, y: string)
    requires Consistent(db) && from != x && from != y && x != y
    requires KidKey(from) in db && KidKey(x) in db && KidKey(y) in db && !ThirdActive(db, from, x)
    ensures Run(db, [Rotation(from, x), Rotation(from, y)]) == Commit(db, Rotation(from, x))
  {
    hide Consistent, Attempt, Rotation;
    RotationCommits(db, from, x);
    var next := Commit(db, Rotation(from, x));
    AttemptKeepsConsistent(db, Rotation(from, x));
    assert KidKey(x) in next && next[KidKey(x)] == SigningKey(x, Active);
    assert ThirdActive(next, from, y);
    RotationCommits(next, from, y);
    var txns := [Rotation(from, x), Rotation(from, y)];
    assert txns[1..] == [Rotation(from, y)] && txns[1..][1..] == [];
    assert Run(next, [Rotation(from, y)]) == Run(Commit(next, Rotation(from, y)), []);
  }
}
