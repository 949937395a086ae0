/** What the schema itself keeps of the links between refresh tokens. `parent_id` is meant to reconstruct
    rotation chains and `family_id` to be constant along one; the foreign key only asks that a parent
    exists. So a statement on a token row can be accepted and break either, and it does so exactly when a
    condition that can be read off before the statement fails. */
module ParentLinks {
  import opened Wrappers
  import opened Schema
  import opened Cascade
  import opened Database
  import opened Runs
  import opened Accounts

  // ----- what an insert checks ----------------------------------------------------------------

  predicate HashUsed(db: Rows, hash: string, except: Id) {
    exists k <- db :: k != TokenKey(except) && db[k].RefreshToken? && db[k].hash == hash
  }

  lemma HashEntry(db: Rows, row: Row)
    requires row.RefreshToken?
    ensures EntryOf(row).Some?
    ensures HashUsed(db, row.hash, row.id) <==> exists j <- db :: j != KeyOf(row) && EntryOf(db[j]) == EntryOf(row)
  {
  }

  lemma NewTokenHolds(db: Rows, row: Row)
    requires Consistent(db) && row.RefreshToken? && TokenKey(row.id) !in db
    ensures RowHolds(Inserted(db, row), row) <==>
      UserKey(row.user) in db && (row.parent.Some? ==> row.parent.value == row.id || TokenKey(row.parent.value) in db)
  {
    hide Unique, NoDangling, EntryOf;
    var after := Inserted(db, row);
    if UserKey(row.user) in db {
      assert KeyOf(db[UserKey(row.user)]) == UserKey(row.user);
    }
    if row.parent.Some? && TokenKey(row.parent.value) in db {
      assert KeyOf(db[TokenKey(row.parent.value)]) == TokenKey(row.parent.value);
    }
    if RowHolds(after, row) {
      assert FkHolds(after, TokensUser, row) && FkHolds(after, TokensParent, row);
    }
  }

  /** A token row is refused exactly when its id or hash is in use, its user does not exist, or its parent
      neither exists nor is the row itself. The family and the tenant of the row are not looked at. */
  lemma TokenInsert(db: Rows, row: Row)
    requires Consistent(db) && row.RefreshToken?
    ensures Apply(db, Insert(row)).Some? <==>
      && TokenKey(row.id) !in db && !HashUsed(db, row.hash, row.id) && UserKey(row.user) in db
      && (row.parent.Some? ==> row.parent.value == row.id || TokenKey(row.parent.value) in db)
  {
    hide Consistent, EntryOf, IndexFree, ScanIndex, HashUsed, Inserted, RowHolds;
    assert KeyOf(row) == TokenKey(row.id);
    if TokenKey(row.id) !in db {
      UniqueOf(db);
      IndexIsScan(db, ScanIndex(db));
      InsertCheck(db, ScanIndex(db), row);
      FreshEntry(db, row);
      HashEntry(db, row);
      NewTokenHolds(db, row);
    }
  }

  // ----- links --------------------------------------------------------------------------------

  function ParentOf(db: Rows, id: Id): Option<Id> {
    if TokenKey(id) in db && db[TokenKey(id)].RefreshToken? then db[TokenKey(id)].parent else None
  }

  /** The token `n` parent links above `id`, if the links go that far. */
  function Ancestor(db: Rows, id: Id, n: nat): Option<Id>
    decreases n
  {
    if n == 0 then Some(id)
    else match ParentOf(db, id) case Some(p) => Ancestor(db, p, n - 1) case None => None
  }

  /** `id` is `up`, or links lead from it up to there. */
  ghost predicate Descends(db: Rows, id: Id, up: Id) {
    exists n: nat :: Ancestor(db, id, n) == Some(up)
  }

  /** No chain of links returns to where it began. */
  ghost predicate Acyclic(db: Rows) {
    forall id: Id, n: nat :: n > 0 ==> Ancestor(db, id, n) != Some(id)
  }

  predicate LinkInFamily(db: Rows, row: Row) {
    row.RefreshToken? && row.parent.Some? ==>
      var p := TokenKey(row.parent.value);
      p in db && db[p].RefreshToken? && db[p].family == row.family
  }

  /** Every link leads to a token of the same family. */
  predicate OneFamily(db: Rows) {
    forall k <- db :: LinkInFamily(db, db[k])
  }

  lemma {:induction false} AncestorPlus(db: Rows, id: Id, m: nat, up: Id, n: nat)
    requires Ancestor(db, id, m) == Some(up)
    ensures Ancestor(db, id, m + n) == Ancestor(db, up, n)
    decreases m
  {
    if m > 0 {
      AncestorPlus(db, ParentOf(db, id).value, m - 1, up, n);
    }
  }

  lemma {:induction false} FirstVisit(db: Rows, id: Id, up: Id, n: nat) returns (j: nat)
    requires Ancestor(db, id, n) == Some(up)
    ensures j <= n && Ancestor(db, id, j) == Some(up) && forall m: nat | m < j :: Ancestor(db, id, m) != Some(up)
    decreases n
  {
    if m: nat :| m < n && Ancestor(db, id, m) == Some(up) {
      j := FirstVisit(db, id, up, m);
    } else {
      j := n;
    }
  }

  /** Only the link of `id` may differ. */
  predicate SameElsewhere(db: Rows, after: Rows, id: Id) {
    forall k | k in db.Keys + after.Keys && k.TokenKey? && k.id != id :: ParentOf(after, k.id) == ParentOf(db, k.id)
  }

  /** Two states agree on a chain up to where it first meets `id`. */
  lemma {:induction false} AgreeUntil(db: Rows, after: Rows, id: Id, x: Id, n: nat)
    requires SameElsewhere(db, after, id) && forall m: nat | m < n :: Ancestor(db, x, m) != Some(id)
    ensures Ancestor(after, x, n) == Ancestor(db, x, n)
    decreases n
  {
    if n > 0 {
      assert Ancestor(db, x, 0) != Some(id);
      assert TokenKey(x) in db.Keys + after.Keys ==> ParentOf(after, x) == ParentOf(db, x);
      if ParentOf(db, x).Some? {
        var p := ParentOf(db, x).value;
        forall m: nat | m < n - 1 ensures Ancestor(db, p, m) != Some(id) {
          assert Ancestor(db, x, m + 1) == Ancestor(db, p, m);
        }
        AgreeUntil(db, after, id, p, n - 1);
      }
    }
  }

  lemma DescendsElsewhere(db: Rows, after: Rows, id: Id, x: Id)
    requires SameElsewhere(db, after, id) && Descends(db, x, id)
    ensures Descends(after, x, id)
  {
    var n: nat :| Ancestor(db, x, n) == Some(id);
    var j := FirstVisit(db, x, id, n);
    AgreeUntil(db, after, id, x, j);
  }

  /** A chain that returns to `x` and meets `id` also returns to `id`. */
  lemma Turned(db: Rows, x: Id, id: Id, m: nat, n: nat)
    requires Ancestor(db, x, n) == Some(x) && m <= n && Ancestor(db, x, m) == Some(id)
    ensures Ancestor(db, id, n) == Some(id)
  {
    hide Ancestor;
    var rest := n - m;
    assert m + rest == n && rest + m == n;
    AncestorPlus(db, x, m, id, rest);
    AncestorPlus(db, id, rest, x, m);
  }

  lemma CycleMeets(db: Rows, after: Rows, id: Id, x: Id, n: nat)
    requires Acyclic(db) && SameElsewhere(db, after, id) && n > 0 && Ancestor(after, x, n) == Some(x)
    ensures Ancestor(after, id, n) == Some(id)
  {
    if m: nat :| m < n && Ancestor(after, x, m) == Some(id) {
      Turned(after, x, id, m, n);
    } else {
      AgreeUntil(after, db, id, x, n);
    }
  }

  /** Giving `id` another parent closes a cycle exactly when the parent is `id` itself or below it. */
  lemma RelinkStaysAcyclic(db: Rows, after: Rows, id: Id)
    requires Acyclic(db) && SameElsewhere(db, after, id)
    ensures Acyclic(after) <==> ParentOf(after, id).None? || !Descends(db, ParentOf(after, id).value, id)
  {
    var p := ParentOf(after, id);
    if p.Some? && Descends(db, p.value, id) {
      DescendsElsewhere(db, after, id, p.value);
      var n: nat :| Ancestor(after, p.value, n) == Some(id);
      assert Ancestor(after, id, n + 1) == Some(id);
    }
    if !Acyclic(after) {
      var x: Id, n: nat :| n > 0 && Ancestor(after, x, n) == Some(x);
      CycleMeets(db, after, id, x, n);
      assert Ancestor(after, p.value, n - 1) == Some(id);
      DescendsElsewhere(after, db, id, p.value);
    }
  }

  /** Links are only cut. */
  predicate OnlyCut(db: Rows, after: Rows) {
    forall k <- after | k.TokenKey? :: ParentOf(after, k.id).None? || ParentOf(after, k.id) == ParentOf(db, k.id)
  }

  lemma {:induction false} CutAncestor(db: Rows, after: Rows, x: Id, n: nat)
    requires OnlyCut(db, after) && Ancestor(after, x, n).Some?
    ensures Ancestor(db, x, n) == Ancestor(after, x, n)
    decreases n
  {
    if n > 0 {
      assert TokenKey(x) in after;
      CutAncestor(db, after, ParentOf(after, x).value, n - 1);
    }
  }

  lemma CutStaysAcyclic(db: Rows, after: Rows)
    requires Acyclic(db) && OnlyCut(db, after)
    ensures Acyclic(after)
  {
    forall id: Id, n: nat | n > 0 ensures Ancestor(after, id, n) != Some(id) {
      if Ancestor(after, id, n).Some? {
        CutAncestor(db, after, id, n);
      }
    }
  }

  // ----- an insert ----------------------------------------------------------------------------

  lemma ParentExists(db: Rows, x: Id)
    requires Consistent(db) && ParentOf(db, x).Some?
    ensures TokenKey(ParentOf(db, x).value) in db && db[TokenKey(ParentOf(db, x).value)].RefreshToken?
  {
    hide Unique;
    assert FkHolds(db, TokensParent, db[TokenKey(x)]);
  }

  lemma {:induction false} NoLinkOut(db: Rows, x: Id, n: nat, id: Id)
    requires Consistent(db) && TokenKey(id) !in db && x != id
    ensures Ancestor(db, x, n) != Some(id)
    decreases n
  {
    hide Consistent;
    if n > 0 && ParentOf(db, x).Some? {
      ParentExists(db, x);
      NoLinkOut(db, ParentOf(db, x).value, n - 1, id);
    }
  }

  /** In a consistent state nothing leads to a token that is not there. */
  lemma NobodyDescends(db: Rows, id: Id, x: Id)
    requires Consistent(db) && TokenKey(id) !in db
    ensures Descends(db, x, id) <==> x == id
  {
    hide Consistent;
    if x == id {
      assert Ancestor(db, x, 0) == Some(id);
    } else if n: nat :| Ancestor(db, x, n) == Some(id) {
      NoLinkOut(db, x, n, id);
    }
  }

  /** An insert that is accepted keeps the links acyclic exactly when the row does not name itself. */
  lemma InsertStaysAcyclic(db: Rows, row: Row)
    requires Consistent(db) && Acyclic(db) && row.RefreshToken? && Apply(db, Insert(row)).Some?
    ensures Acyclic(Execute(db, Insert(row))) <==> row.parent != Some(row.id)
  {
    hide Consistent, Acyclic, Descends;
    var after := Inserted(db, row);
    RelinkStaysAcyclic(db, after, row.id);
    if row.parent.Some? {
      NobodyDescends(db, row.id, row.parent.value);
    }
  }

  /** It keeps every link in one family exactly when the row has no parent, is its own, or has the family
      of its parent. */
  lemma InsertStaysOneFamily(db: Rows, row: Row)
    requires Consistent(db) && OneFamily(db) && row.RefreshToken? && Apply(db, Insert(row)).Some?
    ensures OneFamily(Execute(db, Insert(row))) <==>
      || row.parent.None? || row.parent == Some(row.id)
      || (TokenKey(row.parent.value) in db && db[TokenKey(row.parent.value)].RefreshToken?
          && db[TokenKey(row.parent.value)].family == row.family)
  {
    hide Consistent;
    var after := Inserted(db, row);
    assert after[TokenKey(row.id)] == row;
    if row.parent.Some? && row.parent != Some(row.id) {
      assert ParentOf(after, row.id) == row.parent;
      ParentExists(after, row.id);
    }
  }

  // ----- an update ----------------------------------------------------------------------------

  lemma SameDescent(db: Rows, mid: Rows, id: Id, x: Id)
    requires SameElsewhere(db, mid, id)
    ensures Descends(db, x, id) <==> Descends(mid, x, id)
  {
    if Descends(db, x, id) {
      DescendsElsewhere(db, mid, id, x);
    }
    if Descends(mid, x, id) {
      DescendsElsewhere(mid, db, id, x);
    }
  }

  lemma CutDescent(db: Rows, mid: Rows, id: Id, x: Id)
    requires OnlyCut(db, mid)
    ensures x == id ==> Descends(mid, x, id)
    ensures Descends(mid, x, id) ==> Descends(db, x, id)
  {
    if x == id {
      assert Ancestor(mid, x, 0) == Some(id);
    }
    if n: nat :| Ancestor(mid, x, n) == Some(id) {
      CutAncestor(db, mid, x, n);
    }
  }

  /** An update that is accepted keeps the links acyclic exactly when the row's parent is not the row
      itself nor one of those below it. */
  lemma UpdateStaysAcyclic(db: Rows, k: Key, row: Row)
    requires Consistent(db) && Acyclic(db) && k in db && row.RefreshToken? && Apply(db, Update(k, row)).Some?
    ensures Acyclic(Execute(db, Update(k, row))) <==> row.parent.None? || !Descends(db, row.parent.value, row.id)
  {
    hide Consistent, Acyclic, Descends;
    var mid, after := db - {k}, Updated(db, k, row);
    CutStaysAcyclic(db, mid);
    RelinkStaysAcyclic(mid, after, row.id);
    if row.parent.Some? {
      if k == TokenKey(row.id) {
        SameDescent(db, mid, row.id, row.parent.value);
      } else {
        NobodyDescends(db, row.id, row.parent.value);
        CutDescent(db, mid, row.id, row.parent.value);
      }
    }
  }

  lemma KeyedToken(db: Rows, c: Key)
    requires Consistent(db) && c in db && db[c].RefreshToken?
    ensures c == TokenKey(db[c].id)
  {
  }

  /** It keeps every link in one family exactly when the row has the family of its parent, if it has one
      other than itself, and the tokens right below it have the family of the row. */
  lemma UpdateStaysOneFamily(db: Rows, k: Key, row: Row)
    requires Consistent(db) && OneFamily(db) && k in db && row.RefreshToken? && Apply(db, Update(k, row)).Some?
    ensures OneFamily(Execute(db, Update(k, row))) <==>
      && (row.parent.None? || row.parent == Some(row.id)
          || (TokenKey(row.parent.value) in db && db[TokenKey(row.parent.value)].RefreshToken?
              && db[TokenKey(row.parent.value)].family == row.family))
      && forall c <- db | c != k && db[c].RefreshToken? && db[c].parent == Some(row.id) :: db[c].family == row.family
  {
    hide Consistent;
    var after := Updated(db, k, row);
    assert after[TokenKey(row.id)] == row;
    if row.parent.Some? && row.parent != Some(row.id) {
      assert ParentOf(after, row.id) == row.parent;
      ParentExists(after, row.id);
    }
    forall c | c in db && c != k ensures c in after && after[c] == db[c] {
    }
    forall c | c in db && c != k && db[c].RefreshToken? && db[c].parent.Some? && db[c].parent != Some(row.id)
      ensures TokenKey(db[c].parent.value) in after && TokenKey(db[c].parent.value) != k
    {
      KeyedToken(db, c);
      assert ParentOf(after, db[c].id) == db[c].parent;
      ParentExists(after, db[c].id);
    }
  }

  // ----- everything else ----------------------------------------------------------------------

  lemma NulledToken(row: Row, gone: set<Key>)
    ensures Nulled(row, gone).RefreshToken? == row.RefreshToken?
    ensures row.RefreshToken? ==>
              && Nulled(row, gone).id == row.id && Nulled(row, gone).family == row.family
              && (Nulled(row, gone).parent == row.parent || Nulled(row, gone).parent.None?)
  {
  }

  lemma CutStaysOneFamily(db: Rows, after: Rows)
    requires OneFamily(db) && Consistent(after)
    requires forall k <- after | after[k].RefreshToken? ::
               && k in db && db[k].RefreshToken? && db[k].family == after[k].family
               && (after[k].parent.None? || after[k].parent == db[k].parent)
    ensures OneFamily(after)
  {
    hide Consistent;
    forall k | k in after && after[k].RefreshToken? && after[k].parent.Some? ensures LinkInFamily(after, after[k]) {
      KeyedToken(after, k);
      assert ParentOf(after, after[k].id) == after[k].parent;
      ParentExists(after, after[k].id);
      assert LinkInFamily(db, db[k]);
    }
  }

  /** No other statement can break either: a delete only cuts links. */
  lemma OthersKeepLinks(db: Rows, s: Statement)
    requires Consistent(db) && (s.Delete? || !s.row.RefreshToken?)
    ensures Acyclic(db) ==> Acyclic(Execute(db, s))
    ensures OneFamily(db) ==> OneFamily(Execute(db, s))
  {
    hide Acyclic, OneFamily, NoDangling, Unique, Closure, DeleteRefused;
    var after := Execute(db, s);
    ApplyKeepsConsistent(db, s);
    forall k | k in after && after[k].RefreshToken?
      ensures k in db && db[k].RefreshToken? && db[k].id == after[k].id && db[k].family == after[k].family
      ensures after[k].parent.None? || after[k].parent == db[k].parent
    {
      if s.Delete? && s.key in db && Apply(db, s).Some? {
        NulledToken(db[k], Closure(db, s.key));
      }
    }
    if Acyclic(db) {
      CutStaysAcyclic(db, after);
    }
    if OneFamily(db) {
      CutStaysOneFamily(db, after);
    }
  }

  // ----- two statements that are accepted -----------------------------------------------------

  /** A row that names itself as its parent is accepted, and closes a cycle. */
  lemma SchemaAdmitsCycle(db: Rows, row: Row)
    requires Consistent(db) && row.RefreshToken? && row.parent == Some(row.id)
    requires TokenKey(row.id) !in db && !HashUsed(db, row.hash, row.id) && UserKey(row.user) in db
    ensures Apply(db, Insert(row)).Some? && !Acyclic(Execute(db, Insert(row)))
  {
    hide Consistent, HashUsed;
    TokenInsert(db, row);
    var after := Execute(db, Insert(row));
    assert after[TokenKey(row.id)] == row && ParentOf(after, row.id) == Some(row.id);
    assert Ancestor(after, row.id, 0) == Some(row.id);
    assert Ancestor(after, row.id, 1) == Some(row.id);
  }

  /** So is one whose parent is of another family. */
  lemma SchemaAdmitsMixedFamily(db: Rows, row: Row)
    requires Consistent(db) && row.RefreshToken? && row.parent.Some? && TokenKey(row.parent.value) in db
    requires TokenKey(row.id) !in db && !HashUsed(db, row.hash, row.id) && UserKey(row.user) in db
    requires db[TokenKey(row.parent.value)].RefreshToken? && db[TokenKey(row.parent.value)].family != row.family
    ensures Apply(db, Insert(row)).Some? && !OneFamily(Execute(db, Insert(row)))
  {
    hide Consistent, HashUsed;
    TokenInsert(db, row);
    assert !LinkInFamily(Execute(db, Insert(row)), Execute(db, Insert(row))[TokenKey(row.id)]);
  }
}
