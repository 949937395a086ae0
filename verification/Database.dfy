/** The database as an object that statements change, with its unique indexes maintained alongside the
    rows. A statement either takes effect whole or is refused and changes nothing. */
module Database {
  import opened Wrappers
  import opened Schema
  import opened Cascade

  datatype Statement = Insert(row: Row) | Update(key: Key, row: Row) | Delete(key: Key)

  /** Do two keys belong to the same table? */
  predicate SameTable(j: Key, k: Key) {
    match (j, k)
    case (TenantKey(_), TenantKey(_)) => true
    case (TemplateKey(_), TemplateKey(_)) => true
    case (ScopeKey(_), ScopeKey(_)) => true
    case (UserKey(_), UserKey(_)) => true
    case (RoleKey(_), RoleKey(_)) => true
    case (RoleScopeKey(_, _), RoleScopeKey(_, _)) => true
    case (UserRoleKey(_, _), UserRoleKey(_, _)) => true
    case (TokenKey(_), TokenKey(_)) => true
    case (ClientKey(_), ClientKey(_)) => true
    case (SecretKey(_), SecretKey(_)) => true
    case (KidKey(_), KidKey(_)) => true
    case (VerificationKey(_), VerificationKey(_)) => true
    case _ => false
  }

  function Inserted(db: Rows, row: Row): Rows {
    db[KeyOf(row) := row]
  }

  function Updated(db: Rows, k: Key, row: Row): Rows {
    (db - {k})[KeyOf(row) := row]
  }

  /** The meaning of a statement: the state it leads to, or `None` when it is refused. An insert or update
      is refused when the state it asks for breaks a constraint; one that finds no row changes none. */
  ghost function Apply(db: Rows, s: Statement): Option<Rows> {
    match s
    case Insert(row) =>
      if KeyOf(row) !in db && Consistent(Inserted(db, row)) then Some(Inserted(db, row)) else None
    case Update(k, row) =>
      if k !in db then Some(db)
      else if SameTable(k, KeyOf(row)) && (KeyOf(row) == k || KeyOf(row) !in db) && Consistent(Updated(db, k, row)) then
        Some(Updated(db, k, row))
      else None
    case Delete(k) =>
      if k !in db then Some(db)
      else if DeleteRefused(db, k) then None
      else Some(Without(db, Closure(db, k)))
  }

  /** A refused statement leaves the state as it was. */
  ghost function Execute(db: Rows, s: Statement): Rows {
    match Apply(db, s) case Some(after) => after case None => db
  }

  // ----- the indexes --------------------------------------------------------------------------

  type Index = map<Entry, Key>

  /** `index` is exactly what a scan of the rows would compute. */
  predicate IndexMatches(db: Rows, index: Index) {
    && (forall e <- index :: index[e] in db && EntryOf(db[index[e]]) == Some(e))
    && (forall k <- db :: EntryOf(db[k]).Some? ==> EntryOf(db[k]).value in index && index[EntryOf(db[k]).value] == k)
  }

  lemma IndexMeansUnique(db: Rows, index: Index)
    requires IndexMatches(db, index)
    ensures Unique(db)
  {
  }

  function IndexAdd(index: Index, row: Row): Index {
    match EntryOf(row) case Some(e) => index[e := KeyOf(row)] case None => index
  }

  function IndexRemove(index: Index, row: Row): Index {
    match EntryOf(row) case Some(e) => index - {e} case None => index
  }

  predicate IndexFree(index: Index, row: Row) {
    match EntryOf(row) case Some(e) => e !in index case None => true
  }

  lemma IndexAfterAdd(db: Rows, index: Index, row: Row)
    requires IndexMatches(db, index) && KeyOf(row) !in db && IndexFree(index, row)
    ensures IndexMatches(Inserted(db, row), IndexAdd(index, row))
  {
  }

  lemma IndexAfterRemove(db: Rows, index: Index, k: Key)
    requires IndexMatches(db, index) && Keyed(db) && k in db
    ensures IndexMatches(db - {k}, IndexRemove(index, db[k]))
  {
  }

  lemma IndexAfterNull(db: Rows, index: Index, gone: set<Key>)
    requires IndexMatches(db, index)
    ensures IndexMatches(map x | x in db :: Nulled(db[x], gone), index)
  {
    hide EntryOf, KeyOf, Nulled;
    forall x | x in db ensures EntryOf(Nulled(db[x], gone)) == EntryOf(db[x]) {
      NulledFacts(db[x], gone);
    }
  }

  // ----- checking one row instead of all ------------------------------------------------------

  predicate RowHolds(db: Rows, row: Row) {
    forall fk: Fk :: FkHolds(db, fk, row)
  }

  lemma InsertUnique(db: Rows, index: Index, row: Row)
    requires IndexMatches(db, index) && KeyOf(row) !in db
    ensures Unique(Inserted(db, row)) <==> IndexFree(index, row)
  {
    hide EntryOf, KeyOf;
    var after := Inserted(db, row);
    if IndexFree(index, row) {
      IndexAfterAdd(db, index, row);
      IndexMeansUnique(after, IndexAdd(index, row));
    } else {
      var j, k := index[EntryOf(row).value], KeyOf(row);
      assert j in after && k in after && EntryOf(after[j]) == EntryOf(after[k]);
    }
  }

  /** Checking the new row alone decides whether the whole state after an insert is consistent. */
  lemma InsertCheck(db: Rows, index: Index, row: Row)
    requires Consistent(db) && IndexMatches(db, index) && KeyOf(row) !in db
    ensures Consistent(Inserted(db, row)) <==> IndexFree(index, row) && RowHolds(Inserted(db, row), row)
  {
    hide EntryOf, KeyOf, Reference, Satisfies, IndexMatches;
    var after := Inserted(db, row);
    if RowHolds(after, row) {
      forall x, fk: Fk | x in after ensures FkHolds(after, fk, after[x]) {
        if x in db {
          assert FkHolds(db, fk, db[x]);
        }
      }
    }
    if Consistent(after) {
      assert after[KeyOf(row)] == row;
    }
    InsertUnique(db, index, row);
  }

  /** The rows that refer to row `k` still find what they refer to. */
  predicate ReferrersHold(db: Rows, k: Key, after: Rows)
    requires k in db
  {
    forall c <- db, fk: Fk :: c != k && Points(fk, db[c], db[k]) ==> FkHolds(after, fk, db[c])
  }

  lemma OthersHold(db: Rows, k: Key, row: Row, x: Key, fk: Fk)
    requires Consistent(db) && k in db && (KeyOf(row) == k || KeyOf(row) !in db)
    requires x in db && x != k && ReferrersHold(db, k, Updated(db, k, row))
    ensures FkHolds(Updated(db, k, row), fk, db[x])
  {
    hide EntryOf, KeyOf, Reference, Satisfies, Unique;
    assert FkHolds(db, fk, db[x]);
    if Reference(fk, db[x]).Some? && Reference(fk, db[x]).value.key == k {
      assert Points(fk, db[x], db[k]);
    }
  }

  /** So does checking the new row and the rows that referred to the old one, after an update. */
  lemma UpdateCheck(db: Rows, index: Index, k: Key, row: Row)
    requires Consistent(db) && IndexMatches(db, index) && k in db && (KeyOf(row) == k || KeyOf(row) !in db)
    ensures
      var after := Updated(db, k, row);
      Consistent(after) <==>
        IndexFree(IndexRemove(index, db[k]), row) && RowHolds(after, row) && ReferrersHold(db, k, after)
  {
    hide EntryOf, KeyOf, Reference, Satisfies, IndexMatches, Unique;
    var after := Updated(db, k, row);
    IndexAfterRemove(db, index, k);
    InsertUnique(db - {k}, IndexRemove(index, db[k]), row);
    assert after[KeyOf(row)] == row;
    if RowHolds(after, row) && ReferrersHold(db, k, after) {
      forall x, fk: Fk | x in after ensures FkHolds(after, fk, after[x]) {
        if x != KeyOf(row) {
          OthersHold(db, k, row, x, fk);
        }
      }
    }
    if Consistent(after) {
      forall c, fk: Fk | c in db && c != k ensures FkHolds(after, fk, db[c]) {
        assert c in after;
        assert after[c] == db[c];
      }
    }
  }

  lemma UpdateStep(db: Rows, index: Index, k: Key, row: Row)
    requires Consistent(db) && IndexMatches(db, index) && k in db && SameTable(k, KeyOf(row))
    ensures
      var after, trimmed := Updated(db, k, row), IndexRemove(index, db[k]);
      var ok := (KeyOf(row) == k || KeyOf(row) !in db)
        && IndexFree(trimmed, row) && RowHolds(after, row) && ReferrersHold(db, k, after);
      && Apply(db, Update(k, row)) == (if ok then Some(after) else None)
      && (ok ==> Consistent(after) && IndexMatches(after, IndexAdd(trimmed, row)))
  {
    hide EntryOf, KeyOf, IndexMatches, RowHolds, ReferrersHold, NoDangling, Unique;
    if KeyOf(row) == k || KeyOf(row) !in db {
      UpdateCheck(db, index, k, row);
      IndexAfterRemove(db, index, k);
      if IndexFree(IndexRemove(index, db[k]), row) {
        IndexAfterAdd(db - {k}, IndexRemove(index, db[k]), row);
      }
    }
  }

  lemma NoRowNoUpdate(db: Rows, k: Key, row: Row)
    requires k !in db
    ensures Apply(db, Update(k, row)) == Some(db)
  {
  }

  // ----- one step of a delete -----------------------------------------------------------------

  predicate CascadesTo(db: Rows, x: Key, c: Key)
    requires x in db && c in db
  {
    exists fk: Fk :: Action(fk) == Cascade && Points(fk, db[c], db[x])
  }

  /** The rows that a delete of `x` puts to work. */
  function Children(db: Rows, x: Key): set<Key>
    requires x in db
  {
    set c | c in db && CascadesTo(db, x, c)
  }

  /** `x` is removed and the references to it are set to null where that is their action. */
  function Removed(db: Rows, x: Key): Rows
    requires x in db
  {
    map c | c in db - {x} :: Nulled((db - {x})[c], {x})
  }

  /** The rows gone so far belong to the closure, and what follows them is gone or at work. */
  ghost predicate Progress(db: Rows, k: Key, gone: set<Key>, work: set<Key>) {
    && k in db
    && gone <= Closure(db, k) && work <= Closure(db, k)
    && (if gone == {} then work == {k} else k in gone)
    && (forall x, y | x in gone && Edge(db, x, y) :: y in gone + work)
    && (forall x | x in gone :: !Restricted(db, x))
  }

  lemma WithoutNothing(db: Rows)
    ensures Without(db, {}) == db
  {
  }

  lemma ProgressStarts(db: Rows, k: Key)
    requires k in db
    ensures Progress(db, k, {}, {k}) && Without(db, {}) == db
  {
    hide Closure, Edge, Restricted;
    ClosureHasRoot(db, k);
    WithoutNothing(db);
  }

  lemma PointsNow(db: Rows, gone: set<Key>, c: Key, x: Key, fk: Fk)
    requires c in db && x in db && c !in gone && x !in gone && Action(fk) != SetNull
    ensures Points(fk, Without(db, gone)[c], Without(db, gone)[x]) == Points(fk, db[c], db[x])
  {
  }

  /** Nor do the rows deleted so far hide a restriction: only the root can be restricted, and it goes first. */
  lemma RestrictedNow(db: Rows, k: Key, gone: set<Key>, x: Key)
    requires x in db && x in Closure(db, k) && x !in gone && (gone != {} ==> k in gone)
    ensures Restricted(Without(db, gone), x) == Restricted(db, x)
    ensures Restricted(db, x) ==> x == k
  {
    hide Closure, Points, Nulled, Action;
    var now := Without(db, gone);
    if Restricted(db, x) {
      RestrictionOnlyAtRoot(db, k, x);
      assert gone == {};
      WithoutNothing(db);
    }
    if Restricted(now, x) {
      var c, fk: Fk :| c in now && Action(fk) == Restrict && Points(fk, now[c], now[x]);
      PointsNow(db, gone, c, x, fk);
    }
  }

  /** Taking a row from the work: either it is gone already, or it is still there and what is decided
      about it now is what the statement means. */
  lemma ProgressFacts(db: Rows, k: Key, gone: set<Key>, work: set<Key>, x: Key)
    requires Progress(db, k, gone, work) && x in work
    ensures x !in Without(db, gone) ==> Progress(db, k, gone, work - {x})
    ensures x in Without(db, gone) && Restricted(Without(db, gone), x) ==> Apply(db, Delete(k)) == None
  {
    hide Edge, Restricted;
    if x in Without(db, gone) {
      RestrictedNow(db, k, gone, x);
      RefusedExactlyAtRoot(db, k);
    }
  }

  /** What cascades from a row half way through is what cascaded from it at the start. */
  lemma ChildrenNow(db: Rows, k: Key, gone: set<Key>, x: Key)
    requires x in db && x in Closure(db, k) && x !in gone
    ensures forall c | c in Children(Without(db, gone), x) :: Edge(db, x, c)
    ensures forall c | Edge(db, x, c) :: c in gone || c in Children(Without(db, gone), x)
  {
    hide Closure, Points, Nulled, Action;
    var now := Without(db, gone);
    forall c | c in now && CascadesTo(now, x, c) ensures Edge(db, x, c) {
      var fk: Fk :| Action(fk) == Cascade && Points(fk, now[c], now[x]);
      PointsNow(db, gone, c, x, fk);
    }
    forall c | Edge(db, x, c) && c !in gone ensures c in now && CascadesTo(now, x, c) {
      var fk: Fk :| Action(fk) == Cascade && Points(fk, db[c], db[x]);
      PointsNow(db, gone, c, x, fk);
    }
  }

  lemma ProgressStep(db: Rows, k: Key, gone: set<Key>, work: set<Key>, x: Key)
    requires Progress(db, k, gone, work) && x in work && x in Without(db, gone)
    requires !Restricted(Without(db, gone), x)
    ensures Progress(db, k, gone + {x}, work - {x} + Children(Without(db, gone), x))
  {
    hide Edge, Restricted, Closure, Children;
    RestrictedNow(db, k, gone, x);
    ChildrenNow(db, k, gone, x);
    forall c | c in Children(Without(db, gone), x) ensures c in Closure(db, k) {
      ClosureStep(db, k, x, c);
    }
  }

  lemma WithoutIsKeyed(db: Rows, gone: set<Key>)
    requires Keyed(db)
    ensures Keyed(Without(db, gone))
  {
  }

  lemma WithoutOneMore(db: Rows, gone: set<Key>, x: Key)
    requires x in Without(db, gone)
    ensures
      var now := Without(db, gone);
      (map c | c in now - {x} :: Nulled((now - {x})[c], {x})) == Without(db, gone + {x})
  {
  }

  lemma RemoveStep(db: Rows, gone: set<Key>, index: Index, x: Key)
    requires Consistent(db) && x in Without(db, gone) && IndexMatches(Without(db, gone), index)
    ensures Removed(Without(db, gone), x) == Without(db, gone + {x})
    ensures Removed(Without(db, gone), x).Keys < Without(db, gone).Keys
    ensures IndexMatches(Without(db, gone + {x}), IndexRemove(index, Without(db, gone)[x]))
  {
    hide Without, IndexMatches, EntryOf;
    var now := Without(db, gone);
    WithoutIsKeyed(db, gone);
    WithoutOneMore(db, gone, x);
    IndexAfterRemove(now, index, x);
    IndexAfterNull(now - {x}, IndexRemove(index, now[x]), {x});
    assert x !in Removed(now, x);
  }

  lemma ProgressEnds(db: Rows, k: Key, gone: set<Key>)
    requires Consistent(db) && Progress(db, k, gone, {})
    ensures Apply(db, Delete(k)) == Some(Without(db, gone)) && Consistent(Without(db, gone))
  {
    hide Edge, Restricted, Consistent;
    ClosureIsLeast(db, k, gone);
    assert gone == Closure(db, k);
    WithoutIsConsistent(db, gone);
    RefusedExactlyAtRoot(db, k);
  }

  // ----- the object ---------------------------------------------------------------------------

  class Database {
    var rows: Rows
    var index: Index

    ghost predicate Valid()
      reads this
    {
      Consistent(rows) && IndexMatches(rows, index)
    }

    constructor ()
      ensures Valid() && rows == map[]
    {
      rows, index := map[], map[];
    }

    method InsertRow(row: Row) returns (ok: bool)
      requires Valid()
      modifies this
      ensures Valid()
      ensures ok <==> Apply(old(rows), Insert(row)).Some?
      ensures rows == Execute(old(rows), Insert(row))
    {
      var k := KeyOf(row);
      if k in rows {
        return false;
      }
      InsertCheck(rows, index, row);
      ok := IndexFree(index, row) && RowHolds(Inserted(rows, row), row);
      if ok {
        IndexAfterAdd(rows, index, row);
        rows, index := Inserted(rows, row), IndexAdd(index, row);
      }
    }

    method UpdateRow(k: Key, row: Row) returns (ok: bool)
      requires Valid() && SameTable(k, KeyOf(row))
      modifies this
      ensures Valid()
      ensures ok <==> Apply(old(rows), Update(k, row)).Some?
      ensures rows == Execute(old(rows), Update(k, row))
    {
      hide Apply, Consistent, IndexMatches, IndexFree, IndexAdd, IndexRemove, RowHolds, ReferrersHold, Updated, KeyOf, SameTable;
      if k !in rows {
        NoRowNoUpdate(rows, k, row);
        return true;
      }
      var after, trimmed := Updated(rows, k, row), IndexRemove(index, rows[k]);
      ok := (KeyOf(row) == k || KeyOf(row) !in rows)
        && IndexFree(trimmed, row) && RowHolds(after, row) && ReferrersHold(rows, k, after);
      UpdateStep(rows, index, k, row);
      if ok {
        rows, index := after, IndexAdd(trimmed, row);
      }
    }

    /** A delete with its cascades: rows wait in `work` and are taken in any order. Each one that still
        exists is refused if it is restricted, and otherwise removed, with the references to it set to
        null or its referrers put to work. A refusal restores the state before the statement. */
    method DeleteRow(k: Key) returns (ok: bool)
      requires Valid()
      modifies this
      ensures Valid()
      ensures ok <==> Apply(old(rows), Delete(k)).Some?
      ensures rows == Execute(old(rows), Delete(k))
    {
      var before, beforeIndex := rows, index;
      if k !in rows {
        return true;
      }
      ghost var gone: set<Key> := {};
      var work := {k};
      ProgressStarts(before, k);
      while work != {}
        invariant Progress(before, k, gone, work)
        invariant rows == Without(before, gone) && IndexMatches(rows, index)
        decreases rows.Keys, work
      {
        hide *;
        var x :| x in work;
        ProgressFacts(before, k, gone, work, x);
        if x !in rows {
          work := work - {x};
        } else {
          if Restricted(rows, x) {
            rows, index := before, beforeIndex;
            return false;
          }
          var children := Children(rows, x);
          ProgressStep(before, k, gone, work, x);
          RemoveStep(before, gone, index, x);
          index := IndexRemove(index, rows[x]);
          rows := Removed(rows, x);
          gone := gone + {x};
          work := work - {x} + children;
        }
      }
      ProgressEnds(before, k, gone);
      ok := true;
    }
  }
}
