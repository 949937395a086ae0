/** What a delete statement means: the rows that go, the references that become null, and when it is
    refused. Stated by paths of cascading references, with no reference to the order of the work. */
module Cascade {
  import opened Schema

  /** Deleting `x` deletes `y`. */
  predicate Edge(db: Rows, x: Key, y: Key) {
    x in db && y in db && exists fk: Fk :: Action(fk) == Cascade && Points(fk, db[y], db[x])
  }

  predicate CascadePath(db: Rows, path: seq<Key>) {
    |path| > 0 && path[0] in db && forall i | 0 <= i < |path| - 1 :: Edge(db, path[i], path[i + 1])
  }

  ghost predicate Reaches(db: Rows, k: Key, x: Key) {
    exists path: seq<Key> :: CascadePath(db, path) && path[0] == k && path[|path| - 1] == x
  }

  /** The rows that go with `k`. */
  ghost function Closure(db: Rows, k: Key): set<Key> {
    set x | x in db && Reaches(db, k, x)
  }

  /** Some row refers to `k` through a restricting foreign key. */
  predicate Restricted(db: Rows, k: Key) {
    k in db && exists c <- db, fk: Fk :: Action(fk) == Restrict && Points(fk, db[c], db[k])
  }

  /** The rows left when those of `gone` are deleted. */
  function Without(db: Rows, gone: set<Key>): Rows {
    map x | x in db && x !in gone :: Nulled(db[x], gone)
  }

  ghost predicate DeleteRefused(db: Rows, k: Key) {
    exists x :: x in Closure(db, k) && Restricted(db, x)
  }

  // ----- paths --------------------------------------------------------------------------------

  lemma ClosureHasRoot(db: Rows, k: Key)
    requires k in db
    ensures k in Closure(db, k)
  {
    assert CascadePath(db, [k]);
  }

  lemma EdgeEnds(db: Rows, x: Key, y: Key)
    requires Edge(db, x, y)
    ensures x in db && y in db
  {
  }

  lemma ClosureStep(db: Rows, k: Key, x: Key, y: Key)
    requires x in Closure(db, k) && Edge(db, x, y)
    ensures y in Closure(db, k)
  {
    hide Edge;
    var path :| CascadePath(db, path) && path[0] == k && path[|path| - 1] == x;
    var longer := path + [y];
    forall i | 0 <= i < |longer| - 1 ensures Edge(db, longer[i], longer[i + 1]) {
    }
    assert y in db by {
      EdgeEnds(db, x, y);
    }
  }

  lemma {:induction false} PathStaysIn(db: Rows, path: seq<Key>, i: nat, s: set<Key>)
    requires CascadePath(db, path) && i < |path| && path[0] in s
    requires forall x, y | x in s && Edge(db, x, y) :: y in s
    ensures path[i] in s
  {
    hide Edge;
    if i > 0 {
      PathStaysIn(db, path, i - 1, s);
      assert Edge(db, path[i - 1], path[i]);
    }
  }

  /** A set with the root that is closed under edges holds the whole closure. */
  lemma ClosureIsLeast(db: Rows, k: Key, s: set<Key>)
    requires k in s
    requires forall x, y | x in s && Edge(db, x, y) :: y in s
    ensures Closure(db, k) <= s
  {
    hide Edge;
    forall x | x in Closure(db, k) ensures x in s {
      var path :| CascadePath(db, path) && path[0] == k && path[|path| - 1] == x;
      PathStaysIn(db, path, |path| - 1, s);
    }
  }

  /** A row that is reached from another is reached over a last edge. */
  lemma LastEdge(db: Rows, k: Key, x: Key) returns (p: Key)
    requires x in Closure(db, k) && x != k
    ensures p in Closure(db, k) && Edge(db, p, x)
  {
    hide Edge;
    var path :| CascadePath(db, path) && path[0] == k && path[|path| - 1] == x;
    p := path[|path| - 2];
    var shorter := path[..|path| - 1];
    forall i | 0 <= i < |shorter| - 1 ensures Edge(db, shorter[i], shorter[i + 1]) {
      assert shorter[i] == path[i] && shorter[i + 1] == path[i + 1];
    }
    assert CascadePath(db, shorter);
    assert Edge(db, p, x);
    EdgeEnds(db, p, x);
  }

  // ----- restriction --------------------------------------------------------------------------

  /** What a restricting foreign key refers to is never the child of a cascading one. */
  lemma RestrictedIsTop(child: Row, row: Row, parent: Row, r: Fk, c: Fk)
    requires Action(r) == Restrict && Points(r, child, row)
    ensures Action(c) == Cascade ==> !Points(c, row, parent)
  {
  }

  /** So a delete meets a restriction at its root or not at all. */
  lemma RestrictionOnlyAtRoot(db: Rows, k: Key, x: Key)
    requires x in Closure(db, k) && Restricted(db, x)
    ensures x == k
  {
    if x != k {
      var p := LastEdge(db, k, x);
      var c, r: Fk :| c in db && Action(r) == Restrict && Points(r, db[c], db[x]);
      forall fk: Fk ensures !(Action(fk) == Cascade && Points(fk, db[x], db[p])) {
        RestrictedIsTop(db[c], db[x], db[p], r, fk);
      }
    }
  }

  lemma RefusedExactlyAtRoot(db: Rows, k: Key)
    requires k in db
    ensures DeleteRefused(db, k) <==> Restricted(db, k)
  {
    hide Restricted, Closure;
    ClosureHasRoot(db, k);
    if DeleteRefused(db, k) {
      var x :| x in Closure(db, k) && Restricted(db, x);
      RestrictionOnlyAtRoot(db, k, x);
    }
  }

  // ----- the state after a delete -------------------------------------------------------------

  /** A set of rows that can go: closed under cascades, and restricted by nothing. */
  ghost predicate Deletable(db: Rows, gone: set<Key>) {
    && (forall x, y | x in gone && Edge(db, x, y) :: y in gone)
    && (forall x | x in gone :: !Restricted(db, x))
  }

  lemma ClosureIsDeletable(db: Rows, k: Key)
    requires k in db && !Restricted(db, k)
    ensures Deletable(db, Closure(db, k))
  {
    hide Edge, Restricted, Closure;
    forall x, y | x in Closure(db, k) && Edge(db, x, y) ensures y in Closure(db, k) {
      ClosureStep(db, k, x, y);
    }
    forall x | x in Closure(db, k) ensures !Restricted(db, x) {
      if Restricted(db, x) {
        RestrictionOnlyAtRoot(db, k, x);
      }
    }
  }

  lemma WithoutIsUnique(db: Rows, gone: set<Key>)
    requires Unique(db)
    ensures Unique(Without(db, gone))
  {
    hide KeyOf, EntryOf, Nulled;
    forall x | x in db ensures EntryOf(Nulled(db[x], gone)) == EntryOf(db[x]) {
      NulledFacts(db[x], gone);
    }
  }

  lemma SurvivorHolds(db: Rows, gone: set<Key>, x: Key, fk: Fk)
    requires Consistent(db) && Deletable(db, gone) && x in db && x !in gone
    ensures FkHolds(Without(db, gone), fk, Nulled(db[x], gone))
  {
    hide KeyOf, Reference, EntryOf, Nulled, Unique, Satisfies;
    NulledFacts(db[x], gone);
    var target := Reference(fk, db[x]);
    assert FkHolds(db, fk, db[x]);
    if target.Some? {
      var p := target.value.key;
      assert Points(fk, db[x], db[p]);
      if p in gone {
        assert Action(fk) == Cascade ==> Edge(db, p, x);
        assert Action(fk) == Restrict ==> Restricted(db, p);
      } else {
        NulledFacts(db[p], gone);
      }
    }
  }

  /** Deleting such a set leaves no reference dangling and no constraint broken. */
  lemma WithoutIsConsistent(db: Rows, gone: set<Key>)
    requires Consistent(db) && Deletable(db, gone)
    ensures Consistent(Without(db, gone))
  {
    hide Points, KeyOf, Reference, Satisfies, EntryOf, Nulled, Unique;
    var after := Without(db, gone);
    forall x | x in after ensures KeyOf(after[x]) == x {
      NulledFacts(db[x], gone);
    }
    forall x, fk: Fk | x in after ensures FkHolds(after, fk, after[x]) {
      SurvivorHolds(db, gone, x, fk);
    }
    WithoutIsUnique(db, gone);
  }
}
