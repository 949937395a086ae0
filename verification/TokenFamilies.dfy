/** Refresh-token rotation chains. `family_id` is meant to name one chain and `parent_id` to reconstruct
    it; the schema enforces neither, so the results are about runs of transactions in which token rows are
    written the way the table describes: rotation appends a row under a new id that copies its parent's
    family, and a login starts a new family. Deletes of any kind may happen in between, and a transaction
    that is refused leaves no trace. */
module TokenFamilies {
  import opened Wrappers
  import opened Schema
  import opened Cascade
  import opened Database
  import opened Runs
  import opened ParentLinks

  /** What is remembered of a token for ever: its family, how many tokens were issued before it, and how
      many before the login it descends from, which tells logins apart. */
  datatype Lineage = Lineage(family: Id, login: nat, order: nat)

  type History = map<Id, Lineage>

  /** How token rows are written. Statements on other tables, and deletes, are free. */
  predicate Disciplined(db: Rows, past: History, s: Statement) {
    match s
    case Insert(RefreshToken(id, family, _, _, _, parent, _)) =>
      && id !in past
      && (match parent
          case None => forall other <- past :: past[other].family != family
          case Some(p) => TokenKey(p) in db && db[TokenKey(p)].RefreshToken? && db[TokenKey(p)].family == family)
    case Update(k, row) =>
      k.TokenKey? && k in db && db[k].RefreshToken? ==>
        row.RefreshToken? && row.id == k.id && row.family == db[k].family && row.parent == db[k].parent
    case _ => true
  }

  ghost function Remember(db: Rows, past: History, s: Statement): History {
    if s.Insert? && s.row.RefreshToken? && Apply(db, s).Some? then
      past[s.row.id := Lineage(s.row.family,
        match s.row.parent case Some(p) => (if p in past then past[p].login else |past|) case None => |past|,
        |past|)]
    else past
  }

  predicate Agree(x: Lineage, y: Lineage) {
    x.family == y.family <==> x.login == y.login
  }

  /** Two tokens share a family exactly when they descend from one login. */
  ghost predicate WellKept(past: History) {
    && (forall i <- past :: past[i].login <= past[i].order < |past|)
    && (forall i, j | i in past && j in past :: Agree(past[i], past[j]))
  }

  predicate TokenFaithful(row: Row, past: History)
    requires row.RefreshToken?
  {
    && row.id in past && past[row.id].family == row.family
    && (row.parent.Some? ==>
          && row.parent.value in past
          && past[row.parent.value].login == past[row.id].login
          && past[row.parent.value].order < past[row.id].order)
  }

  /** The tokens that remain agree with the history. */
  ghost predicate Faithful(db: Rows, past: History) {
    && WellKept(past)
    && (forall k <- db :: db[k].RefreshToken? ==> TokenFaithful(db[k], past))
  }

  // ----- one statement ------------------------------------------------------------------------

  /** A token row after a statement is the one inserted, or one that was there with at most its parent
      set to null. */
  lemma TokenAfter(db: Rows, past: History, s: Statement, k: Key)
    requires Consistent(db) && Disciplined(db, past, s) && k in Execute(db, s) && Execute(db, s)[k].RefreshToken?
    ensures
      var row := Execute(db, s)[k];
      || (s == Insert(row) && Apply(db, s).Some?)
      || (k in db && db[k].RefreshToken? && row.id == db[k].id && row.family == db[k].family
          && (row.parent == db[k].parent || row.parent.None?))
  {
    hide NoDangling, Unique, DeleteRefused, Closure;
    ApplyKeepsConsistent(db, s);
    var row := Execute(db, s)[k];
    assert KeyOf(row) == k;
    if Apply(db, s).Some? {
      match s {
        case Insert(_) =>
        case Update(j, _) =>
          if j in db {
            assert KeyOf(db[j]) == j;
          }
        case Delete(j) =>
          if j in db {
            NulledToken(db[k], Closure(db, j));
          }
      }
    }
  }

  lemma InsertedParent(db: Rows, past: History, row: Row)
    requires Consistent(db) && Faithful(db, past) && row.RefreshToken? && Disciplined(db, past, Insert(row))
    ensures row.id !in past
    ensures row.parent.Some? ==>
              row.parent.value in past && row.parent.value != row.id && past[row.parent.value].family == row.family
  {
  }

  /** What the history says of a token that is still there. */
  lemma TokenRow(db: Rows, past: History, id: Id)
    requires Consistent(db) && Faithful(db, past) && TokenKey(id) in db
    ensures db[TokenKey(id)].RefreshToken? && db[TokenKey(id)].id == id && TokenFaithful(db[TokenKey(id)], past)
  {
  }

  lemma WellKeptAdd(past: History, id: Id, l: Lineage, p: Option<Id>)
    requires WellKept(past) && id !in past && l.order == |past|
    requires p.None? ==> l.login == |past| && forall other <- past :: past[other].family != l.family
    requires p.Some? ==> p.value in past && l.login == past[p.value].login && l.family == past[p.value].family
    ensures WellKept(past[id := l])
  {
  }

  lemma HistoryGrows(db: Rows, past: History, s: Statement)
    requires Consistent(db) && Faithful(db, past) && Disciplined(db, past, s)
    ensures WellKept(Remember(db, past, s))
    ensures forall i <- past :: i in Remember(db, past, s) && Remember(db, past, s)[i] == past[i]
  {
    hide Consistent, Apply, WellKept, TokenFaithful;
    if Remember(db, past, s) != past {
      InsertedParent(db, past, s.row);
      WellKeptAdd(past, s.row.id, Remember(db, past, s)[s.row.id], s.row.parent);
    }
  }

  /** A new token is faithful to the history that remembers it. */
  lemma NewTokenFaithful(db: Rows, past: History, row: Row)
    requires Consistent(db) && Faithful(db, past) && row.RefreshToken? && Disciplined(db, past, Insert(row))
    requires Apply(db, Insert(row)).Some?
    ensures TokenFaithful(row, Remember(db, past, Insert(row)))
  {
  }

  lemma TokenStaysFaithful(was: Row, row: Row, past: History, now: History)
    requires was.RefreshToken? && row.RefreshToken? && row.id == was.id && row.family == was.family
    requires row.parent == was.parent || row.parent.None?
    requires TokenFaithful(was, past) && forall i <- past :: i in now && now[i] == past[i]
    ensures TokenFaithful(row, now)
  {
  }

  lemma StatementKeepsFaithful(db: Rows, past: History, s: Statement)
    requires Consistent(db) && Faithful(db, past) && Disciplined(db, past, s)
    ensures Faithful(Execute(db, s), Remember(db, past, s))
  {
    hide Consistent, Apply, Execute, Disciplined, TokenFaithful, WellKept, Remember;
    var after, now := Execute(db, s), Remember(db, past, s);
    HistoryGrows(db, past, s);
    forall k | k in after && after[k].RefreshToken? ensures TokenFaithful(after[k], now) {
      TokenAfter(db, past, s, k);
      if s == Insert(after[k]) && Apply(db, s).Some? {
        NewTokenFaithful(db, past, after[k]);
      } else {
        TokenStaysFaithful(db[k], after[k], past, now);
      }
    }
  }

  // ----- whole runs ---------------------------------------------------------------------------

  ghost function ExecuteAll(db: Rows, ss: seq<Statement>): Rows
    decreases ss
  {
    if ss == [] then db else ExecuteAll(Execute(db, ss[0]), ss[1..])
  }

  ghost function RememberAll(db: Rows, past: History, ss: seq<Statement>): History
    decreases ss
  {
    if ss == [] then past else RememberAll(Execute(db, ss[0]), Remember(db, past, ss[0]), ss[1..])
  }

  ghost predicate AllDisciplined(db: Rows, past: History, ss: seq<Statement>)
    decreases ss
  {
    ss == [] || (Disciplined(db, past, ss[0]) && AllDisciplined(Execute(db, ss[0]), Remember(db, past, ss[0]), ss[1..]))
  }

  lemma {:induction false} AllKeepFaithful(db: Rows, past: History, ss: seq<Statement>)
    requires Consistent(db) && Faithful(db, past) && AllDisciplined(db, past, ss)
    ensures Faithful(ExecuteAll(db, ss), RememberAll(db, past, ss))
    decreases ss
  {
    hide Consistent, Apply, Execute, Disciplined, Faithful, Remember;
    if ss != [] {
      StatementKeepsFaithful(db, past, ss[0]);
      ApplyKeepsConsistent(db, ss[0]);
      AllKeepFaithful(Execute(db, ss[0]), Remember(db, past, ss[0]), ss[1..]);
    }
  }

  lemma {:induction false} AttemptExecutes(db: Rows, ss: seq<Statement>)
    requires Attempt(db, ss).Some?
    ensures ExecuteAll(db, ss) == Attempt(db, ss).value
    decreases ss
  {
    hide Apply;
    if ss != [] {
      AttemptExecutes(Apply(db, ss[0]).value, ss[1..]);
    }
  }

  /** A transaction that is refused leaves no trace in the history either. */
  ghost function RememberTxn(db: Rows, past: History, ss: seq<Statement>): History {
    if Attempt(db, ss).Some? then RememberAll(db, past, ss) else past
  }

  ghost function RunHistory(db: Rows, past: History, txns: seq<seq<Statement>>): History
    decreases txns
  {
    if txns == [] then past else RunHistory(Commit(db, txns[0]), RememberTxn(db, past, txns[0]), txns[1..])
  }

  /** Every transaction that commits is written with discipline; what the others hold does not matter. */
  ghost predicate RunDisciplined(db: Rows, past: History, txns: seq<seq<Statement>>)
    decreases txns
  {
    txns == [] ||
    ((Attempt(db, txns[0]).Some? ==> AllDisciplined(db, past, txns[0]))
     && RunDisciplined(Commit(db, txns[0]), RememberTxn(db, past, txns[0]), txns[1..]))
  }

  lemma {:induction false} RunKeepsFaithful(db: Rows, past: History, txns: seq<seq<Statement>>)
    requires Consistent(db) && Faithful(db, past) && RunDisciplined(db, past, txns)
    ensures Consistent(Run(db, txns)) && Faithful(Run(db, txns), RunHistory(db, past, txns))
    decreases txns
  {
    hide Consistent, Attempt, Faithful, RememberAll, ExecuteAll, AllDisciplined;
    if txns != [] {
      AttemptKeepsConsistent(db, txns[0]);
      if Attempt(db, txns[0]).Some? {
        AllKeepFaithful(db, past, txns[0]);
        AttemptExecutes(db, txns[0]);
      }
      RunKeepsFaithful(Commit(db, txns[0]), RememberTxn(db, past, txns[0]), txns[1..]);
    }
  }

  // ----- what follows for the rows ------------------------------------------------------------

  lemma SameLoginSameFamily(db: Rows, past: History, i: Id, j: Id)
    requires Faithful(db, past) && i in past && j in past
    ensures past[i].login == past[j].login <==> past[i].family == past[j].family
  {
  }

  lemma {:induction false} AncestorFacts(db: Rows, past: History, id: Id, n: nat)
    requires Consistent(db) && Faithful(db, past) && TokenKey(id) in db && Ancestor(db, id, n).Some?
    ensures
      var up := Ancestor(db, id, n).value;
      && TokenKey(up) in db && db[TokenKey(up)].RefreshToken?
      && db[TokenKey(id)].RefreshToken? && db[TokenKey(up)].family == db[TokenKey(id)].family
      && up in past && id in past && (n > 0 ==> past[up].order < past[id].order)
    decreases n
  {
    hide Consistent, Faithful;
    TokenRow(db, past, id);
    if n > 0 {
      var p := ParentOf(db, id).value;
      ParentExists(db, id);
      TokenRow(db, past, p);
      SameLoginSameFamily(db, past, id, p);
      AncestorFacts(db, past, p, n - 1);
    }
  }

  /** The parent links form a forest whose trees stay within one family: every link leads to a token that
      exists, of the same family, and no chain of links returns to where it began. */
  lemma ChainsAreForest(db: Rows, past: History, id: Id, n: nat)
    requires Consistent(db) && Faithful(db, past) && TokenKey(id) in db && n > 0
    ensures Ancestor(db, id, n) != Some(id)
    ensures Ancestor(db, id, n).Some? ==>
              && TokenKey(Ancestor(db, id, n).value) in db
              && db[TokenKey(id)].RefreshToken? && db[TokenKey(Ancestor(db, id, n).value)].RefreshToken?
              && db[TokenKey(Ancestor(db, id, n).value)].family == db[TokenKey(id)].family
  {
    hide Consistent, Faithful, Ancestor;
    if Ancestor(db, id, n).Some? {
      AncestorFacts(db, past, id, n);
    }
  }

  /** The rows that a query on `family_id` returns. */
  function FamilyQuery(db: Rows, family: Id): set<Id> {
    set k | k in db && db[k].RefreshToken? && db[k].family == family :: db[k].id
  }

  /** The tokens still there that descend from one login, through links that may since have been
      cut by the deletion of a token in between. */
  function Chain(db: Rows, past: History, login: nat): set<Id> {
    set k | k in db && db[k].RefreshToken? && db[k].id in past && past[db[k].id].login == login :: db[k].id
  }

  /** A query for a token's family returns exactly the surviving tokens of its chain. */
  lemma FamilyIsChain(db: Rows, past: History, id: Id)
    requires Consistent(db) && Faithful(db, past) && TokenKey(id) in db
    ensures db[TokenKey(id)].RefreshToken? && id in past
    ensures FamilyQuery(db, db[TokenKey(id)].family) == Chain(db, past, past[id].login)
  {
  }

  lemma NoTokenNoLink(db: Rows, id: Id, n: nat)
    requires TokenKey(id) !in db && n > 0
    ensures Ancestor(db, id, n) == None
  {
  }

  lemma OneLink(db: Rows, id: Id)
    requires ParentOf(db, id).Some?
    ensures Ancestor(db, id, 1) == ParentOf(db, id)
  {
    assert Ancestor(db, ParentOf(db, id).value, 0) == ParentOf(db, id);
  }

  lemma FaithfulMeansForest(db: Rows, past: History)
    requires Consistent(db) && Faithful(db, past)
    ensures Acyclic(db) && OneFamily(db)
  {
    hide Consistent, Faithful, Ancestor;
    forall id: Id, n: nat | n > 0 ensures Ancestor(db, id, n) != Some(id) {
      if TokenKey(id) in db {
        ChainsAreForest(db, past, id, n);
      } else {
        NoTokenNoLink(db, id, n);
      }
    }
    forall k | k in db && db[k].RefreshToken? && db[k].parent.Some? ensures LinkInFamily(db, db[k]) {
      KeyedToken(db, k);
      OneLink(db, db[k].id);
      ChainsAreForest(db, past, db[k].id, 1);
    }
  }

  /** In every run of transactions from a database without tokens, whatever is deleted on the way: the
      links form a forest within families, each link chain leads to existing tokens of one family, and a
      query for a family returns the surviving tokens of its login. */
  lemma FamiliesInEveryRun(db: Rows, txns: seq<seq<Statement>>, id: Id, n: nat)
    requires Consistent(db) && (forall k <- db :: !db[k].RefreshToken?) && RunDisciplined(db, map[], txns)
    ensures Acyclic(Run(db, txns)) && OneFamily(Run(db, txns))
    ensures TokenKey(id) in Run(db, txns) ==>
      var after, past := Run(db, txns), RunHistory(db, map[], txns);
      && after[TokenKey(id)].RefreshToken? && id in past
      && (Ancestor(after, id, n).Some? ==>
            var up := TokenKey(Ancestor(after, id, n).value);
            up in after && after[up].RefreshToken? && after[up].family == after[TokenKey(id)].family)
      && FamilyQuery(after, after[TokenKey(id)].family) == Chain(after, past, past[id].login)
  {
    hide Consistent, Run, RunHistory, RunDisciplined, FamilyQuery, Chain, Acyclic, OneFamily;
    var after, past := Run(db, txns), RunHistory(db, map[], txns);
    RunKeepsFaithful(db, map[], txns);
    FaithfulMeansForest(after, past);
    if TokenKey(id) in after {
      FamilyIsChain(after, past, id);
      if n > 0 {
        ChainsAreForest(after, past, id, n);
      }
    }
  }

  // ----- a rotation ---------------------------------------------------------------------------

  /** The next token of a chain is stored, and the one it replaces marked as used. */
  function Rotate(was: Row, next: Row, at: int): seq<Statement>
    requires was.RefreshToken?
  {
    [Insert(next), Update(TokenKey(was.id), was.(usedAt := Some(at)))]
  }

  predicate Succeeds(next: Row, was: Row) {
    was.RefreshToken? && next.RefreshToken? && next.parent == Some(was.id) && next.family == was.family
  }

  lemma StampHolds(db: Rows, k: Key, at: int)
    requires Keyed(db) && NoDangling(db) && k in db && db[k].RefreshToken?
    ensures NoDangling(db[k := db[k].(usedAt := Some(at))])
  {
    var row := db[k].(usedAt := Some(at));
    var after := db[k := row];
    forall c, fk: Fk | c in after ensures FkHolds(after, fk, after[c]) {
      assert FkHolds(db, fk, db[c]);
      assert Reference(fk, after[c]) == Reference(fk, db[c]);
    }
  }

  lemma StampIsUnique(db: Rows, k: Key, at: int)
    requires Unique(db) && k in db && db[k].RefreshToken?
    ensures Unique(db[k := db[k].(usedAt := Some(at))])
  {
    var after := db[k := db[k].(usedAt := Some(at))];
    forall c | c in after ensures c in db && EntryOf(after[c]) == EntryOf(db[c]) {
    }
  }

  /** Marking a token as used is always accepted. */
  lemma StampIsAccepted(db: Rows, k: Key, at: int)
    requires Consistent(db) && k in db && db[k].RefreshToken?
    ensures var row := db[k].(usedAt := Some(at));
      Apply(db, Update(k, row)) == Some(db[k := row])
  {
    hide NoDangling, Unique;
    var row := db[k].(usedAt := Some(at));
    assert Updated(db, k, row) == db[k := row];
    StampHolds(db, k, at);
    StampIsUnique(db, k, at);
  }

  lemma InsertedToken(db: Rows, next: Row)
    requires next.RefreshToken? && Apply(db, Insert(next)).Some?
    ensures TokenKey(next.id) !in db && Apply(db, Insert(next)) == Some(db[TokenKey(next.id) := next])
  {
  }

  /** A rotation commits exactly when the new id and hash are unused and the user exists. Then it adds the
      new token and changes nothing else but the stamp. It is refused whole: neither the rows nor the
      history show it. */
  lemma RotationIsAtomic(db: Rows, past: History, was: Row, next: Row, at: int)
    requires Consistent(db) && Succeeds(next, was) && TokenKey(was.id) in db && db[TokenKey(was.id)] == was
    ensures Attempt(db, Rotate(was, next, at)).Some? <==>
      TokenKey(next.id) !in db && !HashUsed(db, next.hash, next.id) && UserKey(next.user) in db
    ensures Attempt(db, Rotate(was, next, at)).Some? ==>
      Commit(db, Rotate(was, next, at)) == db[TokenKey(next.id) := next][TokenKey(was.id) := was.(usedAt := Some(at))]
    ensures Attempt(db, Rotate(was, next, at)).None? ==>
      Commit(db, Rotate(was, next, at)) == db && RememberTxn(db, past, Rotate(was, next, at)) == past
  {
    hide Consistent, Apply, HashUsed, RememberAll;
    var first, second := Rotate(was, next, at)[0], Rotate(was, next, at)[1];
    assert Rotate(was, next, at)[1..] == [second];
    TokenInsert(db, next);
    if Apply(db, first).Some? {
      InsertedToken(db, next);
      var mid := db[TokenKey(next.id) := next];
      ApplyKeepsConsistent(db, first);
      StampIsAccepted(mid, TokenKey(was.id), at);
      AttemptOne(mid, second);
    }
  }

  lemma AllOfOne(db: Rows, past: History, s: Statement)
    ensures AllDisciplined(db, past, [s]) <==> Disciplined(db, past, s)
    ensures RememberAll(db, past, [s]) == Remember(db, past, s)
  {
    hide Disciplined, Remember, Execute;
    assert [s][1..] == [];
  }

  /** A rotation under an id that was never used before is disciplined, and what is remembered of the new
      token is that it continues the chain of the old one. */
  lemma RotationIsDisciplined(db: Rows, past: History, was: Row, next: Row, at: int)
    requires Consistent(db) && Faithful(db, past) && Succeeds(next, was)
    requires TokenKey(was.id) in db && db[TokenKey(was.id)] == was && next.id !in past
    ensures Attempt(db, Rotate(was, next, at)).Some? ==>
      && AllDisciplined(db, past, Rotate(was, next, at))
      && was.id in past
      && RememberTxn(db, past, Rotate(was, next, at))
         == past[next.id := Lineage(was.family, past[was.id].login, |past|)]
  {
    hide Consistent, Faithful;
    var ss := Rotate(was, next, at);
    TokenRow(db, past, was.id);
    if Attempt(db, ss).Some? {
      InsertedToken(db, next);
      var mid := db[TokenKey(next.id) := next];
      assert Execute(db, ss[0]) == mid;
      var now := Remember(db, past, ss[0]);
      assert ss[1..] == [ss[1]] && ss[1..][1..] == [];
      assert Disciplined(mid, now, ss[1]);
      AllOfOne(mid, now, ss[1]);
    }
  }
}
