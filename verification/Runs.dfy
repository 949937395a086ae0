/** Sequences of statements and transactions, and what every one of them keeps. */
module Runs {
  import opened Wrappers
  import opened Schema
  import opened Cascade
  import opened Database

  /** A transaction: all of its statements, or none if one is refused. */
  ghost function Attempt(db: Rows, ss: seq<Statement>): Option<Rows>
    decreases ss
  {
    if ss == [] then Some(db)
    else match Apply(db, ss[0]) case None => None case Some(next) => Attempt(next, ss[1..])
  }

  ghost function Commit(db: Rows, ss: seq<Statement>): Rows {
    match Attempt(db, ss) case Some(after) => after case None => db
  }

  /** Transactions one after the other. */
  ghost function Run(db: Rows, txns: seq<seq<Statement>>): Rows
    decreases txns
  {
    if txns == [] then db else Run(Commit(db, txns[0]), txns[1..])
  }

  lemma AttemptOne(db: Rows, s: Statement)
    ensures Attempt(db, [s]) == Apply(db, s)
  {
  }

  lemma ApplyKeepsConsistent(db: Rows, s: Statement)
    requires Consistent(db)
    ensures Apply(db, s).Some? ==> Consistent(Apply(db, s).value)
    ensures Consistent(Execute(db, s))
  {
    hide Consistent, DeleteRefused, Closure, Without, Inserted, Updated;
    if s.Delete? && s.key in db && !DeleteRefused(db, s.key) {
      RefusedExactlyAtRoot(db, s.key);
      ClosureIsDeletable(db, s.key);
      WithoutIsConsistent(db, Closure(db, s.key));
    }
  }

  lemma {:induction false} AttemptKeepsConsistent(db: Rows, ss: seq<Statement>)
    requires Consistent(db)
    ensures Attempt(db, ss).Some? ==> Consistent(Attempt(db, ss).value)
    decreases ss
  {
    hide Consistent, Apply;
    if ss != [] && Apply(db, ss[0]).Some? {
      ApplyKeepsConsistent(db, ss[0]);
      AttemptKeepsConsistent(Apply(db, ss[0]).value, ss[1..]);
    }
  }

  /** Every state that any run of transactions reaches satisfies every constraint. */
  lemma {:induction false} RunKeepsConsistent(db: Rows, txns: seq<seq<Statement>>)
    requires Consistent(db)
    ensures Consistent(Run(db, txns))
    decreases txns
  {
    hide Consistent, Attempt;
    if txns != [] {
      AttemptKeepsConsistent(db, txns[0]);
      RunKeepsConsistent(Commit(db, txns[0]), txns[1..]);
    }
  }
}
