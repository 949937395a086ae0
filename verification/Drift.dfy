/** The offline drift check: object names are collected from DDL text by three patterns and compared. */
module Drift {
  import opened Wrappers
  import opened Regex

  // ----- re.findall ---------------------------------------------------------------------------

  /** The captures of item `k` in every non-overlapping match, from left to right. */
  function FindAll(a: Alphabet, r: Regex, k: nat, pw: bool, t: string): seq<string>
    requires MinLen(r) > 0
    decreases |t|
  {
    if t == "" then []
    else
      match Match(a, r, pw, t)
      case None => FindAll(a, r, k, a.Word(t[0]), t[1..])
      case Some(ls) =>
        ParseLength(a, r, pw, t, ls);
        var n := Total(ls);
        [Capture(t, ls, k)] + FindAll(a, r, k, a.Word(t[n - 1]), t[n..])
  }

  lemma FindAllStep(a: Alphabet, r: Regex, k: nat, pw: bool, t: string)
    requires MinLen(r) > 0 && t != ""
    ensures Match(a, r, pw, t).None? ==> FindAll(a, r, k, pw, t) == FindAll(a, r, k, a.Word(t[0]), t[1..])
  {
  }

  lemma FindAllHit(a: Alphabet, r: Regex, k: nat, pw: bool, t: string, ls: Spans)
    requires MinLen(r) > 0 && Match(a, r, pw, t) == Some(ls)
    ensures 0 < Total(ls) <= |t|
    ensures FindAll(a, r, k, pw, t) == [Capture(t, ls, k)] + FindAll(a, r, k, a.PrevWord(pw, t, Total(ls)), t[Total(ls)..])
  {
    hide Alphabet.Word, In, Parse, Match, Capture;
    ParseLength(a, r, pw, t, ls);
  }

  /** A pattern without `\b`. */
  predicate NoBoundary(r: Regex) {
    r.Done? || (!r.item.Boundary? && NoBoundary(r.rest))
  }

  lemma {:induction false} NoBoundaryIsTailFree(r: Regex)
    requires NoBoundary(r)
    ensures TailFree(r)
  {
    if r.Then? {
      NoBoundaryIsTailFree(r.rest);
    }
  }

  /** Without `\b`, what comes before does not matter. */
  lemma {:induction false} ParseIgnoresBefore(a: Alphabet, r: Regex, pw: bool, pw': bool, t: string, ls: Spans)
    requires NoBoundary(r) && Parse(a, r, pw, t, ls)
    ensures Parse(a, r, pw', t, ls)
  {
    hide Alphabet.Word, Alphabet.PrevWord, In;
    if r.Then? {
      ParseIgnoresBefore(a, r.rest, a.PrevWord(pw, t, ls.len), a.PrevWord(pw', t, ls.len), t[ls.len..], ls.more);
    }
  }

  lemma NewlineWithin(x: string, y: string, n: nat)
    requires |x| < n <= |x + "\n" + y|
    ensures '\n' in (x + "\n" + y)[..n]
  {
    assert (x + "\n" + y)[..n][|x|] == '\n';
  }

  lemma BeforeNewline(x: string, y: string, n: nat)
    requires n <= |x + "\n" + y| && '\n' !in (x + "\n" + y)[..n]
    ensures SamePrefix(x + "\n" + y, x, n)
  {
    if |x| < n {
      NewlineWithin(x, y, n);
    }
  }

  /** A pattern that cannot take a newline sees a text followed by one as if the text ended there. */
  lemma ParseStopsAtNewline(a: Alphabet, r: Regex, pw: bool, pw': bool, x: string, y: string, ls: Spans)
    requires NoBoundary(r) && Avoids(a, r, '\n')
    ensures Parse(a, r, pw, x + "\n" + y, ls) <==> Parse(a, r, pw', x, ls)
  {
    hide Alphabet.Word, Alphabet.PrevWord, In, Parse, Avoids, SameNext;
    var t := x + "\n" + y;
    NoBoundaryIsTailFree(r);
    if Parse(a, r, pw, t, ls) {
      ParseAvoids(a, r, '\n', pw, t, ls);
      BeforeNewline(x, y, Total(ls));
      ParseIsLocal(a, r, pw, t, x, ls);
      ParseIgnoresBefore(a, r, pw, pw', x, ls);
    }
    if Parse(a, r, pw', x, ls) {
      ParseFits(a, r, pw', x, ls);
      ParseIsLocal(a, r, pw', x, t, ls);
      ParseIgnoresBefore(a, r, pw', pw, t, ls);
    }
  }

  lemma MatchStopsAtNewline(a: Alphabet, r: Regex, pw: bool, pw': bool, x: string, y: string)
    requires NoBoundary(r) && Avoids(a, r, '\n')
    ensures Match(a, r, pw, x + "\n" + y) == Match(a, r, pw', x)
  {
    hide Alphabet.Word, In, Parse, Match, Avoids, NoBoundary;
    var t := x + "\n" + y;
    var m, m' := Match(a, r, pw, t), Match(a, r, pw', x);
    if m.Some? {
      ParseStopsAtNewline(a, r, pw, pw', x, y, m.value);
      MatchIsGreediest(a, r, pw', x, m.value);
    }
    if m'.Some? {
      ParseStopsAtNewline(a, r, pw, pw', x, y, m'.value);
      MatchIsGreediest(a, r, pw, t, m'.value);
      PrefersIsAntisymmetric(a, r, pw, t, m.value, m'.value);
    }
  }

  lemma {:induction false} CaptureIsLocal(x: string, t: string, ls: Spans, k: nat)
    requires Total(ls) <= |x| && x <= t
    ensures Capture(t, ls, k) == Capture(x, ls, k)
    decreases ls
  {
    if ls.Span? {
      assert t[..ls.len] == x[..ls.len];
      assert x[ls.len..] <= t[ls.len..];
      if k > 0 {
        CaptureIsLocal(x[ls.len..], t[ls.len..], ls.more, k - 1);
      }
    }
  }

  lemma FindAllEmpty(a: Alphabet, r: Regex, k: nat, pw: bool)
    requires MinLen(r) > 0
    ensures FindAll(a, r, k, pw, "") == []
  {
  }

  lemma NoMatchInEmpty(a: Alphabet, r: Regex, pw: bool)
    requires MinLen(r) > 0
    ensures Match(a, r, pw, "").None?
  {
    hide Alphabet.Word, In, Parse, Match;
    var m := Match(a, r, pw, "");
    if m.Some? {
      ParseLength(a, r, pw, "", m.value);
    }
  }

  lemma MatchIgnoresBefore(a: Alphabet, r: Regex, pw: bool, pw': bool, t: string)
    requires NoBoundary(r)
    ensures Match(a, r, pw, t) == Match(a, r, pw', t)
  {
    hide Alphabet.Word, In, Parse, Match, NoBoundary;
    var m, m' := Match(a, r, pw, t), Match(a, r, pw', t);
    if m.Some? {
      ParseIgnoresBefore(a, r, pw, pw', t, m.value);
      MatchIsGreediest(a, r, pw', t, m.value);
    }
    if m'.Some? {
      ParseIgnoresBefore(a, r, pw', pw, t, m'.value);
      MatchIsGreediest(a, r, pw, t, m'.value);
      PrefersIsAntisymmetric(a, r, pw, t, m.value, m'.value);
    }
  }

  lemma {:induction false} FindAllIgnoresBefore(a: Alphabet, r: Regex, k: nat, pw: bool, pw': bool, t: string)
    requires MinLen(r) > 0 && NoBoundary(r)
    ensures FindAll(a, r, k, pw, t) == FindAll(a, r, k, pw', t)
  {
    hide Alphabet.Word, In, Parse, Match, NoBoundary;
    if t != "" {
      MatchIgnoresBefore(a, r, pw, pw', t);
    }
  }

  /** What is found in two texts joined by a newline is what is found in the one and then the other. */
  lemma {:induction false} FindAllJoin(a: Alphabet, r: Regex, k: nat, pw: bool, pw': bool, pw'': bool, x: string, y: string)
    requires MinLen(r) > 0 && NoBoundary(r) && Avoids(a, r, '\n')
    ensures FindAll(a, r, k, pw, x + "\n" + y) == FindAll(a, r, k, pw', x) + FindAll(a, r, k, pw'', y)
    decreases |x| + |y|
  {
    hide Alphabet.Word, Alphabet.PrevWord, In, Parse, Match, Avoids, NoBoundary, FindAll, Capture;
    var t := x + "\n" + y;
    MatchStopsAtNewline(a, r, pw, pw', x, y);
    var m := Match(a, r, pw', x);
    if x == "" {
      NoMatchInEmpty(a, r, pw');
      FindAllStep(a, r, k, pw, t);
      assert t[1..] == y;
      FindAllIgnoresBefore(a, r, k, a.Word(t[0]), pw'', y);
      FindAllEmpty(a, r, k, pw');
    } else if m.None? {
      FindAllStep(a, r, k, pw, t);
      FindAllStep(a, r, k, pw', x);
      assert t[1..] == x[1..] + "\n" + y;
      FindAllJoin(a, r, k, a.Word(t[0]), a.Word(x[0]), pw'', x[1..], y);
    } else {
      var n := Total(m.value);
      FindAllHit(a, r, k, pw, t, m.value);
      FindAllHit(a, r, k, pw', x, m.value);
      CaptureIsLocal(x, t, m.value, k);
      assert t[n..] == x[n..] + "\n" + y;
      FindAllJoin(a, r, k, a.PrevWord(pw, t, n), a.PrevWord(pw', x, n), pw'', x[n..], y);
    }
  }

  // ----- names_from ---------------------------------------------------------------------------

  const NAME := Then(Many(Word, 1), Done)
  const TABLE := Then(Lit("CREATE TABLE ", true), NAME)
  const CONSTRAINT := Then(Lit("CONSTRAINT ", true), NAME)
  const INDEX := Then(Lit("CREATE ", true), Then(Maybe("UNIQUE ", true), Then(Lit("INDEX ", true), NAME)))

  const IGNORED_TABLES := {"alembic_version"}
  const IGNORED_CONSTRAINTS := {"alembic_version_pkc"}

  datatype Names = Names(tables: set<string>, constraints: set<string>, indexes: set<string>) {
    function Union(other: Names): Names {
      Names(tables + other.tables, constraints + other.constraints, indexes + other.indexes)
    }
  }

  /** The pattern is made of words, spaces and names, none of which holds a newline. */
  predicate OneLine(a: Alphabet, r: Regex) {
    MinLen(r) > 0 && NoBoundary(r) && Avoids(a, r, '\n')
  }

  lemma LitOneLine(a: Alphabet, text: string, rest: Regex)
    requires OneLine(a, rest) && forall c <- text :: c == ' ' || 'A' <= c <= 'Z'
    ensures OneLine(a, Then(Lit(text, true), rest))
    ensures OneLine(a, Then(Maybe(text, true), rest))
  {
  }

  lemma NameIsOneLine(a: Alphabet)
    ensures OneLine(a, NAME)
  {
  }

  lemma IndexIsOneLine(a: Alphabet)
    ensures OneLine(a, INDEX)
  {
    hide OneLine;
    NameIsOneLine(a);
    LitOneLine(a, "INDEX ", NAME);
    LitOneLine(a, "UNIQUE ", Then(Lit("INDEX ", true), NAME));
    LitOneLine(a, "CREATE ", Then(Maybe("UNIQUE ", true), Then(Lit("INDEX ", true), NAME)));
  }

  lemma PatternsAreOneLine(a: Alphabet)
    ensures OneLine(a, TABLE) && OneLine(a, CONSTRAINT) && OneLine(a, INDEX)
  {
    hide OneLine;
    NameIsOneLine(a);
    LitOneLine(a, "CREATE TABLE ", NAME);
    LitOneLine(a, "CONSTRAINT ", NAME);
    IndexIsOneLine(a);
  }

  function NamesFrom(a: Alphabet, sql: string): Names {
    PatternsAreOneLine(a);
    Names(
      (set x | x in FindAll(a, TABLE, 1, false, sql)) - IGNORED_TABLES,
      (set x | x in FindAll(a, CONSTRAINT, 1, false, sql)) - IGNORED_CONSTRAINTS,
      (set x | x in FindAll(a, INDEX, 3, false, sql)))
  }

  lemma NamesOfTwo(a: Alphabet, x: string, y: string)
    ensures NamesFrom(a, x + "\n" + y) == NamesFrom(a, x).Union(NamesFrom(a, y))
  {
    hide FindAll, Avoids, NoBoundary;
    PatternsAreOneLine(a);
    FindAllJoin(a, TABLE, 1, false, false, false, x, y);
    FindAllJoin(a, CONSTRAINT, 1, false, false, false, x, y);
    FindAllJoin(a, INDEX, 3, false, false, false, x, y);
  }

  // ----- joined statements --------------------------------------------------------------------

  lemma NamesOfNothing(a: Alphabet)
    ensures NamesFrom(a, "") == Names({}, {}, {})
  {
  }

  lemma {:induction false} NamesOfJoin(a: Alphabet, parts: seq<string>, name: string)
    ensures name in NamesFrom(a, Join("\n", parts)).tables <==> exists p <- parts :: name in NamesFrom(a, p).tables
    ensures name in NamesFrom(a, Join("\n", parts)).constraints <==> exists p <- parts :: name in NamesFrom(a, p).constraints
    ensures name in NamesFrom(a, Join("\n", parts)).indexes <==> exists p <- parts :: name in NamesFrom(a, p).indexes
  {
    if parts == [] {
      NamesOfNothing(a);
    } else if |parts| > 1 {
      hide NamesFrom;
      NamesOfTwo(a, parts[0], Join("\n", parts[1..]));
      NamesOfJoin(a, parts[1..], name);
      assert forall p :: p in parts <==> p == parts[0] || p in parts[1..];
    } else {
      hide NamesFrom;
      assert parts[0] in parts;
    }
  }

  /** Neither the order nor the repetition of statements can change what is collected. */
  lemma NamesIgnoreOrder(a: Alphabet, xs: seq<string>, ys: seq<string>)
    requires forall p :: p in xs <==> p in ys
    ensures NamesFrom(a, Join("\n", xs)) == NamesFrom(a, Join("\n", ys))
  {
    hide NamesFrom, Join;
    forall name: string
      ensures name in NamesFrom(a, Join("\n", xs)).tables <==> name in NamesFrom(a, Join("\n", ys)).tables
      ensures name in NamesFrom(a, Join("\n", xs)).constraints <==> name in NamesFrom(a, Join("\n", ys)).constraints
      ensures name in NamesFrom(a, Join("\n", xs)).indexes <==> name in NamesFrom(a, Join("\n", ys)).indexes
    {
      NamesOfJoin(a, xs, name);
      NamesOfJoin(a, ys, name);
    }
    assert NamesFrom(a, Join("\n", xs)).tables == NamesFrom(a, Join("\n", ys)).tables;
    assert NamesFrom(a, Join("\n", xs)).constraints == NamesFrom(a, Join("\n", ys)).constraints;
    assert NamesFrom(a, Join("\n", xs)).indexes == NamesFrom(a, Join("\n", ys)).indexes;
  }

  // ----- model_sql and main -------------------------------------------------------------------

  /** A table of the metadata: the DDL that creates it, and that of its indexes. */
  datatype Table = Table(create: string, indexes: seq<string>)

  function Statements(tables: seq<Table>): seq<string> {
    if tables == [] then []
    else Statements(tables[..|tables| - 1]) + [tables[|tables| - 1].create] + tables[|tables| - 1].indexes
  }

  lemma StatementsOfOne(t: Table)
    ensures Statements([]) == [] && Statements([t]) == [t.create] + t.indexes
  {
    assert [t][..0] == [];
  }

  lemma StatementsStep(ts: seq<Table>, t: Table)
    ensures Statements(ts + [t]) == Statements(ts) + ([t.create] + t.indexes)
  {
    assert (ts + [t])[..|ts|] == ts;
  }

  lemma PlusAssociates<T>(x: seq<T>, y: seq<T>, z: seq<T>)
    ensures (x + y) + z == x + (y + z)
  {
  }

  lemma StatementsOfNone()
    ensures Statements([]) == []
  {
  }

  lemma {:induction false} StatementsConcat(xs: seq<Table>, ys: seq<Table>)
    ensures Statements(xs + ys) == Statements(xs) + Statements(ys)
  {
    hide Statements;
    if ys == [] {
      assert xs + ys == xs;
      StatementsOfNone();
    } else {
      var n := |ys| - 1;
      var more := [ys[n].create] + ys[n].indexes;
      StatementsConcat(xs, ys[..n]);
      assert ys[..n] + [ys[n]] == ys && (xs + ys[..n]) + [ys[n]] == xs + ys;
      StatementsStep(xs + ys[..n], ys[n]);
      StatementsStep(ys[..n], ys[n]);
      PlusAssociates(Statements(xs), Statements(ys[..n]), more);
    }
  }

  /** A table gives its own DDL and then that of its indexes, and tables come one after the other. */
  lemma StatementsInOrder(t: Table, xs: seq<Table>, ys: seq<Table>)
    ensures Statements([]) == [] && Statements([t]) == [t.create] + t.indexes
    ensures Statements(xs + ys) == Statements(xs) + Statements(ys)
  {
    hide Statements;
    StatementsOfOne(t);
    StatementsConcat(xs, ys);
  }

  method ModelSql(tables: seq<Table>) returns (sql: string)
    ensures sql == Join("\n", Statements(tables))
  {
    var parts: seq<string> := [];
    for i := 0 to |tables|
      invariant parts == Statements(tables[..i])
    {
      ghost var before := parts;
      parts := parts + [tables[i].create];
      for j := 0 to |tables[i].indexes|
        invariant parts == before + [tables[i].create] + tables[i].indexes[..j]
      {
        parts := parts + [tables[i].indexes[j]];
      }
      assert tables[..i + 1][..i] == tables[..i];
    }
    assert tables[..|tables|] == tables;
    sql := Join("\n", parts);
  }

  function Kind(names: Names, kind: nat): set<string>
    requires kind < 3
  {
    if kind == 0 then names.tables else if kind == 1 then names.constraints else names.indexes
  }

  /** The exit status: 0 without drift, 1 with, 2 when the migrations could not be rendered. */
  function ExitStatus(a: Alphabet, models: string, migrations: Option<string>): int {
    if migrations.None? then 2 else if NamesFrom(a, models) == NamesFrom(a, migrations.value) then 0 else 1
  }

  method Check(a: Alphabet, tables: seq<Table>, rendered: Option<string>) returns (status: int)
    ensures status == ExitStatus(a, Join("\n", Statements(tables)), rendered)
    ensures rendered.None? ==> status == 2
    ensures rendered.Some? ==> status == 0 || status == 1
    ensures rendered.Some? ==> (status == 0 <==> NamesFrom(a, Join("\n", Statements(tables))) == NamesFrom(a, rendered.value))
  {
    hide NamesFrom;
    var sql := ModelSql(tables);
    var models := NamesFrom(a, sql);
    if rendered.None? {
      return 2;
    }
    var migrations := NamesFrom(a, rendered.value);
    var ok := true;
    for kind := 0 to 3
      invariant ok <==> forall k: nat | k < kind :: Kind(models, k) == Kind(migrations, k)
    {
      var onlyModels := Kind(models, kind) - Kind(migrations, kind);
      var onlyMigrations := Kind(migrations, kind) - Kind(models, kind);
      if onlyModels == {} && onlyMigrations == {} {
        assert Kind(models, kind) == Kind(migrations, kind);
        continue;
      }
      assert Kind(models, kind) != Kind(migrations, kind);
      ok := false;
    }
    assert ok <==> models == migrations by {
      assert ok ==> Kind(models, 0) == Kind(migrations, 0);
      assert ok ==> Kind(models, 1) == Kind(migrations, 1);
      assert ok ==> Kind(models, 2) == Kind(migrations, 2);
    }
    status := if ok then 0 else 1;
  }
}
