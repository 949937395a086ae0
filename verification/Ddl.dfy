/** What `names_from` collects, told on the text: after each keyword the run of word characters that follows.
    The laws say what is collected from a text that opens with a keyword and a name, and from one that does
    not, so together they determine the names of every text. */
module Ddl {
  import opened Wrappers
  import opened Regex
  import opened Characters
  import opened Drift

  // ----- keywords -----------------------------------------------------------------------------

  datatype What = TableName | ConstraintName | IndexName

  /** The keyword of a kind of name, in any mix of cases, up to the name. */
  predicate IsKeyword(what: What, kw: string) {
    match what
    case TableName => |kw| == 13 && OpensWith(kw, "create table ", "CREATE TABLE ")
    case ConstraintName => |kw| == 11 && OpensWith(kw, "constraint ", "CONSTRAINT ")
    case IndexName =>
      || (|kw| == 13 && OpensWith(kw, "create index ", "CREATE INDEX "))
      || (|kw| == 20 && OpensWith(kw, "create unique index ", "CREATE UNIQUE INDEX "))
  }

  predicate IsName(a: Alphabet, name: string) {
    name != "" && forall c <- name :: a.Word(c)
  }

  function NamesOf(a: Alphabet, what: What, sql: string): set<string> {
    var names := NamesFrom(a, sql);
    match what case TableName => names.tables case ConstraintName => names.constraints case IndexName => names.indexes
  }

  /** The names that do not count: Alembic's own table and its primary key. */
  function Ignored(what: What): set<string> {
    match what
    case TableName => {"alembic_version"}
    case ConstraintName => {"alembic_version_pkc"}
    case IndexName => {}
  }

  function Pattern(what: What): Regex {
    match what case TableName => TABLE case ConstraintName => CONSTRAINT case IndexName => INDEX
  }

  /** The item of the pattern that takes the name. */
  function NameItem(what: What): nat {
    if what == IndexName then 3 else 1
  }

  lemma NamesAreFound(a: Alphabet, what: What, sql: string)
    ensures OneLine(a, Pattern(what))
    ensures NamesOf(a, what, sql) == (set x | x in FindAll(a, Pattern(what), NameItem(what), false, sql)) - Ignored(what)
  {
    hide FindAll, OneLine;
    PatternsAreOneLine(a);
  }

  // ----- what a match at the start of a text is -----------------------------------------------

  /** The first `n` characters are word characters. */
  predicate WordRun(a: Alphabet, t: string, n: nat) {
    n <= |t| && forall k | 0 <= k < n :: a.Word(t[k])
  }

  lemma NameParses(a: Alphabet, pw: bool, t: string, ls: Spans)
    ensures Parse(a, NAME, pw, t, ls) <==> ls.Span? && ls.more == End && ls.len >= 1 && WordRun(a, t, ls.len)
  {
    hide Alphabet.Word, Alphabet.PrevWord;
  }

  lemma LitParses(a: Alphabet, text: string, rest: Regex, pw: bool, t: string, ls: Spans)
    ensures Parse(a, Then(Lit(text, true), rest), pw, t, ls) <==>
      && ls.Span? && ls.len == |text| && IsText(text, true, t)
      && Parse(a, rest, a.PrevWord(pw, t, |text|), t[|text|..], ls.more)
  {
    hide Alphabet.Word, Alphabet.PrevWord, SameChar;
  }

  lemma MaybeParses(a: Alphabet, text: string, rest: Regex, pw: bool, t: string, ls: Spans)
    ensures Parse(a, Then(Maybe(text, true), rest), pw, t, ls) <==>
      && ls.Span?
      && ((ls.len == 0 && Parse(a, rest, pw, t, ls.more))
          || (ls.len == |text| && IsText(text, true, t)
              && Parse(a, rest, a.PrevWord(pw, t, |text|), t[|text|..], ls.more)))
  {
    hide Alphabet.Word, SameChar;
    assert t[0..] == t;
  }

  /** How the spans of a match of `m` keyword characters and `n` name characters look. */
  function SpansOf(what: What, m: nat, n: nat): Spans {
    match what
    case TableName | ConstraintName => Span(m, Span(n, End))
    case IndexName => Span(7, Span(if m == 20 then 7 else 0, Span(6, Span(n, End))))
  }

  lemma KeywordFits(what: What, kw: string, n: nat)
    requires IsKeyword(what, kw)
    ensures |kw| >= 11 && Total(SpansOf(what, |kw|, n)) == |kw| + n
  {
    hide OpensWith;
    assert Total(Span(n, End)) == n;
    assert Total(Span(6, Span(n, End))) == 6 + n;
    assert forall u: nat :: Total(Span(u, Span(6, Span(n, End)))) == u + (6 + n);
  }

  lemma KeywordCases()
    ensures InCases("create table ", "CREATE TABLE ") && InCases("constraint ", "CONSTRAINT ")
    ensures InCases("create ", "CREATE ") && InCases("unique ", "UNIQUE ") && InCases("index ", "INDEX ")
  {
  }

  lemma PrefixOpens(t: string, m: nat, lower: string, upper: string)
    requires |lower| == |upper| <= m <= |t|
    ensures OpensWith(t[..m], lower, upper) <==> OpensWith(t, lower, upper)
  {
  }

  lemma OpensTwice(t: string, l: string, u: string, l': string, u': string)
    requires |l| == |u| && |l'| == |u'|
    ensures OpensWith(t, l + l', u + u') <==> |l| <= |t| && OpensWith(t, l, u) && OpensWith(t[|l|..], l', u')
  {
    if OpensWith(t, l + l', u + u') {
      forall j | 0 <= j < |l| ensures (l + l')[j] == l[j] && (u + u')[j] == u[j] {
      }
      forall j | 0 <= j < |l'| ensures (l + l')[|l| + j] == l'[j] && (u + u')[|l| + j] == u'[j] {
      }
    }
  }

  lemma KeywordParts()
    ensures "create index " == "create " + "index " && "CREATE INDEX " == "CREATE " + "INDEX "
    ensures "create unique index " == "create " + ("unique " + "index ")
    ensures "CREATE UNIQUE INDEX " == "CREATE " + ("UNIQUE " + "INDEX ")
  {
  }

  /** The keyword of an index, in the parts of the pattern. */
  lemma IndexKeyword(t: string, m: nat)
    requires m <= |t| && (m == 13 || m == 20)
    ensures IsKeyword(IndexName, t[..m]) <==>
      && OpensWith(t, "create ", "CREATE ")
      && (m == 20 ==> OpensWith(t[7..], "unique ", "UNIQUE "))
      && OpensWith(t[m - 6..], "index ", "INDEX ")
  {
    hide OpensWith;
    KeywordParts();
    if m == 13 {
      PrefixOpens(t, m, "create index ", "CREATE INDEX ");
      OpensTwice(t, "create ", "CREATE ", "index ", "INDEX ");
    } else {
      PrefixOpens(t, m, "create unique index ", "CREATE UNIQUE INDEX ");
      OpensTwice(t, "create ", "CREATE ", "unique " + "index ", "UNIQUE " + "INDEX ");
      OpensTwice(t[7..], "unique ", "UNIQUE ", "index ", "INDEX ");
      assert t[7..][7..] == t[14..];
    }
  }

  /** `t` opens with the keyword and `n` characters of a name, whichever comes before. */
  predicate OpensAs(a: Alphabet, what: What, t: string, m: nat, n: nat) {
    m <= |t| && IsKeyword(what, t[..m]) && n >= 1 && WordRun(a, t[m..], n)
  }

  lemma SameSize(lower: string, upper: string)
    requires InCases(lower, upper)
    ensures |lower| == |upper|
  {
  }

  lemma LitNameParses(a: Alphabet, lower: string, upper: string, pw: bool, t: string, ls: Spans)
    requires InCases(lower, upper)
    ensures Parse(a, Then(Lit(upper, true), NAME), pw, t, ls) <==>
      && |upper| <= |t| && OpensWith(t, lower, upper) && ls.Span? && ls.len == |upper|
      && ls.more.Span? && ls.more.more == End && ls.more.len >= 1 && WordRun(a, t[|upper|..], ls.more.len)
  {
    hide Alphabet.Word, Alphabet.PrevWord, IsText, OpensWith, WordRun, Parse, InCases;
    SameSize(lower, upper);
    LitParses(a, upper, NAME, pw, t, ls);
    WordIsText(t, lower, upper);
    WordFits(t, lower, upper);
    if |upper| <= |t| && ls.Span? {
      NameParses(a, a.PrevWord(pw, t, |upper|), t[|upper|..], ls.more);
    }
  }

  lemma TableOpens(a: Alphabet, what: What, pw: bool, t: string, ls: Spans)
    requires what != IndexName
    ensures Parse(a, Pattern(what), pw, t, ls) <==>
      var m := if what == TableName then 13 else 11;
      && OpensAs(a, what, t, m, if ls.Span? && ls.more.Span? then ls.more.len else 0)
      && ls.Span? && ls.more.Span? && ls == SpansOf(what, m, ls.more.len)
  {
    hide Alphabet.Word, Alphabet.PrevWord, IsText, OpensWith, WordRun, Parse, InCases;
    KeywordCases();
    if what == TableName {
      LitNameParses(a, "create table ", "CREATE TABLE ", pw, t, ls);
      if 13 <= |t| {
        PrefixOpens(t, 13, "create table ", "CREATE TABLE ");
      }
    } else {
      LitNameParses(a, "constraint ", "CONSTRAINT ", pw, t, ls);
      if 11 <= |t| {
        PrefixOpens(t, 11, "constraint ", "CONSTRAINT ");
      }
    }
  }

  /** The part of the index pattern after CREATE. */
  const AFTER_CREATE := Then(Maybe("UNIQUE ", true), Then(Lit("INDEX ", true), NAME))

  lemma IndexRestParses(a: Alphabet, pw: bool, t: string, ls: Spans)
    ensures Parse(a, AFTER_CREATE, pw, t, ls) <==>
      && ls.Span? && (ls.len == 0 || (ls.len == 7 && OpensWith(t, "unique ", "UNIQUE ")))
      && ls.len + 6 <= |t| && OpensWith(t[ls.len..], "index ", "INDEX ")
      && ls.more.Span? && ls.more.len == 6 && ls.more.more.Span? && ls.more.more.more == End
      && ls.more.more.len >= 1 && WordRun(a, t[ls.len + 6..], ls.more.more.len)
  {
    hide Alphabet.Word, Alphabet.PrevWord, IsText, OpensWith, WordRun, Parse, InCases;
    KeywordCases();
    var rest := Then(Lit("INDEX ", true), NAME);
    MaybeParses(a, "UNIQUE ", rest, pw, t, ls);
    WordIsText(t, "unique ", "UNIQUE ");
    WordFits(t, "unique ", "UNIQUE ");
    if ls.Span? {
      LitNameParses(a, "index ", "INDEX ", pw, t, ls.more);
      assert t[0..] == t;
      if 7 <= |t| {
        LitNameParses(a, "index ", "INDEX ", a.PrevWord(pw, t, 7), t[7..], ls.more);
        if 13 <= |t| {
          assert t[7..][6..] == t[13..];
        }
      }
    }
  }

  lemma IndexSizes(kw: string)
    requires IsKeyword(IndexName, kw)
    ensures |kw| == 13 || |kw| == 20
  {
  }

  lemma IndexOpens(a: Alphabet, pw: bool, t: string, ls: Spans)
    ensures Parse(a, INDEX, pw, t, ls) ==>
      && ls.Span? && ls.more.Span? && ls.more.more.Span? && ls.more.more.more.Span?
      && var m, n := if ls.more.len == 7 then 20 else 13, ls.more.more.more.len;
         OpensAs(a, IndexName, t, m, n) && ls == SpansOf(IndexName, m, n)
    ensures forall m: nat, n: nat | OpensAs(a, IndexName, t, m, n) && ls == SpansOf(IndexName, m, n) :: Parse(a, INDEX, pw, t, ls)
  {
    hide Alphabet.Word, Alphabet.PrevWord, IsText, OpensWith, WordRun, Parse, InCases, IsKeyword;
    KeywordCases();
    LitParses(a, "CREATE ", AFTER_CREATE, pw, t, ls);
    WordIsText(t, "create ", "CREATE ");
    WordFits(t, "create ", "CREATE ");
    if 7 <= |t| && ls.Span? {
      IndexRestParses(a, a.PrevWord(pw, t, 7), t[7..], ls.more);
    }
    if 13 <= |t| {
      IndexKeyword(t, 13);
      assert t[7..][0..] == t[7..] && t[7..][6..] == t[13..];
    }
    if 20 <= |t| {
      IndexKeyword(t, 20);
      assert t[7..][7..] == t[14..] && t[7..][13..] == t[20..];
    }
    forall m: nat | m <= |t| && IsKeyword(IndexName, t[..m]) ensures m == 13 || m == 20 {
      IndexSizes(t[..m]);
    }
  }

  lemma ParseOpens(a: Alphabet, what: What, pw: bool, t: string, ls: Spans) returns (m: nat, n: nat)
    requires Parse(a, Pattern(what), pw, t, ls)
    ensures OpensAs(a, what, t, m, n) && ls == SpansOf(what, m, n)
  {
    hide Alphabet.Word, Parse, OpensAs, SpansOf;
    if what == IndexName {
      IndexOpens(a, pw, t, ls);
      m, n := if ls.more.len == 7 then 20 else 13, ls.more.more.more.len;
    } else {
      TableOpens(a, what, pw, t, ls);
      m, n := if what == TableName then 13 else 11, ls.more.len;
    }
  }

  lemma OpensParses(a: Alphabet, what: What, pw: bool, t: string, m: nat, n: nat)
    requires OpensAs(a, what, t, m, n)
    ensures Parse(a, Pattern(what), pw, t, SpansOf(what, m, n))
  {
    hide Alphabet.Word, Parse, OpensWith, WordRun;
    if what == IndexName {
      IndexOpens(a, pw, t, SpansOf(what, m, n));
    } else {
      TableOpens(a, what, pw, t, SpansOf(what, m, n));
    }
  }

  /** After CREATE comes a U or an I. */
  lemma IndexLetter(kw: string)
    requires IsKeyword(IndexName, kw)
    ensures |kw| == 20 <==> kw[7] == 'u' || kw[7] == 'U'
  {
    if |kw| == 20 {
      assert "create unique index "[7] == 'u' && "CREATE UNIQUE INDEX "[7] == 'U';
    } else {
      assert "create index "[7] == 'i' && "CREATE INDEX "[7] == 'I';
    }
  }

  /** A text opens with one keyword of a kind at most. */
  lemma OneKeyword(what: What, t: string, m: nat, m': nat)
    requires m <= |t| && m' <= |t| && IsKeyword(what, t[..m]) && IsKeyword(what, t[..m'])
    ensures m == m'
  {
    hide OpensWith;
    if what == IndexName {
      var k := if m == 20 then t[..m] else t[..m'];
      if m != m' {
        IndexLetter(t[..m]);
        IndexLetter(t[..m']);
      }
    }
  }

  lemma RunStops(a: Alphabet, t: string, m: nat, n: nat, n': nat)
    requires m <= |t| && WordRun(a, t[m..], n') && (m + n < |t| ==> !a.Word(t[m + n]))
    ensures n' <= n
  {
    hide Alphabet.Word;
    assert m + n < |t| ==> t[m..][n] == t[m + n];
  }

  lemma PrefersSame(k: nat, xs: Spans, ys: Spans)
    ensures Prefers(Span(k, xs), Span(k, ys)) <==> Prefers(xs, ys)
  {
  }

  lemma PrefersLonger(what: What, m: nat, n: nat, n': nat)
    requires Prefers(SpansOf(what, m, n'), SpansOf(what, m, n))
    ensures n <= n'
  {
    var last, last' := Span(n, End), Span(n', End);
    if what == IndexName {
      var u := if m == 20 then 7 else 0;
      PrefersSame(7, Span(u, Span(6, last')), Span(u, Span(6, last)));
      PrefersSame(u, Span(6, last'), Span(6, last));
      PrefersSame(6, last', last);
    } else {
      PrefersSame(m, last', last);
    }
  }

  lemma MatchAtKeyword(a: Alphabet, what: What, pw: bool, t: string, m: nat, n: nat)
    requires OpensAs(a, what, t, m, n) && (m + n < |t| ==> !a.Word(t[m + n]))
    ensures Match(a, Pattern(what), pw, t) == Some(SpansOf(what, m, n))
  {
    hide Alphabet.Word, Parse, Match, IsKeyword, Pattern;
    var ls := SpansOf(what, m, n);
    OpensParses(a, what, pw, t, m, n);
    MatchIsGreediest(a, Pattern(what), pw, t, ls);
    var found := Match(a, Pattern(what), pw, t).value;
    var m', n' := ParseOpens(a, what, pw, t, found);
    OneKeyword(what, t, m, m');
    RunStops(a, t, m, n, n');
    PrefersLonger(what, m, n, n');
  }

  lemma NoKeywordNoMatch(a: Alphabet, what: What, pw: bool, t: string)
    requires forall m: nat, n: nat :: !OpensAs(a, what, t, m, n)
    ensures Match(a, Pattern(what), pw, t).None?
  {
    hide Alphabet.Word, Parse, Match, OpensAs, Pattern;
    var found := Match(a, Pattern(what), pw, t);
    if found.Some? {
      var m, n := ParseOpens(a, what, pw, t, found.value);
    }
  }

  lemma CaptureName(what: What, t: string, m: nat, n: nat)
    requires m + n <= |t| && m >= 11 && (what == IndexName ==> m == 13 || m == 20)
    ensures Capture(t, SpansOf(what, m, n), NameItem(what)) == t[m..m + n]
  {
    if what == IndexName {
      var u := if m == 20 then 7 else 0;
      assert t[7..][u..][6..] == t[m..];
      assert Capture(t[m..], Span(n, End), 0) == t[m..][..n];
      assert Capture(t[7..][u..], Span(6, Span(n, End)), 1) == Capture(t[m..], Span(n, End), 0);
      assert Capture(t[7..], Span(u, Span(6, Span(n, End))), 2) == Capture(t[7..][u..], Span(6, Span(n, End)), 1);
    }
  }

  // ----- the laws -----------------------------------------------------------------------------

  lemma NothingIsNamed(a: Alphabet, what: What)
    ensures NamesOf(a, what, "") == {}
  {
    NamesOfNothing(a);
  }

  lemma KeywordSize(what: What, kw: string)
    requires IsKeyword(what, kw)
    ensures |kw| >= 11 && (what == IndexName ==> |kw| == 13 || |kw| == 20)
  {
    hide OpensWith;
  }

  lemma NameIsRun(a: Alphabet, name: string, rest: string)
    requires IsName(a, name)
    ensures |name| >= 1 && WordRun(a, name + rest, |name|)
  {
    hide Alphabet.Word;
    forall k | 0 <= k < |name| ensures a.Word((name + rest)[k]) {
      assert name[k] in name;
    }
  }

  lemma OneLineFacts(a: Alphabet, r: Regex)
    requires OneLine(a, r)
    ensures MinLen(r) > 0 && NoBoundary(r)
  {
  }

  /** A text that opens with a keyword and a name has that name, unless it is ignored, and those of the rest. */
  lemma KeywordNames(a: Alphabet, what: What, kw: string, name: string, rest: string)
    requires IsKeyword(what, kw) && IsName(a, name) && (rest != "" ==> !a.Word(rest[0]))
    ensures NamesOf(a, what, kw + name + rest) == ({name} - Ignored(what)) + NamesOf(a, what, rest)
  {
    hide Alphabet.Word, Alphabet.PrevWord, FindAll, OneLine, NamesOf, Pattern, Match, IsKeyword, SpansOf, Ignored;
    var t, r, k := kw + name + rest, Pattern(what), NameItem(what);
    var m, n := |kw|, |name|;
    assert t[..m] == kw && t[m..] == name + rest && t[m + n..] == rest && t[m..m + n] == name;
    NameIsRun(a, name, rest);
    MatchAtKeyword(a, what, false, t, m, n);
    KeywordFits(what, kw, n);
    KeywordSize(what, kw);
    CaptureName(what, t, m, n);
    NamesAreFound(a, what, t);
    NamesAreFound(a, what, rest);
    OneLineFacts(a, r);
    FindAllHit(a, r, k, false, t, SpansOf(what, m, n));
    FindAllIgnoresBefore(a, r, k, a.PrevWord(false, t, m + n), false, rest);
  }

  /** Where a text does not open with a keyword and a name, its first character does not matter. */
  lemma OthersAreSkipped(a: Alphabet, what: What, t: string)
    requires t != "" && forall m: nat, n: nat :: !OpensAs(a, what, t, m, n)
    ensures NamesOf(a, what, t) == NamesOf(a, what, t[1..])
  {
    hide Alphabet.Word, FindAll, OneLine, NamesOf, Pattern, Match, OpensAs;
    var r, k := Pattern(what), NameItem(what);
    NamesAreFound(a, what, t);
    NamesAreFound(a, what, t[1..]);
    OneLineFacts(a, r);
    NoKeywordNoMatch(a, what, false, t);
    FindAllStep(a, r, k, false, t);
    FindAllIgnoresBefore(a, r, k, a.Word(t[0]), false, t[1..]);
  }

  // ----- statements ---------------------------------------------------------------------------

  /** No keyword with a name after it starts in the first `n` positions. */
  ghost predicate Quiet(a: Alphabet, what: What, t: string, n: nat) {
    forall i: nat, m: nat, l: nat :: i < n && i <= |t| ==> !OpensAs(a, what, t[i..], m, l)
  }

  lemma {:induction false} QuietIsSkipped(a: Alphabet, what: What, t: string, n: nat)
    requires n <= |t| && Quiet(a, what, t, n)
    ensures NamesOf(a, what, t) == NamesOf(a, what, t[n..])
    decreases n
  {
    hide NamesOf, OpensAs;
    if n == 0 {
      assert t[0..] == t;
    } else {
      QuietIsSkipped(a, what, t, n - 1);
      OthersAreSkipped(a, what, t[n - 1..]);
      assert t[n - 1..][1..] == t[n..];
    }
  }

  ghost predicate IsNaming(
    a: Alphabet, what: What, sql: string, before: string, kw: string, name: string, rest: string)
  {
    && sql == before + kw + name + rest && Quiet(a, what, sql, |before|) && Quiet(a, what, rest, |rest|)
    && IsKeyword(what, kw) && IsName(a, name) && (rest != "" ==> !a.Word(rest[0]))
  }

  /** A statement with one keyword of a kind: what comes before it and what comes after its name is quiet. */
  ghost predicate NamesOne(a: Alphabet, what: What, sql: string, name: string) {
    exists before: string, kw: string, rest: string :: IsNaming(a, what, sql, before, kw, name, rest)
  }

  /** Its name is what is collected from it, and nothing else. */
  lemma StatementNames(a: Alphabet, what: What, sql: string, name: string)
    requires NamesOne(a, what, sql, name)
    ensures NamesOf(a, what, sql) == {name} - Ignored(what)
  {
    hide NamesOf, IsKeyword, IsName, Quiet, Alphabet.Word;
    var before, kw, rest :| IsNaming(a, what, sql, before, kw, name, rest);
    QuietIsSkipped(a, what, sql, |before|);
    assert sql[|before|..] == kw + name + rest;
    KeywordNames(a, what, kw, name, rest);
    QuietIsSkipped(a, what, rest, |rest|);
    assert rest[|rest|..] == "";
    NothingIsNamed(a, what);
  }

  lemma NamesOfList(a: Alphabet, what: What, parts: seq<string>, name: string)
    ensures name in NamesOf(a, what, Join("\n", parts)) <==> exists p <- parts :: name in NamesOf(a, what, p)
  {
    hide NamesFrom;
    NamesOfJoin(a, parts, name);
  }

  /** From a list of such statements, joined, exactly their names are collected. */
  lemma ListNames(a: Alphabet, what: What, parts: seq<string>, names: seq<string>)
    requires |parts| == |names| && forall i | 0 <= i < |parts| :: NamesOne(a, what, parts[i], names[i])
    ensures NamesOf(a, what, Join("\n", parts)) == (set n | n in names) - Ignored(what)
  {
    hide NamesOf, NamesOne, Join, Ignored;
    forall i | 0 <= i < |parts| ensures NamesOf(a, what, parts[i]) == {names[i]} - Ignored(what) {
      StatementNames(a, what, parts[i], names[i]);
    }
    forall name
      ensures name in NamesOf(a, what, Join("\n", parts)) <==> name in (set n | n in names) - Ignored(what)
    {
      NamesOfList(a, what, parts, name);
      if p :| p in parts && name in NamesOf(a, what, p) {
        var i :| 0 <= i < |parts| && parts[i] == p;
        assert name == names[i];
      }
      if name in names && name !in Ignored(what) {
        var i :| 0 <= i < |names| && names[i] == name;
        assert parts[i] in parts && name in NamesOf(a, what, parts[i]);
      }
    }
  }

  /** So models and migrations that name different tables, constraints or indexes are found to have drifted,
      and the exit status is 1. */
  lemma DifferenceIsDrift(
    a: Alphabet, what: What, models: seq<string>, names: seq<string>, migrations: seq<string>, names': seq<string>)
    requires |models| == |names| && forall i | 0 <= i < |models| :: NamesOne(a, what, models[i], names[i])
    requires |migrations| == |names'| && forall i | 0 <= i < |migrations| :: NamesOne(a, what, migrations[i], names'[i])
    requires (set n | n in names) - Ignored(what) != (set n | n in names') - Ignored(what)
    ensures ExitStatus(a, Join("\n", models), Some(Join("\n", migrations))) == 1
  {
    hide NamesFrom, NamesOne, Join, Ignored;
    ListNames(a, what, models, names);
    ListNames(a, what, migrations, names');
  }
}
