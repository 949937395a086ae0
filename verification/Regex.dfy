/** The part of Python's `re` that the service relies on.

    A pattern is a sequence of items: a literal, an optional literal, a greedy character class with a
    lower bound, or `\b`. A match is described by the number of characters each item takes (its
    `Spans`), so a capture group is the slice taken by one item. Matching is stated on the text that
    remains (`t`) plus one bit about the text already passed (`pw`: was the previous character a word
    character?), which is all that `\b` can see of it.

    `Match` is the backtracking matcher; `Parse` is the declarative meaning it is proved against. */
module Regex {
  import opened Wrappers

  // ----- characters ---------------------------------------------------------------------------

  predicate IsAsciiAlnum(c: char) {
    'A' <= c <= 'Z' || 'a' <= c <= 'z' || '0' <= c <= '9'
  }

  predicate IsAsciiWord(c: char) {
    IsAsciiAlnum(c) || c == '_'
  }

  /** `\s`, which is also what `str.strip` removes. */
  predicate IsSpace(c: char) {
    '\U{0009}' <= c <= '\U{000D}' || '\U{001C}' <= c <= '\U{0020}' || c == '\U{0085}' || c == '\U{00A0}'
    || c == '\U{1680}' || '\U{2000}' <= c <= '\U{200A}' || c == '\U{2028}' || c == '\U{2029}'
    || c == '\U{202F}' || c == '\U{205F}' || c == '\U{3000}'
  }

  /** The four letters outside ASCII that `[A-Za-z]` accepts under IGNORECASE. */
  predicate FoldsIntoAscii(c: char) {
    c == '\U{0130}' || c == '\U{0131}' || c == '\U{017F}' || c == '\U{212A}'
  }

  function AsciiLower(c: char): char {
    if 'A' <= c <= 'Z' then c - 'A' + 'a' else c
  }

  /** Whether text character `c` matches pattern character `p`. */
  predicate SameChar(p: char, c: char, fold: bool) {
    || p == c
    || (fold && (
          || AsciiLower(p) == AsciiLower(c)
          || (AsciiLower(p) == 'i' && (c == '\U{0130}' || c == '\U{0131}'))
          || (AsciiLower(p) == 's' && c == '\U{017F}')
          || (AsciiLower(p) == 'k' && c == '\U{212A}')))
  }

  predicate IsAscii(s: string) {
    forall c <- s :: c < '\U{0080}'
  }

  /** Which characters outside ASCII count as `\w`, and what `str.lower` makes of them, are large tables
      that no result depends on, so they are parameters. */
  datatype Alphabet = Alphabet(nonAsciiWord: char -> bool, nonAsciiLower: char -> string) {
    predicate Word(c: char) {
      || IsAsciiWord(c)
      || FoldsIntoAscii(c)
      || ('\U{0080}' <= c && !IsSpace(c) && nonAsciiWord(c))
    }

    predicate NextWord(t: string) {
      t != "" && Word(t[0])
    }

    /** Is the character just before position `i` of `t` a word character? */
    predicate PrevWord(pw: bool, t: string, i: nat)
      requires i <= |t|
    {
      if i == 0 then pw else Word(t[i - 1])
    }
  }

  // ----- patterns and their meaning -----------------------------------------------------------

  datatype Class = Space | Word | Alnum(extra: set<char>, fold: bool)

  predicate In(a: Alphabet, cls: Class, c: char) {
    match cls
    case Space => IsSpace(c)
    case Word => a.Word(c)
    case Alnum(extra, fold) => IsAsciiAlnum(c) || c in extra || (fold && FoldsIntoAscii(c))
  }

  datatype Item =
    | Boundary
    | Lit(text: string, fold: bool)
    | Maybe(text: string, fold: bool)
    | Many(cls: Class, min: nat)

  datatype Regex = Done | Then(item: Item, rest: Regex)

  /** How many characters each item takes. */
  datatype Spans = End | Span(len: nat, more: Spans)

  function Total(ls: Spans): nat {
    match ls case End => 0 case Span(n, more) => n + Total(more)
  }

  predicate IsText(text: string, fold: bool, t: string) {
    |text| <= |t| && forall k | 0 <= k < |text| :: SameChar(text[k], t[k], fold)
  }

  predicate Accept(a: Alphabet, item: Item, pw: bool, t: string, n: nat)
    requires n <= |t|
  {
    match item
    case Boundary => n == 0 && pw != a.NextWord(t)
    case Lit(text, fold) => n == |text| && IsText(text, fold, t)
    case Maybe(text, fold) => n == 0 || (n == |text| && IsText(text, fold, t))
    case Many(cls, min) => min <= n && forall k | 0 <= k < n :: In(a, cls, t[k])
  }

  /** `ls` is one way to read a prefix of `t` as a match of `r`. */
  predicate Parse(a: Alphabet, r: Regex, pw: bool, t: string, ls: Spans) {
    match r
    case Done => ls == End
    case Then(item, rest) =>
      && ls.Span? && ls.len <= |t|
      && Accept(a, item, pw, t, ls.len)
      && Parse(a, rest, a.PrevWord(pw, t, ls.len), t[ls.len..], ls.more)
  }

  /** Greediness: the first item on which two readings differ takes more in the preferred one. */
  predicate Prefers(x: Spans, y: Spans) {
    match (x, y)
    case (Span(m, xs), Span(n, ys)) => m > n || (m == n && Prefers(xs, ys))
    case _ => true
  }

  lemma {:induction false} ParseFits(a: Alphabet, r: Regex, pw: bool, t: string, ls: Spans)
    requires Parse(a, r, pw, t, ls)
    ensures Total(ls) <= |t|
  {
    hide Alphabet.Word, In;
    if r.Then? {
      ParseFits(a, r.rest, a.PrevWord(pw, t, ls.len), t[ls.len..], ls.more);
    }
  }

  // ----- the backtracking matcher -------------------------------------------------------------

  /** Tries the first item at its longest, then gives characters back one at a time. */
  function Match(a: Alphabet, r: Regex, pw: bool, t: string): (m: Option<Spans>)
    ensures m.Some? ==> Parse(a, r, pw, t, m.value)
    decreases r, 1, 0
  {
    match r
    case Done => Some(End)
    case Then(_, _) => Backtrack(a, r, pw, t, |t|)
  }

  function Backtrack(a: Alphabet, r: Regex, pw: bool, t: string, n: nat): (m: Option<Spans>)
    requires r.Then? && n <= |t|
    ensures m.Some? ==> Parse(a, r, pw, t, m.value)
    decreases r, 0, n
  {
    var m := if Accept(a, r.item, pw, t, n) then Match(a, r.rest, a.PrevWord(pw, t, n), t[n..]) else None;
    if m.Some? then Some(Span(n, m.value))
    else if n == 0 then None
    else Backtrack(a, r, pw, t, n - 1)
  }

  /** The matcher finds a match whenever there is one, and then the greediest. */
  lemma {:induction false} MatchIsGreediest(a: Alphabet, r: Regex, pw: bool, t: string, ls: Spans)
    requires Parse(a, r, pw, t, ls)
    ensures Match(a, r, pw, t).Some? && Prefers(Match(a, r, pw, t).value, ls)
    decreases r, 1, 0
  {
    hide Alphabet.Word, In;
    if r.Then? {
      BacktrackIsGreediest(a, r, pw, t, |t|, ls);
    }
  }

  lemma {:induction false} BacktrackIsGreediest(a: Alphabet, r: Regex, pw: bool, t: string, n: nat, ls: Spans)
    requires r.Then? && n <= |t| && Parse(a, r, pw, t, ls) && ls.len <= n
    ensures Backtrack(a, r, pw, t, n).Some? && Prefers(Backtrack(a, r, pw, t, n).value, ls)
    decreases r, 0, n
  {
    hide Alphabet.Word, In;
    if ls.len == n {
      MatchIsGreediest(a, r.rest, a.PrevWord(pw, t, n), t[n..], ls.more);
    } else {
      BacktrackIsGreediest(a, r, pw, t, n - 1, ls);
    }
  }

  // ----- when the greediest match is the longest ----------------------------------------------

  /** Whatever `rest` reads starts outside `cls`. */
  ghost predicate Bars(a: Alphabet, cls: Class, rest: Regex) {
    forall pw: bool, t: string, ls: Spans :: Parse(a, rest, pw, t, ls) ==> t != "" && !In(a, cls, t[0])
  }

  /** Only the last class of `r` has a choice of how much to take. */
  ghost predicate Forced(a: Alphabet, r: Regex) {
    match r
    case Done => true
    case Then(Maybe(_, _), _) => false
    case Then(Many(cls, _), rest) => Forced(a, rest) && (rest == Done || rest == Then(Boundary, Done) || Bars(a, cls, rest))
    case Then(_, rest) => Forced(a, rest)
  }

  lemma TakesNothing(a: Alphabet, r: Regex, pw: bool, t: string, ls: Spans)
    requires (r == Done || r == Then(Boundary, Done)) && Parse(a, r, pw, t, ls)
    ensures Total(ls) == 0
  {
    hide Alphabet.Word, Alphabet.PrevWord, Alphabet.NextWord;
    assert r.Then? ==> ls.more == End;
  }

  lemma {:induction false} PreferredIsLonger(a: Alphabet, r: Regex, pw: bool, t: string, x: Spans, y: Spans)
    requires Forced(a, r) && Parse(a, r, pw, t, x) && Parse(a, r, pw, t, y) && Prefers(x, y)
    ensures Total(x) >= Total(y)
  {
    hide Alphabet.Word, Alphabet.PrevWord, Alphabet.NextWord, In, IsText;
    if r.Then? {
      if x.len == y.len {
        PreferredIsLonger(a, r.rest, a.PrevWord(pw, t, x.len), t[x.len..], x.more, y.more);
      } else if r.rest == Done || r.rest == Then(Boundary, Done) {
        TakesNothing(a, r.rest, a.PrevWord(pw, t, y.len), t[y.len..], y.more);
      }
    }
  }

  // ----- properties of patterns ---------------------------------------------------------------

  function MinLen(r: Regex): nat {
    match r
    case Done => 0
    case Then(Boundary, rest) => MinLen(rest)
    case Then(Lit(text, _), rest) => |text| + MinLen(rest)
    case Then(Maybe(_, _), rest) => MinLen(rest)
    case Then(Many(_, min), rest) => min + MinLen(rest)
  }

  lemma {:induction false} ParseLength(a: Alphabet, r: Regex, pw: bool, t: string, ls: Spans)
    requires Parse(a, r, pw, t, ls)
    ensures MinLen(r) <= Total(ls) <= |t|
  {
    hide Alphabet.Word, In;
    if r.Then? {
      ParseLength(a, r.rest, a.PrevWord(pw, t, ls.len), t[ls.len..], ls.more);
    }
  }

  /** No `\b` of `r` looks past the text that `r` takes. */
  predicate TailFree(r: Regex) {
    match r
    case Done => true
    case Then(Boundary, rest) => MinLen(rest) > 0 && TailFree(rest)
    case Then(_, rest) => TailFree(rest)
  }

  predicate SamePrefix(t: string, u: string, k: nat) {
    k <= |t| && k <= |u| && forall i | 0 <= i < k :: t[i] == u[i]
  }

  /** Do `t` and `u` agree on whether a word character comes after the first `k`? */
  predicate SameNext(a: Alphabet, t: string, u: string, k: nat)
    requires k <= |t| && k <= |u|
  {
    a.NextWord(t[k..]) == a.NextWord(u[k..])
  }

  lemma SamePrefixFits(t: string, u: string, k: nat)
    requires SamePrefix(t, u, k)
    ensures k <= |t| && k <= |u|
  {
  }

  lemma DropPrefix(a: Alphabet, pw: bool, t: string, u: string, n: nat, k: nat)
    requires n <= k && SamePrefix(t, u, k)
    ensures SamePrefix(t[n..], u[n..], k - n)
    ensures SameNext(a, t[n..], u[n..], k - n) == SameNext(a, t, u, k)
    ensures a.PrevWord(pw, t, n) == a.PrevWord(pw, u, n)
  {
  }

  lemma AcceptIsLocal(a: Alphabet, item: Item, pw: bool, t: string, u: string, n: nat, k: nat)
    requires n <= k && SamePrefix(t, u, k) && Accept(a, item, pw, t, n)
    requires item.Boundary? && k == 0 ==> SameNext(a, t, u, k)
    ensures Accept(a, item, pw, u, n)
  {
  }

  /** A reading depends only on the text it takes, and on the character after it if `r` ends in `\b`. */
  lemma {:induction false} ParseIsLocal(a: Alphabet, r: Regex, pw: bool, t: string, u: string, ls: Spans)
    requires Parse(a, r, pw, t, ls) && SamePrefix(t, u, Total(ls))
    requires TailFree(r) || SameNext(a, t, u, Total(ls))
    ensures Parse(a, r, pw, u, ls)
  {
    hide Alphabet.Word, Alphabet.PrevWord, In, Accept, SameNext, SamePrefix;
    if r.Then? {
      var n, k := ls.len, Total(ls);
      ParseLength(a, r.rest, a.PrevWord(pw, t, n), t[n..], ls.more);
      assert k <= |t| && k <= |u| by {
        SamePrefixFits(t, u, k);
      }
      DropPrefix(a, pw, t, u, n, k);
      ParseIsLocal(a, r.rest, a.PrevWord(pw, t, n), t[n..], u[n..], ls.more);
      AcceptIsLocal(a, r.item, pw, t, u, n, k);
    }
  }

  /** The class of the last item, when that is a greedy class. */
  predicate EndsIn(r: Regex, cls: Class) {
    r.Then? && if r.rest.Done? then r.item.Many? && r.item.cls == cls else EndsIn(r.rest, cls)
  }

  function Extend(ls: Spans): Spans
    requires ls.Span?
  {
    if ls.more.End? then Span(ls.len + 1, End) else Span(ls.len, Extend(ls.more))
  }

  /** A final greedy class can always take one more character of its class. */
  lemma {:induction false} ParseExtends(a: Alphabet, r: Regex, cls: Class, pw: bool, t: string, ls: Spans)
    requires Parse(a, r, pw, t, ls) && EndsIn(r, cls)
    requires Total(ls) < |t| && In(a, cls, t[Total(ls)])
    ensures ls.Span? && Parse(a, r, pw, t, Extend(ls)) && Total(Extend(ls)) == Total(ls) + 1
    ensures !Prefers(ls, Extend(ls))
  {
    hide Alphabet.Word, In;
    if r.rest.Done? {
      assert ls.more == End && Total(ls) == ls.len;
      assert Parse(a, r.rest, a.PrevWord(pw, t, ls.len + 1), t[ls.len + 1..], End);
    } else {
      ParseExtends(a, r.rest, cls, a.PrevWord(pw, t, ls.len), t[ls.len..], ls.more);
    }
  }

  /** So a match never stops in front of a character that its last class accepts. */
  lemma GreedyStops(a: Alphabet, r: Regex, cls: Class, pw: bool, t: string)
    requires EndsIn(r, cls) && Match(a, r, pw, t).Some?
    ensures var n := Total(Match(a, r, pw, t).value); n <= |t| && (n < |t| ==> !In(a, cls, t[n]))
  {
    hide Alphabet.Word, In;
    var ls := Match(a, r, pw, t).value;
    ParseFits(a, r, pw, t, ls);
    if Total(ls) < |t| && In(a, cls, t[Total(ls)]) {
      ParseExtends(a, r, cls, pw, t, ls);
      MatchIsGreediest(a, r, pw, t, Extend(ls));
    }
  }

  function LastMin(r: Regex): nat {
    if r.Done? then 0 else if r.rest.Done? && r.item.Many? then r.item.min else LastMin(r.rest)
  }

  /** Every character of the last class of a match is in that class. */
  lemma {:induction false} ParseEndsIn(a: Alphabet, r: Regex, cls: Class, pw: bool, t: string, ls: Spans)
    requires Parse(a, r, pw, t, ls) && EndsIn(r, cls) && LastMin(r) > 0
    ensures 0 < Total(ls) <= |t| && In(a, cls, t[Total(ls) - 1])
  {
    hide Alphabet.Word, Alphabet.PrevWord, In;
    ParseFits(a, r, pw, t, ls);
    if r.rest.Done? {
      assert Total(ls) == ls.len;
    } else {
      ParseEndsIn(a, r.rest, cls, a.PrevWord(pw, t, ls.len), t[ls.len..], ls.more);
    }
  }

  /** No item of `r` can take the character `c`. */
  predicate Avoids(a: Alphabet, r: Regex, c: char) {
    match r
    case Done => true
    case Then(Boundary, rest) => Avoids(a, rest, c)
    case Then(Lit(text, fold), rest) => (forall x <- text :: !SameChar(x, c, fold)) && Avoids(a, rest, c)
    case Then(Maybe(text, fold), rest) => (forall x <- text :: !SameChar(x, c, fold)) && Avoids(a, rest, c)
    case Then(Many(cls, _), rest) => !In(a, cls, c) && Avoids(a, rest, c)
  }

  lemma ItemAvoids(a: Alphabet, r: Regex, c: char, pw: bool, t: string, n: nat)
    requires r.Then? && Avoids(a, r, c) && n <= |t| && Accept(a, r.item, pw, t, n)
    ensures c !in t[..n]
  {
  }

  lemma {:induction false} ParseAvoids(a: Alphabet, r: Regex, c: char, pw: bool, t: string, ls: Spans)
    requires Parse(a, r, pw, t, ls) && Avoids(a, r, c)
    ensures Total(ls) <= |t| && c !in t[..Total(ls)]
  {
    hide Alphabet.Word, Alphabet.PrevWord, In, SameChar;
    ParseFits(a, r, pw, t, ls);
    if r.Then? {
      var n := ls.len;
      ParseAvoids(a, r.rest, c, a.PrevWord(pw, t, n), t[n..], ls.more);
      ItemAvoids(a, r, c, pw, t, n);
      assert t[..Total(ls)] == t[..n] + t[n..][..Total(ls.more)];
    }
  }

  /** `r` followed by `\b`. */
  function WithBoundary(r: Regex): Regex {
    match r
    case Done => Then(Boundary, Done)
    case Then(item, rest) => Then(item, WithBoundary(rest))
  }

  function Snoc(ls: Spans): (r: Spans)
    ensures Total(r) == Total(ls)
  {
    match ls case End => Span(0, End) case Span(n, more) => Span(n, Snoc(more))
  }

  function Init(ls: Spans): Spans {
    match ls
    case End => End
    case Span(n, more) => if more.End? then End else Span(n, Init(more))
  }

  lemma {:induction false} AddBoundary(a: Alphabet, r: Regex, pw: bool, t: string, ls: Spans)
    requires Parse(a, r, pw, t, ls) && Total(ls) <= |t|
    requires a.PrevWord(pw, t, Total(ls)) != a.NextWord(t[Total(ls)..])
    ensures Parse(a, WithBoundary(r), pw, t, Snoc(ls))
  {
    hide Alphabet.Word, In;
    match r
    case Done =>
      assert t[0..] == t;
    case Then(_, rest) =>
      assert t[ls.len..][Total(ls.more)..] == t[Total(ls)..];
      AddBoundary(a, rest, a.PrevWord(pw, t, ls.len), t[ls.len..], ls.more);
  }

  /** Where a boundary is does not depend on where the text is seen from. */
  lemma BoundaryShift(a: Alphabet, pw: bool, t: string, n: nat, k: nat)
    requires n + k <= |t|
    ensures a.PrevWord(a.PrevWord(pw, t, n), t[n..], k) == a.PrevWord(pw, t, n + k)
    ensures t[n..][k..] == t[n + k..]
  {
    hide Alphabet.Word;
  }

  lemma DropOnlyBoundary(a: Alphabet, pw: bool, t: string, ls: Spans)
    requires Parse(a, Then(Boundary, Done), pw, t, ls)
    ensures Init(ls) == End && Total(ls) == 0 && Total(Init(ls)) == 0
    ensures a.PrevWord(pw, t, 0) != a.NextWord(t[0..])
  {
    hide Alphabet.Word, Alphabet.NextWord, In;
    assert t[0..] == t;
  }

  lemma BoundaryStaysLast(a: Alphabet, r: Regex, pw: bool, t: string, ls: Spans)
    requires r.Then? && Parse(a, WithBoundary(r), pw, t, ls)
    ensures ls.Span? && ls.len <= |t| && Accept(a, r.item, pw, t, ls.len)
    ensures Parse(a, WithBoundary(r.rest), a.PrevWord(pw, t, ls.len), t[ls.len..], ls.more)
    ensures Init(ls) == Span(ls.len, Init(ls.more))
    ensures Total(ls) == ls.len + Total(ls.more) && Total(Init(ls)) == ls.len + Total(Init(ls.more))
  {
    hide Alphabet.Word, Alphabet.PrevWord, Alphabet.NextWord, In, Accept;
    assert ls.more.Span?;
  }

  /** The readings of `r` followed by `\b` are those of `r` that end at a boundary. */
  lemma {:induction false} DropBoundary(a: Alphabet, r: Regex, pw: bool, t: string, ls: Spans)
    requires Parse(a, WithBoundary(r), pw, t, ls)
    ensures Parse(a, r, pw, t, Init(ls)) && Total(Init(ls)) == Total(ls) && Total(ls) <= |t|
    ensures a.PrevWord(pw, t, Total(ls)) != a.NextWord(t[Total(ls)..])
  {
    hide Alphabet.Word, Alphabet.PrevWord, Alphabet.NextWord, In, Accept, Init, Total;
    if r.Done? {
      DropOnlyBoundary(a, pw, t, ls);
    } else {
      BoundaryStaysLast(a, r, pw, t, ls);
      DropBoundary(a, r.rest, a.PrevWord(pw, t, ls.len), t[ls.len..], ls.more);
      BoundaryShift(a, pw, t, ls.len, Total(ls.more));
    }
  }

  // ----- where a pattern occurs ---------------------------------------------------------------

  /** `r` matches `t` at position `i`, read as `ls`. */
  predicate OccursAt(a: Alphabet, r: Regex, pw: bool, t: string, i: nat, ls: Spans)
    requires i <= |t|
  {
    Parse(a, r, a.PrevWord(pw, t, i), t[i..], ls)
  }

  /** `r` matches nowhere in `t`. */
  ghost predicate Free(a: Alphabet, r: Regex, pw: bool, t: string) {
    forall i: nat, ls: Spans | i <= |t| :: !OccursAt(a, r, pw, t, i, ls)
  }

  /** No match starts in the first `n` positions. */
  ghost predicate Gap(a: Alphabet, r: Regex, pw: bool, t: string, n: nat)
    requires n <= |t|
  {
    forall i: nat, ls: Spans | i < n :: !OccursAt(a, r, pw, t, i, ls)
  }

  lemma OccursInTail(a: Alphabet, r: Regex, pw: bool, t: string, n: nat, i: nat, ls: Spans)
    requires n + i <= |t|
    ensures OccursAt(a, r, a.PrevWord(pw, t, n), t[n..], i, ls) == OccursAt(a, r, pw, t, n + i, ls)
  {
  }

  lemma FreeTail(a: Alphabet, r: Regex, pw: bool, t: string, n: nat)
    requires n <= |t| && Free(a, r, pw, t)
    ensures Free(a, r, a.PrevWord(pw, t, n), t[n..])
  {
    hide Alphabet.Word, Alphabet.PrevWord, In, Parse, OccursAt;
    forall i: nat, ls: Spans | i <= |t[n..]|
      ensures !OccursAt(a, r, a.PrevWord(pw, t, n), t[n..], i, ls)
    {
      OccursInTail(a, r, pw, t, n, i, ls);
    }
  }

  lemma FreeMatch(a: Alphabet, r: Regex, pw: bool, t: string)
    requires Free(a, r, pw, t)
    ensures Match(a, r, pw, t).None?
  {
    hide Alphabet.Word, In, Parse;
    assert t[0..] == t;
    assert Match(a, r, pw, t).Some? ==> OccursAt(a, r, pw, t, 0, Match(a, r, pw, t).value);
  }

  /** A text is free of `r` if no match starts in its first part and the second part is free of `r`. */
  lemma FreeConcat(a: Alphabet, r: Regex, pw: bool, t: string, n: nat)
    requires n <= |t| && Gap(a, r, pw, t, n)
    requires Free(a, r, a.PrevWord(pw, t, n), t[n..])
    ensures Free(a, r, pw, t)
  {
    hide Alphabet.Word, Alphabet.PrevWord, In, Parse, OccursAt;
    forall i: nat, ls: Spans | i <= |t| ensures !OccursAt(a, r, pw, t, i, ls) {
      if n <= i {
        OccursInTail(a, r, pw, t, n, i - n, ls);
      }
    }
  }

  // ----- re.sub -------------------------------------------------------------------------------

  datatype Part = Text(text: string) | Group(item: nat)

  /** The text taken by item `k` of a match. */
  function Capture(t: string, ls: Spans, k: nat): string {
    if ls.End? || |t| < ls.len then ""
    else if k == 0 then t[..ls.len]
    else Capture(t[ls.len..], ls.more, k - 1)
  }

  function Expand(template: seq<Part>, t: string, ls: Spans): string {
    if template == [] then ""
    else
      (match template[0] case Text(x) => x case Group(k) => Capture(t, ls, k)) + Expand(template[1..], t, ls)
  }

  /** One left-to-right scan that replaces every non-overlapping match. */
  function Sub(a: Alphabet, r: Regex, template: seq<Part>, pw: bool, t: string): string
    requires MinLen(r) > 0
    decreases |t|
  {
    if t == "" then ""
    else
      match Match(a, r, pw, t)
      case None => [t[0]] + Sub(a, r, template, a.Word(t[0]), t[1..])
      case Some(ls) =>
        ParseLength(a, r, pw, t, ls);
        var n := Total(ls);
        Expand(template, t, ls) + Sub(a, r, template, a.Word(t[n - 1]), t[n..])
  }

  lemma SubOfEmpty(a: Alphabet, r: Regex, template: seq<Part>, pw: bool)
    requires MinLen(r) > 0
    ensures Sub(a, r, template, pw, "") == ""
  {
  }

  lemma SubCopiesOne(a: Alphabet, r: Regex, template: seq<Part>, pw: bool, t: string)
    requires MinLen(r) > 0 && t != "" && Match(a, r, pw, t).None?
    ensures Sub(a, r, template, pw, t) == [t[0]] + Sub(a, r, template, a.Word(t[0]), t[1..])
  {
  }

  lemma SubReplacesHit(a: Alphabet, r: Regex, template: seq<Part>, pw: bool, t: string, ls: Spans)
    requires MinLen(r) > 0 && Match(a, r, pw, t) == Some(ls)
    ensures 0 < Total(ls) <= |t|
    ensures Sub(a, r, template, pw, t)
         == Expand(template, t, ls) + Sub(a, r, template, a.PrevWord(pw, t, Total(ls)), t[Total(ls)..])
  {
    hide Alphabet.Word, In, Expand, Parse, Match;
    ParseLength(a, r, pw, t, ls);
  }

  /** A text without matches is returned unchanged. */
  lemma {:induction false} SubOfFree(a: Alphabet, r: Regex, template: seq<Part>, pw: bool, t: string)
    requires MinLen(r) > 0 && Free(a, r, pw, t)
    ensures Sub(a, r, template, pw, t) == t
    decreases |t|
  {
    hide Alphabet.Word, In, Parse, Match, Free, Sub;
    if t == "" {
      SubOfEmpty(a, r, template, pw);
    } else {
      FreeMatch(a, r, pw, t);
      FreeTail(a, r, pw, t, 1);
      SubCopiesOne(a, r, template, pw, t);
      SubOfFree(a, r, template, a.Word(t[0]), t[1..]);
      assert t == [t[0]] + t[1..];
    }
  }

  /** A stretch in which no match starts is copied. */
  lemma {:induction false} SubCopiesGap(
    a: Alphabet, r: Regex, template: seq<Part>, pw: bool, t: string, n: nat)
    requires MinLen(r) > 0 && n <= |t|
    requires forall i: nat | i < n :: Match(a, r, a.PrevWord(pw, t, i), t[i..]).None?
    ensures Sub(a, r, template, pw, t) == t[..n] + Sub(a, r, template, a.PrevWord(pw, t, n), t[n..])
    decreases n
  {
    hide Alphabet.Word, In, Match, Parse, Sub;
    if n == 0 {
      assert t[0..] == t;
    } else {
      var m := n - 1;
      var rest := Sub(a, r, template, a.PrevWord(pw, t, n), t[n..]);
      SubCopiesGap(a, r, template, pw, t, m);
      SubCopiesOne(a, r, template, a.PrevWord(pw, t, m), t[m..]);
      assert t[m..][1..] == t[n..];
      assert t[..m] + ([t[m]] + rest) == t[..n] + rest;
    }
  }

  // ----- the declarative reading of a scan ----------------------------------------------------

  /** A text cut into gaps and matches: the gap before the first match, that match, and the rest. */
  datatype Cut = Last(gap: string) | Hit(gap: string, ls: Spans, tail: Cut)

  /** `ls` is the greediest match at the start of `t`. */
  ghost predicate IsGreediest(a: Alphabet, r: Regex, pw: bool, t: string, ls: Spans) {
    Parse(a, r, pw, t, ls) && forall other: Spans :: Parse(a, r, pw, t, other) ==> Prefers(ls, other)
  }

  /** `cut` reads `t` as match-free gaps separated by greediest matches. */
  ghost predicate IsCut(a: Alphabet, r: Regex, pw: bool, t: string, cut: Cut)
    decreases cut
  {
    match cut
    case Last(gap) => gap == t && Gap(a, r, pw, t, |t|)
    case Hit(gap, ls, tail) =>
      var n := |gap| + Total(ls);
      && n <= |t| && gap == t[..|gap|]
      && Gap(a, r, pw, t, |gap|)
      && IsGreediest(a, r, a.PrevWord(pw, t, |gap|), t[|gap|..], ls)
      && IsCut(a, r, a.PrevWord(pw, t, n), t[n..], tail)
  }

  /** The gaps in order, with each match replaced. */
  ghost function Render(template: seq<Part>, t: string, cut: Cut): string
    decreases cut
  {
    match cut
    case Last(gap) => gap
    case Hit(gap, ls, tail) =>
      var n := |gap| + Total(ls);
      if n <= |t| then gap + Expand(template, t[|gap|..], ls) + Render(template, t[n..], tail) else gap
  }

  lemma {:induction false} PrefersIsAntisymmetric(a: Alphabet, r: Regex, pw: bool, t: string, x: Spans, y: Spans)
    requires Parse(a, r, pw, t, x) && Parse(a, r, pw, t, y) && Prefers(x, y) && Prefers(y, x)
    ensures x == y
  {
    hide Alphabet.Word, In;
    if r.Then? {
      PrefersIsAntisymmetric(a, r.rest, a.PrevWord(pw, t, x.len), t[x.len..], x.more, y.more);
    }
  }

  lemma MatchIsTheGreediest(a: Alphabet, r: Regex, pw: bool, t: string, ls: Spans)
    ensures Match(a, r, pw, t) == Some(ls) <==> IsGreediest(a, r, pw, t, ls)
  {
    hide Alphabet.Word, In, Accept;
    var m := Match(a, r, pw, t);
    if m.Some? {
      forall other | Parse(a, r, pw, t, other) ensures Prefers(m.value, other) {
        MatchIsGreediest(a, r, pw, t, other);
      }
    }
    if IsGreediest(a, r, pw, t, ls) {
      MatchIsGreediest(a, r, pw, t, ls);
      PrefersIsAntisymmetric(a, r, pw, t, ls, m.value);
    }
  }

  lemma GapMatches(a: Alphabet, r: Regex, pw: bool, t: string, n: nat)
    requires n <= |t| && Gap(a, r, pw, t, n)
    ensures forall i: nat | i < n :: Match(a, r, a.PrevWord(pw, t, i), t[i..]).None?
  {
    hide Alphabet.Word, In, Parse;
    forall i: nat | i < n ensures Match(a, r, a.PrevWord(pw, t, i), t[i..]).None? {
      var m := Match(a, r, a.PrevWord(pw, t, i), t[i..]);
      assert m.Some? ==> OccursAt(a, r, pw, t, i, m.value);
    }
  }

  ghost function Prepend(c: char, cut: Cut): Cut {
    match cut
    case Last(gap) => Last([c] + gap)
    case Hit(gap, ls, tail) => Hit([c] + gap, ls, tail)
  }

  lemma NoMatchNoParse(a: Alphabet, r: Regex, pw: bool, t: string, ls: Spans)
    requires Match(a, r, pw, t).None?
    ensures !OccursAt(a, r, pw, t, 0, ls)
  {
    hide Alphabet.Word, In;
    assert t[0..] == t;
    if Parse(a, r, pw, t, ls) {
      MatchIsGreediest(a, r, pw, t, ls);
    }
  }

  lemma GapPrepend(a: Alphabet, r: Regex, pw: bool, t: string, n: nat)
    requires n < |t| && Match(a, r, pw, t).None? && Gap(a, r, a.Word(t[0]), t[1..], n)
    ensures Gap(a, r, pw, t, n + 1)
  {
    hide Alphabet.Word, In, Match, Parse, OccursAt;
    forall i: nat, ls: Spans | i < n + 1 ensures !OccursAt(a, r, pw, t, i, ls) {
      if i == 0 {
        NoMatchNoParse(a, r, pw, t, ls);
      } else {
        OccursInTail(a, r, pw, t, 1, i - 1, ls);
      }
    }
  }

  lemma SlicePrepend(a: Alphabet, pw: bool, t: string, n: nat)
    requires n < |t|
    ensures t[1..][n..] == t[n + 1..]
    ensures a.PrevWord(a.Word(t[0]), t[1..], n) == a.PrevWord(pw, t, n + 1)
  {
  }

  lemma CutPrepend(a: Alphabet, r: Regex, pw: bool, t: string, tail: Cut)
    requires t != "" && Match(a, r, pw, t).None?
    requires IsCut(a, r, a.Word(t[0]), t[1..], tail)
    ensures IsCut(a, r, pw, t, Prepend(t[0], tail))
  {
    hide Alphabet.Word, Alphabet.PrevWord, In, Match, Parse, OccursAt, IsGreediest, Gap;
    var g := |tail.gap|;
    GapPrepend(a, r, pw, t, g);
    assert [t[0]] + t[1..][..g] == t[..g + 1];
    if tail.Hit? {
      SlicePrepend(a, pw, t, g);
      SlicePrepend(a, pw, t, g + Total(tail.ls));
    } else {
      assert t == [t[0]] + t[1..];
    }
  }

  /** Every text has a cut, */
  lemma {:induction false} CutExists(a: Alphabet, r: Regex, pw: bool, t: string) returns (cut: Cut)
    requires MinLen(r) > 0
    ensures IsCut(a, r, pw, t, cut)
    decreases |t|
  {
    hide Alphabet.Word, In, Parse, Match, IsGreediest;
    var m := Match(a, r, pw, t);
    if m.Some? {
      ParseLength(a, r, pw, t, m.value);
      MatchIsTheGreediest(a, r, pw, t, m.value);
      var n := Total(m.value);
      var tail := CutExists(a, r, a.PrevWord(pw, t, n), t[n..]);
      assert t[0..] == t;
      cut := Hit("", m.value, tail);
    } else if t == "" {
      cut := Last("");
    } else {
      var tail := CutExists(a, r, a.Word(t[0]), t[1..]);
      CutPrepend(a, r, pw, t, tail);
      cut := Prepend(t[0], tail);
    }
  }

  lemma HitAgrees(a: Alphabet, r: Regex, pw: bool, t: string, x: Cut, y: Cut)
    requires IsCut(a, r, pw, t, x) && IsCut(a, r, pw, t, y) && x.Hit? && MinLen(r) > 0
    ensures y.Hit? && x.gap == y.gap && x.ls == y.ls && Total(x.ls) > 0
  {
    hide Alphabet.Word, In, Parse;
    var g := |x.gap|;
    ParseLength(a, r, a.PrevWord(pw, t, g), t[g..], x.ls);
    assert OccursAt(a, r, pw, t, g, x.ls);
    assert |y.gap| <= g;
    assert y.Hit?;
    assert OccursAt(a, r, pw, t, |y.gap|, y.ls);
    assert g <= |y.gap|;
    PrefersIsAntisymmetric(a, r, a.PrevWord(pw, t, g), t[g..], x.ls, y.ls);
  }

  /** only one, */
  lemma {:induction false} CutIsUnique(a: Alphabet, r: Regex, pw: bool, t: string, x: Cut, y: Cut)
    requires IsCut(a, r, pw, t, x) && IsCut(a, r, pw, t, y)
    requires MinLen(r) > 0
    ensures x == y
    decreases |t|
  {
    hide Alphabet.Word, In, Parse, OccursAt;
    if x.Hit? {
      HitAgrees(a, r, pw, t, x, y);
      var n := |x.gap| + Total(x.ls);
      CutIsUnique(a, r, a.PrevWord(pw, t, n), t[n..], x.tail, y.tail);
    } else if y.Hit? {
      HitAgrees(a, r, pw, t, y, x);
    }
  }

  lemma PlusAssociates(x: string, y: string, z: string)
    ensures x + (y + z) == (x + y) + z
  {
  }

  lemma SubOfHit(a: Alphabet, r: Regex, template: seq<Part>, pw: bool, t: string, cut: Cut)
    requires MinLen(r) > 0 && IsCut(a, r, pw, t, cut) && cut.Hit?
    ensures
      var n := |cut.gap| + Total(cut.ls);
      && Sub(a, r, template, pw, t)
         == cut.gap + Expand(template, t[|cut.gap|..], cut.ls) + Sub(a, r, template, a.PrevWord(pw, t, n), t[n..])
  {
    hide Alphabet.Word, Alphabet.PrevWord, In, Parse, Match, OccursAt, IsGreediest, Gap, Sub, Expand;
    var g, n := |cut.gap|, Total(cut.ls);
    var pw', t' := a.PrevWord(pw, t, g), t[g..];
    GapMatches(a, r, pw, t, g);
    SubCopiesGap(a, r, template, pw, t, g);
    MatchIsTheGreediest(a, r, pw', t', cut.ls);
    SubReplacesHit(a, r, template, pw', t', cut.ls);
    BoundaryShift(a, pw, t, g, n);
    PlusAssociates(cut.gap, Expand(template, t', cut.ls), Sub(a, r, template, a.PrevWord(pw, t, g + n), t[g + n..]));
  }

  /** and the scan renders it. */
  lemma {:induction false} SubRendersCut(
    a: Alphabet, r: Regex, template: seq<Part>, pw: bool, t: string, cut: Cut)
    requires MinLen(r) > 0 && IsCut(a, r, pw, t, cut)
    ensures Sub(a, r, template, pw, t) == Render(template, t, cut)
    decreases cut
  {
    hide Alphabet.Word, Alphabet.PrevWord, In, Parse, Match, OccursAt, IsGreediest, Gap, Sub, Expand;
    if cut.Hit? {
      SubOfHit(a, r, template, pw, t, cut);
      var n := |cut.gap| + Total(cut.ls);
      SubRendersCut(a, r, template, a.PrevWord(pw, t, n), t[n..], cut.tail);
    } else {
      GapMatches(a, r, pw, t, |t|);
      SubCopiesGap(a, r, template, pw, t, |t|);
      assert t[|t|..] == "" && t[..|t|] == t;
      SubOfEmpty(a, r, template, a.PrevWord(pw, t, |t|));
    }
  }
}
