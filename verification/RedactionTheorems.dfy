/** What `scrub_text` as a whole promises: its output is clean, it changes nothing in a clean text, and
    running it again changes nothing. The only exception is stated exactly: the cut can complete a JWT
    when the run of word characters it splits goes on outside ASCII. */
module RedactionTheorems {
  import opened Regex
  import opened Redaction
  import opened RedactionSafety

  // ----- before the cut -----------------------------------------------------------------------

  /** The passes in any order. */
  function Passes(a: Alphabet, order: seq<Pattern>, s: string): string {
    if order == [] then s else Passes(a, order[1..], Pass(a, order[0], s))
  }

  lemma PassClears(a: Alphabet, p: Pattern, q: Pattern, s: string)
    requires p == q || Free(a, Compiled(q), false, s)
    ensures Free(a, Compiled(q), false, Pass(a, p, s))
  {
    hide Compiled, Free;
    PassKeepsFree(a, p, q, false, false, s);
  }

  /** Whatever the order, a pattern whose pass has run does not occur in the result. */
  lemma {:induction false} PassesClear(a: Alphabet, order: seq<Pattern>, s: string, q: Pattern)
    requires q in order || Free(a, Compiled(q), false, s)
    ensures Free(a, Compiled(q), false, Passes(a, order, s))
  {
    hide Compiled, Pass;
    if order != [] {
      if q == order[0] || Free(a, Compiled(q), false, s) {
        PassClears(a, order[0], q, s);
      }
      PassesClear(a, order[1..], Pass(a, order[0], s), q);
    }
  }

  lemma ScrubAllIsPasses(a: Alphabet, s: string)
    ensures ScrubAll(a, s) == Passes(a, [Bearer, Basic, Jwt, Refresh], s)
  {
    hide Pass;
    forall p: Pattern, rest: seq<Pattern>, t: string
      ensures Passes(a, [p] + rest, t) == Passes(a, rest, Pass(a, p, t))
    {
      assert ([p] + rest)[1..] == rest;
    }
    assert [Bearer, Basic, Jwt, Refresh] == [Bearer] + ([Basic] + ([Jwt] + ([Refresh] + [])));
  }

  lemma ScrubAllIsClean(a: Alphabet, s: string)
    ensures Clean(a, ScrubAll(a, s))
  {
    hide Free, Compiled, Pass;
    forall q: Pattern ensures Free(a, Compiled(q), false, ScrubAll(a, s)) {
      var order := [Bearer, Basic, Jwt, Refresh];
      assert q in order by {
        match q
        case Bearer => assert order[0] == q;
        case Basic => assert order[1] == q;
        case Jwt => assert order[2] == q;
        case Refresh => assert order[3] == q;
      }
      PassesClear(a, order, s, q);
      ScrubAllIsPasses(a, s);
    }
  }

  lemma PassOfFree(a: Alphabet, p: Pattern, s: string)
    requires Free(a, Compiled(p), false, s)
    ensures Pass(a, p, s) == s
  {
    hide Free, Compiled;
    PatternAvoids(a, p, '[');
    SubOfFree(a, Compiled(p), Replacement(p), false, s);
  }

  lemma ScrubAllOfClean(a: Alphabet, s: string)
    requires Clean(a, s)
    ensures ScrubAll(a, s) == s
  {
    forall p: Pattern ensures Pass(a, p, s) == s {
      PassOfFree(a, p, s);
    }
  }

  // ----- the cut ------------------------------------------------------------------------------

  function AsciiRunEnd(s: string, n: nat): (e: nat)
    requires n <= |s|
    ensures n <= e <= |s|
    ensures forall i | n <= i < e :: IsAsciiWord(s[i])
    ensures e < |s| ==> !IsAsciiWord(s[e])
    decreases |s| - n
  {
    if n < |s| && IsAsciiWord(s[n]) then AsciiRunEnd(s, n + 1) else n
  }

  /** The run of word characters across position `n` ends at a word character outside ASCII. */
  predicate LeavesAscii(a: Alphabet, s: string, n: nat)
    requires n <= |s|
  {
    AsciiRunEnd(s, n) < |s| && a.Word(s[AsciiRunEnd(s, n)])
  }

  predicate EndsAt(a: Alphabet, s: string, i: nat, ls: Spans, n: nat)
    requires i <= n <= |s|
  {
    Parse(a, JWT_BODY, a.PrevWord(false, s, i), s[i..], ls) && i + Total(ls) == n
  }

  /** Position `n` falls just after three dot-separated token parts that end in a word character. */
  ghost predicate CutsToken(a: Alphabet, s: string, n: nat)
    requires n <= |s|
  {
    n > 0 && IsAsciiWord(s[n - 1]) && exists i: nat, ls: Spans :: i <= n && EndsAt(a, s, i, ls, n)
  }

  lemma PrefixFacts(a: Alphabet, s: string, n: nat, i: nat, k: nat)
    requires i + k <= n <= |s|
    ensures SamePrefix(s[..n][i..], s[i..], k)
    ensures i + k < n ==> SameNext(a, s[..n][i..], s[i..], k)
    ensures a.PrevWord(false, s[..n], i) == a.PrevWord(false, s, i)
    ensures i + k == n ==> s[..n][i..][k..] == ""
    ensures k > 0 ==> forall pw :: a.PrevWord(pw, s[i..], k) == a.Word(s[i + k - 1])
  {
  }

  /** The only match that a cut can bring about is of a JWT that ends at the cut. */
  lemma MatchInCut(a: Alphabet, q: Pattern, s: string, n: nat, i: nat, ls: Spans)
    requires Free(a, Compiled(q), false, s) && i <= n <= |s|
    requires OccursAt(a, Compiled(q), false, s[..n], i, ls)
    ensures q == Jwt && i + Total(ls) == n
  {
    hide Alphabet.Word, In, Parse, Compiled, Alphabet.PrevWord, SamePrefix, SameNext;
    var u, t, k := s[..n][i..], s[i..], Total(ls);
    var pw := a.PrevWord(false, s[..n], i);
    MatchExtent(a, q, pw, u, ls);
    PrefixFacts(a, s, n, i, k);
    assert !OccursAt(a, Compiled(q), false, s, i, ls);
    if q != Jwt || i + k < n {
      PatternEnds(q);
      ParseIsLocal(a, Compiled(q), pw, u, t, ls);
    }
  }

  lemma EndsInWord(a: Alphabet, pw: bool, u: string, k: nat, c: char)
    requires 0 < k == |u| && u[k - 1] == c && In(a, JWT_TOKEN, c)
    requires a.PrevWord(pw, u, k) != a.NextWord(u[k..])
    ensures IsAsciiWord(c)
  {
  }

  lemma JwtAtCut(a: Alphabet, s: string, n: nat, i: nat, ls: Spans)
    requires i <= n <= |s| && OccursAt(a, Compiled(Jwt), false, s[..n], i, ls) && i + Total(ls) == n
    ensures CutsToken(a, s, n)
  {
    hide Alphabet.Word, In, Parse, Alphabet.PrevWord, SamePrefix, SameNext;
    var u, t, k := s[..n][i..], s[i..], Total(ls);
    var pw := a.PrevWord(false, s[..n], i);
    DropBoundary(a, JWT_BODY, pw, u, ls);
    PatternEnds(Jwt);
    PrefixFacts(a, s, n, i, k);
    ParseEndsIn(a, JWT_BODY, JWT_TOKEN, pw, u, Init(ls));
    ParseIsLocal(a, JWT_BODY, pw, u, t, Init(ls));
    EndsInWord(a, pw, u, k, s[n - 1]);
    assert EndsAt(a, s, i, Init(ls), n);
  }

  /** A token that a text goes on with ASCII word characters goes on to the end of their run. */
  lemma {:induction false} BodyRuns(a: Alphabet, pw: bool, t: string, ls: Spans, e: nat) returns (longer: Spans)
    requires Parse(a, JWT_BODY, pw, t, ls) && Total(ls) <= e <= |t|
    requires forall i | Total(ls) <= i < e :: IsAsciiWord(t[i])
    ensures Parse(a, JWT_BODY, pw, t, longer) && Total(longer) == e
    decreases e - Total(ls)
  {
    hide Alphabet.Word, Parse;
    if Total(ls) == e {
      longer := ls;
    } else {
      PatternEnds(Jwt);
      ParseExtends(a, JWT_BODY, JWT_TOKEN, pw, t, ls);
      longer := BodyRuns(a, pw, t, Extend(ls), e);
    }
  }

  lemma RunBoundary(a: Alphabet, s: string, n: nat, i: nat, pw: bool)
    requires 0 < n <= |s| && i < n && IsAsciiWord(s[n - 1]) && !LeavesAscii(a, s, n)
    ensures var e := AsciiRunEnd(s, n) - i; a.PrevWord(pw, s[i..], e) != a.NextWord(s[i..][e..])
  {
  }

  /** In a clean text, a token that ends at `n` goes on until it leaves ASCII. */
  lemma TokenLeavesAscii(a: Alphabet, s: string, n: nat)
    requires n <= |s| && Free(a, Compiled(Jwt), false, s) && CutsToken(a, s, n)
    ensures LeavesAscii(a, s, n)
  {
    hide Alphabet.Word, In, Parse, Alphabet.PrevWord;
    var i: nat, ls: Spans :| i <= n && EndsAt(a, s, i, ls, n);
    var pw, t, e := a.PrevWord(false, s, i), s[i..], AsciiRunEnd(s, n);
    forall j | Total(ls) <= j < e - i ensures IsAsciiWord(t[j]) {
      assert t[j] == s[i + j];
    }
    var longer := BodyRuns(a, pw, t, ls, e - i);
    PatternEnds(Jwt);
    ParseEndsIn(a, JWT_BODY, JWT_TOKEN, pw, t, ls);
    assert !OccursAt(a, Compiled(Jwt), false, s, i, Snoc(longer));
    if !LeavesAscii(a, s, n) {
      RunBoundary(a, s, n, i, pw);
      AddBoundary(a, JWT_BODY, pw, t, longer);
    }
  }

  lemma SamePrefixSym(t: string, u: string, k: nat)
    requires SamePrefix(t, u, k)
    ensures SamePrefix(u, t, k)
  {
  }

  lemma CutTokenMatches(a: Alphabet, s: string, n: nat)
    requires n <= |s| && CutsToken(a, s, n)
    ensures !Free(a, Compiled(Jwt), false, s[..n])
  {
    hide In, Parse, SamePrefix, SameNext;
    var i: nat, ls: Spans :| i <= n && EndsAt(a, s, i, ls, n);
    var u, pw := s[..n][i..], a.PrevWord(false, s, i);
    PrefixFacts(a, s, n, i, Total(ls));
    PatternEnds(Jwt);
    ParseLength(a, JWT_BODY, pw, s[i..], ls);
    SamePrefixSym(u, s[i..], Total(ls));
    ParseIsLocal(a, JWT_BODY, pw, s[i..], u, ls);
    if Total(ls) > 0 {
      assert u[Total(ls) - 1] == s[n - 1];
    }
    AddBoundary(a, JWT_BODY, pw, u, ls);
    assert OccursAt(a, Compiled(Jwt), false, s[..n], i, Snoc(ls));
  }

  /** A cut of a clean text is clean, except in one place. */
  lemma CutIsClean(a: Alphabet, s: string, n: nat)
    requires Clean(a, s) && n <= |s|
    ensures Clean(a, s[..n]) <==> !(LeavesAscii(a, s, n) && CutsToken(a, s, n))
    ensures forall q: Pattern | q != Jwt :: Free(a, Compiled(q), false, s[..n])
  {
    hide Alphabet.Word, In, Parse, Compiled, OccursAt, LeavesAscii, CutsToken;
    forall q: Pattern | q != Jwt ensures Free(a, Compiled(q), false, s[..n]) {
      forall i: nat, ls: Spans | i <= n ensures !OccursAt(a, Compiled(q), false, s[..n], i, ls) {
        if OccursAt(a, Compiled(q), false, s[..n], i, ls) {
          MatchInCut(a, q, s, n, i, ls);
        }
      }
    }
    assert Free(a, Compiled(Jwt), false, s);
    if CutsToken(a, s, n) {
      TokenLeavesAscii(a, s, n);
      CutTokenMatches(a, s, n);
    } else {
      forall i: nat, ls: Spans | i <= n ensures !OccursAt(a, Compiled(Jwt), false, s[..n], i, ls) {
        if OccursAt(a, Compiled(Jwt), false, s[..n], i, ls) {
          MatchInCut(a, Jwt, s, n, i, ls);
          JwtAtCut(a, s, n, i, ls);
        }
      }
      assert Free(a, Compiled(Jwt), false, s[..n]);
    }
  }

  // ----- the whole function -------------------------------------------------------------------

  /** The one case in which the cut at 2000 characters can expose a token. */
  ghost predicate CutExposes(a: Alphabet, scrubbed: string) {
    && |scrubbed| > MAX_VALUE_CHARS
    && LeavesAscii(a, scrubbed, MAX_VALUE_CHARS)
    && CutsToken(a, scrubbed, MAX_VALUE_CHARS)
  }

  /** The output never holds a bearer, basic or refresh credential, and holds a JWT only if the cut exposes it. */
  lemma ScrubTextIsClean(a: Alphabet, s: string)
    ensures Clean(a, ScrubText(a, s)) <==> !CutExposes(a, ScrubAll(a, s))
    ensures forall q: Pattern | q != Jwt :: Free(a, Compiled(q), false, ScrubText(a, s))
  {
    hide Compiled, Free, LeavesAscii, CutsToken, ScrubAll;
    ScrubAllIsClean(a, s);
    if |ScrubAll(a, s)| > MAX_VALUE_CHARS {
      CutIsClean(a, ScrubAll(a, s), MAX_VALUE_CHARS);
    }
  }

  /** Every word character is an ASCII one. */
  predicate Narrow(a: Alphabet, s: string) {
    forall c <- s :: a.Word(c) ==> IsAsciiWord(c)
  }

  lemma NarrowSlice(a: Alphabet, t: string, i: nat, j: nat)
    requires i <= j <= |t| && Narrow(a, t)
    ensures Narrow(a, t[i..j])
  {
  }

  lemma NarrowConcat(a: Alphabet, x: string, y: string)
    requires Narrow(a, x) && Narrow(a, y)
    ensures Narrow(a, x + y)
  {
  }

  lemma NarrowMarker(a: Alphabet, x: string, space: string)
    requires Narrow(a, x) && (space == " " || space == "")
    ensures Narrow(a, x + space + REDACTED)
  {
  }

  lemma {:induction false} PassKeepsNarrow(a: Alphabet, p: Pattern, pw: bool, t: string)
    requires Narrow(a, t)
    ensures Narrow(a, PassFrom(a, p, pw, t))
    decreases |t|
  {
    hide Alphabet.Word, Alphabet.PrevWord, In, Parse, Match, Compiled, Replacement, Sub, Expand, Narrow;
    PatternAvoids(a, p, '[');
    var m := Match(a, Compiled(p), pw, t);
    if t == "" {
      SubOfEmpty(a, Compiled(p), Replacement(p), pw);
    } else if m.None? {
      SubCopiesOne(a, Compiled(p), Replacement(p), pw, t);
      assert t[0..1] == [t[0]];
      NarrowSlice(a, t, 0, 1);
      assert t[1..|t|] == t[1..];
      NarrowSlice(a, t, 1, |t|);
      PassKeepsNarrow(a, p, a.Word(t[0]), t[1..]);
      NarrowConcat(a, [t[0]], PassFrom(a, p, a.Word(t[0]), t[1..]));
    } else {
      var n := Total(m.value);
      SubReplacesHit(a, Compiled(p), Replacement(p), pw, t, m.value);
      ReplacementShape(a, p, pw, t, m.value);
      assert t[0..Kept(p)] == t[..Kept(p)];
      NarrowSlice(a, t, 0, Kept(p));
      assert t[n..|t|] == t[n..];
      NarrowSlice(a, t, n, |t|);
      PassKeepsNarrow(a, p, a.PrevWord(pw, t, n), t[n..]);
      NarrowMarker(a, t[..Kept(p)], if Kept(p) > 0 then " " else "");
      NarrowConcat(a, Expand(Replacement(p), t, m.value), PassFrom(a, p, a.PrevWord(pw, t, n), t[n..]));
    }
  }

  lemma AsciiIsNarrow(a: Alphabet, s: string)
    ensures IsAscii(s) ==> Narrow(a, s)
  {
  }

  lemma NarrowStays(a: Alphabet, s: string, n: nat)
    requires Narrow(a, s) && n <= |s|
    ensures !LeavesAscii(a, s, n)
  {
  }

  /** So for a text whose word characters are ASCII, in particular for every ASCII text, nothing at all
      is exposed. */
  lemma ScrubTextIsCleanOnAscii(a: Alphabet, s: string)
    requires IsAscii(s) || Narrow(a, s)
    ensures Clean(a, ScrubText(a, s))
  {
    hide Compiled, Replacement, Free, CutsToken, Sub;
    AsciiIsNarrow(a, s);
    PassKeepsNarrow(a, Bearer, false, s);
    PassKeepsNarrow(a, Basic, false, Pass(a, Bearer, s));
    PassKeepsNarrow(a, Jwt, false, Pass(a, Basic, Pass(a, Bearer, s)));
    PassKeepsNarrow(a, Refresh, false, Pass(a, Jwt, Pass(a, Basic, Pass(a, Bearer, s))));
    var scrubbed := ScrubAll(a, s);
    assert Narrow(a, scrubbed);
    if |scrubbed| > MAX_VALUE_CHARS {
      NarrowStays(a, scrubbed, MAX_VALUE_CHARS);
    }
    ScrubTextIsClean(a, s);
  }

  // ----- lengths ------------------------------------------------------------------------------

  /** The shortest match of a pattern, and what it is replaced by. */
  function Shortest(p: Pattern): nat {
    match p case Bearer => 15 case Basic => 14 case Jwt | Refresh => 12
  }

  function Grown(p: Pattern): nat {
    match p case Bearer => 17 case Basic => 16 case Jwt | Refresh => 12
  }

  lemma PatternMinLen(p: Pattern)
    ensures p != Jwt ==> MinLen(Compiled(p)) >= Shortest(p)
  {
  }

  lemma ShortestMatch(a: Alphabet, p: Pattern, pw: bool, t: string, ls: Spans)
    requires Parse(a, Compiled(p), pw, t, ls)
    ensures Shortest(p) <= Total(ls) <= |t|
    ensures |Expand(Replacement(p), t, ls)| <= Grown(p)
  {
    hide Alphabet.Word, In, Parse, Replacement, Expand;
    PatternMinLen(p);
    PatternAvoids(a, p, '[');
    ParseLength(a, Compiled(p), pw, t, ls);
    ReplacementShape(a, p, pw, t, ls);
  }

  lemma {:induction false} PassLength(a: Alphabet, p: Pattern, pw: bool, t: string)
    ensures Shortest(p) * |PassFrom(a, p, pw, t)| <= Grown(p) * |t|
    decreases |t|
  {
    hide Alphabet.Word, Alphabet.PrevWord, In, Parse, Match, Compiled, Replacement, Sub, Expand;
    PatternAvoids(a, p, '[');
    var m := Match(a, Compiled(p), pw, t);
    if t == "" {
      SubOfEmpty(a, Compiled(p), Replacement(p), pw);
    } else if m.None? {
      SubCopiesOne(a, Compiled(p), Replacement(p), pw, t);
      PassLength(a, p, a.Word(t[0]), t[1..]);
    } else {
      SubReplacesHit(a, Compiled(p), Replacement(p), pw, t, m.value);
      ShortestMatch(a, p, pw, t, m.value);
      PassLength(a, p, a.PrevWord(pw, t, Total(m.value)), t[Total(m.value)..]);
    }
  }

  /** Before the cut the text can grow by at most 136/105; after it there are at most 2000 characters. */
  lemma ScrubLength(a: Alphabet, s: string)
    ensures 105 * |ScrubAll(a, s)| <= 136 * |s|
    ensures |ScrubText(a, s)| <= 2000
  {
    hide Compiled, Replacement, Sub;
    PassLength(a, Bearer, false, s);
    PassLength(a, Basic, false, Pass(a, Bearer, s));
    PassLength(a, Jwt, false, Pass(a, Basic, Pass(a, Bearer, s)));
    PassLength(a, Refresh, false, Pass(a, Jwt, Pass(a, Basic, Pass(a, Bearer, s))));
  }

  // ----- running it again ---------------------------------------------------------------------

  lemma FixpointIsClean(a: Alphabet, s: string)
    requires ScrubText(a, s) == s
    ensures Clean(a, s)
  {
    hide Compiled, Replacement, Free, Sub;
    ScrubTextIsClean(a, s);
    PassOfFree(a, Bearer, s);
    PassOfFree(a, Basic, s);
    var out := Pass(a, Jwt, s);
    assert Pass(a, Refresh, out) == out by {
      PassClears(a, Jwt, Refresh, s);
      PassOfFree(a, Refresh, out);
    }
    PassLength(a, Jwt, false, s);
    assert out == s;
    PassClears(a, Jwt, Jwt, s);
  }

  /** A text comes back unchanged exactly when it is clean and short enough. */
  lemma ScrubTextFixpoint(a: Alphabet, s: string)
    ensures ScrubText(a, s) == s <==> Clean(a, s) && |s| <= 2000
  {
    hide Compiled, Free, Pass;
    if Clean(a, s) {
      ScrubAllOfClean(a, s);
    }
    if ScrubText(a, s) == s {
      FixpointIsClean(a, s);
    }
  }

  /** A clean text loses nothing but what is beyond 2000 characters. */
  lemma CleanIsOnlyCut(a: Alphabet, s: string)
    requires Clean(a, s)
    ensures ScrubText(a, s) == if |s| <= 2000 then s else s[..2000]
  {
    hide Clean, Pass;
    ScrubAllOfClean(a, s);
  }

  /** Scrubbing twice is scrubbing once, exactly when the first run left nothing behind. */
  lemma ScrubTextIdempotent(a: Alphabet, s: string)
    ensures ScrubText(a, ScrubText(a, s)) == ScrubText(a, s) <==> !CutExposes(a, ScrubAll(a, s))
    ensures IsAscii(s) ==> ScrubText(a, ScrubText(a, s)) == ScrubText(a, s)
  {
    hide Clean, CutExposes, ScrubAll;
    ScrubTextIsClean(a, s);
    ScrubTextFixpoint(a, ScrubText(a, s));
    if IsAscii(s) {
      ScrubTextIsCleanOnAscii(a, s);
    }
  }
}
