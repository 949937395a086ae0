/** A text that opens with a credential and holds nothing else for the passes. */
module OpeningCredential {
  import opened Regex
  import opened Redaction
  import opened RedactionSafety
  import opened RedactionTheorems
  import opened Credentials
  import opened Zones
  import opened Secrets

  lemma ShortIsFree(a: Alphabet, p: Pattern, pw: bool, t: string)
    requires |t| < 12 || (|t| == 12 && t[0] == '.')
    ensures Free(a, Compiled(p), pw, t)
  {
    hide Compiled, Parse;
    forall i: nat, ls: Spans | i <= |t| ensures !OccursAt(a, Compiled(p), pw, t, i, ls) {
      if OccursAt(a, Compiled(p), pw, t, i, ls) {
        MatchExtent(a, p, a.PrevWord(pw, t, i), t[i..], ls);
        MatchOpens(a, p, a.PrevWord(pw, t, i), t[i..], ls);
      }
    }
  }

  lemma MarkedIsFree(a: Alphabet, p: Pattern, head: string, tail: string)
    requires |head| < 12 && (|tail| < 12 || (|tail| == 12 && tail[0] == '.'))
    ensures Free(a, Compiled(p), false, head + REDACTED + tail)
  {
    hide Compiled, Parse, Free, Alphabet.Word;
    var s, h := head + REDACTED + tail, |head|;
    assert s[h + 10..] == tail && s[h] == '[' && s[h + 9] == ']';
    ShortIsFree(a, p, a.PrevWord(false, s, h + 10), tail);
    forall i: nat, ls: Spans | i < h + 10 ensures !OccursAt(a, Compiled(p), false, s, i, ls) {
      var j := if i <= h then h else h + 9;
      assert s[i..][j - i] == s[j];
      BracketBlocks(a, p, a.PrevWord(false, s, i), s[i..], j - i, ls);
    }
    FreeConcat(a, Compiled(p), false, s, h + 10);
  }

  /** The first pass that finds anything finds the credential at the start, and nothing after it. */
  lemma OpeningIsReplaced(a: Alphabet, p: Pattern, s: string, n: nat)
    requires Stands(a, p, false, s, n) && forall m: nat :: Stands(a, p, false, s, m) ==> m <= n
    requires |s| - n < 12 || (|s| - n == 12 && s[n] == '.')
    ensures n <= |s| && Kept(p) <= n
    ensures Pass(a, p, s) == s[..Kept(p)] + (if Kept(p) > 0 then " " else "") + REDACTED + s[n..]
  {
    hide Alphabet.Word, Alphabet.PrevWord, Stands, Compiled, Replacement, Parse, Match, Free, Sub, Expand;
    MatchIsLongest(a, p, false, s);
    StandsFacts(a, p, false, s, n);
    var ls := Match(a, Compiled(p), false, s).value;
    PatternAvoids(a, p, '[');
    SubReplacesHit(a, Compiled(p), Replacement(p), false, s, ls);
    ReplacementShape(a, p, false, s, ls);
    ShortIsFree(a, p, a.PrevWord(false, s, n), s[n..]);
    SubOfFree(a, Compiled(p), Replacement(p), a.PrevWord(false, s, n), s[n..]);
  }

  /** The kinds before `p` find nothing, and the marker leaves nothing for the kinds after it. */
  lemma OpeningIsAllThatGoes(a: Alphabet, p: Pattern, s: string, n: nat)
    requires Stands(a, p, false, s, n) && forall m: nat :: Stands(a, p, false, s, m) ==> m <= n
    requires |s| - n < 12 || (|s| - n == 12 && s[n] == '.')
    requires forall q: Pattern | Rank(q) < Rank(p) :: Free(a, Compiled(q), false, s)
    ensures n <= |s| && Kept(p) <= n
    ensures ScrubAll(a, s) == s[..Kept(p)] + (if Kept(p) > 0 then " " else "") + REDACTED + s[n..]
  {
    hide Alphabet.Word, Stands, Compiled, Free, Pass;
    OpeningIsReplaced(a, p, s, n);
    var head := s[..Kept(p)] + (if Kept(p) > 0 then " " else "");
    var out := head + REDACTED + s[n..];
    forall q: Pattern ensures Pass(a, q, out) == out {
      MarkedIsFree(a, q, head, s[n..]);
      PassOfFree(a, q, out);
    }
    forall q: Pattern | Rank(q) < Rank(p) ensures Pass(a, q, s) == s {
      PassOfFree(a, q, s);
    }
  }

  /** A scheme's credential cannot go beyond a character that its token does not take. */
  lemma SchemeStops(a: Alphabet, p: Pattern, pw: bool, t: string, m: nat, n: nat)
    requires Kept(p) > 0 && Stands(a, p, pw, t, n) && Stands(a, p, pw, t, m)
    requires n < |t| && !In(a, Token(p), t[n])
    ensures m <= n
  {
    hide Alphabet.Word, In, Stands, IsSpace;
    StandsFacts(a, p, pw, t, n);
    if n < m {
      SpacesFirst(a, p, pw, t, m, n - 1, n);
    }
  }

  lemma SchemeStands(a: Alphabet, p: Pattern, t: string, n: nat)
    requires Kept(p) > 0 && Kept(p) + 9 <= n <= |t| && IsText(Opening(p), true, t) && a.NextWord(t)
    requires t[Kept(p)] == ' ' && forall k | Kept(p) < k < n :: In(a, Token(p), t[k])
    ensures Stands(a, p, false, t, n)
  {
    hide Alphabet.Word, In, SameChar;
    var s := t[..n][Kept(p)..];
    assert In(a, Space, ' ') by { SpaceIsSpace(a, ' '); }
    assert SpacedToken(a, Token(p), s, 1);
  }

  lemma SchemeOpens(a: Alphabet, p: Pattern, pw: bool, t: string, ls: Spans)
    requires Parse(a, Compiled(p), pw, t, ls) && (p == Bearer || p == Basic)
    ensures |t| > 1 && (t[0] == 'b' || t[0] == 'B')
    ensures if p == Bearer then t[1] == 'e' || t[1] == 'E' else t[1] == 'a' || t[1] == 'A'
  {
    hide Alphabet.Word, Alphabet.PrevWord;
    assert SameChar(Opening(p)[0], t[0], true) && SameChar(Opening(p)[1], t[1], true);
  }

  /** The keyword of the scheme does not start at `i`. */
  predicate QuietAt(p: Pattern, s: string, i: nat)
    requires i + 1 < |s|
  {
    s[i] != 'B' && (s[i] == 'b' ==> s[i + 1] == (if p == Bearer then 'a' else 'e') || s[i + 1] == 'b' || s[i + 1] == '.')
  }

  lemma QuietIsFree(a: Alphabet, p: Pattern, s: string)
    requires (p == Bearer || p == Basic) && forall i: nat | i + 1 < |s| :: QuietAt(p, s, i)
    ensures Free(a, Compiled(p), false, s)
  {
    hide Compiled, Parse, IsText, Alphabet.Word, Alphabet.PrevWord;
    forall i: nat, ls: Spans | i <= |s| ensures !OccursAt(a, Compiled(p), false, s, i, ls) {
      assert i + 1 < |s| ==> QuietAt(p, s, i);
      if OccursAt(a, Compiled(p), false, s, i, ls) {
        MatchExtent(a, p, a.PrevWord(false, s, i), s[i..], ls);
        SchemeOpens(a, p, a.PrevWord(false, s, i), s[i..], ls);
      }
    }
  }
}
