/** One pass leaves no match of its own pattern in its output and brings back none of any other pattern. The
    marker is what makes it so: no match can take one of its brackets. */
module RedactionSafety {
  import opened Wrappers
  import opened Regex
  import opened Redaction

  // ----- one pass -----------------------------------------------------------------------------

  predicate Leaves(a: Alphabet, pw: bool, t: string, out: string, k: nat)
    requires k < |t| && k < |out|
  {
    || (out[k] == '[' && !a.PrevWord(pw, t, k))
    || (out[k] == ' ' && k + 1 < |out| && out[k + 1] == '[' && IsSpace(t[k]))
  }

  /** `out` follows `t` up to position `k`, and there either both end or a match of `t` is replaced: the
      marker comes next, or the keyword of the match has just been copied and the marker follows one
      space later. */
  predicate Shadows(a: Alphabet, pw: bool, t: string, out: string, k: nat) {
    && SamePrefix(t, out, k)
    && (k == |t| == |out| || (k < |t| && k < |out| && Leaves(a, pw, t, out, k)))
  }

  lemma ShadowPrepend(a: Alphabet, pw: bool, t: string, out: string, k: nat)
    requires t != "" && out != "" && t[0] == out[0]
    requires Shadows(a, a.Word(t[0]), t[1..], out[1..], k)
    ensures Shadows(a, pw, t, out, k + 1)
  {
  }

  lemma EmptyShadow(a: Alphabet, pw: bool)
    ensures Shadows(a, pw, "", "", 0)
  {
  }

  lemma HitShadow(a: Alphabet, p: Pattern, pw: bool, t: string, ls: Spans, out: string)
    requires Parse(a, Compiled(p), pw, t, ls) && Expand(Replacement(p), t, ls) <= out
    ensures Shadows(a, pw, t, out, Kept(p))
  {
    hide Alphabet.Word, In, Parse, Compiled, Replacement, Expand, IsSpace;
    ReplacementShape(a, p, pw, t, ls);
    MatchOpens(a, p, pw, t, ls);
    var e := Expand(Replacement(p), t, ls);
    assert forall i | 0 <= i < |e| :: out[i] == e[i];
    assert forall i | 0 <= i < Kept(p) :: e[i] == t[..Kept(p)][i];
  }

  lemma {:induction false} PassShadows(a: Alphabet, p: Pattern, pw: bool, t: string) returns (k: nat)
    ensures Shadows(a, pw, t, PassFrom(a, p, pw, t), k)
    ensures Match(a, Compiled(p), pw, t).None? && t != "" ==> k > 0
    decreases |t|
  {
    hide Alphabet.Word, In, Parse, Match, Compiled, Replacement, Shadows, Sub, Expand;
    PatternAvoids(a, p, '[');
    var m := Match(a, Compiled(p), pw, t);
    if t == "" {
      k := 0;
      SubOfEmpty(a, Compiled(p), Replacement(p), pw);
      EmptyShadow(a, pw);
    } else if m.None? {
      SubCopiesOne(a, Compiled(p), Replacement(p), pw, t);
      var j := PassShadows(a, p, a.Word(t[0]), t[1..]);
      ShadowPrepend(a, pw, t, PassFrom(a, p, pw, t), j);
      k := j + 1;
    } else {
      SubReplacesHit(a, Compiled(p), Replacement(p), pw, t, m.value);
      HitShadow(a, p, pw, t, m.value, PassFrom(a, p, pw, t));
      k := Kept(p);
    }
  }

  /** A match cannot reach the marker, nor end in the space before it. */
  lemma ShadowBounds(a: Alphabet, pw: bool, t: string, out: string, k: nat, n: nat)
    requires Shadows(a, pw, t, out, k) && 0 < n <= |out| && '[' !in out[..n] && !IsSpace(out[n - 1])
    ensures n <= k && SamePrefix(out, t, n)
  {
  }

  /** Nor does a replacement create an end boundary that the input did not have. */
  lemma ShadowNext(a: Alphabet, pw: bool, pw': bool, t: string, out: string, k: nat, n: nat)
    requires Shadows(a, pw, t, out, k) && 0 < n <= k
    requires a.PrevWord(pw', out, n) != a.NextWord(out[n..])
    ensures SameNext(a, out, t, n)
  {
  }

  /** A match in the output of a pass that starts before the first replacement is a match in the input. */
  lemma MatchInShadow(a: Alphabet, q: Pattern, pw: bool, pw': bool, t: string, out: string, k: nat, ls: Spans)
    requires k > 0 && Shadows(a, pw, t, out, k) && Parse(a, Compiled(q), pw', out, ls)
    ensures Parse(a, Compiled(q), pw', t, ls)
  {
    hide Alphabet.Word, In, Parse, Compiled, SameNext, IsSpace;
    var n := Total(ls);
    MatchExtent(a, q, pw', out, ls);
    ShadowBounds(a, pw, t, out, k, n);
    if q == Jwt {
      ShadowNext(a, pw, pw', t, out, k, n);
    } else {
      PatternEnds(q);
    }
    ParseIsLocal(a, Compiled(q), pw', out, t, ls);
  }

  /** After a match, nothing that a pattern could start with is left exposed by the marker's `]`. */
  lemma RestIsSafe(a: Alphabet, p: Pattern, q: Pattern, pw: bool, t: string, ls: Spans, other: Spans)
    requires Match(a, Compiled(p), pw, t) == Some(ls) && Total(ls) <= |t| && a.PrevWord(pw, t, Total(ls))
    ensures !Parse(a, Compiled(q), false, t[Total(ls)..], other)
  {
    hide Alphabet.Word, In, Parse, Match, Compiled;
    var n := Total(ls);
    if Parse(a, Compiled(q), false, t[n..], other) {
      MatchOpens(a, q, false, t[n..], other);
      if p == Jwt {
        MatchExtent(a, p, pw, t, ls);
      } else {
        PatternEnds(p);
        GreedyStops(a, Compiled(p), Token(p), pw, t);
      }
    }
  }

  lemma BracketBlocks(a: Alphabet, q: Pattern, pw: bool, t: string, j: nat, ls: Spans)
    requires j < 12 && j < |t| && (t[j] == '[' || t[j] == ']')
    ensures !Parse(a, Compiled(q), pw, t, ls)
  {
    hide Alphabet.Word, In, Parse, Compiled;
    if Parse(a, Compiled(q), pw, t, ls) {
      MatchExtent(a, q, pw, t, ls);
    }
  }

  lemma MarkerSpan(a: Alphabet, p: Pattern, pw: bool, t: string, ls: Spans)
    requires Parse(a, Compiled(p), pw, t, ls)
    ensures var e := Expand(Replacement(p), t, ls); 10 <= |e| <= 17 && e[|e| - 10] == '[' && e[|e| - 1] == ']'
  {
    hide Alphabet.Word, In, Parse, Compiled, Replacement, Expand, IsSpace;
    ReplacementShape(a, p, pw, t, ls);
  }

  /** No match starts inside a replacement: it would have to take a bracket of the marker. */
  lemma ReplacementIsFree(a: Alphabet, p: Pattern, q: Pattern, pw: bool, t: string, ls: Spans, pw': bool, out: string)
    requires Parse(a, Compiled(p), pw, t, ls) && Expand(Replacement(p), t, ls) <= out
    ensures Gap(a, Compiled(q), pw', out, |Expand(Replacement(p), t, ls)|)
  {
    hide Alphabet.Word, In, Parse, Compiled, Replacement, Expand, IsSpace;
    var e := Expand(Replacement(p), t, ls);
    ReplacementShape(a, p, pw, t, ls);
    MarkerSpan(a, p, pw, t, ls);
    forall i: nat, other: Spans | i < |e| ensures !OccursAt(a, Compiled(q), pw', out, i, other) {
      var j := if i <= |e| - 10 then |e| - 10 else |e| - 1;
      assert out[j] == e[j];
      BracketBlocks(a, q, a.PrevWord(pw', out, i), out[i..], j - i, other);
    }
  }

  lemma FirstStep(a: Alphabet, pw: bool, t: string)
    requires t != ""
    ensures a.PrevWord(pw, t, 1) == a.Word(t[0])
  {
  }

  lemma EmptyIsFree(a: Alphabet, q: Pattern, pw: bool)
    ensures Free(a, Compiled(q), pw, "")
  {
    hide Alphabet.Word, In, Parse, Compiled;
    forall i: nat, ls: Spans | i <= 0 ensures !OccursAt(a, Compiled(q), pw, "", i, ls) {
      if OccursAt(a, Compiled(q), pw, "", i, ls) {
        MatchExtent(a, q, pw, "", ls);
      }
    }
  }

  /** A copied character starts no match in the output. */
  lemma FirstIsFree(a: Alphabet, p: Pattern, q: Pattern, pw: bool, pw': bool, t: string)
    requires t != "" && Match(a, Compiled(p), pw, t).None?
    requires p == q || Free(a, Compiled(q), pw, t)
    requires pw' == pw || forall ls :: !Parse(a, Compiled(q), pw', t, ls)
    ensures PassFrom(a, p, pw, t) != "" && Gap(a, Compiled(q), pw', PassFrom(a, p, pw, t), 1)
  {
    hide Alphabet.Word, In, Parse, Match, Compiled, Replacement, Sub, Expand, Shadows;
    var out := PassFrom(a, p, pw, t);
    var k := PassShadows(a, p, pw, t);
    assert out != "" by {
      PatternAvoids(a, p, '[');
      SubCopiesOne(a, Compiled(p), Replacement(p), pw, t);
    }
    forall i: nat, ls: Spans | i < 1 ensures !OccursAt(a, Compiled(q), pw', out, i, ls) {
      assert out[0..] == out && t[0..] == t;
      assert p != q ==> !OccursAt(a, Compiled(q), pw, t, 0, ls);
      if Parse(a, Compiled(p), pw, t, ls) {
        MatchIsGreediest(a, Compiled(p), pw, t, ls);
      }
      if OccursAt(a, Compiled(q), pw', out, i, ls) {
        MatchInShadow(a, q, pw, pw', t, out, k, ls);
      }
    }
  }

  lemma AfterMarker(a: Alphabet, p: Pattern, pw: bool, t: string, ls: Spans, pw': bool, out: string)
    requires Parse(a, Compiled(p), pw, t, ls) && Expand(Replacement(p), t, ls) <= out
    ensures !a.PrevWord(pw', out, |Expand(Replacement(p), t, ls)|)
  {
    hide In, Parse, Compiled, Replacement, Expand;
    MarkerSpan(a, p, pw, t, ls);
    var e := Expand(Replacement(p), t, ls);
    assert out[|e| - 1] == e[|e| - 1];
  }

  /** Each pass clears its own pattern and keeps every other pattern clear. */
  lemma {:induction false} PassKeepsFree(a: Alphabet, p: Pattern, q: Pattern, pw: bool, pw': bool, t: string)
    requires p == q || Free(a, Compiled(q), pw, t)
    requires pw' == pw || forall ls :: !Parse(a, Compiled(q), pw', t, ls)
    ensures Free(a, Compiled(q), pw', PassFrom(a, p, pw, t))
    decreases |t|
  {
    hide Alphabet.Word, Alphabet.PrevWord, In, Parse, Match, Compiled, Replacement, Sub, Expand, OccursAt, Shadows, Free, Gap;
    PatternAvoids(a, p, '[');
    var out := PassFrom(a, p, pw, t);
    var m := Match(a, Compiled(p), pw, t);
    if t == "" {
      SubOfEmpty(a, Compiled(p), Replacement(p), pw);
      EmptyIsFree(a, q, pw');
    } else if m.None? {
      FirstIsFree(a, p, q, pw, pw', t);
      SubCopiesOne(a, Compiled(p), Replacement(p), pw, t);
      if p != q {
        FreeTail(a, Compiled(q), pw, t, 1);
      }
      FirstStep(a, pw, t);
      PassKeepsFree(a, p, q, a.Word(t[0]), a.Word(t[0]), t[1..]);
      FirstStep(a, pw', out);
      FreeConcat(a, Compiled(q), pw', out, 1);
    } else {
      var n, e := Total(m.value), Expand(Replacement(p), t, m.value);
      SubReplacesHit(a, Compiled(p), Replacement(p), pw, t, m.value);
      var rest := PassFrom(a, p, a.PrevWord(pw, t, n), t[n..]);
      if p != q {
        FreeTail(a, Compiled(q), pw, t, n);
      }
      if a.PrevWord(pw, t, n) {
        forall other ensures !Parse(a, Compiled(q), false, t[n..], other) {
          RestIsSafe(a, p, q, pw, t, m.value, other);
        }
      }
      PassKeepsFree(a, p, q, a.PrevWord(pw, t, n), false, t[n..]);
      ReplacementIsFree(a, p, q, pw, t, m.value, pw', out);
      AfterMarker(a, p, pw, t, m.value, pw', out);
      assert out[|e|..] == rest;
      FreeConcat(a, Compiled(q), pw', out, |e|);
    }
  }
}
