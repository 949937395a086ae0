/** What becomes of a single credential: exactly when its pass takes it, what that leaves of it, and which
    kinds of credential an earlier kind can split. */
module Secrets {
  import opened Regex
  import opened Redaction
  import opened Credentials
  import opened Zones

  // ----- a hit of the cut ---------------------------------------------------------------------

  /** The cut has a hit of `n` characters at position `i`. */
  ghost predicate HitAt(cut: Cut, i: nat, n: nat)
    decreases cut
  {
    && cut.Hit?
    && var g, m := |cut.gap|, Total(cut.ls);
    (i == g && n == m) || (g + m <= i && HitAt(cut.tail, i - g - m, n))
  }

  /** One that is taken starts before `i` and reaches past it. */
  ghost predicate Covered(a: Alphabet, p: Pattern, t: string, zones: set<Zone>, i: nat) {
    exists j: nat, m: nat :: j < i && Taken(a, p, t, zones, j, m) && i < j + m
  }

  lemma OccursHere(a: Alphabet, p: Pattern, t: string, j: nat, ls: Spans)
    requires j <= |t| && Parse(a, Compiled(p), a.PrevWord(false, t, j), t[j..], ls)
    ensures OccursAt(a, Compiled(p), false, t, j, ls)
  {
    hide Alphabet.Word, Alphabet.PrevWord, Parse, Compiled;
  }

  lemma GapTakesNothing(a: Alphabet, p: Pattern, t: string, b: nat, g: nat)
    requires b + g <= |t| && Gap(a, Compiled(p), a.PrevWord(false, t, b), t[b..], g)
    ensures forall j: nat, m: nat | b <= j < b + g :: !Longest(a, p, t, {}, j, m)
  {
    hide Alphabet.Word, Alphabet.PrevWord, Stands, Parse, Compiled, OccursAt;
    forall j: nat, m: nat | b <= j < b + g ensures !Longest(a, p, t, {}, j, m) {
      if StandsAt(a, p, t, j, m) {
        var ls := StandsReads(a, p, a.PrevWord(false, t, j), t[j..], m);
        OccursHere(a, p, t, j, ls);
        OccursInTail(a, Compiled(p), false, t, b, j - b, ls);
      }
    }
  }

  lemma GreediestIsLongest(a: Alphabet, p: Pattern, t: string, i: nat, ls: Spans)
    requires i <= |t| && IsGreediest(a, Compiled(p), a.PrevWord(false, t, i), t[i..], ls)
    ensures Longest(a, p, t, {}, i, Total(ls))
  {
    hide Alphabet.Word, Alphabet.PrevWord, Stands, Match, Compiled, IsGreediest;
    MatchIsTheGreediest(a, Compiled(p), a.PrevWord(false, t, i), t[i..], ls);
    MatchIsLongest(a, p, a.PrevWord(false, t, i), t[i..]);
  }

  /** The first hit of a cut is the first that is taken. */
  lemma FirstHitIsTaken(a: Alphabet, p: Pattern, t: string, b: nat, cut: Cut)
    requires b <= |t| && Settled(a, p, t, {}, b) && cut.Hit?
    requires IsCut(a, Compiled(p), a.PrevWord(false, t, b), t[b..], cut)
    ensures var h, m := b + |cut.gap|, Total(cut.ls);
      && 12 <= m && h + m <= |t| && Taken(a, p, t, {}, h, m) && Settled(a, p, t, {}, h + m)
      && IsCut(a, Compiled(p), a.PrevWord(false, t, h + m), t[h + m..], cut.tail)
      && forall j: nat, n: nat | b <= j < h :: !Longest(a, p, t, {}, j, n)
  {
    hide Alphabet.Word, Alphabet.PrevWord, Parse, Compiled, Longest, Gap, IsGreediest, Settled, Taken;
    var g, m := |cut.gap|, Total(cut.ls);
    GapTakesNothing(a, p, t, b, g);
    SettledSkips(a, p, t, {}, b, b + g);
    BoundaryShift(a, false, t, b, g);
    GreediestIsLongest(a, p, t, b + g, cut.ls);
    LongestFacts(a, p, t, {}, b + g, m);
    SettledTakes(a, p, t, {}, b + g, m);
    BoundaryShift(a, false, t, b, g + m);
  }

  lemma LastGap(a: Alphabet, p: Pattern, t: string, b: nat, cut: Cut)
    requires b <= |t| && cut.Last? && IsCut(a, Compiled(p), a.PrevWord(false, t, b), t[b..], cut)
    ensures Gap(a, Compiled(p), a.PrevWord(false, t, b), t[b..], |t| - b)
  {
    hide Alphabet.PrevWord, Compiled, Gap;
  }

  lemma HitsOfCut(cut: Cut, i: nat, n: nat)
    ensures HitAt(cut, i, n) <==>
      && cut.Hit?
      && ((i == |cut.gap| && n == Total(cut.ls))
          || (|cut.gap| + Total(cut.ls) <= i && HitAt(cut.tail, i - |cut.gap| - Total(cut.ls), n)))
  {
  }

  lemma {:induction false} CutHits(a: Alphabet, p: Pattern, t: string, b: nat, cut: Cut, i: nat, n: nat)
    requires b <= i && b <= |t| && Settled(a, p, t, {}, b)
    requires IsCut(a, Compiled(p), a.PrevWord(false, t, b), t[b..], cut)
    ensures HitAt(cut, i - b, n) <==> Taken(a, p, t, {}, i, n)
    decreases cut
  {
    hide Alphabet.Word, Alphabet.PrevWord, Compiled, Longest, Gap, IsCut, Settled, Taken, HitAt, Total;
    HitsOfCut(cut, i - b, n);
    if Taken(a, p, t, {}, i, n) {
      TakenIsLongest(a, p, t, {}, i, n);
      LongestFacts(a, p, t, {}, i, n);
    }
    if cut.Hit? {
      var h, m := b + |cut.gap|, Total(cut.ls);
      FirstHitIsTaken(a, p, t, b, cut);
      if h + m <= i {
        CutHits(a, p, t, h + m, cut.tail, i, n);
      } else if Taken(a, p, t, {}, i, n) {
        TakenLieApart(a, p, t, {}, h, m, i, n);
      }
    } else {
      LastGap(a, p, t, b, cut);
      GapTakesNothing(a, p, t, b, |t| - b);
    }
  }

  lemma {:induction false} FillSplit(t: string, zones: set<Zone>, i: nat, m: nat, j: nat)
    requires i <= m <= j <= |t| && Clear(zones, m, 0)
    ensures Fill(t, zones, i, j) == Fill(t, zones, i, m) + Fill(t, zones, m, j)
    decreases m - i
  {
    hide IsSpace;
    if i < m {
      if StartsZone(zones, i) {
        FillSplit(t, zones, EndOf(zones, i), m, j);
        PlusAssociates(Mark(t[i]), Fill(t, zones, EndOf(zones, i), m), Fill(t, zones, m, j));
      } else {
        FillSplit(t, zones, i + 1, m, j);
        PlusAssociates([t[i]], Fill(t, zones, i + 1, m), Fill(t, zones, m, j));
      }
    }
  }

  lemma ClearHere(zones: set<Zone>, i: nat, n: nat)
    requires Clear(zones, i, n)
    ensures Clear(zones, i, 0)
  {
  }

  lemma FivePlus(u: string, v: string, x: string, y: string, z: string)
    ensures u + (v + x + y + z) == u + v + x + y + z
  {
  }

  lemma TakenExactlyWhenUncovered(a: Alphabet, p: Pattern, t: string, zones: set<Zone>, i: nat, n: nat)
    requires Longest(a, p, t, zones, i, n)
    ensures Taken(a, p, t, zones, i, n) <==> !Covered(a, p, t, zones, i)
  {
    hide Longest;
  }

  /** Of a credential that is taken, its keyword and the marker are all that the pass leaves. */
  lemma TakenIsReplaced(a: Alphabet, p: Pattern, t: string, i: nat, n: nat)
    requires Taken(a, p, t, {}, i, n)
    ensures var zones := ZonesOf(a, [p], t);
      && i + n <= |t| && Kept(p) <= n
      && Pass(a, p, t) == Fill(t, zones, 0, i) + t[i..i + Kept(p)] + (if Kept(p) > 0 then " " else "") + REDACTED
                          + Fill(t, zones, i + n, |t|)
  {
    hide Longest, Fill, Neat, Taken, TakenZones, Pass, Clear;
    TakenIsLongest(a, p, t, {}, i, n);
    LongestFacts(a, p, t, {}, i, n);
    var zones := ZonesOf(a, [p], t);
    assert [] + [p] == [p];
    OneMoreKind(a, [], p, t);
    assert zones == {} + TakenZones(a, p, t, {});
    ZonesAreNeat(a, [], t);
    PassTakes(a, p, t);
    KeywordIsClear(a, p, t, {}, i, n);
    ClearHere(zones, i, Kept(p));
    FillSplit(t, zones, 0, i, |t|);
    FillAtTaken(a, p, t, {}, i, n);
    FivePlus(Fill(t, zones, 0, i), t[i..i + Kept(p)], if Kept(p) > 0 then " " else "", REDACTED, Fill(t, zones, i + n, |t|));
  }

  lemma NothingIsSettled(a: Alphabet, p: Pattern, t: string)
    ensures Settled(a, p, t, {}, 0)
  {
    hide Taken;
  }

  /** The hits of the cut are what is taken. So a maximal credential is a hit exactly when no hit that
      starts before it reaches past its start. */
  lemma HitExactlyWhenUncovered(a: Alphabet, p: Pattern, t: string, cut: Cut, i: nat, n: nat)
    requires IsCut(a, Compiled(p), false, t, cut)
    ensures HitAt(cut, i, n) <==> Taken(a, p, t, {}, i, n)
    ensures Longest(a, p, t, {}, i, n) ==> (HitAt(cut, i, n) <==> !Covered(a, p, t, {}, i))
  {
    hide Compiled, IsCut, Longest, HitAt, Covered, Taken;
    assert t[0..] == t;
    NothingIsSettled(a, p, t);
    CutHits(a, p, t, 0, cut, i, n);
    if Longest(a, p, t, {}, i, n) {
      TakenExactlyWhenUncovered(a, p, t, {}, i, n);
    }
  }

  // ----- which kinds can be split -------------------------------------------------------------

  /** The place of a kind in the order of the passes. */
  function Rank(p: Pattern): nat {
    match p case Bearer => 0 case Basic => 1 case Jwt => 2 case Refresh => 3
  }

  /** The pass of its own kind takes the credential, in what the passes before it have left. */
  ghost predicate TakenInTurn(a: Alphabet, p: Pattern, t: string, i: nat, n: nat) {
    Taken(a, p, t, ZonesOf(a, ORDER[..Rank(p)], t), i, n)
  }

  lemma WidenAlnum(a: Alphabet, cls: Class, s: string)
    requires (cls == JWT_TOKEN || cls == REFRESH_TOKEN) && AllIn(a, cls, s)
    ensures AllIn(a, BEARER_TOKEN, s)
  {
  }

  lemma DotIsToken(a: Alphabet)
    ensures In(a, BEARER_TOKEN, '.') && In(a, BEARER_TOKEN, '_')
    ensures forall c: char | IsAsciiAlnum(c) :: In(a, BEARER_TOKEN, c)
  {
  }

  lemma {:induction false} PartsAreTokens(a: Alphabet, n: nat, s: string)
    requires IsParts(a, n, s)
    ensures AllIn(a, BEARER_TOKEN, s)
    decreases n
  {
    hide In;
    if n <= 1 {
      WidenAlnum(a, JWT_TOKEN, s);
    } else {
      var i: nat :| i < |s| && FirstPart(a, s, i) && IsParts(a, n - 1, s[i + 1..]);
      WidenAlnum(a, JWT_TOKEN, s[..i]);
      PartsAreTokens(a, n - 1, s[i + 1..]);
      DotIsToken(a);
      assert s == s[..i] + [s[i]] + s[i + 1..];
    }
  }

  lemma OpeningIsToken(a: Alphabet, q: Pattern, s: string)
    requires (q == Jwt || q == Refresh) && IsText(Opening(q), false, s)
    ensures forall k | 0 <= k < |Opening(q)| :: In(a, BEARER_TOKEN, s[k])
  {
    hide In;
    DotIsToken(a);
    forall k | 0 <= k < |Opening(q)| ensures In(a, BEARER_TOKEN, s[k]) {
      assert SameChar(Opening(q)[k], s[k], false);
    }
  }

  lemma TextFits(text: string, fold: bool, t: string)
    requires IsText(text, fold, t)
    ensures |text| <= |t|
  {
  }

  lemma AllInAt(a: Alphabet, cls: Class, s: string, k: nat)
    requires AllIn(a, cls, s) && k < |s|
    ensures In(a, cls, s[k])
  {
  }

  /** All of a bare token could be part of a bearer token. */
  lemma BareIsToken(a: Alphabet, q: Pattern, pw: bool, t: string, n: nat)
    requires (q == Jwt || q == Refresh) && Stands(a, q, pw, t, n)
    ensures n <= |t| && forall k | 0 <= k < n :: In(a, BEARER_TOKEN, t[k])
  {
    hide In, Alphabet.Word, Alphabet.PrevWord, Alphabet.NextWord, IsText, IsParts, AllIn;
    var s, w := t[..n], |Opening(q)|;
    assert IsText(Opening(q), false, s);
    OpeningIsToken(a, q, s);
    TextFits(Opening(q), false, s);
    if q == Jwt {
      PartsAreTokens(a, 3, s[w..]);
    } else {
      WidenAlnum(a, REFRESH_TOKEN, s[w..]);
    }
    forall k | 0 <= k < n ensures In(a, BEARER_TOKEN, t[k]) {
      if w <= k {
        AllInAt(a, BEARER_TOKEN, s[w..], k - w);
      }
    }
  }

  lemma LetterIsWord(a: Alphabet, x: char, c: char)
    requires 'a' <= x <= 'z' && SameChar(x, c, true)
    ensures a.Word(c) && !IsSpace(c)
  {
  }

  lemma KeywordIsWord(a: Alphabet, p: Pattern, pw: bool, t: string, n: nat)
    requires Stands(a, p, pw, t, n)
    ensures Kept(p) <= |t| && forall k | 0 <= k < Kept(p) :: a.Word(t[k]) && !IsSpace(t[k])
  {
    hide IsSpacedToken, Alphabet.Word, Alphabet.PrevWord, Alphabet.NextWord, IsParts, IsSpace;
    if Kept(p) > 0 {
      var s := t[..n];
      forall k | 0 <= k < Kept(p) ensures a.Word(t[k]) && !IsSpace(t[k]) {
        assert t[k] == s[k] && SameChar(Opening(p)[k], s[k], true);
        LetterIsWord(a, Opening(p)[k], t[k]);
      }
    }
  }

  lemma SpaceThenToken(a: Alphabet, token: Class, s: string, k: nat, y: nat)
    requires k <= |s| && y < |s| && SpacedToken(a, token, s, k) && !In(a, token, s[y])
    ensures y < k
  {
    hide IsSpace, In;
  }

  /** After the keyword comes all the white space, and then none. */
  lemma SpacesFirst(a: Alphabet, p: Pattern, pw: bool, t: string, n: nat, x: nat, y: nat)
    requires Kept(p) > 0 && Stands(a, p, pw, t, n) && Kept(p) <= x <= y < n && !In(a, Token(p), t[y])
    ensures IsSpace(t[x])
  {
    hide Alphabet.Word, Alphabet.PrevWord, Alphabet.NextWord, IsText, IsSpace, AllIn, In;
    var s := t[..n][Kept(p)..];
    var k: nat :| k <= |s| && SpacedToken(a, Token(p), s, k);
    SpaceThenToken(a, Token(p), s, k, y - Kept(p));
    if x - Kept(p) < k {
      AllInAt(a, Space, s[..k], x - Kept(p));
      SpaceIsSpace(a, t[x]);
    }
  }

  lemma SecondLetter(a: Alphabet, p: Pattern, pw: bool, t: string, n: nat)
    requires Stands(a, p, pw, t, n) && (p == Bearer || p == Basic)
    ensures |t| > 1 && SameChar(if p == Bearer then 'e' else 'a', t[1], true)
  {
    hide Alphabet.Word, Alphabet.PrevWord, Alphabet.NextWord, IsSpacedToken;
    assert SameChar(Opening(p)[1], t[..n][1], true) && t[..n][1] == t[1];
  }

  lemma LettersDiffer(c: char)
    ensures !SameChar('e', c, true) || !SameChar('a', c, true)
  {
  }

  /** The same facts in positions of the whole text. */
  lemma StandsAtFacts(a: Alphabet, p: Pattern, t: string, i: nat, n: nat)
    requires StandsAt(a, p, t, i, n)
    ensures Kept(p) < 12 <= n && i + n <= |t|
    ensures !a.PrevWord(false, t, i) && a.Word(t[i]) && !IsSpace(t[i])
    ensures forall x | i <= x < i + Kept(p) :: a.Word(t[x]) && !IsSpace(t[x])
    ensures Kept(p) > 0 ==> IsSpace(t[i + Kept(p)]) && SameChar(if p == Bearer then 'e' else 'a', t[i + 1], true)
    ensures p == Jwt || p == Refresh ==> forall x | i <= x < i + n :: In(a, BEARER_TOKEN, t[x])
    ensures p == Basic ==> forall x, y | i + 5 <= x <= y < i + n && IsSpace(t[y]) :: IsSpace(t[x])
  {
    hide Alphabet.Word, Alphabet.PrevWord, In, Stands, IsSpace, SameChar;
    var pw, u := a.PrevWord(false, t, i), t[i..];
    StandsFacts(a, p, pw, u, n);
    KeywordIsWord(a, p, pw, u, n);
    forall x | i <= x < i + Kept(p) ensures a.Word(t[x]) && !IsSpace(t[x]) {
      assert t[x] == u[x - i];
    }
    match p
    case Bearer => SecondLetter(a, p, pw, u, n);
    case Basic =>
      SecondLetter(a, p, pw, u, n);
      forall x, y | i + 5 <= x <= y < i + n && IsSpace(t[y]) ensures IsSpace(t[x]) {
        TokenIsNoSpace(a, p, t[y]);
        SpacesFirst(a, p, pw, u, n, x - i, y - i);
      }
    case _ =>
      BareIsToken(a, p, pw, u, n);
      forall x | i <= x < i + n ensures In(a, BEARER_TOKEN, t[x]) {
        assert t[x] == u[x - i];
      }
  }

  /** A credential of an HTTP scheme that starts inside one of a later kind has at most its keyword there. */
  lemma SchemeStartsBefore(a: Alphabet, p: Pattern, q: Pattern, t: string, j: nat, m: nat, i: nat, n: nat)
    requires StandsAt(a, p, t, j, m) && StandsAt(a, q, t, i, n)
    requires Kept(p) > 0 && Rank(p) < Rank(q) && i <= j
    ensures i + n <= j + Kept(p)
  {
    hide Alphabet.Word, In, StandsAt, IsSpace, SameChar;
    StandsAtFacts(a, p, t, j, m);
    StandsAtFacts(a, q, t, i, n);
    LettersDiffer(t[i + 1]);
    TokenIsNoSpace(a, Bearer, t[j + Kept(p)]);
  }

  /** What an earlier kind removes meets a credential of a later kind in two ways only: it starts before the
      credential, or it is a JWT inside a refresh token. */
  lemma SplitKinds(a: Alphabet, p: Pattern, q: Pattern, t: string, j: nat, m: nat, i: nat, n: nat)
    requires StandsAt(a, p, t, j, m) && StandsAt(a, q, t, i, n) && Rank(p) < Rank(q)
    requires j + Kept(p) < i + n && i < j + m
    ensures j < i || (p == Jwt && q == Refresh)
  {
    hide StandsAt;
    if i <= j && Kept(p) > 0 {
      SchemeStartsBefore(a, p, q, t, j, m, i, n);
    }
  }

  lemma StandsAtExtends(a: Alphabet, p: Pattern, t: string, i: nat, n: nat)
    requires p != Jwt && StandsAt(a, p, t, i, n) && i + n < |t| && In(a, Token(p), t[i + n])
    ensures StandsAt(a, p, t, i, n + 1)
  {
    hide Alphabet.Word, Alphabet.PrevWord, In, Stands;
    StandsExtends(a, p, a.PrevWord(false, t, i), t[i..], n);
  }

  lemma BearerGoesOn(a: Alphabet, t: string, j: nat, m: nat)
    requires Longest(a, Bearer, t, {}, j, m)
    ensures j + m < |t| ==> !In(a, BEARER_TOKEN, t[j + m])
  {
    hide In, StandsAt;
    if j + m < |t| && In(a, BEARER_TOKEN, t[j + m]) {
      StandsAtExtends(a, Bearer, t, j, m);
    }
  }

  /** And a bearer token that meets a bare token takes all of it. */
  lemma BearerSwallows(a: Alphabet, q: Pattern, t: string, j: nat, m: nat, i: nat, n: nat)
    requires Longest(a, Bearer, t, {}, j, m) && StandsAt(a, q, t, i, n) && (q == Jwt || q == Refresh)
    requires j + Kept(Bearer) < i + n && i < j + m
    ensures j + Kept(Bearer) < i && i + n <= j + m
  {
    hide Alphabet.Word, In, StandsAt, IsSpace, SameChar;
    SplitKinds(a, Bearer, q, t, j, m, i, n);
    StandsAtFacts(a, Bearer, t, j, m);
    StandsAtFacts(a, q, t, i, n);
    BearerGoesOn(a, t, j, m);
  }

  // ----- exactly when a credential goes whole -------------------------------------------------

  lemma NoZones(a: Alphabet, t: string)
    ensures ZonesOf(a, ORDER[..0], t) == {}
  {
    assert ORDER[..0] == [];
  }

  lemma RankOfKind(k: nat)
    requires k < 4
    ensures Rank(ORDER[k]) == k && forall q: Pattern :: Rank(q) == k ==> q == ORDER[k]
  {
  }

  /** The zones of the first kinds are what is taken of them, */
  lemma {:induction false} ZoneOrigin(a: Alphabet, k: nat, t: string, z: Zone) returns (p: Pattern, j: nat, m: nat)
    requires k <= 4 && z in ZonesOf(a, ORDER[..k], t)
    ensures Rank(p) < k && TakenInTurn(a, p, t, j, m) && z == Zone(j + Kept(p), j + m)
  {
    hide Taken, ZonesOf;
    if k == 0 {
      NoZones(a, t);
    } else {
      p := ORDER[k - 1];
      var before := ZonesOf(a, ORDER[..k - 1], t);
      assert ORDER[..k] == ORDER[..k - 1] + [p];
      OneMoreKind(a, ORDER[..k - 1], p, t);
      RankOfKind(k - 1);
      if z in before {
        p, j, m := ZoneOrigin(a, k - 1, t, z);
      } else {
        j, m :| Taken(a, p, t, before, j, m) && z == Zone(j + Kept(p), j + m);
      }
    }
  }

  /** and all of it. */
  lemma {:induction false} TakenMakesZone(a: Alphabet, k: nat, t: string, p: Pattern, j: nat, m: nat)
    requires Rank(p) < k <= 4 && TakenInTurn(a, p, t, j, m)
    ensures j + m <= |t| && Zone(j + Kept(p), j + m) in ZonesOf(a, ORDER[..k], t)
  {
    hide Taken, TakenZones, ZonesOf;
    var q := ORDER[k - 1];
    var before := ZonesOf(a, ORDER[..k - 1], t);
    assert ORDER[..k] == ORDER[..k - 1] + [q];
    OneMoreKind(a, ORDER[..k - 1], q, t);
    RankOfKind(k - 1);
    if Rank(p) == k - 1 {
      TakenIsZone(a, p, t, before, j, m);
    } else {
      TakenMakesZone(a, k - 1, t, p, j, m);
    }
  }

  lemma LongestStays(a: Alphabet, q: Pattern, t: string, zones: set<Zone>, i: nat, n: nat)
    requires Longest(a, q, t, {}, i, n) && Clear(zones, i, n)
    ensures Longest(a, q, t, zones, i, n)
  {
    hide StandsAt;
  }

  /** No earlier kind removes a part of the `n` characters from `i` on. */
  ghost predicate Spared(a: Alphabet, q: Pattern, t: string, i: nat, n: nat) {
    forall p: Pattern, j: nat, m: nat :: Rank(p) < Rank(q) && TakenInTurn(a, p, t, j, m) ==> j + m <= i || i + n <= j + Kept(p)
  }

  lemma SparedIsClear(a: Alphabet, q: Pattern, t: string, i: nat, n: nat)
    ensures Spared(a, q, t, i, n) <==> Clear(ZonesOf(a, ORDER[..Rank(q)], t), i, n)
  {
    hide TakenInTurn, ZonesOf;
    var zones := ZonesOf(a, ORDER[..Rank(q)], t);
    forall p: Pattern, j: nat, m: nat | Rank(p) < Rank(q) && TakenInTurn(a, p, t, j, m)
      ensures Zone(j + Kept(p), j + m) in zones
    {
      TakenMakesZone(a, Rank(q), t, p, j, m);
    }
    forall z | z in zones && Spared(a, q, t, i, n) ensures z.end <= i || i + n <= z.start {
      var p, j, m := ZoneOrigin(a, Rank(q), t, z);
    }
  }

  /** A maximal credential of the input is taken whole exactly when no earlier kind removes a part of it
      and none of its own kind that is taken reaches past its start. */
  lemma WholeExactlyWhen(a: Alphabet, q: Pattern, t: string, i: nat, n: nat)
    requires Longest(a, q, t, {}, i, n)
    ensures TakenInTurn(a, q, t, i, n) <==>
      Spared(a, q, t, i, n) && forall j: nat, m: nat | j < i && TakenInTurn(a, q, t, j, m) :: j + m <= i
  {
    hide Longest, ZonesOf, Spared, Clear;
    var zones := ZonesOf(a, ORDER[..Rank(q)], t);
    SparedIsClear(a, q, t, i, n);
    if Clear(zones, i, n) {
      LongestStays(a, q, t, zones, i, n);
      TakenExactlyWhenUncovered(a, q, t, zones, i, n);
      if j: nat, m: nat :| j < i && Taken(a, q, t, zones, j, m) && i < j + m {
        assert TakenInTurn(a, q, t, j, m);
      }
    } else if Taken(a, q, t, zones, i, n) {
      LongestIsClear(a, q, t, zones, i, n);
    }
  }

  lemma ZoneStartsClear(a: Alphabet, t: string, zones: set<Zone>, z: Zone)
    requires Neat(a, t, zones) && z in zones
    ensures z.start < z.end <= |t| && Clear(zones, z.start, 0)
  {
    hide Alphabet.PrevWord, IsSpace, Barren;
    assert Tidy(a, t, z);
  }

  /** And then the marker stands in place of its secret, between what is left of the text before and after. */
  lemma TakenIsGone(a: Alphabet, q: Pattern, t: string, i: nat, n: nat)
    requires TakenInTurn(a, q, t, i, n)
    ensures var zones, w := ZonesOf(a, ORDER, t), i + Kept(q);
      && w < i + n <= |t|
      && ScrubAll(a, t) == Fill(t, zones, 0, w) + Mark(t[w]) + Fill(t, zones, i + n, |t|)
  {
    hide TakenInTurn, Fill, Neat, ZonesOf, Mark, ScrubAll;
    var zones, z := ZonesOf(a, ORDER, t), Zone(i + Kept(q), i + n);
    assert ORDER[..4] == ORDER;
    TakenMakesZone(a, 4, t, q, i, n);
    ScrubAllFills(a, t);
    ZonesAreNeat(a, ORDER, t);
    ZoneStartsClear(a, t, zones, z);
    FillSplit(t, zones, 0, z.start, |t|);
    FillAtZone(a, t, zones, z);
    PlusAssociates(Fill(t, zones, 0, z.start), Mark(t[z.start]), Fill(t, zones, z.end, |t|));
  }
}
