/** Texts in which a credential stands whole and yet a part of it stays: a hit that starts before it takes its
    head, and what is left is no credential any more. The hit is of the same kind in the first two texts; the
    others are one for each pair of kinds of which the earlier can split the later. */
module SplitExample {
  import opened Regex
  import opened Redaction
  import opened Credentials
  import opened Zones
  import opened Secrets
  import opened OpeningCredential

  // ----- a keyword inside a token -------------------------------------------------------------

  const TWO_BEARERS := "bearer x-bearer abcdefgh"

  lemma BearerText(t: string)
    requires "bearer" <= t
    ensures IsText("bearer", true, t)
  {
    forall k | 0 <= k < 6 ensures SameChar("bearer"[k], t[k], true) {
      assert t[k] == "bearer"[k];
    }
  }

  lemma TwoBearersEnds(a: Alphabet)
    ensures TWO_BEARERS[9..] == "bearer abcdefgh" && TWO_BEARERS[15..] == " abcdefgh" && TWO_BEARERS[..6] == "bearer"
    ensures !In(a, BEARER_TOKEN, TWO_BEARERS[15])
  {
  }

  lemma TwoBearersStand(a: Alphabet)
    ensures Stands(a, Bearer, false, TWO_BEARERS, 15) && StandsAt(a, Bearer, TWO_BEARERS, 9, 15)
    ensures forall m: nat | Stands(a, Bearer, false, TWO_BEARERS, m) :: m <= 15
  {
    hide Stands, IsText;
    var s := TWO_BEARERS;
    TwoBearersEnds(a);
    BearerText(s);
    BearerText("bearer abcdefgh");
    SchemeStands(a, Bearer, s, 15);
    SchemeStands(a, Bearer, "bearer abcdefgh", 15);
    forall m: nat | Stands(a, Bearer, false, s, m) ensures m <= 15 {
      SchemeStops(a, Bearer, false, s, m, 15);
    }
  }

  lemma TwoBearersMarked()
    ensures "bearer" + " " + REDACTED + " abcdefgh" == "bearer [REDACTED] abcdefgh"
  {
  }

  /** A bearer credential stands at 9; the token before it takes its keyword, and its secret stays. */
  lemma TokenHidesAKeyword(a: Alphabet)
    ensures StandsAt(a, Bearer, "bearer x-bearer abcdefgh", 9, 15)
    ensures ScrubText(a, "bearer x-bearer abcdefgh") == "bearer [REDACTED] abcdefgh"
  {
    hide StandsAt, Stands, ScrubAll, In;
    TwoBearersEnds(a);
    TwoBearersStand(a);
    OpeningIsAllThatGoes(a, Bearer, TWO_BEARERS, 15);
    TwoBearersMarked();
  }

  // ----- tokens that overlap ------------------------------------------------------------------

  predicate IsPartChar(c: char) {
    IsAsciiAlnum(c) || c == '-' || c == '_'
  }

  /** Three parts that end at `i`, `j` and `n`. */
  predicate ThreeParts(t: string, i: nat, j: nat, n: nat) {
    && 8 <= i && i + 6 <= j && j + 6 <= n <= |t| && t[0] == 'e' && t[1] == 'y' && t[2] == 'J'
    && t[i] == '.' && t[j] == '.' && IsAsciiAlnum(t[n - 1]) && (n < |t| ==> t[n] == '.')
    && forall k | 0 <= k < n && k != i && k != j :: IsPartChar(t[k])
  }

  lemma PartIsToken(a: Alphabet, t: string, i: nat, j: nat)
    requires i <= j <= |t| && forall k | i <= k < j :: IsPartChar(t[k])
    ensures AllIn(a, JWT_TOKEN, t[i..j])
  {
  }

  lemma JoinParts(a: Alphabet, m: nat, s: string, i: nat)
    requires i < |s| && FirstPart(a, s, i) && IsParts(a, m, s[i + 1..]) && m >= 1
    ensures IsParts(a, m + 1, s)
  {
    hide FirstPart;
  }

  lemma OnePartMore(a: Alphabet, m: nat, t: string, b: nat, i: nat, n: nat)
    requires b + 5 <= i < n <= |t| && m >= 1
    requires AllIn(a, JWT_TOKEN, t[b..i]) && t[i] == '.' && IsParts(a, m, t[i + 1..n])
    ensures IsParts(a, m + 1, t[b..n])
  {
    hide In, AllIn, IsParts;
    var s := t[b..n];
    assert s[..i - b] == t[b..i];
    assert s[i - b + 1..] == t[i + 1..n];
    JoinParts(a, m, s, i - b);
  }

  lemma SinglePart(a: Alphabet, s: string)
    requires |s| >= 5 && AllIn(a, JWT_TOKEN, s)
    ensures IsParts(a, 1, s)
  {
  }

  lemma JwtParts(a: Alphabet, t: string, i: nat, j: nat, n: nat)
    requires ThreeParts(t, i, j, n)
    ensures IsParts(a, 3, t[3..n])
  {
    hide In, AllIn, IsParts;
    PartIsToken(a, t, 3, i);
    PartIsToken(a, t, i + 1, j);
    PartIsToken(a, t, j + 1, n);
    SinglePart(a, t[j + 1..n]);
    OnePartMore(a, 1, t, i + 1, j, n);
    OnePartMore(a, 2, t, 3, i, n);
  }

  lemma OpeningText(t: string)
    requires |t| >= 3 && t[0] == 'e' && t[1] == 'y' && t[2] == 'J'
    ensures IsText("eyJ", false, t)
  {
  }

  lemma TokenBoundaries(a: Alphabet, t: string, n: nat)
    requires 0 < n <= |t| && t[0] == 'e' && IsAsciiAlnum(t[n - 1]) && (n < |t| ==> t[n] == '.')
    ensures a.NextWord(t) && a.PrevWord(false, t, n) && !a.NextWord(t[n..])
  {
  }

  lemma JwtStands(a: Alphabet, t: string, i: nat, j: nat, n: nat)
    requires ThreeParts(t, i, j, n)
    ensures Stands(a, Jwt, false, t, n)
  {
    hide In, AllIn, IsParts;
    JwtParts(a, t, i, j, n);
    assert t[..n][3..] == t[3..n];
    OpeningText(t[..n]);
    TokenBoundaries(a, t, n);
  }

  lemma PartHasNoDot(a: Alphabet, s: string, i: nat)
    requires AllIn(a, JWT_TOKEN, s)
    ensures i < |s| ==> s[i] != '.'
  {
    assert i < |s| ==> s[i] in s;
  }

  /** A part ends at its first dot. */
  lemma PartEnds(a: Alphabet, m: nat, s: string, i: nat)
    requires IsParts(a, m + 1, s) && m >= 1 && i < |s| && s[i] == '.' && forall k | 0 <= k < i :: s[k] != '.'
    ensures IsParts(a, m, s[i + 1..])
  {
    hide In;
    var k: nat :| k < |s| && FirstPart(a, s, k) && IsParts(a, m, s[k + 1..]);
    PartHasNoDot(a, s[..k], i);
  }

  lemma LastPartHasNoDot(a: Alphabet, s: string, i: nat)
    requires IsParts(a, 1, s)
    ensures i < |s| ==> s[i] != '.'
  {
    PartHasNoDot(a, s, i);
  }

  lemma JwtStops(a: Alphabet, t: string, i: nat, j: nat, n: nat, m: nat)
    requires ThreeParts(t, i, j, n) && Stands(a, Jwt, false, t, m)
    ensures m <= n
  {
    hide In, Alphabet.Word, AllIn, IsText, IsParts;
    if n < m {
      var s := t[..m][3..];
      PartEnds(a, 2, s, i - 3);
      PartEnds(a, 1, s[i - 2..], j - i - 1);
      assert s[i - 2..][j - i..] == t[j + 1..m];
      LastPartHasNoDot(a, t[j + 1..m], n - j - 1);
    }
  }

  const TWO_TOKENS := "eyJaaaaa.bbbbb.eyJccccc.ddddd.eeeee"

  lemma TwoTokensTails()
    ensures TWO_TOKENS[15..] == "eyJccccc.ddddd.eeeee" && TWO_TOKENS[23..] == ".ddddd.eeeee"
  {
  }

  lemma TwoTokensQuiet(p: Pattern, i: nat)
    requires i < 34
    ensures QuietAt(p, TWO_TOKENS, i)
  {
  }

  lemma TwoTokensParts()
    ensures ThreeParts(TWO_TOKENS, 8, 14, 23)
  {
  }

  lemma SecondTokenParts()
    ensures ThreeParts("eyJccccc.ddddd.eeeee", 8, 14, 20)
  {
  }

  lemma TwoTokensStand(a: Alphabet)
    ensures Stands(a, Jwt, false, TWO_TOKENS, 23) && StandsAt(a, Jwt, TWO_TOKENS, 15, 20)
    ensures forall m: nat | Stands(a, Jwt, false, TWO_TOKENS, m) :: m <= 23
  {
    hide Stands, ThreeParts;
    var s := TWO_TOKENS;
    TwoTokensTails();
    TwoTokensParts();
    SecondTokenParts();
    JwtStands(a, s, 8, 14, 23);
    JwtStands(a, "eyJccccc.ddddd.eeeee", 8, 14, 20);
    forall m: nat | Stands(a, Jwt, false, s, m) ensures m <= 23 {
      JwtStops(a, s, 8, 14, 23, m);
    }
  }

  lemma TwoTokensAreFree(a: Alphabet, q: Pattern)
    requires Rank(q) < Rank(Jwt)
    ensures Free(a, Compiled(q), false, TWO_TOKENS)
  {
    hide Free, Compiled, QuietAt;
    forall i: nat | i + 1 < |TWO_TOKENS| ensures QuietAt(q, TWO_TOKENS, i) {
      TwoTokensQuiet(q, i);
    }
    QuietIsFree(a, q, TWO_TOKENS);
  }

  lemma TwoTokensMarked()
    ensures TWO_TOKENS[..0] + "" + REDACTED + ".ddddd.eeeee" == "[REDACTED].ddddd.eeeee"
  {
  }

  /** A JWT stands at 15; the one before it takes its first part, and the other two stay. */
  lemma TokenHidesAToken(a: Alphabet)
    ensures StandsAt(a, Jwt, "eyJaaaaa.bbbbb.eyJccccc.ddddd.eeeee", 15, 20)
    ensures ScrubText(a, "eyJaaaaa.bbbbb.eyJccccc.ddddd.eeeee") == "[REDACTED].ddddd.eeeee"
  {
    hide StandsAt, Stands, ScrubAll, Free, Compiled;
    TwoTokensTails();
    TwoTokensStand(a);
    forall q: Pattern | Rank(q) < Rank(Jwt) ensures Free(a, Compiled(q), false, TWO_TOKENS) {
      TwoTokensAreFree(a, q);
    }
    OpeningIsAllThatGoes(a, Jwt, TWO_TOKENS, 23);
    TwoTokensMarked();
  }

  // ----- a token after a scheme ---------------------------------------------------------------

  const SCHEME_AND_TOKEN := "basic eyJaaaaa.bbbbb.ccccc"

  lemma BasicText(t: string)
    requires "basic" <= t
    ensures IsText("basic", true, t)
  {
    forall k | 0 <= k < 5 ensures SameChar("basic"[k], t[k], true) {
      assert t[k] == "basic"[k];
    }
  }

  lemma SchemeAndTokenEnds()
    ensures SCHEME_AND_TOKEN[14..] == ".bbbbb.ccccc" && SCHEME_AND_TOKEN[..5] == "basic"
  {
  }

  lemma SchemeAndTokenQuiet(i: nat)
    requires i < 25
    ensures QuietAt(Bearer, SCHEME_AND_TOKEN, i)
  {
  }

  lemma TokenParts()
    ensures SCHEME_AND_TOKEN[6..] == "eyJaaaaa.bbbbb.ccccc" && ThreeParts("eyJaaaaa.bbbbb.ccccc", 8, 14, 20)
  {
  }

  lemma SchemeAndTokenStand(a: Alphabet)
    ensures Stands(a, Basic, false, SCHEME_AND_TOKEN, 14) && StandsAt(a, Jwt, SCHEME_AND_TOKEN, 6, 20)
    ensures forall m: nat | Stands(a, Basic, false, SCHEME_AND_TOKEN, m) :: m <= 14
  {
    hide Stands, ThreeParts, IsText;
    var s := SCHEME_AND_TOKEN;
    TokenParts();
    JwtStands(a, "eyJaaaaa.bbbbb.ccccc", 8, 14, 20);
    BasicText(s);
    SchemeStands(a, Basic, s, 14);
    forall m: nat | Stands(a, Basic, false, s, m) ensures m <= 14 {
      SchemeStops(a, Basic, false, s, m, 14);
    }
  }

  lemma OnlyBearerIsFirst()
    ensures forall q: Pattern :: Rank(q) < Rank(Basic) ==> q == Bearer
  {
  }

  lemma SchemeAndTokenIsFree(a: Alphabet)
    ensures Free(a, Compiled(Bearer), false, SCHEME_AND_TOKEN)
  {
    hide Free, Compiled, QuietAt;
    forall i: nat | i + 1 < |SCHEME_AND_TOKEN| ensures QuietAt(Bearer, SCHEME_AND_TOKEN, i) {
      SchemeAndTokenQuiet(i);
    }
    QuietIsFree(a, Bearer, SCHEME_AND_TOKEN);
  }

  lemma SchemeAndTokenMarked()
    ensures "basic" + " " + REDACTED + ".bbbbb.ccccc" == "basic [REDACTED].bbbbb.ccccc"
  {
  }

  /** A JWT stands at 6; the scheme before it takes its first part, and the other two stay. */
  lemma SchemeTakesOnlyTheHead(a: Alphabet)
    ensures StandsAt(a, Jwt, "basic eyJaaaaa.bbbbb.ccccc", 6, 20)
    ensures ScrubText(a, "basic eyJaaaaa.bbbbb.ccccc") == "basic [REDACTED].bbbbb.ccccc"
  {
    hide StandsAt, Stands, ScrubAll, Free, Compiled;
    SchemeAndTokenEnds();
    SchemeAndTokenStand(a);
    SchemeAndTokenIsFree(a);
    OnlyBearerIsFirst();
    assert Kept(Basic) == 5;
    OpeningIsAllThatGoes(a, Basic, SCHEME_AND_TOKEN, 14);
    SchemeAndTokenMarked();
  }

  // ----- the other kinds that split -----------------------------------------------------------

  const BEARER_AND_BASIC := "bearer xx-basic yyyyyyyy"

  lemma BearerAndBasicEnds(a: Alphabet)
    ensures BEARER_AND_BASIC[10..] == "basic yyyyyyyy" && BEARER_AND_BASIC[15..] == " yyyyyyyy"
    ensures BEARER_AND_BASIC[..6] == "bearer" && !In(a, BEARER_TOKEN, BEARER_AND_BASIC[15])
  {
  }

  lemma BearerAndBasicStand(a: Alphabet)
    ensures Stands(a, Bearer, false, BEARER_AND_BASIC, 15) && StandsAt(a, Basic, BEARER_AND_BASIC, 10, 14)
    ensures forall m: nat | Stands(a, Bearer, false, BEARER_AND_BASIC, m) :: m <= 15
  {
    hide Stands, IsText;
    var s := BEARER_AND_BASIC;
    BearerAndBasicEnds(a);
    BearerText(s);
    BasicText("basic yyyyyyyy");
    SchemeStands(a, Bearer, s, 15);
    SchemeStands(a, Basic, "basic yyyyyyyy", 14);
    forall m: nat | Stands(a, Bearer, false, s, m) ensures m <= 15 {
      SchemeStops(a, Bearer, false, s, m, 15);
    }
  }

  lemma BearerAndBasicMarked()
    ensures "bearer" + " " + REDACTED + " yyyyyyyy" == "bearer [REDACTED] yyyyyyyy"
  {
  }

  /** A basic credential stands at 10; a bearer token takes its keyword, and its secret stays. */
  lemma BearerHidesBasic(a: Alphabet)
    ensures StandsAt(a, Basic, "bearer xx-basic yyyyyyyy", 10, 14)
    ensures ScrubText(a, "bearer xx-basic yyyyyyyy") == "bearer [REDACTED] yyyyyyyy"
  {
    hide StandsAt, Stands, ScrubAll, In;
    BearerAndBasicEnds(a);
    BearerAndBasicStand(a);
    OpeningIsAllThatGoes(a, Bearer, BEARER_AND_BASIC, 15);
    BearerAndBasicMarked();
  }

  lemma RefreshStands(a: Alphabet, t: string)
    requires |t| >= 12 && "rt1_" <= t && forall k | 4 <= k < |t| :: IsPartChar(t[k]) || t[k] == '.'
    ensures Stands(a, Refresh, false, t, |t|)
  {
    assert t[..|t|] == t && t[..4] == "rt1_";
    forall k | 0 <= k < 4 ensures SameChar("rt1_"[k], t[k], false) {
      assert t[k] == "rt1_"[k];
    }
    assert t[0] == "rt1_"[0];
  }

  const BASIC_AND_REFRESH := "basic xxxxx+rt1_yyyyyyyy"

  lemma BasicAndRefreshEnds(a: Alphabet)
    ensures BASIC_AND_REFRESH[12..] == "rt1_yyyyyyyy" && BASIC_AND_REFRESH[15..] == "_yyyyyyyy"
    ensures BASIC_AND_REFRESH[..5] == "basic" && !In(a, BASIC_TOKEN, BASIC_AND_REFRESH[15])
  {
  }

  lemma BasicAndRefreshStand(a: Alphabet)
    ensures Stands(a, Basic, false, BASIC_AND_REFRESH, 15) && StandsAt(a, Refresh, BASIC_AND_REFRESH, 12, 12)
    ensures forall m: nat | Stands(a, Basic, false, BASIC_AND_REFRESH, m) :: m <= 15
  {
    hide Stands, IsText;
    var s := BASIC_AND_REFRESH;
    BasicAndRefreshEnds(a);
    BasicText(s);
    SchemeStands(a, Basic, s, 15);
    RefreshStands(a, "rt1_yyyyyyyy");
    forall m: nat | Stands(a, Basic, false, s, m) ensures m <= 15 {
      SchemeStops(a, Basic, false, s, m, 15);
    }
  }

  lemma BasicAndRefreshQuiet(i: nat)
    requires i < 23
    ensures QuietAt(Bearer, BASIC_AND_REFRESH, i)
  {
  }

  lemma BasicAndRefreshMarked()
    ensures "basic" + " " + REDACTED + "_yyyyyyyy" == "basic [REDACTED]_yyyyyyyy"
  {
  }

  /** A refresh token stands at 12; a basic token takes its head, and the rest stays. */
  lemma BasicHidesRefresh(a: Alphabet)
    ensures StandsAt(a, Refresh, "basic xxxxx+rt1_yyyyyyyy", 12, 12)
    ensures ScrubText(a, "basic xxxxx+rt1_yyyyyyyy") == "basic [REDACTED]_yyyyyyyy"
  {
    hide StandsAt, Stands, ScrubAll, Free, Compiled, In, QuietAt;
    BasicAndRefreshEnds(a);
    BasicAndRefreshStand(a);
    forall i: nat | i + 1 < |BASIC_AND_REFRESH| ensures QuietAt(Bearer, BASIC_AND_REFRESH, i) {
      BasicAndRefreshQuiet(i);
    }
    QuietIsFree(a, Bearer, BASIC_AND_REFRESH);
    OnlyBearerIsFirst();
    OpeningIsAllThatGoes(a, Basic, BASIC_AND_REFRESH, 15);
    BasicAndRefreshMarked();
  }

  const JWT_AND_REFRESH := "eyJaaaaa.bbbbb.ccccc-rt1_xxxxxxxx.yyyyyyyy"

  lemma JwtAndRefreshEnds()
    ensures JWT_AND_REFRESH[21..] == "rt1_xxxxxxxx.yyyyyyyy" && JWT_AND_REFRESH[33..] == ".yyyyyyyy"
  {
  }

  lemma JwtAndRefreshParts()
    ensures ThreeParts(JWT_AND_REFRESH, 8, 14, 33)
  {
  }

  lemma JwtAndRefreshStand(a: Alphabet)
    ensures Stands(a, Jwt, false, JWT_AND_REFRESH, 33) && StandsAt(a, Refresh, JWT_AND_REFRESH, 21, 21)
    ensures forall m: nat | Stands(a, Jwt, false, JWT_AND_REFRESH, m) :: m <= 33
  {
    hide Stands, ThreeParts;
    var s := JWT_AND_REFRESH;
    JwtAndRefreshEnds();
    JwtAndRefreshParts();
    JwtStands(a, s, 8, 14, 33);
    RefreshStands(a, "rt1_xxxxxxxx.yyyyyyyy");
    forall m: nat | Stands(a, Jwt, false, s, m) ensures m <= 33 {
      JwtStops(a, s, 8, 14, 33, m);
    }
  }

  lemma JwtAndRefreshQuiet(p: Pattern, i: nat)
    requires i < 41
    ensures QuietAt(p, JWT_AND_REFRESH, i)
  {
  }

  lemma JwtAndRefreshIsFree(a: Alphabet, q: Pattern)
    requires Rank(q) < Rank(Jwt)
    ensures Free(a, Compiled(q), false, JWT_AND_REFRESH)
  {
    hide Free, Compiled, QuietAt;
    forall i: nat | i + 1 < |JWT_AND_REFRESH| ensures QuietAt(q, JWT_AND_REFRESH, i) {
      JwtAndRefreshQuiet(q, i);
    }
    QuietIsFree(a, q, JWT_AND_REFRESH);
  }

  lemma JwtAndRefreshMarked()
    ensures JWT_AND_REFRESH[..0] + "" + REDACTED + ".yyyyyyyy" == "[REDACTED].yyyyyyyy"
  {
  }

  /** A refresh token stands at 21; a JWT takes its head, and the rest stays. */
  lemma JwtHidesRefresh(a: Alphabet)
    ensures StandsAt(a, Refresh, "eyJaaaaa.bbbbb.ccccc-rt1_xxxxxxxx.yyyyyyyy", 21, 21)
    ensures ScrubText(a, "eyJaaaaa.bbbbb.ccccc-rt1_xxxxxxxx.yyyyyyyy") == "[REDACTED].yyyyyyyy"
  {
    hide StandsAt, Stands, ScrubAll, Free, Compiled;
    JwtAndRefreshEnds();
    JwtAndRefreshStand(a);
    forall q: Pattern | Rank(q) < Rank(Jwt) ensures Free(a, Compiled(q), false, JWT_AND_REFRESH) {
      JwtAndRefreshIsFree(a, q);
    }
    OpeningIsAllThatGoes(a, Jwt, JWT_AND_REFRESH, 33);
    JwtAndRefreshMarked();
  }
}
