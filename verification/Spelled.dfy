/** The four credentials spelled out, character by character, and what becomes of a text that is one. No
    class, literal or pattern of the other modules is named in what is stated, so these are the patterns of
    `redaction.py` as a reader of its source would put them. */
module Spelled {
  import opened Regex
  import opened Characters
  import opened Redaction
  import opened Credentials
  import opened Zones
  import opened Secrets
  import opened OpeningCredential
  import opened Unseen

  // ----- characters ---------------------------------------------------------------------------

  /** The characters that the token of a credential is made of. */
  predicate TokenChar(p: Pattern, c: char) {
    || IsLetterOrDigit(c)
    || match p
       case Bearer => c in {'.', '_', '-', '+', '/', '='} || IsFolded(c)
       case Basic => c in {'+', '/', '='} || IsFolded(c)
       case Jwt => c in {'_', '-'}
       case Refresh => c in {'.', '_', '-'}
  }

  lemma TokenIsSpelled(a: Alphabet, p: Pattern, c: char)
    ensures In(a, Token(p), c) <==> TokenChar(p, c)
  {
  }

  // ----- credentials --------------------------------------------------------------------------

  predicate AllWhite(s: string) {
    forall c <- s :: WhiteChar(c)
  }

  predicate AllToken(p: Pattern, s: string) {
    forall c <- s :: TokenChar(p, c)
  }

  predicate WhiteThenToken(p: Pattern, s: string, k: nat) {
    1 <= k <= |s| - 8 && AllWhite(s[..k]) && AllToken(p, s[k..])
  }

  predicate PartsAt(s: string, i: nat, j: nat) {
    && 5 <= i && i + 6 <= j && j + 6 <= |s| && s[i] == '.' && s[j] == '.'
    && AllToken(Jwt, s[..i]) && AllToken(Jwt, s[i + 1..j]) && AllToken(Jwt, s[j + 1..])
  }

  /** A scheme in any case, white space and at least eight token characters; `eyJ` and three parts of at least
      five characters, joined by dots; `rt1_` and at least eight. */
  ghost predicate IsSpelledOut(p: Pattern, s: string) {
    match p
    case Bearer => OpensWith(s, "bearer", "BEARER") && exists k: nat :: WhiteThenToken(p, s[6..], k)
    case Basic => OpensWith(s, "basic", "BASIC") && exists k: nat :: WhiteThenToken(p, s[5..], k)
    case Jwt => "eyJ" <= s && exists i: nat, j: nat :: PartsAt(s[3..], i, j)
    case Refresh => "rt1_" <= s && |s| >= 12 && AllToken(p, s[4..])
  }

  lemma AllTokenIsIn(a: Alphabet, p: Pattern, s: string)
    ensures AllIn(a, Token(p), s) <==> AllToken(p, s)
  {
    hide In, TokenChar;
    forall c | c in s ensures In(a, Token(p), c) <==> TokenChar(p, c) {
      TokenIsSpelled(a, p, c);
    }
  }

  lemma AllWhiteIsSpace(a: Alphabet, s: string)
    ensures AllIn(a, Space, s) <==> AllWhite(s)
  {
    hide In, IsSpace, WhiteChar;
    forall c | c in s ensures In(a, Space, c) <==> WhiteChar(c) {
      SpaceIsSpace(a, c);
      WhiteIsSpelled(c);
    }
  }

  lemma SpacedIsSpelled(a: Alphabet, p: Pattern, s: string)
    ensures IsSpacedToken(a, Token(p), s) <==> exists k: nat :: WhiteThenToken(p, s, k)
  {
    hide AllIn, AllWhite, AllToken;
    forall k: nat | k <= |s| ensures SpacedToken(a, Token(p), s, k) <==> WhiteThenToken(p, s, k) {
      AllWhiteIsSpace(a, s[..k]);
      AllTokenIsIn(a, p, s[k..]);
    }
    if k: nat :| WhiteThenToken(p, s, k) {
      assert SpacedToken(a, Token(p), s, k);
    }
  }

  lemma SchemesInCases()
    ensures InCases("bearer", "BEARER") && InCases("basic", "BASIC")
  {
  }

  lemma LastPartIsSpelled(a: Alphabet, s: string)
    ensures IsParts(a, 1, s) <==> |s| >= 5 && AllToken(Jwt, s)
  {
    hide AllIn, AllToken;
    AllTokenIsIn(a, Jwt, s);
  }

  lemma FirstPartIsSpelled(a: Alphabet, s: string, i: nat)
    requires i < |s|
    ensures FirstPart(a, s, i) <==> i >= 5 && s[i] == '.' && AllToken(Jwt, s[..i])
  {
    hide AllIn, AllToken;
    AllTokenIsIn(a, Jwt, s[..i]);
  }

  lemma TwoPartsAreSpelled(a: Alphabet, s: string)
    ensures IsParts(a, 2, s) <==> exists j: nat :: 5 <= j && j + 6 <= |s| && s[j] == '.' && AllToken(Jwt, s[..j]) && AllToken(Jwt, s[j + 1..])
  {
    hide AllIn, AllToken, FirstPart;
    forall j: nat | j < |s|
      ensures FirstPart(a, s, j) && IsParts(a, 1, s[j + 1..]) <==>
        5 <= j && j + 6 <= |s| && s[j] == '.' && AllToken(Jwt, s[..j]) && AllToken(Jwt, s[j + 1..])
    {
      FirstPartIsSpelled(a, s, j);
      LastPartIsSpelled(a, s[j + 1..]);
    }
  }

  lemma PartsSlices(s: string, i: nat, j: nat)
    requires i + 1 <= j < |s|
    ensures s[i + 1..][..j - i - 1] == s[i + 1..j] && s[i + 1..][j - i..] == s[j + 1..] && s[i + 1..][j - i - 1] == s[j]
  {
  }

  lemma ThreePartsSpelled(a: Alphabet, s: string) returns (i: nat, j: nat)
    requires IsParts(a, 3, s)
    ensures PartsAt(s, i, j)
  {
    hide AllIn, AllToken, FirstPart;
    i :| i < |s| && FirstPart(a, s, i) && IsParts(a, 2, s[i + 1..]);
    var rest := s[i + 1..];
    FirstPartIsSpelled(a, s, i);
    TwoPartsAreSpelled(a, rest);
    var m: nat :| 5 <= m && m + 6 <= |rest| && rest[m] == '.' && AllToken(Jwt, rest[..m]) && AllToken(Jwt, rest[m + 1..]);
    j := i + 1 + m;
    PartsSlices(s, i, j);
  }

  lemma SpelledThreeParts(a: Alphabet, s: string, i: nat, j: nat)
    requires PartsAt(s, i, j)
    ensures IsParts(a, 3, s)
  {
    hide AllIn, AllToken, FirstPart;
    var m := j - i - 1;
    PartsSlices(s, i, j);
    FirstPartIsSpelled(a, s, i);
    TwoPartsAreSpelled(a, s[i + 1..]);
  }

  /** The credentials of the model are those spelled out. */
  lemma CredentialIsSpelledOut(a: Alphabet, p: Pattern, s: string)
    ensures IsCredential(a, p, s) <==> IsSpelledOut(p, s)
  {
    hide AllIn, AllToken, IsText, OpensWith, IsSpacedToken, WhiteThenToken, IsParts, PartsAt, InCases;
    SchemesInCases();
    match p
    case Bearer =>
      WordIsText(s, "bearer", "BEARER");
      WordFits(s, "bearer", "BEARER");
      if OpensWith(s, "bearer", "BEARER") {
        SpacedIsSpelled(a, p, s[6..]);
      }
    case Basic =>
      WordIsText(s, "basic", "BASIC");
      WordFits(s, "basic", "BASIC");
      if OpensWith(s, "basic", "BASIC") {
        SpacedIsSpelled(a, p, s[5..]);
      }
    case Jwt =>
      ExactText(s, "eyJ");
      if "eyJ" <= s {
        if IsParts(a, 3, s[3..]) {
          var i, j := ThreePartsSpelled(a, s[3..]);
        }
        if i: nat, j: nat :| PartsAt(s[3..], i, j) {
          SpelledThreeParts(a, s[3..], i, j);
        }
      }
    case Refresh =>
      ExactText(s, "rt1_");
      if "rt1_" <= s {
        AllTokenIsIn(a, p, s[4..]);
      }
  }

  // ----- where a credential stands ------------------------------------------------------------

  /** A spelled-out credential at `i`, `n` characters long: no word character comes before it, and a JWT ends
      where word and other characters meet. */
  ghost predicate IsSpelledAt(a: Alphabet, p: Pattern, t: string, i: nat, n: nat) {
    && i + n <= |t| && IsSpelledOut(p, t[i..i + n]) && (i > 0 ==> !a.Word(t[i - 1]))
    && (p == Jwt ==> n > 0 && a.Word(t[i + n - 1]) != (i + n < |t| && a.Word(t[i + n])))
  }

  lemma FirstLetterIsWord(a: Alphabet, x: char, c: char)
    requires 'a' <= x <= 'z' && SameChar(x, c, true)
    ensures a.Word(c)
  {
  }

  lemma OpenerIsWord(a: Alphabet, p: Pattern, s: string)
    requires IsCredential(a, p, s)
    ensures s != "" && a.Word(s[0])
  {
    hide IsSpacedToken, IsParts, AllIn, Alphabet.Word;
    var c := Opening(p)[0];
    assert IsText(Opening(p), p == Bearer || p == Basic, s);
    assert SameChar(c, s[0], true);
    FirstLetterIsWord(a, c, s[0]);
  }

  /** Where the model says that a credential stands, one is spelled out, and nowhere else. So the matches of
      the four patterns are what the source's patterns describe. */
  lemma StandsIsSpelledOut(a: Alphabet, p: Pattern, t: string, i: nat, n: nat)
    ensures StandsAt(a, p, t, i, n) <==> IsSpelledAt(a, p, t, i, n)
  {
    hide Alphabet.Word, IsCredential, IsSpelledOut;
    if i + n <= |t| {
      var s := t[i..i + n];
      assert t[i..][..n] == s;
      CredentialIsSpelledOut(a, p, s);
      if IsCredential(a, p, s) {
        OpenerIsWord(a, p, s);
        assert n > 0 && t[i..][0] == s[0] && t[i..][n - 1] == t[i + n - 1] && t[i..][n..] == t[i + n..];
      }
    }
  }

  // ----- a text that is one credential --------------------------------------------------------

  lemma NoWhiteNoScheme(a: Alphabet, p: Pattern, t: string)
    requires Kept(p) > 0 && forall c <- t :: !WhiteChar(c)
    ensures Free(a, Compiled(p), false, t)
  {
    hide Stands, Compiled, Free, IsSpace, WhiteChar, Alphabet.Word, Alphabet.PrevWord, In, SameChar;
    FreeMeans(a, p, t);
    forall i: nat, n: nat | i <= |t| ensures !Stands(a, p, a.PrevWord(false, t, i), t[i..], n) {
      if StandsAt(a, p, t, i, n) {
        StandsAtFacts(a, p, t, i, n);
        WhiteIsSpelled(t[i + Kept(p)]);
      }
    }
  }

  /** The keyword of an HTTP scheme as typed. */
  predicate IsScheme(p: Pattern, kw: string) {
    match p
    case Bearer => |kw| == 6 && OpensWith(kw, "bearer", "BEARER")
    case Basic => |kw| == 5 && OpensWith(kw, "basic", "BASIC")
    case Jwt | Refresh => false
  }

  lemma SchemeSpelled(p: Pattern, kw: string, w: string, x: string)
    requires IsScheme(p, kw) && w != "" && AllWhite(w) && |x| >= 8 && AllToken(p, x)
    ensures IsSpelledOut(p, kw + w + x)
  {
    hide AllWhite, AllToken;
    var t := kw + w + x;
    var rest := t[|kw|..];
    assert rest == w + x && rest[..|w|] == w && rest[|w|..] == x;
    assert WhiteThenToken(p, rest, |w|);
    forall j | 0 <= j < |kw| ensures t[j] == kw[j] {
    }
  }

  /** In such a text exactly the middle is white. */
  lemma WhiteInBasic(a: Alphabet, kw: string, w: string, x: string, j: nat)
    requires IsScheme(Basic, kw) && AllWhite(w) && AllToken(Basic, x) && j < |kw + w + x|
    ensures |kw| == 5 && (5 <= j < 5 + |w| ==> IsSpace((kw + w + x)[j])) && (5 + |w| <= j ==> !IsSpace((kw + w + x)[j]))
  {
    hide OpensWith, IsSpace;
    var t := kw + w + x;
    if 5 <= j < 5 + |w| {
      assert t[j] == w[j - 5] && w[j - 5] in w;
      WhiteIsSpelled(t[j]);
    } else if 5 + |w| <= j {
      assert t[j] == x[j - 5 - |w|] && x[j - 5 - |w|] in x;
      TokenIsSpelled(a, Basic, t[j]);
      TokenIsNoSpace(a, Basic, t[j]);
    }
  }

  /** A bearer keyword with white space after it is nowhere in a basic credential. */
  lemma BasicHoldsNoBearer(a: Alphabet, kw: string, w: string, x: string)
    requires IsScheme(Basic, kw) && AllWhite(w) && AllToken(Basic, x)
    ensures Free(a, Compiled(Bearer), false, kw + w + x)
  {
    hide Stands, Compiled, Free, IsSpace, WhiteChar, Alphabet.Word, Alphabet.PrevWord, In, SameChar, IsScheme, AllWhite, AllToken;
    var t := kw + w + x;
    FreeMeans(a, Bearer, t);
    forall i: nat, n: nat | i <= |t| ensures !Stands(a, Bearer, a.PrevWord(false, t, i), t[i..], n) {
      if StandsAt(a, Bearer, t, i, n) {
        StandsAtFacts(a, Bearer, t, i, n);
        WhiteInBasic(a, kw, w, x, i + 6);
        WhiteInBasic(a, kw, w, x, i + 5);
      }
    }
  }

  /** The first pass that finds anything finds the whole text, and then the text is scrubbed to the marker. */
  lemma WholeIsReplaced(a: Alphabet, p: Pattern, t: string)
    requires IsSpelledAt(a, p, t, 0, |t|) && forall q: Pattern | Rank(q) < Rank(p) :: Free(a, Compiled(q), false, t)
    ensures Kept(p) <= |t| && ScrubText(a, t) == t[..Kept(p)] + (if Kept(p) > 0 then " " else "") + REDACTED
  {
    hide Alphabet.Word, Stands, Compiled, Free, IsSpelledAt, ScrubAll;
    StandsIsSpelledOut(a, p, t, 0, |t|);
    assert t[0..] == t && t[|t|..] == "";
    forall m: nat | Stands(a, p, false, t, m) ensures m <= |t| {
      StandsFacts(a, p, false, t, m);
    }
    OpeningIsAllThatGoes(a, p, t, |t|);
    assert Kept(p) <= 6;
  }

  /** A scheme with its token, in any case and with any white space between, becomes the scheme as typed and
      the marker. */
  lemma SchemeIsScrubbed(a: Alphabet, p: Pattern, kw: string, w: string, x: string)
    requires IsScheme(p, kw) && w != "" && AllWhite(w) && |x| >= 8 && AllToken(p, x)
    ensures ScrubText(a, kw + w + x) == kw + " [REDACTED]"
  {
    hide Alphabet.Word, ScrubText, Compiled, Free, IsSpelledOut, AllWhite, AllToken, OpensWith;
    var t := kw + w + x;
    SchemeSpelled(p, kw, w, x);
    assert t[0..0 + |t|] == t && t[..|kw|] == kw;
    if p == Basic {
      BasicHoldsNoBearer(a, kw, w, x);
    }
    forall q: Pattern | Rank(q) < Rank(p) ensures Free(a, Compiled(q), false, t) {
      assert q == Bearer;
    }
    WholeIsReplaced(a, p, t);
    assert kw + " " + REDACTED == kw + " [REDACTED]";
  }

  lemma JwtSpelled(x: string, y: string, z: string)
    requires |x| >= 5 && |y| >= 5 && |z| >= 5 && AllToken(Jwt, x) && AllToken(Jwt, y) && AllToken(Jwt, z)
    ensures IsSpelledOut(Jwt, "eyJ" + x + "." + y + "." + z)
  {
    hide AllToken;
    var t := "eyJ" + x + "." + y + "." + z;
    var s, i, j := t[3..], |x|, |x| + 1 + |y|;
    assert s == x + "." + y + "." + z;
    assert s[..i] == x && s[i + 1..j] == y && s[j + 1..] == z;
    assert PartsAt(s, i, j);
  }

  lemma NoWhiteInJwt(x: string, y: string, z: string)
    requires AllToken(Jwt, x) && AllToken(Jwt, y) && AllToken(Jwt, z)
    ensures forall c <- "eyJ" + x + "." + y + "." + z :: !WhiteChar(c)
  {
  }

  /** A JWT whose signature ends in a letter, digit or underscore becomes the marker. */
  lemma JwtIsScrubbed(a: Alphabet, x: string, y: string, z: string)
    requires |x| >= 5 && |y| >= 5 && |z| >= 5 && AllToken(Jwt, x) && AllToken(Jwt, y) && AllToken(Jwt, z)
    requires z[|z| - 1] != '-'
    ensures ScrubText(a, "eyJ" + x + "." + y + "." + z) == "[REDACTED]"
  {
    hide Alphabet.Word, ScrubText, Compiled, Free, IsSpelledOut, WhiteChar;
    var t := "eyJ" + x + "." + y + "." + z;
    JwtSpelled(x, y, z);
    assert z[|z| - 1] in z && t[|t| - 1] == z[|z| - 1] && t[0..0 + |t|] == t;
    WordIsSpelled(a, z[|z| - 1]);
    NoWhiteInJwt(x, y, z);
    forall q: Pattern | Rank(q) < Rank(Jwt) ensures Free(a, Compiled(q), false, t) {
      NoWhiteNoScheme(a, q, t);
    }
    WholeIsReplaced(a, Jwt, t);
    assert t[..0] + "" + REDACTED == "[REDACTED]";
  }

  lemma NoWhiteInRefresh(x: string)
    requires AllToken(Refresh, x)
    ensures forall c <- "rt1_" + x :: !WhiteChar(c)
  {
  }

  lemma RefreshSpelled(a: Alphabet, x: string)
    requires |x| >= 8 && AllToken(Refresh, x)
    ensures var t := "rt1_" + x; IsSpelledAt(a, Refresh, t, 0, |t|)
  {
    hide AllToken, Alphabet.Word;
    var t := "rt1_" + x;
    assert t[0..0 + |t|] == t && t[4..] == x;
  }

  lemma MarkLength(c: char)
    ensures |Mark(c)| >= 10
  {
  }

  lemma FillNotEmpty(t: string, zones: set<Zone>, j: nat)
    requires 0 < j <= |t|
    ensures Fill(t, zones, 0, j) != ""
  {
    MarkLength(t[0]);
  }

  lemma StartsWithE(a: Alphabet, t: string, j: nat, m: nat)
    requires t != "" && t[0] == 'r' && TakenInTurn(a, Jwt, t, j, m)
    ensures 0 < j
  {
    hide Stands, Alphabet.Word, Taken, ZonesOf;
    TakenIsLongest(a, Jwt, t, ZonesOf(a, ORDER[..Rank(Jwt)], t), j, m);
    StandsIsSpelledOut(a, Jwt, t, j, m);
    assert "eyJ" <= t[j..j + m];
    assert t[j] == t[j..j + m][0] == "eyJ"[0];
  }

  lemma NoSchemeTaken(a: Alphabet, p: Pattern, t: string, b: nat, e: nat)
    requires Free(a, Compiled(p), false, t)
    ensures !TakenInTurn(a, p, t, b, e)
  {
    hide Stands, Compiled, Free, ZonesOf, Taken;
    FreeMeans(a, p, t);
    if TakenInTurn(a, p, t, b, e) {
      TakenIsLongest(a, p, t, ZonesOf(a, ORDER[..Rank(p)], t), b, e);
    }
  }

  lemma SomeJwtIsTaken(a: Alphabet, t: string, i: nat, n: nat) returns (j: nat, m: nat)
    requires StandsAt(a, Jwt, t, i, n) && forall q: Pattern | Kept(q) > 0 :: Free(a, Compiled(q), false, t)
    ensures TakenInTurn(a, Jwt, t, j, m)
  {
    hide Stands, StandsAt, Compiled, Free, ZonesOf, Taken, Longest;
    var zones := ZonesOf(a, ORDER[..Rank(Jwt)], t);
    forall z | z in zones ensures false {
      var p, b, e := ZoneOrigin(a, Rank(Jwt), t, z);
      NoSchemeTaken(a, p, t, b, e);
    }
    m := LongestExists(a, Jwt, t, zones, i, n);
    j := i;
    TakenExactlyWhenUncovered(a, Jwt, t, zones, i, m);
    if !Taken(a, Jwt, t, zones, i, m) {
      j, m :| j < i && Taken(a, Jwt, t, zones, j, m) && i < j + m;
    }
  }

  lemma JwtGoesFirst(a: Alphabet, t: string, i: nat, n: nat)
    requires t != "" && t[0] == 'r' && StandsAt(a, Jwt, t, i, n)
    requires forall q: Pattern | Kept(q) > 0 :: Free(a, Compiled(q), false, t)
    ensures ScrubText(a, t) != "[REDACTED]"
  {
    hide StandsAt, Compiled, Free, ScrubAll, ZonesOf, Mark, Fill, TakenInTurn;
    var j, m := SomeJwtIsTaken(a, t, i, n);
    TakenIsGone(a, Jwt, t, j, m);
    StartsWithE(a, t, j, m);
    FillNotEmpty(t, ZonesOf(a, ORDER, t), j);
    MarkLength(t[j]);
  }

  /** A refresh token becomes the marker, exactly when no JWT stands in it: that would go first. */
  lemma RefreshIsScrubbed(a: Alphabet, x: string)
    requires |x| >= 8 && AllToken(Refresh, x)
    ensures ScrubText(a, "rt1_" + x) == "[REDACTED]" <==>
      forall i: nat, n: nat :: !IsSpelledAt(a, Jwt, "rt1_" + x, i, n)
  {
    hide Alphabet.Word, ScrubText, Compiled, Free, IsSpelledOut, WhiteChar, IsSpelledAt, Stands, TokenChar;
    var t := "rt1_" + x;
    NoWhiteInRefresh(x);
    forall q: Pattern | Kept(q) > 0 ensures Free(a, Compiled(q), false, t) {
      NoWhiteNoScheme(a, q, t);
    }
    if i: nat, n: nat :| IsSpelledAt(a, Jwt, t, i, n) {
      StandsIsSpelledOut(a, Jwt, t, i, n);
      JwtGoesFirst(a, t, i, n);
    } else {
      forall i: nat, n: nat | i <= |t| ensures !Stands(a, Jwt, a.PrevWord(false, t, i), t[i..], n) {
        StandsIsSpelledOut(a, Jwt, t, i, n);
      }
      FreeMeans(a, Jwt, t);
      assert t[4..] == x && t[..4] == "rt1_";
      RefreshSpelled(a, x);
      WholeIsReplaced(a, Refresh, t);
      assert t[..0] + "" + REDACTED == "[REDACTED]";
    }
  }
}
