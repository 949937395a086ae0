/** What the four patterns mean, without the matcher: a reference reading of each credential as slices of
    text, and the safety of `scrub_text` restated with it. */
module Credentials {
  import opened Regex
  import opened Redaction
  import opened RedactionTheorems

  predicate AllIn(a: Alphabet, cls: Class, s: string) {
    forall c <- s :: In(a, cls, c)
  }

  predicate SpacedToken(a: Alphabet, token: Class, s: string, k: nat)
    requires k <= |s|
  {
    k >= 1 && AllIn(a, Space, s[..k]) && |s| - k >= 8 && AllIn(a, token, s[k..])
  }

  /** White space, and then at least eight token characters. */
  ghost predicate IsSpacedToken(a: Alphabet, token: Class, s: string) {
    exists k: nat :: k <= |s| && SpacedToken(a, token, s, k)
  }

  predicate FirstPart(a: Alphabet, s: string, i: nat)
    requires i < |s|
  {
    i >= 5 && AllIn(a, JWT_TOKEN, s[..i]) && s[i] == '.'
  }

  /** `n` parts of at least five token characters each, joined by dots. */
  ghost predicate IsParts(a: Alphabet, n: nat, s: string)
    decreases n
  {
    if n <= 1 then |s| >= 5 && AllIn(a, JWT_TOKEN, s)
    else exists i: nat :: i < |s| && FirstPart(a, s, i) && IsParts(a, n - 1, s[i + 1..])
  }

  /** The text of a credential: a scheme name in any mix of cases with its token, three joined parts that
      open with `eyJ`, or `rt1_` with at least eight token characters. */
  ghost predicate IsCredential(a: Alphabet, p: Pattern, s: string) {
    match p
    case Bearer => IsText("bearer", true, s) && IsSpacedToken(a, BEARER_TOKEN, s[6..])
    case Basic => IsText("basic", true, s) && IsSpacedToken(a, BASIC_TOKEN, s[5..])
    case Jwt => IsText("eyJ", false, s) && IsParts(a, 3, s[3..])
    case Refresh => IsText("rt1_", false, s) && |s| >= 12 && AllIn(a, REFRESH_TOKEN, s[4..])
  }

  /** A credential stands at the start of `t` and takes `n` characters: the character before it is no word
      character, and a JWT also ends where word and non-word characters meet. */
  ghost predicate Stands(a: Alphabet, p: Pattern, pw: bool, t: string, n: nat) {
    && n <= |t| && pw != a.NextWord(t) && IsCredential(a, p, t[..n])
    && (p == Jwt ==> a.PrevWord(pw, t, n) != a.NextWord(t[n..]))
  }

  // ----- reading item by item -----------------------------------------------------------------

  ghost predicate Reads(a: Alphabet, r: Regex, pw: bool, t: string, n: nat) {
    exists ls: Spans :: Parse(a, r, pw, t, ls) && Total(ls) == n
  }

  /** The first item takes `k` characters and the rest of the pattern the others. */
  ghost predicate Takes(a: Alphabet, item: Item, rest: Regex, pw: bool, t: string, n: nat, k: nat)
    requires k <= n <= |t|
  {
    Accept(a, item, pw, t, k) && Reads(a, rest, a.PrevWord(pw, t, k), t[k..], n - k)
  }

  lemma ReadsSplit(a: Alphabet, item: Item, rest: Regex, pw: bool, t: string, n: nat)
    requires Reads(a, Then(item, rest), pw, t, n)
    ensures n <= |t| && exists k: nat :: k <= n && Takes(a, item, rest, pw, t, n, k)
  {
    hide Alphabet.Word, In, Accept, Alphabet.PrevWord;
    var ls :| Parse(a, Then(item, rest), pw, t, ls) && Total(ls) == n;
    ParseFits(a, Then(item, rest), pw, t, ls);
    assert Parse(a, rest, a.PrevWord(pw, t, ls.len), t[ls.len..], ls.more);
    assert Takes(a, item, rest, pw, t, n, ls.len);
  }

  lemma ReadsJoin(a: Alphabet, item: Item, rest: Regex, pw: bool, t: string, n: nat, k: nat)
    requires k <= n <= |t| && Takes(a, item, rest, pw, t, n, k)
    ensures Reads(a, Then(item, rest), pw, t, n)
  {
    hide Alphabet.Word, In, Accept, Alphabet.PrevWord;
    var more :| Parse(a, rest, a.PrevWord(pw, t, k), t[k..], more) && Total(more) == n - k;
    assert Parse(a, Then(item, rest), pw, t, Span(k, more)) && Total(Span(k, more)) == n;
  }

  lemma ReadsStep(a: Alphabet, item: Item, rest: Regex, pw: bool, t: string, n: nat)
    ensures Reads(a, Then(item, rest), pw, t, n) <==> n <= |t| && exists k: nat :: k <= n && Takes(a, item, rest, pw, t, n, k)
  {
    hide Reads, Takes;
    if Reads(a, Then(item, rest), pw, t, n) {
      ReadsSplit(a, item, rest, pw, t, n);
    }
    if n <= |t| {
      if k: nat :| k <= n && Takes(a, item, rest, pw, t, n, k) {
        ReadsJoin(a, item, rest, pw, t, n, k);
      }
    }
  }

  lemma ReadsDone(a: Alphabet, pw: bool, t: string, n: nat)
    ensures Reads(a, Done, pw, t, n) <==> n == 0
  {
    assert Parse(a, Done, pw, t, End) && Total(End) == 0;
  }

  /** A literal is a prefix of what is read. */
  lemma ReadsLit(a: Alphabet, text: string, fold: bool, rest: Regex, pw: bool, t: string, n: nat)
    ensures Reads(a, Then(Lit(text, fold), rest), pw, t, n) <==>
      && n <= |t| && IsText(text, fold, t[..n])
      && Reads(a, rest, a.PrevWord(pw, t, |text|), t[|text|..], n - |text|)
  {
    hide Alphabet.Word, In, Alphabet.PrevWord, Reads, SameChar;
    ReadsStep(a, Lit(text, fold), rest, pw, t, n);
    if n <= |t| && IsText(text, fold, t[..n]) {
      if Reads(a, rest, a.PrevWord(pw, t, |text|), t[|text|..], n - |text|) {
        assert Takes(a, Lit(text, fold), rest, pw, t, n, |text|);
      }
    }
  }

  lemma ReadsBoundary(a: Alphabet, rest: Regex, pw: bool, t: string, n: nat)
    ensures Reads(a, Then(Boundary, rest), pw, t, n) <==> n <= |t| && pw != a.NextWord(t) && Reads(a, rest, pw, t, n)
  {
    hide Alphabet.Word, In, Reads;
    ReadsStep(a, Boundary, rest, pw, t, n);
    assert t[0..] == t;
    if n <= |t| && pw != a.NextWord(t) && Reads(a, rest, pw, t, n) {
      assert Takes(a, Boundary, rest, pw, t, n, 0);
    }
  }

  lemma AcceptMany(a: Alphabet, cls: Class, min: nat, pw: bool, t: string, k: nat)
    requires k <= |t|
    ensures Accept(a, Many(cls, min), pw, t, k) <==> min <= k && AllIn(a, cls, t[..k])
  {
  }

  /** A last class takes all that is left. */
  lemma ReadsLast(a: Alphabet, cls: Class, min: nat, pw: bool, t: string, n: nat)
    ensures Reads(a, Then(Many(cls, min), Done), pw, t, n) <==> min <= n <= |t| && AllIn(a, cls, t[..n])
  {
    hide Alphabet.Word, In, Alphabet.PrevWord, Reads, Accept, AllIn;
    ReadsStep(a, Many(cls, min), Done, pw, t, n);
    if n <= |t| {
      forall k: nat | k <= n ensures Takes(a, Many(cls, min), Done, pw, t, n, k) <==> k == n && min <= n && AllIn(a, cls, t[..n]) {
        ReadsDone(a, a.PrevWord(pw, t, k), t[k..], n - k);
        AcceptMany(a, cls, min, pw, t, k);
      }
      if min <= n && AllIn(a, cls, t[..n]) {
        assert Takes(a, Many(cls, min), Done, pw, t, n, n);
      }
    }
  }

  lemma ReadsSpacedToken(a: Alphabet, token: Class, pw: bool, t: string, n: nat)
    ensures Reads(a, Then(Many(Space, 1), Then(Many(token, 8), Done)), pw, t, n) <==> n <= |t| && IsSpacedToken(a, token, t[..n])
  {
    hide Alphabet.Word, In, Alphabet.PrevWord, Reads, Accept, AllIn;
    var rest := Then(Many(token, 8), Done);
    ReadsStep(a, Many(Space, 1), rest, pw, t, n);
    if n <= |t| {
      forall k: nat | k <= n ensures Takes(a, Many(Space, 1), rest, pw, t, n, k) <==> SpacedToken(a, token, t[..n], k) {
        AcceptMany(a, Space, 1, pw, t, k);
        ReadsLast(a, token, 8, a.PrevWord(pw, t, k), t[k..], n - k);
        assert t[..n][..k] == t[..k] && t[..n][k..] == t[k..][..n - k];
      }
      if k: nat :| k <= n && SpacedToken(a, token, t[..n], k) {
        assert Takes(a, Many(Space, 1), rest, pw, t, n, k);
      }
    }
  }

  lemma ReadsDot(a: Alphabet, rest: Regex, pw: bool, t: string, n: nat)
    ensures Reads(a, Then(Lit(".", false), rest), pw, t, n) <==> 0 < n <= |t| && t[0] == '.' && Reads(a, rest, false, t[1..], n - 1)
  {
    hide Reads;
    ReadsLit(a, ".", false, rest, pw, t, n);
    assert n <= |t| && IsText(".", false, t[..n]) <==> 0 < n <= |t| && t[0] == '.';
  }

  /** One part and the dot after it. */
  lemma ReadsPart(a: Alphabet, rest: Regex, pw: bool, t: string, n: nat)
    ensures Reads(a, Then(Many(JWT_TOKEN, 5), Then(Lit(".", false), rest)), pw, t, n) <==>
      n <= |t| && exists i: nat :: i < n && FirstPart(a, t[..n], i) && Reads(a, rest, false, t[i + 1..], n - i - 1)
  {
    hide Alphabet.Word, In, Alphabet.PrevWord, Reads, Accept, AllIn;
    var dot := Then(Lit(".", false), rest);
    ReadsStep(a, Many(JWT_TOKEN, 5), dot, pw, t, n);
    if n <= |t| {
      forall k: nat | k <= n
        ensures Takes(a, Many(JWT_TOKEN, 5), dot, pw, t, n, k)
          <==> k < n && FirstPart(a, t[..n], k) && Reads(a, rest, false, t[k + 1..], n - k - 1)
      {
        AcceptMany(a, JWT_TOKEN, 5, pw, t, k);
        ReadsDot(a, rest, a.PrevWord(pw, t, k), t[k..], n - k);
        assert t[..n][..k] == t[..k];
        if k < n {
          assert t[k..][1..] == t[k + 1..] && t[k..][0] == t[k] && t[..n][k] == t[k];
        }
      }
      if i: nat :| i < n && FirstPart(a, t[..n], i) && Reads(a, rest, false, t[i + 1..], n - i - 1) {
        assert Takes(a, Many(JWT_TOKEN, 5), dot, pw, t, n, i);
      }
    }
  }

  /** `rest` reads `m` joined parts. */
  ghost predicate ReadsParts(a: Alphabet, rest: Regex, m: nat) {
    forall pw: bool, t: string, n: nat :: Reads(a, rest, pw, t, n) <==> n <= |t| && IsParts(a, m, t[..n])
  }

  lemma OneMorePart(a: Alphabet, rest: Regex, m: nat)
    requires m >= 1 && ReadsParts(a, rest, m)
    ensures ReadsParts(a, Then(Many(JWT_TOKEN, 5), Then(Lit(".", false), rest)), m + 1)
  {
    hide Reads, FirstPart;
    var r := Then(Many(JWT_TOKEN, 5), Then(Lit(".", false), rest));
    forall pw: bool, t: string, n: nat ensures Reads(a, r, pw, t, n) <==> n <= |t| && IsParts(a, m + 1, t[..n]) {
      ReadsPart(a, rest, pw, t, n);
      if n <= |t| {
        forall i: nat | i < n && FirstPart(a, t[..n], i)
          ensures Reads(a, rest, false, t[i + 1..], n - i - 1) <==> IsParts(a, m, t[..n][i + 1..])
        {
          assert t[i + 1..][..n - i - 1] == t[..n][i + 1..];
        }
      }
    }
  }

  lemma LastPart(a: Alphabet)
    ensures ReadsParts(a, Then(Many(JWT_TOKEN, 5), Done), 1)
  {
    hide Reads, AllIn;
    forall pw: bool, t: string, n: nat
      ensures Reads(a, Then(Many(JWT_TOKEN, 5), Done), pw, t, n) <==> n <= |t| && IsParts(a, 1, t[..n])
    {
      ReadsLast(a, JWT_TOKEN, 5, pw, t, n);
    }
  }

  lemma BodyReadsParts(a: Alphabet)
    ensures ReadsParts(a, JWT_BODY.rest.rest, 3)
  {
    hide Reads, IsParts, ReadsParts;
    var last := Then(Many(JWT_TOKEN, 5), Done);
    LastPart(a);
    OneMorePart(a, last, 1);
    OneMorePart(a, Then(Many(JWT_TOKEN, 5), Then(Lit(".", false), last)), 2);
  }

  lemma ReadsBody(a: Alphabet, pw: bool, t: string, n: nat)
    ensures Reads(a, JWT_BODY, pw, t, n) <==> n <= |t| && pw != a.NextWord(t) && IsCredential(a, Jwt, t[..n])
  {
    hide Alphabet.Word, Alphabet.PrevWord, Reads, IsParts, SameChar;
    var parts := JWT_BODY.rest.rest;
    ReadsBoundary(a, JWT_BODY.rest, pw, t, n);
    ReadsLit(a, "eyJ", false, parts, pw, t, n);
    BodyReadsParts(a);
    if n <= |t| && IsText("eyJ", false, t[..n]) {
      assert Reads(a, parts, a.PrevWord(pw, t, 3), t[3..], n - 3) <==> IsParts(a, 3, t[3..][..n - 3]);
      assert t[3..][..n - 3] == t[..n][3..];
    }
  }

  lemma ReadsWithBoundary(a: Alphabet, r: Regex, pw: bool, t: string, n: nat)
    ensures Reads(a, WithBoundary(r), pw, t, n)
      <==> n <= |t| && Reads(a, r, pw, t, n) && a.PrevWord(pw, t, n) != a.NextWord(t[n..])
  {
    hide Alphabet.Word, Alphabet.PrevWord, Parse;
    if Reads(a, WithBoundary(r), pw, t, n) {
      var ls :| Parse(a, WithBoundary(r), pw, t, ls) && Total(ls) == n;
      DropBoundary(a, r, pw, t, ls);
    }
    if n <= |t| && Reads(a, r, pw, t, n) && a.PrevWord(pw, t, n) != a.NextWord(t[n..]) {
      var ls :| Parse(a, r, pw, t, ls) && Total(ls) == n;
      AddBoundary(a, r, pw, t, ls);
    }
  }

  // ----- the patterns mean what they say ------------------------------------------------------

  /** A pattern matches `n` characters exactly where a credential of that kind stands. */
  lemma PatternMeans(a: Alphabet, p: Pattern, pw: bool, t: string, n: nat)
    ensures Reads(a, Compiled(p), pw, t, n) <==> Stands(a, p, pw, t, n)
  {
    hide Alphabet.Word, Alphabet.PrevWord, Reads, IsParts, IsSpacedToken, SameChar, AllIn;
    if p == Jwt {
      ReadsWithBoundary(a, JWT_BODY, pw, t, n);
      ReadsBody(a, pw, t, n);
    } else {
      var fold, opening, tail := p != Refresh, Opening(p), Compiled(p).rest.rest;
      var w := |opening|;
      ReadsBoundary(a, Compiled(p).rest, pw, t, n);
      ReadsLit(a, opening, fold, tail, pw, t, n);
      if n <= |t| && IsText(opening, fold, t[..n]) {
        assert t[w..][..n - w] == t[..n][w..];
        if p == Refresh {
          ReadsLast(a, REFRESH_TOKEN, 8, a.PrevWord(pw, t, w), t[w..], n - w);
        } else {
          ReadsSpacedToken(a, Token(p), a.PrevWord(pw, t, w), t[w..], n - w);
        }
      }
    }
  }

  /** No credential of kind `p` stands anywhere in `s`. */
  ghost predicate NoCredential(a: Alphabet, p: Pattern, s: string) {
    forall i: nat, n: nat | i <= |s| :: !Stands(a, p, a.PrevWord(false, s, i), s[i..], n)
  }

  lemma FreeMeans(a: Alphabet, p: Pattern, s: string)
    ensures Free(a, Compiled(p), false, s) <==> NoCredential(a, p, s)
  {
    hide Alphabet.Word, Alphabet.PrevWord, Parse, Compiled, Stands;
    forall i: nat, n: nat | i <= |s|
      ensures Reads(a, Compiled(p), a.PrevWord(false, s, i), s[i..], n) <==> Stands(a, p, a.PrevWord(false, s, i), s[i..], n)
    {
      PatternMeans(a, p, a.PrevWord(false, s, i), s[i..], n);
    }
    if Free(a, Compiled(p), false, s) {
      forall i: nat, n: nat | i <= |s| ensures !Stands(a, p, a.PrevWord(false, s, i), s[i..], n) {
        forall ls: Spans ensures !Parse(a, Compiled(p), a.PrevWord(false, s, i), s[i..], ls) {
          assert !OccursAt(a, Compiled(p), false, s, i, ls);
        }
      }
    }
    if NoCredential(a, p, s) {
      forall i: nat, ls: Spans | i <= |s| ensures !OccursAt(a, Compiled(p), false, s, i, ls) {
        assert !Stands(a, p, a.PrevWord(false, s, i), s[i..], Total(ls));
      }
    }
  }

  /** For every ASCII text: no bearer, basic, JWT or refresh credential stands anywhere in the output. */
  lemma NoCredentialSurvives(a: Alphabet, s: string, p: Pattern)
    requires IsAscii(s)
    ensures NoCredential(a, p, ScrubText(a, s))
  {
    hide ScrubText, Compiled, NoCredential;
    ScrubTextIsCleanOnAscii(a, s);
    FreeMeans(a, p, ScrubText(a, s));
  }

  /** And a text is left alone exactly when none stands in it and it is short enough. */
  lemma DiagnosticsSurvive(a: Alphabet, s: string)
    ensures ScrubText(a, s) == s <==> |s| <= 2000 && forall p: Pattern :: NoCredential(a, p, s)
  {
    hide ScrubText, Compiled, NoCredential, Free;
    ScrubTextFixpoint(a, s);
    forall p: Pattern ensures Free(a, Compiled(p), false, s) <==> NoCredential(a, p, s) {
      FreeMeans(a, p, s);
    }
  }
}
