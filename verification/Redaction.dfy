/** `scrub_text`: four substitutions in a fixed order, then a cut at 2000 characters. */
module Redaction {
  import opened Regex

  const REDACTED := "[REDACTED]"
  const MAX_VALUE_CHARS := 2000

  datatype Pattern = Bearer | Basic | Jwt | Refresh

  const BEARER_TOKEN := Alnum({'.', '_', '-', '+', '/', '='}, true)
  const BASIC_TOKEN := Alnum({'+', '/', '='}, true)
  const JWT_TOKEN := Alnum({'_', '-'}, false)
  const REFRESH_TOKEN := Alnum({'.', '_', '-'}, false)

  /** `_JWT` up to its closing `\b`. */
  const JWT_BODY :=
    Then(Boundary, Then(Lit("eyJ", false), Then(Many(JWT_TOKEN, 5), Then(Lit(".", false),
    Then(Many(JWT_TOKEN, 5), Then(Lit(".", false), Then(Many(JWT_TOKEN, 5), Done)))))))

  function Compiled(p: Pattern): Regex {
    match p
    case Bearer => Then(Boundary, Then(Lit("bearer", true), Then(Many(Space, 1), Then(Many(BEARER_TOKEN, 8), Done))))
    case Basic => Then(Boundary, Then(Lit("basic", true), Then(Many(Space, 1), Then(Many(BASIC_TOKEN, 8), Done))))
    case Jwt => WithBoundary(JWT_BODY)
    case Refresh => Then(Boundary, Then(Lit("rt1_", false), Then(Many(REFRESH_TOKEN, 8), Done)))
  }

  function Replacement(p: Pattern): seq<Part> {
    match p
    case Bearer | Basic => [Group(1), Text(" " + REDACTED)]
    case Jwt | Refresh => [Text(REDACTED)]
  }

  /** A pass over a text seen from the middle: `pw` tells whether a word character comes before. */
  function PassFrom(a: Alphabet, p: Pattern, pw: bool, t: string): string {
    Sub(a, Compiled(p), Replacement(p), pw, t)
  }

  function Pass(a: Alphabet, p: Pattern, s: string): string {
    PassFrom(a, p, false, s)
  }

  function ScrubAll(a: Alphabet, s: string): string {
    Pass(a, Refresh, Pass(a, Jwt, Pass(a, Basic, Pass(a, Bearer, s))))
  }

  function ScrubText(a: Alphabet, s: string): string {
    var scrubbed := ScrubAll(a, s);
    if |scrubbed| <= MAX_VALUE_CHARS then scrubbed else scrubbed[..MAX_VALUE_CHARS]
  }

  /** No match of any of the four patterns. */
  ghost predicate Clean(a: Alphabet, s: string) {
    forall p: Pattern :: Free(a, Compiled(p), false, s)
  }

  // ----- what a match looks like --------------------------------------------------------------

  function Opening(p: Pattern): string {
    match p case Bearer => "bearer" case Basic => "basic" case Jwt => "eyJ" case Refresh => "rt1_"
  }

  /** The class of the credential itself. */
  function Token(p: Pattern): Class {
    match p case Bearer => BEARER_TOKEN case Basic => BASIC_TOKEN case Jwt => JWT_TOKEN case Refresh => REFRESH_TOKEN
  }

  lemma LitAvoids(a: Alphabet, text: string, fold: bool, rest: Regex, c: char)
    requires Avoids(a, rest, c) && (c == '[' || c == ']')
    requires forall x <- text :: IsAsciiWord(x) || x == '.'
    ensures Avoids(a, Then(Lit(text, fold), rest), c)
    ensures MinLen(Then(Lit(text, fold), rest)) == |text| + MinLen(rest)
  {
  }

  lemma ManyAvoids(a: Alphabet, cls: Class, min: nat, rest: Regex, c: char)
    requires Avoids(a, rest, c) && (c == '[' || c == ']')
    requires cls == Space || exists p: Pattern :: cls == Token(p)
    ensures Avoids(a, Then(Many(cls, min), rest), c)
    ensures MinLen(Then(Many(cls, min), rest)) == min + MinLen(rest)
  {
  }

  /** The brackets of the marker lie outside every literal and class of every pattern. */
  lemma PatternAvoids(a: Alphabet, p: Pattern, c: char)
    requires c == '[' || c == ']'
    ensures Avoids(a, Compiled(p), c) && MinLen(Compiled(p)) >= 12
  {
    hide In, IsSpace, SameChar;
    var token := Token(p);
    if p == Jwt {
      ManyAvoids(a, token, 5, Then(Boundary, Done), c);
      var third := Then(Many(token, 5), Then(Boundary, Done));
      LitAvoids(a, ".", false, third, c);
      ManyAvoids(a, token, 5, Then(Lit(".", false), third), c);
      var second := Then(Many(token, 5), Then(Lit(".", false), third));
      LitAvoids(a, ".", false, second, c);
      ManyAvoids(a, token, 5, Then(Lit(".", false), second), c);
      LitAvoids(a, Opening(p), false, Then(Many(token, 5), Then(Lit(".", false), second)), c);
    } else {
      ManyAvoids(a, token, 8, Done, c);
      var credential := Then(Many(token, 8), Done);
      if p == Refresh {
        LitAvoids(a, Opening(p), false, credential, c);
      } else {
        ManyAvoids(a, Space, 1, credential, c);
        LitAvoids(a, Opening(p), true, Then(Many(Space, 1), credential), c);
      }
    }
  }

  lemma PatternEnds(p: Pattern)
    ensures p != Jwt ==> TailFree(Compiled(p)) && EndsIn(Compiled(p), Token(p)) && LastMin(Compiled(p)) > 0
    ensures TailFree(JWT_BODY) && EndsIn(JWT_BODY, JWT_TOKEN) && LastMin(JWT_BODY) > 0
  {
  }

  lemma MatchOpens(a: Alphabet, p: Pattern, pw: bool, t: string, ls: Spans)
    requires Parse(a, Compiled(p), pw, t, ls)
    ensures t != "" && !pw && a.Word(t[0]) && In(a, BEARER_TOKEN, t[0])
    ensures forall q: Pattern :: In(a, Token(q), t[0])
  {
  }

  lemma TokenIsNoSpace(a: Alphabet, p: Pattern, c: char)
    ensures In(a, Token(p), c) ==> !IsSpace(c)
  {
  }

  /** A match is at least twelve characters long, holds no bracket, and does not end in a space. */
  lemma MatchExtent(a: Alphabet, p: Pattern, pw: bool, t: string, ls: Spans)
    requires Parse(a, Compiled(p), pw, t, ls)
    ensures 12 <= Total(ls) <= |t|
    ensures '[' !in t[..Total(ls)] && ']' !in t[..Total(ls)]
    ensures !IsSpace(t[Total(ls) - 1])
    ensures p == Jwt ==> a.PrevWord(pw, t, Total(ls)) != a.NextWord(t[Total(ls)..])
  {
    hide Alphabet.Word, Alphabet.PrevWord, Alphabet.NextWord, In, IsSpace, Parse, Avoids, Total, Init, MinLen, EndsIn, LastMin, TailFree;
    PatternEnds(p);
    PatternAvoids(a, p, '[');
    PatternAvoids(a, p, ']');
    ParseLength(a, Compiled(p), pw, t, ls);
    ParseAvoids(a, Compiled(p), '[', pw, t, ls);
    ParseAvoids(a, Compiled(p), ']', pw, t, ls);
    TokenIsNoSpace(a, p, t[Total(ls) - 1]);
    if p == Jwt {
      DropBoundary(a, JWT_BODY, pw, t, ls);
      ParseEndsIn(a, JWT_BODY, JWT_TOKEN, pw, t, Init(ls));
    } else {
      ParseEndsIn(a, Compiled(p), Token(p), pw, t, ls);
    }
  }

  /** How much of a match survives: the keyword of an HTTP scheme does, a bare token does not. */
  function Kept(p: Pattern): nat {
    match p case Bearer => 6 case Basic => 5 case Jwt | Refresh => 0
  }

  lemma SchemeShape(a: Alphabet, p: Pattern, pw: bool, t: string, ls: Spans)
    requires Parse(a, Compiled(p), pw, t, ls) && (p.Bearer? || p.Basic?)
    ensures Kept(p) < |t| && IsSpace(t[Kept(p)]) && Capture(t, ls, 1) == t[..Kept(p)]
  {
    hide Alphabet.Word, Alphabet.PrevWord, Alphabet.NextWord, IsText, IsSpace;
    assert t[0..] == t;
    assert Parse(a, Compiled(p).rest, a.PrevWord(pw, t, 0), t, ls.more);
    assert Parse(a, Compiled(p).rest.rest, a.PrevWord(a.PrevWord(pw, t, 0), t, Kept(p)), t[Kept(p)..], ls.more.more);
  }

  /** What a match is replaced by: what is kept of it, and the marker in place of the credential. */
  lemma ReplacementShape(a: Alphabet, p: Pattern, pw: bool, t: string, ls: Spans)
    requires Parse(a, Compiled(p), pw, t, ls)
    ensures Kept(p) < |t| && (Kept(p) > 0 ==> IsSpace(t[Kept(p)]))
    ensures Expand(Replacement(p), t, ls) == t[..Kept(p)] + (if Kept(p) > 0 then " " else "") + REDACTED
  {
    hide Alphabet.Word, Alphabet.PrevWord, Alphabet.NextWord;
    if p.Bearer? || p.Basic? {
      SchemeShape(a, p, pw, t, ls);
      assert Replacement(p)[1..] == [Text(" " + REDACTED)];
      assert Expand(Replacement(p)[1..], t, ls) == " " + REDACTED;
    } else {
      MatchOpens(a, p, pw, t, ls);
    }
  }
}
