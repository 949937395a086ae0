/** A text that shows where cleanness stops: the cut can expose a token. A JWT ends at character 2000 and is
    followed by a word character outside ASCII. The whole text holds no match, so nothing is replaced;
    cutting it supplies the closing `\b`. */
module RedactionExample {
  import opened Regex
  import opened Redaction
  import opened RedactionTheorems

  const TOKEN := "eyJaaaaa.bbbbb.ccccc"
  const E_ACUTE := '\U{00E9}'

  function Padding(): string { seq(1980, _ => ' ') }

  function Exposed(): string { Padding() + TOKEN + [E_ACUTE] }

  lemma ExposedFacts(i: nat)
    requires i <= 2000
    ensures |Exposed()| == 2001
    ensures i < 1980 ==> Exposed()[i] == ' '
    ensures 1980 <= i < 2000 ==> Exposed()[i] == TOKEN[i - 1980]
    ensures i == 2000 ==> Exposed()[i] == E_ACUTE
    ensures Exposed()[1980..] == TOKEN + [E_ACUTE] && Exposed()[..2000] == Padding() + TOKEN
  {
  }

  lemma OpeningMatches(a: Alphabet, p: Pattern, pw: bool, t: string, ls: Spans)
    requires Parse(a, Compiled(p), pw, t, ls)
    ensures IsText(Opening(p), true, t)
  {
  }

  lemma WordC(a: Alphabet)
    ensures a.Word('c')
  {
  }

  lemma BodyMinLen()
    ensures MinLen(JWT_BODY) == 20
  {
  }

  lemma TokenTextIsFree(a: Alphabet, pw: bool, ls: Spans)
    requires a.Word(E_ACUTE)
    ensures !Parse(a, Compiled(Jwt), pw, TOKEN + [E_ACUTE], ls)
  {
    hide Alphabet.Word;
    var t := TOKEN + [E_ACUTE];
    WordC(a);
    assert t[19] == 'c' && t[20] == E_ACUTE && t[20..] == [E_ACUTE];
    if Parse(a, Compiled(Jwt), pw, t, ls) {
      DropBoundary(a, JWT_BODY, pw, t, ls);
      PatternEnds(Jwt);
      BodyMinLen();
      ParseLength(a, JWT_BODY, pw, t, Init(ls));
      ParseEndsIn(a, JWT_BODY, JWT_TOKEN, pw, t, Init(ls));
    }
  }

  /** The text seen from position `i`, where a word starts and at least twelve characters are left. */
  lemma WordStarts(a: Alphabet, i: nat)
    requires |Exposed()| == 2001 && i + 12 <= 2001
    requires !a.PrevWord(false, Exposed(), i) && a.Word(Exposed()[i])
    ensures i == 1980 || i == 1989
    ensures i == 1980 ==> Exposed()[i..] == TOKEN + [E_ACUTE]
    ensures i == 1989 ==> Exposed()[i] == 'b' && Exposed()[i + 1] == 'b'
  {
  }

  lemma OpeningsDiffer(p: Pattern, t: string)
    requires IsText(Opening(p), true, t)
    ensures t[0] == 'e' ==> p == Jwt
    ensures !(t[0] == 'b' && t[1] == 'b')
  {
  }

  lemma NoMatchInExposed(a: Alphabet, p: Pattern, i: nat, ls: Spans)
    requires a.nonAsciiWord(E_ACUTE) && i <= |Exposed()|
    ensures !OccursAt(a, Compiled(p), false, Exposed(), i, ls)
  {
    hide Compiled, Parse, Exposed, IsText, In, Alphabet.PrevWord;
    var s := Exposed();
    assert a.Word(E_ACUTE);
    if OccursAt(a, Compiled(p), false, s, i, ls) {
      var pw, t := a.PrevWord(false, s, i), s[i..];
      MatchOpens(a, p, pw, t, ls);
      MatchExtent(a, p, pw, t, ls);
      OpeningMatches(a, p, pw, t, ls);
      OpeningsDiffer(p, t);
      ExposedFacts(0);
      WordStarts(a, i);
      if i == 1980 {
        TokenTextIsFree(a, pw, ls);
      }
    }
  }

  /** Only positions 1980, 1989 and 1995 follow a non-word character and hold a word character. */
  lemma ExposedIsClean(a: Alphabet)
    requires a.nonAsciiWord(E_ACUTE)
    ensures Clean(a, Exposed())
  {
    hide Compiled;
    forall p: Pattern ensures Free(a, Compiled(p), false, Exposed()) {
      forall i: nat, ls: Spans | i <= |Exposed()|
        ensures !OccursAt(a, Compiled(p), false, Exposed(), i, ls)
      {
        NoMatchInExposed(a, p, i, ls);
      }
    }
  }

  /** Reading one part of a token, which every word character of ASCII may be in. */
  lemma ParsePart(a: Alphabet, rest: Regex, pw: bool, part: string, t: string, more: Spans)
    requires |part| == 5 && forall c <- part :: IsAsciiAlnum(c)
    requires Parse(a, rest, true, t, more)
    ensures Parse(a, Then(Many(JWT_TOKEN, 5), rest), pw, part + t, Span(5, more))
  {
  }

  lemma ParseLit(a: Alphabet, rest: Regex, pw: bool, text: string, t: string, more: Spans)
    requires text != "" && Parse(a, rest, a.Word(text[|text| - 1]), t, more)
    ensures Parse(a, Then(Lit(text, false), rest), pw, text + t, Span(|text|, more))
  {
  }

  /** One more part in front, with its dot. */
  lemma ParsePartAndDot(a: Alphabet, rest: Regex, pw: bool, part: string, t: string, more: Spans)
    requires |part| == 5 && forall c <- part :: IsAsciiAlnum(c)
    requires Parse(a, rest, false, t, more)
    ensures Parse(a, Then(Many(JWT_TOKEN, 5), Then(Lit(".", false), rest)), pw, part + ("." + t), Span(5, Span(1, more)))
  {
    hide Parse;
    ParseLit(a, rest, true, ".", t, more);
    ParsePart(a, Then(Lit(".", false), rest), pw, part, "." + t, Span(1, more));
  }

  lemma OpeningIsWord(a: Alphabet)
    ensures a.Word('J') && a.Word('e')
  {
  }

  lemma ParseStart(a: Alphabet, first: Regex, text: string, ls: Spans)
    requires Parse(a, Then(Lit("eyJ", false), first), false, text, ls) && a.NextWord(text)
    ensures Parse(a, Then(Boundary, Then(Lit("eyJ", false), first)), false, text, Span(0, ls))
  {
    assert text[0..] == text;
  }

  lemma EmptyParse(a: Alphabet, t: string)
    ensures Parse(a, Done, true, t, End)
  {
  }

  lemma SpansTotal(ls: Spans)
    requires ls == Span(0, Span(3, Span(5, Span(1, Span(5, Span(1, Span(5, End)))))))
    ensures Total(ls) == 20
  {
  }

  lemma TokenParses(a: Alphabet) returns (ls: Spans)
    ensures Parse(a, JWT_BODY, false, TOKEN + [E_ACUTE], ls) && Total(ls) == 20
  {
    hide Parse, In, Alphabet.Word;
    var third := Then(Many(JWT_TOKEN, 5), Done);
    var second := Then(Many(JWT_TOKEN, 5), Then(Lit(".", false), third));
    var first := Then(Many(JWT_TOKEN, 5), Then(Lit(".", false), second));
    var text3 := "ccccc" + [E_ACUTE];
    var text2 := "bbbbb" + ("." + text3);
    var text1 := "aaaaa" + ("." + text2);
    var spans2 := Span(5, Span(1, Span(5, End)));
    var spans1 := Span(5, Span(1, spans2));
    EmptyParse(a, [E_ACUTE]);
    ParsePart(a, Done, false, "ccccc", [E_ACUTE], End);
    ParsePartAndDot(a, third, false, "bbbbb", text3, Span(5, End));
    ParsePartAndDot(a, second, true, "aaaaa", text2, spans1.more.more);
    OpeningIsWord(a);
    ParseLit(a, first, false, "eyJ", text1, spans1);
    ParseStart(a, first, "eyJ" + text1, Span(3, spans1));
    assert "eyJ" + text1 == TOKEN + [E_ACUTE];
    ls := Span(0, Span(3, spans1));
    SpansTotal(ls);
  }

  /** The token is in the output, and a second run would change it. */
  lemma CutCanExposeAToken(a: Alphabet)
    requires a.nonAsciiWord(E_ACUTE)
    ensures CutExposes(a, ScrubAll(a, Exposed()))
    ensures ScrubText(a, Exposed()) == Padding() + TOKEN
    ensures !Clean(a, ScrubText(a, Exposed()))
  {
    hide Parse, ScrubAll, Clean;
    var s := Exposed();
    ExposedIsClean(a);
    ScrubAllOfClean(a, s);
    ExposedFacts(1979);
    ExposedFacts(1999);
    ExposedFacts(2000);
    var ls := TokenParses(a);
    assert EndsAt(a, s, 1980, ls, 2000);
    ScrubTextIsClean(a, s);
  }
}
