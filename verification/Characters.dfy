/** Characters and words spelled out: what `\s`, `\w` and a literal under IGNORECASE stand for, one code point
    at a time. The lemmas say that the classes and literals of `Regex` are these. */
module Characters {
  import opened Regex

  predicate IsLetterOrDigit(c: char) {
    'A' <= c <= 'Z' || 'a' <= c <= 'z' || '0' <= c <= '9'
  }

  /** The letters outside ASCII that a pattern with IGNORECASE takes for i, s or k. */
  predicate IsFolded(c: char) {
    c in {'\U{0130}', '\U{0131}', '\U{017F}', '\U{212A}'}
  }

  predicate WhiteChar(c: char) {
    || c in {' ', '\t', '\n', '\r', '\U{000B}', '\U{000C}', '\U{0085}', '\U{00A0}', '\U{1680}', '\U{202F}', '\U{205F}',
             '\U{3000}', '\U{2028}', '\U{2029}'}
    || '\U{001C}' <= c <= '\U{001F}'
    || '\U{2000}' <= c <= '\U{200A}'
  }

  /** `s` opens with the word, each letter in either case; `s` and `i` have a long and a dotless variant. */
  predicate OpensWith(s: string, lower: string, upper: string)
    requires |lower| == |upper|
  {
    && |lower| <= |s|
    && forall j | 0 <= j < |lower| ::
         || s[j] == lower[j] || s[j] == upper[j]
         || (lower[j] == 's' && s[j] == '\U{017F}')
         || (lower[j] == 'i' && (s[j] == '\U{0130}' || s[j] == '\U{0131}'))
  }

  lemma WhiteIsSpelled(c: char)
    ensures IsSpace(c) <==> WhiteChar(c)
  {
  }

  /** What `\b` takes for a word character: in ASCII exactly letters, digits and the underscore, and no white
      space anywhere. */
  lemma WordIsSpelled(a: Alphabet, c: char)
    ensures c < '\U{0080}' ==> (a.Word(c) <==> IsLetterOrDigit(c) || c == '_')
    ensures WhiteChar(c) ==> !a.Word(c)
    ensures IsFolded(c) ==> a.Word(c)
    ensures '\U{0080}' <= c && !WhiteChar(c) && !IsFolded(c) ==> (a.Word(c) <==> a.nonAsciiWord(c))
  {
  }

  lemma WordFits(s: string, lower: string, upper: string)
    requires |lower| == |upper|
    ensures OpensWith(s, lower, upper) ==> |lower| <= |s|
  {
  }

  predicate IsPair(lower: char, upper: char) {
    ('a' <= lower <= 'z' && upper as int + 32 == lower as int && lower != 'k') || (lower == ' ' && upper == ' ')
  }

  /** The same word in lower and upper case: letters other than k, and spaces. */
  predicate InCases(lower: string, upper: string) {
    && |lower| == |upper|
    && forall j | 0 <= j < |lower| :: IsPair(lower[j], upper[j])
  }

  lemma LetterIsSpelled(lower: char, upper: char, c: char)
    requires IsPair(lower, upper)
    ensures forall x | x == lower || x == upper :: SameChar(x, c, true) <==>
      || c == lower || c == upper || (lower == 's' && c == '\U{017F}')
      || (lower == 'i' && (c == '\U{0130}' || c == '\U{0131}'))
  {
  }

  lemma WordIsText(s: string, lower: string, upper: string)
    requires InCases(lower, upper)
    ensures IsText(lower, true, s) <==> OpensWith(s, lower, upper)
    ensures IsText(upper, true, s) <==> OpensWith(s, lower, upper)
  {
    hide SameChar, IsPair;
    if |lower| <= |s| {
      forall j | 0 <= j < |lower|
        ensures forall x | x == lower[j] || x == upper[j] :: SameChar(x, s[j], true) <==>
          || s[j] == lower[j] || s[j] == upper[j] || (lower[j] == 's' && s[j] == '\U{017F}')
          || (lower[j] == 'i' && (s[j] == '\U{0130}' || s[j] == '\U{0131}'))
      {
        LetterIsSpelled(lower[j], upper[j], s[j]);
      }
    }
  }

  lemma ExactText(s: string, text: string)
    ensures IsText(text, false, s) <==> text <= s
  {
    if IsText(text, false, s) {
      forall k | 0 <= k < |text| ensures s[k] == text[k] {
        assert SameChar(text[k], s[k], false);
      }
    }
  }
}
