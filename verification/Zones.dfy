/** What `scrub_text` takes away, told on its input alone.

    A zone is a stretch of the input that one marker replaces. The zones of the first kind of credential
    are found from left to right, the longest credential at each place; those of each later kind likewise,
    in what the earlier kinds have left. The theorem is that four passes, each over the output of the one
    before, amount to putting one marker in place of each of these zones of the input. */
module Zones {
  import opened Wrappers
  import opened Regex
  import opened Redaction
  import opened RedactionSafety
  import opened Credentials

  datatype Zone = Zone(start: nat, end: nat)

  ghost predicate StandsAt(a: Alphabet, p: Pattern, t: string, i: nat, n: nat) {
    i <= |t| && Stands(a, p, a.PrevWord(false, t, i), t[i..], n)
  }

  /** No zone meets the `n` characters from `i` on. */
  ghost predicate Clear(zones: set<Zone>, i: nat, n: nat) {
    forall z <- zones :: z.end <= i || i + n <= z.start
  }

  /** The longest credential of kind `p` at `i` that the zones leave whole takes `n` characters. */
  ghost predicate Longest(a: Alphabet, p: Pattern, t: string, zones: set<Zone>, i: nat, n: nat) {
    && StandsAt(a, p, t, i, n) && Clear(zones, i, n)
    && forall m: nat :: StandsAt(a, p, t, i, m) && Clear(zones, i, m) ==> m <= n
  }

  /** It is taken, unless one of its kind that is taken starts before it and reaches past its start. */
  ghost predicate Taken(a: Alphabet, p: Pattern, t: string, zones: set<Zone>, i: nat, n: nat)
    decreases i
  {
    && Longest(a, p, t, zones, i, n)
    && forall j: nat, m: nat :: j < i && Taken(a, p, t, zones, j, m) ==> j + m <= i
  }

  /** Of a credential that is taken, the keyword stays. */
  ghost function TakenZones(a: Alphabet, p: Pattern, t: string, zones: set<Zone>): set<Zone> {
    set j: nat, m: nat | j <= |t| && m <= |t| && Taken(a, p, t, zones, j, m) :: Zone(j + Kept(p), j + m)
  }

  ghost function ZonesOf(a: Alphabet, kinds: seq<Pattern>, t: string): set<Zone> {
    if kinds == [] then {}
    else
      var before := ZonesOf(a, kinds[..|kinds| - 1], t);
      before + TakenZones(a, kinds[|kinds| - 1], t, before)
  }

  const ORDER := [Bearer, Basic, Jwt, Refresh]

  // ----- zones filled with markers ------------------------------------------------------------

  ghost predicate StartsZone(zones: set<Zone>, i: nat) {
    exists e: nat :: i < e && Zone(i, e) in zones
  }

  ghost function EndOf(zones: set<Zone>, i: nat): (e: nat)
    requires StartsZone(zones, i)
    ensures i < e && Zone(i, e) in zones
  {
    var e: nat :| i < e && Zone(i, e) in zones;
    e
  }

  /** White space and a token become a space and the marker, a bare token the marker. */
  function Mark(c: char): string {
    (if IsSpace(c) then " " else "") + REDACTED
  }

  /** `t` from `i` to `j` with a marker in place of each zone. */
  ghost function Fill(t: string, zones: set<Zone>, i: nat, j: nat): string
    requires j <= |t|
    decreases j - i
  {
    if i >= j then ""
    else if StartsZone(zones, i) then Mark(t[i]) + Fill(t, zones, EndOf(zones, i), j)
    else [t[i]] + Fill(t, zones, i + 1, j)
  }

  lemma FillStep(t: string, zones: set<Zone>, i: nat, j: nat)
    requires i < j <= |t| && !StartsZone(zones, i)
    ensures Fill(t, zones, i, j) == [t[i]] + Fill(t, zones, i + 1, j)
  {
  }

  lemma ClearDrop(zones: set<Zone>, i: nat, n: nat)
    requires Clear(zones, i, n) && n > 0
    ensures !StartsZone(zones, i) && Clear(zones, i + 1, n - 1)
  {
  }

  lemma {:induction false} FillCopies(t: string, zones: set<Zone>, i: nat, n: nat, j: nat)
    requires i + n <= j <= |t| && Clear(zones, i, n)
    ensures Fill(t, zones, i, j) == t[i..i + n] + Fill(t, zones, i + n, j)
    decreases n
  {
    hide Fill, Clear, StartsZone;
    var rest := Fill(t, zones, i + n, j);
    if n == 0 {
      assert t[i..i] + rest == rest;
    } else {
      ClearDrop(zones, i, n);
      FillStep(t, zones, i, j);
      FillCopies(t, zones, i + 1, n - 1, j);
      assert [t[i]] + (t[i + 1..i + n] + rest) == t[i..i + n] + rest;
    }
  }

  lemma ClearStep(zones: set<Zone>, i: nat, n: nat)
    requires Clear(zones, i, 0) && !StartsZone(zones, i) && forall z <- zones :: z.start < z.end
    ensures Clear(zones, i, n + 1) <==> Clear(zones, i + 1, n)
  {
    forall z <- zones ensures z.start == i ==> z.end <= i {
      assert z == Zone(z.start, z.end);
    }
  }

  /** The first zone from `i` on starts at `s`, or there is none. */
  lemma {:induction false} NextZone(t: string, zones: set<Zone>, i: nat) returns (s: nat)
    requires i <= |t| && Clear(zones, i, 0) && forall z <- zones :: z.start < z.end
    ensures i <= s <= |t| && (s < |t| ==> StartsZone(zones, s))
    ensures forall n: nat | 0 < n && i + n <= |t| :: Clear(zones, i, n) <==> i + n <= s
    ensures Clear(zones, i, s - i)
    decreases |t| - i
  {
    if i == |t| {
      s := i;
    } else if StartsZone(zones, i) {
      s := i;
      assert Zone(i, EndOf(zones, i)) in zones;
    } else {
      ClearStep(zones, i, 0);
      s := NextZone(t, zones, i + 1);
      forall n: nat | 0 < n && i + n <= |t| ensures Clear(zones, i, n) <==> i + n <= s {
        ClearStep(zones, i, n - 1);
      }
    }
  }

  /** No credential can start here, whatever comes before. */
  ghost predicate Barren(a: Alphabet, t: string) {
    forall p: Pattern, pw: bool, n: nat :: !Stands(a, p, pw, t, n)
  }

  ghost predicate Tidy(a: Alphabet, t: string, z: Zone) {
    && z.start < z.end <= |t|
    && (IsSpace(t[z.start]) || !a.PrevWord(false, t, z.start))
    && (!a.PrevWord(false, t, z.end) || Barren(a, t[z.end..]))
  }

  /** Zones lie apart, start at white space or where a word starts, and do not end before a place at which
      replacing them could let a credential start. */
  ghost predicate Neat(a: Alphabet, t: string, zones: set<Zone>) {
    && (forall z <- zones :: Tidy(a, t, z))
    && forall y <- zones, z <- zones :: y == z || y.end <= z.start || z.end <= y.start
  }

  predicate Spaced(t: string, zones: set<Zone>) {
    forall z <- zones :: z.start < |t| && IsSpace(t[z.start])
  }

  lemma FillAtZone(a: Alphabet, t: string, zones: set<Zone>, z: Zone)
    requires Neat(a, t, zones) && z in zones
    ensures StartsZone(zones, z.start)
    ensures Fill(t, zones, z.start, |t|) == Mark(t[z.start]) + Fill(t, zones, z.end, |t|)
  {
    assert z == Zone(z.start, z.end);
    var other := Zone(z.start, EndOf(zones, z.start));
    assert other == z;
  }

  // ----- credentials and readings -------------------------------------------------------------

  lemma StandsReads(a: Alphabet, p: Pattern, pw: bool, t: string, n: nat) returns (ls: Spans)
    requires Stands(a, p, pw, t, n)
    ensures Parse(a, Compiled(p), pw, t, ls) && Total(ls) == n
  {
    hide Stands, Parse, Compiled;
    PatternMeans(a, p, pw, t, n);
    ls :| Parse(a, Compiled(p), pw, t, ls) && Total(ls) == n;
  }

  lemma ReadsStands(a: Alphabet, p: Pattern, pw: bool, t: string, ls: Spans)
    requires Parse(a, Compiled(p), pw, t, ls)
    ensures Stands(a, p, pw, t, Total(ls))
  {
    hide Stands, Parse, Compiled;
    assert Reads(a, Compiled(p), pw, t, Total(ls));
    PatternMeans(a, p, pw, t, Total(ls));
  }

  lemma StandsFacts(a: Alphabet, p: Pattern, pw: bool, t: string, n: nat)
    requires Stands(a, p, pw, t, n)
    ensures Kept(p) < 12 <= n <= |t|
    ensures !pw && a.Word(t[0]) && !IsSpace(t[0]) && forall q: Pattern :: In(a, Token(q), t[0])
    ensures Kept(p) > 0 ==> IsSpace(t[Kept(p)])
    ensures '[' !in t[..n] && !IsSpace(t[n - 1])
  {
    hide Alphabet.Word, In, Stands, Parse, Compiled, Replacement, IsSpace;
    var ls := StandsReads(a, p, pw, t, n);
    MatchExtent(a, p, pw, t, ls);
    MatchOpens(a, p, pw, t, ls);
    ReplacementShape(a, p, pw, t, ls);
    TokenIsNoSpace(a, p, t[0]);
  }

  lemma NoOpenerIsBarren(a: Alphabet, p: Pattern, t: string)
    requires t == "" || !a.Word(t[0]) || IsSpace(t[0]) || !In(a, Token(p), t[0])
    ensures Barren(a, t)
  {
    hide Alphabet.Word, In, Stands, IsSpace;
    forall q: Pattern, pw: bool, n: nat ensures !Stands(a, q, pw, t, n) {
      if Stands(a, q, pw, t, n) {
        StandsFacts(a, q, pw, t, n);
      }
    }
  }

  /** A credential with an open end goes on as far as its token characters do. */
  lemma StandsExtends(a: Alphabet, p: Pattern, pw: bool, t: string, n: nat)
    requires p != Jwt && Stands(a, p, pw, t, n) && n < |t| && In(a, Token(p), t[n])
    ensures Stands(a, p, pw, t, n + 1)
  {
    hide Alphabet.Word, In, Stands, Parse, Compiled;
    var ls := StandsReads(a, p, pw, t, n);
    PatternEnds(p);
    ParseExtends(a, Compiled(p), Token(p), pw, t, ls);
    ReadsStands(a, p, pw, t, Extend(ls));
  }

  lemma LastForced(a: Alphabet, cls: Class, min: nat, rest: Regex)
    requires rest == Done || rest == Then(Boundary, Done)
    ensures Forced(a, Then(Many(cls, min), rest))
  {
  }

  lemma LitForced(a: Alphabet, text: string, fold: bool, rest: Regex)
    requires Forced(a, rest)
    ensures Forced(a, Then(Lit(text, fold), rest)) && Forced(a, Then(Boundary, rest))
  {
  }

  lemma PartForced(a: Alphabet, rest: Regex)
    requires Forced(a, rest)
    ensures Forced(a, Then(Many(JWT_TOKEN, 5), Then(Lit(".", false), rest)))
  {
    var dot := Then(Lit(".", false), rest);
    forall pw: bool, t: string, ls: Spans | Parse(a, dot, pw, t, ls) ensures t != "" && !In(a, JWT_TOKEN, t[0]) {
      assert SameChar("."[0], t[0], false);
    }
  }

  lemma SpaceIsSpace(a: Alphabet, c: char)
    ensures In(a, Space, c) <==> IsSpace(c)
  {
  }

  lemma SpaceForced(a: Alphabet, p: Pattern)
    ensures Forced(a, Then(Many(Space, 1), Then(Many(Token(p), 8), Done)))
  {
    hide In;
    var token := Then(Many(Token(p), 8), Done);
    LastForced(a, Token(p), 8, Done);
    forall pw: bool, t: string, ls: Spans | Parse(a, token, pw, t, ls) ensures t != "" && !In(a, Space, t[0]) {
      TokenIsNoSpace(a, p, t[0]);
      SpaceIsSpace(a, t[0]);
    }
  }

  lemma PatternForced(a: Alphabet, p: Pattern)
    ensures Forced(a, Compiled(p))
  {
    hide In, Forced, IsSpace;
    if p == Jwt {
      var third := Then(Many(JWT_TOKEN, 5), Then(Boundary, Done));
      LastForced(a, JWT_TOKEN, 5, Then(Boundary, Done));
      PartForced(a, third);
      var second := Then(Many(JWT_TOKEN, 5), Then(Lit(".", false), third));
      PartForced(a, second);
      var first := Then(Many(JWT_TOKEN, 5), Then(Lit(".", false), second));
      LitForced(a, "eyJ", false, first);
      LitForced(a, "", false, Then(Lit("eyJ", false), first));
    } else {
      LastForced(a, Token(p), 8, Done);
      SpaceForced(a, p);
      var tail := Compiled(p).rest.rest;
      LitForced(a, Opening(p), p != Refresh, tail);
      LitForced(a, "", false, Compiled(p).rest);
    }
  }

  /** The match at the start of a text is the longest credential that stands there. */
  lemma MatchIsLongest(a: Alphabet, p: Pattern, pw: bool, t: string)
    ensures var m := Match(a, Compiled(p), pw, t);
      && (m.Some? ==> Stands(a, p, pw, t, Total(m.value)))
      && forall n: nat | Stands(a, p, pw, t, n) :: m.Some? && n <= Total(m.value)
  {
    hide Alphabet.Word, In, Stands, Parse, Match, Compiled, Forced;
    var m := Match(a, Compiled(p), pw, t);
    if m.Some? {
      ReadsStands(a, p, pw, t, m.value);
    }
    forall n: nat | Stands(a, p, pw, t, n) ensures m.Some? && n <= Total(m.value) {
      var ls := StandsReads(a, p, pw, t, n);
      MatchIsGreediest(a, Compiled(p), pw, t, ls);
      PatternForced(a, p);
      PreferredIsLonger(a, Compiled(p), pw, t, m.value, ls);
    }
  }

  // ----- a pass over a filled text ------------------------------------------------------------

  /** `u` follows `t` for `d` characters, and there either both end or a marker follows in `u`. */
  predicate Follows(t: string, u: string, d: nat) {
    && SamePrefix(t, u, d)
    && (d == |t| == |u| || (d < |t| && Mark(t[d]) <= u[d..]))
  }

  lemma SpaceIsBlank()
    ensures IsSpace(' ')
  {
  }

  lemma FollowsBounds(t: string, u: string, d: nat, n: nat)
    requires Follows(t, u, d) && 0 < n <= |u| && '[' !in u[..n] && !IsSpace(u[n - 1])
    ensures n <= d
  {
    hide IsSpace;
    if d < n {
      var mark := Mark(t[d]);
      assert u[d..][0] == mark[0] && u[d..][1] == mark[1];
      assert u[d] == u[..n][d];
      SpaceIsBlank();
    }
  }

  lemma FollowsNext(a: Alphabet, t: string, u: string, d: nat, n: nat)
    requires Follows(t, u, d) && n <= d && (d < |t| ==> IsSpace(t[d]))
    ensures SameNext(a, t, u, n) && SameNext(a, u, t, n)
  {
  }

  /** A credential stands at the start of a filled text exactly when it stands in the input and no zone
      meets it. */
  lemma StandsInFollower(a: Alphabet, q: Pattern, pw: bool, t: string, u: string, d: nat, n: nat)
    requires Follows(t, u, d) && (q == Jwt && d < |t| ==> IsSpace(t[d]))
    ensures Stands(a, q, pw, u, n) <==> Stands(a, q, pw, t, n) && n <= d
  {
    hide Alphabet.Word, Alphabet.PrevWord, In, Stands, Parse, Compiled, IsSpace, SameNext, Mark;
    if Stands(a, q, pw, u, n) {
      StandsFacts(a, q, pw, u, n);
      FollowsBounds(t, u, d, n);
    }
    PatternEnds(q);
    if q == Jwt && n <= d {
      FollowsNext(a, t, u, d, n);
    }
    if Stands(a, q, pw, u, n) {
      var ls := StandsReads(a, q, pw, u, n);
      ParseIsLocal(a, Compiled(q), pw, u, t, ls);
      ReadsStands(a, q, pw, t, ls);
    }
    if Stands(a, q, pw, t, n) && n <= d {
      var ls := StandsReads(a, q, pw, t, n);
      ParseIsLocal(a, Compiled(q), pw, t, u, ls);
      ReadsStands(a, q, pw, u, ls);
    }
  }

  lemma FillToEnd(t: string, zones: set<Zone>)
    ensures Fill(t, zones, |t|, |t|) == ""
  {
  }

  lemma FillFollows(a: Alphabet, t: string, zones: set<Zone>, i: nat, s: nat)
    requires Neat(a, t, zones) && i <= s <= |t| && Clear(zones, i, s - i) && (s < |t| ==> StartsZone(zones, s))
    ensures Follows(t[i..], Fill(t, zones, i, |t|), s - i)
  {
    hide Mark, Fill, Neat;
    FillCopies(t, zones, i, s - i, |t|);
    if s < |t| {
      FillAtZone(a, t, zones, Zone(s, EndOf(zones, s)));
    } else {
      FillToEnd(t, zones);
    }
  }

  lemma StandsInFill(a: Alphabet, q: Pattern, pw: bool, t: string, zones: set<Zone>, i: nat, n: nat)
    requires Neat(a, t, zones) && (q == Jwt ==> Spaced(t, zones))
    requires i <= |t| && Clear(zones, i, 0)
    ensures Stands(a, q, pw, Fill(t, zones, i, |t|), n) <==> Stands(a, q, pw, t[i..], n) && Clear(zones, i, n)
  {
    hide Stands, Mark, IsSpace, Fill, Barren;
    var s := NextZone(t, zones, i);
    var u := Fill(t, zones, i, |t|);
    FillFollows(a, t, zones, i, s);
    if s < |t| {
      var z := Zone(s, EndOf(zones, s));
      assert z in zones;
    }
    StandsInFollower(a, q, pw, t[i..], u, s - i, n);
    if Stands(a, q, pw, t[i..], n) {
      StandsFacts(a, q, pw, t[i..], n);
    }
  }

  /** What the matcher finds at the start of a filled text is the longest credential of the input that the
      zones leave whole. */
  lemma MatchInFill(a: Alphabet, q: Pattern, pw: bool, t: string, zones: set<Zone>, i: nat)
    requires Neat(a, t, zones) && (q == Jwt ==> Spaced(t, zones))
    requires i <= |t| && Clear(zones, i, 0)
    requires pw == a.PrevWord(false, t, i) || Barren(a, t[i..])
    ensures var m := Match(a, Compiled(q), pw, Fill(t, zones, i, |t|));
      && (m.Some? ==> Longest(a, q, t, zones, i, Total(m.value)))
      && (m.None? ==> forall n: nat :: !Longest(a, q, t, zones, i, n))
  {
    hide Alphabet.Word, Alphabet.PrevWord, Stands, Match, Compiled, Fill, Neat, Clear, Spaced;
    var u := Fill(t, zones, i, |t|);
    MatchIsLongest(a, q, pw, u);
    forall n: nat ensures Stands(a, q, pw, u, n) <==> StandsAt(a, q, t, i, n) && Clear(zones, i, n) {
      StandsInFill(a, q, pw, t, zones, i, n);
    }
  }

  // ----- the zones stay neat ------------------------------------------------------------------

  lemma LongestFacts(a: Alphabet, p: Pattern, t: string, zones: set<Zone>, i: nat, n: nat)
    requires Longest(a, p, t, zones, i, n)
    ensures Kept(p) < 12 <= n && i + n <= |t| && !a.PrevWord(false, t, i)
    ensures !IsSpace(t[i]) && (Kept(p) > 0 ==> IsSpace(t[i + Kept(p)]))
  {
    hide Alphabet.Word, Alphabet.PrevWord, In, Stands, IsSpace;
    StandsFacts(a, p, a.PrevWord(false, t, i), t[i..], n);
  }

  lemma LongestIsUnique(a: Alphabet, p: Pattern, t: string, zones: set<Zone>, i: nat, m: nat, n: nat)
    requires Longest(a, p, t, zones, i, m) && Longest(a, p, t, zones, i, n)
    ensures m == n
  {
  }

  lemma JwtEnds(a: Alphabet, pw: bool, t: string, n: nat)
    requires Stands(a, Jwt, pw, t, n)
    ensures a.PrevWord(pw, t, n) != a.NextWord(t[n..])
  {
    hide Alphabet.Word, Alphabet.PrevWord, Alphabet.NextWord, IsCredential;
  }

  lemma ClearMore(a: Alphabet, t: string, zones: set<Zone>, i: nat, n: nat)
    requires Neat(a, t, zones) && Clear(zones, i, n) && !StartsZone(zones, i + n)
    ensures Clear(zones, i, n + 1)
  {
    hide Alphabet.PrevWord, IsSpace, Barren;
    forall z <- zones ensures z.start < z.end && z == Zone(z.start, z.end) {
      assert Tidy(a, t, z);
    }
  }

  /** After a longest credential no other can start, unless it ends in a non-word character. */
  lemma LongestEnds(a: Alphabet, p: Pattern, t: string, zones: set<Zone>, i: nat, n: nat)
    requires Neat(a, t, zones) && Longest(a, p, t, zones, i, n) && i + n <= |t|
    ensures !a.PrevWord(false, t, i + n) || Barren(a, t[i + n..])
  {
    hide Alphabet.Word, Alphabet.PrevWord, In, IsSpace, Barren;
    var e, pw := i + n, a.PrevWord(false, t, i);
    LongestFacts(a, p, t, zones, i, n);
    BoundaryShift(a, false, t, i, n);
    if e == |t| || !a.Word(t[e]) || IsSpace(t[e]) || !In(a, Token(p), t[e]) {
      NoOpenerIsBarren(a, p, t[e..]);
    } else if p == Jwt {
      JwtEnds(a, pw, t[i..], n);
    } else if !StartsZone(zones, e) {
      StandsExtends(a, p, pw, t[i..], n);
      ClearMore(a, t, zones, i, n);
    } else {
      var z := Zone(e, EndOf(zones, e));
      assert Tidy(a, t, z);
    }
  }

  lemma TakenIsTidy(a: Alphabet, p: Pattern, t: string, zones: set<Zone>, i: nat, n: nat)
    requires Neat(a, t, zones) && Taken(a, p, t, zones, i, n)
    ensures Tidy(a, t, Zone(i + Kept(p), i + n))
  {
    hide Alphabet.Word, Alphabet.PrevWord, Longest, Barren, IsSpace, Neat;
    LongestFacts(a, p, t, zones, i, n);
    LongestEnds(a, p, t, zones, i, n);
  }

  lemma TakenLieApart(a: Alphabet, p: Pattern, t: string, zones: set<Zone>, i: nat, m: nat, j: nat, n: nat)
    requires Taken(a, p, t, zones, i, m) && Taken(a, p, t, zones, j, n)
    ensures (i == j && m == n) || i + m <= j || j + n <= i
  {
    hide Longest;
    if i == j {
      LongestIsUnique(a, p, t, zones, i, m, n);
    }
  }

  lemma LongestIsClear(a: Alphabet, p: Pattern, t: string, zones: set<Zone>, i: nat, n: nat)
    requires Longest(a, p, t, zones, i, n)
    ensures Clear(zones, i, n)
  {
  }

  lemma NewZone(a: Alphabet, p: Pattern, t: string, zones: set<Zone>, z: Zone) returns (i: nat, n: nat)
    requires Neat(a, t, zones) && z in TakenZones(a, p, t, zones)
    ensures Taken(a, p, t, zones, i, n) && z == Zone(i + Kept(p), i + n)
    ensures Tidy(a, t, z) && (Kept(p) > 0 ==> IsSpace(t[z.start]))
    ensures forall y <- zones :: y.end <= z.start || z.end <= y.start
  {
    hide Longest, Neat, Tidy, IsSpace;
    i, n :| Taken(a, p, t, zones, i, n) && z == Zone(i + Kept(p), i + n);
    TakenIsTidy(a, p, t, zones, i, n);
    LongestFacts(a, p, t, zones, i, n);
    LongestIsClear(a, p, t, zones, i, n);
  }

  lemma NewZonesLieApart(a: Alphabet, p: Pattern, t: string, zones: set<Zone>, y: Zone, z: Zone)
    requires Neat(a, t, zones) && y in TakenZones(a, p, t, zones) && z in TakenZones(a, p, t, zones)
    ensures y == z || y.end <= z.start || z.end <= y.start
  {
    hide Longest, Neat, Taken, TakenZones, Tidy, IsSpace;
    var i, m := NewZone(a, p, t, zones, y);
    var j, n := NewZone(a, p, t, zones, z);
    TakenLieApart(a, p, t, zones, i, m, j, n);
  }

  lemma NeatGrows(a: Alphabet, p: Pattern, t: string, zones: set<Zone>)
    requires Neat(a, t, zones)
    ensures Neat(a, t, zones + TakenZones(a, p, t, zones))
  {
    hide TakenZones, Tidy;
    var more := TakenZones(a, p, t, zones);
    forall z <- more ensures Tidy(a, t, z) && forall y <- zones :: y.end <= z.start || z.end <= y.start {
      var _, _ := NewZone(a, p, t, zones, z);
    }
    forall y <- more, z <- more ensures y == z || y.end <= z.start || z.end <= y.start {
      NewZonesLieApart(a, p, t, zones, y, z);
    }
  }

  lemma SpacedGrows(a: Alphabet, p: Pattern, t: string, zones: set<Zone>)
    requires Neat(a, t, zones) && Spaced(t, zones) && Kept(p) > 0
    ensures Spaced(t, zones + TakenZones(a, p, t, zones))
  {
    hide TakenZones, Neat, IsSpace, Barren, Alphabet.PrevWord;
    forall z <- TakenZones(a, p, t, zones) ensures z.start < |t| && IsSpace(t[z.start]) {
      var _, _ := NewZone(a, p, t, zones, z);
    }
  }

  // ----- one pass fills its zones -------------------------------------------------------------

  /** No credential that is taken reaches over position `i` from before. */
  ghost predicate Settled(a: Alphabet, p: Pattern, t: string, zones: set<Zone>, i: nat) {
    forall j: nat, m: nat :: j < i && Taken(a, p, t, zones, j, m) ==> j + m <= i
  }

  lemma SettledTakes(a: Alphabet, p: Pattern, t: string, zones: set<Zone>, i: nat, n: nat)
    requires Settled(a, p, t, zones, i) && Longest(a, p, t, zones, i, n)
    ensures Taken(a, p, t, zones, i, n) && Settled(a, p, t, zones, i + n)
  {
    hide Longest;
    forall j: nat, m: nat | j < i + n && Taken(a, p, t, zones, j, m) ensures j + m <= i + n {
      TakenLieApart(a, p, t, zones, i, n, j, m);
    }
  }

  /** Where nothing can be taken before `e`, all stays settled up to `e`. */
  lemma SettledSkips(a: Alphabet, p: Pattern, t: string, zones: set<Zone>, i: nat, e: nat)
    requires Settled(a, p, t, zones, i) && i <= e
    requires forall j: nat, m: nat | i <= j < e :: !Longest(a, p, t, zones, j, m)
    ensures Settled(a, p, t, zones, e)
  {
    hide Longest;
  }

  lemma BracketIsNoWord(a: Alphabet)
    ensures !a.Word(']')
  {
  }

  lemma PassCopiesMarker(a: Alphabet, p: Pattern, pw: bool, c: char, rest: string)
    ensures PassFrom(a, p, pw, Mark(c) + rest) == Mark(c) + PassFrom(a, p, false, rest)
  {
    hide Alphabet.Word, In, Parse, Match, Compiled, Replacement, Sub, IsSpace;
    var mark := Mark(c);
    var u, n := mark + rest, |mark|;
    forall i: nat | i < n ensures Match(a, Compiled(p), a.PrevWord(pw, u, i), u[i..]).None? {
      var m := Match(a, Compiled(p), a.PrevWord(pw, u, i), u[i..]);
      var j := if i <= n - 10 then n - 10 else n - 1;
      assert u[i..][j - i] == mark[j];
      if m.Some? {
        BracketBlocks(a, p, a.PrevWord(pw, u, i), u[i..], j - i, m.value);
      }
    }
    PatternAvoids(a, p, '[');
    SubCopiesGap(a, Compiled(p), Replacement(p), pw, u, n);
    assert u[..n] == mark && u[n..] == rest && u[n - 1] == ']';
    BracketIsNoWord(a);
  }

  /** Inside a zone nothing is taken, and after it things are as at the start of a text. */
  lemma AfterZone(a: Alphabet, p: Pattern, t: string, zones: set<Zone>, z: Zone)
    requires Neat(a, t, zones) && z in zones && Settled(a, p, t, zones, z.start)
    ensures z.start < z.end <= |t| && Settled(a, p, t, zones, z.end) && Clear(zones, z.end, 0)
    ensures !a.PrevWord(false, t, z.end) || Barren(a, t[z.end..])
  {
    hide Alphabet.PrevWord, IsSpace, Longest, Barren;
    assert Tidy(a, t, z);
    forall j: nat, m: nat | z.start <= j < z.end ensures !Longest(a, p, t, zones, j, m) {
      if Longest(a, p, t, zones, j, m) {
        LongestFacts(a, p, t, zones, j, m);
        LongestIsClear(a, p, t, zones, j, m);
      }
    }
    SettledSkips(a, p, t, zones, z.start, z.end);
  }

  /** Where nothing is taken, the new zones start nowhere but where the old ones do. */
  lemma NoNewZone(a: Alphabet, p: Pattern, t: string, zones: set<Zone>, i: nat)
    requires Settled(a, p, t, zones, i) && !StartsZone(zones, i) && forall n: nat :: !Longest(a, p, t, zones, i, n)
    ensures !StartsZone(zones + TakenZones(a, p, t, zones), i)
  {
    hide Longest;
  }

  lemma TakenIsZone(a: Alphabet, p: Pattern, t: string, zones: set<Zone>, i: nat, n: nat)
    requires Taken(a, p, t, zones, i, n)
    ensures i + n <= |t| && Zone(i + Kept(p), i + n) in TakenZones(a, p, t, zones)
  {
    hide Longest;
    LongestFacts(a, p, t, zones, i, n);
  }

  lemma TakenIsLongest(a: Alphabet, p: Pattern, t: string, zones: set<Zone>, i: nat, n: nat)
    requires Taken(a, p, t, zones, i, n)
    ensures Longest(a, p, t, zones, i, n)
  {
    hide Longest;
  }

  lemma KeywordIsClear(a: Alphabet, p: Pattern, t: string, zones: set<Zone>, i: nat, n: nat)
    requires Taken(a, p, t, zones, i, n)
    ensures Clear(zones + TakenZones(a, p, t, zones), i, Kept(p))
  {
    hide Longest;
    LongestFacts(a, p, t, zones, i, n);
    LongestIsClear(a, p, t, zones, i, n);
    forall z <- TakenZones(a, p, t, zones) ensures z.end <= i || i + Kept(p) <= z.start {
      var j: nat, m: nat :| Taken(a, p, t, zones, j, m) && z == Zone(j + Kept(p), j + m);
      TakenLieApart(a, p, t, zones, i, n, j, m);
    }
  }

  /** The keyword of a credential that is taken is kept, and a marker follows. */
  lemma FillAtTaken(a: Alphabet, p: Pattern, t: string, zones: set<Zone>, i: nat, n: nat)
    requires Neat(a, t, zones) && Taken(a, p, t, zones, i, n)
    ensures var more := zones + TakenZones(a, p, t, zones);
      && i + n <= |t| && Kept(p) <= n
      && Fill(t, more, i, |t|)
         == t[i..i + Kept(p)] + (if Kept(p) > 0 then " " else "") + REDACTED + Fill(t, more, i + n, |t|)
  {
    hide Longest, Taken, Fill, Neat, IsSpace, TakenZones, Clear;
    var more, k := zones + TakenZones(a, p, t, zones), Kept(p);
    assert Longest(a, p, t, zones, i, n) by { TakenIsLongest(a, p, t, zones, i, n); }
    LongestFacts(a, p, t, zones, i, n);
    NeatGrows(a, p, t, zones);
    TakenIsZone(a, p, t, zones, i, n);
    KeywordIsClear(a, p, t, zones, i, n);
    FillCopies(t, more, i, k, |t|);
    FillAtZone(a, t, more, Zone(i + k, i + n));
    PlusAssociates(t[i..i + k], Mark(t[i + k]), Fill(t, more, i + n, |t|));
    PlusAssociates(t[i..i + k], if k > 0 then " " else "", REDACTED);
  }

  /** What a pass makes of a hit in a filled text. */
  lemma PassAtTaken(a: Alphabet, p: Pattern, pw: bool, t: string, zones: set<Zone>, i: nat, ls: Spans)
    requires Neat(a, t, zones) && Longest(a, p, t, zones, i, Total(ls))
    requires Match(a, Compiled(p), pw, Fill(t, zones, i, |t|)) == Some(ls)
    ensures var n := Total(ls);
      && i + n <= |t| && Kept(p) <= n
      && PassFrom(a, p, pw, Fill(t, zones, i, |t|))
         == t[i..i + Kept(p)] + (if Kept(p) > 0 then " " else "") + REDACTED
            + PassFrom(a, p, a.PrevWord(false, t, i + n), Fill(t, zones, i + n, |t|))
  {
    hide Alphabet.Word, In, Parse, Match, Compiled, Replacement, Sub, Expand, Longest, Fill, Neat, IsSpace;
    var n, u := Total(ls), Fill(t, zones, i, |t|);
    var rest := Fill(t, zones, i + n, |t|);
    LongestFacts(a, p, t, zones, i, n);
    LongestIsClear(a, p, t, zones, i, n);
    FillCopies(t, zones, i, n, |t|);
    PatternAvoids(a, p, '[');
    SubReplacesHit(a, Compiled(p), Replacement(p), pw, u, ls);
    ReplacementShape(a, p, pw, u, ls);
    assert u[n..] == rest;
    assert u[..Kept(p)] == t[i..i + Kept(p)];
    assert u[n - 1] == t[i + n - 1];
  }

  lemma NextStep(a: Alphabet, t: string, i: nat)
    requires i < |t|
    ensures a.PrevWord(false, t, i + 1) == a.Word(t[i])
  {
  }

  lemma ClearAfter(zones: set<Zone>, i: nat, n: nat)
    requires Clear(zones, i, n)
    ensures Clear(zones, i + n, 0)
  {
  }

  lemma ClearNext(a: Alphabet, t: string, zones: set<Zone>, i: nat)
    requires Neat(a, t, zones) && Clear(zones, i, 0) && !StartsZone(zones, i)
    ensures Clear(zones, i + 1, 0)
  {
    ClearMore(a, t, zones, i, 0);
  }

  /** A pass over a text with some zones filled fills the zones of its own kind. */
  lemma {:induction false} PassFills(a: Alphabet, p: Pattern, pw: bool, t: string, zones: set<Zone>, i: nat)
    requires Neat(a, t, zones) && (p == Jwt ==> Spaced(t, zones))
    requires i <= |t| && Clear(zones, i, 0) && Settled(a, p, t, zones, i)
    requires pw == a.PrevWord(false, t, i) || Barren(a, t[i..])
    ensures PassFrom(a, p, pw, Fill(t, zones, i, |t|)) == Fill(t, zones + TakenZones(a, p, t, zones), i, |t|)
    decreases |t| - i
  {
    hide Alphabet.Word, Alphabet.PrevWord, Match, Compiled, Replacement, Sub, Expand;
    hide Longest, Taken, TakenZones, Fill, Neat, Clear, Settled, Spaced, Barren, Mark, StartsZone;
    var more, u := zones + TakenZones(a, p, t, zones), Fill(t, zones, i, |t|);
    NeatGrows(a, p, t, zones);
    PatternAvoids(a, p, '[');
    if i == |t| {
      FillToEnd(t, zones);
      FillToEnd(t, more);
      SubOfEmpty(a, Compiled(p), Replacement(p), pw);
    } else if StartsZone(zones, i) {
      var z := Zone(i, EndOf(zones, i));
      FillAtZone(a, t, zones, z);
      FillAtZone(a, t, more, z);
      PassCopiesMarker(a, p, pw, t[i], Fill(t, zones, z.end, |t|));
      AfterZone(a, p, t, zones, z);
      PassFills(a, p, false, t, zones, z.end);
    } else {
      var m := Match(a, Compiled(p), pw, u);
      MatchInFill(a, p, pw, t, zones, i);
      if m.Some? {
        var n := Total(m.value);
        SettledTakes(a, p, t, zones, i, n);
        PassAtTaken(a, p, pw, t, zones, i, m.value);
        FillAtTaken(a, p, t, zones, i, n);
        LongestIsClear(a, p, t, zones, i, n);
        LongestFacts(a, p, t, zones, i, n);
        ClearAfter(zones, i, n);
        PassFills(a, p, a.PrevWord(false, t, i + n), t, zones, i + n);
      } else {
        NoNewZone(a, p, t, zones, i);
        FillStep(t, zones, i, |t|);
        FillStep(t, more, i, |t|);
        SubCopiesOne(a, Compiled(p), Replacement(p), pw, u);
        assert u[1..] == Fill(t, zones, i + 1, |t|);
        NextStep(a, t, i);
        SettledSkips(a, p, t, zones, i, i + 1);
        ClearNext(a, t, zones, i);
        PassFills(a, p, a.Word(t[i]), t, zones, i + 1);
      }
    }
  }

  // ----- the four passes ----------------------------------------------------------------------

  lemma NothingFilled(t: string)
    ensures Fill(t, {}, 0, |t|) == t
  {
    FillCopies(t, {}, 0, |t|, |t|);
    FillToEnd(t, {});
  }

  lemma OneMoreKind(a: Alphabet, kinds: seq<Pattern>, p: Pattern, t: string)
    ensures var before := ZonesOf(a, kinds, t); ZonesOf(a, kinds + [p], t) == before + TakenZones(a, p, t, before)
  {
    hide Taken, TakenZones;
    assert (kinds + [p])[..|kinds|] == kinds;
  }

  lemma {:induction false} ZonesAreNeat(a: Alphabet, kinds: seq<Pattern>, t: string)
    ensures Neat(a, t, ZonesOf(a, kinds, t))
    ensures (forall p <- kinds :: Kept(p) > 0) ==> Spaced(t, ZonesOf(a, kinds, t))
    decreases |kinds|
  {
    hide Taken, TakenZones, Tidy;
    if kinds != [] {
      var before, p := kinds[..|kinds| - 1], kinds[|kinds| - 1];
      ZonesAreNeat(a, before, t);
      NeatGrows(a, p, t, ZonesOf(a, before, t));
      if forall q <- kinds :: Kept(q) > 0 {
        SpacedGrows(a, p, t, ZonesOf(a, before, t));
      }
    }
  }

  /** A pass over the text that earlier kinds have been replaced in replaces one kind more. A JWT has to
      come before the other bare tokens: its closing `\b` can be where such a token starts. */
  lemma PassTakesNext(a: Alphabet, kinds: seq<Pattern>, p: Pattern, t: string)
    requires p == Jwt ==> forall q <- kinds :: Kept(q) > 0
    ensures Pass(a, p, Fill(t, ZonesOf(a, kinds, t), 0, |t|)) == Fill(t, ZonesOf(a, kinds + [p], t), 0, |t|)
  {
    hide Fill, Neat, Taken, TakenZones, Spaced, ZonesOf;
    ZonesAreNeat(a, kinds, t);
    PassFills(a, p, false, t, ZonesOf(a, kinds, t), 0);
    OneMoreKind(a, kinds, p, t);
  }

  /** One pass puts a marker in place of exactly the zones of its kind. */
  lemma PassTakes(a: Alphabet, p: Pattern, t: string)
    ensures Pass(a, p, t) == Fill(t, ZonesOf(a, [p], t), 0, |t|)
  {
    hide Fill, Taken, TakenZones, Pass;
    NothingFilled(t);
    PassTakesNext(a, [], p, t);
    assert [] + [p] == [p];
  }

  /** The four passes one after the other put one marker in place of each zone of the input. */
  lemma ScrubAllFills(a: Alphabet, t: string)
    ensures ScrubAll(a, t) == Fill(t, ZonesOf(a, ORDER, t), 0, |t|)
  {
    hide Fill, TakenZones, Pass, ZonesOf;
    PassTakes(a, Bearer, t);
    PassTakesNext(a, [Bearer], Basic, t);
    PassTakesNext(a, [Bearer, Basic], Jwt, t);
    PassTakesNext(a, [Bearer, Basic, Jwt], Refresh, t);
    assert [Bearer] + [Basic] == [Bearer, Basic] && [Bearer, Basic] + [Jwt] == [Bearer, Basic, Jwt];
    assert [Bearer, Basic, Jwt] + [Refresh] == ORDER;
  }
}
