/** Nothing of a secret that is taken whole shows in the output: two texts that differ only in it, its length
    included, are scrubbed to the same text. */
module Unseen {
  import opened Regex
  import opened Redaction
  import opened Credentials
  import opened Zones
  import opened Secrets

  /** A text with a secret in it. */
  datatype View = View(t: string, start: nat, end: nat)

  /** Two texts that agree around their secrets. */
  ghost predicate Twins(a: Alphabet, x: View, y: View) {
    && x.start == y.start < x.end <= |x.t| && y.start < y.end <= |y.t|
    && x.t[..x.start] == y.t[..y.start] && x.t[x.end..] == y.t[y.end..]
    && IsSpace(x.t[x.start]) == IsSpace(y.t[y.start]) && a.Word(x.t[x.start]) == a.Word(y.t[y.start])
    && (a.PrevWord(false, x.t, x.end) == a.PrevWord(false, y.t, y.end) || Barren(a, x.t[x.end..]))
  }

  predicate Beside(x: View, z: Zone) {
    z.end <= x.start || x.end <= z.start || z == Zone(x.start, x.end)
  }

  /** The place in `y` of a zone of `x`. */
  function Moved(x: View, y: View, z: Zone): Zone {
    if x.end <= z.start && x.end <= z.end then Zone(z.start - x.end + y.end, z.end - x.end + y.end)
    else if z == Zone(x.start, x.end) then Zone(y.start, y.end)
    else z
  }

  ghost predicate Carried(x: View, y: View, xs: set<Zone>, ys: set<Zone>) {
    forall z <- xs :: z.start < z.end && Beside(x, z) && Moved(x, y, z) in ys
  }

  // ----- what stands to the left and to the right ---------------------------------------------

  lemma SameStart(a: Alphabet, x: View, y: View, j: nat, n: nat)
    requires Twins(a, x, y) && j + n <= x.start
    ensures SamePrefix(x.t[j..], y.t[j..], n) && SameNext(a, x.t[j..], y.t[j..], n)
    ensures a.PrevWord(false, x.t, j) == a.PrevWord(false, y.t, j)
  {
    hide Alphabet.Word, IsSpace, Barren;
    forall k | 0 <= k < x.start ensures x.t[k] == y.t[k] {
      assert x.t[k] == x.t[..x.start][k];
    }
  }

  lemma StandsLeft(a: Alphabet, p: Pattern, x: View, y: View, j: nat, n: nat)
    requires Twins(a, x, y) && j + n <= x.start && StandsAt(a, p, x.t, j, n)
    ensures StandsAt(a, p, y.t, j, n)
  {
    hide Alphabet.Word, In, Stands, Parse, Compiled, IsSpace, Barren;
    var pw, t, u := a.PrevWord(false, x.t, j), x.t[j..], y.t[j..];
    SameStart(a, x, y, j, n);
    var ls := StandsReads(a, p, pw, t, n);
    ParseIsLocal(a, Compiled(p), pw, t, u, ls);
    ReadsStands(a, p, pw, u, ls);
  }

  lemma StandsRight(a: Alphabet, p: Pattern, x: View, y: View, j: nat, n: nat)
    requires Twins(a, x, y) && x.end <= j && StandsAt(a, p, x.t, j, n)
    ensures StandsAt(a, p, y.t, j - x.end + y.end, n)
  {
    hide Alphabet.Word, Stands, IsSpace;
    var k := j - x.end;
    assert x.t[j..] == x.t[x.end..][k..] && y.t[k + y.end..] == y.t[y.end..][k..];
    if k > 0 {
      assert x.t[j - 1] == x.t[x.end..][k - 1] && y.t[k + y.end - 1] == y.t[y.end..][k - 1];
    }
  }

  lemma ClearLeft(x: View, y: View, xs: set<Zone>, ys: set<Zone>, j: nat, n: nat)
    requires Carried(y, x, ys, xs) && x.start == y.start < y.end && j + n <= x.start && Clear(xs, j, n)
    ensures Clear(ys, j, n)
  {
    forall z <- ys ensures z.end <= j || j + n <= z.start {
      assert Moved(y, x, z) in xs;
    }
  }

  lemma ClearRight(x: View, y: View, xs: set<Zone>, ys: set<Zone>, j: nat, n: nat)
    requires Carried(y, x, ys, xs) && x.start == y.start < y.end && x.end <= j && Clear(xs, j, n)
    ensures Clear(ys, j - x.end + y.end, n)
  {
    forall z <- ys ensures z.end <= j - x.end + y.end || j - x.end + y.end + n <= z.start {
      assert Moved(y, x, z) in xs;
    }
  }

  lemma {:induction false} LongestExists(a: Alphabet, p: Pattern, t: string, zones: set<Zone>, j: nat, m: nat)
    returns (n: nat)
    requires StandsAt(a, p, t, j, m) && Clear(zones, j, m)
    ensures Longest(a, p, t, zones, j, n) && m <= n
    decreases |t| - m
  {
    hide StandsAt, Clear;
    if k: nat :| StandsAt(a, p, t, j, k) && Clear(zones, j, k) && m < k {
      StandsAtFacts(a, p, t, j, k);
      n := LongestExists(a, p, t, zones, j, k);
    } else {
      n := m;
    }
  }

  // ----- what is taken to the left and to the right -------------------------------------------

  /** What is taken lies on either side of the secret, or is the credential at `i` with the secret in it. */
  ghost predicate Apart(a: Alphabet, p: Pattern, x: View, xs: set<Zone>, own: bool, i: nat) {
    && (forall j: nat, m: nat :: Taken(a, p, x.t, xs, j, m) ==>
          j + m <= x.start || x.end <= j || (own && j == i && j + m == x.end))
    && (own ==> i + Kept(p) == x.start && i <= x.end && Taken(a, p, x.t, xs, i, x.end - i))
  }

  ghost predicate Paired(a: Alphabet, p: Pattern, x: View, y: View, xs: set<Zone>, ys: set<Zone>, own: bool, i: nat) {
    && Twins(a, x, y) && Carried(x, y, xs, ys) && Carried(y, x, ys, xs)
    && Apart(a, p, x, xs, own, i) && Apart(a, p, y, ys, own, i)
  }

  lemma PairedSwaps(a: Alphabet, p: Pattern, x: View, y: View, xs: set<Zone>, ys: set<Zone>, own: bool, i: nat)
    requires Paired(a, p, x, y, xs, ys, own, i)
    ensures Paired(a, p, y, x, ys, xs, own, i)
  {
    hide Alphabet.Word, Alphabet.PrevWord, Barren, IsSpace, Carried, Apart;
  }

  /** A credential to the left that is taken, other than the one with the secret, starts before that one. */
  lemma LeftIsBefore(a: Alphabet, p: Pattern, x: View, xs: set<Zone>, own: bool, i: nat, j: nat, m: nat)
    requires Apart(a, p, x, xs, own, i) && x.start < x.end && Taken(a, p, x.t, xs, j, m) && j + m <= x.start
    ensures j < x.start && (own ==> j < i)
  {
    hide Taken, Longest;
    TakenIsLongest(a, p, x.t, xs, j, m);
    LongestFacts(a, p, x.t, xs, j, m);
    if own {
      TakenLieApart(a, p, x.t, xs, i, x.end - i, j, m);
    }
  }

  lemma TwinsFacts(a: Alphabet, x: View, y: View)
    requires Twins(a, x, y)
    ensures x.start == y.start < x.end <= |x.t| && y.start < y.end <= |y.t|
    ensures Twins(a, y, x)
  {
    hide Alphabet.Word, Alphabet.PrevWord, Barren, IsSpace;
  }

  /** A longest credential to the left stands clear in the other text as well. */
  lemma LongestLeft(a: Alphabet, p: Pattern, x: View, y: View, xs: set<Zone>, ys: set<Zone>, j: nat, n: nat)
    requires Twins(a, x, y) && Carried(y, x, ys, xs) && Longest(a, p, x.t, xs, j, n) && j + n <= x.start
    ensures StandsAt(a, p, y.t, j, n) && Clear(ys, j, n)
  {
    hide StandsAt, Clear, Carried, Twins;
    TwinsFacts(a, x, y);
    StandsLeft(a, p, x, y, j, n);
    ClearLeft(x, y, xs, ys, j, n);
  }

  lemma TakenWhenFree(a: Alphabet, p: Pattern, t: string, zones: set<Zone>, j: nat, n: nat)
    requires Longest(a, p, t, zones, j, n)
    requires forall j0: nat, m0: nat | j0 < j && Taken(a, p, t, zones, j0, m0) :: j0 + m0 <= j
    ensures Taken(a, p, t, zones, j, n)
  {
    hide Longest;
  }

  lemma LongestBounds(a: Alphabet, p: Pattern, t: string, zones: set<Zone>, j: nat, m: nat, n: nat)
    requires Longest(a, p, t, zones, j, m) && StandsAt(a, p, t, j, n) && Clear(zones, j, n)
    ensures n <= m
  {
    hide StandsAt, Clear;
  }

  lemma {:induction false} TakenLeft(
    a: Alphabet, p: Pattern, x: View, y: View, xs: set<Zone>, ys: set<Zone>, own: bool, i: nat, j: nat, m: nat)
    requires Paired(a, p, x, y, xs, ys, own, i) && Taken(a, p, x.t, xs, j, m) && j + m <= x.start
    ensures Taken(a, p, y.t, ys, j, m)
    decreases j
  {
    hide Longest, Twins, Carried, Clear, StandsAt;
    TwinsFacts(a, x, y);
    LeftIsBefore(a, p, x, xs, own, i, j, m);
    LongestLeft(a, p, x, y, xs, ys, j, m);
    var n := LongestExists(a, p, y.t, ys, j, m);
    forall j0: nat, m0: nat | j0 < j && Taken(a, p, y.t, ys, j0, m0) ensures j0 + m0 <= j {
      PairedSwaps(a, p, x, y, xs, ys, own, i);
      TakenLeft(a, p, y, x, ys, xs, own, i, j0, m0);
    }
    TakenWhenFree(a, p, y.t, ys, j, n);
    LongestLeft(a, p, y, x, ys, xs, j, n);
    LongestBounds(a, p, x.t, xs, j, m, n);
  }

  lemma LongestRight(a: Alphabet, p: Pattern, x: View, y: View, xs: set<Zone>, ys: set<Zone>, j: nat, n: nat)
    requires Twins(a, x, y) && Carried(x, y, xs, ys) && Carried(y, x, ys, xs)
    requires x.end <= j && Longest(a, p, x.t, xs, j, n)
    ensures Longest(a, p, y.t, ys, j - x.end + y.end, n)
  {
    hide StandsAt, Clear, Carried, Twins;
    var j' := j - x.end + y.end;
    TwinsFacts(a, x, y);
    StandsRight(a, p, x, y, j, n);
    ClearRight(x, y, xs, ys, j, n);
    forall m: nat | StandsAt(a, p, y.t, j', m) && Clear(ys, j', m) ensures m <= n {
      StandsRight(a, p, y, x, j', m);
      ClearRight(y, x, ys, xs, j', m);
    }
  }

  lemma {:induction false} TakenRight(
    a: Alphabet, p: Pattern, x: View, y: View, xs: set<Zone>, ys: set<Zone>, own: bool, i: nat, j: nat, m: nat)
    requires Paired(a, p, x, y, xs, ys, own, i) && Taken(a, p, x.t, xs, j, m) && x.end <= j
    ensures Taken(a, p, y.t, ys, j - x.end + y.end, m)
    decreases j - x.end
  {
    hide Longest, Twins, Carried, Clear, StandsAt;
    var j' := j - x.end + y.end;
    TwinsFacts(a, x, y);
    LongestRight(a, p, x, y, xs, ys, j, m);
    forall j0: nat, m0: nat | j0 < j' && Taken(a, p, y.t, ys, j0, m0) ensures j0 + m0 <= j' {
      if y.end <= j0 {
        PairedSwaps(a, p, x, y, xs, ys, own, i);
        TakenRight(a, p, y, x, ys, xs, own, i, j0, m0);
      }
    }
    TakenWhenFree(a, p, y.t, ys, j', m);
  }

  lemma NewZonesMove(
    a: Alphabet, p: Pattern, x: View, y: View, xs: set<Zone>, ys: set<Zone>, own: bool, i: nat, z: Zone)
    requires Paired(a, p, x, y, xs, ys, own, i) && z in TakenZones(a, p, x.t, xs)
    ensures z.start < z.end && Beside(x, z) && Moved(x, y, z) in TakenZones(a, p, y.t, ys)
  {
    hide Longest, Taken, Twins, Carried;
    var j: nat, m: nat :| Taken(a, p, x.t, xs, j, m) && z == Zone(j + Kept(p), j + m);
    TwinsFacts(a, x, y);
    TakenIsLongest(a, p, x.t, xs, j, m);
    LongestFacts(a, p, x.t, xs, j, m);
    if j + m <= x.start {
      TakenLeft(a, p, x, y, xs, ys, own, i, j, m);
      TakenIsZone(a, p, y.t, ys, j, m);
    } else if x.end <= j {
      TakenRight(a, p, x, y, xs, ys, own, i, j, m);
      TakenIsZone(a, p, y.t, ys, j - x.end + y.end, m);
    } else {
      TakenIsZone(a, p, y.t, ys, i, y.end - i);
    }
  }

  lemma CarriedGrows(a: Alphabet, p: Pattern, x: View, y: View, xs: set<Zone>, ys: set<Zone>, own: bool, i: nat)
    requires Paired(a, p, x, y, xs, ys, own, i)
    ensures Carried(x, y, xs + TakenZones(a, p, x.t, xs), ys + TakenZones(a, p, y.t, ys))
  {
    hide TakenZones, Twins, Apart, Moved, Beside;
    forall z <- TakenZones(a, p, x.t, xs)
      ensures z.start < z.end && Beside(x, z) && Moved(x, y, z) in TakenZones(a, p, y.t, ys)
    {
      NewZonesMove(a, p, x, y, xs, ys, own, i, z);
    }
  }

  // ----- the filled texts ---------------------------------------------------------------------

  ghost predicate Filled(a: Alphabet, x: View, y: View, xs: set<Zone>, ys: set<Zone>) {
    && Twins(a, x, y) && Carried(x, y, xs, ys) && Carried(y, x, ys, xs)
    && Neat(a, x.t, xs) && Neat(a, y.t, ys)
  }

  lemma StartMoves(x: View, y: View, xs: set<Zone>, ys: set<Zone>, i: nat) returns (z: Zone)
    requires Carried(x, y, xs, ys) && StartsZone(xs, i)
    ensures z in xs && z.start == i < z.end && Beside(x, z) && Moved(x, y, z) in ys
  {
    z := Zone(i, EndOf(xs, i));
  }

  lemma ZoneStarts(zones: set<Zone>, z: Zone)
    requires z in zones && z.start < z.end
    ensures StartsZone(zones, z.start)
  {
    assert z == Zone(z.start, z.end);
  }

  lemma SameEnd(a: Alphabet, x: View, y: View)
    requires Twins(a, x, y)
    ensures |y.t| - y.end == |x.t| - x.end
    ensures forall i | x.end <= i < |x.t| :: x.t[i] == y.t[i - x.end + y.end]
  {
    hide Alphabet.Word, Alphabet.PrevWord, Barren, IsSpace;
    assert |x.t[x.end..]| == |y.t[y.end..]|;
    forall i | x.end <= i < |x.t| ensures x.t[i] == y.t[i - x.end + y.end] {
      assert x.t[i] == x.t[x.end..][i - x.end];
    }
  }

  lemma {:induction false} FillRight(a: Alphabet, x: View, y: View, xs: set<Zone>, ys: set<Zone>, i: nat)
    requires Filled(a, x, y, xs, ys) && x.end <= i <= |x.t|
    ensures |y.t| - y.end == |x.t| - x.end
    ensures Fill(x.t, xs, i, |x.t|) == Fill(y.t, ys, i - x.end + y.end, |y.t|)
    decreases |x.t| - i
  {
    hide Fill, Neat, Carried, StartsZone, Twins, Mark;
    var i' := i - x.end + y.end;
    TwinsFacts(a, x, y);
    SameEnd(a, x, y);
    if i == |x.t| {
      FillToEnd(x.t, xs);
      FillToEnd(y.t, ys);
    } else if StartsZone(xs, i) {
      var z := StartMoves(x, y, xs, ys, i);
      FillAtZone(a, x.t, xs, z);
      FillAtZone(a, y.t, ys, Moved(x, y, z));
      ZoneStartsClear(a, x.t, xs, z);
      FillRight(a, x, y, xs, ys, z.end);
    } else {
      if StartsZone(ys, i') {
        var z := StartMoves(y, x, ys, xs, i');
        ZoneStarts(xs, Moved(y, x, z));
      }
      FillStep(x.t, xs, i, |x.t|);
      FillStep(y.t, ys, i', |y.t|);
      FillRight(a, x, y, xs, ys, i + 1);
    }
  }

  lemma SameBefore(a: Alphabet, x: View, y: View)
    requires Twins(a, x, y)
    ensures forall i | 0 <= i < x.start :: x.t[i] == y.t[i]
    ensures Mark(x.t[x.start]) == Mark(y.t[y.start])
  {
    hide Alphabet.Word, Alphabet.PrevWord, Barren, IsSpace;
    forall i | 0 <= i < x.start ensures x.t[i] == y.t[i] {
      assert x.t[i] == x.t[..x.start][i];
    }
  }

  lemma {:induction false} FillLeft(a: Alphabet, x: View, y: View, xs: set<Zone>, ys: set<Zone>, i: nat)
    requires Filled(a, x, y, xs, ys) && Zone(x.start, x.end) in xs && i <= x.start
    ensures Fill(x.t, xs, i, |x.t|) == Fill(y.t, ys, i, |y.t|)
    decreases x.start - i
  {
    hide Fill, Neat, Carried, StartsZone, Twins, Mark;
    TwinsFacts(a, x, y);
    SameBefore(a, x, y);
    if StartsZone(xs, i) {
      var z := StartMoves(x, y, xs, ys, i);
      FillAtZone(a, x.t, xs, z);
      FillAtZone(a, y.t, ys, Moved(x, y, z));
      if i == x.start {
        FillRight(a, x, y, xs, ys, x.end);
      } else {
        FillLeft(a, x, y, xs, ys, z.end);
      }
    } else {
      ZoneStarts(xs, Zone(x.start, x.end));
      if StartsZone(ys, i) {
        var z := StartMoves(y, x, ys, xs, i);
        ZoneStarts(xs, Moved(y, x, z));
      }
      FillStep(x.t, xs, i, |x.t|);
      FillStep(y.t, ys, i, |y.t|);
      FillLeft(a, x, y, xs, ys, i + 1);
    }
  }

  // ----- the secret does not show -------------------------------------------------------------

  /** The credential is taken whole, and none of an earlier kind that is taken touches it. */
  ghost predicate Alone(a: Alphabet, q: Pattern, t: string, i: nat, n: nat) {
    && TakenInTurn(a, q, t, i, n)
    && forall p: Pattern, j: nat, m: nat :: Rank(p) < Rank(q) && TakenInTurn(a, p, t, j, m) ==> j + m <= i || i + n <= j
  }

  lemma SameRank(p: Pattern, q: Pattern)
    ensures Rank(p) == Rank(q) ==> p == q
  {
  }

  lemma AloneIsApart(a: Alphabet, q: Pattern, p: Pattern, x: View, i: nat)
    requires i + Kept(q) == x.start < x.end && Alone(a, q, x.t, i, x.end - i)
    requires Rank(q) < Rank(p) ==> Zone(x.start, x.end) in ZonesOf(a, ORDER[..Rank(p)], x.t)
    ensures Apart(a, p, x, ZonesOf(a, ORDER[..Rank(p)], x.t), p == q, i)
  {
    hide ZonesOf, Taken;
    var xs := ZonesOf(a, ORDER[..Rank(p)], x.t);
    forall j: nat, m: nat | Taken(a, p, x.t, xs, j, m)
      ensures j + m <= x.start || x.end <= j || (p == q && j == i && j + m == x.end)
    {
      assert TakenInTurn(a, p, x.t, j, m);
      if p == q {
        TakenLieApart(a, p, x.t, xs, i, x.end - i, j, m);
      } else if Rank(q) < Rank(p) {
        TakenIsLongest(a, p, x.t, xs, j, m);
        LongestIsClear(a, p, x.t, xs, j, m);
      } else {
        SameRank(p, q);
      }
    }
  }

  lemma SecretIsZone(a: Alphabet, q: Pattern, x: View, i: nat, k: nat)
    requires k <= 4 && i + Kept(q) == x.start < x.end && Alone(a, q, x.t, i, x.end - i)
    ensures Rank(q) < k ==> Zone(x.start, x.end) in ZonesOf(a, ORDER[..k], x.t)
  {
    hide ZonesOf, TakenInTurn;
    if Rank(q) < k {
      TakenMakesZone(a, k, x.t, q, i, x.end - i);
    }
  }

  /** Kind by kind, the zones of the two texts lie alike. */
  lemma {:induction false} ZonesLieAlike(a: Alphabet, q: Pattern, x: View, y: View, i: nat, k: nat)
    requires Twins(a, x, y) && k <= 4 && i + Kept(q) == x.start
    requires Alone(a, q, x.t, i, x.end - i) && Alone(a, q, y.t, i, y.end - i)
    ensures var xs, ys := ZonesOf(a, ORDER[..k], x.t), ZonesOf(a, ORDER[..k], y.t);
      Carried(x, y, xs, ys) && Carried(y, x, ys, xs)
  {
    hide ZonesOf, TakenZones, Twins, Alone, Moved, Beside, Apart;
    if k == 0 {
      NoZones(a, x.t);
      NoZones(a, y.t);
    } else {
      var p := ORDER[k - 1];
      var xs, ys := ZonesOf(a, ORDER[..k - 1], x.t), ZonesOf(a, ORDER[..k - 1], y.t);
      ZonesLieAlike(a, q, x, y, i, k - 1);
      RankOfKind(k - 1);
      TwinsFacts(a, x, y);
      SecretIsZone(a, q, x, i, k - 1);
      SecretIsZone(a, q, y, i, k - 1);
      AloneIsApart(a, q, p, x, i);
      AloneIsApart(a, q, p, y, i);
      CarriedGrows(a, p, x, y, xs, ys, p == q, i);
      CarriedGrows(a, p, y, x, ys, xs, p == q, i);
      assert ORDER[..k] == ORDER[..k - 1] + [p];
      OneMoreKind(a, ORDER[..k - 1], p, x.t);
      OneMoreKind(a, ORDER[..k - 1], p, y.t);
    }
  }

  lemma TwinsScrubAlike(a: Alphabet, q: Pattern, x: View, y: View, i: nat)
    requires Twins(a, x, y) && i + Kept(q) == x.start
    requires Alone(a, q, x.t, i, x.end - i) && Alone(a, q, y.t, i, y.end - i)
    ensures ScrubAll(a, x.t) == ScrubAll(a, y.t)
  {
    hide ZonesOf, ScrubAll, Neat, Fill, Carried, Alone, Twins;
    assert ORDER[..4] == ORDER;
    TwinsFacts(a, x, y);
    ZonesLieAlike(a, q, x, y, i, 4);
    ScrubAllFills(a, x.t);
    ScrubAllFills(a, y.t);
    ZonesAreNeat(a, ORDER, x.t);
    ZonesAreNeat(a, ORDER, y.t);
    SecretIsZone(a, q, x, i, 4);
    FillLeft(a, x, y, ZonesOf(a, ORDER, x.t), ZonesOf(a, ORDER, y.t), 0);
  }

  predicate SameKeyword(q: Pattern, c: string, c': string) {
    Kept(q) <= |c| && Kept(q) <= |c'| && c[..Kept(q)] == c'[..Kept(q)]
  }

  lemma SpaceIsNoWord(a: Alphabet, c: char)
    ensures IsSpace(c) ==> !a.Word(c)
  {
  }

  lemma SecretFacts(a: Alphabet, q: Pattern, pre: string, c: string, post: string)
    requires TakenInTurn(a, q, pre + c + post, |pre|, |c|)
    ensures var t, w, e := pre + c + post, |pre| + Kept(q), |pre| + |c|;
      && w < e <= |t| && t[e..] == post
      && IsSpace(t[w]) == (Kept(q) > 0) && a.Word(t[w]) == (Kept(q) == 0)
      && (!a.PrevWord(false, t, e) || Barren(a, post))
  {
    hide Alphabet.Word, Alphabet.PrevWord, Taken, ZonesOf, Barren, IsSpace, In, StandsAt, Neat, SameChar;
    var t := pre + c + post;
    var zones := ZonesOf(a, ORDER[..Rank(q)], t);
    TakenIsLongest(a, q, t, zones, |pre|, |c|);
    StandsAtFacts(a, q, t, |pre|, |c|);
    ZonesAreNeat(a, ORDER[..Rank(q)], t);
    LongestEnds(a, q, t, zones, |pre|, |c|);
    SpaceIsNoWord(a, t[|pre| + Kept(q)]);
    assert t[|pre| + |c|..] == post;
  }

  /** Two secrets with the same keyword, each alone in the same surroundings, make twins. */
  lemma AloneMakesTwins(a: Alphabet, q: Pattern, pre: string, c: string, c': string, post: string)
    requires Alone(a, q, pre + c + post, |pre|, |c|) && Alone(a, q, pre + c' + post, |pre|, |c'|)
    requires SameKeyword(q, c, c')
    ensures var w := |pre| + Kept(q);
      Twins(a, View(pre + c + post, w, |pre| + |c|), View(pre + c' + post, w, |pre| + |c'|))
  {
    hide Alphabet.Word, Alphabet.PrevWord, Longest, Taken, ZonesOf, Barren, IsSpace, In, StandsAt;
    var k, t, t' := Kept(q), pre + c + post, pre + c' + post;
    SecretFacts(a, q, pre, c, post);
    SecretFacts(a, q, pre, c', post);
    assert t[..|pre| + k] == pre + c[..k];
    assert t'[..|pre| + k] == pre + c'[..k];
  }

  /** Nothing of a secret shows that is alone where it stands, not even its length. */
  lemma SecretDoesNotShow(a: Alphabet, q: Pattern, pre: string, c: string, c': string, post: string)
    requires Alone(a, q, pre + c + post, |pre|, |c|) && Alone(a, q, pre + c' + post, |pre|, |c'|)
    requires SameKeyword(q, c, c')
    ensures ScrubText(a, pre + c + post) == ScrubText(a, pre + c' + post)
  {
    hide Alone, ScrubAll, Twins;
    AloneMakesTwins(a, q, pre, c, c', post);
    var w := |pre| + Kept(q);
    TwinsScrubAlike(a, q, View(pre + c + post, w, |pre| + |c|), View(pre + c' + post, w, |pre| + |c'|), |pre|);
  }

  /** No credential of its own or of an earlier kind overlaps it. */
  ghost predicate Lone(a: Alphabet, q: Pattern, t: string, i: nat, n: nat) {
    && StandsAt(a, q, t, i, n)
    && (forall m: nat :: StandsAt(a, q, t, i, m) ==> m <= n)
    && forall p: Pattern, j: nat, m: nat ::
        Rank(p) <= Rank(q) && (p != q || j != i) && StandsAt(a, p, t, j, m) ==> j + m <= i || i + n <= j
  }

  /** Such a credential is alone: an ordinary text with one secret in it is all that is needed. */
  lemma LoneIsAlone(a: Alphabet, q: Pattern, t: string, i: nat, n: nat)
    requires Lone(a, q, t, i, n)
    ensures Alone(a, q, t, i, n)
  {
    hide StandsAt, ZonesOf, Taken;
    var zones := ZonesOf(a, ORDER[..Rank(q)], t);
    forall p: Pattern, j: nat, m: nat | TakenInTurn(a, p, t, j, m) ensures StandsAt(a, p, t, j, m) {
      TakenIsLongest(a, p, t, ZonesOf(a, ORDER[..Rank(p)], t), j, m);
    }
    assert Longest(a, q, t, {}, i, n);
    WholeExactlyWhen(a, q, t, i, n);
  }
}
