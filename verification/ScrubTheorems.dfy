/** What a nested value keeps and loses: which strings of the output come from where, what cannot
    influence the output at all, and what the depth cap costs. */
module ScrubTheorems {
  import opened Wrappers
  import opened Regex
  import opened Redaction
  import opened RedactionTheorems
  import opened NestedScrub

  const MARKER := Str(REDACTED)

  // ----- where the output comes from ----------------------------------------------------------

  /** The part of `v` reached by following child numbers. */
  function At(v: Value, path: seq<nat>): Option<Value> {
    if path == [] then Some(v)
    else if path[0] < Size(v) then At(Child(v, path[0]), path[1..])
    else None
  }

  /** The path exists and passes no sensitive key. */
  predicate OpenPath(a: Alphabet, v: Value, path: seq<nat>) {
    path == [] || (path[0] < Size(v) && !Hides(a, v, path[0]) && OpenPath(a, Child(v, path[0]), path[1..]))
  }

  /** Down an open path and above the cap, the output holds the scrubbed part of the input. */
  lemma {:induction false} ScrubAt(a: Alphabet, v: Value, depth: int, path: seq<nat>)
    requires OpenPath(a, v, path) && depth + |path| <= MAX_DEPTH + 1
    ensures At(v, path).Some?
    ensures At(Scrub(a, v, depth), path) == Some(Scrub(a, At(v, path).value, depth + |path|))
  {
    hide Scrub, Size, Child, Hides;
    if path != [] {
      ScrubNode(a, v, depth);
      ScrubAt(a, Child(v, path[0]), depth + 1, path[1..]);
    }
  }

  /** Nothing else is in the output: each of its parts is the marker, or the scrubbed part of the input
      at the same place, reached without a sensitive key and above the cap. */
  lemma {:induction false} OutputOrigin(a: Alphabet, v: Value, depth: int, path: seq<nat>)
    requires At(Scrub(a, v, depth), path).Some?
    ensures
      var out := At(Scrub(a, v, depth), path).value;
      || out == MARKER
      || (OpenPath(a, v, path) && At(v, path).Some? && depth + |path| <= MAX_DEPTH
          && out == Scrub(a, At(v, path).value, depth + |path|))
  {
    hide ScrubText, IsSensitiveKey;
    if depth <= MAX_DEPTH && path != [] {
      ScrubNode(a, v, depth);
      if Hides(a, v, path[0]) {
        assert Size(MARKER) == 0;
      } else {
        OutputOrigin(a, Child(v, path[0]), depth + 1, path[1..]);
      }
    }
  }

  /** Every string of `v` that `scrub` reads is one whose cut exposes nothing. */
  ghost predicate NothingExposed(a: Alphabet, v: Value, depth: int) {
    forall path: seq<nat> | OpenPath(a, v, path) && depth + |path| <= MAX_DEPTH && At(v, path).Some? && At(v, path).value.Str? ::
      !CutExposes(a, ScrubAll(a, At(v, path).value.text))
  }

  lemma LeafOfScrub(a: Alphabet, v: Value, depth: int)
    requires depth <= MAX_DEPTH && Scrub(a, v, depth).Str?
    ensures v.Str? && Scrub(a, v, depth).text == ScrubText(a, v.text)
  {
  }

  /** The marker holds no match: it is too short for one. */
  lemma MarkerIsClean(a: Alphabet)
    ensures Clean(a, REDACTED)
  {
    hide Compiled;
    forall p: Pattern, i: nat, ls: Spans | i <= |REDACTED| ensures !OccursAt(a, Compiled(p), false, REDACTED, i, ls) {
      if OccursAt(a, Compiled(p), false, REDACTED, i, ls) {
        MatchExtent(a, p, a.PrevWord(false, REDACTED, i), REDACTED[i..], ls);
      }
    }
  }

  /** Then no string of the output, at any depth, matches any pattern. */
  lemma OutputIsClean(a: Alphabet, v: Value, depth: int, path: seq<nat>)
    requires NothingExposed(a, v, depth)
    requires At(Scrub(a, v, depth), path).Some? && At(Scrub(a, v, depth), path).value.Str?
    ensures Clean(a, At(Scrub(a, v, depth), path).value.text)
  {
    hide Scrub, Clean, CutExposes, ScrubAll, OpenPath;
    OutputOrigin(a, v, depth, path);
    var out := At(Scrub(a, v, depth), path).value;
    if out == MARKER {
      MarkerIsClean(a);
    } else {
      var source := At(v, path).value;
      LeafOfScrub(a, source, depth + |path|);
      ScrubTextIsClean(a, source.text);
    }
  }

  predicate AllAscii(v: Value)
    decreases v
  {
    (v.Str? ==> IsAscii(v.text)) && forall i: nat | i < Size(v) :: AllAscii(Child(v, i))
  }

  lemma {:induction false} AsciiAt(v: Value, path: seq<nat>)
    requires AllAscii(v) && At(v, path).Some?
    ensures AllAscii(At(v, path).value)
  {
    if path != [] {
      AsciiAt(Child(v, path[0]), path[1..]);
    }
  }

  /** So a value whose strings are ASCII never leaks a credential through any string of the output. */
  lemma AsciiOutputIsClean(a: Alphabet, v: Value, depth: int, path: seq<nat>)
    requires AllAscii(v)
    requires At(Scrub(a, v, depth), path).Some? && At(Scrub(a, v, depth), path).value.Str?
    ensures Clean(a, At(Scrub(a, v, depth), path).value.text)
  {
    hide Scrub, Clean, CutExposes, ScrubAll, OpenPath, Size, Child;
    forall p: seq<nat> | At(v, p).Some? && At(v, p).value.Str?
      ensures !CutExposes(a, ScrubAll(a, At(v, p).value.text))
    {
      AsciiAt(v, p);
      ScrubTextIsCleanOnAscii(a, At(v, p).value.text);
      ScrubTextIsClean(a, At(v, p).value.text);
    }
    OutputIsClean(a, v, depth, path);
  }

  // ----- what cannot influence the output -----------------------------------------------------

  function WithChild(v: Value, i: nat, w: Value): (r: Value)
    requires i < Size(v)
    ensures Size(r) == Size(v) && r.Tuple? == v.Tuple? && r.Dict? == v.Dict?
    ensures Child(r, i) == w && forall j: nat | j < Size(v) && j != i :: Child(r, j) == Child(v, j)
  {
    match v
    case Dict(items) => Dict(items[i := (items[i].0, w)])
    case List(elems) => List(elems[i := w])
    case Tuple(elems) => Tuple(elems[i := w])
  }

  /** `v` with the part at `path` replaced by `w`. */
  function Put(v: Value, path: seq<nat>, w: Value): Value
    decreases |path|
  {
    if path == [] then w
    else if path[0] >= Size(v) then v
    else WithChild(v, path[0], Put(Child(v, path[0]), path[1..], w))
  }

  lemma WithChildNode(a: Alphabet, v: Value, i: nat, w: Value)
    requires i < Size(v)
    ensures LabelOf(WithChild(v, i, w)) == LabelOf(v)
    ensures forall j: nat | j < Size(v) :: Hides(a, WithChild(v, i, w), j) == Hides(a, v, j)
  {
  }

  /** Some step of the path is a sensitive key. */
  predicate SecretPath(a: Alphabet, v: Value, path: seq<nat>) {
    path != [] && path[0] < Size(v) && (Hides(a, v, path[0]) || SecretPath(a, Child(v, path[0]), path[1..]))
  }

  /** Values that agree in label and in the scrubbed form of every shown child scrub alike. */
  lemma ScrubAgrees(a: Alphabet, v: Value, w: Value, depth: int)
    requires depth <= MAX_DEPTH && LabelOf(v) == LabelOf(w) && Size(v) == Size(w)
    requires forall i: nat | i < Size(v) :: Hides(a, v, i) == Hides(a, w, i)
    requires forall i: nat | i < Size(v) && !Hides(a, v, i) :: Scrub(a, Child(v, i), depth + 1) == Scrub(a, Child(w, i), depth + 1)
    ensures Scrub(a, v, depth) == Scrub(a, w, depth)
  {
    hide Scrub, Child, Size, Hides, LabelOf;
    ScrubNode(a, v, depth);
    ScrubNode(a, w, depth);
    NodeExtensionality(Scrub(a, v, depth), Scrub(a, w, depth));
  }

  /** Replacing anything under a sensitive key, or anything below the cap, by anything else leaves the
      output as it was. */
  lemma {:induction false} SecretsDoNotShow(a: Alphabet, v: Value, depth: int, path: seq<nat>, w: Value)
    requires SecretPath(a, v, path) || depth + |path| > MAX_DEPTH
    ensures Scrub(a, Put(v, path, w), depth) == Scrub(a, v, depth)
    decreases |path|
  {
    hide ScrubText, IsSensitiveKey, Child, Size, Hides, LabelOf;
    if depth <= MAX_DEPTH && path[0] < Size(v) {
      var i, c := path[0], Child(v, path[0]);
      var c' := Put(c, path[1..], w);
      WithChildNode(a, v, i, c');
      if !Hides(a, v, i) {
        SecretsDoNotShow(a, c, depth + 1, path[1..], w);
      }
      ScrubAgrees(a, v, WithChild(v, i, c'), depth);
    }
  }

  /** `v` and `w` differ only under sensitive keys, below the cap, or in the text that the four passes
      remove or the cut drops. */
  predicate LookAlike(a: Alphabet, v: Value, w: Value, depth: int)
    decreases if depth > MAX_DEPTH then 0 else MAX_DEPTH + 1 - depth
  {
    || depth > MAX_DEPTH
    || (&& ScrubLabel(a, LabelOf(v)) == ScrubLabel(a, LabelOf(w)) && Size(v) == Size(w)
        && forall i: nat | i < Size(v) ::
             || (Hides(a, v, i) && Hides(a, w, i))
             || (!Hides(a, v, i) && !Hides(a, w, i) && LookAlike(a, Child(v, i), Child(w, i), depth + 1)))
  }

  lemma CappedIsMarker(a: Alphabet, v: Value, depth: int)
    requires depth > MAX_DEPTH
    ensures Scrub(a, v, depth) == MARKER
  {
  }

  lemma HidesByLabel(a: Alphabet, v: Value, w: Value)
    ensures ScrubLabel(a, LabelOf(v)) == ScrubLabel(a, LabelOf(w)) && Size(v) == Size(w) ==>
              forall i: nat | i < Size(v) :: Hides(a, v, i) == Hides(a, w, i)
  {
    hide ScrubText, IsSensitiveKey;
    if ScrubLabel(a, LabelOf(v)) == ScrubLabel(a, LabelOf(w)) && v.Dict? {
      forall i: nat | i < Size(v) && i < Size(w) ensures Hides(a, v, i) == Hides(a, w, i) {
        assert LabelOf(v).keys[i] == LabelOf(w).keys[i];
      }
    }
  }

  /** And that is all the output tells: two values give the same output exactly when they look alike. */
  lemma {:induction false} OutputTellsExactly(a: Alphabet, v: Value, w: Value, depth: int)
    ensures Scrub(a, v, depth) == Scrub(a, w, depth) <==> LookAlike(a, v, w, depth)
    decreases if depth > MAX_DEPTH then 0 else MAX_DEPTH + 1 - depth
  {
    hide ScrubText, IsSensitiveKey, Child, Size, Hides, LabelOf, Scrub, ScrubLabel;
    if depth <= MAX_DEPTH {
      ScrubNode(a, v, depth);
      ScrubNode(a, w, depth);
      forall i: nat | i < Size(v) && i < Size(w)
        ensures Scrub(a, Child(v, i), depth + 1) == Scrub(a, Child(w, i), depth + 1)
           <==> LookAlike(a, Child(v, i), Child(w, i), depth + 1)
      {
        OutputTellsExactly(a, Child(v, i), Child(w, i), depth + 1);
      }
      HidesByLabel(a, v, w);
      if LookAlike(a, v, w, depth) {
        NodeExtensionality(Scrub(a, v, depth), Scrub(a, w, depth));
      }
    } else {
      CappedIsMarker(a, v, depth);
      CappedIsMarker(a, w, depth);
    }
  }

  // ----- scrubbing twice ----------------------------------------------------------------------

  lemma ScrubKeepsKeys(a: Alphabet, v: Value, depth: int)
    requires depth <= MAX_DEPTH
    ensures Size(Scrub(a, v, depth)) == Size(v)
    ensures forall i: nat | i < Size(v) :: Hides(a, Scrub(a, v, depth), i) == Hides(a, v, i)
  {
  }

  lemma {:induction false} OpenPathSurvives(a: Alphabet, v: Value, depth: int, path: seq<nat>)
    requires OpenPath(a, v, path) && depth + |path| <= MAX_DEPTH + 1
    ensures OpenPath(a, Scrub(a, v, depth), path)
  {
    hide ScrubText, IsSensitiveKey, Size, Child;
    if path != [] {
      ScrubNode(a, v, depth);
      ScrubKeepsKeys(a, v, depth);
      OpenPathSurvives(a, Child(v, path[0]), depth + 1, path[1..]);
    }
  }

  lemma ExposedAtChild(a: Alphabet, v: Value, depth: int, i: nat)
    requires NothingExposed(a, v, depth) && i < Size(v) && !Hides(a, v, i)
    ensures NothingExposed(a, Child(v, i), depth + 1)
  {
    hide CutExposes, ScrubAll, Size, Child, Hides;
    forall path: seq<nat> | OpenPath(a, Child(v, i), path) && depth + 1 + |path| <= MAX_DEPTH
        && At(Child(v, i), path).Some? && At(Child(v, i), path).value.Str?
      ensures !CutExposes(a, ScrubAll(a, At(Child(v, i), path).value.text))
    {
      assert ([i] + path)[1..] == path;
      assert OpenPath(a, v, [i] + path) && At(v, [i] + path) == At(Child(v, i), path);
    }
  }

  lemma LabelTwice(a: Alphabet, v: Value, depth: int)
    requires NothingExposed(a, v, depth) && depth <= MAX_DEPTH
    ensures ScrubLabel(a, ScrubLabel(a, LabelOf(v))) == ScrubLabel(a, LabelOf(v))
  {
    hide ScrubText, CutExposes, ScrubAll;
    if v.Str? {
      assert OpenPath(a, v, []) && At(v, []) == Some(v);
      ScrubTextIdempotent(a, v.text);
    }
  }

  lemma {:induction false} ScrubTwice(a: Alphabet, v: Value, depth: int)
    requires NothingExposed(a, v, depth)
    ensures Scrub(a, Scrub(a, v, depth), depth) == Scrub(a, v, depth)
    decreases if depth > MAX_DEPTH then 0 else MAX_DEPTH + 1 - depth
  {
    hide ScrubText, IsSensitiveKey, Child, Size, Hides, Scrub, NothingExposed;
    if depth > MAX_DEPTH {
      CappedIsMarker(a, v, depth);
      CappedIsMarker(a, MARKER, depth);
    } else {
      var out := Scrub(a, v, depth);
      ScrubNode(a, v, depth);
      ScrubNode(a, out, depth);
      ScrubKeepsKeys(a, v, depth);
      forall i: nat | i < Size(v) ensures Child(Scrub(a, out, depth), i) == Child(out, i) {
        if !Hides(a, v, i) {
          ExposedAtChild(a, v, depth, i);
          ScrubTwice(a, Child(v, i), depth + 1);
        }
      }
      LabelTwice(a, v, depth);
      NodeExtensionality(Scrub(a, out, depth), out);
    }
  }

  lemma ScrubOfString(a: Alphabet, s: string, depth: int)
    requires depth <= MAX_DEPTH
    ensures Scrub(a, Str(s), depth) == Str(ScrubText(a, s))
  {
  }

  /** Scrubbing twice is scrubbing once, exactly when no string that is read is exposed by its cut. */
  lemma ScrubIdempotent(a: Alphabet, v: Value, depth: int)
    ensures Scrub(a, Scrub(a, v, depth), depth) == Scrub(a, v, depth) <==> NothingExposed(a, v, depth)
  {
    hide ScrubText, CutExposes, ScrubAll, Scrub, OpenPath, IsSensitiveKey;
    if NothingExposed(a, v, depth) {
      ScrubTwice(a, v, depth);
    } else {
      var path: seq<nat> :| OpenPath(a, v, path) && depth + |path| <= MAX_DEPTH && At(v, path).Some?
        && At(v, path).value.Str? && CutExposes(a, ScrubAll(a, At(v, path).value.text));
      var s, d := At(v, path).value.text, depth + |path|;
      ScrubAt(a, v, depth, path);
      OpenPathSurvives(a, v, depth, path);
      ScrubAt(a, Scrub(a, v, depth), depth, path);
      ScrubOfString(a, s, d);
      ScrubOfString(a, ScrubText(a, s), d);
      ScrubTextIdempotent(a, s);
    }
  }

  // ----- the depth cap ------------------------------------------------------------------------

  /** The same recursion without the cap. */
  function ScrubUncapped(a: Alphabet, v: Value): Value
    decreases v
  {
    match v
    case Str(s) => Str(ScrubText(a, s))
    case Dict(items) =>
      Dict(seq(|items|, i requires 0 <= i < |items| =>
        (items[i].0, if IsSensitiveKey(a, items[i].0.text) then MARKER else ScrubUncapped(a, items[i].1))))
    case List(elems) => List(seq(|elems|, i requires 0 <= i < |elems| => ScrubUncapped(a, elems[i])))
    case Tuple(elems) => List(seq(|elems|, i requires 0 <= i < |elems| => ScrubUncapped(a, elems[i])))
    case Atom(_) => v
  }

  lemma UncappedNode(a: Alphabet, v: Value)
    ensures LabelOf(ScrubUncapped(a, v)) == ScrubLabel(a, LabelOf(v))
    ensures Size(ScrubUncapped(a, v)) == Size(v) && !ScrubUncapped(a, v).Tuple?
    ensures forall i: nat | i < Size(v) ::
              Child(ScrubUncapped(a, v), i) == if Hides(a, v, i) then MARKER else ScrubUncapped(a, Child(v, i))
  {
  }

  /** No part of `v` lies deeper than `n`, except under a sensitive key. */
  predicate Within(a: Alphabet, v: Value, n: int)
    decreases v
  {
    n >= 0 && forall i: nat | i < Size(v) :: Hides(a, v, i) || Within(a, Child(v, i), n - 1)
  }

  /** The cap changes nothing in a value that stays above it. */
  lemma {:induction false} CapOnlyPrunes(a: Alphabet, v: Value, depth: int)
    requires Within(a, v, MAX_DEPTH - depth)
    ensures Scrub(a, v, depth) == ScrubUncapped(a, v)
    decreases v
  {
    hide ScrubText, IsSensitiveKey, Child, Size, Hides, Scrub, ScrubUncapped;
    ScrubNode(a, v, depth);
    UncappedNode(a, v);
    forall i: nat | i < Size(v) ensures Child(Scrub(a, v, depth), i) == Child(ScrubUncapped(a, v), i) {
      if !Hides(a, v, i) {
        CapOnlyPrunes(a, Child(v, i), depth + 1);
      }
    }
    NodeExtensionality(Scrub(a, v, depth), ScrubUncapped(a, v));
  }

  /** At most `n` containers lie on any way down. */
  predicate NestsAtMost(v: Value, n: nat)
    decreases n
  {
    v.Str? || v.Atom? || (n > 0 && forall i: nat | i < Size(v) :: NestsAtMost(Child(v, i), n - 1))
  }

  lemma {:induction false} OutputNesting(a: Alphabet, v: Value, depth: nat)
    requires depth <= MAX_DEPTH + 1
    ensures NestsAtMost(Scrub(a, v, depth), 7 - depth)
    decreases MAX_DEPTH + 1 - depth
  {
    hide ScrubText, IsSensitiveKey, Child, Size, Hides, Scrub;
    if depth > MAX_DEPTH {
      CappedIsMarker(a, v, depth);
    } else {
      ScrubNode(a, v, depth);
      forall i: nat | i < Size(v) ensures NestsAtMost(Child(Scrub(a, v, depth), i), 6 - depth) {
        if !Hides(a, v, i) {
          OutputNesting(a, Child(v, i), depth + 1);
        }
      }
    }
  }

  // ----- sensitive keys -----------------------------------------------------------------------

  lemma LowerCons(a: Alphabet, c: char, s: string)
    ensures Lower(a, [c] + s) == LowerChar(a, c) + Lower(a, s)
  {
    assert ([c] + s)[1..] == s;
  }

  lemma {:induction false} LowerConcat(a: Alphabet, x: string, y: string)
    ensures Lower(a, x + y) == Lower(a, x) + Lower(a, y)
  {
    hide LowerChar;
    if x == "" {
      assert x + y == y;
    } else {
      var c, tail := x[0], x[1..];
      LowerConcat(a, tail, y);
      LowerCons(a, c, tail + y);
      assert x + y == [c] + (tail + y);
      assert LowerChar(a, c) + (Lower(a, tail) + Lower(a, y)) == (LowerChar(a, c) + Lower(a, tail)) + Lower(a, y);
    }
  }

  lemma ContainsInside(x: string, y: string, z: string, part: string)
    requires Contains(y, part)
    ensures Contains(x + y + z, part)
  {
    var i :| 0 <= i <= |y| && part <= y[i..];
    assert (x + y + z)[|x| + i..] == y[i..] + z;
  }

  /** A sensitive name stays sensitive inside any longer key: `new_password`, `X-CSRF-Token`. */
  lemma SensitiveInside(a: Alphabet, before: string, name: string, after: string)
    requires IsSensitiveKey(a, name)
    ensures IsSensitiveKey(a, before + name + after)
  {
    hide Lower, Contains;
    LowerConcat(a, before, name);
    LowerConcat(a, before + name, after);
    var part :| part in SENSITIVE_KEY_PARTS && Contains(Lower(a, name), part);
    ContainsInside(Lower(a, before), Lower(a, name), Lower(a, after), part);
  }

  lemma {:induction false} LowerIgnoresCase(a: Alphabet, x: string, y: string)
    requires IsAscii(x) && IsAscii(y) && |x| == |y|
    requires forall i | 0 <= i < |x| :: AsciiLower(x[i]) == AsciiLower(y[i])
    ensures Lower(a, x) == Lower(a, y)
  {
    if x != "" {
      assert forall c <- x[1..] :: c in x;
      assert forall c <- y[1..] :: c in y;
      assert x[0] in x && y[0] in y;
      LowerIgnoresCase(a, x[1..], y[1..]);
    }
  }

  /** Nor does the case of its ASCII letters matter. */
  lemma SensitiveIgnoresCase(a: Alphabet, x: string, y: string)
    requires IsAscii(x) && IsAscii(y) && |x| == |y|
    requires forall i | 0 <= i < |x| :: AsciiLower(x[i]) == AsciiLower(y[i])
    ensures IsSensitiveKey(a, x) == IsSensitiveKey(a, y)
  {
    LowerIgnoresCase(a, x, y);
  }

  // ----- which keys are sensitive -------------------------------------------------------------

  /** The key has the lower-case `name` at position `i`, in any mix of cases. */
  predicate ReadsAt(key: string, i: nat, name: string) {
    && i + |name| <= |key|
    && forall j | 0 <= j < |name| ::
         key[i + j] == name[j] || ('A' <= key[i + j] <= 'Z' && key[i + j] as int + 32 == name[j] as int)
  }

  predicate IsPlain(name: string) {
    forall c <- name :: 'a' <= c <= 'z' || c == '_'
  }

  lemma {:induction false} LowerOfAscii(a: Alphabet, s: string)
    requires IsAscii(s)
    ensures |Lower(a, s)| == |s| && forall k | 0 <= k < |s| :: Lower(a, s)[k] == AsciiLower(s[k])
  {
    if s != "" {
      assert s[0] in s && forall c <- s[1..] :: c in s;
      LowerOfAscii(a, s[1..]);
      assert LowerChar(a, s[0]) == [AsciiLower(s[0])];
    }
  }

  lemma LowerMatches(c: char, x: char)
    requires 'a' <= x <= 'z' || x == '_'
    ensures AsciiLower(c) == x <==> c == x || ('A' <= c <= 'Z' && c as int + 32 == x as int)
  {
  }

  lemma PrefixReads(key: string, low: string, i: nat, name: string)
    requires IsPlain(name) && |low| == |key| && forall k | 0 <= k < |key| :: low[k] == AsciiLower(key[k])
    requires i + |name| <= |key|
    ensures name <= low[i..] <==> ReadsAt(key, i, name)
  {
    hide AsciiLower;
    forall j | 0 <= j < |name|
      ensures low[i..][j] == name[j] <==> key[i + j] == name[j] || ('A' <= key[i + j] <= 'Z' && key[i + j] as int + 32 == name[j] as int)
    {
      assert name[j] in name;
      LowerMatches(key[i + j], name[j]);
    }
  }

  lemma ContainsReads(a: Alphabet, key: string, name: string)
    requires IsAscii(key) && IsPlain(name)
    ensures Contains(Lower(a, key), name) <==> exists i: nat :: ReadsAt(key, i, name)
  {
    hide Lower, AsciiLower;
    LowerOfAscii(a, key);
    var low := Lower(a, key);
    forall i: nat | i + |name| <= |key| ensures name <= low[i..] <==> ReadsAt(key, i, name) {
      PrefixReads(key, low, i, name);
    }
    if i :| 0 <= i <= |low| && name <= low[i..] {
      assert ReadsAt(key, i, name);
    }
  }

  lemma NamesArePlain(name: string)
    requires name in {"password", "passwd", "secret", "token", "authorization", "cookie", "credential", "private_key",
                      "code", "otp"}
    ensures IsPlain(name)
  {
  }

  lemma PartsAreNames(name: string)
    ensures name in SENSITIVE_KEY_PARTS <==>
      name in {"password", "passwd", "secret", "token", "authorization", "cookie", "credential", "private_key", "code",
               "otp"}
  {
    assert SENSITIVE_KEY_PARTS[0] == "password" && SENSITIVE_KEY_PARTS[1] == "passwd";
    assert SENSITIVE_KEY_PARTS[2] == "secret" && SENSITIVE_KEY_PARTS[3] == "token";
    assert SENSITIVE_KEY_PARTS[4] == "authorization" && SENSITIVE_KEY_PARTS[5] == "cookie";
    assert SENSITIVE_KEY_PARTS[6] == "credential" && SENSITIVE_KEY_PARTS[7] == "private_key";
    assert SENSITIVE_KEY_PARTS[8] == "code" && SENSITIVE_KEY_PARTS[9] == "otp";
  }

  /** An ASCII key is sensitive exactly when one of the ten names can be read in it, whatever the case. */
  lemma SensitiveExactly(a: Alphabet, key: string)
    requires IsAscii(key)
    ensures IsSensitiveKey(a, key) <==>
      exists i: nat, name: string ::
        && name in {"password", "passwd", "secret", "token", "authorization", "cookie", "credential", "private_key",
                    "code", "otp"}
        && ReadsAt(key, i, name)
  {
    hide Lower, Contains, ReadsAt, IsPlain;
    forall name | name in SENSITIVE_KEY_PARTS
      ensures Contains(Lower(a, key), name) <==> exists i: nat :: ReadsAt(key, i, name)
    {
      PartsAreNames(name);
      NamesArePlain(name);
      ContainsReads(a, key, name);
    }
    if IsSensitiveKey(a, key) {
      var name :| name in SENSITIVE_KEY_PARTS && Contains(Lower(a, key), name);
      PartsAreNames(name);
      var i: nat :| ReadsAt(key, i, name);
    }
    forall i: nat, name: string
      | name in {"password", "passwd", "secret", "token", "authorization", "cookie", "credential", "private_key", "code",
                 "otp"} && ReadsAt(key, i, name)
      ensures name in SENSITIVE_KEY_PARTS
    {
      PartsAreNames(name);
    }
  }

  lemma StretchReads(key: string, i: nat, name: string)
    requires IsPlain(name) && ReadsAt(key, i, name)
    ensures var part := key[i..i + |name|]; IsAscii(part) && ReadsAt(part, 0, name)
  {
    var part := key[i..i + |name|];
    forall c | c in part ensures c < '\U{0080}' {
      var j :| 0 <= j < |part| && part[j] == c;
      assert key[i + j] == c && name[j] in name;
    }
  }

  /** In any key, a stretch in which one of them can be read makes it sensitive. */
  lemma SensitiveAnywhere(a: Alphabet, key: string, i: nat, name: string)
    requires name in {"password", "passwd", "secret", "token", "authorization", "cookie", "credential", "private_key",
                      "code", "otp"}
    requires ReadsAt(key, i, name)
    ensures IsSensitiveKey(a, key)
  {
    hide IsSensitiveKey, IsAscii, IsPlain;
    var n := i + |name|;
    NamesArePlain(name);
    StretchReads(key, i, name);
    SensitiveExactly(a, key[i..n]);
    SensitiveInside(a, key[..i], key[i..n], key[n..]);
    assert key == key[..i] + key[i..n] + key[n..];
  }

  lemma LowerIsSame(c: char)
    ensures !('A' <= c <= 'Z') ==> AsciiLower(c) == c
  {
  }

  lemma LowerOfOne(a: Alphabet, c: char)
    requires '\U{0080}' <= c
    ensures Lower(a, [c]) == a.nonAsciiLower(c)
  {
    assert [c][1..] == "";
    assert Lower(a, "") == "";
    assert LowerChar(a, c) + "" == LowerChar(a, c);
  }

  /** A character outside ASCII counts for what `str.lower` makes of it. */
  lemma SensitiveFolds(a: Alphabet, before: string, c: char, after: string)
    requires '\U{0080}' <= c && IsAscii(a.nonAsciiLower(c))
    requires forall x <- a.nonAsciiLower(c) :: !('A' <= x <= 'Z')
    ensures IsSensitiveKey(a, before + [c] + after) <==> IsSensitiveKey(a, before + a.nonAsciiLower(c) + after)
  {
    hide Contains, AsciiLower;
    var z := a.nonAsciiLower(c);
    LowerConcat(a, before, [c]);
    LowerConcat(a, before + [c], after);
    LowerConcat(a, before, z);
    LowerConcat(a, before + z, after);
    LowerOfAscii(a, z);
    forall k | 0 <= k < |z| ensures AsciiLower(z[k]) == z[k] {
      assert z[k] in z;
      LowerIsSame(z[k]);
    }
    assert Lower(a, z) == z;
    LowerOfOne(a, c);
  }

  // ----- from the top -------------------------------------------------------------------------

  lemma {:induction false} AtStep(v: Value, path: seq<nat>, i: nat)
    ensures At(v, path + [i]) ==
      match At(v, path) case None => None case Some(w) => if i < Size(w) then Some(Child(w, i)) else None
  {
    hide Size, Child;
    if path == [] {
      assert path + [i] == [i] && [i][1..] == [];
    } else if path[0] < Size(v) {
      assert (path + [i])[1..] == path[1..] + [i];
      AtStep(Child(v, path[0]), path[1..], i);
    }
  }

  /** Where `scrub` is called, six levels of containers are read and the seventh is replaced: a string that
      lies under at most six containers and no sensitive key comes back scrubbed, and what lies under
      seven, or under a sensitive key, is the marker. */
  lemma ScrubFromTop(a: Alphabet, v: Value, path: seq<nat>)
    requires OpenPath(a, v, path) && |path| <= 7
    ensures At(v, path).Some?
    ensures
      var w, out := At(v, path).value, Scrub(a, v, 0);
      && (|path| == 7 ==> At(out, path) == Some(Str("[REDACTED]")))
      && (|path| <= 6 && w.Str? ==> At(out, path) == Some(Str(ScrubText(a, w.text))))
      && (|path| <= 6 && w.Atom? ==> At(out, path) == Some(w))
      && (|path| <= 6 ==> forall i: nat | i < Size(w) && Hides(a, w, i) :: At(out, path + [i]) == Some(Str("[REDACTED]")))
  {
    hide ScrubText, IsSensitiveKey, Size, Child, At, OpenPath;
    ScrubAt(a, v, 0, path);
    var w, out := At(v, path).value, Scrub(a, v, 0);
    if |path| <= 6 {
      ScrubNode(a, w, |path|);
      forall i: nat | i < Size(w) && Hides(a, w, i) ensures At(out, path + [i]) == Some(Str("[REDACTED]")) {
        AtStep(out, path, i);
      }
    }
  }
}
