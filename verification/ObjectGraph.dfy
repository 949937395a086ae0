/** `scrub` on what it really walks: an object graph, in which a container may hold itself. The depth cap
    is the only thing that stops the walk there. */
module ObjectGraph {
  import opened Regex
  import opened Redaction
  import opened NestedScrub

  type Ref = nat

  datatype Object =
    | StrObject(text: string)
    | DictObject(items: seq<(Key, Ref)>)
    | ListObject(elems: seq<Ref>)
    | TupleObject(elems: seq<Ref>)
    | AtomObject(id: int)

  type Heap = map<Ref, Object>

  function Targets(o: Object): seq<Ref> {
    match o
    case DictObject(items) => seq(|items|, i requires 0 <= i < |items| => items[i].1)
    case ListObject(elems) => elems
    case TupleObject(elems) => elems
    case _ => []
  }

  /** Every reference points to an object. */
  ghost predicate Closed(h: Heap) {
    forall r: Ref, i: nat | r in h && i < |Targets(h[r])| :: Targets(h[r])[i] in h
  }

  ghost function ScrubObject(a: Alphabet, h: Heap, r: Ref, depth: int): Value
    requires Closed(h) && r in h
    decreases if depth > MAX_DEPTH then 0 else MAX_DEPTH + 1 - depth
  {
    if depth > MAX_DEPTH then Str(REDACTED)
    else
      match h[r]
      case StrObject(s) => Str(ScrubText(a, s))
      case DictObject(items) =>
        Dict(seq(|items|, i requires 0 <= i < |items| =>
          assert items[i].1 == Targets(h[r])[i];
          (items[i].0, if IsSensitiveKey(a, items[i].0.text) then Str(REDACTED) else ScrubObject(a, h, items[i].1, depth + 1))))
      case ListObject(elems) =>
        List(seq(|elems|, i requires 0 <= i < |elems| => assert elems[i] == Targets(h[r])[i]; ScrubObject(a, h, elems[i], depth + 1)))
      case TupleObject(elems) =>
        List(seq(|elems|, i requires 0 <= i < |elems| => assert elems[i] == Targets(h[r])[i]; ScrubObject(a, h, elems[i], depth + 1)))
      case AtomObject(id) => Atom(id)
  }

  /** The graph unrolled into a tree, `n` levels deep. */
  ghost function Unrolled(h: Heap, r: Ref, n: nat): Value
    requires Closed(h) && r in h
    decreases n
  {
    if n == 0 then Atom(0)
    else
      match h[r]
      case StrObject(s) => Str(s)
      case DictObject(items) =>
        Dict(seq(|items|, i requires 0 <= i < |items| =>
          assert items[i].1 == Targets(h[r])[i]; (items[i].0, Unrolled(h, items[i].1, n - 1))))
      case ListObject(elems) =>
        List(seq(|elems|, i requires 0 <= i < |elems| => assert elems[i] == Targets(h[r])[i]; Unrolled(h, elems[i], n - 1)))
      case TupleObject(elems) =>
        Tuple(seq(|elems|, i requires 0 <= i < |elems| => assert elems[i] == Targets(h[r])[i]; Unrolled(h, elems[i], n - 1)))
      case AtomObject(id) => Atom(id)
  }

  lemma TargetIn(h: Heap, r: Ref, i: nat)
    requires Closed(h) && r in h && i < |Targets(h[r])|
    ensures Targets(h[r])[i] in h
  {
  }

  lemma UnrolledStep(a: Alphabet, h: Heap, r: Ref, depth: int, n: nat)
    requires Closed(h) && r in h && n > 0 && depth <= MAX_DEPTH
    requires forall i: nat | i < |Targets(h[r])| ::
               ScrubObject(a, h, Targets(h[r])[i], depth + 1) == Scrub(a, Unrolled(h, Targets(h[r])[i], n - 1), depth + 1)
    ensures ScrubObject(a, h, r, depth) == Scrub(a, Unrolled(h, r, n), depth)
  {
    hide ScrubText, IsSensitiveKey;
    var x, y := ScrubObject(a, h, r, depth), Scrub(a, Unrolled(h, r, n), depth);
    match h[r] {
      case DictObject(items) =>
        forall i | 0 <= i < |items| ensures x.items[i] == y.items[i] {
          assert items[i].1 == Targets(h[r])[i];
        }
        assert x.items == y.items;
      case ListObject(elems) =>
        assert forall i: nat | i < |elems| :: Targets(h[r])[i] == elems[i] && x.elems[i] == y.elems[i];
        assert x.elems == y.elems;
      case TupleObject(elems) =>
        assert forall i: nat | i < |elems| :: Targets(h[r])[i] == elems[i] && x.elems[i] == y.elems[i];
        assert x.elems == y.elems;
      case _ =>
    }
  }

  /** What `scrub` returns for an object, cyclic or not, is what it returns for any unrolling that goes
      down to the cap; so everything proved about values holds of objects. */
  lemma {:induction false} ScrubUnrolled(a: Alphabet, h: Heap, r: Ref, depth: int, n: nat)
    requires Closed(h) && r in h && n >= MAX_DEPTH + 1 - depth
    ensures ScrubObject(a, h, r, depth) == Scrub(a, Unrolled(h, r, n), depth)
    decreases if depth > MAX_DEPTH then 0 else MAX_DEPTH + 1 - depth
  {
    hide ScrubText, IsSensitiveKey, Closed;
    if depth <= MAX_DEPTH {
      forall i: nat | i < |Targets(h[r])|
        ensures Targets(h[r])[i] in h
        ensures ScrubObject(a, h, Targets(h[r])[i], depth + 1) == Scrub(a, Unrolled(h, Targets(h[r])[i], n - 1), depth + 1)
      {
        TargetIn(h, r, i);
        ScrubUnrolled(a, h, Targets(h[r])[i], depth + 1, n - 1);
      }
      UnrolledStep(a, h, r, depth, n);
    }
  }

  // ----- cost ---------------------------------------------------------------------------------

  /** How many times `scrub` is called for an object. */
  ghost function Calls(a: Alphabet, h: Heap, r: Ref, depth: int): nat
    requires Closed(h) && r in h
    decreases if depth > MAX_DEPTH then 0 else MAX_DEPTH + 1 - depth, 1, 0
  {
    if depth > MAX_DEPTH then 1 else 1 + CallsBelow(a, h, r, depth, 0)
  }

  /** The calls made for children `i` and up. */
  ghost function CallsBelow(a: Alphabet, h: Heap, r: Ref, depth: int, i: nat): nat
    requires Closed(h) && r in h && depth <= MAX_DEPTH && i <= |Targets(h[r])|
    decreases MAX_DEPTH + 1 - depth, 0, |Targets(h[r])| - i
  {
    if i == |Targets(h[r])| then 0
    else
      (if h[r].DictObject? && IsSensitiveKey(a, h[r].items[i].0.text) then 0 else Calls(a, h, Targets(h[r])[i], depth + 1))
      + CallsBelow(a, h, r, depth, i + 1)
  }

  /** 1 + b + b^2 + ... + b^n */
  function Geometric(b: nat, n: nat): nat {
    if n == 0 then 1 else 1 + b * Geometric(b, n - 1)
  }

  /** A log call cannot hang: with at most `b` children an object, there are at most 1 + b + ... + b^7
      calls, however the graph is tied. */
  lemma {:induction false} CallsBounded(a: Alphabet, h: Heap, r: Ref, depth: int, b: nat)
    requires Closed(h) && r in h && depth <= MAX_DEPTH + 1
    requires forall x <- h :: |Targets(h[x])| <= b
    ensures Calls(a, h, r, depth) <= Geometric(b, 7 - depth)
    decreases MAX_DEPTH + 1 - depth, 1, 0
  {
    hide IsSensitiveKey, Closed;
    if depth <= MAX_DEPTH {
      CallsBelowBounded(a, h, r, depth, 0, b);
      var g := Geometric(b, MAX_DEPTH - depth);
      assert |Targets(h[r])| * g <= b * g;
    }
  }

  lemma {:induction false} CallsBelowBounded(a: Alphabet, h: Heap, r: Ref, depth: int, i: nat, b: nat)
    requires Closed(h) && r in h && depth <= MAX_DEPTH && i <= |Targets(h[r])|
    requires forall x <- h :: |Targets(h[x])| <= b
    ensures CallsBelow(a, h, r, depth, i) <= (|Targets(h[r])| - i) * Geometric(b, MAX_DEPTH - depth)
    decreases MAX_DEPTH + 1 - depth, 0, |Targets(h[r])| - i
  {
    hide IsSensitiveKey, Closed, Geometric;
    var g := Geometric(b, MAX_DEPTH - depth);
    var k := |Targets(h[r])| - i;
    if k > 0 {
      TargetIn(h, r, i);
      CallsBounded(a, h, Targets(h[r])[i], depth + 1, b);
      CallsBelowBounded(a, h, r, depth, i + 1, b);
      assert k * g == g + (k - 1) * g;
    }
  }
}
