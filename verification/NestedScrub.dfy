/** `scrub` on nested values: what is replaced, what survives, and where. */
module NestedScrub {
  import opened Regex
  import opened Redaction

  // ----- keys ---------------------------------------------------------------------------------

  const SENSITIVE_KEY_PARTS := [
    "password", "passwd", "secret", "token", "authorization", "cookie", "credential", "private_key", "code", "otp"
  ]

  function LowerChar(a: Alphabet, c: char): string {
    if c < '\U{0080}' then [AsciiLower(c)] else a.nonAsciiLower(c)
  }

  /** `s.lower()` */
  function Lower(a: Alphabet, s: string): string {
    if s == "" then "" else LowerChar(a, s[0]) + Lower(a, s[1..])
  }

  predicate Contains(s: string, part: string) {
    exists i | 0 <= i <= |s| :: part <= s[i..]
  }

  predicate IsSensitiveKey(a: Alphabet, key: string) {
    var lowered := Lower(a, key);
    exists part <- SENSITIVE_KEY_PARTS :: Contains(lowered, part)
  }

  // ----- values -------------------------------------------------------------------------------

  /** A dictionary key: a string, or any other hashable with the text `str` gives for it. */
  datatype Key = Name(text: string) | Hashable(id: int, text: string)

  /** A value, with everything that is neither text nor a container as an atom. Dictionaries keep their
      insertion order. */
  datatype Value =
    | Str(text: string)
    | Dict(items: seq<(Key, Value)>)
    | List(elems: seq<Value>)
    | Tuple(elems: seq<Value>)
    | Atom(id: int)

  const MAX_DEPTH := 6

  function Scrub(a: Alphabet, v: Value, depth: int): Value
    decreases if depth > MAX_DEPTH then 0 else MAX_DEPTH + 1 - depth
  {
    if depth > MAX_DEPTH then Str(REDACTED)
    else
      match v
      case Str(s) => Str(ScrubText(a, s))
      case Dict(items) =>
        Dict(seq(|items|, i requires 0 <= i < |items| =>
          (items[i].0, if IsSensitiveKey(a, items[i].0.text) then Str(REDACTED) else Scrub(a, items[i].1, depth + 1))))
      case List(elems) => List(seq(|elems|, i requires 0 <= i < |elems| => Scrub(a, elems[i], depth + 1)))
      case Tuple(elems) => List(seq(|elems|, i requires 0 <= i < |elems| => Scrub(a, elems[i], depth + 1)))
      case Atom(_) => v
  }

  // ----- one view of all containers -----------------------------------------------------------

  function Size(v: Value): nat {
    match v case Dict(items) => |items| case List(elems) => |elems| case Tuple(elems) => |elems| case _ => 0
  }

  function Child(v: Value, i: nat): (c: Value)
    requires i < Size(v)
    ensures c < v
  {
    match v case Dict(items) => items[i].1 case List(elems) => elems[i] case Tuple(elems) => elems[i]
  }

  /** Is child `i` stored under a sensitive key? */
  predicate Hides(a: Alphabet, v: Value, i: nat)
    requires i < Size(v)
  {
    v.Dict? && IsSensitiveKey(a, v.items[i].0.text)
  }

  /** What a value shows apart from its children; a tuple comes back as a list. */
  datatype Label = TextLabel(text: string) | DictLabel(keys: seq<Key>) | ListLabel(size: nat) | AtomLabel(id: int)

  function LabelOf(v: Value): Label {
    match v
    case Str(s) => TextLabel(s)
    case Dict(items) => DictLabel(seq(|items|, i requires 0 <= i < |items| => items[i].0))
    case List(elems) => ListLabel(|elems|)
    case Tuple(elems) => ListLabel(|elems|)
    case Atom(id) => AtomLabel(id)
  }

  function ScrubLabel(a: Alphabet, l: Label): Label {
    match l case TextLabel(s) => TextLabel(ScrubText(a, s)) case _ => l
  }

  lemma ScrubNode(a: Alphabet, v: Value, depth: int)
    requires depth <= MAX_DEPTH
    ensures LabelOf(Scrub(a, v, depth)) == ScrubLabel(a, LabelOf(v))
    ensures Size(Scrub(a, v, depth)) == Size(v) && !Scrub(a, v, depth).Tuple?
    ensures forall i: nat | i < Size(v) ::
              Child(Scrub(a, v, depth), i) == if Hides(a, v, i) then Str(REDACTED) else Scrub(a, Child(v, i), depth + 1)
  {
  }

  /** A tuple-free value is determined by its label and children. */
  lemma NodeExtensionality(v: Value, w: Value)
    requires LabelOf(v) == LabelOf(w) && !v.Tuple? && !w.Tuple? && Size(v) == Size(w)
    requires forall i: nat | i < Size(v) :: Child(v, i) == Child(w, i)
    ensures v == w
  {
    match v {
      case Dict(items) =>
        forall i | 0 <= i < |items| ensures items[i] == w.items[i] {
          assert LabelOf(v).keys[i] == LabelOf(w).keys[i];
          assert Child(v, i) == Child(w, i);
        }
        assert items == w.items;
      case List(elems) =>
        forall i | 0 <= i < |elems| ensures elems[i] == w.elems[i] {
          assert Child(v, i) == Child(w, i);
        }
        assert elems == w.elems;
      case _ =>
    }
  }
}
