/** The processors of `configure_logging` that touch what an event says: the request context is written
    into the event, and then the event is redacted. */
module Logging {
  import opened Wrappers
  import opened Regex
  import opened Redaction
  import opened NestedScrub
  import opened ScrubTheorems

  type Fields = seq<(string, Value)>

  predicate DistinctKeys(fields: Fields) {
    forall i, j | 0 <= i < j < |fields| :: fields[i].0 != fields[j].0
  }

  /** `fields[key] = value` on a dictionary that keeps its insertion order. */
  function Assign(fields: Fields, key: string, value: Value): Fields {
    if fields == [] then [(key, value)]
    else if fields[0].0 == key then [(key, value)] + fields[1..]
    else [fields[0]] + Assign(fields[1..], key, value)
  }

  function Lookup(fields: Fields, key: string): Option<Value> {
    if fields == [] then None
    else if fields[0].0 == key then Some(fields[0].1)
    else Lookup(fields[1..], key)
  }

  /** Every key of `before` is still there, in its place. */
  predicate KeepsKeys(before: Fields, after: Fields) {
    |before| <= |after| && forall i | 0 <= i < |before| :: after[i].0 == before[i].0
  }

  lemma {:induction false} LookupAssign(fields: Fields, key: string, value: Value, other: string)
    ensures Lookup(Assign(fields, key, value), other) == if other == key then Some(value) else Lookup(fields, other)
  {
    if fields != [] && fields[0].0 != key {
      LookupAssign(fields[1..], key, value, other);
    }
  }

  lemma {:induction false} AssignKeys(fields: Fields, key: string, value: Value, i: nat)
    requires i < |Assign(fields, key, value)|
    ensures |fields| <= |Assign(fields, key, value)| <= |fields| + 1
    ensures i < |fields| ==> Assign(fields, key, value)[i].0 == fields[i].0
    ensures i == |fields| ==> Assign(fields, key, value)[i].0 == key && forall f <- fields :: f.0 != key
  {
    if fields != [] && fields[0].0 != key {
      if i > 0 {
        AssignKeys(fields[1..], key, value, i - 1);
      } else {
        AssignKeys(fields[1..], key, value, 0);
      }
    }
  }

  lemma AssignKeepsDistinct(fields: Fields, key: string, value: Value)
    requires DistinctKeys(fields)
    ensures DistinctKeys(Assign(fields, key, value))
  {
    var r := Assign(fields, key, value);
    forall i, j | 0 <= i < j < |r| ensures r[i].0 != r[j].0 {
      AssignKeys(fields, key, value, i);
      AssignKeys(fields, key, value, j);
    }
  }

  lemma {:induction false} AssignFields(fields: Fields, key: string, value: Value)
    ensures KeepsKeys(fields, Assign(fields, key, value))
    ensures forall f <- Assign(fields, key, value) :: f in fields || f == (key, value)
  {
    if fields != [] && fields[0].0 != key {
      AssignFields(fields[1..], key, value);
    }
  }

  // ----- redact_processor ---------------------------------------------------------------------

  function Redact(a: Alphabet, fields: Fields): Fields {
    seq(|fields|, i requires 0 <= i < |fields| =>
      (fields[i].0, if IsSensitiveKey(a, fields[i].0) then Str(REDACTED) else Scrub(a, fields[i].1, 0)))
  }

  function EventValue(fields: Fields): Value {
    Dict(seq(|fields|, i requires 0 <= i < |fields| => (Name(fields[i].0), fields[i].1)))
  }

  /** Redacting an event is scrubbing it as a dictionary, one level above the rest. */
  lemma RedactIsScrub(a: Alphabet, fields: Fields)
    ensures EventValue(Redact(a, fields)) == Scrub(a, EventValue(fields), -1)
  {
  }

  lemma RedactKeepsKeys(a: Alphabet, fields: Fields)
    ensures |Redact(a, fields)| == |fields| && KeepsKeys(fields, Redact(a, fields))
    ensures DistinctKeys(fields) ==> DistinctKeys(Redact(a, fields))
  {
  }

  lemma EventValueInjective(x: Fields, y: Fields)
    ensures EventValue(x) == EventValue(y) ==> x == y
  {
    if EventValue(x) == EventValue(y) {
      assert |x| == |EventValue(x).items| == |EventValue(y).items| == |y|;
      forall i | 0 <= i < |x| ensures x[i] == y[i] {
        assert EventValue(x).items[i] == EventValue(y).items[i];
      }
    }
  }

  /** Two events are logged alike exactly when they look alike: nothing under a sensitive key, at any
      depth, and nothing below the cap can be told from the log. */
  lemma LogTellsExactly(a: Alphabet, x: Fields, y: Fields)
    ensures Redact(a, x) == Redact(a, y) <==> LookAlike(a, EventValue(x), EventValue(y), -1)
  {
    hide ScrubText, IsSensitiveKey, LookAlike;
    RedactIsScrub(a, x);
    RedactIsScrub(a, y);
    OutputTellsExactly(a, EventValue(x), EventValue(y), -1);
    EventValueInjective(Redact(a, x), Redact(a, y));
  }

  lemma KeepsKeysTwice(x: Fields, y: Fields, z: Fields)
    requires KeepsKeys(x, y) && KeepsKeys(y, z)
    ensures KeepsKeys(x, z)
  {
  }

  /** What the log shows for a value under a key. */
  function Logged(a: Alphabet, key: string, v: Value): Value {
    if IsSensitiveKey(a, key) then Str(REDACTED) else Scrub(a, v, 0)
  }

  lemma {:induction false} LookupRedact(a: Alphabet, fields: Fields, key: string)
    ensures Lookup(Redact(a, fields), key) ==
      match Lookup(fields, key) case None => None case Some(v) => Some(Logged(a, key, v))
  {
    hide Scrub, IsSensitiveKey;
    if fields != [] {
      assert Redact(a, fields)[1..] == Redact(a, fields[1..]);
      LookupRedact(a, fields[1..], key);
    }
  }

  lemma AllAreLogged(a: Alphabet, fields: Fields)
    ensures forall key: string ::
              Lookup(Redact(a, fields), key) == match Lookup(fields, key) case None => None case Some(v) => Some(Logged(a, key, v))
  {
    hide Redact, Logged, Lookup;
    forall key: string
      ensures Lookup(Redact(a, fields), key) == match Lookup(fields, key) case None => None case Some(v) => Some(Logged(a, key, v))
    {
      LookupRedact(a, fields, key);
    }
  }

  /** No string in a logged event whose strings are ASCII, injected ids included, holds a credential. */
  lemma LogIsClean(a: Alphabet, fields: Fields, path: seq<nat>)
    requires forall f <- fields :: AllAscii(f.1)
    requires At(EventValue(Redact(a, fields)), path).Some? && At(EventValue(Redact(a, fields)), path).value.Str?
    ensures Clean(a, At(EventValue(Redact(a, fields)), path).value.text)
  {
    hide Scrub, Clean, Redact, At;
    RedactIsScrub(a, fields);
    forall i: nat | i < Size(EventValue(fields)) ensures AllAscii(Child(EventValue(fields), i)) {
      assert fields[i] in fields;
    }
    AsciiOutputIsClean(a, EventValue(fields), -1, path);
  }

  /** No string at any depth holds a credential. */
  ghost predicate HoldsNoCredential(a: Alphabet, v: Value) {
    forall path: seq<nat> :: At(v, path).Some? && At(v, path).value.Str? ==> Clean(a, At(v, path).value.text)
  }

  lemma EventIsClean(a: Alphabet, fields: Fields)
    requires forall f <- fields :: AllAscii(f.1)
    ensures HoldsNoCredential(a, EventValue(Redact(a, fields)))
  {
    hide Clean, At, Redact, EventValue, AllAscii;
    forall path: seq<nat> | At(EventValue(Redact(a, fields)), path).Some? && At(EventValue(Redact(a, fields)), path).value.Str?
      ensures Clean(a, At(EventValue(Redact(a, fields)), path).value.text)
    {
      LogIsClean(a, fields, path);
    }
  }

  // ----- the names of the ids -----------------------------------------------------------------

  lemma {:induction false} LowerOfLower(a: Alphabet, s: string)
    requires forall c <- s :: 'a' <= c <= 'z' || c == '_'
    ensures Lower(a, s) == s
  {
    if s != "" {
      assert s[0] in s && forall c <- s[1..] :: c in s;
      assert LowerChar(a, s[0]) == [s[0]];
      LowerOfLower(a, s[1..]);
      assert s == [s[0]] + s[1..];
    }
  }

  lemma LettersInside(s: string, part: string, i: nat, c: char)
    requires i <= |s| && part <= s[i..] && c in part
    ensures c in s
  {
    var j :| 0 <= j < |part| && part[j] == c;
    assert s[i..][j] == s[i + j];
  }

  lemma LetterIsMissing(s: string, part: string, c: char)
    requires c in part && c !in s
    ensures !Contains(s, part)
  {
    forall i | 0 <= i <= |s| ensures !(part <= s[i..]) {
      if part <= s[i..] {
        LettersInside(s, part, i, c);
      }
    }
  }

  /** A letter of the sensitive name that the other name does not have. */
  function MissingLetter(key: string, part: string): char {
    if part in {"password", "passwd", "private_key"} then 'p'
    else if part == "authorization" then 'z'
    else if key == "actor_id" then
      (if part == "secret" then 's' else if part in {"token", "cookie"} then 'k' else if part == "otp" then 'p' else 'e')
    else if part in {"token", "otp"} then 'o'
    else 'c'
  }

  lemma SomeLetterIsMissing(key: string, part: string)
    requires key == "request_id" || key == "tenant_id" || key == "actor_id"
    requires part in SENSITIVE_KEY_PARTS
    ensures !Contains(key, part)
  {
    var c := MissingLetter(key, part);
    assert c in part;
    LetterIsMissing(key, part, c);
  }

  /** Some letter of every sensitive name is missing from each of these. */
  lemma IdNamesAreOpen(a: Alphabet, key: string)
    requires key == "request_id" || key == "tenant_id" || key == "actor_id"
    ensures !IsSensitiveKey(a, key)
  {
    hide Lower, Contains;
    LowerOfLower(a, key);
    forall part <- SENSITIVE_KEY_PARTS ensures !Contains(key, part) {
      SomeLetterIsMissing(key, part);
    }
  }

  lemma IdsAreScrubbed(a: Alphabet)
    ensures forall key: string, id: string | key in {"request_id", "tenant_id", "actor_id"} ::
              Logged(a, key, Str(id)) == Str(ScrubText(a, id))
  {
    hide IsSensitiveKey, ScrubText;
    IdNamesAreOpen(a, "request_id");
    IdNamesAreOpen(a, "tenant_id");
    IdNamesAreOpen(a, "actor_id");
  }

  lemma TextIsAscii()
    ensures forall s: string :: AllAscii(Str(s)) <==> IsAscii(s)
  {
  }

  // ----- the processors -----------------------------------------------------------------------

  /** The three context variables; `None` and the empty string both count as unset. */
  class RequestContext {
    var requestId: Option<string>
    var tenantId: Option<string>
    var actorId: Option<string>

    constructor ()
      ensures requestId == None && tenantId == None && actorId == None
    {
      requestId, tenantId, actorId := None, None, None;
    }
  }

  predicate IsSet(id: Option<string>) {
    id.Some? && id.value != ""
  }

  predicate SetsAscii(id: Option<string>) {
    IsSet(id) ==> IsAscii(id.value)
  }

  class LogEvent {
    var fields: Fields

    constructor (fields: Fields)
      ensures this.fields == fields
    {
      this.fields := fields;
    }

    method SetField(key: string, value: Value)
      requires DistinctKeys(fields)
      modifies this
      ensures fields == Assign(old(fields), key, value) && DistinctKeys(fields) && KeepsKeys(old(fields), fields)
      ensures forall other: string :: Lookup(fields, other) == if other == key then Some(value) else old(Lookup(fields, other))
      ensures forall f <- fields :: f in old(fields) || f == (key, value)
    {
      AssignKeepsDistinct(fields, key, value);
      AssignFields(fields, key, value);
      forall other: string
        ensures Lookup(Assign(fields, key, value), other) == if other == key then Some(value) else Lookup(fields, other)
      {
        LookupAssign(fields, key, value, other);
      }
      fields := Assign(fields, key, value);
    }

    /** One step of `_inject_context`: an id that is set overwrites or extends the event. */
    method SetId(key: string, id: Option<string>)
      requires DistinctKeys(fields)
      modifies this
      ensures DistinctKeys(fields) && KeepsKeys(old(fields), fields)
      ensures forall other: string ::
                Lookup(fields, other) == if other == key && IsSet(id) then Some(Str(id.value)) else old(Lookup(fields, other))
      ensures forall f <- fields :: f in old(fields) || (IsSet(id) && f == (key, Str(id.value)))
    {
      if IsSet(id) {
        SetField(key, Str(id.value));
      }
    }

    /** `_inject_context`: the ids that are set overwrite or extend the event; every other field stays. */
    method InjectContext(ctx: RequestContext)
      requires DistinctKeys(fields)
      modifies this
      ensures DistinctKeys(fields) && KeepsKeys(old(fields), fields)
      ensures ctx.requestId.Some? && ctx.requestId.value != "" ==> Lookup(fields, "request_id") == Some(Str(ctx.requestId.value))
      ensures ctx.tenantId.Some? && ctx.tenantId.value != "" ==> Lookup(fields, "tenant_id") == Some(Str(ctx.tenantId.value))
      ensures ctx.actorId.Some? && ctx.actorId.value != "" ==> Lookup(fields, "actor_id") == Some(Str(ctx.actorId.value))
      ensures forall key: string ::
                Lookup(fields, key) == old(Lookup(fields, key))
                || (key == "request_id" && ctx.requestId.Some? && ctx.requestId.value != "")
                || (key == "tenant_id" && ctx.tenantId.Some? && ctx.tenantId.value != "")
                || (key == "actor_id" && ctx.actorId.Some? && ctx.actorId.value != "")
      ensures forall f <- fields ::
                || f in old(fields)
                || (ctx.requestId.Some? && ctx.requestId.value != "" && f == ("request_id", Str(ctx.requestId.value)))
                || (ctx.tenantId.Some? && ctx.tenantId.value != "" && f == ("tenant_id", Str(ctx.tenantId.value)))
                || (ctx.actorId.Some? && ctx.actorId.value != "" && f == ("actor_id", Str(ctx.actorId.value)))
    {
      hide Lookup, KeepsKeys, DistinctKeys;
      SetId("request_id", ctx.requestId);
      ghost var first := fields;
      SetId("tenant_id", ctx.tenantId);
      ghost var second := fields;
      SetId("actor_id", ctx.actorId);
      KeepsKeysTwice(old(fields), first, second);
      KeepsKeysTwice(old(fields), second, fields);
    }

    /** The two processors in their order in the chain. The ids that are set are logged scrubbed; every other
        field of the event given is logged under its key, redacted, and none is dropped or moved; and if
        that event and the ids are ASCII, no string in what is logged holds a credential. */
    method Process(a: Alphabet, ctx: RequestContext) returns (out: Fields)
      requires DistinctKeys(fields)
      modifies this
      ensures DistinctKeys(out) && KeepsKeys(old(fields), out)
      ensures ctx.requestId.Some? && ctx.requestId.value != "" ==> Lookup(out, "request_id") == Some(Str(ScrubText(a, ctx.requestId.value)))
      ensures ctx.tenantId.Some? && ctx.tenantId.value != "" ==> Lookup(out, "tenant_id") == Some(Str(ScrubText(a, ctx.tenantId.value)))
      ensures ctx.actorId.Some? && ctx.actorId.value != "" ==> Lookup(out, "actor_id") == Some(Str(ScrubText(a, ctx.actorId.value)))
      ensures forall key: string ::
                || (match old(Lookup(fields, key))
                    case None => Lookup(out, key) == None
                    case Some(v) => Lookup(out, key) == Some(Logged(a, key, v)))
                || (key == "request_id" && ctx.requestId.Some? && ctx.requestId.value != "")
                || (key == "tenant_id" && ctx.tenantId.Some? && ctx.tenantId.value != "")
                || (key == "actor_id" && ctx.actorId.Some? && ctx.actorId.value != "")
      ensures (forall f <- old(fields) :: AllAscii(f.1))
                && SetsAscii(ctx.requestId) && SetsAscii(ctx.tenantId) && SetsAscii(ctx.actorId)
              ==> HoldsNoCredential(a, EventValue(out))
    {
      hide ScrubText, Scrub, IsSensitiveKey, Redact, EventValue, HoldsNoCredential, AllAscii, IsAscii;
      hide Lookup, KeepsKeys, DistinctKeys, Logged;
      InjectContext(ctx);
      out := Redact(a, fields);
      RedactKeepsKeys(a, fields);
      KeepsKeysTwice(old(fields), fields, out);
      IdsAreScrubbed(a);
      AllAreLogged(a, fields);
      TextIsAscii();
      if forall f <- fields :: AllAscii(f.1) {
        EventIsClean(a, fields);
      }
    }
  }
}
