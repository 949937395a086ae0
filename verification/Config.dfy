/** `cors_origins`: a comma-separated setting and the list of origins it stands for. */
module Config {
  import opened Wrappers
  import opened Regex

  /** `s.split(",")`: always at least one field. */
  function Split(s: string): (fields: seq<string>)
    ensures fields != [] && forall f <- fields :: ',' !in f
  {
    if s == "" then [""]
    else if s[0] == ',' then [""] + Split(s[1..])
    else
      var tail := Split(s[1..]);
      [[s[0]] + tail[0]] + tail[1..]
  }

  function TrimLeft(s: string): string {
    if s != "" && IsSpace(s[0]) then TrimLeft(s[1..]) else s
  }

  function TrimRight(s: string): string {
    if s != "" && IsSpace(s[|s| - 1]) then TrimRight(s[..|s| - 1]) else s
  }

  /** `s.strip()` */
  function Strip(s: string): string {
    TrimRight(TrimLeft(s))
  }

  function StripAll(fields: seq<string>): seq<string> {
    if fields == [] then []
    else (if Strip(fields[0]) != "" then [Strip(fields[0])] else []) + StripAll(fields[1..])
  }

  function CorsOriginList(corsOrigins: string): seq<string> {
    StripAll(Split(corsOrigins))
  }

  /** What an element of the list can be. */
  predicate IsOrigin(s: string) {
    s != "" && ',' !in s && !IsSpace(s[0]) && !IsSpace(s[|s| - 1])
  }

  // ----- stripping ----------------------------------------------------------------------------

  lemma {:induction false} TrimLeftFacts(s: string)
    ensures TrimLeft(s) != "" ==> !IsSpace(TrimLeft(s)[0])
    ensures forall c <- TrimLeft(s) :: c in s
  {
    if s != "" && IsSpace(s[0]) {
      TrimLeftFacts(s[1..]);
    }
  }

  lemma {:induction false} TrimRightFacts(s: string)
    ensures TrimRight(s) != "" ==> !IsSpace(TrimRight(s)[|TrimRight(s)| - 1]) && s != "" && TrimRight(s)[0] == s[0]
    ensures forall c <- TrimRight(s) :: c in s
  {
    if s != "" && IsSpace(s[|s| - 1]) {
      TrimRightFacts(s[..|s| - 1]);
    }
  }

  lemma StripFacts(s: string)
    requires ',' !in s
    ensures Strip(s) != "" ==> IsOrigin(Strip(s))
    ensures IsOrigin(s) ==> Strip(s) == s
  {
    TrimLeftFacts(s);
    TrimRightFacts(TrimLeft(s));
  }

  lemma NotEmpty(s: string)
    ensures IsOrigin(s) ==> s != ""
  {
  }

  lemma {:induction false} StripAllFacts(fields: seq<string>)
    requires forall f <- fields :: ',' !in f
    ensures forall o <- StripAll(fields) :: IsOrigin(o)
    ensures (forall f <- fields :: IsOrigin(f)) ==> StripAll(fields) == fields
  {
    hide Strip, IsOrigin;
    if fields != [] {
      assert fields[0] in fields;
      StripFacts(fields[0]);
      assert forall f <- fields[1..] :: f in fields;
      StripAllFacts(fields[1..]);
      assert fields == [fields[0]] + fields[1..];
      NotEmpty(fields[0]);
    }
  }

  // ----- splitting and joining ----------------------------------------------------------------

  lemma {:induction false} SplitField(f: string, rest: string)
    requires ',' !in f
    ensures Split(f) == [f]
    ensures Split(f + "," + rest) == [f] + Split(rest)
  {
    var t := f + "," + rest;
    if f == "" {
      assert t[1..] == rest;
    } else {
      SplitField(f[1..], rest);
      assert t[1..] == f[1..] + "," + rest;
      assert f == [f[0]] + f[1..];
    }
  }

  lemma {:induction false} SplitJoin(fields: seq<string>)
    requires fields != [] && forall f <- fields :: ',' !in f
    ensures Split(Join(",", fields)) == fields
  {
    assert fields[0] in fields;
    if |fields| == 1 {
      SplitField(fields[0], "");
    } else {
      assert forall f <- fields[1..] :: f in fields;
      SplitJoin(fields[1..]);
      SplitField(fields[0], Join(",", fields[1..]));
      assert fields == [fields[0]] + fields[1..];
    }
  }

  // ----- the setting --------------------------------------------------------------------------

  /** Every element is non-empty, trimmed and free of commas. */
  lemma OriginsAreClean(corsOrigins: string)
    ensures forall o <- CorsOriginList(corsOrigins) :: IsOrigin(o)
  {
    StripAllFacts(Split(corsOrigins));
  }

  /** Any list of such elements is read back from its comma-joined form. */
  lemma OriginsRoundTrip(origins: seq<string>)
    requires forall o <- origins :: IsOrigin(o)
    ensures CorsOriginList(Join(",", origins)) == origins
  {
    if origins == [] {
      assert Split("") == [""];
      assert StripAll([""]) == [];
    } else {
      SplitJoin(origins);
      StripAllFacts(origins);
    }
  }

  /** So reading a setting, writing it back and reading it again gives the same list. */
  lemma SettingRoundTrip(corsOrigins: string)
    ensures CorsOriginList(Join(",", CorsOriginList(corsOrigins))) == CorsOriginList(corsOrigins)
  {
    OriginsAreClean(corsOrigins);
    OriginsRoundTrip(CorsOriginList(corsOrigins));
  }

  // ----- what the list is, on text alone ------------------------------------------------------

  predicate AllSpace(s: string) {
    forall c <- s :: IsSpace(c)
  }

  lemma SplitStep(s: string)
    requires s != ""
    ensures var tail := Split(s[1..]);
      Split(s) == if s[0] == ',' then [""] + tail else [[s[0]] + tail[0]] + tail[1..]
  {
  }

  lemma FirstOfTwo(xs: seq<string>, ys: seq<string>)
    requires xs != []
    ensures (xs + ys)[0] == xs[0] && (xs + ys)[1..] == xs[1..] + ys
  {
  }

  lemma FieldsAssociate(f: string, xs: seq<string>, ys: seq<string>)
    ensures [f] + (xs + ys) == ([f] + xs) + ys
  {
  }

  lemma EmptyField()
    ensures Split("") == [""]
  {
  }

  lemma {:induction false} SplitAt(x: string, y: string)
    ensures Split(x + "," + y) == Split(x) + Split(y)
  {
    hide Split;
    var t := x + "," + y;
    SplitStep(t);
    if x == "" {
      assert t[1..] == y;
      EmptyField();
    } else {
      SplitAt(x[1..], y);
      SplitStep(x);
      assert t[1..] == x[1..] + "," + y && t[0] == x[0];
      FirstOfTwo(Split(x[1..]), Split(y));
      if x[0] == ',' {
        FieldsAssociate("", Split(x[1..]), Split(y));
      } else {
        FieldsAssociate([x[0]] + Split(x[1..])[0], Split(x[1..])[1..], Split(y));
      }
    }
  }

  lemma {:induction false} StripAllConcat(xs: seq<string>, ys: seq<string>)
    ensures StripAll(xs + ys) == StripAll(xs) + StripAll(ys)
  {
    hide Strip;
    if xs == [] {
      assert xs + ys == ys;
    } else {
      StripAllConcat(xs[1..], ys);
      assert (xs + ys)[1..] == xs[1..] + ys && (xs + ys)[0] == xs[0];
    }
  }

  /** A comma separates: the list of two settings joined by one is the one list after the other. */
  lemma CommaSeparates(x: string, y: string)
    ensures CorsOriginList(x + "," + y) == CorsOriginList(x) + CorsOriginList(y)
  {
    hide Split, StripAll;
    SplitAt(x, y);
    StripAllConcat(Split(x), Split(y));
  }

  lemma {:induction false} TrimLeftOf(u: string, rest: string)
    requires AllSpace(u) && (rest != "" ==> !IsSpace(rest[0]))
    ensures TrimLeft(u + rest) == rest
  {
    hide IsSpace;
    if u == "" {
      assert u + rest == rest;
    } else {
      assert u[0] in u && forall c <- u[1..] :: c in u;
      assert (u + rest)[1..] == u[1..] + rest;
      TrimLeftOf(u[1..], rest);
    }
  }

  lemma {:induction false} TrimRightOf(start: string, v: string)
    requires AllSpace(v) && (start != "" ==> !IsSpace(start[|start| - 1]))
    ensures TrimRight(start + v) == start
    decreases |v|
  {
    hide IsSpace;
    if v == "" {
      assert start + v == start;
    } else {
      var n := |v| - 1;
      assert v[n] in v && forall c <- v[..n] :: c in v;
      assert (start + v)[..|start| + n] == start + v[..n];
      TrimRightOf(start, v[..n]);
    }
  }

  lemma NoComma(s: string)
    requires AllSpace(s)
    ensures ',' !in s
  {
  }

  /** White space around an origin is dropped, and the origin is not. */
  lemma PaddedOrigin(u: string, o: string, v: string)
    requires AllSpace(u) && IsOrigin(o) && AllSpace(v)
    ensures CorsOriginList(u + o + v) == [o]
  {
    hide IsSpace, AllSpace;
    NoComma(u);
    NoComma(v);
    SplitField(u + o + v, "");
    assert u + o + v == u + (o + v) && (o + v)[0] == o[0];
    TrimLeftOf(u, o + v);
    TrimRightOf(o, v);
    assert Strip(u + o + v) == o;
    assert StripAll([u + o + v]) == [o] + StripAll([]);
  }

  /** A field with nothing but white space is no origin. */
  lemma BlankIsNoOrigin(u: string)
    requires AllSpace(u)
    ensures CorsOriginList(u) == []
  {
    hide IsSpace, AllSpace;
    NoComma(u);
    SplitField(u, "");
    assert u + "" == u;
    TrimLeftOf(u, "");
    assert Strip(u) == "";
    assert StripAll([u]) == StripAll([]);
  }
}
