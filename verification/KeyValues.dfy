/** The `key=value` grammar of the provisioning verbs, as functions on text: one token at a time, a
    value perhaps quoted, and the remainder of a tail printed back after the team keys are taken out. */
module KeyValues {
  import opened Common

  const SPACE: char := ' '
  const EQ: char := '='
  const QUOTE: char := '"'

  /** A token; `val` is None for one without an equals sign. */
  datatype Token = Token(key: string, val: Option<string>)

  function SkipSpaces(s: string): (r: string)
    ensures |r| <= |s| && (r != "" ==> r[0] != SPACE)
    decreases |s|
  {
    if s != "" && s[0] == SPACE then SkipSpaces(s[1..]) else s
  }

  /** The length of the longest prefix of `s` without `a` or `b`. */
  function Until(s: string, a: char, b: char): (n: nat)
    ensures n <= |s| && (n < |s| ==> s[n] == a || s[n] == b)
    ensures forall i :: 0 <= i < n ==> s[i] != a && s[i] != b
    decreases |s|
  {
    if s == "" || s[0] == a || s[0] == b then 0 else 1 + Until(s[1..], a, b)
  }

  /** What is left after a value that ends at `n`: the one byte that ended it is consumed. */
  function After(s: string, n: nat): string
    requires n <= |s|
  {
    if n < |s| then s[n + 1..] else ""
  }

  /** A value and what follows it: in quotes up to the closing one, otherwise up to a space. */
  function Value(v: string): (r: (string, string))
    ensures |r.0| <= |v| && |r.1| <= |v|
  {
    if v != "" && v[0] == QUOTE then
      var q := Until(v[1..], QUOTE, QUOTE);
      (v[1..][..q], After(v[1..], q))
    else
      var m := Until(v, SPACE, SPACE);
      (v[..m], After(v, m))
  }

  /** The first token of a text that starts with one, and what follows it. */
  function First(s: string): (r: (Token, string))
    requires s != "" && s[0] != SPACE
    ensures |r.1| < |s|
  {
    var n := Until(s, EQ, SPACE);
    if n == |s| || s[n] == SPACE then (Token(s[..n], None), After(s, n))
    else (Token(s[..n], Some(Value(s[n + 1..]).0)), Value(s[n + 1..]).1)
  }

  function Tokens(s: string): seq<Token>
    decreases |s|
  {
    var t := SkipSpaces(s);
    if t == "" then [] else [First(t).0] + Tokens(First(t).1)
  }

  function Shown(t: Token): string { if t.val.None? then t.key else t.key + [EQ] + t.val.value }

  /** Tokens printed back, one space between them. */
  function Rendered(ts: seq<Token>): string {
    if ts == [] then "" else if |ts| == 1 then Shown(ts[0]) else Shown(ts[0]) + [SPACE] + Rendered(ts[1..])
  }

  /** What a token of this grammar can look like: a key without spaces or equals signs, not empty when
      there is no value; a value that does not begin with a quote, whether it was quoted or not. */
  predicate TokenOk(t: Token) {
    && SPACE !in t.key && EQ !in t.key
    && (t.val.None? ==> t.key != "")
    && (t.val.Some? && t.val.value != "" ==> t.val.value[0] != QUOTE)
  }

  lemma FirstOk(s: string)
    requires s != "" && s[0] != SPACE
    ensures TokenOk(First(s).0)
  {
  }

  lemma {:induction false} TokensOk(s: string)
    ensures forall i :: 0 <= i < |Tokens(s)| ==> TokenOk(Tokens(s)[i])
    decreases |s|
  {
    var t := SkipSpaces(s);
    if t != "" {
      FirstOk(t);
      TokensOk(First(t).1);
    }
  }

  /** A token whose printed form a space would cut short. */
  predicate Spaced(t: Token) { t.val.Some? && SPACE in t.val.value }

  lemma {:induction false} UntilIs(s: string, a: char, b: char, n: nat)
    requires n <= |s| && (forall i :: 0 <= i < n ==> s[i] != a && s[i] != b) && (n < |s| ==> s[n] == a || s[n] == b)
    ensures Until(s, a, b) == n
    decreases n
  {
    if n > 0 {
      assert s[0] != a && s[0] != b;
      UntilIs(s[1..], a, b, n - 1);
    }
  }

  lemma KeyedFirst(key: string, v: string)
    requires SPACE !in key && EQ !in key
    ensures var s := key + [EQ] + v; s[0] != SPACE && First(s) == (Token(key, Some(Value(v).0)), Value(v).1)
  {
    var s := key + [EQ] + v;
    var k := |key|;
    assert s[..k] == key && s[k] == EQ && s[k + 1..] == v;
    UntilIs(s, EQ, SPACE, k);
  }

  lemma BareValue(v: string, rest: string)
    requires SPACE !in v && (v != "" ==> v[0] != QUOTE) && (rest == "" || rest[0] == SPACE)
    ensures Value(v + rest) == (v, if rest == "" then "" else rest[1..])
  {
    UntilIs(v + rest, SPACE, SPACE, |v|);
    assert (v + rest)[..|v|] == v;
  }

  /** A quoted value ends at its closing quote, and what follows it is read from there on. */
  lemma QuotedFirst(key: string, v: string, rest: string)
    requires SPACE !in key && EQ !in key && QUOTE !in v
    ensures var s := key + [EQ] + ([QUOTE] + (v + ([QUOTE] + rest)));
            s[0] != SPACE && First(s) == (Token(key, Some(v)), rest)
  {
    var w := v + ([QUOTE] + rest);
    assert ([QUOTE] + w)[1..] == w;
    UntilIs(w, QUOTE, QUOTE, |v|);
    assert w[..|v|] == v && After(w, |v|) == rest;
    KeyedFirst(key, [QUOTE] + w);
  }

  /** One that is never closed runs to the end. */
  lemma UnclosedFirst(key: string, v: string)
    requires SPACE !in key && EQ !in key && QUOTE !in v
    ensures First(key + [EQ] + ([QUOTE] + v)) == (Token(key, Some(v)), "")
  {
    assert ([QUOTE] + v)[1..] == v;
    UntilIs(v, QUOTE, QUOTE, |v|);
    assert v[..|v|] == v;
    KeyedFirst(key, [QUOTE] + v);
  }

  /** A printed token without a space in its value is read back as itself, at the end of the text or
      before the space that separates it from the next. */
  lemma ShownReadsBack(t: Token, rest: string)
    requires TokenOk(t) && !Spaced(t)
    requires rest == "" || rest[0] == SPACE
    ensures var s := Shown(t) + rest;
            s != "" && s[0] != SPACE && First(s) == (t, if rest == "" then "" else rest[1..])
  {
    var s := Shown(t) + rest;
    if t.val.None? {
      assert s[..|t.key|] == t.key;
      UntilIs(s, EQ, SPACE, |t.key|);
    } else {
      assert s == t.key + [EQ] + (t.val.value + rest);
      KeyedFirst(t.key, t.val.value + rest);
      BareValue(t.val.value, rest);
    }
  }

  lemma TokensOfShown(t: Token, rest: string)
    requires TokenOk(t) && !Spaced(t)
    requires rest == "" || rest[0] == SPACE
    ensures Tokens(Shown(t) + rest) == [t] + Tokens(if rest == "" then "" else rest[1..])
  {
    ShownReadsBack(t, rest);
  }

  /** Tokens without spaces in their values survive being printed and read again. */
  lemma {:induction false} RenderedReadsBack(ts: seq<Token>)
    requires forall i :: 0 <= i < |ts| ==> TokenOk(ts[i]) && !Spaced(ts[i])
    ensures Tokens(Rendered(ts)) == ts
    decreases |ts|
  {
    if ts != [] {
      var rest := if |ts| == 1 then "" else [SPACE] + Rendered(ts[1..]);
      assert Rendered(ts) == Shown(ts[0]) + rest;
      TokensOfShown(ts[0], rest);
      RenderedReadsBack(ts[1..]);
      assert ts == [ts[0]] + ts[1..];
      if |ts| > 1 { assert rest[1..] == Rendered(ts[1..]); }
    }
  }

  /** A value with a space in it comes back cut at that space. */
  lemma SpacedIsCut(t: Token, rest: string)
    requires TokenOk(t) && Spaced(t)
    ensures var s := Shown(t) + rest;
            s != "" && s[0] != SPACE && First(s).0 != t
  {
    var v := t.val.value + rest;
    assert Shown(t) + rest == t.key + [EQ] + v;
    KeyedFirst(t.key, v);
    assert v[..|t.val.value|] == t.val.value;
    assert v[0] == t.val.value[0] != QUOTE;
    assert SPACE !in v[..Until(v, SPACE, SPACE)];
  }

  lemma {:induction false} SpacedNeverReadsBack(ts: seq<Token>, i: nat)
    requires i < |ts| && Spaced(ts[i]) && forall j :: 0 <= j < |ts| ==> TokenOk(ts[j])
    requires forall j :: 0 <= j < i ==> !Spaced(ts[j])
    ensures Tokens(Rendered(ts)) != ts
    decreases |ts|
  {
    var rest := if |ts| == 1 then "" else [SPACE] + Rendered(ts[1..]);
    assert Rendered(ts) == Shown(ts[0]) + rest;
    if i == 0 {
      SpacedIsCut(ts[0], rest);
    } else {
      ShownReadsBack(ts[0], rest);
      SpacedNeverReadsBack(ts[1..], i - 1);
      assert rest[1..] == Rendered(ts[1..]);
      assert Tokens(Rendered(ts)) == [ts[0]] + Tokens(Rendered(ts[1..]));
      assert ts == [ts[0]] + ts[1..];
    }
  }

  /** THE EXACT CONDITION. Printing tokens and reading them again gives the same tokens if and only if
      no value has a space in it: quotes are not printed back. */
  lemma RenderRoundTripsExactly(ts: seq<Token>)
    requires forall i :: 0 <= i < |ts| ==> TokenOk(ts[i])
    ensures Tokens(Rendered(ts)) == ts <==> forall i :: 0 <= i < |ts| ==> !Spaced(ts[i])
  {
    if forall i :: 0 <= i < |ts| ==> !Spaced(ts[i]) {
      RenderedReadsBack(ts);
    } else {
      var i := FirstSpaced(ts, 0);
      SpacedNeverReadsBack(ts, i);
    }
  }

  lemma FirstSpaced(ts: seq<Token>, from: nat) returns (i: nat)
    requires from <= |ts| && exists j :: from <= j < |ts| && Spaced(ts[j])
    requires forall j :: 0 <= j < from ==> !Spaced(ts[j])
    ensures i < |ts| && Spaced(ts[i]) && forall j :: 0 <= j < i ==> !Spaced(ts[j])
    decreases |ts| - from
  {
    if Spaced(ts[from]) { i := from; } else { i := FirstSpaced(ts, from + 1); }
  }

  lemma {:induction false} SkipSpacesPlain(s: string)
    requires QUOTE !in s
    ensures QUOTE !in SkipSpaces(s)
    decreases |s|
  {
    if s != "" && s[0] == SPACE { SkipSpacesPlain(s[1..]); }
  }

  /** Without quotes no value can hold a space. */
  lemma {:induction false} QuoteFreeIsUnspaced(s: string)
    requires QUOTE !in s
    ensures forall i :: 0 <= i < |Tokens(s)| ==> !Spaced(Tokens(s)[i])
    decreases |s|
  {
    SkipSpacesPlain(s);
    var t := SkipSpaces(s);
    if t != "" { QuoteFreeIsUnspaced(First(t).1); }
  }
}
