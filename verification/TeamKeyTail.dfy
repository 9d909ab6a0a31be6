/** The `team` verbs' argument tail: the tokenizer that cuts a buffer up in place, and the split of the
    team keys from the tokens that are passed on. */
module TeamKeyTail {
  import opened Common
  import opened KeyValues
  import Codecs

  /** The buffer holds the text `s`, terminated, at `p`. */
  predicate Holds(a: seq<char>, p: nat, s: string) {
    && p + |s| < |a| && a[p..p + |s|] == s && a[p + |s|] == NUL
    && forall i :: 0 <= i < |s| ==> s[i] != NUL
  }

  /** Writing a terminator over the byte that ends a token leaves two texts where there was one. */
  lemma CutHolds(a: seq<char>, p: nat, s: string, n: nat)
    requires Holds(a, p, s) && n <= |s|
    ensures n < |s| ==> Holds(a[p + n := NUL], p, s[..n]) && Holds(a[p + n := NUL], p + n + 1, After(s, n))
    ensures n == |s| ==> Holds(a, p, s[..n]) && Holds(a, p + n, After(s, n))
  {
    assert s[..|s|] == s;
    if n < |s| {
      var b := a[p + n := NUL];
      assert b[p + n + 1..p + |s|] == a[p..p + |s|][n + 1..];
      assert b[p..p + n] == a[p..p + |s|][..n];
    }
  }

  lemma HoldsSuffix(a: seq<char>, p: nat, s: string, n: nat)
    requires Holds(a, p, s) && n <= |s|
    ensures Holds(a, p + n, s[n..])
  {
    assert a[p + n..p + |s|] == a[p..p + |s|][n..];
  }

  lemma HoldsFrame(a: seq<char>, b: seq<char>, p: nat, s: string)
    requires Holds(a, p, s) && |a| == |b|
    requires forall i :: p <= i <= p + |s| ==> a[i] == b[i]
    ensures Holds(b, p, s)
  {
    assert a[p..p + |s|] == b[p..p + |s|];
  }

  /** The first byte of the text at `p` that is `x` or `y`, or the terminator. */
  method Scan(a: array<char>, p: nat, x: char, y: char, ghost s: string) returns (q: nat)
    requires Holds(a[..], p, s) && x != NUL && y != NUL
    ensures q == p + Until(s, x, y)
  {
    q := p;
    assert a[p..p + |s|] == s;
    while a[q] != NUL && a[q] != x && a[q] != y
      invariant p <= q <= p + |s|
      invariant forall i :: 0 <= i < q - p ==> s[i] != x && s[i] != y
      decreases p + |s| - q
    {
      assert a[q] == s[q - p];
      q := q + 1;
    }
    assert q < p + |s| ==> a[q] == s[q - p];
    UntilIs(s, x, y, q - p);
  }

  /** The first byte at or after `p` that is not a space. */
  method SkipBlanks(a: array<char>, p: nat, ghost s: string) returns (q: nat)
    requires Holds(a[..], p, s)
    ensures q + |SkipSpaces(s)| == p + |s| && Holds(a[..], q, SkipSpaces(s))
  {
    ghost var t := s;
    q := p;
    while a[q] == SPACE
      invariant Holds(a[..], q, t) && SkipSpaces(t) == SkipSpaces(s) && q + |t| == p + |s|
      decreases |t|
    {
      assert t != "" && t[0] == a[q..q + |t|][0];
      HoldsSuffix(a[..], q, t, 1);
      t := t[1..];
      q := q + 1;
    }
    assert t != "" ==> t[0] == a[q..q + |t|][0];
  }

  /** A non-empty text starts with its first byte and not with a terminator. */
  lemma HoldsStart(a: seq<char>, p: nat, s: string)
    requires Holds(a, p, s)
    ensures s != "" ==> a[p] == s[0] != NUL
    ensures s == "" ==> a[p] == NUL
  {
    assert s != "" ==> a[p..p + |s|][0] == a[p];
  }

  /** Cut the next token out of the text at `p`, in place. Nothing outside the text is written. */
  method NextToken(a: array<char>, p: nat, ghost s: string) returns (found: bool, next: nat, key: nat, val: Option<nat>)
    requires Holds(a[..], p, s)
    modifies a
    ensures found == (SkipSpaces(s) != "")
    ensures found ==> Holds(a[..], next, First(SkipSpaces(s)).1)
    ensures found ==> TokenAt(a[..], key, val, First(SkipSpaces(s)).0)
    ensures !found ==> a[..] == old(a[..])
    ensures forall i :: 0 <= i < a.Length && !(p <= i < p + |s|) ==> a[i] == old(a[i])
  {
    next := SkipBlanks(a, p, s);
    key, val := next, None;
    HoldsStart(a[..], next, SkipSpaces(s));
    found := a[next] != NUL;
    if found { next, val := CutToken(a, key, SkipSpaces(s)); }
  }

  method CutToken(a: array<char>, key: nat, ghost t: string) returns (next: nat, val: Option<nat>)
    requires Holds(a[..], key, t) && t != "" && t[0] != SPACE
    modifies a
    ensures Holds(a[..], next, First(t).1) && TokenAt(a[..], key, val, First(t).0)
    ensures forall i :: 0 <= i < a.Length && !(key <= i < key + |t|) ==> a[i] == old(a[i])
  {
    ghost var k, v;
    var keyed;
    next, keyed, k, v := CutKey(a, key, t);
    val := None;
    if keyed {
      ghost var before := a[..];
      next, val := CutValue(a, next, v);
      HoldsFrame(before, a[..], key, k);
    }
  }

  /** Overwrite the byte after the first `n` with a terminator and step past it. */
  method Terminate(a: array<char>, p: nat, ghost s: string, n: nat) returns (next: nat)
    requires Holds(a[..], p, s) && n < |s|
    modifies a
    ensures next == p + n + 1 && Holds(a[..], p, s[..n]) && Holds(a[..], next, After(s, n))
    ensures forall i :: 0 <= i < a.Length && i != p + n ==> a[i] == old(a[i])
  {
    CutHolds(a[..], p, s, n);
    a[p + n] := NUL;
    next := p + n + 1;
  }

  /** A key is cut at an equals sign, which says that a value follows, at a space or at the end. */
  method CutKey(a: array<char>, key: nat, ghost t: string)
    returns (next: nat, keyed: bool, ghost k: string, ghost v: string)
    requires Holds(a[..], key, t) && t != "" && t[0] != SPACE
    modifies a
    ensures Holds(a[..], key, k) && Holds(a[..], next, v) && next + |v| <= key + |t|
    ensures keyed ==> key + |k| < next && First(t) == (Token(k, Some(Value(v).0)), Value(v).1)
    ensures !keyed ==> First(t) == (Token(k, None), v)
    ensures forall i :: 0 <= i < a.Length && !(key <= i < key + |t|) ==> a[i] == old(a[i])
  {
    next := Scan(a, key, EQ, SPACE, t);
    var n := next - key;
    CutHolds(a[..], key, t, n);
    HoldsSuffix(a[..], key, t, n);
    HoldsStart(a[..], next, t[n..]);
    k, v := t[..n], After(t, n);
    keyed := a[next] == EQ;
    FirstByKey(t);
    if a[next] == EQ || a[next] == SPACE { next := Terminate(a, key, t, n); }
  }

  lemma FirstByKey(t: string)
    requires t != "" && t[0] != SPACE
    ensures var n := Until(t, EQ, SPACE);
            First(t) == if n < |t| && t[n] == EQ then (Token(t[..n], Some(Value(After(t, n)).0)), Value(After(t, n)).1)
                        else (Token(t[..n], None), After(t, n))
  {
  }

  /** A value in quotes runs to the closing quote, any other to the next space. */
  method CutValue(a: array<char>, p: nat, ghost v: string) returns (next: nat, val: Option<nat>)
    requires Holds(a[..], p, v)
    modifies a
    ensures val.Some? && forall i :: 0 <= i < a.Length && !(p <= i < p + |v|) ==> a[i] == old(a[i])
    ensures Holds(a[..], val.value, Value(v).0) && Holds(a[..], next, Value(v).1)
  {
    HoldsStart(a[..], p, v);
    if a[p] == QUOTE {
      HoldsSuffix(a[..], p, v, 1);
      val := Some(p + 1);
      next := CutAt(a, p + 1, QUOTE, v[1..]);
    } else {
      val := Some(p);
      next := CutAt(a, p, SPACE, v);
    }
  }

  /** The key and value of a token just cut. */
  predicate TokenAt(a: seq<char>, key: nat, val: Option<nat>, t: Token) {
    && Holds(a, key, t.key) && val.Some? == t.val.Some?
    && (val.Some? ==> Holds(a, val.value, t.val.value))
  }

  /** A value runs to `stop`, which is overwritten and stepped past, or to the end of the text. */
  method CutAt(a: array<char>, p: nat, stop: char, ghost s: string) returns (next: nat)
    requires Holds(a[..], p, s) && stop != NUL
    modifies a
    ensures var n := Until(s, stop, stop); Holds(a[..], p, s[..n]) && Holds(a[..], next, After(s, n))
    ensures forall i :: 0 <= i < a.Length && !(p <= i < p + |s|) ==> a[i] == old(a[i])
  {
    next := Scan(a, p, stop, stop, s);
    var n := next - p;
    CutHolds(a[..], p, s, n);
    HoldsSuffix(a[..], p, s, n);
    HoldsStart(a[..], next, s[n..]);
    if a[next] == stop { next := Terminate(a, p, s, n); }
  }

  // ---- the split, on tokens --------------------------------------------------------------------------

  const TKPUB: string := "tkpub"
  const TKPRIV: string := "tkpriv"

  predicate TeamKey(t: Token) { t.key == TKPUB || t.key == TKPRIV }

  /** The 32 bytes a team-key token gives; None when it has no value or not exactly 64 digits. */
  function KeyOf(t: Token): Option<seq<nat>> { if t.val.Some? then Codecs.ParseHex32(t.val.value) else None }

  /** `PastTheEnd` is not an answer of the code: it stands for its one write outside the buffers. */
  datatype Verdict = NoKeys | BothKeys | BadHex(key: string) | HalfPair | TooLong | PastTheEnd

  /** Tokens passed on and keys found so far. */
  datatype Taken = Taken(kept: seq<Token>, pub: Option<seq<nat>>, priv: Option<seq<nat>>)

  const NOTHING: Taken := Taken([], None, None)

  function Settled(st: Taken): Verdict {
    if st.pub.None? && st.priv.None? then NoKeys
    else if st.pub.None? || st.priv.None? then HalfPair
    else BothKeys
  }

  function WithKey(st: Taken, t: Token): Taken
    requires TeamKey(t) && KeyOf(t).Some?
  {
    if t.key == TKPUB then st.(pub := KeyOf(t)) else st.(priv := KeyOf(t))
  }

  /** Tokens are dealt with one at a time; the first that cannot be stops the split. */
  function Take(st: Taken, ts: seq<Token>, room: nat): (Verdict, Taken)
    decreases |ts|
  {
    if ts == [] then (Settled(st), st)
    else if TeamKey(ts[0]) then
      if KeyOf(ts[0]).None? then (BadHex(ts[0].key), st) else Take(WithKey(st, ts[0]), ts[1..], room)
    else
      var kept := st.kept + [ts[0]];
      if |Rendered(kept)| >= room then (TooLong, st) else Take(st.(kept := kept), ts[1..], room)
  }

  function Kept(ts: seq<Token>): seq<Token> {
    if ts == [] then [] else (if TeamKey(ts[0]) then [] else [ts[0]]) + Kept(ts[1..])
  }

  /** The value of the last token with this key. */
  function LastKey(ts: seq<Token>, key: string): Option<seq<nat>> {
    if ts == [] then None
    else if ts[|ts| - 1].key == key then KeyOf(ts[|ts| - 1])
    else LastKey(ts[..|ts| - 1], key)
  }

  predicate KeysGood(ts: seq<Token>) { forall i :: 0 <= i < |ts| ==> TeamKey(ts[i]) ==> KeyOf(ts[i]).Some? }

  predicate Refused(v: Verdict) { v.BadHex? || v.TooLong? }

  lemma {:induction false} RenderedSnoc(ts: seq<Token>, t: Token)
    ensures Rendered(ts + [t]) == Rendered(ts) + (if ts == [] then "" else [SPACE]) + Shown(t)
    decreases |ts|
  {
    if ts != [] {
      assert (ts + [t])[1..] == ts[1..] + [t];
      RenderedSnoc(ts[1..], t);
    } else {
      assert ts + [t] == [t];
    }
  }

  lemma {:induction false} RenderedGrows(ts: seq<Token>, more: seq<Token>)
    ensures |Rendered(ts)| <= |Rendered(ts + more)|
    decreases |more|
  {
    if more == [] {
      assert ts + more == ts;
    } else {
      RenderedSnoc(ts, more[0]);
      assert ts + more == (ts + [more[0]]) + more[1..];
      RenderedGrows(ts + [more[0]], more[1..]);
    }
  }

  /** EXACTLY WHEN THE SPLIT SUCCEEDS: every team key is 64 digits and what is passed on fits. It then
      passes on all the other tokens, in order. */
  lemma {:induction false} TakeExactly(st: Taken, ts: seq<Token>, room: nat)
    requires |Rendered(st.kept)| < room
    ensures !Refused(Take(st, ts, room).0) <==> KeysGood(ts) && |Rendered(st.kept + Kept(ts))| < room
    ensures !Refused(Take(st, ts, room).0) ==> Take(st, ts, room).1.kept == st.kept + Kept(ts)
    decreases |ts|
  {
    if ts == [] {
      assert st.kept + Kept(ts) == st.kept;
    } else {
      assert ts == [ts[0]] + ts[1..];
      assert KeysGood(ts) <==> (TeamKey(ts[0]) ==> KeyOf(ts[0]).Some?) && KeysGood(ts[1..]);
      if TeamKey(ts[0]) {
        assert Kept(ts) == Kept(ts[1..]);
        if KeyOf(ts[0]).Some? { TakeExactly(WithKey(st, ts[0]), ts[1..], room); }
      } else {
        var kept := st.kept + [ts[0]];
        assert st.kept + Kept(ts) == kept + Kept(ts[1..]);
        if |Rendered(kept)| < room {
          TakeExactly(st.(kept := kept), ts[1..], room);
        } else {
          RenderedGrows(kept, Kept(ts[1..]));
        }
      }
    }
  }

  lemma {:induction false} LastKeyFirst(ts: seq<Token>, key: string)
    requires ts != []
    ensures KeysGood(ts) && (key == TKPUB || key == TKPRIV) ==>
              LastKey(ts, key) == if LastKey(ts[1..], key).Some? then LastKey(ts[1..], key)
                                  else if ts[0].key == key then KeyOf(ts[0]) else None
    decreases |ts|
  {
    if |ts| > 1 {
      var init := ts[..|ts| - 1];
      LastKeyFirst(init, key);
      assert init[1..] == ts[1..][..|ts| - 2];
    }
  }

  /** The keys a split ends with are the last ones given; a key not given keeps what was there. */
  lemma {:induction false} LastOneWins(st: Taken, ts: seq<Token>, room: nat)
    requires !Refused(Take(st, ts, room).0) && KeysGood(ts)
    ensures Take(st, ts, room).1.pub == (if LastKey(ts, TKPUB).Some? then LastKey(ts, TKPUB) else st.pub)
    ensures Take(st, ts, room).1.priv == (if LastKey(ts, TKPRIV).Some? then LastKey(ts, TKPRIV) else st.priv)
    decreases |ts|
  {
    if ts != [] {
      LastKeyFirst(ts, TKPUB);
      LastKeyFirst(ts, TKPRIV);
      assert ts[0] in ts;
      assert KeysGood(ts[1..]);
      if TeamKey(ts[0]) {
        LastOneWins(WithKey(st, ts[0]), ts[1..], room);
      } else {
        LastOneWins(st.(kept := st.kept + [ts[0]]), ts[1..], room);
      }
    }
  }

  ghost predicate Given(ts: seq<Token>, key: string) { exists i :: 0 <= i < |ts| && ts[i].key == key }

  lemma {:induction false} LastKeyGiven(ts: seq<Token>, key: string)
    requires KeysGood(ts) && (key == TKPUB || key == TKPRIV)
    ensures LastKey(ts, key).Some? <==> Given(ts, key)
    decreases |ts|
  {
    if ts != [] {
      var init := ts[..|ts| - 1];
      LastKeyGiven(init, key);
      if i :| 0 <= i < |init| && init[i].key == key { assert ts[i].key == key; }
      if i :| 0 <= i < |ts| && ts[i].key == key && ts[|ts| - 1].key != key { assert init[i].key == key; }
    }
  }

  /** The answer of a split that succeeds says which of the two keys were given. */
  lemma VerdictExactly(ts: seq<Token>, room: nat)
    requires room > 0 && !Refused(Take(NOTHING, ts, room).0)
    ensures var v := Take(NOTHING, ts, room).0;
            && (v == BothKeys <==> Given(ts, TKPUB) && Given(ts, TKPRIV))
            && (v == HalfPair <==> Given(ts, TKPUB) != Given(ts, TKPRIV))
            && (v == NoKeys <==> !Given(ts, TKPUB) && !Given(ts, TKPRIV))
  {
    TakeExactly(NOTHING, ts, room);
    LastOneWins(NOTHING, ts, room);
    LastKeyGiven(ts, TKPUB);
    LastKeyGiven(ts, TKPRIV);
    TakeSettles(NOTHING, ts, room);
  }

  lemma {:induction false} TakeSettles(st: Taken, ts: seq<Token>, room: nat)
    requires !Refused(Take(st, ts, room).0)
    ensures var (v, t) := Take(st, ts, room);
            && (v == BothKeys <==> t.pub.Some? && t.priv.Some?)
            && (v == HalfPair <==> t.pub.Some? != t.priv.Some?)
            && (v == NoKeys <==> t.pub.None? && t.priv.None?)
    decreases |ts|
  {
    if ts != [] {
      if TeamKey(ts[0]) {
        TakeSettles(WithKey(st, ts[0]), ts[1..], room);
      } else {
        TakeSettles(st.(kept := st.kept + [ts[0]]), ts[1..], room);
      }
    }
  }

  /** A split that is refused is refused by the first token that is a bad team key, which it names, or that
      no longer fits; the tokens before it alone would not have been refused. */
  lemma {:induction false} RefusalIsTheFirst(st: Taken, ts: seq<Token>, room: nat) returns (i: nat)
    requires Refused(Take(st, ts, room).0)
    ensures i < |ts| && !Refused(Take(st, ts[..i], room).0)
    ensures match Take(st, ts, room).0
            case BadHex(key) => TeamKey(ts[i]) && KeyOf(ts[i]).None? && key == ts[i].key
            case _ => !TeamKey(ts[i]) && |Rendered(Take(st, ts[..i], room).1.kept + [ts[i]])| >= room
    decreases |ts|
  {
    var fits := |Rendered(st.kept + [ts[0]])| < room;
    if if TeamKey(ts[0]) then KeyOf(ts[0]).Some? else fits {
      var next := if TeamKey(ts[0]) then WithKey(st, ts[0]) else st.(kept := st.kept + [ts[0]]);
      var k := RefusalIsTheFirst(next, ts[1..], room);
      assert ts[..k + 1][1..] == ts[1..][..k];
      i := k + 1;
    } else {
      i := 0;
    }
  }

  lemma {:induction false} KeptAreTokens(ts: seq<Token>)
    ensures forall t :: t in Kept(ts) <==> t in ts && !TeamKey(t)
  {
    if ts != [] {
      KeptAreTokens(ts[1..]);
      assert forall t :: t in ts <==> t == ts[0] || t in ts[1..];
    }
  }

  /** THE REMAINDER IS THE TAIL WITHOUT ITS TEAM KEYS, as the next parser will read it, if and only if no
      token passed on has a space in its value: quotes are taken off and not put back. */
  lemma RestReadsBackExactly(tail: string, room: nat)
    requires room > 0 && !Refused(Take(NOTHING, Tokens(tail), room).0)
    ensures var ts := Tokens(tail);
            Tokens(Rendered(Take(NOTHING, ts, room).1.kept)) == Kept(ts) <==>
            forall t :: t in Kept(ts) ==> !Spaced(t)
  {
    var ts := Tokens(tail);
    TakeExactly(NOTHING, ts, room);
    assert NOTHING.kept + Kept(ts) == Kept(ts);
    TokensOk(tail);
    KeptAreTokens(ts);
    var kept := Kept(ts);
    forall i | 0 <= i < |kept| ensures TokenOk(kept[i]) { assert kept[i] in kept; }
    RenderRoundTripsExactly(kept);
    assert (forall t :: t in kept ==> !Spaced(t)) <==> forall i :: 0 <= i < |kept| ==> !Spaced(kept[i]);
  }

  /** In particular every tail without a quote in it. */
  lemma QuoteFreeReadsBack(tail: string, room: nat)
    requires room > 0 && QUOTE !in tail && !Refused(Take(NOTHING, Tokens(tail), room).0)
    ensures Tokens(Rendered(Take(NOTHING, Tokens(tail), room).1.kept)) == Kept(Tokens(tail))
  {
    RestReadsBackExactly(tail, room);
    QuoteFreeIsUnspaced(tail);
    KeptAreTokens(Tokens(tail));
  }

  /** A quoted value of two words loses the second, which becomes a token of its own. */
  lemma TwoWordsAreCut(key: string, x: string, y: string)
    requires SPACE !in key && EQ !in key && SPACE !in x && QUOTE !in x && x != ""
    requires SPACE !in y && EQ !in y && QUOTE !in y && y != ""
    ensures var t := Token(key, Some(x + ([SPACE] + y)));
            && Tokens(key + [EQ] + ([QUOTE] + (t.val.value + [QUOTE]))) == [t]
            && Tokens(Rendered([t])) == [Token(key, Some(x))] + [Token(y, None)]
  {
    var rest := [SPACE] + y;
    OneQuotedToken(key, x + rest);
    var t, cut := Token(key, Some(x + rest)), Token(key, Some(x));
    assert Rendered([t]) == Shown(t) == Shown(cut) + rest;
    TwoTokens(cut, y);
  }

  lemma TwoTokens(t: Token, y: string)
    requires TokenOk(t) && !Spaced(t) && SPACE !in y && EQ !in y && y != ""
    ensures Tokens(Shown(t) + ([SPACE] + y)) == [t] + [Token(y, None)]
  {
    var rest := [SPACE] + y;
    ShownReadsBack(t, rest);
    assert rest[1..] == y;
    OneBareToken(y);
  }

  lemma OneQuotedToken(key: string, v: string)
    requires SPACE !in key && EQ !in key && QUOTE !in v
    ensures Tokens(key + [EQ] + ([QUOTE] + (v + [QUOTE]))) == [Token(key, Some(v))]
  {
    QuotedValue(v);
    KeyedFirst(key, [QUOTE] + (v + [QUOTE]));
  }

  lemma OneBareToken(y: string)
    requires SPACE !in y && EQ !in y && y != ""
    ensures Tokens(y) == [Token(y, None)]
  {
    assert Shown(Token(y, None)) + "" == y;
    ShownReadsBack(Token(y, None), "");
  }

  lemma QuotedValue(v: string)
    requires QUOTE !in v
    ensures Value([QUOTE] + (v + [QUOTE])) == (v, "")
  {
    var w := v + [QUOTE];
    assert ([QUOTE] + w)[1..] == w;
    UntilIs(w, QUOTE, QUOTE, |v|);
    assert w[..|v|] == v && After(w, |v|) == "";
  }

  // ---- the split, in the caller's buffers ------------------------------------------------------------

  /** The terminated text at `p`. */
  method ReadText(a: array<char>, p: nat, ghost s: string) returns (r: string)
    requires Holds(a[..], p, s)
    ensures r == s
  {
    var q := p;
    assert a[p..p + |s|] == s;
    while a[q] != NUL
      invariant p <= q <= p + |s|
      decreases p + |s| - q
    {
      q := q + 1;
    }
    return a[p..q];
  }

  /** Write `x` at `at`. */
  method Append(a: array<char>, at: nat, x: string)
    requires at + |x| < a.Length
    modifies a
    ensures a[..at + |x|] == old(a[..at]) + x
  {
    for i := 0 to |x|
      invariant a[..at + i] == old(a[..at]) + x[..i]
    {
      a[at + i] := x[i];
    }
  }

  /** Append a token to the `len` bytes of printed tokens, a space before it unless it is the first. */
  method AppendToken(rest: array<char>, len: nat, t: Token, ghost kept: seq<Token>) returns (end: nat)
    requires len < rest.Length && rest[..len] == Rendered(kept) && |Rendered(kept + [t])| < rest.Length
    requires len == 0 <==> kept == []
    modifies rest
    ensures end < rest.Length && rest[..end] == Rendered(kept + [t]) && rest[end] == NUL
  {
    RenderedSnoc(kept, t);
    end := len;
    if len > 0 {
      Append(rest, end, [SPACE]);
      end := end + 1;
    }
    end := AppendShown(rest, end, t);
    rest[end] := NUL;
  }

  method AppendShown(a: array<char>, at: nat, t: Token) returns (end: nat)
    requires at + |Shown(t)| < a.Length
    modifies a
    ensures end == at + |Shown(t)| && a[..end] == old(a[..at]) + Shown(t)
  {
    Append(a, at, t.key);
    end := at + |t.key|;
    if t.val.Some? {
      Append(a, end, [EQ]);
      Append(a, end + 1, t.val.value);
      end := end + 1 + |t.val.value|;
    }
  }

  method StoreKey(t: Token, out: array<nat>) returns (ok: bool)
    requires out.Length == 32 && (t.val.Some? ==> NUL !in t.val.value)
    modifies out
    ensures ok == KeyOf(t).Some? && out[..] == if ok then KeyOf(t).value else old(out[..])
  {
    if t.val.None? { return false; }
    ok := Codecs.ReadHex32(t.val.value, out);
  }

  /** The next token, as the texts its pointers stand for. */
  method ReadToken(a: array<char>, p: nat, ghost s: string) returns (found: bool, next: nat, token: Token)
    requires Holds(a[..], p, s)
    modifies a
    ensures found == (SkipSpaces(s) != "")
    ensures found ==> token == First(SkipSpaces(s)).0 && Holds(a[..], next, First(SkipSpaces(s)).1)
    ensures found ==> TokenOk(token) && (token.val.Some? ==> NUL !in token.val.value)
  {
    var k, v;
    found, next, k, v := NextToken(a, p, s);
    token := Token("", None);
    if found {
      ghost var t := First(SkipSpaces(s)).0;
      FirstOk(SkipSpaces(s));
      var key := ReadText(a, k, t.key);
      token := Token(key, None);
      if v.Some? {
        var val := ReadText(a, v.value, t.val.value);
        token := Token(key, Some(val));
      }
    }
  }

  /** The working copy; nothing more is done with a tail that does not fit. The terminator is written
      without a check, so an empty tail needs a byte too. */
  method CopyTail(tail: string, scratch: array<char>) returns (outcome: Option<Verdict>)
    requires NUL !in tail
    modifies scratch
    ensures outcome == if |tail| < scratch.Length then None else if tail == "" then Some(PastTheEnd) else Some(TooLong)
    ensures outcome.None? ==> Holds(scratch[..], 0, tail)
  {
    for i := 0 to |tail|
      invariant i < scratch.Length || i == 0
      invariant i <= scratch.Length && scratch[..i] == tail[..i]
    {
      if i + 1 >= scratch.Length { return Some(TooLong); }
      scratch[i] := tail[i];
    }
    if |tail| >= scratch.Length { return Some(PastTheEnd); }
    scratch[|tail|] := NUL;
    assert scratch[0..|tail|] == tail;
    return None;
  }

  ghost predicate Stored(was: seq<nat>, now: seq<nat>, key: Option<seq<nat>>) {
    now == if key.Some? then key.value else was
  }

  /** The whole tail is copied to `scratch` and cut up there; tokens passed on are printed into `rest`.
      Every write stays inside the buffers if and only if `scratch` has a byte or the tail is not empty. */
  method Split(tail: string, scratch: array<char>, rest: array<char>, pub: array<nat>, priv: array<nat>)
    returns (verdict: Verdict)
    requires NUL !in tail
    requires scratch != rest && pub != priv && pub.Length == 32 && priv.Length == 32
    modifies scratch, rest, pub, priv
    ensures verdict == PastTheEnd <==> scratch.Length == 0 && tail == ""
    ensures |tail| >= scratch.Length || rest.Length == 0 ==>
              (verdict == TooLong || verdict == PastTheEnd) && pub[..] == old(pub[..]) && priv[..] == old(priv[..])
    ensures |tail| < scratch.Length && rest.Length > 0 ==>
              var (v, st) := Take(NOTHING, Tokens(tail), rest.Length);
              && verdict == v && Stored(old(pub[..]), pub[..], st.pub) && Stored(old(priv[..]), priv[..], st.priv)
              && |Rendered(st.kept)| < rest.Length && rest[..|Rendered(st.kept)|] == Rendered(st.kept)
              && rest[|Rendered(st.kept)|] == NUL
  {
    var outcome := CopyTail(tail, scratch);
    if outcome.Some? { return outcome.value; }
    if rest.Length == 0 { return TooLong; }
    rest[0] := NUL;
    verdict := SplitTokens(scratch, tail, rest, pub, priv);
  }

  /** The loop over the tokens of the working copy. */
  method SplitTokens(scratch: array<char>, ghost tail: string, rest: array<char>, pub: array<nat>, priv: array<nat>)
    returns (verdict: Verdict)
    requires Holds(scratch[..], 0, tail) && rest.Length > 0 && rest[0] == NUL
    requires scratch != rest && pub != priv && pub.Length == 32 && priv.Length == 32
    modifies scratch, rest, pub, priv
    ensures verdict != PastTheEnd
    ensures var (v, st) := Take(NOTHING, Tokens(tail), rest.Length);
            && verdict == v && Stored(old(pub[..]), pub[..], st.pub) && Stored(old(priv[..]), priv[..], st.priv)
            && |Rendered(st.kept)| < rest.Length && rest[..|Rendered(st.kept)|] == Rendered(st.kept)
            && rest[|Rendered(st.kept)|] == NUL
  {
    var p: nat, len: nat, havePub, havePriv := 0, 0, false, false;
    ghost var s, st := tail, NOTHING;
    while true
      invariant Holds(scratch[..], p, s)
      invariant Take(NOTHING, Tokens(tail), rest.Length) == Take(st, Tokens(s), rest.Length)
      invariant len < rest.Length && rest[..len] == Rendered(st.kept) && rest[len] == NUL
      invariant len == 0 <==> st.kept == []
      invariant Stored(old(pub[..]), pub[..], st.pub) && Stored(old(priv[..]), priv[..], st.priv)
      invariant havePub == st.pub.Some? && havePriv == st.priv.Some?
      decreases |s|
    {
      var found, next, token := ReadToken(scratch, p, s);
      if !found { break; }
      ghost var after := First(SkipSpaces(s)).1;
      assert Tokens(s) == [token] + Tokens(after);
      if token.key == TKPUB || token.key == TKPRIV {
        var ok := TakeKey(token, pub, priv);
        if !ok { return BadHex(token.key); }
        if token.key == TKPUB { havePub := true; } else { havePriv := true; }
        st := WithKey(st, token);
      } else {
        var ok;
        ok, len := KeepToken(rest, len, token, st.kept);
        if !ok { return TooLong; }
        st := st.(kept := st.kept + [token]);
      }
      s, p := after, next;
    }
    if !havePub && !havePriv { return NoKeys; }
    if havePub != havePriv { return HalfPair; }
    return BothKeys;
  }

  /** A team key goes into its buffer and leaves the other one alone. */
  method TakeKey(t: Token, pub: array<nat>, priv: array<nat>) returns (ok: bool)
    requires TeamKey(t) && (t.val.Some? ==> NUL !in t.val.value)
    requires pub != priv && pub.Length == 32 && priv.Length == 32
    modifies pub, priv
    ensures ok == KeyOf(t).Some?
    ensures pub[..] == if ok && t.key == TKPUB then KeyOf(t).value else old(pub[..])
    ensures priv[..] == if ok && t.key != TKPUB then KeyOf(t).value else old(priv[..])
  {
    ok := StoreKey(t, if t.key == TKPUB then pub else priv);
  }

  /** Pass a token on, if it fits with its separator and the terminator. */
  method KeepToken(rest: array<char>, len: nat, t: Token, ghost kept: seq<Token>) returns (ok: bool, end: nat)
    requires len < rest.Length && rest[..len] == Rendered(kept) && (len == 0 <==> kept == [])
    requires t.val.None? ==> t.key != ""
    modifies rest
    ensures ok <==> |Rendered(kept + [t])| < rest.Length
    ensures ok ==> 0 < end < rest.Length && rest[..end] == Rendered(kept + [t]) && rest[end] == NUL
    ensures !ok ==> rest[..] == old(rest[..]) && end == len
  {
    RenderedSnoc(kept, t);
    var need := |t.key| + (if t.val.Some? then |t.val.value| + 1 else 0) + (if len > 0 then 1 else 0);
    if len + need + 1 > rest.Length { return false, len; }
    end := AppendToken(rest, len, t, kept);
    ok := true;
  }
}
