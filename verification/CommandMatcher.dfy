/** The matcher in its own form: loops over the input, the cell and the table. Each computes the
    function `CommandPolicy` reasons about. */
module CommandMatcher {
  import opened Common
  import opened CommandPolicy

  method SpellingMatch(s: string, spelling: string, boundary: bool) returns (n: nat)
    ensures n == SpellingLen(s, 0, spelling, boundary)
  {
    var i := 0;
    for j := 0 to |spelling|
      invariant 0 <= i <= |s| && MatchEnd(s, spelling, j, i) == MatchEnd(s, spelling, 0, 0)
    {
      if spelling[j] == ' ' {
        if i == |s| || !White(s[i]) { return 0; }
        i := AfterWhite(s, i);
      } else {
        if i == |s| || s[i] != spelling[j] { return 0; }
        i := i + 1;
      }
    }
    if boundary && i < |s| && !White(s[i]) { return 0; }
    return i;
  }

  method AfterWhite(s: string, from: nat) returns (i: nat)
    requires from <= |s|
    ensures i == SkipWhite(s, from)
  {
    i := from;
    while i < |s| && White(s[i])
      invariant i <= |s| && SkipWhite(s, i) == SkipWhite(s, from)
    {
      i := i + 1;
    }
  }

  method Trim(t: string) returns (r: string)
    ensures r == TrimBack(TrimFront(t))
  {
    r := t;
    while r != "" && r[0] == ' '
      invariant TrimFront(r) == TrimFront(t)
      decreases |r|
    {
      r := r[1..];
    }
    while r != "" && r[|r| - 1] == ' '
      invariant TrimBack(r) == TrimBack(TrimFront(t))
      decreases |r|
    {
      r := r[..|r| - 1];
    }
  }

  lemma {:induction false} LongestPrefix(s: string, xs: seq<string>, ys: seq<string>, n: nat, boundary: bool)
    requires n <= |xs|
    ensures Longest(s, 0, xs + ys, n, boundary) == Longest(s, 0, xs, n, boundary)
  {
    if n > 0 { LongestPrefix(s, xs, ys, n - 1, boundary); }
  }

  /** One longer list: the longest of all, or the new one. */
  lemma LongestSnoc(s: string, xs: seq<string>, y: string, boundary: bool)
    ensures Longest(s, 0, xs + [y], |xs| + 1, boundary)
              == Max(Longest(s, 0, xs, |xs|, boundary), SpellingLen(s, 0, y, boundary))
  {
    LongestPrefix(s, xs, [y], |xs|, boundary);
  }

  lemma {:induction false} LongestJoin(s: string, xs: seq<string>, ys: seq<string>, boundary: bool)
    ensures Longest(s, 0, xs + ys, |xs + ys|, boundary)
              == Max(Longest(s, 0, xs, |xs|, boundary), Longest(s, 0, ys, |ys|, boundary))
    decreases |ys|
  {
    if ys == [] {
      assert xs + ys == xs;
    } else {
      var init := ys[..|ys| - 1];
      LongestJoin(s, xs, init, boundary);
      LongestSnoc(s, xs + init, ys[|ys| - 1], boundary);
      LongestSnoc(s, init, ys[|ys| - 1], boundary);
      assert (xs + init) + [ys[|ys| - 1]] == xs + ys && init + [ys[|ys| - 1]] == ys;
    }
  }

  method SplitPoint(cell: string) returns (split: nat)
    ensures split == FirstSeparator(cell)
  {
    split := 0;
    while split < |cell| && !Separator(cell[split])
      invariant split <= |cell| && FirstSeparator(cell, split) == FirstSeparator(cell)
    {
      split := split + 1;
    }
  }

  method AlternativesMatch(s: string, cell: string, boundary: bool) returns (best: nat)
    ensures best == Longest(s, 0, Pieces(cell), |Pieces(cell)|, boundary)
  {
    best := 0;
    var rest := cell;
    ghost var done: seq<string> := [];
    while rest != ""
      invariant done + Pieces(rest) == Pieces(cell)
      invariant best == Longest(s, 0, done, |done|, boundary)
      decreases |rest|
    {
      var split := SplitPoint(rest);
      var spelling := Trim(rest[..split]);
      var n := SpellingMatch(s, spelling, boundary);
      LongestSnoc(s, done, spelling, boundary);
      if n > best { best := n; }
      ghost var following := if split == |rest| then [] else Pieces(rest[split + 1..]);
      assert done + ([spelling] + following) == (done + [spelling]) + following;
      done := done + [spelling];
      if split == |rest| {
        assert done + [] == done;
        return;
      }
      rest := rest[split + 1..];
    }
    assert done + [] == done;
  }

  method CellMatch(s: string, cell: string, boundary: bool) returns (n: nat)
    ensures n == CellLen(s, 0, cell, boundary)
  {
    var at := 0;
    while at < |cell| && !(at + |ALIAS| <= |cell| && cell[at..at + |ALIAS|] == ALIAS)
      invariant at <= |cell| && AliasAt(cell, at) == AliasAt(cell)
    {
      at := at + 1;
    }
    if at == |cell| {
      n := AlternativesMatch(s, cell, boundary);
      return;
    }
    var primary := AlternativesMatch(s, cell[..at], boundary);
    var other := AlternativesMatch(s, AliasText(cell, at), boundary);
    LongestJoin(s, Pieces(cell[..at]), Pieces(AliasText(cell, at)), boundary);
    return if primary > other then primary else other;
  }

  // ---- matching a tail of the line is matching from that position -----------------------------------

  lemma {:induction false} SkipWhiteTail(s: string, t: nat, i: nat)
    requires t <= |s| && i <= |s| - t
    ensures SkipWhite(s, t + i) == t + SkipWhite(s[t..], i)
    decreases |s| - i
  {
    if t + i < |s| && White(s[t + i]) { SkipWhiteTail(s, t, i + 1); }
  }

  lemma {:induction false} MatchEndTail(s: string, t: nat, spelling: string, j: nat, i: nat)
    requires t <= |s| && i <= |s| - t && j <= |spelling|
    ensures var e := MatchEnd(s[t..], spelling, j, i);
            MatchEnd(s, spelling, j, t + i) == if e.None? then None else Some(t + e.value)
    decreases |spelling| - j
  {
    if j < |spelling| && t + i < |s| {
      if spelling[j] == ' ' && White(s[t + i]) {
        SkipWhiteTail(s, t, i);
        MatchEndTail(s, t, spelling, j + 1, SkipWhite(s[t..], i));
      } else if spelling[j] != ' ' && s[t + i] == spelling[j] {
        MatchEndTail(s, t, spelling, j + 1, i + 1);
      }
    }
  }

  lemma {:induction false} LongestTail(s: string, t: nat, spellings: seq<string>, n: nat, boundary: bool)
    requires t <= |s| && n <= |spellings|
    ensures Longest(s[t..], 0, spellings, n, boundary) == Longest(s, t, spellings, n, boundary)
  {
    if n > 0 {
      LongestTail(s, t, spellings, n - 1, boundary);
      MatchEndTail(s, t, spellings[n - 1], 0, 0);
    }
  }

  /** What row `i` matches: its verb, then its sub-verb after the white space. */
  method RowMatch(s: string, table: seq<Row>, i: nat) returns (score: Score)
    requires i < |table|
    ensures score == Scores(table, s)[i]
  {
    var verb := CellMatch(s, table[i].verb, true);
    if verb == 0 { return NoMatch; }
    if table[i].subverb.None? { return Match(verb, 0); }
    var tail := AfterWhite(s, verb);
    var cell := table[i].subverb.value;
    var sub := CellMatch(s[tail..], cell, false);
    LongestTail(s, tail, Spellings(cell), |Spellings(cell)|, false);
    score := if sub == 0 then NoMatch else Match(verb, sub);
  }

  /** One more row: it takes over only when it is longer than the best so far. */
  method Consider(i: nat, score: Score, best: Option<nat>, verb: nat, sub: nat, ghost scores: seq<Score>)
    returns (best': Option<nat>, verb': nat, sub': nat)
    requires i < |scores| && score == scores[i]
    requires best == Best(scores, i) && (best.Some? ==> scores[best.value] == Match(verb, sub))
    ensures best' == Best(scores, i + 1) && (best'.Some? ==> scores[best'.value] == Match(verb', sub'))
  {
    best', verb', sub' := best, verb, sub;
    if score.NoMatch? { return; }
    if best.None? || score.verb > verb || (score.verb == verb && score.sub > sub) {
      best', verb', sub' := Some(i), score.verb, score.sub;
    }
  }

  /** The table scan: keep the first row that no later one beats. */
  method LookupRow(table: seq<Row>, s: string) returns (best: Option<nat>)
    ensures best == Lookup(table, s)
  {
    best := None;
    var bestVerb: nat, bestSub: nat := 0, 0;
    ghost var scores := Scores(table, s);
    for i := 0 to |table|
      invariant best == Best(scores, i)
      invariant best.Some? ==> scores[best.value] == Match(bestVerb, bestSub)
    {
      var score := RowMatch(s, table, i);
      best, bestVerb, bestSub := Consider(i, score, best, bestVerb, bestSub, scores);
    }
  }

  // ---- authority ---------------------------------------------------------------------------------------

  datatype Authority = Local | RemoteOpen | RemoteOperator | RemoteOwner

  function Admits(row: Row, authority: Authority, s: string): bool {
    match authority
    case Local => true
    case RemoteOpen => row.cls == Open && s == row.verb
    case RemoteOperator => row.cls == Open || row.cls == Operator
    case RemoteOwner => row.cls == Open || row.cls == Operator || row.cls == Owner
  }

  /** Open commands need the least standing, an owner's the most; what is not remote at all, more than any. */
  function Needed(cls: CommandClass): nat {
    match cls
    case Open => 0
    case Operator => 1
    case Owner => 2
    case _ => 3
  }
  function Standing(a: Authority): nat {
    match a
    case RemoteOpen => 0
    case RemoteOperator => 1
    case RemoteOwner => 2
    case Local => 3
  }

  /** Who may run a command is a matter of standing alone, but that the open authority is also held to the
      exact words of the row. */
  lemma AdmitsByStanding(row: Row, a: Authority, s: string)
    ensures Admits(row, a, s) <==> Standing(a) >= Needed(row.cls) && (a == RemoteOpen ==> s == row.verb)
  {
  }

  /** A remote line's verdict: the chosen row's, and a refusal when no row applies. */
  function RemoteVerdict(table: seq<Row>, authority: Authority, s: string): bool {
    var best := Lookup(table, s);
    best.Some? && Admits(table[best.value], authority, s)
  }

  /** No remote line reaches a physical or controller-local command whatever its authority; a higher
      authority admits whatever a lower one does; and the verdict of an operator or owner is the same
      for every spelling of the line's white space. */
  lemma RemoteVerdictSound(table: seq<Row>, s: string, t: string)
    requires forall i :: 0 <= i < |table| ==> RowPlain(table[i])
    requires Norm(s) == Norm(t)
    ensures forall a :: a != Local && RemoteVerdict(table, a, s) ==>
              Lookup(table, s).Some? && table[Lookup(table, s).value].cls in {Open, Operator, Owner}
    ensures RemoteVerdict(table, RemoteOpen, s) ==> RemoteVerdict(table, RemoteOperator, s)
    ensures RemoteVerdict(table, RemoteOperator, s) ==> RemoteVerdict(table, RemoteOwner, s)
    ensures RemoteVerdict(table, RemoteOperator, s) <==> RemoteVerdict(table, RemoteOperator, t)
    ensures RemoteVerdict(table, RemoteOwner, s) <==> RemoteVerdict(table, RemoteOwner, t)
  {
    WhiteSpaceDoesNotMatter(table, s, t);
  }
}
