/** The command policy matcher: spellings with flexible white space, alternatives and aliases in one
    cell, and the longest-match lookup over an arbitrary table of rows. */
module CommandPolicy {
  import opened Common

  datatype CommandClass = Open | Operator | Owner | Physical | ControllerLocal | LocalOnly

  /** One row. `subverb` is None where the table writes a dash for the bare family. */
  datatype Row = Row(verb: string, subverb: Option<string>, cls: CommandClass)

  predicate White(c: char) { c == ' ' || c == '\t' }

  /** The first position from `i` on that is not white space. */
  function SkipWhite(s: string, i: nat): (k: nat)
    requires i <= |s|
    ensures i <= k <= |s| && (k < |s| ==> !White(s[k])) && forall j :: i <= j < k ==> White(s[j])
    decreases |s| - i
  {
    if i == |s| || !White(s[i]) then i else SkipWhite(s, i + 1)
  }

  /** Where the spelling from position `j` on ends in the input from position `i` on, if it matches. */
  function MatchEnd(s: string, spelling: string, j: nat, i: nat): (e: Option<nat>)
    requires j <= |spelling| && i <= |s|
    ensures e.Some? ==> i <= e.value <= |s|
    decreases |spelling| - j
  {
    if j == |spelling| then Some(i)
    else if spelling[j] == ' ' then
      if i == |s| || !White(s[i]) then None else MatchEnd(s, spelling, j + 1, SkipWhite(s, i))
    else if i == |s| || s[i] != spelling[j] then None
    else MatchEnd(s, spelling, j + 1, i + 1)
  }

  /** A match end as a length from `start`; 0 means no match. At a boundary the token must end there. */
  function Length(s: string, start: nat, e: Option<nat>, boundary: bool): (n: nat)
    requires start <= |s| && (e.Some? ==> start <= e.value <= |s|)
    ensures start + n <= |s|
  {
    if e.None? || (boundary && e.value < |s| && !White(s[e.value])) then 0 else e.value - start
  }

  function SpellingLen(s: string, start: nat, spelling: string, boundary: bool): (n: nat)
    requires start <= |s|
    ensures start + n <= |s|
  {
    Length(s, start, MatchEnd(s, spelling, 0, start), boundary)
  }

  predicate Separator(c: char) { c == '|' || c == ',' }

  function FirstSeparator(cell: string, i: nat := 0): (k: nat)
    requires i <= |cell|
    ensures i <= k <= |cell| && (k < |cell| ==> Separator(cell[k])) && forall j :: i <= j < k ==> !Separator(cell[j])
    decreases |cell| - i
  {
    if i == |cell| || Separator(cell[i]) then i else FirstSeparator(cell, i + 1)
  }

  function TrimFront(s: string): string
    decreases |s|
  {
    if s != "" && s[0] == ' ' then TrimFront(s[1..]) else s
  }
  function TrimBack(s: string): string
    decreases |s|
  {
    if s != "" && s[|s| - 1] == ' ' then TrimBack(s[..|s| - 1]) else s
  }

  function Max(a: nat, b: nat): nat { if a > b then a else b }

  /** The spellings a cell lists, separated by bars or commas, without the spaces around them. */
  function Pieces(cell: string): seq<string>
    decreases |cell|
  {
    if cell == "" then []
    else
      var k := FirstSeparator(cell);
      var piece := TrimBack(TrimFront(cell[..k]));
      if k == |cell| then [piece] else [piece] + Pieces(cell[k + 1..])
  }

  const ALIAS: string := " (alias: "

  /** Where the alias mark stands in a cell, or the cell's length. */
  function AliasAt(cell: string, i: nat := 0): (k: nat)
    requires i <= |cell|
    ensures i <= k <= |cell| && (k < |cell| ==> k + |ALIAS| <= |cell|)
    decreases |cell| - i
  {
    if i == |cell| then i
    else if i + |ALIAS| <= |cell| && cell[i..i + |ALIAS|] == ALIAS then i
    else AliasAt(cell, i + 1)
  }

  /** What stands between the alias mark and the closing bracket. */
  function AliasText(cell: string, k: nat): string
    requires k + |ALIAS| <= |cell|
  {
    if |cell| > k + |ALIAS| then cell[k + |ALIAS|..|cell| - 1] else ""
  }

  /** Every spelling of a cell: the primary ones, then the aliases. */
  function Spellings(cell: string): seq<string> {
    var k := AliasAt(cell);
    if k == |cell| then Pieces(cell) else Pieces(cell[..k]) + Pieces(AliasText(cell, k))
  }

  /** The longest match length among the first `n` spellings. */
  function Longest(s: string, start: nat, spellings: seq<string>, n: nat, boundary: bool): (m: nat)
    requires start <= |s| && n <= |spellings|
    ensures start + m <= |s|
  {
    if n == 0 then 0
    else Max(Longest(s, start, spellings, n - 1, boundary), SpellingLen(s, start, spellings[n - 1], boundary))
  }

  function CellLen(s: string, start: nat, cell: string, boundary: bool): (n: nat)
    requires start <= |s|
    ensures start + n <= |s|
  {
    Longest(s, start, Spellings(cell), |Spellings(cell)|, boundary)
  }

  /** The two match lengths of a row, or NoMatch when the row does not apply. */
  datatype Score = NoMatch | Match(verb: nat, sub: nat)

  function RowScore(s: string, row: Row): Score {
    var verb := CellLen(s, 0, row.verb, true);
    if verb == 0 then NoMatch
    else if row.subverb.None? then Match(verb, 0)
    else
      var sub := CellLen(s, SkipWhite(s, verb), row.subverb.value, false);
      if sub == 0 then NoMatch else Match(verb, sub)
  }

  function Scores(table: seq<Row>, s: string): (scores: seq<Score>)
    ensures |scores| == |table|
  {
    seq(|table|, i requires 0 <= i < |table| => RowScore(s, table[i]))
  }

  /** `a` is a longer match than `b`: by verb first, then by sub-verb. */
  predicate Longer(a: Score, b: Score) {
    a.Match? && (b.NoMatch? || a.verb > b.verb || (a.verb == b.verb && a.sub > b.sub))
  }

  /** The best of the first `n` scores, the earlier one on a tie. */
  function Best(scores: seq<Score>, n: nat): (best: Option<nat>)
    requires n <= |scores|
    ensures best.Some? ==> best.value < n
  {
    if n == 0 then None
    else
      var b := Best(scores, n - 1);
      if scores[n - 1].NoMatch? then b
      else if b.None? || Longer(scores[n - 1], scores[b.value]) then Some(n - 1)
      else b
  }

  function Lookup(table: seq<Row>, s: string): (best: Option<nat>)
    ensures best.Some? ==> best.value < |table|
  {
    Best(Scores(table, s), |table|)
  }

  lemma {:induction false} BestIsFirstLongest(scores: seq<Score>, n: nat)
    requires n <= |scores|
    ensures var best := Best(scores, n);
            && (best.None? ==> forall i :: 0 <= i < n ==> scores[i].NoMatch?)
            && (best.Some? ==>
                  && scores[best.value].Match?
                  && (forall i :: 0 <= i < n ==> !Longer(scores[i], scores[best.value]))
                  && (forall i :: 0 <= i < best.value ==> Longer(scores[best.value], scores[i])))
  {
    if n > 0 { BestIsFirstLongest(scores, n - 1); }
  }

  /** The chosen row is the first of the longest matches; none is chosen only when no row applies. */
  lemma LookupIsFirstLongest(table: seq<Row>, s: string)
    ensures var best := Lookup(table, s);
            var scores := Scores(table, s);
            && (best.None? <==> forall i :: 0 <= i < |table| ==> scores[i].NoMatch?)
            && (best.Some? ==>
                  && scores[best.value].Match?
                  && (forall i :: 0 <= i < |table| ==> !Longer(scores[i], scores[best.value]))
                  && (forall i :: 0 <= i < best.value ==> Longer(scores[best.value], scores[i])))
  {
    BestIsFirstLongest(Scores(table, s), |table|);
  }

  /** A row that matches more of the verb, or as much of it and more of the sub-verb, is never passed
      over: a sub-command line cannot fall back to the bare row of its family. */
  lemma NoFallbackToBareFamily(table: seq<Row>, s: string, i: nat)
    requires i < |table| && Scores(table, s)[i].Match? && Scores(table, s)[i].sub > 0
    ensures var best, scores := Lookup(table, s), Scores(table, s);
            && best.Some? && scores[best.value].Match?
            && (scores[best.value].verb == scores[i].verb ==> scores[best.value].sub > 0)
  {
    var scores := Scores(table, s);
    BestIsFirstLongest(scores, |table|);
    assert scores[i].Match? && !Longer(scores[i], scores[Best(scores, |table|).value]);
  }

  // ---- white space does not matter ----------------------------------------------------------------

  /** Every run of white space as one space. */
  function Norm(s: string): string {
    if s == "" then ""
    else
      var t, c := s[..|s| - 1], s[|s| - 1];
      if !White(c) then Norm(t) + [c]
      else if t != "" && White(t[|t| - 1]) then Norm(t)
      else Norm(t) + " "
  }

  /** A position that is not inside a run of white space. */
  predicate Aligned(s: string, p: nat)
    requires p <= |s|
  {
    p == 0 || p == |s| || !White(s[p - 1]) || !White(s[p])
  }

  function Plain(c: char): char { if White(c) then ' ' else c }

  /** `at` carries the positions of a line to those of its normal form `t`: an aligned position moves
      on by one over the same character, the inside of a run stays where it is. */
  ghost predicate Carries(s: string, t: string, at: seq<nat>) {
    && |at| == |s| + 1 && at[0] == 0 && at[|s|] == |t|
    && forall p :: 0 <= p < |s| ==> Step(s, t, at, p)
  }
  ghost predicate Step(s: string, t: string, at: seq<nat>, p: nat)
    requires |at| == |s| + 1 && p < |s|
  {
    if Aligned(s, p) then at[p] < |t| && at[p + 1] == at[p] + 1 && t[at[p]] == Plain(s[p]) else at[p + 1] == at[p]
  }

  function Places(s: string): (at: seq<nat>)
    ensures |at| == |s| + 1
  {
    if s == "" then [0] else Places(s[..|s| - 1]) + [|Norm(s)|]
  }

  lemma {:induction false} NormCarries(s: string)
    ensures Carries(s, Norm(s), Places(s))
    decreases |s|
  {
    if s != "" {
      var t, n := s[..|s| - 1], |s| - 1;
      NormCarries(t);
      forall p | 0 <= p < |s| ensures Step(s, Norm(s), Places(s), p) {
        if p < n { assert Step(t, Norm(t), Places(t), p); }
      }
    }
  }

  lemma {:induction false} Rising(s: string, t: string, at: seq<nat>, p: nat, q: nat)
    requires Carries(s, t, at) && p <= q <= |s|
    ensures at[p] <= at[q] <= |t|
    decreases |s| - p
  {
    if p < |s| { assert Step(s, t, at, p); }
    if p < q { Rising(s, t, at, p + 1, q); } else if q < |s| { Rising(s, t, at, q + 1, |s|); }
  }

  /** Places of aligned positions keep their order. */
  lemma StrictlyRising(s: string, t: string, at: seq<nat>, p: nat, q: nat)
    requires Carries(s, t, at) && p < q <= |s| && Aligned(s, p)
    ensures at[p] < at[q]
  {
    assert Step(s, t, at, p);
    Rising(s, t, at, p + 1, q);
  }

  lemma {:induction false} RunStays(s: string, t: string, at: seq<nat>, p: nat, q: nat)
    requires Carries(s, t, at) && 0 < p <= q <= |s| && White(s[p - 1]) && forall j :: p <= j < q ==> White(s[j])
    ensures at[q] == at[p]
    decreases q - p
  {
    if p < q {
      RunStays(s, t, at, p, q - 1);
      if q < |s| || White(s[q - 1]) { assert Step(s, t, at, q - 1); }
    }
  }

  predicate NoTabs(t: string) { '\t' !in t }

  lemma SkipWhiteCarried(s: string, t: string, at: seq<nat>, i: nat)
    requires Carries(s, t, at) && i <= |s| && Aligned(s, i)
    ensures at[i] <= |t| && Aligned(s, SkipWhite(s, i)) && SkipWhite(t, at[i]) == at[SkipWhite(s, i)]
  {
    Rising(s, t, at, i, |s|);
    var k := SkipWhite(s, i);
    if i < |s| { assert Step(s, t, at, i); }
    if i < k { RunStays(s, t, at, i + 1, k); }
    if k < |s| { assert Step(s, t, at, k); }
  }

  function Lift(at: seq<nat>, e: Option<nat>): Option<nat>
    requires e.Some? ==> e.value < |at|
  {
    if e.None? then None else Some(at[e.value])
  }

  lemma {:induction false} MatchEndCarried(s: string, t: string, at: seq<nat>, spelling: string, j: nat, i: nat)
    requires Carries(s, t, at) && j <= |spelling| && i <= |s| && Aligned(s, i) && NoTabs(spelling)
    ensures at[i] <= |t| && MatchEnd(t, spelling, j, at[i]) == Lift(at, MatchEnd(s, spelling, j, i))
    ensures MatchEnd(s, spelling, j, i).Some? ==> Aligned(s, MatchEnd(s, spelling, j, i).value)
    decreases |spelling| - j
  {
    Rising(s, t, at, i, |s|);
    if i < |s| { assert Step(s, t, at, i); }
    if j < |spelling| && i < |s| {
      if spelling[j] == ' ' && White(s[i]) {
        SkipWhiteCarried(s, t, at, i);
        MatchEndCarried(s, t, at, spelling, j + 1, SkipWhite(s, i));
      } else if spelling[j] != ' ' && s[i] == spelling[j] {
        MatchEndCarried(s, t, at, spelling, j + 1, i + 1);
      }
    }
  }

  /** A length on a line and one on its normal form: the same end, seen from the same start. */
  ghost predicate Corresponds(s: string, at: seq<nat>, start: nat, n: nat, m: nat) {
    && |at| == |s| + 1 && start + n <= |s| && Aligned(s, start) && Aligned(s, start + n)
    && at[start] + m == at[start + n]
  }

  lemma LengthCarried(s: string, t: string, at: seq<nat>, start: nat, e: Option<nat>, boundary: bool)
    requires Carries(s, t, at) && start <= |s| && Aligned(s, start)
    requires e.Some? ==> start <= e.value <= |s| && Aligned(s, e.value)
    ensures at[start] <= |t| && (e.Some? ==> at[start] <= at[e.value] <= |t|)
    ensures Corresponds(s, at, start, Length(s, start, e, boundary), Length(t, at[start], Lift(at, e), boundary))
  {
    Rising(s, t, at, start, |s|);
    if e.Some? {
      Rising(s, t, at, start, e.value);
      if e.value < |s| { assert Step(s, t, at, e.value); }
    }
  }

  lemma MaxCarried(s: string, t: string, at: seq<nat>, start: nat, a: nat, b: nat, a': nat, b': nat)
    requires Carries(s, t, at) && Corresponds(s, at, start, a, a') && Corresponds(s, at, start, b, b')
    ensures Corresponds(s, at, start, Max(a, b), Max(a', b'))
  {
    if a < b { StrictlyRising(s, t, at, start + a, start + b); }
    if b < a { StrictlyRising(s, t, at, start + b, start + a); }
  }

  lemma {:induction false} LongestCarried(s: string, t: string, at: seq<nat>, start: nat,
                                          spellings: seq<string>, n: nat,
                                          boundary: bool)
    requires Carries(s, t, at) && start <= |s| && Aligned(s, start) && n <= |spellings|
    requires forall i :: 0 <= i < |spellings| ==> NoTabs(spellings[i])
    ensures at[start] <= |t|
    ensures Corresponds(s, at, start, Longest(s, start, spellings, n, boundary),
                        Longest(t, at[start], spellings, n, boundary))
  {
    Rising(s, t, at, start, |s|);
    if n > 0 {
      LongestCarried(s, t, at, start, spellings, n - 1, boundary);
      MatchEndCarried(s, t, at, spellings[n - 1], 0, start);
      LengthCarried(s, t, at, start, MatchEnd(s, spellings[n - 1], 0, start), boundary);
      MaxCarried(s, t, at, start,
                 Longest(s, start, spellings, n - 1, boundary), SpellingLen(s, start, spellings[n - 1], boundary),
                 Longest(t, at[start], spellings, n - 1, boundary),
                 SpellingLen(t, at[start], spellings[n - 1], boundary));
    }
  }

  lemma {:induction false} TrimKeepsNoTabs(t: string)
    requires NoTabs(t)
    ensures NoTabs(TrimFront(t)) && NoTabs(TrimBack(t))
    decreases |t|
  {
    if t != "" {
      TrimKeepsNoTabs(t[1..]);
      TrimKeepsNoTabs(t[..|t| - 1]);
    }
  }

  lemma {:induction false} PiecesNoTabs(cell: string)
    requires NoTabs(cell)
    ensures forall i :: 0 <= i < |Pieces(cell)| ==> NoTabs(Pieces(cell)[i])
    decreases |cell|
  {
    if cell != "" {
      var k := FirstSeparator(cell);
      TrimKeepsNoTabs(cell[..k]);
      TrimKeepsNoTabs(TrimFront(cell[..k]));
      if k < |cell| { PiecesNoTabs(cell[k + 1..]); }
    }
  }

  lemma CellCarried(s: string, t: string, at: seq<nat>, start: nat, cell: string, boundary: bool)
    requires Carries(s, t, at) && start <= |s| && Aligned(s, start) && NoTabs(cell)
    ensures at[start] <= |t|
    ensures Corresponds(s, at, start, CellLen(s, start, cell, boundary), CellLen(t, at[start], cell, boundary))
  {
    var k := AliasAt(cell);
    if k == |cell| {
      PiecesNoTabs(cell);
    } else {
      PiecesNoTabs(cell[..k]);
      PiecesNoTabs(AliasText(cell, k));
    }
    LongestCarried(s, t, at, start, Spellings(cell), |Spellings(cell)|, boundary);
  }

  predicate RowPlain(row: Row) { NoTabs(row.verb) && (row.subverb.Some? ==> NoTabs(row.subverb.value)) }

  /** What a score on a line becomes on its normal form: the places of the same two ends. */
  ghost predicate SameEnds(s: string, at: seq<nat>, a: Score, b: Score) {
    if a.NoMatch? then b.NoMatch?
    else
      && b.Match? && Corresponds(s, at, 0, a.verb, b.verb)
      && Corresponds(s, at, SkipWhite(s, a.verb), a.sub, b.sub)
  }

  lemma PositiveCarried(s: string, t: string, at: seq<nat>, start: nat, n: nat, m: nat)
    requires Carries(s, t, at) && Corresponds(s, at, start, n, m)
    ensures n == 0 <==> m == 0
  {
    if n > 0 { StrictlyRising(s, t, at, start, start + n); }
  }

  /** A cell measured on a line and on its normal form, including whether it matches at all. */
  lemma CellScored(s: string, t: string, at: seq<nat>, start: nat, cell: string, boundary: bool)
    requires Carries(s, t, at) && start <= |s| && Aligned(s, start) && NoTabs(cell)
    ensures at[start] <= |t|
    ensures Corresponds(s, at, start, CellLen(s, start, cell, boundary), CellLen(t, at[start], cell, boundary))
    ensures CellLen(s, start, cell, boundary) == 0 <==> CellLen(t, at[start], cell, boundary) == 0
  {
    CellCarried(s, t, at, start, cell, boundary);
    PositiveCarried(s, t, at, start, CellLen(s, start, cell, boundary), CellLen(t, at[start], cell, boundary));
  }

  lemma RowScoreCarried(s: string, t: string, at: seq<nat>, row: Row)
    requires Carries(s, t, at) && RowPlain(row)
    ensures SameEnds(s, at, RowScore(s, row), RowScore(t, row))
  {
    CellScored(s, t, at, 0, row.verb, true);
    var verb, verb' := CellLen(s, 0, row.verb, true), CellLen(t, 0, row.verb, true);
    if verb > 0 {
      SkipWhiteCarried(s, t, at, verb);
      var k := SkipWhite(s, verb);
      assert SkipWhite(t, verb') == at[k];
      if row.subverb.Some? { CellScored(s, t, at, k, row.subverb.value, false); }
    }
  }

  /** Which of two scores is the longer match is the same on a line and on its normal form. */
  lemma LongerCarried(s: string, t: string, at: seq<nat>, a: Score, b: Score, a': Score, b': Score)
    requires Carries(s, t, at) && SameEnds(s, at, a, a') && SameEnds(s, at, b, b')
    ensures Longer(a, b) <==> Longer(a', b')
  {
    if a.Match? && b.Match? {
      if a.verb < b.verb { StrictlyRising(s, t, at, a.verb, b.verb); }
      if b.verb < a.verb { StrictlyRising(s, t, at, b.verb, a.verb); }
      if a.verb == b.verb {
        var k := SkipWhite(s, a.verb);
        if a.sub < b.sub { StrictlyRising(s, t, at, k + a.sub, k + b.sub); }
        if b.sub < a.sub { StrictlyRising(s, t, at, k + b.sub, k + a.sub); }
      }
    }
  }

  /** The choice depends only on which scores match and which are longer than which. */
  lemma {:induction false} BestAgree(x: seq<Score>, y: seq<Score>, n: nat)
    requires |x| == |y| && n <= |x|
    requires forall i :: 0 <= i < |x| ==> (x[i].NoMatch? <==> y[i].NoMatch?)
    requires forall i, j :: 0 <= i < |x| && 0 <= j < |x| ==> (Longer(x[i], x[j]) <==> Longer(y[i], y[j]))
    ensures Best(x, n) == Best(y, n)
  {
    if n > 0 { BestAgree(x, y, n - 1); }
  }

  lemma LookupCarried(table: seq<Row>, s: string, t: string, at: seq<nat>)
    requires Carries(s, t, at) && forall i :: 0 <= i < |table| ==> RowPlain(table[i])
    ensures Lookup(table, s) == Lookup(table, t)
  {
    var x, y := Scores(table, s), Scores(table, t);
    forall i | 0 <= i < |table| ensures SameEnds(s, at, x[i], y[i]) { RowScoreCarried(s, t, at, table[i]); }
    forall i, j | 0 <= i < |table| && 0 <= j < |table| ensures Longer(x[i], x[j]) <==> Longer(y[i], y[j]) {
      LongerCarried(s, t, at, x[i], x[j], y[i], y[j]);
    }
    BestAgree(x, y, |table|);
  }

  /** Two lines that differ only in what their runs of white space are made of get the same row. */
  lemma WhiteSpaceDoesNotMatter(table: seq<Row>, a: string, b: string)
    requires forall i :: 0 <= i < |table| ==> RowPlain(table[i])
    requires Norm(a) == Norm(b)
    ensures Lookup(table, a) == Lookup(table, b)
  {
    NormCarries(a);
    LookupCarried(table, a, Norm(a), Places(a));
    NormCarries(b);
    LookupCarried(table, b, Norm(b), Places(b));
  }
}
