/** What it means that a line matches: which spellings a cell lists, when a spelling is said, and when a row
    of two cells applies. Said on a line whose runs of blanks are single spaces, which is where every lookup
    can be read. */
module CommandMeaning {
  import opened Common
  import opened CommandPolicy

  // ---- the normal form -----------------------------------------------------------------------------

  /** No tabs, and no two spaces in a row. */
  predicate Single(t: string) {
    && NoTabs(t)
    && forall i :: 0 < i < |t| ==> t[i] != ' ' || t[i - 1] != ' '
  }

  lemma {:induction false} NormIsSingle(s: string)
    ensures Single(Norm(s)) && |Norm(s)| <= |s|
    ensures s != "" ==> Norm(s) != "" && Norm(s)[|Norm(s)| - 1] == Plain(s[|s| - 1])
    decreases |s|
  {
    if s != "" { NormIsSingle(s[..|s| - 1]); }
  }

  /** A line in normal form is its own. */
  lemma {:induction false} NormOfSingle(t: string)
    requires Single(t)
    ensures Norm(t) == t
    decreases |t|
  {
    if t != "" {
      var init := t[..|t| - 1];
      assert forall i :: 0 <= i < |init| ==> init[i] == t[i];
      NormOfSingle(init);
      assert t == init + [t[|t| - 1]];
    }
  }

  /** Every lookup can be read on the line's normal form. */
  lemma LookupOnNorm(table: seq<Row>, s: string)
    requires forall i :: 0 <= i < |table| ==> RowPlain(table[i])
    ensures Lookup(table, s) == Lookup(table, Norm(s))
  {
    NormIsSingle(s);
    NormOfSingle(Norm(s));
    WhiteSpaceDoesNotMatter(table, s, Norm(s));
  }

  // ---- one spelling --------------------------------------------------------------------------------

  /** On such a line a spelling matches where its letters stand, and nowhere else. */
  lemma {:induction false} MatchIsPrefix(t: string, sp: string, j: nat, i: nat)
    requires Single(t) && j <= |sp| && i <= |t|
    ensures MatchEnd(t, sp, j, i) == if sp[j..] <= t[i..] then Some(i + |sp| - j) else None
    decreases |sp| - j
  {
    if j < |sp| {
      if i < |t| && sp[j] == t[i] {
        MatchIsPrefix(t, sp, j + 1, i + 1);
        PrefixStep(sp[j..], t[i..]);
        assert sp[j..][1..] == sp[j + 1..] && t[i..][1..] == t[i + 1..];
        if t[i] == ' ' { assert SkipWhite(t, i) == i + 1; }
      }
    }
  }

  lemma PrefixStep(a: string, b: string)
    requires a != "" && b != "" && a[0] == b[0]
    ensures a <= b <==> a[1..] <= b[1..]
  {
    assert a == [a[0]] + a[1..] && b == [b[0]] + b[1..];
  }

  /** The line says `sp` from `at` on, and, where a word must end, ends it there. */
  predicate Says(t: string, at: nat, sp: string, boundary: bool)
    requires at <= |t|
  {
    && sp != "" && sp <= t[at..]
    && (boundary && at + |sp| < |t| ==> t[at + |sp|] == ' ')
  }

  lemma SpellingLenIs(t: string, at: nat, sp: string, boundary: bool)
    requires Single(t) && at <= |t|
    ensures SpellingLen(t, at, sp, boundary) == if Says(t, at, sp, boundary) then |sp| else 0
  {
    MatchIsPrefix(t, sp, 0, at);
    assert sp[0..] == sp;
  }

  /** For every line and every spelling without a tab: the spelling matches at the start of the line, as words
      of it, if and only if the normal form begins with it and a blank or the end follows. */
  lemma SpellingMatchesExactly(s: string, sp: string)
    requires NoTabs(sp)
    ensures SpellingLen(s, 0, sp, true) > 0 <==> Says(Norm(s), 0, sp, true)
  {
    NormCarries(s);
    MatchEndCarried(s, Norm(s), Places(s), sp, 0, 0);
    LengthCarried(s, Norm(s), Places(s), 0, MatchEnd(s, sp, 0, 0), true);
    PositiveCarried(s, Norm(s), Places(s), 0, SpellingLen(s, 0, sp, true), SpellingLen(Norm(s), 0, sp, true));
    NormIsSingle(s);
    SpellingLenIs(Norm(s), 0, sp, true);
  }

  // ---- one cell ------------------------------------------------------------------------------------

  /** `n` is the length of the longest of these spellings the line says at `at`; 0 when it says none. */
  ghost predicate LongestSaid(t: string, at: nat, spellings: seq<string>, boundary: bool, n: nat)
    requires at <= |t|
  {
    && (forall k :: 0 <= k < |spellings| && Says(t, at, spellings[k], boundary) ==> |spellings[k]| <= n)
    && (n > 0 ==> exists k :: 0 <= k < |spellings| && Says(t, at, spellings[k], boundary) && |spellings[k]| == n)
  }

  lemma {:induction false} LongestIs(t: string, at: nat, spellings: seq<string>, n: nat, boundary: bool)
    requires Single(t) && at <= |t| && n <= |spellings|
    ensures LongestSaid(t, at, spellings[..n], boundary, Longest(t, at, spellings, n, boundary))
    decreases n
  {
    if n > 0 {
      LongestIs(t, at, spellings, n - 1, boundary);
      SpellingLenIs(t, at, spellings[n - 1], boundary);
      var now, was := spellings[..n], spellings[..n - 1];
      assert forall k :: 0 <= k < n - 1 ==> now[k] == was[k];
      assert now[n - 1] == spellings[n - 1];
    }
  }

  lemma CellLenIs(t: string, at: nat, cell: string, boundary: bool)
    requires Single(t) && at <= |t|
    ensures LongestSaid(t, at, Spellings(cell), boundary, CellLen(t, at, cell, boundary))
  {
    var all := Spellings(cell);
    LongestIs(t, at, all, |all|, boundary);
    assert all[..|all|] == all;
  }

  // ---- one row -------------------------------------------------------------------------------------

  /** Where the words after a verb of `n` bytes begin. */
  function AfterVerb(t: string, n: nat): (k: nat)
    requires n <= |t|
    ensures n <= k <= |t|
  {
    if n < |t| && t[n] == ' ' then n + 1 else n
  }

  /** A row applies to a line if and only if the line begins with one of its verbs as a word and, when the row
      has sub-verbs, goes on with one of those; its score is the two longest such lengths. */
  lemma RowAppliesExactly(t: string, row: Row)
    requires Single(t)
    ensures var score := RowScore(t, row);
            && (score.Match? <==>
                  exists n :: 0 < n <= |t| && LongestSaid(t, 0, Spellings(row.verb), true, n)
                         && (row.subverb.Some? ==> SubSaid(t, AfterVerb(t, n), row.subverb.value)))
            && (score.Match? ==>
                  && 0 < score.verb <= |t| && LongestSaid(t, 0, Spellings(row.verb), true, score.verb)
                  && (if row.subverb.None? then score.sub == 0
                      else score.sub > 0
                           && LongestSaid(t, AfterVerb(t, score.verb), Spellings(row.subverb.value), false, score.sub)))
  {
    var verb := CellLen(t, 0, row.verb, true);
    CellLenIs(t, 0, row.verb, true);
    forall n | 0 < n <= |t| && LongestSaid(t, 0, Spellings(row.verb), true, n) ensures n == verb {
      OneLongest(t, 0, Spellings(row.verb), true, n, verb);
    }
    if verb > 0 {
      assert SkipWhite(t, verb) == AfterVerb(t, verb) by { SkipOne(t, verb); }
      if row.subverb.Some? { CellLenIs(t, AfterVerb(t, verb), row.subverb.value, false); }
    }
  }

  /** The line says one of the cell's spellings there. */
  ghost predicate SubSaid(t: string, at: nat, cell: string)
    requires at <= |t|
  {
    exists k :: 0 <= k < |Spellings(cell)| && Says(t, at, Spellings(cell)[k], false)
  }

  lemma OneLongest(t: string, at: nat, spellings: seq<string>, boundary: bool, n: nat, m: nat)
    requires at <= |t| && LongestSaid(t, at, spellings, boundary, n) && LongestSaid(t, at, spellings, boundary, m)
    ensures n == m
  {
  }

  lemma SkipOne(t: string, i: nat)
    requires Single(t) && 0 < i <= |t| && (i < |t| && t[i] == ' ' ==> t[i - 1] != ' ')
    ensures SkipWhite(t, i) == AfterVerb(t, i)
  {
    if i < |t| && t[i] == ' ' && i + 1 < |t| { assert t[i + 1] != ' ' && t[i + 1] != '\t'; }
  }

  // ---- what a cell lists ---------------------------------------------------------------------------

  /** A spelling as it can stand in a list: some text, no separators or brackets in it, no blank at its ends. */
  predicate Listable(x: string) {
    && x != "" && x[0] != ' ' && x[|x| - 1] != ' '
    && forall i :: 0 <= i < |x| ==> !Separator(x[i]) && x[i] != '('
  }
  predicate Spaces(x: string) { forall i :: 0 <= i < |x| ==> x[i] == ' ' }

  /** A bar or a comma, with any blanks around it. */
  datatype Mark = Mark(before: string, c: char, after: string)
  predicate MarkOk(m: Mark) { Spaces(m.before) && Separator(m.c) && Spaces(m.after) }

  /** A printed list. */
  function Listed(xs: seq<string>, marks: seq<Mark>): string
    requires xs != [] && |marks| == |xs| - 1
    decreases |xs|
  {
    if |xs| == 1 then xs[0]
    else xs[0] + marks[0].before + [marks[0].c] + (marks[0].after + Listed(xs[1..], marks[1..]))
  }

  lemma {:induction false} TrimFrontIs(pad: string, x: string)
    requires Spaces(pad) && (x == "" || x[0] != ' ')
    ensures TrimFront(pad + x) == x
    decreases |pad|
  {
    if pad == "" {
      assert pad + x == x;
    } else {
      assert (pad + x)[1..] == pad[1..] + x;
      TrimFrontIs(pad[1..], x);
    }
  }

  lemma {:induction false} TrimBackIs(x: string, pad: string)
    requires Spaces(pad) && (x == "" || x[|x| - 1] != ' ')
    ensures TrimBack(x + pad) == x
    decreases |pad|
  {
    if pad == "" {
      assert x + pad == x;
    } else {
      assert (x + pad)[..|x + pad| - 1] == x + pad[..|pad| - 1];
      TrimBackIs(x, pad[..|pad| - 1]);
    }
  }

  lemma {:induction false} FirstSeparatorIs(cell: string, i: nat, k: nat)
    requires i <= k <= |cell| && (k < |cell| ==> Separator(cell[k])) && forall j :: i <= j < k ==> !Separator(cell[j])
    ensures FirstSeparator(cell, i) == k
    decreases k - i
  {
    if i < k { FirstSeparatorIs(cell, i + 1, k); }
  }

  /** The piece in front of a separator is the spelling between the blanks. */
  lemma PieceIs(lead: string, x: string, tail: string)
    requires Spaces(lead) && Spaces(tail) && Listable(x)
    ensures TrimBack(TrimFront(lead + x + tail)) == x
    ensures forall i :: 0 <= i < |lead + x + tail| ==> !Separator((lead + x + tail)[i])
  {
    assert lead + x + tail == lead + (x + tail);
    TrimFrontIs(lead, x + tail);
    TrimBackIs(x, tail);
  }

  /** The piece before the first separator, and the pieces behind it. */
  lemma FirstPiece(front: string, c: char, rest: string)
    requires Separator(c) && forall j :: 0 <= j < |front| ==> !Separator(front[j])
    ensures Pieces(front + [c] + rest) == [TrimBack(TrimFront(front))] + Pieces(rest)
  {
    var cell := front + [c] + rest;
    assert cell[..|front|] == front && cell[|front| + 1..] == rest;
    assert forall j :: 0 <= j < |front| ==> cell[j] == front[j];
    FirstSeparatorIs(cell, 0, |front|);
  }

  /** The spellings a cell lists are the ones its list was printed from. */
  lemma {:induction false} ListReadsBack(lead: string, xs: seq<string>, marks: seq<Mark>)
    requires xs != [] && |marks| == |xs| - 1 && Spaces(lead)
    requires (forall i :: 0 <= i < |xs| ==> Listable(xs[i])) && (forall i :: 0 <= i < |marks| ==> MarkOk(marks[i]))
    ensures Pieces(lead + Listed(xs, marks)) == xs
    decreases |xs|
  {
    assert Listable(xs[0]);
    if |xs| == 1 {
      OnePiece(lead, xs[0]);
    } else {
      assert MarkOk(marks[0]);
      PieceAndRest(lead, xs[0], marks[0], Listed(xs[1..], marks[1..]));
      ListReadsBack(marks[0].after, xs[1..], marks[1..]);
      assert xs == [xs[0]] + xs[1..];
    }
  }

  lemma OnePiece(lead: string, x: string)
    requires Spaces(lead) && Listable(x)
    ensures Pieces(lead + x) == [x]
  {
    var cell := lead + x;
    PieceIs(lead, x, "");
    assert cell == lead + x + "" && cell[..|cell|] == cell;
    FirstSeparatorIs(cell, 0, |cell|);
  }

  lemma PieceAndRest(lead: string, x: string, m: Mark, rest: string)
    requires Spaces(lead) && Listable(x) && MarkOk(m)
    ensures Pieces(lead + (x + m.before + [m.c] + (m.after + rest))) == [x] + Pieces(m.after + rest)
  {
    var front := lead + x + m.before;
    PieceIs(lead, x, m.before);
    assert lead + (x + m.before + [m.c] + (m.after + rest)) == front + [m.c] + (m.after + rest);
    FirstPiece(front, m.c, m.after + rest);
  }

  lemma {:induction false} NoBracketListed(xs: seq<string>, marks: seq<Mark>)
    requires xs != [] && |marks| == |xs| - 1
    requires (forall i :: 0 <= i < |xs| ==> Listable(xs[i])) && (forall i :: 0 <= i < |marks| ==> MarkOk(marks[i]))
    ensures '(' !in Listed(xs, marks) && Listed(xs, marks) != ""
    decreases |xs|
  {
    assert Listable(xs[0]);
    if |xs| > 1 {
      assert MarkOk(marks[0]);
      NoBracketListed(xs[1..], marks[1..]);
    }
  }

  lemma {:induction false} AliasAtIs(cell: string, i: nat, k: nat)
    requires i <= k <= |cell|
    requires k < |cell| ==> k + |ALIAS| <= |cell| && cell[k..k + |ALIAS|] == ALIAS
    requires forall j :: i < j <= k && j < |cell| ==> cell[j] != '('
    ensures AliasAt(cell, i) == k
    decreases k - i
  {
    if i < k {
      assert i + |ALIAS| <= |cell| ==> cell[i..i + |ALIAS|][1] == cell[i + 1];
      AliasAtIs(cell, i + 1, k);
    }
  }

  /** A cell without aliases lists what it was printed from. */
  lemma PlainCellLists(xs: seq<string>, marks: seq<Mark>)
    requires xs != [] && |marks| == |xs| - 1
    requires (forall i :: 0 <= i < |xs| ==> Listable(xs[i])) && (forall i :: 0 <= i < |marks| ==> MarkOk(marks[i]))
    ensures Spellings(Listed(xs, marks)) == xs
  {
    var cell := Listed(xs, marks);
    NoBracketListed(xs, marks);
    AliasAtIs(cell, 0, |cell|);
    ListReadsBack("", xs, marks);
    assert "" + cell == cell;
  }

  /** A cell with an alias bracket lists the primary spellings and then the aliases. */
  lemma AliasCellLists(xs: seq<string>, marks: seq<Mark>, ys: seq<string>, others: seq<Mark>)
    requires xs != [] && |marks| == |xs| - 1 && ys != [] && |others| == |ys| - 1
    requires (forall i :: 0 <= i < |xs| ==> Listable(xs[i])) && (forall i :: 0 <= i < |marks| ==> MarkOk(marks[i]))
    requires (forall i :: 0 <= i < |ys| ==> Listable(ys[i])) && (forall i :: 0 <= i < |others| ==> MarkOk(others[i]))
    ensures Spellings(Listed(xs, marks) + ALIAS + (Listed(ys, others) + ")")) == xs + ys
  {
    var p, q := Listed(xs, marks), Listed(ys, others);
    NoBracketListed(xs, marks);
    ListReadsBack("", xs, marks);
    ListReadsBack("", ys, others);
    assert "" + p == p && "" + q == q;
    AliasSplits(p, q);
  }

  lemma AliasSplits(p: string, q: string)
    requires '(' !in p
    ensures Spellings(p + ALIAS + (q + ")")) == Pieces(p) + Pieces(q)
  {
    var cell := p + ALIAS + (q + ")");
    AliasStands(p, q + ")");
    CellParts(p, ALIAS, q, cell);
    SpellingsAt(cell, |p|, p, q);
  }

  lemma SpellingsAt(cell: string, k: nat, p: string, q: string)
    requires AliasAt(cell) == k < |cell| && cell[..k] == p
    requires |cell| > k + |ALIAS| && cell[k + |ALIAS|..|cell| - 1] == q
    ensures Spellings(cell) == Pieces(p) + Pieces(q)
  {
  }

  lemma AliasStands(p: string, rest: string)
    requires '(' !in p
    ensures AliasAt(p + ALIAS + rest) == |p|
  {
    var cell := p + ALIAS + rest;
    MarkAt(p, ALIAS, rest);
    assert cell[|p|] == ' ';
    AliasAtIs(cell, 0, |p|);
  }

  lemma MarkAt(p: string, mark: string, rest: string)
    ensures (p + mark + rest)[|p|..|p| + |mark|] == mark
    ensures forall j :: 0 <= j < |p| ==> (p + mark + rest)[j] == p[j]
  {
  }

  lemma CellParts(p: string, mark: string, q: string, cell: string)
    requires cell == p + mark + (q + ")")
    ensures cell[..|p|] == p && cell[|p| + |mark|..|cell| - 1] == q && |cell| > |p| + |mark|
  {
  }
}
