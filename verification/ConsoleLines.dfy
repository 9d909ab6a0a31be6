/** Which written lines reach the wire: every accepted line is, byte for byte, a line some writer staged,
    in the order they were staged, and the others are exactly the drops. */
module ConsoleLines {
  import opened Common
  import opened ConsoleQueue
  import ConsoleWire

  predicate Newline(e: Event) { e.Byte? && e.b == LF }

  /** The bytes a run stages, and those of them that belong to the line not yet ended. */
  function Typed(es: seq<Event>): string
    decreases |es|
  {
    if es == [] then ""
    else
      var init, e := es[..|es| - 1], es[|es| - 1];
      if e.Byte? then Typed(init) + [e.b] else Typed(init)
  }
  function Current(es: seq<Event>): string
    decreases |es|
  {
    if es == [] then ""
    else
      var init, e := es[..|es| - 1], es[|es| - 1];
      if Newline(e) then "" else if e.Byte? then Current(init) + [e.b] else Current(init)
  }

  predicate Full(c: Console) { |c.queue| + |c.line| >= c.capacity }

  /** Event `i` stages a byte of the line not yet ended and finds the stage full. */
  ghost predicate LosesAt(c: Console, es: seq<Event>, i: nat)
    requires i < |es|
  {
    es[i].Byte? && Full(Run(c, es[..i])) && forall j :: i <= j < |es| ==> !Newline(es[j])
  }
  ghost predicate LostByte(c: Console, es: seq<Event>) { exists i :: 0 <= i < |es| && LosesAt(c, es, i) }

  /** A line as it was written, with its newline, and whether it is accepted. */
  datatype Fate = Fate(line: string, accepted: bool)

  /** The lines a run ends, in order. One is accepted exactly when every byte of it found room, its
      newline included, and the host is there when it ends or earlier bytes are still waiting. */
  ghost function Fates(c: Console, es: seq<Event>): seq<Fate>
    decreases |es|
  {
    if es == [] then []
    else
      var init, e := es[..|es| - 1], es[|es| - 1];
      var d := Run(c, init);
      if !Newline(e) then Fates(c, init)
      else Fates(c, init) + [Fate(Current(init) + [LF], !LostByte(c, init) && !Full(d) && (e.present || d.queue != ""))]
  }

  function Written(fs: seq<Fate>): seq<string> {
    seq(|fs|, i requires 0 <= i < |fs| => fs[i].line)
  }
  function Accepted(fs: seq<Fate>): seq<string> {
    if fs == [] then []
    else Accepted(fs[..|fs| - 1]) + if fs[|fs| - 1].accepted then [fs[|fs| - 1].line] else []
  }

  /** The accepted lines of a history, without the reports between them. */
  function LinesOf(order: seq<Chunk>): seq<string> {
    if order == [] then []
    else LinesOf(order[..|order| - 1]) + if order[|order| - 1].Line? then [order[|order| - 1].bytes] else []
  }

  lemma LinesOfSnoc(order: seq<Chunk>, k: Chunk)
    ensures LinesOf(order + [k]) == LinesOf(order) + if k.Line? then [k.bytes] else []
  {
    assert (order + [k])[..|order|] == order;
  }

  lemma AcceptedSnoc(fs: seq<Fate>, f: Fate)
    ensures Accepted(fs + [f]) == Accepted(fs) + if f.accepted then [f.line] else []
  {
    assert (fs + [f])[..|fs|] == fs;
  }

  /** The last event decides: a newline ends the line, a byte of it may be the one that is lost. */
  lemma LostByteSnoc(c: Console, es: seq<Event>, e: Event)
    ensures LostByte(c, es + [e]) <==> !Newline(e) && (LostByte(c, es) || (e.Byte? && Full(Run(c, es))))
  {
    var all := es + [e];
    assert all[..|es|] == es && all[|es|] == e;
    if i :| 0 <= i < |es| && LosesAt(c, es, i) && !Newline(e) {
      assert all[..i] == es[..i];
      assert LosesAt(c, all, i);
    }
    if !Newline(e) && e.Byte? && Full(Run(c, es)) { assert LosesAt(c, all, |es|); }
    if i :| 0 <= i < |all| && LosesAt(c, all, i) {
      assert !Newline(all[|es|]);
      if i < |es| {
        assert all[..i] == es[..i];
        assert forall j :: i <= j < |es| ==> es[j] == all[j];
        assert LosesAt(c, es, i);
      }
    }
  }

  /** The state after a run, in terms of what was written alone. */
  ghost predicate Follows(d: Console, c: Console, es: seq<Event>) {
    && (d.over <==> LostByte(c, es))
    && (!d.over ==> d.line == Current(es))
    && LinesOf(d.order) == Accepted(Fates(c, es))
    && d.staged == |Fates(c, es)|
    && |Accepted(Fates(c, es))| + d.reported + d.dropped == |Fates(c, es)|
  }

  /** THE LINK. Over every run from an empty sink and for every host: the accepted lines are, in order and
      byte for byte, the written lines whose every byte found room; all other written lines are the drops,
      reported or still to be reported; and a line not yet ended is staged whole unless a byte of it was
      lost, and then it will not be accepted. */
  lemma {:induction false} AcceptedAsWritten(capacity: nat, es: seq<Event>)
    ensures Follows(Run(Start(capacity), es), Start(capacity), es)
    decreases |es|
  {
    if es != [] {
      var init, e := es[..|es| - 1], es[|es| - 1];
      AcceptedAsWritten(capacity, init);
      assert es == init + [e];
      LostByteSnoc(Start(capacity), init, e);
      var d := Run(Start(capacity), init);
      match e
      case Byte(b, present, taken) => StagedFollows(d, Start(capacity), init, e);
      case Drain(taken) =>
      case Tell(taken) => ToldFollows(d, taken);
    }
  }

  lemma ToldFollows(d: Console, taken: nat)
    ensures var t := Told(d, taken);
            LinesOf(t.order) == LinesOf(d.order) && t.reported + t.dropped == d.reported + d.dropped
  {
    if MayTell(d) {
      var text := ReportText(d.dropped);
      LinesOfSnoc(d.order, Report(d.dropped, text[..Min(taken, |text|)]));
    }
  }

  lemma StagedFollows(d: Console, c: Console, es: seq<Event>, e: Event)
    requires Follows(d, c, es) && e.Byte?
    requires LostByte(c, es + [e]) <==> !Newline(e) && (LostByte(c, es) || Full(d))
    requires d == Run(c, es)
    ensures Follows(Staged(d, e.b, e.present, e.taken), c, es + [e])
  {
    var all := es + [e];
    assert all[..|es|] == es;
    if Newline(e) {
      var accepted := !LostByte(c, es) && !Full(d) && (e.present || d.queue != "");
      var f := Fate(Current(es) + [LF], accepted);
      assert Fates(c, all) == Fates(c, es) + [f] && Current(all) == "";
      AcceptedSnoc(Fates(c, es), f);
      NewlineEnds(d, e);
    } else {
      assert Fates(c, all) == Fates(c, es) && Current(all) == Current(es) + [e.b];
    }
  }

  /** A newline accepts the line or counts it as dropped, and begins the next one. */
  lemma NewlineEnds(d: Console, e: Event)
    requires Newline(e)
    ensures var t := Staged(d, e.b, e.present, e.taken);
            var accepted := !d.over && !Full(d) && (e.present || d.queue != "");
            && !t.over && t.line == "" && t.staged == d.staged + 1 && t.reported == d.reported
            && t.dropped == d.dropped + (if accepted then 0 else 1)
            && LinesOf(t.order) == LinesOf(d.order) + (if accepted then [d.line + [LF]] else [])
  {
    LinesOfSnoc(d.order, Line(d.line + [LF]));
  }

  lemma WrittenSnoc(fs: seq<Fate>, f: Fate)
    ensures Written(fs + [f]) == Written(fs) + [f.line]
  {
  }

  /** And the written lines are the plain split of the staged bytes at their newlines. */
  lemma {:induction false} WrittenIsSplit(c: Console, es: seq<Event>)
    ensures ConsoleWire.Split(Typed(es)) == (Written(Fates(c, es)), Current(es))
    decreases |es|
  {
    if es != [] {
      var init, e := es[..|es| - 1], es[|es| - 1];
      WrittenIsSplit(c, init);
      if e.Byte? {
        ConsoleWire.SplitStep(Typed(init), e.b);
        assert Typed(es) == Typed(init) + [e.b];
      }
      if Newline(e) {
        var f := Fates(c, es)[|Fates(c, init)|];
        assert Fates(c, es) == Fates(c, init) + [f];
        WrittenSnoc(Fates(c, init), f);
      }
    } else {
      assert Written([]) == [];
    }
  }

  /** What is on the wire after any run: whole chunks, then a proper prefix of one more line, where the
      lines among the chunks are the first of the accepted written ones. */
  lemma WireIsWrittenLines(capacity: nat, es: seq<Event>) returns (m: nat, rest: string)
    ensures var d, kept := Run(Start(capacity), es), Accepted(Fates(Start(capacity), es));
            && m <= |d.order| && d.wire == Flatten(d.order[..m]) + rest
            && LinesOf(d.order[..m]) <= kept
            && (m == |d.order| ==> rest == "")
            && (m < |d.order| ==>
                  |LinesOf(d.order[..m])| < |kept| && rest < kept[|LinesOf(d.order[..m])|])
  {
    var d := Run(Start(capacity), es);
    StartInv(capacity);
    RunKeeps(Start(capacity), es);
    AcceptedAsWritten(capacity, es);
    m, rest := WireShape(d);
    NextInLine(d.order, m);
  }

  /** The line at position `m` is the one after the lines before it. */
  lemma NextInLine(order: seq<Chunk>, m: nat)
    requires m <= |order|
    ensures LinesOf(order[..m]) <= LinesOf(order)
    ensures m < |order| && order[m].Line? ==>
              |LinesOf(order[..m])| < |LinesOf(order)| && LinesOf(order)[|LinesOf(order[..m])|] == order[m].bytes
  {
    LinesOfPrefix(order, m);
    if m < |order| {
      LinesOfPrefix(order, m + 1);
      assert order[..m + 1] == order[..m] + [order[m]];
      LinesOfSnoc(order[..m], order[m]);
    }
  }

  lemma {:induction false} LinesOfPrefix(order: seq<Chunk>, m: nat)
    requires m <= |order|
    ensures LinesOf(order[..m]) <= LinesOf(order)
    decreases |order|
  {
    if m < |order| {
      LinesOfPrefix(order[..|order| - 1], m);
      assert order[..|order| - 1][..m] == order[..m];
    } else {
      assert order[..m] == order;
    }
  }
}
