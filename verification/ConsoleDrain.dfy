/** The service pass of the main loop: an idle console runs empty and reports its drops. */
module ConsoleDrain {
  import opened Common
  import opened ConsoleQueue
  import opened ConsoleReports

  /** What the host does during one service pass. */
  datatype Host = Host(present: bool, takenAtCommit: nat, taken: nat, room: bool, takenOfReport: nat)

  /** One pass of the main loop: terminate a line left open, drain, and report once nothing waits. */
  function Service(c: Console, h: Host): Console {
    var c1 := if c.line != "" then Staged(Staged(c, CR, h.present, 0), LF, h.present, h.takenAtCommit) else c;
    var c2 := Sent(c1, h.taken);
    if h.room then Told(c2, h.takenOfReport) else c2
  }

  function Passes(c: Console, hs: seq<Host>): Console
    decreases |hs|
  {
    if hs == [] then c else Service(Passes(c, hs[..|hs| - 1]), hs[|hs| - 1])
  }

  /** Terminating a line that was left open: it is accepted or dropped, and nothing stays begun. */
  lemma Terminated(c: Console, h: Host)
    requires Inv(c) && c.line != ""
    ensures var d := Staged(Staged(c, CR, h.present, 0), LF, h.present, h.takenAtCommit);
            Inv(d) && d.line == "" && c.order <= d.order && |d.queue| <= |c.queue| + |c.line| + 2
  {
    StagedKeeps(c, CR, h.present, 0);
    var c1 := Staged(c, CR, h.present, 0);
    StagedKeeps(c1, LF, h.present, h.takenAtCommit);
    StagedBounds(c, CR, h.present, 0);
    StagedBounds(c1, LF, h.present, h.takenAtCommit);
  }

  lemma StagedBounds(c: Console, b: char, present: bool, taken: nat)
    ensures var d := Staged(c, b, present, taken);
            && c.order <= d.order && |d.queue| + |d.line| <= |c.queue| + |c.line| + 1
            && (b == LF ==> d.line == "")
  {
  }

  /** A pass is a run of the queue: it stages two bytes or none, drains, and reports if there is room. */
  function Events(c: Console, h: Host): seq<Event> {
    (if c.line != "" then [Byte(CR, h.present, 0), Byte(LF, h.present, h.takenAtCommit)] else [])
    + [Drain(h.taken)] + (if h.room then [Tell(h.takenOfReport)] else [])
  }

  lemma ServiceIsRun(c: Console, h: Host)
    ensures Service(c, h) == Run(c, Events(c, h))
  {
    var es := if c.line != "" then [Byte(CR, h.present, 0), Byte(LF, h.present, h.takenAtCommit)] else [];
    RunNothing(c);
    if c.line != "" {
      RunSnoc(c, [], es[0]);
      RunSnoc(c, [es[0]], es[1]);
      assert es == [es[0]] + [es[1]] && [es[0]] == [] + [es[0]];
    }
    RunSnoc(c, es, Drain(h.taken));
    if h.room {
      RunSnoc(c, es + [Drain(h.taken)], Tell(h.takenOfReport));
    } else {
      assert Events(c, h) == es + [Drain(h.taken)];
    }
  }

  lemma RunNothing(c: Console)
    ensures Run(c, []) == c
  {
  }

  /** Every pass keeps the invariant, whatever the host does or refuses. */
  lemma ServiceKeeps(c: Console, h: Host)
    requires Inv(c)
    ensures Inv(Service(c, h)) && Service(c, h).line == ""
  {
    ServiceIsRun(c, h);
    RunKeeps(c, Events(c, h));
    if c.line != "" { StagedBounds(Staged(c, CR, h.present, 0), LF, h.present, h.takenAtCommit); }
  }

  // ---- a line that overflowed before its first byte ------------------------------------------------

  /** THE EXACT CONDITION. A pass ends the line that was begun, overflow and all, if and only if a byte of
      it was stored or none was lost: the code looks at the stored bytes alone. */
  lemma ServiceEndsLineExactly(c: Console, h: Host)
    ensures !Service(c, h).over <==> c.line != "" || !c.over
  {
    if c.line != "" { StagedBounds(Staged(c, CR, h.present, 0), LF, h.present, h.takenAtCommit); }
  }

  /** These events stage exactly the bytes of `x`. */
  predicate Stages(es: seq<Event>, x: string) {
    |es| == |x| && forall i :: 0 <= i < |x| ==> es[i].Byte? && es[i].b == x[i]
  }

  lemma {:induction false} PartlyStaged(d: Console, es: seq<Event>, x: string)
    requires d.line == "" && Stages(es, x) && LF !in x && |d.queue| + |x| <= d.capacity
    ensures Run(d, es) == d.(line := x)
    decreases |x|
  {
    if x != "" {
      PartlyStaged(d, es[..|x| - 1], x[..|x| - 1]);
      assert x == x[..|x| - 1] + [x[|x| - 1]];
    }
  }

  /** A line for which there is room, written when no line is begun: it is accepted as it stands, unless an
      overflow is still marked; then it is dropped whole. */
  lemma NextLine(d: Console, es: seq<Event>, x: string)
    requires d.line == "" && WholeLine(x) && Stages(es, x) && |d.queue| + |x| <= d.capacity
    requires es[|es| - 1].present || d.queue != ""
    ensures Run(d, es).order == d.order + (if d.over then [] else [Line(x)])
    ensures Run(d, es).dropped == d.dropped + if d.over then 1 else 0
    ensures Run(d, es).order == d.order + [Line(x)] <==> !d.over
  {
    var n := |x| - 1;
    assert forall i :: 0 <= i < n ==> x[..n][i] != LF;
    PartlyStaged(d, es[..n], x[..n]);
    assert x == x[..n] + [LF] && es == es[..n] + [es[n]];
    RunSnoc(d, es[..n], es[n]);
    assert |d.order + [Line(x)]| != |d.order + []|;
  }

  /** So after a pass the next line that fits, with a host to take it, is accepted as a line of its own if
      and only if the pass did not leave an overflow behind; otherwise it is dropped whole. */
  lemma NextLineIsItsOwnExactly(c: Console, h: Host, d: Console, es: seq<Event>, x: string)
    requires Inv(c) && d == Service(c, h) && WholeLine(x) && Stages(es, x) && |d.queue| + |x| <= d.capacity
    requires es[|es| - 1].present || d.queue != ""
    ensures Run(d, es).order == d.order + [Line(x)] <==> !(c.over && c.line == "")
    ensures c.over && c.line == "" ==> Run(d, es).order == d.order && Run(d, es).dropped == d.dropped + 1
  {
    ServiceKeeps(c, h);
    ServiceEndsLineExactly(c, h);
    NextLine(d, es, x);
  }

  /** A stage of two bytes filled by an accepted line loses the first byte of the next; a pass sends all
      that waits, and still the empty line written after it is dropped. */
  lemma OverflowOutlivesThePass()
    ensures var c := Staged(Staged(Staged(Start(2), 'a', true, 0), LF, true, 0), 'x', true, 0);
            var d := Service(c, Host(true, 0, 2, true, 0));
            var t := Staged(d, LF, true, 1);
            && d.wire == ['a', LF] && d.queue == "" && d.line == "" && d.over && d.dropped == 0
            && t.order == d.order && t.dropped == 1
  {
    var a := Staged(Start(2), 'a', true, 0);
    assert a == Start(2).(line := "a");
    var b := Staged(a, LF, true, 0);
    assert b.queue == ['a', LF];
    var c := Staged(b, 'x', true, 0);
    assert c.line == "" && c.over && c.queue == ['a', LF];
    assert c.queue[..2] == c.queue && c.wire + c.queue == ['a', LF] && c.queue[2..] == "";
  }

  // ---- an idle console ------------------------------------------------------------------------------

  lemma ServiceShrinks(c: Console, h: Host)
    requires Inv(c) && h.taken >= 1
    ensures var d := Service(c, h);
            && Inv(d) && d.line == "" && c.order <= d.order
            && |d.queue| <= Pred(|c.queue| + if c.line == "" then 0 else |c.line| + 2)
            && (h.room && d.queue == "" ==> d.dropped == 0)
            && (!d.over <==> c.line != "" || !c.over)
  {
    ServiceEndsLineExactly(c, h);
    if c.line != "" { Terminated(c, h); }
    var c1 := if c.line != "" then Staged(Staged(c, CR, h.present, 0), LF, h.present, h.takenAtCommit) else c;
    SentKeeps(c1, h.taken);
    ToldKeeps(Sent(c1, h.taken), h.takenOfReport);
  }

  /** A byte per pass runs the queue empty. */
  lemma {:induction false} PassesEmpty(c: Console, hs: seq<Host>)
    requires Inv(c) && hs != [] && forall i :: 0 <= i < |hs| ==> hs[i].taken >= 1
    ensures var d := Passes(c, hs);
            && Inv(d) && d.line == "" && c.order <= d.order
            && |d.queue| <= Sub(|c.queue| + |c.line| + 2, |hs|)
            && (d.queue == "" && hs[|hs| - 1].room ==> d.dropped == 0)
    decreases |hs|
  {
    var init, h := hs[..|hs| - 1], hs[|hs| - 1];
    if init == [] {
      ServiceShrinks(c, h);
    } else {
      PassesEmpty(c, init);
      ServiceShrinks(Passes(c, init), h);
    }
  }

  /** With no new writes and a host that takes at least a byte per pass, the unsent bytes run out:
      after as many passes as there are bytes (and the two of a terminator), everything accepted is
      on the wire and nothing is begun; and after a last pass with room every staged line is an accepted
      line or spoken of by a recorded report. All of them are on the wire, as lines or in reports that can
      be read, if and only if the host took every report whole. */
  lemma PassesDrain(c: Console, hs: seq<Host>)
    requires Inv(c) && hs != [] && forall i :: 0 <= i < |hs| ==> hs[i].taken >= 1
    ensures var d := Passes(c, hs);
            && Inv(d) && d.line == "" && c.order <= d.order
            && |d.queue| <= Sub(|c.queue| + |c.line| + 2, |hs|)
            && (|hs| >= |c.queue| + |c.line| + 2 ==> d.wire == Flatten(d.order))
            && (|hs| >= |c.queue| + |c.line| + 2 && hs[|hs| - 1].room ==> d.dropped == 0)
    ensures var d := Passes(c, hs);
            d.dropped == 0 ==>
              && d.staged == Count(d.order, IsLine) + ReportedIn(d.order)
              && (d.staged == Count(d.order, IsLine) + FullyReportedIn(d.order) <==> ReportsWhole(d.order))
  {
    PassesEmpty(c, hs);
    var d := Passes(c, hs);
    if d.queue == "" { assert d.wire + "" == d.wire; }
    FullReportsExactly(d.order);
  }

  function Sub(a: nat, b: nat): nat { if a < b then 0 else a - b }
}
