/** What becomes of the drop reports: which drops a reader of the wire is told of, and which are lost with
    a report the host did not take whole. */
module ConsoleReports {
  import opened Common
  import opened ConsoleQueue
  import opened Digits

  /** The host took every byte of every report it was handed. */
  predicate ReportsWhole(order: seq<Chunk>) {
    forall i :: 0 <= i < |order| && order[i].Report? ==> IsFullReport(order[i])
  }

  /** Full reports speak of every reported drop if and only if every report was taken whole. */
  lemma {:induction false} FullReportsExactly(order: seq<Chunk>)
    requires forall i :: 0 <= i < |order| ==> ChunkOk(order[i])
    ensures FullyReportedIn(order) <= ReportedIn(order)
    ensures FullyReportedIn(order) == ReportedIn(order) <==> ReportsWhole(order)
    decreases |order|
  {
    if order != [] {
      var init, k := order[..|order| - 1], order[|order| - 1];
      FullReportsExactly(init);
      assert ReportsWhole(order) <==> ReportsWhole(init) && (k.Report? ==> IsFullReport(k)) by {
        assert order == init + [k];
      }
      assert ChunkOk(k);
    }
  }

  /** THE EXACT CONDITION, OVER RUNS. Whatever is written and whatever the host does, the drops no longer
      pending are those the recorded reports speak of; a reader can be told of all of them if and only if
      the host took every report whole. */
  lemma DropsAreToldExactly(capacity: nat, es: seq<Event>)
    ensures var d := Run(Start(capacity), es);
            && d.staged == Count(d.order, IsLine) + ReportedIn(d.order) + d.dropped
            && FullyReportedIn(d.order) <= ReportedIn(d.order)
            && (d.staged == Count(d.order, IsLine) + FullyReportedIn(d.order) + d.dropped <==> ReportsWhole(d.order))
  {
    StartInv(capacity);
    RunKeeps(Start(capacity), es);
    FullReportsExactly(Run(Start(capacity), es).order);
  }

  /** One report: it is on the wire in full if and only if the host takes all of it, and the drops it speaks
      of are forgotten either way. */
  lemma ReportIsWholeExactly(c: Console, taken: nat)
    requires MayTell(c)
    ensures Told(c, taken).wire == c.wire + ReportText(c.dropped) <==> taken >= |ReportText(c.dropped)|
    ensures Told(c, taken).dropped == 0
  {
    var text := ReportText(c.dropped);
    var bytes := text[..Min(taken, |text|)];
    assert |Told(c, taken).wire| == |c.wire| + |bytes|;
    if taken >= |text| { assert bytes == text; }
  }

  /** A stage of one byte drops the line "xy", and a host that offers room for the report takes none of it:
      nothing is on the wire, and no drop is pending any more. */
  lemma ReportIsLost()
    ensures var c := Staged(Staged(Staged(Start(1), 'x', true, 0), 'y', true, 0), LF, true, 0);
            var d := Told(c, 0);
            && c.dropped == 1 && d.wire == "" && d.dropped == 0 && d.staged == 1
            && Count(d.order, IsLine) == 0 && FullyReportedIn(d.order) == 0 && !ReportsWhole(d.order)
  {
    var c := Staged(Staged(Staged(Start(1), 'x', true, 0), 'y', true, 0), LF, true, 0);
    assert c == Console(1, [], "", "", "", false, 1, 1, 0);
    var k := Report(1, "");
    var text := ReportText(1);
    assert text[..0] == "" && c.order + [k] == [k] && c.wire + "" == "";
    var d := Told(c, 0);
    assert d.order == [k];
    FlattenAppend([], k);
    assert [] + [k] == [k] && [k][..0] == [] && !IsFullReport(k);
  }


  /** The number a report ends with is the number of drops, in decimal, so no two counts read alike. */
  lemma ReportTellsTheNumber(n: nat)
    ensures var text := ReportText(n);
            && |text| >= 25 && text[..22] == "!! CONSOLE_DROP lines=" && text[|text| - 2..] == [CR, LF]
            && AllDigits(text[22..|text| - 2]) && Value(text[22..|text| - 2]) == n
  {
    var head: string := "!! CONSOLE_DROP lines=";
    assert |head| == 22;
    NumberInside(head, Decimal(n), [CR, LF]);
    DecimalRoundTrip(n);
  }

  lemma NumberInside(head: string, digits: string, tail: string)
    ensures var text := head + digits + tail;
            && text[..|head|] == head && text[|head|..|text| - |tail|] == digits && text[|text| - |tail|..] == tail
  {
  }
}
