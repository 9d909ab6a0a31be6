/** The console sink as an ideal bounded byte queue: what every staged byte, every drain and every
    drop report does to it, and what every run of them puts on the wire. */
module ConsoleQueue {
  import opened Common
  import opened Digits

  /** What was handed to the wire, in order: an accepted line, or as much of a drop report as the
      host took when it was written. */
  datatype Chunk = Line(bytes: string) | Report(lines: nat, bytes: string)

  /** `queue` holds the accepted bytes not yet sent, `line` the line being assembled. `order`,
      `staged` (newlines staged) and `reported` (drops already reported) record the history. */
  datatype Console = Console(capacity: nat, order: seq<Chunk>, wire: string, queue: string, line: string,
                             over: bool, dropped: nat, staged: nat, reported: nat)

  function Start(capacity: nat): Console { Console(capacity, [], "", "", "", false, 0, 0, 0) }

  function ReportText(dropped: nat): string { "!! CONSOLE_DROP lines=" + Decimal(dropped) + [CR, LF] }

  /** One interaction. `present` is whether the host is there when a line is committed, `taken` how
      much it takes of what it is handed. */
  datatype Event =
    | Byte(b: char, present: bool, taken: nat)
    | Drain(taken: nat)
    | Tell(taken: nat)

  function Min(a: nat, b: nat): nat { if a < b then a else b }

  function Sent(c: Console, taken: nat): Console {
    var k := Min(taken, |c.queue|);
    c.(wire := c.wire + c.queue[..k], queue := c.queue[k..])
  }

  function Committed(c: Console, present: bool, taken: nat): Console {
    if c.over then c.(line := "", over := false, dropped := c.dropped + 1)
    else if c.line == "" then c
    else if !present && c.queue == "" then c.(line := "", dropped := c.dropped + 1)
    else Sent(c.(order := c.order + [Line(c.line)], queue := c.queue + c.line, line := ""), taken)
  }

  /** A byte is admitted exactly when the unsent bytes and the bytes of its line leave room. */
  function Admitted(c: Console, b: char): Console {
    if |c.queue| + |c.line| < c.capacity then c.(line := c.line + [b]) else c.(over := true)
  }

  function Staged(c: Console, b: char, present: bool, taken: nat): Console {
    var c' := Admitted(c, b);
    if b == LF then Committed(c'.(staged := c.staged + 1), present, taken) else c'
  }

  predicate MayTell(c: Console) { c.dropped > 0 && c.queue == "" && c.line == "" }

  /** The drop report goes out directly, once nothing is queued and no line is begun. */
  function Told(c: Console, taken: nat): Console {
    if !MayTell(c) then c
    else
      var text := ReportText(c.dropped);
      var bytes := text[..Min(taken, |text|)];
      c.(order := c.order + [Report(c.dropped, bytes)], wire := c.wire + bytes,
         reported := c.reported + c.dropped, dropped := 0)
  }

  function Apply(c: Console, e: Event): Console {
    match e
    case Byte(b, present, taken) => Staged(c, b, present, taken)
    case Drain(taken) => Sent(c, taken)
    case Tell(taken) => Told(c, taken)
  }

  function Run(c: Console, es: seq<Event>): Console
    decreases |es|
  {
    if es == [] then c else Apply(Run(c, es[..|es| - 1]), es[|es| - 1])
  }

  lemma {:induction false} RunAppend(c: Console, es: seq<Event>, fs: seq<Event>)
    ensures Run(c, es + fs) == Run(Run(c, es), fs)
    decreases |fs|
  {
    if fs == [] {
      assert es + fs == es;
    } else {
      RunAppend(c, es, fs[..|fs| - 1]);
      assert (es + fs)[..|es + fs| - 1] == es + fs[..|fs| - 1];
    }
  }

  lemma RunSnoc(c: Console, es: seq<Event>, e: Event)
    ensures Run(c, es + [e]) == Apply(Run(c, es), e)
  {
    assert (es + [e])[..|es|] == es;
  }

  /** A drain of at most what is queued moves exactly that much. */
  lemma SentIs(c: Console, d: Console, taken: nat)
    requires taken <= |c.queue| && d.queue == c.queue[taken..] && d.wire == c.wire + c.queue[..taken]
    requires d == c.(wire := d.wire, queue := d.queue)
    ensures d == Sent(c, taken)
  {
  }

  lemma SentNothing(c: Console)
    ensures Sent(c, 0) == c
  {
    assert c.wire + c.queue[..0] == c.wire;
  }

  // ---- what every run keeps ---------------------------------------------------------------------

  ghost function Flatten(order: seq<Chunk>): string {
    if order == [] then "" else Flatten(order[..|order| - 1]) + order[|order| - 1].bytes
  }

  /** A whole line: it ends with its only newline. */
  predicate WholeLine(s: string) {
    s != "" && s[|s| - 1] == LF && forall i :: 0 <= i < |s| - 1 ==> s[i] != LF
  }
  predicate IsLine(k: Chunk) { k.Line? }

  /** A report of which the host took every byte. */
  predicate IsFullReport(k: Chunk) { k.Report? && k.bytes == ReportText(k.lines) }

  /** The drops the recorded reports speak of, and those of them that a full report speaks of. */
  function ReportedIn(order: seq<Chunk>): nat {
    if order == [] then 0
    else ReportedIn(order[..|order| - 1]) + if order[|order| - 1].Report? then order[|order| - 1].lines else 0
  }
  function FullyReportedIn(order: seq<Chunk>): nat {
    if order == [] then 0
    else
      var k := order[|order| - 1];
      FullyReportedIn(order[..|order| - 1]) + if IsFullReport(k) then k.lines else 0
  }

  predicate ChunkOk(k: Chunk) {
    match k
    case Line(bytes) => WholeLine(bytes)
    case Report(lines, bytes) => lines > 0 && bytes <= ReportText(lines)
  }

  /** Sent and queued bytes together are exactly the chunks in order; every accepted line is whole;
      the line being assembled has no newline yet; the stage is never over its capacity; every
      newline staged is an accepted line, a drop some recorded report speaks of or a drop still to be
      reported; and nothing of a report ever waits in the queue. */
  ghost predicate Inv(c: Console) {
    && c.wire + c.queue == Flatten(c.order)
    && (forall i :: 0 <= i < |c.order| ==> ChunkOk(c.order[i]))
    && LF !in c.line
    && |c.queue| + |c.line| <= c.capacity
    && c.staged == Count(c.order, IsLine) + c.reported + c.dropped
    && c.reported == ReportedIn(c.order)
    && (forall i :: 0 <= i < |c.order| && c.order[i].Report? ==> |Flatten(c.order[..i + 1])| <= |c.wire|)
  }

  lemma FlattenAppend(order: seq<Chunk>, k: Chunk)
    ensures Flatten(order + [k]) == Flatten(order) + k.bytes
    ensures Count(order + [k], IsLine) == Count(order, IsLine) + if k.Line? then 1 else 0
    ensures ReportedIn(order + [k]) == ReportedIn(order) + if k.Report? then k.lines else 0
  {
    assert (order + [k])[..|order|] == order;
  }

  lemma ReportsStaySent(order: seq<Chunk>, k: Chunk, wire: string)
    requires forall i :: 0 <= i < |order| && order[i].Report? ==> |Flatten(order[..i + 1])| <= |wire|
    requires k.Report? ==> |Flatten(order + [k])| <= |wire|
    ensures forall i :: 0 <= i < |order + [k]| && (order + [k])[i].Report? ==>
              |Flatten((order + [k])[..i + 1])| <= |wire|
  {
    forall i | 0 <= i < |order + [k]| && (order + [k])[i].Report?
      ensures |Flatten((order + [k])[..i + 1])| <= |wire|
    {
      if i < |order| { assert (order + [k])[..i + 1] == order[..i + 1]; }
    }
    assert (order + [k])[..|order| + 1] == order + [k];
  }

  lemma SentKeeps(c: Console, taken: nat)
    requires Inv(c)
    ensures Inv(Sent(c, taken))
  {
    var k := Min(taken, |c.queue|);
    assert c.queue == c.queue[..k] + c.queue[k..];
    assert c.wire + c.queue[..k] + c.queue[k..] == c.wire + c.queue;
  }

  /** A line accepted whole. */
  lemma AcceptedKeeps(c: Console, l: string)
    requires Inv(c) && WholeLine(l) && |c.queue| + |l| <= c.capacity
    ensures Inv(c.(order := c.order + [Line(l)], queue := c.queue + l, line := "", staged := c.staged + 1))
  {
    FlattenAppend(c.order, Line(l));
    ReportsStaySent(c.order, Line(l), c.wire);
    assert c.wire + (c.queue + l) == c.wire + c.queue + l;
  }

  lemma StagedKeeps(c: Console, b: char, present: bool, taken: nat)
    requires Inv(c)
    ensures Inv(Staged(c, b, present, taken))
  {
    if b == LF && |c.queue| + |c.line| < c.capacity && !c.over && (present || c.queue != "") {
      var l := c.line + [b];
      AcceptedKeeps(c, l);
      SentKeeps(c.(order := c.order + [Line(l)], queue := c.queue + l, line := "", staged := c.staged + 1), taken);
    }
  }

  lemma ToldKeeps(c: Console, taken: nat)
    requires Inv(c)
    ensures Inv(Told(c, taken))
  {
    if MayTell(c) {
      var text := ReportText(c.dropped);
      var bytes := text[..Min(taken, |text|)];
      FlattenAppend(c.order, Report(c.dropped, bytes));
      assert Flatten(c.order) == c.wire;
      ReportsStaySent(c.order, Report(c.dropped, bytes), c.wire + bytes);
      assert c.wire + "" == c.wire && c.wire + bytes + "" == c.wire + bytes;
    }
  }

  /** Whatever is written, drained or reported, and whatever the host does. */
  lemma {:induction false} RunKeeps(c: Console, es: seq<Event>)
    requires Inv(c)
    ensures Inv(Run(c, es))
    decreases |es|
  {
    if es != [] {
      RunKeeps(c, es[..|es| - 1]);
      var d := Run(c, es[..|es| - 1]);
      match es[|es| - 1]
      case Byte(b, present, taken) => StagedKeeps(d, b, present, taken);
      case Drain(taken) => SentKeeps(d, taken);
      case Tell(taken) => ToldKeeps(d, taken);
    }
  }

  lemma StartInv(capacity: nat)
    ensures Inv(Start(capacity))
  {
  }

  /** History is only ever extended: what was accepted stays accepted, in its place, and what was
      sent stays sent. So no line is dropped once it has been accepted, let alone begun. */
  lemma {:induction false} RunExtends(c: Console, es: seq<Event>)
    ensures c.order <= Run(c, es).order && c.wire <= Run(c, es).wire
    decreases |es|
  {
    if es != [] { RunExtends(c, es[..|es| - 1]); }
  }

  /** Cutting a flattened sequence of chunks at the end of the wire: whole chunks in order, then a
      proper prefix of the next one. */
  lemma {:induction false} CutAt(wire: string, queue: string, order: seq<Chunk>) returns (m: nat, rest: string)
    requires wire + queue == Flatten(order)
    ensures m <= |order| && wire == Flatten(order[..m]) + rest
    ensures m == |order| ==> rest == ""
    ensures m < |order| ==> rest < order[m].bytes
    decreases |order|
  {
    if order == [] {
      return 0, "";
    }
    var last := order[|order| - 1].bytes;
    var init := order[..|order| - 1];
    TwoCuts(wire, queue, Flatten(init), last);
    if queue == "" {
      assert wire + "" == wire && order[..|order|] == order;
      return |order|, "";
    }
    if |wire| >= |Flatten(init)| { return |order| - 1, wire[|Flatten(init)|..]; }
    m, rest := CutAt(wire, Flatten(init)[|wire|..], init);
    assert init[..m] == order[..m];
  }

  /** The same bytes cut in two places. */
  lemma TwoCuts(w: string, q: string, a: string, b: string)
    requires w + q == a + b
    ensures |w| >= |a| ==> w == a + w[|a|..] && w[|a|..] + q == b
    ensures |w| < |a| ==> w + a[|w|..] == a
  {
    assert (w + q)[..|w|] == w && (w + q)[|w|..] == q;
    assert (a + b)[..|a|] == a && (a + b)[|a|..] == b;
  }

  /** The wire is whole chunks in order followed by at most a proper prefix of the next accepted
      line: no byte is skipped, no terminator lost, and a report only stands between lines. */
  lemma WireShape(c: Console) returns (m: nat, rest: string)
    requires Inv(c)
    ensures m <= |c.order| && c.wire == Flatten(c.order[..m]) + rest
    ensures m == |c.order| ==> rest == ""
    ensures m < |c.order| ==> c.order[m].Line? && rest < c.order[m].bytes
    ensures LF !in rest
  {
    m, rest := CutAt(c.wire, c.queue, c.order);
    if m < |c.order| {
      assert c.order[..m + 1][..m] == c.order[..m];
    }
  }
}
