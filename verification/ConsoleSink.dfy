/** The guarded console sink in its own form: one byte buffer with three indices, a partial drain
    in order, and lazy compaction. It refines the ideal queue of `ConsoleQueue`. */
module ConsoleSink {
  import opened Common
  import opened ConsoleQueue
  import opened ConsoleDrain
  import opened ConsoleLines
  import opened ConsolePort

  /** The serial port. It may be absent at any moment, offer any room, and take any part of what it
      is handed; nothing but `Write` reaches the wire. Handing it more than it has last offered would
      block, so that is not allowed. The ghost fields are its last answers, what it was last handed, and
      how often it has refused: was away, had no room, or took nothing of what it was handed. */
  class Serial {
    var wire: string
    ghost var present: bool
    ghost var room: int
    ghost var handed: string
    ghost var took: nat
    ghost var refusals: nat

    constructor ()
      ensures wire == ""
    {
      wire, present, room, handed, took, refusals := "", false, 0, "", 0, 0;
    }
    method Present() returns (here: bool)
      modifies this`present, this`refusals
      ensures present == here && refusals == old(refusals) + if here then 0 else 1
    {
      here := *;
      present, refusals := here, refusals + if here then 0 else 1;
    }
    method AvailableForWrite() returns (n: int)
      modifies this`room, this`refusals
      ensures room == n && refusals == old(refusals) + if n > 0 then 0 else 1
    {
      n := *;
      room, refusals := n, refusals + if n > 0 then 0 else 1;
    }
    method Write(bytes: string) returns (taken: nat)
      requires |bytes| <= room
      modifies this`wire, this`handed, this`took, this`refusals
      ensures taken <= |bytes| && wire == old(wire) + bytes[..taken] && handed == bytes && took == taken
      ensures refusals == old(refusals) + if bytes != "" && taken == 0 then 1 else 0
    {
      taken :| 0 <= taken <= |bytes|;
      wire := wire + bytes[..taken];
      handed, took, refusals := bytes, taken, refusals + if bytes != "" && taken == 0 then 1 else 0;
    }
  }

  /** Two adjacent runs moved together stay the two runs they were. */
  lemma Moved(was: string, now: string, out: nat, queue: nat, keep: nat)
    requires queue <= keep && out + keep <= |was| == |now| && now[0..keep] == was[out..out + keep]
    ensures now[0..queue] == was[out..out + queue] && now[queue..keep] == was[out + queue..out + keep]
  {
    Slices(was, out, out + queue, out + keep);
    Slices(now, 0, queue, keep);
  }

  /** The front of a run handed over, and the part of it taken. */
  lemma TakenFrom(b: string, out: nat, n: nat, taken: nat, pend: nat)
    requires taken <= n && out + n <= pend <= |b|
    ensures b[out..pend][..n] == b[out..out + n] && b[out..pend][..taken] == b[out..out + n][..taken]
    ensures b[out..pend][taken..] == b[out + taken..pend]
  {
    Slices(b, out, out + n, pend);
    Slices(b, out, out + taken, pend);
    Slices(b, out, out + taken, out + n);
  }

  /** A hand-over from a run of the buffer, as a step of the queue. */
  lemma OfferIs(c: Console, d: Console, b: string, out: nat, n: nat, taken: nat, pend: nat)
    requires taken <= n && out + n <= pend <= |b| && c.queue == b[out..pend]
    requires d == c.(wire := c.wire + b[out..out + n][..taken], queue := b[out + taken..pend])
    ensures d == Sent(c, taken) && c.queue[..n] == b[out..out + n]
  {
    TakenFrom(b, out, n, taken, pend);
    SentIs(c, d, taken);
  }

  /** A run of a buffer cut in two. */
  lemma Slices(s: string, a: nat, m: nat, b: nat)
    requires a <= m <= b <= |s|
    ensures s[a..b][..m - a] == s[a..m] && s[a..b][m - a..] == s[m..b]
  {
  }

  /** What the rest of the firmware does with the sink. */
  datatype Call = Print(bytes: string) | ServiceCall | FlushCall

  class GuardedConsole {
    const serial: Serial
    const buf: array<char>
    var out: nat      // everything before this index has been sent
    var pend: nat     // where the accepted bytes stop and the open line starts
    var line: nat     // length of the open line
    var over: bool    // the open line has lost a byte
    var dropped: nat  // losses no report has covered
    ghost var order: seq<Chunk>
    ghost var staged: nat
    ghost var reported: nat

    /** The indices lie in the stage, and an empty queue is an empty prefix. */
    ghost predicate Shape()
      reads this
    {
      out <= pend && pend + line <= buf.Length
    }
    ghost predicate Valid()
      reads this
    {
      Shape() && (out == pend ==> out == 0)
    }

    /** The ideal queue this object stands for; the index positions do not show. */
    ghost function Abs(): Console
      requires Shape()
      reads this, buf, serial
    {
      var b := buf[..];
      Console(buf.Length, order, serial.wire, b[out..pend], b[pend..pend + line], over, dropped, staged, reported)
    }

    constructor (serial: Serial, capacity: nat)
      requires serial.wire == ""
      ensures Valid() && fresh(buf) && this.serial == serial && Abs() == Start(capacity)
    {
      this.serial := serial;
      buf := new char[capacity](_ => ' ');
      out, pend, line, over, dropped := 0, 0, 0, false, 0;
      order, staged, reported := [], 0, 0;
    }

    /** Slide the unsent run and the line under assembly to the front. */
    method Compact()
      requires Shape()
      modifies this`out, this`pend, buf
      ensures Shape() && out == 0 && Abs() == old(Abs())
    {
      if out == 0 { return; }
      MoveRuns();
      pend := pend - out;
      out := 0;
    }

    /** Both runs at once: they are adjacent before and after. */
    method MoveRuns()
      requires Shape()
      modifies buf
      ensures var queue, was := pend - out, old(buf[..]);
              buf[..][0..queue] == was[out..pend] && buf[..][queue..queue + line] == was[pend..pend + line]
    {
      var keep := (pend - out) + line;
      MoveDown(keep);
      Moved(old(buf[..]), buf[..], out, pend - out, keep);
    }

    method MoveDown(keep: nat)
      requires out + keep <= buf.Length
      modifies buf
      ensures buf[..][0..keep] == old(buf[..])[out..out + keep]
    {
      ghost var was := buf[..];
      for i := 0 to keep
        invariant forall j :: 0 <= j < i ==> buf[j] == was[out + j]
        invariant forall j :: i <= j < buf.Length ==> buf[j] == was[j]
      {
        buf[i] := buf[out + i];
      }
    }

    /** Hand the port what it says it has room for, in order: with a host there and room, exactly as much of
        the front of the queue as there is room for. */
    method Pump() returns (ghost taken: nat)
      requires Shape()
      modifies this`out, this`pend, buf, serial
      ensures Valid() && Abs() == Sent(old(Abs()), taken) && serial.refusals >= old(serial.refusals)
      ensures old(Abs()).queue != "" ==> Handover(old(Abs()).queue, taken)
      ensures serial.refusals == old(serial.refusals) ==> taken >= 1
    {
      ghost var before := Abs();
      taken := 1;
      if out != pend { taken := PumpSome(); } else { NothingToSend(before, 1); }
      ghost var after := Abs();
      assert after == Sent(before, taken);
      if out == pend { Compact(); }
      assert Abs() == after;
    }

    method PumpSome() returns (ghost taken: nat)
      requires Shape() && out < pend
      modifies this`out, serial
      ensures Shape() && Abs() == Sent(old(Abs()), taken) && serial.refusals >= old(serial.refusals)
      ensures Handover(old(Abs()).queue, taken)
      ensures serial.refusals == old(serial.refusals) ==> taken >= 1
    {
      ghost var c, o, b := Abs(), out, buf[..];
      assert c.queue == b[o..pend] && |c.queue| == pend - o;
      ghost var n;
      n, taken := Offer();
      ghost var d := Abs();
      assert d == c.(wire := serial.wire, queue := b[out..pend]);
      OfferIs(c, d, b, o, n, taken, pend);
    }

    /** The port's last answers, and what the last pump made of them. */
    ghost predicate Handover(queue: string, taken: nat)
      reads serial
    {
      if serial.present && serial.room > 0 then
        serial.handed == queue[..Min(serial.room, |queue|)] && taken == serial.took <= |serial.handed|
      else taken == 0
    }

    /** As much as the port has room for; nothing when the host is away. */
    method Offer() returns (ghost n: nat, ghost taken: nat)
      requires Shape() && out < pend
      modifies this`out, serial
      ensures Shape() && taken <= n <= pend - old(out) && out == old(out) + taken
      ensures serial.wire == old(serial.wire) + buf[..][old(out)..old(out) + n][..taken]
      ensures if serial.present && serial.room > 0 then
                && n == Min(serial.room, pend - old(out))
                && serial.handed == buf[..][old(out)..old(out) + n] && serial.took == taken
              else taken == n == 0
      ensures serial.refusals >= old(serial.refusals) && (serial.refusals == old(serial.refusals) ==> taken >= 1)
    {
      taken := 0;
      var k := Room();
      n := k;
      if k > 0 {
        var got := serial.Write(buf[..][out..out + k]);
        out := out + got;
        taken := got;
      }
    }

    /** How many of the unsent bytes the port will take now. */
    method Room() returns (n: nat)
      requires Shape() && out < pend
      modifies serial`present, serial`room, serial`refusals
      ensures if serial.present && serial.room > 0 then n == Min(serial.room, pend - out) else n == 0
      ensures serial.refusals == old(serial.refusals) + if n > 0 then 0 else 1
    {
      var present := serial.Present();
      if !present { return 0; }
      var room := serial.AvailableForWrite();
      if room <= 0 { return 0; }
      n := if room < pend - out then room else pend - out;
    }

    /** End the line being assembled: drop it whole, or accept it whole. */
    method Commit() returns (present: bool, ghost taken: nat)
      requires Valid()
      modifies this`out, this`pend, this`line, this`over, this`dropped, this`order, buf, serial
      ensures Valid() && Abs() == Committed(old(Abs()), present, taken) && serial.refusals >= old(serial.refusals)
      ensures serial.refusals == old(serial.refusals) && !old(over) && old(line) > 0 ==> taken >= 1
    {
      present, taken := true, 0;
      if over {
        DropLine();
        return;
      }
      if line == 0 { return; }
      present := serial.Present();
      if !present && out == pend {
        DropLine();
        return;
      }
      taken := AcceptAndPump();
    }

    method AcceptAndPump() returns (ghost taken: nat)
      requires Valid()
      modifies this`out, this`pend, this`line, this`order, buf, serial
      ensures Valid() && serial.refusals >= old(serial.refusals)
      ensures var c := old(Abs());
              Abs() == Sent(c.(order := c.order + [Line(c.line)], queue := c.queue + c.line, line := ""), taken)
      ensures serial.refusals == old(serial.refusals) ==> taken >= 1
    {
      Accept();
      taken := Pump();
    }

    /** The whole line is lost and counted; nothing of it was ever handed over. */
    method DropLine()
      requires Valid()
      modifies this`line, this`over, this`dropped
      ensures Valid()
      ensures var c := old(Abs()); Abs() == c.(line := "", over := false, dropped := c.dropped + 1)
    {
      line, over, dropped := 0, false, dropped + 1;
    }

    /** Move the assembled line into the committed run; the two are already adjacent. */
    method Accept()
      requires Shape()
      modifies this`pend, this`line, this`order
      ensures Shape() && out == old(out)
      ensures var c := old(Abs()); Abs() == c.(order := c.order + [Line(c.line)], queue := c.queue + c.line, line := "")
    {
      Slices(buf[..], out, pend, pend + line);
      order := order + [Line(buf[pend..pend + line])];
      pend, line := pend + line, 0;
    }

    /** Put one byte into the line under assembly, reclaiming room first. */
    method Admit(b: char)
      requires Valid()
      modifies this`out, this`pend, this`line, this`over, buf
      ensures Valid() && Abs() == Admitted(old(Abs()), b)
    {
      if pend + line >= buf.Length { Compact(); }
      if pend + line < buf.Length {
        AddByte(b);
      } else {
        over := true;
      }
    }

    method AddByte(b: char)
      requires Valid() && pend + line < buf.Length
      modifies this`line, buf
      ensures Valid()
      ensures var c := old(Abs()); Abs() == c.(line := c.line + [b])
    {
      buf[pend + line] := b;
      line := line + 1;
      ghost var was, now := old(buf[..]), buf[..];
      assert now == was[pend + line - 1 := b];
      assert now[pend..pend + line] == was[pend..pend + line - 1] + [b] && now[out..pend] == was[out..pend];
    }

    /** Append one byte to the line being assembled; a newline ends it. */
    method Stage(b: char) returns (ghost e: Event)
      requires Valid()
      modifies this, buf, serial
      ensures Valid() && e.Byte? && e.b == b && Abs() == Apply(old(Abs()), e)
      ensures serial.refusals >= old(serial.refusals)
      ensures serial.refusals == old(serial.refusals) && b == LF && !Admitted(old(Abs()), b).over ==> e.taken >= 1
    {
      Admit(b);
      e := Byte(b, true, 0);
      if b == LF {
        ghost var present, taken := EndLine();
        e := Byte(b, present, taken);
      }
    }

    method EndLine() returns (ghost present: bool, ghost taken: nat)
      requires Valid()
      modifies this, buf, serial
      ensures Valid() && serial.refusals >= old(serial.refusals)
      ensures var c := old(Abs()); Abs() == Committed(c.(staged := c.staged + 1), present, taken)
      ensures serial.refusals == old(serial.refusals) && !old(over) && old(line) > 0 ==> taken >= 1
    {
      ghost var c := Abs();
      staged := staged + 1;
      assert Abs() == c.(staged := c.staged + 1);
      present, taken := Commit();
    }

    method Write(bytes: string) returns (n: nat, ghost es: seq<Event>)
      requires Valid()
      modifies this, buf, serial
      ensures Valid() && n == |bytes| == |es|
      ensures forall i :: 0 <= i < n ==> es[i].Byte? && es[i].b == bytes[i]
      ensures Abs() == Run(old(Abs()), es)
    {
      es := [];
      for i := 0 to |bytes|
        invariant Valid() && |es| == i && Abs() == Run(old(Abs()), es)
        invariant forall j :: 0 <= j < i ==> es[j].Byte? && es[j].b == bytes[j]
      {
        ghost var e := Stage(bytes[i]);
        RunSnoc(old(Abs()), es, e);
        es := es + [e];
      }
      n := |bytes|;
    }

    /** One pass of the main loop: end a line left open, drain, and report drops once idle. */
    method ServicePass() returns (ghost h: Host, ghost es: seq<Event>)
      requires Valid()
      modifies this, buf, serial
      ensures Valid() && Abs() == Service(old(Abs()), h)
      ensures es == Events(old(Abs()), h) && Abs() == Run(old(Abs()), es)
      ensures serial.refusals >= old(serial.refusals)
      ensures serial.refusals == old(serial.refusals) ==> h.taken >= 1
      ensures Abs().queue != "" ==> LeftOver(Abs().queue)
      ensures !h.room ==> !serial.present || serial.room < |ReportText(Abs().dropped)|
    {
      ghost var c := Abs();
      ghost var present, takenAtCommit, taken := CloseAndPump();
      ghost var c2 := Abs();
      ghost var room, takenOfReport := TellDrops();
      h := Host(present, takenAtCommit, taken, room, takenOfReport);
      es := Events(c, h);
      ServiceIsRun(c, h);
      PassIs(c, h, c2, Abs());
    }

    /** What a pass and a round of a flush have in common. */
    method CloseAndPump() returns (ghost present: bool, ghost takenAtCommit: nat, ghost taken: nat)
      requires Valid()
      modifies this, buf, serial
      ensures Valid() && Abs() == Sent(Closed(old(Abs()), present, takenAtCommit), taken)
      ensures serial.refusals >= old(serial.refusals) && (serial.refusals == old(serial.refusals) ==> taken >= 1)
      ensures Abs().queue != "" ==> LeftOver(Abs().queue)
    {
      present, takenAtCommit := CloseLine();
      ghost var c1 := Abs();
      taken := Pump();
      Leaves(c1.queue, taken);
    }

    /** Of what the port was last handed, all it did not take still waits in front, and it was handed as much as
        it had room for. */
    ghost predicate LeftOver(queue: string)
      reads serial
    {
      serial.present && serial.room > 0 ==>
        && serial.took <= |serial.handed| == Min(serial.room, serial.took + |queue|)
        && serial.handed[serial.took..] <= queue
    }

    lemma Leaves(queue: string, taken: nat)
      requires queue != "" ==> Handover(queue, taken)
      ensures var rest := queue[Min(taken, |queue|)..]; rest != "" ==> LeftOver(rest)
    {
    }

    /** End a line that has stored bytes. */
    method CloseLine() returns (ghost present: bool, ghost taken: nat)
      requires Valid()
      modifies this, buf, serial
      ensures Valid() && Abs() == Closed(old(Abs()), present, taken) && serial.refusals >= old(serial.refusals)
    {
      present, taken := true, 0;
      if line > 0 {
        ghost var e := Stage(CR);
        e := Stage(LF);
        present, taken := e.present, e.taken;
      }
    }

    /** The deferred drop report: written directly, whole, as soon as a host is there with room for it. */
    method TellDrops() returns (ghost told: bool, ghost taken: nat)
      requires Valid()
      modifies this`dropped, this`order, this`reported, serial
      ensures Valid() && Abs() == (if told then Told(old(Abs()), taken) else old(Abs()))
      ensures serial.refusals >= old(serial.refusals)
      ensures if MayTell(old(Abs())) then Report(old(Abs()).dropped, told, taken)
              else told && serial.present == old(serial.present) && serial.room == old(serial.room)
                   && serial.handed == old(serial.handed) && serial.took == old(serial.took)
    {
      told, taken := true, 0;
      if dropped > 0 && out == pend && line == 0 {
        var text := ReportText(dropped);
        var present := serial.Present();
        if !present {
          told := false;
          return;
        }
        var room := serial.AvailableForWrite();
        if room < |text| {
          told := false;
          return;
        }
        var k := serial.Write(text);
        taken := k;
        order := order + [ConsoleQueue.Report(dropped, text[..k])];
        reported := reported + dropped;
        dropped := 0;
      }
    }

    /** The port's last answers, and what the report of `n` drops made of them. */
    ghost predicate Report(n: nat, told: bool, taken: nat)
      reads serial
    {
      && (told <==> serial.present && serial.room >= |ReportText(n)|)
      && (told ==> serial.handed == ReportText(n) && taken == serial.took)
    }

    /** The bounded blocking drain of the reset path: against a port that takes bytes it sends up to 64
        pumps' worth, and everything when there is no more than that. */
    method Flush() returns (ghost es: seq<Event>)
      requires Valid()
      modifies this, buf, serial
      ensures Valid() && Abs() == Run(old(Abs()), es) && serial.refusals >= old(serial.refusals)
      ensures serial.refusals == old(serial.refusals) ==> Unsent(Abs()) <= Sub(Unsent(old(Abs())), 64)
      ensures es != [] && Abs().queue != "" ==> LeftOver(Abs().queue)
    {
      es := [];
      var present := serial.Present();
      if !present { return; }
      var i := 0;
      while i < 64 && (line > 0 || out != pend)
        invariant Valid() && Abs() == Run(old(Abs()), es) && 0 <= i <= 64 && serial.refusals >= old(serial.refusals)
        invariant serial.refusals == old(serial.refusals) ==> Unsent(Abs()) <= Sub(Unsent(old(Abs())), i)
        invariant es != [] && Abs().queue != "" ==> LeftOver(Abs().queue)
      {
        ghost var more := FlushOnce();
        RunAppend(old(Abs()), es, more);
        es := es + more;
        i := i + 1;
      }
    }

    method FlushOnce() returns (ghost es: seq<Event>)
      requires Valid()
      modifies this, buf, serial
      ensures Valid() && Abs() == Run(old(Abs()), es) && serial.refusals >= old(serial.refusals)
      ensures serial.refusals == old(serial.refusals) ==> Unsent(Abs()) <= Pred(Unsent(old(Abs())))
      ensures Abs().queue != "" ==> LeftOver(Abs().queue)
    {
      ghost var c := Abs();
      ghost var present, takenAtCommit, taken := CloseAndPump();
      ghost var h := Host(present, takenAtCommit, taken, false, 0);
      es := Events(c, h);
      ServiceIsRun(c, h);
      PassIs(c, h, Abs(), Abs());
      if taken >= 1 { PumpShrinks(c, present, takenAtCommit, taken); }
    }

    method Serve(call: Call) returns (ghost es: seq<Event>)
      requires Valid()
      modifies this, buf, serial
      ensures Valid() && Abs() == Run(old(Abs()), es)
    {
      match call
      case Print(bytes) =>
        var n;
        n, es := Write(bytes);
      case ServiceCall =>
        ghost var h;
        h, es := ServicePass();
      case FlushCall =>
        es := Flush();
    }
  }

  /** Any sequence of writes, service passes and flushes on a new sink, with any host, is one run of the
      ideal queue, so everything proved of runs holds of the wire it leaves. */
  method UseSink(serial: Serial, capacity: nat, calls: seq<Call>) returns (sink: GuardedConsole, ghost es: seq<Event>)
    requires serial.wire == ""
    modifies serial
    ensures fresh(sink) && sink.Valid() && sink.serial == serial && sink.Abs() == Run(Start(capacity), es)
    ensures Inv(sink.Abs()) && Follows(sink.Abs(), Start(capacity), es)
  {
    sink := new GuardedConsole(serial, capacity);
    es := [];
    for i := 0 to |calls|
      invariant fresh(sink) && fresh(sink.buf) && sink.Valid() && sink.serial == serial
      invariant sink.Abs() == Run(Start(capacity), es)
    {
      ghost var more := sink.Serve(calls[i]);
      RunAppend(Start(capacity), es, more);
      es := es + more;
    }
    StartInv(capacity);
    RunKeeps(Start(capacity), es);
    AcceptedAsWritten(capacity, es);
  }

  /** The main loop with nothing more written: `n` service passes. Against a port that never refuses they are
      passes the drain theorem speaks of, so enough of them send all that was accepted, and report all drops
      unless the report found too little room. */
  method IdlePasses(sink: GuardedConsole, n: nat) returns (ghost hs: seq<Host>)
    requires sink.Valid() && Inv(sink.Abs())
    modifies sink, sink.buf, sink.serial
    ensures sink.Valid() && |hs| == n && sink.Abs() == Passes(old(sink.Abs()), hs)
    ensures sink.serial.refusals == old(sink.serial.refusals) ==> forall i :: 0 <= i < n ==> hs[i].taken >= 1
    ensures var c, d := old(sink.Abs()), sink.Abs();
            sink.serial.refusals == old(sink.serial.refusals) && n >= |c.queue| + |c.line| + 2 ==>
              && d.wire == Flatten(d.order) && d.line == ""
              && (d.dropped == 0 || !sink.serial.present || sink.serial.room < |ReportText(d.dropped)|)
  {
    hs := ManyPasses(sink, n);
    ghost var c := old(sink.Abs());
    if sink.serial.refusals == old(sink.serial.refusals) && n >= |c.queue| + |c.line| + 2 { PassesDrain(c, hs); }
  }

  method ManyPasses(sink: GuardedConsole, n: nat) returns (ghost hs: seq<Host>)
    requires sink.Valid()
    modifies sink, sink.buf, sink.serial
    ensures sink.Valid() && |hs| == n && sink.Abs() == Passes(old(sink.Abs()), hs)
    ensures sink.serial.refusals == old(sink.serial.refusals) ==> forall i :: 0 <= i < n ==> hs[i].taken >= 1
    ensures n > 0 && !hs[n - 1].room ==>
              !sink.serial.present || sink.serial.room < |ReportText(sink.Abs().dropped)|
  {
    hs := [];
    ghost var r := sink.serial.refusals;
    for i := 0 to n
      invariant sink.Valid() && |hs| == i && sink.Abs() == Passes(old(sink.Abs()), hs)
      invariant sink.serial.refusals >= r
      invariant sink.serial.refusals == r ==> forall k :: 0 <= k < i ==> hs[k].taken >= 1
      invariant i > 0 && !hs[i - 1].room ==>
                  !sink.serial.present || sink.serial.room < |ReportText(sink.Abs().dropped)|
    {
      ghost var h := OnePass(sink);
      PassesSnoc(old(sink.Abs()), hs, h);
      hs := hs + [h];
    }
  }

  method OnePass(sink: GuardedConsole) returns (ghost h: Host)
    requires sink.Valid()
    modifies sink, sink.buf, sink.serial
    ensures sink.Valid() && sink.Abs() == Service(old(sink.Abs()), h)
    ensures sink.serial.refusals >= old(sink.serial.refusals)
    ensures sink.serial.refusals == old(sink.serial.refusals) ==> h.taken >= 1
    ensures !h.room ==> !sink.serial.present || sink.serial.room < |ReportText(sink.Abs().dropped)|
  {
    ghost var es;
    h, es := sink.ServicePass();
  }
}
