/** What a receiver of the console's bytes reads: the records between newlines. */
module ConsoleWire {
  import opened Digits
  import opened Common
  import opened ConsoleQueue

  /** The newline-terminated records of a byte stream, and what follows the last of them. */
  function Split(s: string): (seq<string>, string) {
    if s == "" then ([], "")
    else
      var (ls, r) := Split(s[..|s| - 1]);
      if s[|s| - 1] == LF then (ls + [r + [LF]], "") else (ls, r + [s[|s| - 1]])
  }

  /** The chunks of which anything reached the wire. */
  ghost function Records(order: seq<Chunk>): seq<string> {
    if order == [] then []
    else Records(order[..|order| - 1]) + if order[|order| - 1].bytes == "" then [] else [order[|order| - 1].bytes]
  }

  /** Nothing of the chunk, or all of it: it is not cut. */
  predicate Whole(k: Chunk) { k.bytes == "" || k.bytes[|k.bytes| - 1] == LF }

  lemma {:induction false} SplitPlain(s: string, t: string)
    requires LF !in t
    ensures Split(s + t) == (Split(s).0, Split(s).1 + t)
    decreases |t|
  {
    if t == "" {
      assert s + t == s && Split(s).1 + t == Split(s).1;
    } else {
      SplitPlain(s, t[..|t| - 1]);
      assert (s + t)[..|s + t| - 1] == s + t[..|t| - 1];
      assert Split(s).1 + t == Split(s).1 + t[..|t| - 1] + [t[|t| - 1]];
    }
  }

  /** Records and remainder after a piece whose only newline can be its last byte: it completes one
      record or none. */
  function Extended(p: (seq<string>, string), b: string): (seq<string>, string) {
    if b != "" && b[|b| - 1] == LF then (p.0 + [p.1 + b], "") else (p.0, p.1 + b)
  }

  lemma SplitPiece(s: string, b: string)
    requires forall i :: 0 <= i < |b| - 1 ==> b[i] != LF
    ensures Split(s + b) == Extended(Split(s), b)
  {
    if b == "" {
      assert s + b == s && Split(s).1 + b == Split(s).1;
    } else {
      var t, c := b[..|b| - 1], b[|b| - 1];
      assert b == t + [c];
      SplitEnded(s, t, c);
    }
  }

  lemma SplitEnded(s: string, t: string, c: char)
    requires LF !in t
    ensures Split(s + (t + [c])) == Extended(Split(s), t + [c])
  {
    SplitPlain(s, t);
    SplitStep(s + t, c);
    assert s + (t + [c]) == (s + t) + [c];
    assert (Split(s).1 + t) + [c] == Split(s).1 + (t + [c]);
  }

  lemma SplitStep(s: string, c: char)
    ensures Split(s + [c]) == if c == LF then (Split(s).0 + [Split(s).1 + [LF]], "") else (Split(s).0, Split(s).1 + [c])
  {
    assert (s + [c])[..|s|] == s;
  }

  /** A newline can only be the last byte of a chunk. */
  lemma ChunkNewlines(k: Chunk)
    requires ChunkOk(k)
    ensures forall i :: 0 <= i < |k.bytes| - 1 ==> k.bytes[i] != LF
  {
    if k.Report? {
      var head := "!! CONSOLE_DROP lines=" + Decimal(k.lines);
      assert ReportText(k.lines) == head + [CR, LF];
    }
  }

  /** Chunks of which none is cut read back one by one. */
  lemma {:induction false} WholeChunksRead(order: seq<Chunk>)
    requires forall i :: 0 <= i < |order| ==> ChunkOk(order[i]) && Whole(order[i])
    ensures Split(Flatten(order)) == (Records(order), "")
    decreases |order|
  {
    if order != [] {
      var init, k := order[..|order| - 1], order[|order| - 1];
      WholeChunksRead(init);
      ChunkNewlines(k);
      SplitPiece(Flatten(init), k.bytes);
      assert "" + k.bytes == k.bytes;
      assert Whole(k) && Records(init) + [] == Records(init);
    }
  }

  /** A cut chunk loses a record: there are at most as many as chunks, and fewer when one is cut. */
  lemma {:induction false} CutChunksLose(order: seq<Chunk>)
    requires forall i :: 0 <= i < |order| ==> ChunkOk(order[i])
    ensures |Split(Flatten(order)).0| <= |Records(order)|
    ensures (exists i :: 0 <= i < |order| && !Whole(order[i])) ==> |Split(Flatten(order)).0| < |Records(order)|
    decreases |order|
  {
    if order != [] {
      var init, k := order[..|order| - 1], order[|order| - 1];
      CutChunksLose(init);
      ChunkNewlines(k);
      SplitPiece(Flatten(init), k.bytes);
      assert |Split(Flatten(order)).0| == |Split(Flatten(init)).0| + if k.bytes != "" && Whole(k) then 1 else 0;
      assert |Records(order)| == |Records(init)| + if k.bytes != "" then 1 else 0;
      if i :| 0 <= i < |init| && !Whole(order[i]) { assert !Whole(init[i]); }
    }
  }

  /** THE EXACT CONDITION. The records a receiver reads are exactly the accepted lines and the drop
      reports, each by itself, if and only if no report was cut: of every report written, the host
      took nothing or all. A cut one fuses with the line behind it. */
  lemma FragmentsNeverFuseExactly(c: Console, m: nat, rest: string)
    requires Inv(c) && m <= |c.order| && LF !in rest
    requires c.wire == Flatten(c.order[..m]) + rest
    ensures Split(c.wire) == (Records(c.order[..m]), rest) <==>
              forall i :: 0 <= i < m && c.order[i].Report? ==> Whole(c.order[i])
  {
    var sent := c.order[..m];
    SplitPlain(Flatten(sent), rest);
    assert "" + rest == rest;
    forall i | 0 <= i < m ensures ChunkOk(sent[i]) && (sent[i].Line? ==> Whole(sent[i])) {}
    if i :| 0 <= i < m && c.order[i].Report? && !Whole(c.order[i]) {
      assert !Whole(sent[i]);
      CutChunksLose(sent);
    } else {
      WholeChunksRead(sent);
    }
  }

  /** A host that takes five bytes of a report and then an empty line makes them one record. */
  lemma CutReportFuses()
    ensures var over := Staged(Staged(Staged(Start(1), 'x', true, 0), 'y', true, 0), LF, true, 0);
            var c := Staged(Told(over, 5), LF, true, 9);
            c.order == [Report(1, "!! CO"), Line([LF])] && Split(c.wire) == (["!! CO" + [LF]], "")
  {
    TwoBytesInOne();
    FiveTaken(Console(1, [], "", "", "", false, 1, 1, 0));
    EmptyLineGoesOut(Console(1, [Report(1, "!! CO")], "!! CO", "", "", false, 0, 1, 1));
    OneRecord("!! CO");
  }

  lemma TwoBytesInOne()
    ensures Staged(Staged(Staged(Start(1), 'x', true, 0), 'y', true, 0), LF, true, 0)
              == Console(1, [], "", "", "", false, 1, 1, 0)
  {
  }

  lemma FiveTaken(c: Console)
    requires c.dropped == 1 && c.queue == "" && c.line == "" && c.wire == "" && c.order == []
    ensures Told(c, 5)
              == c.(order := [Report(1, "!! CO")], wire := "!! CO", reported := c.reported + 1, dropped := 0)
  {
    FiveBytes();
    assert "" + "!! CO" == "!! CO";
  }

  /** An empty line staged on an idle console is sent at once. */
  lemma EmptyLineGoesOut(t: Console)
    requires t.capacity > 0 && t.queue == "" && t.line == "" && !t.over
    ensures Staged(t, LF, true, 9) == t.(order := t.order + [Line([LF])], wire := t.wire + [LF], staged := t.staged + 1)
  {
    var nl := [LF];
    assert "" + nl == nl && nl[..1] == nl && nl[1..] == "";
  }

  lemma OneRecord(s: string)
    requires LF !in s
    ensures Split(s + [LF]) == ([s + [LF]], "")
  {
    SplitEnded("", s, LF);
    assert Split("") == ([], "") && "" + (s + [LF]) == s + [LF];
    assert [] + [s + [LF]] == [s + [LF]];
  }

  lemma FiveBytes()
    ensures |ReportText(1)| >= 5 && ReportText(1)[..5] == "!! CO"
  {
    assert ReportText(1)[..5] == "!! CONSOLE_DROP lines="[..5];
  }
}
