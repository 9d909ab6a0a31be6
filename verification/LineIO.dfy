/** Byte streams cut into lines: the BLE line intake, the chunked reply, and the capture sink that
    ships each line as soon as it is complete. */
module LineIO {
  import opened Common

  // ---- the intake --------------------------------------------------------------------------------

  /** What the intake does with a finished line. */
  datatype Act = Dispatch(text: string) | TooLong

  /** The line being received: at most `capacity` of its bytes, and whether there were more. */
  datatype Intake = Intake(text: string, over: bool)
  const IDLE: Intake := Intake("", false)

  function Feed(s: Intake, capacity: nat, c: char): (Intake, seq<Act>) {
    if c == CR then (s, [])
    else if c == LF then (IDLE, if s.over then [TooLong] else if s.text != "" then [Dispatch(s.text)] else [])
    else if |s.text| < capacity then (Intake(s.text + [c], s.over), [])
    else (Intake(s.text, true), [])
  }

  function FeedAll(s: Intake, capacity: nat, bytes: string): (Intake, seq<Act>)
    decreases |bytes|
  {
    if bytes == "" then (s, [])
    else
      var (t, done) := FeedAll(s, capacity, bytes[..|bytes| - 1]);
      var (u, more) := Feed(t, capacity, bytes[|bytes| - 1]);
      (u, done + more)
  }

  /** The pieces of a stream fed one after the other. */
  function FeedPieces(s: Intake, capacity: nat, pieces: seq<string>): (Intake, seq<Act>)
    decreases |pieces|
  {
    if pieces == [] then (s, [])
    else
      var (t, done) := FeedPieces(s, capacity, pieces[..|pieces| - 1]);
      var (u, more) := FeedAll(t, capacity, pieces[|pieces| - 1]);
      (u, done + more)
  }

  /** However the stream is split across polls, the same lines come out in the same order. */
  lemma {:induction false} SplitsDoNotMatter(s: Intake, capacity: nat, pieces: seq<string>)
    ensures FeedPieces(s, capacity, pieces) == FeedAll(s, capacity, Concat(pieces))
    decreases |pieces|
  {
    if pieces != [] {
      SplitsDoNotMatter(s, capacity, pieces[..|pieces| - 1]);
      FeedAppend(s, capacity, Concat(pieces[..|pieces| - 1]), pieces[|pieces| - 1]);
    }
  }

  lemma {:induction false} FeedAppend(s: Intake, capacity: nat, a: string, b: string)
    ensures var (t, first) := FeedAll(s, capacity, a);
            var (u, second) := FeedAll(t, capacity, b);
            FeedAll(s, capacity, a + b) == (u, first + second)
    decreases |b|
  {
    if b == "" {
      assert a + b == a && FeedAll(s, capacity, a).1 + [] == FeedAll(s, capacity, a).1;
    } else {
      FeedAppend(s, capacity, a, b[..|b| - 1]);
      assert (a + b)[..|a + b| - 1] == a + b[..|b| - 1];
      var (t, first) := FeedAll(s, capacity, a);
      var (u, second) := FeedAll(t, capacity, b[..|b| - 1]);
      var (w, more) := Feed(u, capacity, b[|b| - 1]);
      assert first + (second + more) == (first + second) + more;
    }
  }

  // ---- what the lines of a stream are, said without a buffer ----------------------------------------

  function WithoutCr(bytes: string): string {
    if bytes == "" then ""
    else WithoutCr(bytes[..|bytes| - 1]) + if bytes[|bytes| - 1] == CR then "" else [bytes[|bytes| - 1]]
  }

  /** The newline-terminated lines of a stream, and what follows the last newline. */
  function Lines(bytes: string): (seq<string>, string) {
    if bytes == "" then ([], "")
    else
      var (ls, r) := Lines(bytes[..|bytes| - 1]);
      if bytes[|bytes| - 1] == LF then (ls + [r], "") else (ls, r + [bytes[|bytes| - 1]])
  }

  /** The act a whole line calls for: a line over the capacity is refused, an empty one is skipped. */
  function ActOf(capacity: nat, l: string): seq<Act> {
    if |l| > capacity then [TooLong] else if l == "" then [] else [Dispatch(l)]
  }
  function Acts(capacity: nat, ls: seq<string>): seq<Act> {
    if ls == [] then [] else Acts(capacity, ls[..|ls| - 1]) + ActOf(capacity, ls[|ls| - 1])
  }

  /** The intake's state after part of a line. */
  predicate Holds(s: Intake, capacity: nat, part: string) {
    s.text == part[..if |part| < capacity then |part| else capacity] && s.over == (|part| > capacity)
  }

  /** For every stream, the dispatched lines are exactly its non-empty lines within the capacity, carriage
      returns removed, in order, with one refusal for each longer line; and what is still held is the
      beginning of the unfinished line. */
  lemma {:induction false} IntakeIsLineSplitting(capacity: nat, bytes: string)
    ensures var (s, acts) := FeedAll(IDLE, capacity, bytes);
            var (ls, part) := Lines(WithoutCr(bytes));
            acts == Acts(capacity, ls) && Holds(s, capacity, part)
    decreases |bytes|
  {
    if bytes != "" {
      var init, c := bytes[..|bytes| - 1], bytes[|bytes| - 1];
      IntakeIsLineSplitting(capacity, init);
      if c == CR {
        assert WithoutCr(bytes) == WithoutCr(init) + "" == WithoutCr(init);
      } else {
        assert WithoutCr(bytes) == WithoutCr(init) + [c];
        assert (WithoutCr(init) + [c])[..|WithoutCr(init)|] == WithoutCr(init);
        var (ls, part) := Lines(WithoutCr(init));
        if c == LF {
          assert (ls + [part])[..|ls|] == ls;
          assert |part| <= capacity ==> part[..|part|] == part;
        } else {
          var n := if |part| < capacity then |part| else capacity;
          assert |part| < capacity ==> (part + [c])[..|part| + 1] == part[..n] + [c];
          assert |part| >= capacity ==> (part + [c])[..capacity] == part[..n];
        }
      }
    }
  }

  /** The intake in place: one buffer with room for a terminator, a position and a flag. */
  class LineIntake {
    const line: array<char>
    var pos: nat
    var overflow: bool
    var acts: seq<Act>

    ghost predicate Valid()
      reads this
    {
      line.Length > 0 && pos < line.Length
    }
    ghost function Value(): Intake
      requires Valid()
      reads this, line
    {
      Intake(line[..pos], overflow)
    }

    constructor (capacity: nat)
      ensures Valid() && fresh(line) && line.Length == capacity + 1 && Value() == IDLE && acts == []
    {
      line := new char[capacity + 1](_ => ' ');
      pos, overflow, acts := 0, false, [];
    }

    method DispatchCurrentLine()
      requires Valid()
      modifies this`pos, this`overflow, this`acts, line
      ensures Valid() && Value() == Feed(old(Value()), line.Length - 1, LF).0
      ensures acts == old(acts) + Feed(old(Value()), line.Length - 1, LF).1
    {
      ghost var text := line[..pos];
      line[pos] := 0 as char;
      assert line[..pos] == text;
      if overflow {
        acts := acts + [TooLong];
        overflow, pos := false, 0;
        return;
      }
      if pos > 0 { acts := acts + [Dispatch(line[..pos])]; }
      pos := 0;
    }

    /** Take everything the radio has for us now. */
    method ServiceRx(bytes: string)
      requires Valid()
      modifies this`pos, this`overflow, this`acts, line
      ensures Valid()
      ensures var (s, done) := FeedAll(old(Value()), line.Length - 1, bytes);
              Value() == s && acts == old(acts) + done
    {
      for i := 0 to |bytes|
        invariant Valid()
        invariant var (s, done) := FeedAll(old(Value()), line.Length - 1, bytes[..i]);
                  Value() == s && acts == old(acts) + done
      {
        assert bytes[..i + 1][..i] == bytes[..i];
        ghost var before := Value();
        var c := bytes[i];
        if c == CR { continue; }
        if c == LF {
          DispatchCurrentLine();
        } else if pos < line.Length - 1 {
          line[pos] := c;
          pos := pos + 1;
          assert line[..pos] == before.text + [c];
        } else {
          overflow := true;
        }
      }
      assert bytes[..|bytes|] == bytes;
    }
  }

  // ---- the chunked reply --------------------------------------------------------------------------

  function Concat(parts: seq<string>): string {
    if parts == [] then "" else Concat(parts[..|parts| - 1]) + parts[|parts| - 1]
  }

  lemma ConcatSnoc(parts: seq<string>, x: string)
    ensures Concat(parts + [x]) == Concat(parts) + x
  {
    assert (parts + [x])[..|parts|] == parts;
  }

  /** The payload one notification carries at this MTU. */
  function Payload(mtu: nat): nat { if mtu > 3 then mtu - 3 else 20 }

  /** A reply leaves as notifications that fit the payload and put together are the reply; with nobody
      connected nothing leaves. Every notification but the last is full. */
  method TxLine(connections: nat, mtu: nat, s: string) returns (sent: seq<string>)
    ensures connections == 0 ==> sent == []
    ensures connections > 0 ==> Concat(sent) == s
    ensures forall i :: 0 <= i < |sent| ==> 0 < |sent[i]| <= Payload(mtu)
    ensures forall i :: 0 <= i < |sent| - 1 ==> |sent[i]| == Payload(mtu)
    ensures forall i :: 0 <= i < |sent| ==> if mtu > 3 then |sent[i]| + 3 <= mtu else |sent[i]| <= 20
  {
    sent := [];
    if connections == 0 { return; }
    var chunk := Payload(mtu);
    var off := 0;
    while off < |s|
      invariant off <= |s| && Concat(sent) == s[..off]
      invariant forall i :: 0 <= i < |sent| ==> 0 < |sent[i]| <= chunk
      invariant off < |s| ==> forall i :: 0 <= i < |sent| ==> |sent[i]| == chunk
      invariant forall i :: 0 <= i < |sent| - 1 ==> |sent[i]| == chunk
      decreases |s| - off
    {
      var len := if |s| - off < chunk then |s| - off else chunk;
      ConcatSnoc(sent, s[off..off + len]);
      assert s[..off] + s[off..off + len] == s[..off + len];
      sent := sent + [s[off..off + len]];
      off := off + len;
    }
    assert s[..|s|] == s;
  }

  // ---- the capture sink ------------------------------------------------------------------------------

  /** What the sink has shipped and still holds. */
  datatype Sink = Sink(shipped: seq<string>, held: string)

  function Put(s: Sink, capacity: nat, c: char): Sink {
    var held := if |s.held| < capacity then s.held + [c] else s.held;
    if c == LF || |held| == capacity then Sink(s.shipped + [held], "") else Sink(s.shipped, held)
  }
  function PutAll(s: Sink, capacity: nat, bytes: string): Sink
    decreases |bytes|
  {
    if bytes == "" then s else Put(PutAll(s, capacity, bytes[..|bytes| - 1]), capacity, bytes[|bytes| - 1])
  }

  /** A shipment is a line, or a full buffer of a line too long for it; a newline only ends one. */
  predicate Shipment(capacity: nat, x: string) {
    && 0 < |x| <= capacity && (forall i :: 0 <= i < |x| - 1 ==> x[i] != LF)
    && (x[|x| - 1] == LF || |x| == capacity)
  }

  /** For every stream the shipments and the residue put together are the stream: nothing is lost, held
      back past a newline, or reordered, and the buffer is never overrun. */
  lemma {:induction false} SinkReproducesTheStream(capacity: nat, bytes: string)
    requires capacity > 0
    ensures Reproduces(PutAll(Sink([], ""), capacity, bytes), capacity, bytes)
    decreases |bytes|
  {
    if bytes != "" {
      var init, c := bytes[..|bytes| - 1], bytes[|bytes| - 1];
      SinkReproducesTheStream(capacity, init);
      assert init + [c] == bytes;
      PutKeepsTheStream(PutAll(Sink([], ""), capacity, init), capacity, init, c);
    }
  }

  /** The sink has shipped and holds exactly `bytes`. */
  ghost predicate Reproduces(s: Sink, capacity: nat, bytes: string) {
    && Concat(s.shipped) + s.held == bytes
    && (forall i :: 0 <= i < |s.shipped| ==> Shipment(capacity, s.shipped[i]))
    && LF !in s.held && |s.held| < capacity
  }

  lemma PutKeepsTheStream(s: Sink, capacity: nat, bytes: string, c: char)
    requires Reproduces(s, capacity, bytes)
    ensures Reproduces(Put(s, capacity, c), capacity, bytes + [c])
  {
    var x := s.held + [c];
    ConcatSnoc(s.shipped, x);
    assert Concat(s.shipped) + x == bytes + [c];
    assert Concat(s.shipped + [x]) + "" == Concat(s.shipped + [x]);
  }

  class LineSink {
    const buf: array<char>
    var len: nat
    var shipped: seq<string>

    ghost predicate Valid()
      reads this
    {
      0 < buf.Length && len < buf.Length
    }
    ghost function Value(): Sink
      requires Valid()
      reads this, buf
    {
      Sink(shipped, buf[..len])
    }

    constructor (capacity: nat)
      requires capacity > 0
      ensures Valid() && fresh(buf) && buf.Length == capacity && Value() == Sink([], "")
    {
      buf := new char[capacity](_ => ' ');
      len, shipped := 0, [];
    }

    method Write(c: char)
      requires Valid()
      modifies this`len, this`shipped, buf
      ensures Valid() && Value() == Put(old(Value()), buf.Length, c)
    {
      ghost var held := buf[..len];
      if len < buf.Length {
        buf[len] := c;
        len := len + 1;
      }
      assert buf[..len] == held + [c];
      if c == LF || len == buf.Length {
        shipped := shipped + [buf[..len]];
        len := 0;
      }
    }

    method WriteAll(bytes: string)
      requires Valid()
      modifies this`len, this`shipped, buf
      ensures Valid() && Value() == PutAll(old(Value()), buf.Length, bytes)
    {
      for i := 0 to |bytes|
        invariant Valid() && Value() == PutAll(old(Value()), buf.Length, bytes[..i])
      {
        assert bytes[..i + 1][..i] == bytes[..i];
        Write(bytes[i]);
      }
      assert bytes[..|bytes|] == bytes;
    }

    /** Ship a trailing line without its newline. */
    method Flush()
      requires Valid()
      modifies this`len, this`shipped
      ensures Valid() && Value().held == ""
      ensures Concat(shipped) == Concat(old(shipped)) + old(Value()).held
      ensures shipped == if old(len) > 0 then old(shipped) + [old(Value()).held] else old(shipped)
    {
      if len > 0 {
        ConcatSnoc(shipped, buf[..len]);
        shipped := shipped + [buf[..len]];
        len := 0;
      }
    }
  }
}
