/** What a service pass comes to against a port that takes bytes: the step from what the port answers to
    the hosts the drain theorem speaks of. */
module ConsolePort {
  import opened Common
  import opened ConsoleQueue
  import opened ConsoleDrain

  /** The state a pass pumps from: a line left open has been ended. */
  function Closed(c: Console, present: bool, taken: nat): Console {
    if c.line != "" then Staged(Staged(c, CR, present, 0), LF, present, taken) else c
  }

  /** Bytes not yet sent, with the two that will end an open line. */
  function Unsent(c: Console): nat { |c.queue| + if c.line == "" then 0 else |c.line| + 2 }

  /** Ending the line and pumping once leaves a byte less. */
  lemma PumpShrinks(c: Console, present: bool, takenAtCommit: nat, taken: nat)
    requires taken >= 1
    ensures var d := Sent(Closed(c, present, takenAtCommit), taken);
            d.line == "" && |d.queue| <= Pred(Unsent(c))
  {
    if c.line != "" {
      var c1 := Staged(c, CR, present, 0);
      StagedBounds(c, CR, present, 0);
      StagedBounds(c1, LF, present, takenAtCommit);
    }
  }

  /** The parts of a pass put together. */
  lemma PassIs(c: Console, h: Host, c2: Console, d: Console)
    requires c2 == Sent(Closed(c, h.present, h.takenAtCommit), h.taken)
    requires d == if h.room then Told(c2, h.takenOfReport) else c2
    ensures d == Service(c, h)
  {
  }

  lemma NothingToSend(c: Console, taken: nat)
    requires c.queue == ""
    ensures Sent(c, taken) == c
  {
    assert c.wire + "" == c.wire;
  }

  lemma PassesSnoc(c: Console, hs: seq<Host>, g: Host)
    ensures Passes(c, hs + [g]) == Service(Passes(c, hs), g)
  {
    assert (hs + [g])[..|hs|] == hs;
  }
}
