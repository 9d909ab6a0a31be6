/** Printers and the parsers that read them back: hexadecimal keys, layer paths, strict indices and
    segment paths. */
module Codecs {
  import opened Common
  import opened Digits

  // ---- hexadecimal ---------------------------------------------------------------------------------

  predicate Hex(c: char) { '0' <= c <= '9' || 'a' <= c <= 'f' || 'A' <= c <= 'F' }

  function Nibble(c: char): (n: nat)
    requires Hex(c)
    ensures n < 16
  {
    if '0' <= c <= '9' then c as int - '0' as int
    else if 'a' <= c <= 'f' then c as int - 'a' as int + 10
    else c as int - 'A' as int + 10
  }

  function HexDigit(n: nat): (c: char)
    requires n < 16
    ensures Hex(c) && Nibble(c) == n && !('A' <= c <= 'F')
  {
    "0123456789abcdef"[n]
  }

  /** The digits are the ten decimal ones and then the letters from `a` on. */
  lemma HexDigitsInOrder(n: nat)
    requires n < 16
    ensures HexDigit(n) == if n < 10 then (n + '0' as int) as char else (n - 10 + 'a' as int) as char
  {
  }

  function Lower(c: char): char { if 'A' <= c <= 'F' then (c as int - 'A' as int + 'a' as int) as char else c }

  predicate Bytes(b: seq<nat>) { forall i :: 0 <= i < |b| ==> b[i] < 256 }

  /** Two lowercase digits per byte, the high nibble first. */
  function HexText(b: seq<nat>): (s: string)
    requires Bytes(b)
    ensures |s| == 2 * |b|
  {
    seq(2 * |b|, k requires 0 <= k < 2 * |b| => HexDigit(if k % 2 == 0 then b[k / 2] / 16 else b[k / 2] % 16))
  }

  /** The bytes that pairs of digits stand for. */
  function HexBytes(s: string): seq<nat>
    requires |s| % 2 == 0 && forall k :: 0 <= k < |s| ==> Hex(s[k])
  {
    seq(|s| / 2, i requires 0 <= i < |s| / 2 => 16 * Nibble(s[2 * i]) + Nibble(s[2 * i + 1]))
  }

  /** Exactly 64 hexadecimal digits, in either case, are a 32-byte value; nothing else is. */
  function ParseHex32(s: string): Option<seq<nat>> {
    if |s| == 64 && forall k :: 0 <= k < 64 ==> Hex(s[k]) then Some(HexBytes(s)) else None
  }

  /** Reading back a printed key gives the key. */
  lemma HexReadsBack(b: seq<nat>)
    requires |b| == 32 && Bytes(b)
    ensures ParseHex32(HexText(b)) == Some(b)
  {
    var t := HexText(b);
    forall i | 0 <= i < 32 ensures HexBytes(t)[i] == b[i] { HexDigitsAt(b, i); }
    assert HexBytes(t) == b;
  }

  /** Re-printing a parsed token gives its lowercase. */
  lemma HexPrintsLower(s: string)
    requires ParseHex32(s).Some?
    ensures var v := ParseHex32(s).value;
            && |v| == 32 && Bytes(v) && |HexText(v)| == |s| == 64
            && forall k :: 0 <= k < 64 ==> HexText(v)[k] == Lower(s[k])
  {
    var v := HexBytes(s);
    forall k | 0 <= k < 64 ensures HexText(v)[k] == Lower(s[k]) {
      var i := k / 2;
      PairPrintsLower(s, i);
      assert k == 2 * i || k == 2 * i + 1;
    }
  }

  lemma PairPrintsLower(s: string, i: nat)
    requires |s| == 64 && (forall k :: 0 <= k < 64 ==> Hex(s[k])) && i < 32
    ensures HexText(HexBytes(s))[2 * i] == Lower(s[2 * i]) && HexText(HexBytes(s))[2 * i + 1] == Lower(s[2 * i + 1])
  {
    HexPair(s, i);
    HexDigitsAt(HexBytes(s), i);
    LowerDigit(s[2 * i]);
    LowerDigit(s[2 * i + 1]);
  }

  lemma HexPair(s: string, i: nat)
    requires |s| == 64 && (forall k :: 0 <= k < 64 ==> Hex(s[k])) && i < 32
    ensures HexBytes(s)[i] / 16 == Nibble(s[2 * i]) && HexBytes(s)[i] % 16 == Nibble(s[2 * i + 1])
  {
    assert HexBytes(s)[i] == 16 * Nibble(s[2 * i]) + Nibble(s[2 * i + 1]);
  }

  /** The digits of byte `i`. */
  lemma HexDigitsAt(b: seq<nat>, i: nat)
    requires Bytes(b) && i < |b|
    ensures HexText(b)[2 * i] == HexDigit(b[i] / 16) && HexText(b)[2 * i + 1] == HexDigit(b[i] % 16)
  {
    assert (2 * i) / 2 == i && (2 * i + 1) / 2 == i && (2 * i) % 2 == 0 && (2 * i + 1) % 2 == 1;
  }

  lemma LowerDigit(c: char)
    requires Hex(c)
    ensures HexDigit(Nibble(c)) == Lower(c)
  {
    var d := HexDigit(Nibble(c));
    assert '0' <= d <= '9' || 'a' <= d <= 'f';
  }

  method PrintHex(b: array<nat>, n: nat, out: array<char>)
    requires n <= b.Length && 2 * n < out.Length && Bytes(b[..n])
    modifies out
    ensures out[..2 * n] == HexText(b[..n]) && out[2 * n] == NUL
    ensures forall k :: 2 * n < k < out.Length ==> out[k] == old(out[k])
  {
    ghost var bytes := b[..n];
    for i := 0 to n
      invariant forall k :: 0 <= k < 2 * i ==>
                  out[k] == HexDigit(if k % 2 == 0 then bytes[k / 2] / 16 else bytes[k / 2] % 16)
      invariant forall k :: 2 * n < k < out.Length ==> out[k] == old(out[k])
    {
      assert b[i] == bytes[i];
      out[2 * i] := HexDigit(b[i] / 16);
      out[2 * i + 1] := HexDigit(b[i] % 16);
    }
    out[2 * n] := NUL;
  }

  /** The character of a terminated string at `k`: its terminator when the text has ended. */
  function CharAt(s: string, k: nat): char { if k < |s| then s[k] else NUL }

  /** `out` is written only when the whole token is good. */
  method ReadHex32(s: string, out: array<nat>) returns (ok: bool)
    requires out.Length == 32 && NUL !in s
    modifies out
    ensures ok == ParseHex32(s).Some?
    ensures out[..] == if ok then ParseHex32(s).value else old(out[..])
  {
    var buf := new nat[32](_ => 0);
    for i := 0 to 32
      invariant 2 * i <= |s| && forall k :: 0 <= k < 2 * i ==> Hex(s[k])
      invariant forall k :: 0 <= k < i ==> buf[k] == 16 * Nibble(s[2 * k]) + Nibble(s[2 * k + 1])
      invariant out[..] == old(out[..])
    {
      var hi := CharAt(s, 2 * i);
      if !Hex(hi) { return false; }
      var lo := CharAt(s, 2 * i + 1);
      if !Hex(lo) { return false; }
      buf[i] := 16 * Nibble(hi) + Nibble(lo);
    }
    if CharAt(s, 64) != NUL { return false; }
    for i := 0 to 32
      invariant forall k :: 0 <= k < i ==> out[k] == buf[k]
      invariant forall k :: 0 <= k < 32 ==> buf[k] == 16 * Nibble(s[2 * k]) + Nibble(s[2 * k + 1])
    {
      out[i] := buf[i];
    }
    assert out[..] == HexBytes(s);
    return true;
  }

  // ---- layer paths ---------------------------------------------------------------------------------

  const HOP_MAX: nat := 3

  /** The first position from `i` on that is not a digit. */
  function DigitsEnd(v: string, i: nat): (e: nat)
    requires i <= |v|
    ensures i <= e <= |v| && AllDigits(v[i..e]) && (e < |v| ==> !IsDigit(v[e]))
    decreases |v| - i
  {
    if i == |v| || !IsDigit(v[i]) then i
    else
      var e := DigitsEnd(v, i + 1);
      assert v[i..e] == [v[i]] + v[i + 1..e];
      e
  }

  /** A comma-separated path from position `i` on, `n` hops having been read. */
  function PathFrom(v: string, i: nat, n: nat): Option<seq<nat>>
    requires i <= |v|
    decreases |v| - i
  {
    var e := DigitsEnd(v, i);
    if n >= HOP_MAX || e == i || Value(v[i..e]) == 0 || Value(v[i..e]) > 255 then None
    else if e == |v| then Some([Value(v[i..e])])
    else if v[e] != ',' then None
    else
      match PathFrom(v, e + 1, n + 1)
      case None => None
      case Some(rest) => Some([Value(v[i..e])] + rest)
  }

  /** `none`, or one to three layers of 1..255. */
  function ParseLayers(v: string): Option<seq<nat>> {
    if v == "none" then Some([]) else PathFrom(v, 0, 0)
  }

  predicate Layers(hops: seq<nat>) {
    |hops| <= HOP_MAX && forall i :: 0 <= i < |hops| ==> 1 <= hops[i] <= 255
  }

  function Joined(hops: seq<nat>): string
    requires hops != []
  {
    if |hops| == 1 then Decimal(hops[0]) else Decimal(hops[0]) + "," + Joined(hops[1..])
  }
  /** The text a listing row shows for a path. */
  function LayersText(hops: seq<nat>): string { if hops == [] then "none" else Joined(hops) }

  lemma {:induction false} DigitsEndIs(v: string, i: nat, e: nat)
    requires i <= e <= |v| && AllDigits(v[i..e]) && (e < |v| ==> !IsDigit(v[e]))
    ensures DigitsEnd(v, i) == e
    decreases e - i
  {
    if i < e {
      assert v[i..e][0] == v[i] && v[i + 1..e] == v[i..e][1..];
      DigitsEndIs(v, i + 1, e);
    }
  }

  lemma {:induction false} JoinedReadsBack(v: string, i: nat, hops: seq<nat>, n: nat)
    requires hops != [] && n + |hops| <= HOP_MAX && Layers(hops)
    requires i <= |v| && v[i..] == Joined(hops)
    ensures PathFrom(v, i, n) == Some(hops)
    decreases |hops|
  {
    var e := FirstHopParsed(v, i, hops, n);
    if |hops| > 1 { JoinedReadsBack(v, e + 1, hops[1..], n + 1); }
  }

  lemma FirstHopParsed(v: string, i: nat, hops: seq<nat>, n: nat) returns (e: nat)
    requires hops != [] && n + |hops| <= HOP_MAX && Layers(hops)
    requires i <= |v| && v[i..] == Joined(hops)
    ensures |hops| == 1 ==> PathFrom(v, i, n) == Some(hops)
    ensures |hops| > 1 ==> e < |v| && v[e + 1..] == Joined(hops[1..])
    ensures |hops| > 1 ==> (PathFrom(v, e + 1, n + 1) == Some(hops[1..]) ==> PathFrom(v, i, n) == Some(hops))
  {
    e := FirstHop(v, i, hops);
    OneHop(v, i, n, e, hops[0]);
    assert [hops[0]] + hops[1..] == hops;
    if |hops| == 1 { assert hops == [hops[0]]; }
  }

  /** What one element of a path contributes. */
  lemma OneHop(v: string, i: nat, n: nat, e: nat, x: nat)
    requires i < e <= |v| && AllDigits(v[i..e]) && (e < |v| ==> !IsDigit(v[e]))
    requires Value(v[i..e]) == x && 1 <= x <= 255 && n < HOP_MAX
    ensures e == |v| ==> PathFrom(v, i, n) == Some([x])
    ensures e < |v| && v[e] != ',' ==> PathFrom(v, i, n) == None
    ensures e < |v| && v[e] == ',' ==>
              PathFrom(v, i, n) == match PathFrom(v, e + 1, n + 1) { case None => None case Some(t) => Some([x] + t) }
  {
    DigitsEndIs(v, i, e);
  }

  lemma FirstHop(v: string, i: nat, hops: seq<nat>) returns (e: nat)
    requires hops != [] && i <= |v| && v[i..] == Joined(hops)
    ensures i < e <= |v| && AllDigits(v[i..e]) && Value(v[i..e]) == hops[0]
    ensures e == |v| <==> |hops| == 1
    ensures e < |v| ==> v[e] == ',' && v[e + 1..] == Joined(hops[1..])
  {
    var d := Decimal(hops[0]);
    DecimalRoundTrip(hops[0]);
    e := i + |d|;
    assert v[i..][..|d|] == d && v[i..e] == v[i..][..|d|];
    if |hops| > 1 {
      assert v[i..] == d + "," + Joined(hops[1..]);
      assert v[i..][|d|] == ',' && v[i..][|d| + 1..] == Joined(hops[1..]);
      assert v[e + 1..] == v[i..][|d| + 1..];
    }
  }

  /** Every path the book can hold reads back from the text its row shows. */
  lemma LayersRoundTrip(hops: seq<nat>)
    requires Layers(hops)
    ensures ParseLayers(LayersText(hops)) == Some(hops)
  {
    if hops != [] {
      var v := Joined(hops);
      assert IsDigit(v[0]) && "none"[0] == 'n';
      assert v[0..] == v;
      JoinedReadsBack(v, 0, hops, 0);
    }
  }

  /** Whatever is accepted is a path the book can hold. */
  lemma {:induction false} PathFromSound(v: string, i: nat, n: nat)
    requires i <= |v| && n <= HOP_MAX && PathFrom(v, i, n).Some?
    ensures var hops := PathFrom(v, i, n).value;
            1 <= |hops| && n + |hops| <= HOP_MAX && forall k :: 0 <= k < |hops| ==> 1 <= hops[k] <= 255
    decreases |v| - i
  {
    var e := DigitsEnd(v, i);
    if e < |v| { PathFromSound(v, e + 1, n + 1); }
  }

  lemma LayersSound(v: string)
    requires ParseLayers(v).Some?
    ensures Layers(ParseLayers(v).value) && ParseLayers(LayersText(ParseLayers(v).value)) == ParseLayers(v)
  {
    if v != "none" { PathFromSound(v, 0, 0); }
    LayersRoundTrip(ParseLayers(v).value);
  }

  /** Decimal texts with commas between them. */
  function CommaList(parts: seq<string>): string
    requires parts != []
  {
    if |parts| == 1 then parts[0] else parts[0] + "," + CommaList(parts[1..])
  }
  predicate Numbers(parts: seq<string>) { forall i :: 0 <= i < |parts| ==> parts[i] != "" && AllDigits(parts[i]) }
  function Values(parts: seq<string>): (vs: seq<nat>)
    requires Numbers(parts)
    ensures |vs| == |parts|
  {
    seq(|parts|, i requires 0 <= i < |parts| => Value(parts[i]))
  }
  predicate InRange(vs: seq<nat>) { forall i :: 0 <= i < |vs| ==> 1 <= vs[i] <= 255 }

  /** The first text of a list, seen from its position. */
  lemma FirstPart(v: string, i: nat, parts: seq<string>) returns (e: nat)
    requires parts != [] && Numbers(parts) && i <= |v| && v[i..] == CommaList(parts)
    ensures i < e <= |v| && v[i..e] == parts[0] && DigitsEnd(v, i) == e
    ensures e == |v| <==> |parts| == 1
    ensures e < |v| ==> v[e] == ',' && v[e + 1..] == CommaList(parts[1..])
  {
    var d := parts[0];
    e := i + |d|;
    assert v[i..][..|d|] == d && v[i..e] == v[i..][..|d|];
    if |parts| > 1 {
      assert v[i..] == d + "," + CommaList(parts[1..]);
      assert v[i..][|d|] == ',' && v[i..][|d| + 1..] == CommaList(parts[1..]);
      assert v[e + 1..] == v[i..][|d| + 1..];
    }
    DigitsEndIs(v, i, e);
  }

  /** The path these layers are when `n` hops have been read, if they are one. */
  function Outcome(vs: seq<nat>, n: nat): Option<seq<nat>> {
    if n + |vs| <= HOP_MAX && InRange(vs) then Some(vs) else None
  }

  lemma OutcomeStep(x: nat, rest: seq<nat>, n: nat)
    ensures Outcome([x] + rest, n) ==
              if !(1 <= x <= 255) then None
              else match Outcome(rest, n + 1) { case None => None case Some(t) => Some([x] + t) }
  {
    InRangeStep([x] + rest, rest);
  }

  /** A list of decimal texts is a path exactly when there are no more of them than hops left and each is
      worth a layer; leading zeros do not matter. */
  lemma {:induction false} ListIsPath(v: string, i: nat, parts: seq<string>, n: nat)
    requires parts != [] && Numbers(parts) && i <= |v| && v[i..] == CommaList(parts) && n <= HOP_MAX
    ensures PathFrom(v, i, n) == Outcome(Values(parts), n)
    decreases |parts|
  {
    var e := ListFirst(v, i, parts, n);
    if |parts| > 1 && n < HOP_MAX { ListIsPath(v, e + 1, parts[1..], n + 1); }
  }

  lemma ListFirst(v: string, i: nat, parts: seq<string>, n: nat) returns (e: nat)
    requires parts != [] && Numbers(parts) && i <= |v| && v[i..] == CommaList(parts) && n <= HOP_MAX
    ensures Numbers(parts[1..])
    ensures if |parts| == 1 || n == HOP_MAX then PathFrom(v, i, n) == Outcome(Values(parts), n)
            else
              && e < |v| && v[e + 1..] == CommaList(parts[1..])
              && (PathFrom(v, e + 1, n + 1) == Outcome(Values(parts[1..]), n + 1) ==>
                    PathFrom(v, i, n) == Outcome(Values(parts), n))
  {
    e := FirstPart(v, i, parts);
    var x, rest := Value(parts[0]), Values(parts[1..]);
    PathStep(v, i, n, e, x);
    ValuesStep(parts);
    OutcomeStep(x, rest, n);
    if |parts| == 1 { assert rest == [] && [x] + [] == [x]; }
  }

  lemma PathStep(v: string, i: nat, n: nat, e: nat, x: nat)
    requires i < e <= |v| && DigitsEnd(v, i) == e && Value(v[i..e]) == x && n <= HOP_MAX
    ensures n == HOP_MAX || !(1 <= x <= 255) ==> PathFrom(v, i, n) == None
    ensures n < HOP_MAX && 1 <= x <= 255 && e == |v| ==> PathFrom(v, i, n) == Some([x])
    ensures n < HOP_MAX && 1 <= x <= 255 && e < |v| && v[e] == ',' ==>
              PathFrom(v, i, n) == match PathFrom(v, e + 1, n + 1) { case None => None case Some(t) => Some([x] + t) }
  {
  }

  lemma ValuesStep(parts: seq<string>)
    requires parts != [] && Numbers(parts)
    ensures Values(parts) == [Value(parts[0])] + Values(parts[1..])
    ensures InRange(Values(parts)) <==> 1 <= Value(parts[0]) <= 255 && InRange(Values(parts[1..]))
  {
    var vs, rest := Values(parts), Values(parts[1..]);
    assert vs == [Value(parts[0])] + rest;
    InRangeStep(vs, rest);
  }

  lemma InRangeStep(vs: seq<nat>, rest: seq<nat>)
    requires vs != [] && vs == [vs[0]] + rest
    ensures InRange(vs) <==> 1 <= vs[0] <= 255 && InRange(rest)
  {
    assert forall i :: 0 <= i < |rest| ==> rest[i] == vs[i + 1];
  }

  /** And whatever is a path is such a list. */
  lemma {:induction false} PathIsList(v: string, i: nat, n: nat) returns (parts: seq<string>)
    requires i <= |v| && n <= HOP_MAX && PathFrom(v, i, n).Some?
    ensures parts != [] && Numbers(parts) && v[i..] == CommaList(parts)
    decreases |v| - i
  {
    var e := DigitsEnd(v, i);
    if e == |v| {
      parts := [v[i..]];
      assert v[i..e] == v[i..];
    } else {
      var rest := PathIsList(v, e + 1, n + 1);
      parts := [v[i..e]] + rest;
      assert parts[1..] == rest;
      assert v[i..] == v[i..e] + "," + v[e + 1..];
    }
  }

  /** THE ACCEPTED PATHS. Exactly `none` and the lists of one to three decimal texts worth 1 to 255 each. */
  lemma LayersAcceptedExactly(v: string)
    ensures ParseLayers(v).Some? <==> v == "none" || exists parts :: PathText(v, parts)
    ensures forall parts :: PathText(v, parts) ==> ParseLayers(v) == Some(Values(parts))
  {
    assert v[0..] == v;
    forall parts | PathText(v, parts) ensures ParseLayers(v) == Some(Values(parts)) {
      ListIsPath(v, 0, parts, 0);
      var e := FirstPart(v, 0, parts);
      assert IsDigit(v[0..e][0]) && "none"[0] == 'n';
    }
    if ParseLayers(v).Some? && v != "none" {
      var parts := PathIsList(v, 0, 0);
      ListIsPath(v, 0, parts, 0);
      assert PathText(v, parts);
    }
  }

  predicate PathText(v: string, parts: seq<string>) {
    1 <= |parts| <= HOP_MAX && Numbers(parts) && InRange(Values(parts)) && v == CommaList(parts)
  }

  lemma DigitsSnoc(s: string, c: char)
    requires AllDigits(s) && IsDigit(c)
    ensures AllDigits(s + [c]) && Value(s + [c]) == Value(s) * 10 + DigitValue(c)
  {
    assert (s + [c])[..|s|] == s;
  }

  /** Once the digits read so far stand for too much, so do all of them. */
  lemma TooLarge(v: string, start: nat, e: nat)
    requires start < e <= |v| && AllDigits(v[start..e])
    ensures DigitsEnd(v, start) > start && Value(v[start..e]) <= Value(v[start..DigitsEnd(v, start)])
  {
    var stop := DigitsEnd(v, start);
    assert forall i :: start <= i < e ==> v[i] == v[start..e][i - start];
    ValueGrows(v[start..stop], e - start);
    assert v[start..stop][..e - start] == v[start..e];
  }

  /** One decimal element of 1..255 from position `start` on, refused as soon as it is too large. */
  method ReadHop(v: string, start: nat) returns (ok: bool, x: nat, e: nat)
    requires start <= |v|
    ensures e <= |v|
    ensures ok <==> var stop := DigitsEnd(v, start); stop > start && 1 <= Value(v[start..stop]) <= 255
    ensures ok ==> e == DigitsEnd(v, start) && x == Value(v[start..e])
  {
    e, x := start, 0;
    while e < |v| && IsDigit(v[e])
      invariant start <= e <= |v| && AllDigits(v[start..e]) && x == Value(v[start..e]) <= 255
    {
      NextDigit(v, start, e);
      x := x * 10 + DigitValue(v[e]);
      e := e + 1;
      if x > 255 {
        TooLarge(v, start, e);
        return false, x, e;
      }
    }
    DigitsEndIs(v, start, e);
    ok := e > start && x > 0;
  }

  lemma NextDigit(v: string, start: nat, e: nat)
    requires start <= e < |v| && AllDigits(v[start..e]) && IsDigit(v[e])
    ensures AllDigits(v[start..e + 1]) && Value(v[start..e + 1]) == Value(v[start..e]) * 10 + DigitValue(v[e])
  {
    assert v[start..e + 1] == v[start..e] + [v[e]];
    DigitsSnoc(v[start..e], v[e]);
  }

  method ReadLayers(v: string) returns (ok: bool, hops: seq<nat>)
    ensures ok == ParseLayers(v).Some?
    ensures ok ==> hops == ParseLayers(v).value
  {
    hops := [];
    if v == "none" { return true, []; }
    var i := 0;
    assert forall t: seq<nat> :: [] + t == t;
    while i < |v|
      invariant i <= |v| && |hops| <= HOP_MAX && (i == |v| ==> v == "")
      invariant PathFrom(v, 0, 0) == match PathFrom(v, i, |hops|) { case None => None case Some(t) => Some(hops + t) }
      decreases |v| - i
    {
      if |hops| >= HOP_MAX { return false, hops; }
      var good, x, e := ReadHop(v, i);
      if !good { return false, hops; }
      OneHop(v, i, |hops|, e, x);
      ghost var done := hops;
      hops := hops + [x];
      assert forall t: seq<nat> :: done + ([x] + t) == hops + t;
      if e == |v| { return true, hops; }
      if v[e] != ',' { return false, hops; }
      i := e + 1;
      if i == |v| { return false, hops; }
    }
    return false, hops;
  }

  // ---- strict indices and segment paths ------------------------------------------------------------------

  const INDEX_MAX: nat := 2147483647

  /** The whole token must be decimal digits that stand for at most 2^31 - 1, whatever its length. */
  method ReadIndex(s: string) returns (v: Option<nat>)
    ensures v.Some? <==> s != "" && AllDigits(s) && Value(s) <= INDEX_MAX
    ensures v.Some? ==> v.value == Value(s)
  {
    if s == "" { return None; }
    var acc := 0;
    for i := 0 to |s|
      invariant AllDigits(s[..i]) && acc == Value(s[..i]) <= INDEX_MAX
    {
      if !IsDigit(s[i]) { return None; }
      var d := DigitValue(s[i]);
      assert s[..i + 1][..i] == s[..i];
      if acc > (INDEX_MAX - d) / 10 {
        if AllDigits(s) {
          ValueGrows(s, i + 1);
        }
        return None;
      }
      acc := acc * 10 + d;
    }
    assert s[..|s|] == s;
    return Some(acc);
  }

  /** A printed index is accepted and read back as itself. */
  method IndexRoundTrip(n: nat) returns (v: Option<nat>)
    ensures v == if n <= INDEX_MAX then Some(n) else None
  {
    DecimalRoundTrip(n);
    v := ReadIndex(Decimal(n));
  }

  function SegmentPath(dir: string, idx: nat): string { dir + "/" + Decimal(idx) }

  function Clipped(s: string, cap: nat): string
    requires cap > 0
  {
    if |s| < cap then s else s[..cap - 1]
  }

  /** The digits of a 16-bit index, lowest first, as the code collects them. */
  method CollectDigits(idx: nat) returns (digits: string)
    requires idx < 65536
    ensures 1 <= |digits| <= 5
    ensures |digits| == |Decimal(idx)| && forall k :: 0 <= k < |digits| ==> digits[k] == Decimal(idx)[|digits| - 1 - k]
  {
    digits := [DigitChar(idx % 10)];
    var v := idx / 10;
    ghost var scale := 10;
    while v > 0
      invariant 1 <= |digits| <= 5 && v <= 6553
      invariant |digits| == 1 ==> v <= 6553
      invariant |digits| == 2 ==> v <= 655
      invariant |digits| == 3 ==> v <= 65
      invariant |digits| == 4 ==> v <= 6
      invariant |digits| == 5 ==> v == 0
      invariant Decimal(idx) == (if v > 0 then Decimal(v) else "") + Reverse(digits)
      decreases v
    {
      DigitStep(v, digits);
      digits := digits + [DigitChar(v % 10)];
      v := v / 10;
    }
  }

  lemma DigitStep(v: nat, digits: string)
    requires v > 0
    ensures var c := DigitChar(v % 10);
            Decimal(v) + Reverse(digits) == (if v >= 10 then Decimal(v / 10) else "") + Reverse(digits + [c])
  {
    var c := DigitChar(v % 10);
    assert Reverse(digits + [c]) == [c] + Reverse(digits);
  }

  function Reverse(s: string): (r: string)
    ensures |r| == |s| && forall k :: 0 <= k < |s| ==> r[k] == s[|s| - 1 - k]
  {
    seq(|s|, k requires 0 <= k < |s| => s[|s| - 1 - k])
  }

  /** Copy `dir` and a separator, as much as leaves room for a terminator. */
  method WriteDirectory(dir: string, out: array<char>) returns (p: nat)
    requires out.Length > 0
    modifies out
    ensures p < out.Length && p <= |dir| + 1 && out[..p] == (dir + "/")[..p] && (p + 1 == out.Length || p == |dir| + 1)
    ensures forall k :: p <= k < out.Length ==> out[k] == old(out[k])
  {
    p := 0;
    while p < |dir| && p + 1 < out.Length
      invariant p <= |dir| && p < out.Length && out[..p] == dir[..p]
      invariant forall k :: p <= k < out.Length ==> out[k] == old(out[k])
    {
      out[p] := dir[p];
      p := p + 1;
    }
    assert (dir + "/")[..p] == dir[..p];
    if p + 1 < out.Length {
      out[p] := '/';
      p := p + 1;
    }
  }

  /** Copy collected digits in reading order, as many as leave room for a terminator. */
  method WriteDigits(num: string, out: array<char>, start: nat) returns (p: nat)
    requires start < out.Length
    modifies out
    ensures start <= p < out.Length && p - start <= |num| && (p + 1 == out.Length || p - start == |num|)
    ensures out[..p] == old(out[..start]) + Reverse(num)[..p - start]
    ensures forall k :: p <= k < out.Length ==> out[k] == old(out[k])
  {
    var np := |num|;
    p := start;
    while np > 0 && p + 1 < out.Length
      invariant 0 <= np <= |num| && p == start + (|num| - np) < out.Length
      invariant out[..p] == old(out[..start]) + Reverse(num)[..p - start]
      invariant forall k :: p <= k < out.Length ==> out[k] == old(out[k])
      decreases np
    {
      np := np - 1;
      out[p] := num[np];
      p := p + 1;
    }
  }

  /** A directory part and a digit part, each cut where the buffer ends, are the path cut there. */
  lemma ClippedParts(dir: string, digits: string, p: nat, q: nat, cap: nat)
    requires p <= |dir| + 1 && p <= q < cap && q - p <= |digits|
    requires (p + 1 == cap || p == |dir| + 1) && (q + 1 == cap || q - p == |digits|)
    ensures Clipped(dir + "/" + digits, cap) == (dir + "/")[..p] + digits[..q - p]
  {
    var head := dir + "/";
    if p == |head| {
      assert head[..p] == head && (head + digits)[..q] == head + digits[..q - p];
      assert q - p == |digits| ==> digits[..q - p] == digits;
    } else {
      assert q == p && digits[..0] == "" && (head + digits)[..p] == head[..p] + "";
    }
  }

  /** Always terminated, never past the buffer, and the whole path when it fits. */
  method WriteSegmentPath(dir: string, idx: nat, out: array<char>)
    requires idx < 65536
    modifies out
    ensures out.Length > 0 ==>
              var text := Clipped(SegmentPath(dir, idx), out.Length);
              && |text| < out.Length && out[..|text|] == text && out[|text|] == NUL
              && forall k :: |text| < k < out.Length ==> out[k] == old(out[k])
  {
    if out.Length == 0 { return; }
    var p := WriteDirectory(dir, out);
    var num := CollectDigits(idx);
    assert Reverse(num) == Decimal(idx);
    var q := WriteDigits(num, out, p);
    ClippedParts(dir, Decimal(idx), p, q, out.Length);
    out[q] := NUL;
  }

  /** No two segments share a path in a buffer of `cap` bytes. */
  ghost predicate PathsDiffer(dir: string, cap: nat)
    requires cap > 0
  {
    forall i, j :: 0 <= i < j < 65536 ==> Clipped(SegmentPath(dir, i), cap) != Clipped(SegmentPath(dir, j), cap)
  }

  /** THE EXACT CONDITION. No two segments share a path if and only if the buffer holds the directory name
      and seven bytes more: a separator, five digits and the terminator. */
  lemma SegmentsNeverShareAPathExactly(dir: string, cap: nat)
    requires cap > 0
    ensures PathsDiffer(dir, cap) <==> cap >= |dir| + 7
  {
    if cap >= |dir| + 7 {
      forall i: nat, j: nat | i < j < 65536
        ensures Clipped(SegmentPath(dir, i), cap) != Clipped(SegmentPath(dir, j), cap)
      {
        WholePathsDiffer(dir, i, j, cap);
      }
    } else {
      var i, j := TwoShare(dir, cap);
    }
  }

  lemma WholePathsDiffer(dir: string, i: nat, j: nat, cap: nat)
    requires i < 65536 && j < 65536 && cap >= |dir| + 7
    ensures Clipped(SegmentPath(dir, i), cap) == SegmentPath(dir, i)
    ensures Clipped(SegmentPath(dir, i), cap) == Clipped(SegmentPath(dir, j), cap) ==> i == j
  {
    ShortDecimal(i);
    ShortDecimal(j);
    if SegmentPath(dir, i) == SegmentPath(dir, j) {
      assert SegmentPath(dir, i)[|dir| + 1..] == Decimal(i) && SegmentPath(dir, j)[|dir| + 1..] == Decimal(j);
      DecimalInjective(i, j);
    }
  }

  /** A number and ten times it share a path when the buffer ends just before the last digit; 1 and 0
      share one when there is no room for a digit at all. */
  lemma TwoShare(dir: string, cap: nat) returns (i: nat, j: nat)
    requires 0 < cap < |dir| + 7
    ensures i < j < 65536 && Clipped(SegmentPath(dir, i), cap) == Clipped(SegmentPath(dir, j), cap)
  {
    if cap <= |dir| + 2 {
      i, j := 0, 1;
      assert SegmentPath(dir, 1)[..cap - 1] == (dir + "/")[..cap - 1] == SegmentPath(dir, 0)[..cap - 1];
    } else {
      i := PowerOfTen(cap - |dir| - 2);
      j := 10 * i;
      assert Decimal(j) == Decimal(i) + [DigitChar(0)];
      assert SegmentPath(dir, j) == SegmentPath(dir, i) + [DigitChar(0)];
      assert |SegmentPath(dir, i)| == cap - 1;
    }
  }

  /** The power of ten with `k` digits. */
  lemma {:induction false} PowerOfTen(k: nat) returns (n: nat)
    requires 1 <= k <= 4
    ensures 1 <= n <= 1000 && |Decimal(n)| == k
    ensures k < 4 ==> n <= 100
    ensures k < 3 ==> n <= 10
    ensures k < 2 ==> n <= 1
  {
    if k == 1 {
      n := 1;
    } else {
      n := PowerOfTen(k - 1);
      n := 10 * n;
    }
  }

  lemma ShortDecimal(n: nat)
    requires n < 65536
    ensures |Decimal(n)| <= 5
  {
    if n >= 10 { assert |Decimal(n)| == |Decimal(n / 10)| + 1; }
    if n >= 100 { assert |Decimal(n / 10)| == |Decimal(n / 100)| + 1 && n / 10 / 10 == n / 100; }
    if n >= 1000 { assert |Decimal(n / 100)| == |Decimal(n / 1000)| + 1 && n / 100 / 10 == n / 1000; }
    if n >= 10000 { assert |Decimal(n / 1000)| == |Decimal(n / 10000)| + 1 && n / 1000 / 10 == n / 10000; }
  }

  /** With one byte less for the digits, segments 12 and 1 share a path. */
  lemma ClippedPathsCollide()
    ensures Clipped(SegmentPath("/dm", 12), 6) == SegmentPath("/dm", 1)
  {
    assert Decimal(12) == "1" + "2" && Decimal(1) == "1";
    assert SegmentPath("/dm", 12) == "/dm/12";
  }
}
