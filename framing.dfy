/** The newline framing used by both receive loops: the buffer is cut at
    each "\n" in turn (buffer.split("\n", 1)), every complete line is a
    packet, and what follows the last "\n" stays buffered. The packets are
    then decoded in order up to the first one that fails. */
module Framing {
  import opened Wrappers
  import opened Text
  import opened Protocol

  predicate NoNewline(s: string) { '\n' !in s }

  predicate AllLines(packets: seq<string>)
  {
    forall k :: 0 <= k < |packets| ==> NoNewline(packets[k])
  }

  /** The packets, each followed by its "\n": the text they were cut from. */
  function Lines(packets: seq<string>): string
  {
    if packets == [] then "" else packets[0] + "\n" + Lines(packets[1..])
  }

  lemma {:induction false} LinesAppend(p: seq<string>, q: seq<string>)
    ensures Lines(p + q) == Lines(p) + Lines(q)
  {
    if p == [] {
      assert p + q == q;
    } else {
      assert (p + q)[1..] == p[1..] + q;
      LinesAppend(p[1..], q);
    }
  }

  /** The split loop run to completion: the complete lines in arrival order
      and the incomplete tail. */
  function SplitLines(buffer: string): (seq<string>, string)
    decreases |buffer|
  {
    if '\n' !in buffer then ([], buffer)
    else
      var i := FirstIndex(buffer, '\n');
      var (packets, rest) := SplitLines(buffer[i + 1..]);
      ([buffer[..i]] + packets, rest)
  }

  lemma LinesCons(head: string, packets: seq<string>)
    ensures Lines([head] + packets) == head + "\n" + Lines(packets)
  {
    assert ([head] + packets)[1..] == packets;
  }

  lemma AllLinesCons(head: string, packets: seq<string>)
    requires NoNewline(head) && AllLines(packets)
    ensures AllLines([head] + packets)
  {
    var all := [head] + packets;
    forall k | 0 <= k < |all| ensures NoNewline(all[k]) {
      if k > 0 { assert all[k] == packets[k - 1]; }
    }
  }

  lemma AllLinesAppend(p: seq<string>, q: seq<string>)
    requires AllLines(p) && AllLines(q)
    ensures AllLines(p + q)
  {
    forall k | 0 <= k < |p + q| ensures NoNewline((p + q)[k]) {
      if k >= |p| { assert (p + q)[k] == q[k - |p|]; }
    }
  }

  lemma SplitLinesStep(buffer: string)
    requires '\n' in buffer
    ensures var i := FirstIndex(buffer, '\n');
      && buffer == buffer[..i] + "\n" + buffer[i + 1..]
      && SplitLines(buffer)
         == ([buffer[..i]] + SplitLines(buffer[i + 1..]).0, SplitLines(buffer[i + 1..]).1)
  {
    var i := FirstIndex(buffer, '\n');
    assert buffer == buffer[..i] + [buffer[i]] + buffer[i + 1..];
  }

  /** The packets hold no newline, neither does the tail, and packets plus
      their newlines plus the tail are the buffer, in order. */
  lemma {:induction false} SplitLinesSound(buffer: string)
    ensures AllLines(SplitLines(buffer).0) && NoNewline(SplitLines(buffer).1)
    ensures Lines(SplitLines(buffer).0) + SplitLines(buffer).1 == buffer
    decreases |buffer|
  {
    if '\n' in buffer {
      var i := FirstIndex(buffer, '\n');
      var head, after := buffer[..i], buffer[i + 1..];
      SplitLinesStep(buffer);
      SplitLinesSound(after);
      var packets, rest := SplitLines(after).0, SplitLines(after).1;
      LinesCons(head, packets);
      AllLinesCons(head, packets);
    }
  }

  /** Those three facts determine the split: no other cut satisfies them. */
  lemma {:induction false} SplitLinesUnique(buffer: string, packets: seq<string>, rest: string)
    requires AllLines(packets) && NoNewline(rest) && Lines(packets) + rest == buffer
    ensures SplitLines(buffer) == (packets, rest)
    decreases |packets|
  {
    if packets == [] {
      assert buffer == rest;
    } else {
      var head := packets[0];
      var tail := Lines(packets[1..]) + rest;
      assert buffer == head + "\n" + tail;
      FirstIndexAfter(head, '\n', tail);
      var i := FirstIndex(buffer, '\n');
      assert buffer[..i] == head;
      assert buffer[i + 1..] == tail;
      SplitLinesUnique(tail, packets[1..], rest);
      assert packets == [head] + packets[1..];
    }
  }

  lemma ConcatenatedSplits(first: string, second: string,
                           p1: seq<string>, r1: string, p2: seq<string>, r2: string)
    requires AllLines(p1) && Lines(p1) + r1 == first
    requires AllLines(p2) && NoNewline(r2) && Lines(p2) + r2 == r1 + second
    ensures AllLines(p1 + p2) && Lines(p1 + p2) + r2 == first + second
  {
    LinesAppend(p1, p2);
    AllLinesAppend(p1, p2);
    calc {
      Lines(p1 + p2) + r2;
      Lines(p1) + (Lines(p2) + r2);
      Lines(p1) + (r1 + second);
      first + second;
    }
  }

  /** Reads may be cut anywhere: splitting the first chunk and then the
      leftover plus the second chunk yields the same packets, in the same
      order, and the same tail as splitting both chunks at once. */
  lemma SplitLinesIncremental(first: string, second: string)
    ensures SplitLines(first + second)
         == (SplitLines(first).0 + SplitLines(SplitLines(first).1 + second).0,
             SplitLines(SplitLines(first).1 + second).1)
  {
    var p1, r1 := SplitLines(first).0, SplitLines(first).1;
    var p2, r2 := SplitLines(r1 + second).0, SplitLines(r1 + second).1;
    SplitLinesSound(first);
    SplitLinesSound(r1 + second);
    ConcatenatedSplits(first, second, p1, r1, p2, r2);
    SplitLinesUnique(first + second, p1 + p2, r2);
  }

  /** Lines written one per frame are read back as exactly those lines. */
  lemma FramesReadBack(packets: seq<string>)
    requires AllLines(packets)
    ensures SplitLines(Lines(packets)) == (packets, "")
  {
    assert Lines(packets) + "" == Lines(packets);
    SplitLinesUnique(Lines(packets), packets, "");
  }

  /** One turn of the split loop keeps the packets whole and the text they
      and the buffer stand for unchanged. */
  lemma CutFirstLine(packets: seq<string>, rest: string)
    requires AllLines(packets) && '\n' in rest
    ensures var i := FirstIndex(rest, '\n');
      && AllLines(packets + [rest[..i]])
      && Lines(packets + [rest[..i]]) + rest[i + 1..] == Lines(packets) + rest
  {
    var i := FirstIndex(rest, '\n');
    var line := rest[..i];
    LinesAppend(packets, [line]);
    LinesCons(line, []);
    assert [line] + [] == [line];
    SplitLinesStep(rest);
    AllLinesCons(line, []);
    AllLinesAppend(packets, [line]);
  }

  /** The "while '\n' in buffer" loop of the receive loops. */
  method SplitPackets(buffer: string) returns (packets: seq<string>, rest: string)
    ensures AllLines(packets) && NoNewline(rest)
    ensures Lines(packets) + rest == buffer
    ensures (packets, rest) == SplitLines(buffer)
  {
    packets, rest := [], buffer;
    while '\n' in rest
      invariant AllLines(packets)
      invariant Lines(packets) + rest == buffer
      decreases |rest|
    {
      var i := FirstIndex(rest, '\n');
      CutFirstLine(packets, rest);
      packets := packets + [rest[..i]];
      rest := rest[i + 1..];
    }
    SplitLinesUnique(buffer, packets, rest);
  }

  /** from_json applied to the packets in order, up to the first one that
      fails to decode (ok is false then). */
  function DecodePrefix(j: Json, packets: seq<string>, now: Micros): (r: (seq<AlarmEvent>, bool))
    ensures |r.0| <= |packets|
    ensures forall k :: 0 <= k < |r.0| ==> EventFromJson(j, packets[k], now) == Success(r.0[k])
    ensures r.1 <==> |r.0| == |packets|
    ensures !r.1 ==> EventFromJson(j, packets[|r.0|], now).Failure?
  {
    if packets == [] then ([], true)
    else
      match EventFromJson(j, packets[0], now)
      case Failure(_) => ([], false)
      case Success(e) =>
        var rest := DecodePrefix(j, packets[1..], now);
        ([e] + rest.0, rest.1)
  }

  lemma {:induction false} DecodePrefixSnoc(j: Json, packets: seq<string>, packet: string, now: Micros)
    requires DecodePrefix(j, packets, now).1
    ensures DecodePrefix(j, packets + [packet], now) ==
      match EventFromJson(j, packet, now)
      case Failure(_) => (DecodePrefix(j, packets, now).0, false)
      case Success(e) => (DecodePrefix(j, packets, now).0 + [e], true)
  {
    if packets != [] {
      var all := packets + [packet];
      assert all[0] == packets[0] && all[1..] == packets[1..] + [packet];
      var e0 := EventFromJson(j, packets[0], now).value;
      var tail := DecodePrefix(j, packets[1..], now);
      assert DecodePrefix(j, packets, now) == ([e0] + tail.0, tail.1);
      DecodePrefixSnoc(j, packets[1..], packet, now);
      match EventFromJson(j, packet, now)
      case Failure(_) =>
      case Success(e) => assert [e0] + (tail.0 + [e]) == ([e0] + tail.0) + [e];
    } else {
      assert packets + [packet] == [packet];
      assert [packet][1..] == [];
      match EventFromJson(j, packet, now)
      case Failure(_) =>
      case Success(e) => assert [e] + [] == [] + [e];
    }
  }

  lemma {:induction false} DecodePrefixStops(j: Json, packets: seq<string>, more: seq<string>, now: Micros)
    requires !DecodePrefix(j, packets, now).1
    ensures DecodePrefix(j, packets + more, now) == DecodePrefix(j, packets, now)
  {
    assert (packets + more)[0] == packets[0];
    if EventFromJson(j, packets[0], now).Success? {
      assert (packets + more)[1..] == packets[1..] + more;
      DecodePrefixStops(j, packets[1..], more, now);
    }
  }

  /** Packets that each decode are all decoded, in order. */
  lemma DecodeEvery(j: Json, packets: seq<string>, events: seq<AlarmEvent>, now: Micros)
    requires |packets| == |events|
    requires forall k :: 0 <= k < |packets| ==> EventFromJson(j, packets[k], now) == Success(events[k])
    ensures DecodePrefix(j, packets, now) == (events, true)
  {
    var r := DecodePrefix(j, packets, now);
    assert r.0 == events;
  }

  /** Two lines written back to back are framed as those two lines. */
  lemma TwoLines(l1: string, l2: string)
    requires NoNewline(l1) && NoNewline(l2)
    ensures SplitLines(l1 + "\n" + l2 + "\n") == ([l1, l2], "")
  {
    var pair := [l1, l2];
    assert pair[0] == l1 && pair[1..] == [l2];
    assert [l2][0] == l2 && [l2][1..] == [];
    assert Lines([l2]) == l2 + "\n";
    assert Lines(pair) == l1 + "\n" + l2 + "\n";
    assert AllLines(pair);
    FramesReadBack(pair);
  }

  /** Packets cut from a stream of two encoded events decode to their share
      of the two events. */
  lemma DecodeSplitPair(j: Json, e1: AlarmEvent, e2: AlarmEvent, p1: seq<string>, p2: seq<string>, now: Micros)
    requires SoundJson(j)
    requires p1 + p2 == [EventToJson(j, e1), EventToJson(j, e2)]
    ensures DecodePrefix(j, p1, now).0 + DecodePrefix(j, p2, now).0 == [e1, e2]
  {
    EventJsonRoundTrip(j, e1, now);
    EventJsonRoundTrip(j, e2, now);
    var events := [e1, e2];
    forall k | 0 <= k < |p1| ensures EventFromJson(j, p1[k], now) == Success(events[k]) {
      assert p1[k] == (p1 + p2)[k];
    }
    forall k | 0 <= k < |p2| ensures EventFromJson(j, p2[k], now) == Success(events[|p1| + k]) {
      assert p2[k] == (p1 + p2)[|p1| + k];
    }
    DecodeEvery(j, p1, events[..|p1|], now);
    DecodeEvery(j, p2, events[|p1|..], now);
    assert events[..|p1|] + events[|p1|..] == events;
  }

  /** Two events sent back to back reach the peer as those two events, in
      order, however the stream is cut into two reads. */
  lemma TwoEventsReassemble(j: Json, e1: AlarmEvent, e2: AlarmEvent, cut: nat, now: Micros)
    requires SoundJson(j)
    requires cut <= |EventToJson(j, e1) + "\n" + EventToJson(j, e2) + "\n"|
    ensures var stream := EventToJson(j, e1) + "\n" + EventToJson(j, e2) + "\n";
      var first := SplitLines(stream[..cut]);
      var second := SplitLines(first.1 + stream[cut..]);
      && first.0 + second.0 == [EventToJson(j, e1), EventToJson(j, e2)]
      && second.1 == ""
      && DecodePrefix(j, first.0, now).0 + DecodePrefix(j, second.0, now).0 == [e1, e2]
  {
    var l1, l2 := EventToJson(j, e1), EventToJson(j, e2);
    var stream := l1 + "\n" + l2 + "\n";
    EventJsonRoundTrip(j, e1, now);
    EventJsonRoundTrip(j, e2, now);
    TwoLines(l1, l2);
    assert stream[..cut] + stream[cut..] == stream;
    SplitLinesIncremental(stream[..cut], stream[cut..]);
    var first := SplitLines(stream[..cut]);
    var second := SplitLines(first.1 + stream[cut..]);
    DecodeSplitPair(j, e1, e2, first.0, second.0, now);
  }
}
