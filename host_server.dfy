/** The host's connection layer with the sockets abstracted away: the table
    of connected nodes keyed by remote address, what one read of a node's
    stream does to it, the heartbeat sweep, broadcast and the node count.
    Each lock-guarded block is one atomic step. */
module HostServer {
  import opened Wrappers
  import opened Protocol
  import opened Framing

  /** HEARTBEAT_TIMEOUT, 60 seconds. */
  const HeartbeatTimeout: int := 60 * MicrosPerSecond

  /** A node's remote address as accept() reports it. */
  datatype Addr = Addr(ip: string, port: int)

  /** An accepted connection, known only by its identity. */
  type Conn = nat

  /** One entry of the clients dict: {"conn": ..., "last_heartbeat": ...}. */
  datatype Peer = Peer(conn: Conn, lastHeartbeat: Micros)

  /** The entries a sweep at now keeps: those heard from at most
      HeartbeatTimeout ago, unchanged. */
  function Alive(clients: map<Addr, Peer>, now: Micros): (alive: map<Addr, Peer>)
    ensures forall a :: a in alive <==> a in clients && now - clients[a].lastHeartbeat <= HeartbeatTimeout
    ensures forall a :: a in alive ==> alive[a] == clients[a]
  {
    map a | a in clients && now - clients[a].lastHeartbeat <= HeartbeatTimeout :: clients[a]
  }

  /** A node accepted at t0 that never sends a heartbeat survives every sweep
      up to and including t0 + 60 s, and the first sweep after that removes it. */
  lemma SilentPeerTimesOut(clients: map<Addr, Peer>, addr: Addr, conn: Conn, t0: Micros, now: Micros)
    ensures addr in Alive(clients[addr := Peer(conn, t0)], now) <==> now <= t0 + HeartbeatTimeout
  {
  }

  predicate HasHeartbeat(events: seq<AlarmEvent>)
  {
    exists k :: 0 <= k < |events| && events[k].eventType == Heartbeat
  }

  lemma HeartbeatSnoc(events: seq<AlarmEvent>, event: AlarmEvent)
    ensures HasHeartbeat(events + [event]) <==> HasHeartbeat(events) || event.eventType == Heartbeat
  {
    var all := events + [event];
    if HasHeartbeat(events) {
      var k :| 0 <= k < |events| && events[k].eventType == Heartbeat;
      assert all[k] == events[k];
    }
    if event.eventType == Heartbeat {
      assert all[|events|] == event;
    }
    if HasHeartbeat(all) {
      var k :| 0 <= k < |all| && all[k].eventType == Heartbeat;
      if k < |events| {
        assert events[k] == all[k];
      }
    }
  }

  /** The table after a read's heartbeats: a registered sender's last
      heartbeat becomes now; an unregistered sender changes nothing. */
  function Refreshed(clients: map<Addr, Peer>, addr: Addr, events: seq<AlarmEvent>, now: Micros): map<Addr, Peer>
  {
    if addr in clients && HasHeartbeat(events)
    then clients[addr := clients[addr].(lastHeartbeat := now)]
    else clients
  }

  lemma RefreshedSnoc(clients: map<Addr, Peer>, addr: Addr, events: seq<AlarmEvent>, event: AlarmEvent, now: Micros)
    ensures Refreshed(clients, addr, events + [event], now)
         == if event.eventType == Heartbeat
            then Refreshed(Refreshed(clients, addr, events, now), addr, [AlarmEvent(Heartbeat, VNull, now)], now)
            else Refreshed(clients, addr, events, now)
  {
    HeartbeatSnoc(events, event);
    assert [AlarmEvent(Heartbeat, VNull, now)][0].eventType == Heartbeat;
  }

  /** What the event handler is called with: each event with its sender. */
  function Deliveries(addr: Addr, events: seq<AlarmEvent>): (d: seq<(AlarmEvent, Addr)>)
    ensures |d| == |events| && forall k :: 0 <= k < |d| ==> d[k] == (events[k], addr)
  {
    seq(|events|, k requires 0 <= k < |events| => (events[k], addr))
  }

  lemma DeliveriesSnoc(addr: Addr, events: seq<AlarmEvent>, event: AlarmEvent)
    ensures Deliveries(addr, events + [event]) == Deliveries(addr, events) + [(event, addr)]
  {
  }

  class AlarmHost {
    /** self.clients */
    var clients: map<Addr, Peer>
    /** Every (event, addr) passed to event_handler, oldest first. */
    var handled: seq<(AlarmEvent, Addr)>

    constructor ()
      ensures clients == map[] && handled == []
    {
      clients, handled := map[], [];
    }

    /** _accept_loop: the new connection is registered with a fresh
        heartbeat, replacing any entry for the same address. */
    method Accept(addr: Addr, conn: Conn, now: Micros)
      modifies this`clients
      ensures clients == old(clients)[addr := Peer(conn, now)]
      ensures forall a :: a in old(clients) && a != addr ==> a in clients && clients[a] == old(clients)[a]
    {
      clients := clients[addr := Peer(conn, now)];
    }

    /** The end of _client_recv_loop: the entry for addr, if any, goes. */
    method Disconnect(addr: Addr)
      modifies this`clients
      ensures clients == old(clients) - {addr}
    {
      if addr in clients {
        clients := clients - {addr};
      }
    }

    /** The heartbeat refresh of _client_recv_loop. */
    method RecordHeartbeat(addr: Addr, now: Micros)
      modifies this`clients
      ensures clients == Refreshed(old(clients), addr, [AlarmEvent(Heartbeat, VNull, now)], now)
    {
      assert [AlarmEvent(Heartbeat, VNull, now)][0].eventType == Heartbeat;
      if addr in clients {
        clients := clients[addr := clients[addr].(lastHeartbeat := now)];
      }
    }

    /** One pass of _client_recv_loop on the decoded chunk data: an empty
        read is the stream's end; otherwise every complete line is decoded
        and handled in order. A line that fails to decode ends the loop, and
        the node is then removed as on a disconnect. */
    method Receive(j: Json, addr: Addr, buffer: string, data: string, now: Micros)
      returns (rest: string, open: bool)
      modifies this
      ensures data == "" ==> !open && rest == buffer && handled == old(handled)
      ensures data != "" ==>
        var decoded := DecodePrefix(j, SplitLines(buffer + data).0, now);
        && rest == SplitLines(buffer + data).1
        && open == decoded.1
        && handled == old(handled) + Deliveries(addr, decoded.0)
        && (open ==> clients == Refreshed(old(clients), addr, decoded.0, now))
      ensures !open ==> clients == old(clients) - {addr}
    {
      if data == "" {
        rest, open := buffer, false;
        Disconnect(addr);
        return;
      }
      var packets;
      packets, rest := SplitPackets(buffer + data);
      open := HandlePackets(j, addr, packets, now);
      if !open {
        Disconnect(addr);
      }
    }

    /** The inner "while '\n' in buffer" loop after the split: decode, refresh
        on HEARTBEAT, hand to the event handler, stop at the first bad line. */
    method HandlePackets(j: Json, addr: Addr, packets: seq<string>, now: Micros) returns (ok: bool)
      modifies this
      ensures ok == DecodePrefix(j, packets, now).1
      ensures handled == old(handled) + Deliveries(addr, DecodePrefix(j, packets, now).0)
      ensures clients == Refreshed(old(clients), addr, DecodePrefix(j, packets, now).0, now)
    {
      ghost var decoded: seq<AlarmEvent> := [];
      var i := 0;
      ok := true;
      while i < |packets| && ok
        invariant 0 <= i <= |packets|
        invariant DecodePrefix(j, packets[..i], now) == (decoded, ok)
        invariant handled == old(handled) + Deliveries(addr, decoded)
        invariant clients == Refreshed(old(clients), addr, decoded, now)
        decreases |packets| - i
      {
        assert packets[..i + 1] == packets[..i] + [packets[i]];
        DecodePrefixSnoc(j, packets[..i], packets[i], now);
        var result := EventFromJson(j, packets[i], now);
        if result.Failure? {
          ok := false;
        } else {
          var event := result.value;
          RefreshedSnoc(old(clients), addr, decoded, event, now);
          if event.eventType == Heartbeat {
            RecordHeartbeat(addr, now);
          }
          DeliveriesSnoc(addr, decoded, event);
          handled := handled + [(event, addr)];
          decoded := decoded + [event];
        }
        i := i + 1;
      }
      if ok {
        assert packets[..i] == packets;
      } else {
        assert packets == packets[..i] + packets[i..];
        DecodePrefixStops(j, packets[..i], packets[i..], now);
      }
    }

    /** _heartbeat_monitor, one wake-up: the timed-out addresses are
        collected first, then their entries are closed and deleted. */
    method Sweep(now: Micros) returns (dead: set<Addr>)
      modifies this`clients
      ensures clients == Alive(old(clients), now)
      ensures dead == old(clients).Keys - clients.Keys
    {
      dead := set a | a in clients && now - clients[a].lastHeartbeat > HeartbeatTimeout;
      var todo := dead;
      while todo != {}
        invariant todo <= dead
        invariant clients == old(clients) - (dead - todo)
        decreases |todo|
      {
        var a :| a in todo;
        clients := clients - {a};
        todo := todo - {a};
      }
      assert clients == Alive(old(clients), now);
    }

    /** broadcast: one serialisation, sent to every registered node once;
        the table is left alone. Iteration order is not modelled. */
    method Broadcast(j: Json, event: AlarmEvent) returns (sends: seq<(Addr, string)>)
      ensures forall k :: 0 <= k < |sends| ==> sends[k].0 in clients && sends[k].1 == EventToJson(j, event) + "\n"
      ensures forall a :: a in clients ==> (a, EventToJson(j, event) + "\n") in sends
      ensures forall k, l :: 0 <= k < l < |sends| ==> sends[k].0 != sends[l].0
      ensures |sends| == |clients|
    {
      var msg := EventToJson(j, event) + "\n";
      var todo := clients.Keys;
      sends := [];
      while todo != {}
        invariant todo <= clients.Keys
        invariant forall k :: 0 <= k < |sends| ==> sends[k].0 in clients.Keys - todo && sends[k].1 == msg
        invariant forall a :: a in clients.Keys - todo ==> (a, msg) in sends
        invariant forall k, l :: 0 <= k < l < |sends| ==> sends[k].0 != sends[l].0
        invariant |sends| + |todo| == |clients.Keys|
        decreases |todo|
      {
        var a :| a in todo;
        sends := sends + [(a, msg)];
        todo := todo - {a};
      }
    }

    /** get_connected_nodes_count */
    method ConnectedNodesCount() returns (count: nat)
      ensures count == |clients.Keys|
    {
      count := |clients|;
    }
  }

  /** A broadcast frame read by a node over a sound JSON layer splits into
      exactly the one line it was written as and decodes to the event sent. */
  lemma BroadcastFrameReadBack(j: Json, event: AlarmEvent, now: Micros)
    requires SoundJson(j)
    ensures SplitLines(EventToJson(j, event) + "\n") == ([EventToJson(j, event)], "")
    ensures DecodePrefix(j, [EventToJson(j, event)], now) == ([event], true)
  {
    EventJsonRoundTrip(j, event, now);
    var line := EventToJson(j, event);
    assert AllLines([line]);
    assert Lines([line]) == line + "\n" by { assert [line][1..] == []; }
    FramesReadBack([line]);
    assert [line][1..] == [];
    assert [event] + [] == [event];
  }
}
