/** The UDP discovery service (`UdpBroadcastManager`): the start/stop
    lifecycle of its socket, job and multicast lock, the fire-and-forget
    broadcast with its target choice and single fallback, the receive
    filter, and the cached local address. Sockets, the job and the lock
    are modelled by presence only; what the platform and the network do is
    an input. */
module Discovery {
  import opened Wrappers
  import opened Bytes
  import Net

  const DiscoveryPort: nat := 45454
  const ReceiveBufferSize: nat := 1024
  const UnknownIp: string := "unknown"

  /** The multicast lock field: null, or a created lock that is held or not. */
  datatype MulticastLock = NoLock | Lock(held: bool)

  datatype DiscoveryState = DiscoveryState(
    isRunning: bool,
    listenSocket: bool,
    broadcastSocket: bool,
    listenJob: bool,
    multicastLock: MulticastLock,
    cachedLocalIp: Option<string>)

  const Initial: DiscoveryState := DiscoveryState(false, false, false, false, NoLock, None)

  /** The state invariant: a running service has its socket and its job. */
  predicate Wellformed(s: DiscoveryState)
  {
    s.isRunning ==> s.listenSocket && s.listenJob
  }

  /** Not running, and every socket, the job and the lock are gone. */
  predicate Released(s: DiscoveryState)
  {
    !s.isRunning && !s.listenSocket && !s.broadcastSocket && !s.listenJob && s.multicastLock == NoLock
  }

  // ---------------------------------------------------------------------
  // Lifecycle
  // ---------------------------------------------------------------------

  /** stop: a no-op unless running; otherwise cancels the job, forgets both
      sockets and the lock. The cached local address is kept. */
  function Stop(s: DiscoveryState): (r: DiscoveryState)
    ensures !s.isRunning ==> r == s
    ensures s.isRunning ==> Released(r) && r.cachedLocalIp == s.cachedLocalIp
    ensures Wellformed(s) ==> Wellformed(r)
  {
    if !s.isRunning then s
    else s.(isRunning := false, listenJob := false, listenSocket := false,
            broadcastSocket := false, multicastLock := NoLock)
  }

  lemma StopIdempotent(s: DiscoveryState)
    ensures Stop(Stop(s)) == Stop(s)
  {
  }

  /** What the platform does during start: whether binding the port
      succeeds, whether a WiFi manager exists (and so a lock is created),
      whether acquiring the lock succeeds, and the interfaces seen when
      the local address is refreshed. */
  datatype StartEnv = StartEnv(
    bindOk: bool,
    hasWifiManager: bool,
    acquireOk: bool,
    interfaces: seq<Net.NetInterface>)

  datatype StartResult = StartResult(ok: bool, state: DiscoveryState)

  /** startListening. A failure calls stop(), which returns at once because
      the service is not yet marked running: whatever was acquired before
      the failure stays. */
  function StartListening(s: DiscoveryState, env: StartEnv): (r: StartResult)
    ensures s.isRunning ==> r == StartResult(true, s)
    ensures r.ok <==> r.state.isRunning
    ensures !s.isRunning ==> (r.ok <==> env.bindOk && (!env.hasWifiManager || env.acquireOk))
    ensures !s.isRunning && r.ok ==>
              && r.state.listenSocket && r.state.listenJob
              && r.state.cachedLocalIp == Net.FindLocalIpAddress(env.interfaces)
              && r.state.multicastLock == (if env.hasWifiManager then Lock(true) else NoLock)
              && r.state.broadcastSocket == s.broadcastSocket
    ensures !s.isRunning && !env.bindOk ==> r.state == s
    ensures !s.isRunning && env.bindOk && !r.ok ==>
              r.state == s.(listenSocket := true, multicastLock := Lock(false))
    ensures Wellformed(s) ==> Wellformed(r.state)
  {
    if s.isRunning then StartResult(true, s)
    else if !env.bindOk then StartResult(false, Stop(s))
    else
      var bound := s.(listenSocket := true);
      var created := bound.(multicastLock := if env.hasWifiManager then Lock(false) else NoLock);
      if env.hasWifiManager && !env.acquireOk then StartResult(false, Stop(created))
      else
        var acquired := created.(multicastLock := if env.hasWifiManager then Lock(true) else NoLock);
        var refreshed := acquired.(cachedLocalIp := Net.FindLocalIpAddress(env.interfaces));
        StartResult(true, refreshed.(listenJob := true, isRunning := true))
  }

  /** A start that fails after binding leaves the bound socket and the
      unheld lock in place, and a later stop() does not release them. */
  lemma FailedStartKeepsResources(s: DiscoveryState, env: StartEnv)
    requires !s.isRunning && env.bindOk && env.hasWifiManager && !env.acquireOk
    ensures var r := StartListening(s, env);
            && !r.ok
            && r.state.listenSocket
            && r.state.multicastLock == Lock(false)
            && Stop(r.state) == r.state
  {
  }

  /** Starting and then stopping releases every resource and keeps the
      address found at start. */
  lemma StartThenStop(s: DiscoveryState, env: StartEnv)
    requires !s.isRunning
    requires StartListening(s, env).ok
    ensures var r := Stop(StartListening(s, env).state);
            Released(r) && r.cachedLocalIp == Net.FindLocalIpAddress(env.interfaces)
  {
  }

  // ---------------------------------------------------------------------
  // Broadcast
  // ---------------------------------------------------------------------

  /** What the background send does: whether creating the broadcast socket
      succeeds (when one is needed) and whether the first send succeeds. */
  datatype SendEnv = SendEnv(socketOk: bool, firstSendOk: bool)

  datatype Datagram = Datagram(target: string, port: nat, payload: string)

  datatype SendResult = SendResult(accepted: bool, sent: seq<Datagram>, state: DiscoveryState)

  /** sendBroadcast: refused when not running; otherwise accepted whatever
      happens to the send. The datagram goes to the subnet broadcast
      address when one is found, else to 255.255.255.255; a failed send is
      followed by exactly one more to 255.255.255.255. When the broadcast
      socket cannot be created the fallback finds no socket and nothing is
      sent; a socket once created is kept for later calls. `sent` lists the
      send attempts. */
  function SendBroadcast(s: DiscoveryState, message: string, interfaces: seq<Net.NetInterface>, env: SendEnv): (r: SendResult)
    ensures r.accepted <==> s.isRunning
    ensures !r.accepted ==> r.sent == [] && r.state == s
    ensures |r.sent| <= 2
    ensures forall i :: 0 <= i < |r.sent| ==> r.sent[i].port == DiscoveryPort && r.sent[i].payload == message
    ensures |r.sent| > 0 ==> r.sent[0].target == Net.GetBroadcastAddress(interfaces).GetOr(Net.LimitedBroadcast)
    ensures |r.sent| > 0 && Net.GetBroadcastAddress(interfaces).None? ==> r.sent[0].target == Net.LimitedBroadcast
    ensures |r.sent| > 0 && Net.GetBroadcastAddress(interfaces).Some? ==>
              exists i, k :: Net.BroadcastAt(interfaces, i, k) &&
                             interfaces[i].interfaceAddresses[k].broadcast == Some(r.sent[0].target)
    ensures |r.sent| == 2 ==> r.sent[1].target == Net.LimitedBroadcast
    ensures r.accepted ==> (|r.sent| == 0 <==> !s.broadcastSocket && !env.socketOk)
    ensures r.accepted ==> (|r.sent| == 2 <==> (s.broadcastSocket || env.socketOk) && !env.firstSendOk)
    ensures r.state == s.(broadcastSocket := s.broadcastSocket || (s.isRunning && env.socketOk))
    ensures Wellformed(s) ==> Wellformed(r.state)
  {
    if !s.isRunning then SendResult(false, [], s)
    else if !s.broadcastSocket && !env.socketOk then SendResult(true, [], s)
    else
      var t := s.(broadcastSocket := true);
      var target := Net.GetBroadcastAddress(interfaces).GetOr(Net.LimitedBroadcast);
      var first := Datagram(target, DiscoveryPort, message);
      if env.firstSendOk then SendResult(true, [first], t)
      else SendResult(true, [first, Datagram(Net.LimitedBroadcast, DiscoveryPort, message)], t)
  }

  /** Nothing is sent once the service has been stopped. */
  lemma NoBroadcastAfterStop(s: DiscoveryState, message: string, interfaces: seq<Net.NetInterface>, env: SendEnv)
    ensures var r := SendBroadcast(Stop(s), message, interfaces, env);
            !r.accepted && r.sent == []
  {
  }

  /** Nothing is received once the service has been stopped, and the
      stopped state stays as it is. */
  lemma NoReceiveAfterStop(s: DiscoveryState, results: seq<ReceiveResult>)
    ensures ReceiveLoop(Stop(s), results) == ([], Stop(s))
  {
  }

  // ---------------------------------------------------------------------
  // Local address
  // ---------------------------------------------------------------------

  datatype Lookup = Lookup(ip: Option<string>, state: DiscoveryState)

  /** The cached local address, looked up and cached on first use. */
  function LocalIpAddress(s: DiscoveryState, interfaces: seq<Net.NetInterface>): (r: Lookup)
    ensures s.cachedLocalIp.Some? ==> r == Lookup(s.cachedLocalIp, s)
    ensures s.cachedLocalIp.None? ==> r.ip == Net.FindLocalIpAddress(interfaces)
    ensures r.state == s.(cachedLocalIp := r.ip)
  {
    if s.cachedLocalIp.Some? then Lookup(s.cachedLocalIp, s)
    else
      var found := Net.FindLocalIpAddress(interfaces);
      Lookup(found, s.(cachedLocalIp := found))
  }

  /** A second lookup over the same interfaces answers the same and changes
      nothing. */
  lemma LocalIpAddressStable(s: DiscoveryState, interfaces: seq<Net.NetInterface>)
    ensures var l := LocalIpAddress(s, interfaces);
            LocalIpAddress(l.state, interfaces) == l
  {
  }

  /** getDeviceIp: the local address, or "unknown" when there is none. */
  function GetDeviceIp(s: DiscoveryState, interfaces: seq<Net.NetInterface>): (r: (string, DiscoveryState))
    ensures s.cachedLocalIp.Some? ==> r == (s.cachedLocalIp.value, s)
    ensures s.cachedLocalIp.None? && |Net.Candidates(interfaces)| == 0 ==> r.0 == UnknownIp
    ensures s.cachedLocalIp.None? && |Net.Candidates(interfaces)| > 0 ==> r.0 in Net.Candidates(interfaces)
    ensures s.cachedLocalIp.None? ==>
              r.0 == Net.FindLocalIpAddress(interfaces).GetOr(UnknownIp) &&
              r.1.cachedLocalIp == Net.FindLocalIpAddress(interfaces)
    ensures r.1 == s.(cachedLocalIp := r.1.cachedLocalIp)
    ensures Wellformed(s) ==> Wellformed(r.1)
  {
    var l := LocalIpAddress(s, interfaces);
    (l.ip.GetOr(UnknownIp), l.state)
  }

  /** After a start that found an address, the device address is that one
      whatever the interfaces look like later. */
  lemma DeviceIpAfterStart(s: DiscoveryState, env: StartEnv, later: seq<Net.NetInterface>)
    requires !s.isRunning
    requires StartListening(s, env).ok
    requires Net.FindLocalIpAddress(env.interfaces).Some?
    ensures GetDeviceIp(StartListening(s, env).state, later).0 == Net.FindLocalIpAddress(env.interfaces).value
  {
  }

  // ---------------------------------------------------------------------
  // Receive loop
  // ---------------------------------------------------------------------

  /** A received datagram: the sender's host address (nullable) and the
      bytes sent. */
  datatype Packet = Packet(sender: Option<string>, data: seq<Byte>)

  /** One `receive` call: a datagram together with the interfaces as they
      are when the loop body looks up the local address for it, or the
      one-second timeout. */
  datatype ReceiveResult = Received(packet: Packet, interfaces: seq<Net.NetInterface>) | TimedOut

  datatype DiscoveryEvent = DiscoveryEvent(payload: seq<Byte>, ip: string)

  /** The bytes that fit in the 1024-byte receive buffer; the rest of a
      longer datagram is discarded. */
  function Payload(p: Packet): (r: seq<Byte>)
    ensures r <= p.data
    ensures |r| == if |p.data| <= ReceiveBufferSize then |p.data| else ReceiveBufferSize
  {
    if |p.data| <= ReceiveBufferSize then p.data else p.data[..ReceiveBufferSize]
  }

  /** The events a packet yields for a given local address: none for a
      packet from the local address (two nulls are equal too), none for an
      empty one, else its payload and sender, "unknown" standing in for a
      null sender. */
  function Classify(local: Option<string>, p: Packet): (r: seq<DiscoveryEvent>)
    ensures |r| <= 1
    ensures |r| == 1 <==> p.sender != local && |p.data| > 0
    ensures |r| == 1 ==> r[0] == DiscoveryEvent(Payload(p), p.sender.GetOr(UnknownIp))
  {
    if p.sender == local then []
    else if |Payload(p)| == 0 then []
    else [DiscoveryEvent(Payload(p), p.sender.GetOr(UnknownIp))]
  }

  /** One pass of the loop body on a received packet: the local address is
      looked up (and cached) first, then the packet is classified. */
  function ReceivePacket(s: DiscoveryState, interfaces: seq<Net.NetInterface>, p: Packet): (r: (seq<DiscoveryEvent>, DiscoveryState))
    ensures var local := LocalIpAddress(s, interfaces).ip;
            && (|r.0| == 1 <==> p.sender != local && |p.data| > 0)
            && |r.0| <= 1
            && (|r.0| == 1 ==> r.0[0].payload == Payload(p))
            && (|r.0| == 1 && p.sender.Some? ==> r.0[0].ip == p.sender.value)
            && (|r.0| == 1 && p.sender.None? ==> r.0[0].ip == UnknownIp)
    ensures r.1 == LocalIpAddress(s, interfaces).state
  {
    var l := LocalIpAddress(s, interfaces);
    (Classify(l.ip, p), l.state)
  }

  /** The receive loop over successive receive results, while the service
      runs. Each packet looks the local address up again while none is
      cached. Without a listen socket every pass fails before reading a
      packet and nothing is emitted. */
  function ReceiveLoop(s: DiscoveryState, results: seq<ReceiveResult>): (r: (seq<DiscoveryEvent>, DiscoveryState))
    ensures !s.isRunning || !s.listenSocket ==> r == ([], s)
    ensures |r.0| <= |results|
    ensures forall i :: 0 <= i < |r.0| ==> 0 < |r.0[i].payload| <= ReceiveBufferSize
    ensures r.1 == s.(cachedLocalIp := r.1.cachedLocalIp)
    ensures s.cachedLocalIp.Some? ==> r.1 == s
    ensures Wellformed(s) ==> Wellformed(r.1)
    decreases |results|
  {
    if !s.isRunning || !s.listenSocket || |results| == 0 then ([], s)
    else
      match results[0]
      case TimedOut => ReceiveLoop(s, results[1..])
      case Received(p, interfaces) =>
        var step := ReceivePacket(s, interfaces, p);
        var rest := ReceiveLoop(step.1, results[1..]);
        (step.0 + rest.0, rest.1)
  }

  /** The events a fixed local address lets through, in arrival order. */
  function Discovered(local: Option<string>, results: seq<ReceiveResult>): seq<DiscoveryEvent>
  {
    if |results| == 0 then []
    else (if results[0].Received? then Classify(local, results[0].packet) else []) + Discovered(local, results[1..])
  }

  lemma {:induction false} DiscoveredAppend(local: Option<string>, a: seq<ReceiveResult>, b: seq<ReceiveResult>)
    ensures Discovered(local, a + b) == Discovered(local, a) + Discovered(local, b)
  {
    if |a| == 0 {
      assert a + b == b;
    } else {
      assert (a + b)[1..] == a[1..] + b;
      DiscoveredAppend(local, a[1..], b);
    }
  }

  /** Once a local address is cached, the running loop filters every later
      packet against that address, whatever the interfaces do, and leaves
      the state alone. */
  lemma {:induction false} ReceiveLoopFilters(s: DiscoveryState, results: seq<ReceiveResult>)
    requires s.isRunning && s.listenSocket && s.cachedLocalIp.Some?
    ensures ReceiveLoop(s, results) == (Discovered(s.cachedLocalIp, results), s)
    decreases |results|
  {
    if |results| > 0 {
      ReceiveLoopFilters(s, results[1..]);
      if results[0].Received? {
        var step := ReceivePacket(s, results[0].interfaces, results[0].packet);
        assert step == (Classify(s.cachedLocalIp, results[0].packet), s);
        assert ReceiveLoop(s, results) == (step.0 + ReceiveLoop(s, results[1..]).0, s);
        assert Discovered(s.cachedLocalIp, results) ==
                 Classify(s.cachedLocalIp, results[0].packet) + Discovered(s.cachedLocalIp, results[1..]);
      } else {
        assert Discovered(s.cachedLocalIp, results) == Discovered(s.cachedLocalIp, results[1..]);
      }
    }
  }

  /** The position of the first received packet whose lookup finds a local
      address, or the length of the results when none does. */
  function FirstFound(results: seq<ReceiveResult>): (k: nat)
    ensures k <= |results|
    ensures k < |results| ==> results[k].Received? && Net.FindLocalIpAddress(results[k].interfaces).Some?
  {
    if |results| == 0 then 0
    else if results[0].Received? && Net.FindLocalIpAddress(results[0].interfaces).Some? then 0
    else 1 + FirstFound(results[1..])
  }

  /** Started without a cached address, the loop filters against "no
      address" (dropping only packets with a null sender) until the first
      lookup that finds one; from that packet on, it filters against the
      address found there, and caches it. */
  lemma {:induction false} ReceiveLoopSettles(s: DiscoveryState, results: seq<ReceiveResult>)
    requires s.isRunning && s.listenSocket && s.cachedLocalIp.None?
    ensures var k := FirstFound(results);
            var found := if k < |results| then Net.FindLocalIpAddress(results[k].interfaces) else None;
            && ReceiveLoop(s, results).0 == Discovered(None, results[..k]) + Discovered(found, results[k..])
            && ReceiveLoop(s, results).1 == s.(cachedLocalIp := found)
    decreases |results|
  {
    if |results| > 0 {
      if FirstFound(results) == 0 {
        SettlesHere(s, results);
      } else {
        var rest := results[1..];
        ReceiveLoopSettles(s, rest);
        var k := FirstFound(results);
        var k' := FirstFound(rest);
        assert k == 1 + k';
        var found := if k < |results| then Net.FindLocalIpAddress(results[k].interfaces) else None;
        var found' := if k' < |rest| then Net.FindLocalIpAddress(rest[k'].interfaces) else None;
        assert found == found' by {
          if k < |results| {
            assert results[k] == rest[k'];
          }
        }
        var first := if results[0].Received? then Classify(None, results[0].packet) else [];
        NoAddressStep(s, results);
        DiscoveredSplit(None, results, k);
        var before := Discovered(None, rest[..k']);
        var after := Discovered(found, rest[k'..]);
        calc {
          ReceiveLoop(s, results).0;
          first + ReceiveLoop(s, rest).0;
          first + (before + after);
          { AppendAssoc(first, before, after); }
          (first + before) + after;
          Discovered(None, results[..k]) + Discovered(found, results[k..]);
        }
      }
    }
  }

  /** The first packet finds the address: from it on, that address filters. */
  lemma SettlesHere(s: DiscoveryState, results: seq<ReceiveResult>)
    requires s.isRunning && s.listenSocket && s.cachedLocalIp.None?
    requires |results| > 0 && FirstFound(results) == 0
    ensures var found := Net.FindLocalIpAddress(results[0].interfaces);
            ReceiveLoop(s, results) == (Discovered(found, results), s.(cachedLocalIp := found))
  {
    var found := Net.FindLocalIpAddress(results[0].interfaces);
    var step := ReceivePacket(s, results[0].interfaces, results[0].packet);
    assert step == (Classify(found, results[0].packet), s.(cachedLocalIp := found));
    ReceiveLoopFilters(step.1, results[1..]);
  }

  /** One pass of the running loop. */
  lemma ReceiveLoopUnfold(s: DiscoveryState, results: seq<ReceiveResult>)
    requires s.isRunning && s.listenSocket && |results| > 0
    ensures results[0].TimedOut? ==> ReceiveLoop(s, results) == ReceiveLoop(s, results[1..])
    ensures results[0].Received? ==>
              var step := ReceivePacket(s, results[0].interfaces, results[0].packet);
              ReceiveLoop(s, results) == (step.0 + ReceiveLoop(step.1, results[1..]).0, ReceiveLoop(step.1, results[1..]).1)
  {
  }

  /** A lookup that finds nothing leaves the state alone. */
  lemma PacketWithoutAddress(s: DiscoveryState, interfaces: seq<Net.NetInterface>, p: Packet)
    requires s.cachedLocalIp.None? && Net.FindLocalIpAddress(interfaces).None?
    ensures ReceivePacket(s, interfaces, p) == (Classify(None, p), s)
  {
  }

  /** A pass whose lookup finds nothing keeps the state and judges the
      packet against "no address". */
  lemma NoAddressStep(s: DiscoveryState, results: seq<ReceiveResult>)
    requires s.isRunning && s.listenSocket && s.cachedLocalIp.None?
    requires |results| > 0 && !(results[0].Received? && Net.FindLocalIpAddress(results[0].interfaces).Some?)
    ensures var first := if results[0].Received? then Classify(None, results[0].packet) else [];
            ReceiveLoop(s, results) == (first + ReceiveLoop(s, results[1..]).0, ReceiveLoop(s, results[1..]).1)
  {
    ReceiveLoopUnfold(s, results);
    if results[0].Received? {
      PacketWithoutAddress(s, results[0].interfaces, results[0].packet);
    } else {
      assert [] + ReceiveLoop(s, results[1..]).0 == ReceiveLoop(s, results[1..]).0;
    }
  }

  /** Splitting off the first result of a prefix and of a suffix. */
  lemma DiscoveredSplit(local: Option<string>, results: seq<ReceiveResult>, k: nat)
    requires 0 < k <= |results|
    ensures Discovered(local, results[..k]) ==
              (if results[0].Received? then Classify(local, results[0].packet) else []) +
              Discovered(local, results[1..][..k - 1])
    ensures results[k..] == results[1..][k - 1..]
  {
    assert results[..k][0] == results[0];
    assert results[..k][1..] == results[1..][..k - 1];
  }

  /** The self filter: a packet from the local address adds nothing; a
      non-empty packet from anyone else adds exactly its one event. */
  lemma SelfFilter(local: Option<string>, results: seq<ReceiveResult>, p: Packet, interfaces: seq<Net.NetInterface>)
    ensures p.sender == local ==>
              Discovered(local, results + [Received(p, interfaces)]) == Discovered(local, results)
    ensures p.sender != local && |p.data| > 0 ==>
              Discovered(local, results + [Received(p, interfaces)]) ==
                Discovered(local, results) + [DiscoveryEvent(Payload(p), p.sender.GetOr(UnknownIp))]
  {
    DiscoveredAppend(local, results, [Received(p, interfaces)]);
    assert [Received(p, interfaces)][1..] == [];
  }

  /** An address that appears while the loop runs changes the verdict on
      the same sender: started with nothing cached and no address, a packet
      from 192.168.1.5 is let through; once WiFi brings up 192.168.1.5, the
      same packet is taken for a self-sent one and dropped. */
  lemma AddressFoundMidLoop()
    ensures var wifi := Net.NetInterface(false, true, [Net.Inet4("192.168.1.5", false)], []);
            var p := Packet(Some("192.168.1.5"), [7]);
            var s := Initial.(isRunning := true, listenSocket := true, listenJob := true);
            ReceiveLoop(s, [Received(p, []), Received(p, [wifi])]) ==
              ([DiscoveryEvent([7], "192.168.1.5")], s.(cachedLocalIp := Some("192.168.1.5")))
  {
    var wifi := Net.NetInterface(false, true, [Net.Inet4("192.168.1.5", false)], []);
    Net.SingleInterface(wifi);
    assert Net.FlatMap(wifi.inetAddresses, Net.HostIfUsable) == ["192.168.1.5"] by {
      assert wifi.inetAddresses[1..] == [];
    }
    assert Net.HasPrivatePrefix("192.168.1.5") by {
      assert "192.168.1.5"[..7] == "192.168";
    }
    assert Net.FindLocalIpAddress([wifi]) == Some("192.168.1.5");
    assert Net.FindLocalIpAddress([]) == None;
    var p := Packet(Some("192.168.1.5"), [7]);
    var s := Initial.(isRunning := true, listenSocket := true, listenJob := true);
    var results := [Received(p, []), Received(p, [wifi])];
    var found := s.(cachedLocalIp := Some("192.168.1.5"));
    ReceiveLoopUnfold(s, results);
    PacketWithoutAddress(s, [], p);
    assert Classify(None, p) == [DiscoveryEvent([7], "192.168.1.5")];
    assert results[1..] == [Received(p, [wifi])];
    ReceiveLoopUnfold(s, results[1..]);
    assert ReceivePacket(s, [wifi], p) == ([], found);
    assert results[1..][1..] == [];
    assert ReceiveLoop(found, []) == ([], found);
    assert ReceiveLoop(s, results[1..]) == ([], found);
    assert results[0] == Received(p, []);
    assert ReceivePacket(s, [], p) == ([DiscoveryEvent([7], "192.168.1.5")], s);
    assert [DiscoveryEvent([7], "192.168.1.5")] + [] == [DiscoveryEvent([7], "192.168.1.5")];
    assert ReceiveLoop(s, results) == ([DiscoveryEvent([7], "192.168.1.5")], found);
  }

  // ---------------------------------------------------------------------
  // The state invariant
  // ---------------------------------------------------------------------

  lemma InitialWellformed()
    ensures Wellformed(Initial) && Released(Initial)
  {
  }
}
