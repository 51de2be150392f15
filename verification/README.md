# Sada messenger transport core, modelled in Dafny

This project models the two decision layers of the Sada mesh messenger's
Android transport, with the socket plumbing taken out:

- the TCP link manager `SocketManager`. This covers its `isConnected` and
  `isServer` flags and its four nullable handles (server socket, client
  socket, input and output stream). It also covers the guarded
  `startServer` with its single `accept`, the guarded `connectToHost` with
  at most three attempts and a constant 500 ms delay between failed ones,
  `setupSocket`, the `write` guard, the idempotent `closeConnections`,
  `isSocketConnected`, and the read loop, which forwards each raw read of
  up to 4096 bytes as one message;
- the UDP discovery service `UdpBroadcastManager`. This covers its
  start/stop lifecycle (running flag, listen socket, broadcast socket,
  listen job, multicast lock) and the fire-and-forget `sendBroadcast`,
  which sends to the subnet broadcast address or 255.255.255.255 with one
  fallback send. It also covers the receive filter (self-sent packets are
  dropped, then empty ones), the cached local address behind
  `getDeviceIp`, and the two interface scans `findLocalIpAddress` and
  `getBroadcastAddress`.

Every operation is a pure function from a state record to the next one.
Whatever the platform or the network decides is passed in as an input:

- whether a bind, an accept, a connect attempt, a stream lookup or a
  write succeeds;
- what each `read` or `receive` returns;
- which network interfaces exist.

Status notifications are recorded as `(status, isConnected, isServer)`,
with the two flags as they stood when each notification was sent.

Files:

- `wrappers.dfy`: `Option` for Kotlin's nullable values.
- `bytes.dfy`: bytes and joining chunks.
- `net.dfy`: interface and address selection (module `Net`).
- `link.dfy`: the TCP link manager (module `Link`).
- `discovery.dfy`: the UDP discovery service (module `Discovery`).

Behaviours of the code worth noting, which the contracts state as they
are:

- The read loop does no length-prefix framing. A message is exactly one
  read of 1 to 4096 bytes, so a sender's message can arrive split across
  several messages or joined with another one.
- The retry delay is a constant 500 ms after every refused attempt but the last.
- The server accepts one peer only. It does not loop on `accept`.
- `closeConnections` also closes the server socket.
- `write` does not reject an empty payload.
- `stop` does not clear the cached local address.
- `startServer` sets `isServer` only after the bind succeeds. A failed
  bind leaves the old value.

- If obtaining a stream fails after an accept or a successful connect,
  `setupSocket` swallows the exception. The caller still sends a
  `connected` notification, with `isConnected` false, and a client does
  not retry.
- A `startListening` that fails after binding calls `stop()`. That call
  returns at once because the service is not yet running, so the bound
  socket and the created lock are never released.
- While no local address is cached, the receive loop looks it up again
  for every packet. A sender whose address later becomes the device's own
  is let through before that and dropped after it.

## Model

| member | source | states |
|---|---|---|
| `Link.CloseConnections` | android/app/src/main/kotlin/org/sada/messenger/SocketManager.kt:264-301 | closing always ends with the flag down and all four handles null, the server socket included; `isServer` is kept |
| `Link.CloseConnectionsIdempotent` | android/app/src/main/kotlin/org/sada/messenger/SocketManager.kt:264-301 | closing twice gives the same state as closing once, and closing changes nothing exactly when everything is already closed |
| `Link.SetupSocket` | android/app/src/main/kotlin/org/sada/messenger/SocketManager.kt:159-174 | when both streams open, the flag is up and the client socket, input stream and output stream are all set from the given socket; when a stream fails, everything is closed |
| `Link.IsSocketConnected` | android/app/src/main/kotlin/org/sada/messenger/SocketManager.kt:323-325 | true only when the flag is up and a client socket exists that reports itself connected |
| `Link.IsSocketConnectedAfterClose` | android/app/src/main/kotlin/org/sada/messenger/SocketManager.kt:323-325 | after closing, the link never reports itself connected |
| `Link.IsSocketConnectedAfterSetup` | android/app/src/main/kotlin/org/sada/messenger/SocketManager.kt:159-164 | after setup, the link reports itself connected exactly when both streams opened and the socket reports connected |
| `Link.StartServer` | android/app/src/main/kotlin/org/sada/messenger/SocketManager.kt:66-103 | while connected nothing changes and nothing is sent. A failed bind sends one error and closes everything, leaving `isServer` alone. After a bind the server becomes `isServer` and reports listening first. A failed accept sends an error and closes everything. A single accepted peer is set up and reported `connected`; when both its streams open, the link holds that peer's socket and streams, and when a stream fails to open everything is closed and the manager stays a server. The link ends up exactly when a peer was accepted with both streams. The state invariant is kept. Each notification carries the flags as `notifyConnectionStatus` reads them at that moment (SocketManager.kt:306-318) |
| `Link.ConnectToHost` | android/app/src/main/kotlin/org/sada/messenger/SocketManager.kt:108-154 | while connected nothing changes and nothing is recorded; otherwise the manager ends as a client (`isServer` false) and keeps the state invariant |
| `Link.ConnectLoop` | android/app/src/main/kotlin/org/sada/messenger/SocketManager.kt:122-147 | the retry loop keeps `isServer` and the state invariant, and started from the closed state it leaves the closed state whenever the link does not come up and never opens a listener; when it brings the link up, both streams are opened on the connected socket; its schedule is stated by `Link.ConnectLoopShape` |
| `Link.ConnectLoopShape` | android/app/src/main/kotlin/org/sada/messenger/SocketManager.kt:125-147 | after any number of refusals the loop lays out the remaining refused rounds (try, wait), one last attempt and a single notification. That notification is `connected` when the last attempt established a socket and `error` otherwise, carries the link's final flag, and keeps `isServer`. An established link holds a socket to the given host |
| `Link.ConnectSchedule` | android/app/src/main/kotlin/org/sada/messenger/SocketManager.kt:119-151 | one to three attempts, numbered from one, stopping at the first attempt that is not refused. A 500 ms delay follows every refused attempt but the last. There is exactly one notification: `connected` when the last attempt established a socket, `error` when it established nothing (three refusals or an unexpected exception), sent as a client with the link's final flag. No listener is left open, whatever the outcome. The link is up exactly when the last attempt established a socket with both streams, and then it holds a socket to the requested host with both streams opened on it; otherwise everything is closed. The manager ends as a client. Each notification carries the flags as `notifyConnectionStatus` reads them (SocketManager.kt:306-318) |
| `Link.Write` | android/app/src/main/kotlin/org/sada/messenger/SocketManager.kt:231-252 | success exactly when the link is up, has an output stream and the write flushes, and then exactly the data is written and nothing changes. Without link or stream nothing is written, sent or changed. An I/O failure sends one error (still marked connected, with the current `isServer`) and leaves exactly the closed state that `closeConnections` produces. Any other failure answers false, sends nothing and changes nothing. The state invariant is kept. Each notification carries the flags as `notifyConnectionStatus` reads them at that moment (SocketManager.kt:306-318) |
| `Link.WriteAfterClose` | android/app/src/main/kotlin/org/sada/messenger/SocketManager.kt:231-236 | nothing can be written on a closed link, and the attempt changes nothing |
| `Link.ReadLoop` | android/app/src/main/kotlin/org/sada/messenger/SocketManager.kt:179-226 | every delivered message has between 1 and 4096 bytes. When the loop exits it has sent at most one notification and the state is the closed state; while it runs nothing changes. On a link that is down it exits at once, silently. Without an input stream it exits with one `disconnected` notification. The state invariant is kept. Each notification carries the flags as `notifyConnectionStatus` reads them at that moment (SocketManager.kt:306-318) |
| `Link.ReadLoopDelivers` | android/app/src/main/kotlin/org/sada/messenger/SocketManager.kt:188-224 | on a link that is up, the delivered messages joined together are exactly the bytes read before the loop ends, so no byte is lost, added or reordered. There are no more messages than reads. The loop exits exactly when some read does not return bytes (end of stream or an exception), and then sends exactly one notification, still marked connected |
| `Link.ReadLoopExits` | android/app/src/main/kotlin/org/sada/messenger/SocketManager.kt:188-220 | on a link that is up, the loop exits exactly at the first read that does not return bytes (end of stream or an exception); an empty read does not end it. It then sends exactly one notification, marked connected and with the current `isServer`: `disconnected` for the end of the stream or a socket exception, `error` for any other exception. Each notification carries the flags as `notifyConnectionStatus` reads them at that moment (SocketManager.kt:306-318) |
| `Link.ReadLoopMessagesAreReads` | android/app/src/main/kotlin/org/sada/messenger/SocketManager.kt:188-207 | on a link that is up, the messages are exactly the non-empty reads before the loop ends, one message per read, in order; an empty read delivers nothing |
| `Discovery.Stop` | android/app/src/main/kotlin/org/sada/messenger/managers/UdpBroadcastManager.kt:96-123 | a no-op when not running; otherwise ends not running with the job, both sockets and the lock gone and the cached address kept. The state invariant is kept |
| `Discovery.StopIdempotent` | android/app/src/main/kotlin/org/sada/messenger/managers/UdpBroadcastManager.kt:96-97 | a second stop changes nothing |
| `Discovery.StartListening` | android/app/src/main/kotlin/org/sada/messenger/managers/UdpBroadcastManager.kt:61-94 | when already running it answers true and changes nothing. Otherwise it succeeds exactly when the bind succeeds and, if a WiFi manager exists, the lock is acquired. Success leaves the service running with its socket, job and lock and with the local address freshly looked up. A bind failure changes nothing. A later failure leaves the bound socket and an unheld lock behind. The answer always matches the running flag |
| `Discovery.FailedStartKeepsResources` | android/app/src/main/kotlin/org/sada/messenger/managers/UdpBroadcastManager.kt:89-97 | after a start that fails on the lock, the socket and the lock stay, and a following stop releases nothing |
| `Discovery.StartThenStop` | android/app/src/main/kotlin/org/sada/messenger/managers/UdpBroadcastManager.kt:80-120 | a successful start followed by stop releases every resource and keeps the address found at start |
| `Discovery.SendBroadcast` | android/app/src/main/kotlin/org/sada/messenger/managers/UdpBroadcastManager.kt:125-177 | accepted exactly when running; a refused call sends nothing and changes nothing. At most two sends, all to port 45454 carrying the message. The first goes to the address `getBroadcastAddress` picks, the subnet broadcast of the first qualifying interface address in enumeration order, or to 255.255.255.255 when there is none. A second send happens exactly when the first failed, and goes to 255.255.255.255. Nothing is sent when the broadcast socket cannot be created. A socket created by an accepted call is kept for later calls, and a failed creation records none; nothing else changes, so the state invariant is kept |
| `Discovery.NoBroadcastAfterStop` | android/app/src/main/kotlin/org/sada/messenger/managers/UdpBroadcastManager.kt:125-129 | after stop, a broadcast is refused and sends nothing |
| `Discovery.NoReceiveAfterStop` | android/app/src/main/kotlin/org/sada/messenger/managers/UdpBroadcastManager.kt:183 | after stop, the receive loop emits nothing and leaves the stopped state as it is |
| `Discovery.LocalIpAddress` | android/app/src/main/kotlin/org/sada/messenger/managers/UdpBroadcastManager.kt:46-54 | a cached address is returned without change; otherwise the interfaces are searched and the result, null included, is cached |
| `Discovery.LocalIpAddressStable` | android/app/src/main/kotlin/org/sada/messenger/managers/UdpBroadcastManager.kt:48-54 | a second lookup over the same interfaces gives the same answer and changes nothing |
| `Discovery.GetDeviceIp` | android/app/src/main/kotlin/org/sada/messenger/managers/UdpBroadcastManager.kt:302-304 | a cached address is returned as is. With no cache the answer is the address `findLocalIpAddress` prefers (the first typical-WiFi address in enumeration order, else the first usable IPv4 address), or "unknown" when there is none, and that lookup result becomes the cache. The answer is then one of the candidate addresses when any exist. Only the cache can change |
| `Discovery.DeviceIpAfterStart` | android/app/src/main/kotlin/org/sada/messenger/managers/UdpBroadcastManager.kt:80-82 | after a start that found an address, the device address is that one, whatever the interfaces look like later |
| `Discovery.Payload` | android/app/src/main/kotlin/org/sada/messenger/managers/UdpBroadcastManager.kt:181-188 | the payload is the start of the datagram, of exactly its length when it fits in the 1024-byte buffer and exactly 1024 bytes otherwise |
| `Discovery.Classify` | android/app/src/main/kotlin/org/sada/messenger/managers/UdpBroadcastManager.kt:192-200 | against a given local address, a packet yields at most one event. It yields one exactly when the sender differs from the local address (two nulls count as equal) and the datagram is non-empty. That event is the buffered payload with the sender, or "unknown" for a null sender |
| `Discovery.ReceivePacket` | android/app/src/main/kotlin/org/sada/messenger/managers/UdpBroadcastManager.kt:185-200 | the local address is looked up (and cached) first. Then a packet yields one event exactly when its sender differs from that address (two nulls count as equal) and it is non-empty, else none. The event carries the buffered payload and the sender, or "unknown" for a null sender |
| `Discovery.ReceiveLoop` | android/app/src/main/kotlin/org/sada/messenger/managers/UdpBroadcastManager.kt:179-217 | a stopped service, or one without a listen socket, receives nothing and changes nothing. At most one event per receive, each with a payload of 1 to 1024 bytes. The loop changes nothing but the cached address, and nothing at all once an address is cached. The state invariant is kept |
| `Discovery.ReceiveLoopFilters` | android/app/src/main/kotlin/org/sada/messenger/managers/UdpBroadcastManager.kt:183-200 | once an address is cached, the running loop emits exactly the events that address lets through, in arrival order, whatever the interfaces do later, and changes no state |
| `Discovery.ReceiveLoopSettles` | android/app/src/main/kotlin/org/sada/messenger/managers/UdpBroadcastManager.kt:183-200 | started with nothing cached, the loop judges packets against "no address" up to the first packet whose lookup finds an address. From that packet on it judges against the address found there, which ends up cached. When no lookup finds one, nothing is cached |
| `Discovery.SelfFilter` | android/app/src/main/kotlin/org/sada/messenger/managers/UdpBroadcastManager.kt:191-200 | a packet from the local address adds no event; a non-empty packet from another sender adds exactly its one event at the end |
| `Discovery.AddressFoundMidLoop` | android/app/src/main/kotlin/org/sada/messenger/managers/UdpBroadcastManager.kt:48-54 | the same packet from 192.168.1.5 is let through while the device has no address and dropped once 192.168.1.5 becomes the device's address |
| `Net.FirstPrivate` | android/app/src/main/kotlin/org/sada/messenger/managers/UdpBroadcastManager.kt:244-249 | the first private-prefix entry of a list, if any: present exactly when some entry has a private prefix, and no earlier entry has one |
| `Net.FindLocalIpAddress` | android/app/src/main/kotlin/org/sada/messenger/managers/UdpBroadcastManager.kt:234-270 | null exactly when there is no candidate. A result is always a candidate. When any candidate has the 192.168 / 10. / 172. prefix, the result is the first such candidate; otherwise it is the first candidate |
| `Net.CandidateOrigin` | android/app/src/main/kotlin/org/sada/messenger/managers/UdpBroadcastManager.kt:237-265 | a string is a candidate exactly when it is the host of an IPv4, non-loopback address on an up, non-loopback interface |
| `Net.ScanLocalIp` | android/app/src/main/kotlin/org/sada/messenger/managers/UdpBroadcastManager.kt:234-270 | the two nested scans, the private pass and then the fallback pass, return exactly what `FindLocalIpAddress` specifies. A result comes from an eligible interface |
| `Net.GetBroadcastAddress` | android/app/src/main/kotlin/org/sada/messenger/managers/UdpBroadcastManager.kt:273-300 | null exactly when no qualifying interface address exists. Qualifying means: on an up, non-loopback interface; IPv4; not loopback; with a broadcast address; with a private-prefix host. A result is the broadcast address of a qualifying one |
| `Net.BroadcastOrigin` | android/app/src/main/kotlin/org/sada/messenger/managers/UdpBroadcastManager.kt:276-295 | an address is a broadcast candidate exactly when a qualifying interface address carries it |
| `Net.ScanBroadcastAddress` | android/app/src/main/kotlin/org/sada/messenger/managers/UdpBroadcastManager.kt:273-300 | the nested scan returns what `GetBroadcastAddress` specifies, and a result is the broadcast of the first qualifying interface address in enumeration order |
| `Net.FirstQualifying` | android/app/src/main/kotlin/org/sada/messenger/managers/UdpBroadcastManager.kt:280-294 | the inner scan over one interface's addresses stops at the first address that qualifies, and none before it qualifies |
| `Net.PrefixTestAdmitsAll172` | android/app/src/main/kotlin/org/sada/messenger/managers/UdpBroadcastManager.kt:247 | every host that starts with "172." passes the "typical WiFi range" test, so the test admits all of 172.0.0.0/8 and not only the 172.16.0.0/12 block of section 3 of RFC 1918; `getBroadcastAddress` applies the same test (line 288) |
| `Net.PrefixWiderThanRfc1918` | android/app/src/main/kotlin/org/sada/messenger/managers/UdpBroadcastManager.kt:247 | the prefix test treats 172.32.0.1, outside RFC 1918 section 3, as private, and prefers it over an earlier non-private address |
| `Net.BroadcastHasNoFallback` | android/app/src/main/kotlin/org/sada/messenger/managers/UdpBroadcastManager.kt:273-300 | an interface with only a non-private address yields a local address but no broadcast address, because the broadcast search has no fallback |

## Left out

- Concurrency: the coroutine scopes, `Job` cancellation, `isActive`/`isCancelled` checks, and races between the read loop's final `closeConnections` and other calls. Each operation is one sequential step, and `startServer`/`connectToHost` run their background part straight after the guard.
- The discovery listen loop is launched before `isRunning` is set, so it could see the flag still false and exit at once. The model assumes the loop sees the service running.
- Event sinks (`setMessageEventSink`, `setConnectionStatusSink`, `setEventSink`) are assumed attached. The status message texts, the JSON formatting of events, and the main-thread hop are not modelled.
- UTF-8 conversion is not modelled. The code decodes every read chunk (SocketManager.kt:201) and every datagram (UdpBroadcastManager.kt:188) on its own, and encodes every broadcast (UdpBroadcastManager.kt:141, 161) and every `writeText` (SocketManager.kt:258). The model keeps read chunks and datagrams as bytes and broadcasts as characters; `writeText` is left out.
- Link.ReadLoopDelivers: preserves the bytes, not the text the app receives. Each chunk is decoded separately, so a multi-byte character split across two reads reaches the app as replacement characters.
- `destroy` in both managers first closes the link (`closeConnections`, SocketManager.kt:332) or stops the service (`stop`, UdpBroadcastManager.kt:319), which `Link.CloseConnections` and `Discovery.Stop` model, and then cancels the coroutine scope, which is left out with the rest of the concurrency.
- `isWifiConnected` and `WifiManager` are opaque platform calls. The multicast lock is a presence and held flag; its reference counting is not modelled.
- The receive-loop exception policy is left out: a socket exception exits the loop, and other exceptions wait one second and continue. Receive timeouts are modelled.
- Exceptions during the interface scans are not modelled. `getNetworkInterfaces`, `isLoopback` and `isUp` can throw (UdpBroadcastManager.kt:236, 239, 254, 257, 275, 278). Any such exception abandons the whole scan and answers null (266-269, 296-299), even when an interface met earlier already held a candidate; the model scans every interface and returns that candidate. Each lookup also reads one snapshot of the interfaces, although `findLocalIpAddress` enumerates them twice, once per pass.
- A broadcast socket that is non-null but closed is not modelled. After `stop` the field is null.
- Real time: the 5000 ms connect timeout and the 1000 ms receive timeout are not modelled as durations. A timed-out connect attempt counts as a refused one, and a receive timeout is the `TimedOut` result.
- Link.Write: on an I/O failure, `written` is empty. Bytes the stream may have sent before failing are not modelled.
