/** The TCP link manager (`SocketManager`): its flags and four nullable
    handles, the guarded server start and client connect with the bounded
    retry schedule, the write guard, the idempotent teardown and the read
    loop that forwards raw read chunks. Every operation is a pure
    transition from one state to the next; what the network does is an
    input. */
module Link {
  import opened Wrappers
  import opened Bytes

  const Port: nat := 8888
  const MaxRetryAttempts: nat := 3
  const RetryDelayMs: nat := 500
  const ReadBufferSize: nat := 4096

  /** A connected peer socket; `reportsConnected` is what its
      `isConnected` accessor answers. */
  datatype PeerSocket = PeerSocket(remote: string, reportsConnected: bool)

  /** The listening server socket. */
  datatype Listener = Listener(port: nat)

  /** An input or output stream obtained from a peer socket. */
  datatype Stream = Stream(owner: PeerSocket)

  datatype LinkState = LinkState(
    isConnected: bool,
    isServer: bool,
    serverSocket: Option<Listener>,
    clientSocket: Option<PeerSocket>,
    inputStream: Option<Stream>,
    outputStream: Option<Stream>)

  const Initial: LinkState := LinkState(false, false, None, None, None, None)

  datatype Status = ServerListening | Connected | Disconnected | Error

  /** A status notification (notifyConnectionStatus) with the two flags as
      they stood when it was sent. */
  datatype StatusEvent = StatusEvent(status: Status, isConnected: bool, isServer: bool)

  /** Nothing is open and the link is down. */
  predicate Closed(s: LinkState)
  {
    !s.isConnected && s.serverSocket.None? && s.clientSocket.None? &&
    s.inputStream.None? && s.outputStream.None?
  }

  /** The state invariant: a connected link has its socket and both streams. */
  predicate Wellformed(s: LinkState)
  {
    s.isConnected ==> s.clientSocket.Some? && s.inputStream.Some? && s.outputStream.Some?
  }

  /** closeConnections: clears the flag and closes and forgets all four
      handles, the server socket included. `isServer` is left alone. */
  function CloseConnections(s: LinkState): (r: LinkState)
    ensures Closed(r)
    ensures r.isServer == s.isServer
  {
    s.(isConnected := false, serverSocket := None, clientSocket := None,
       inputStream := None, outputStream := None)
  }

  /** Closing twice is the same as closing once. */
  lemma CloseConnectionsIdempotent(s: LinkState)
    ensures CloseConnections(CloseConnections(s)) == CloseConnections(s)
    ensures CloseConnections(s) == s <==> Closed(s)
  {
  }

  /** setupSocket: records the socket and its two streams and raises the
      flag; if obtaining a stream throws, everything is torn down instead.
      `streamsOk` says whether both `getInputStream` and `getOutputStream`
      succeed. */
  function SetupSocket(s: LinkState, sock: PeerSocket, streamsOk: bool): (r: LinkState)
    ensures streamsOk ==> r.isConnected && r.clientSocket == Some(sock) &&
                          r.inputStream == Some(Stream(sock)) && r.outputStream == Some(Stream(sock))
    ensures streamsOk ==> r.serverSocket == s.serverSocket
    ensures !streamsOk ==> Closed(r)
    ensures r.isServer == s.isServer && Wellformed(r)
  {
    if streamsOk then
      s.(clientSocket := Some(sock), inputStream := Some(Stream(sock)),
         outputStream := Some(Stream(sock)), isConnected := true)
    else
      CloseConnections(s.(clientSocket := Some(sock)))
  }

  /** isSocketConnected: the flag and the socket's own report must agree. */
  function IsSocketConnected(s: LinkState): (r: bool)
    ensures r ==> s.isConnected && s.clientSocket.Some? && s.clientSocket.value.reportsConnected
  {
    s.isConnected && s.clientSocket.Some? && s.clientSocket.value.reportsConnected
  }

  lemma IsSocketConnectedAfterClose(s: LinkState)
    ensures !IsSocketConnected(CloseConnections(s))
  {
  }

  lemma IsSocketConnectedAfterSetup(s: LinkState, sock: PeerSocket, streamsOk: bool)
    ensures IsSocketConnected(SetupSocket(s, sock, streamsOk)) <==> streamsOk && sock.reportsConnected
  {
  }

  // ---------------------------------------------------------------------
  // Server start
  // ---------------------------------------------------------------------

  /** What the single blocking `accept()` yields. */
  datatype AcceptOutcome =
    | AcceptFailed
    | Accepted(sock: PeerSocket, streamsOk: bool)

  datatype Step = Step(state: LinkState, events: seq<StatusEvent>)

  /** startServer: refused while connected; otherwise tears down, binds the
      listener (`bindOk`), reports listening, accepts exactly one peer and
      sets it up. Bind and accept failures report an error and tear down. */
  function StartServer(s: LinkState, bindOk: bool, accept: AcceptOutcome): (r: Step)
    ensures s.isConnected ==> r == Step(s, [])
    ensures !s.isConnected && !bindOk ==>
              Closed(r.state) && r.state.isServer == s.isServer &&
              r.events == [StatusEvent(Error, false, s.isServer)]
    ensures !s.isConnected && bindOk ==>
              r.state.isServer && |r.events| == 2 &&
              r.events[0] == StatusEvent(ServerListening, false, true)
    ensures !s.isConnected && bindOk && accept.AcceptFailed? ==>
              Closed(r.state) && r.events[1] == StatusEvent(Error, false, true)
    ensures !s.isConnected && bindOk && accept.Accepted? ==>
              r.state.serverSocket == (if accept.streamsOk then Some(Listener(Port)) else None) &&
              r.events[1] == StatusEvent(Connected, accept.streamsOk, true)
    ensures !s.isConnected && bindOk && accept.Accepted? && !accept.streamsOk ==>
              Closed(r.state) && r.state.isServer
    ensures !s.isConnected && bindOk && accept.Accepted? && accept.streamsOk ==>
              r.state.clientSocket == Some(accept.sock) &&
              r.state.inputStream == Some(Stream(accept.sock)) &&
              r.state.outputStream == Some(Stream(accept.sock))
    ensures r.state.isConnected <==> s.isConnected || (bindOk && accept.Accepted? && accept.streamsOk)
    ensures Wellformed(s) ==> Wellformed(r.state)
  {
    if s.isConnected then Step(s, [])
    else
      var c := CloseConnections(s);
      if !bindOk then
        Step(CloseConnections(c), [StatusEvent(Error, c.isConnected, c.isServer)])
      else
        var l := c.(serverSocket := Some(Listener(Port)), isServer := true);
        var listening := StatusEvent(ServerListening, l.isConnected, l.isServer);
        match accept
        case AcceptFailed =>
          Step(CloseConnections(l), [listening, StatusEvent(Error, l.isConnected, l.isServer)])
        case Accepted(sock, streamsOk) =>
          var t := SetupSocket(l, sock, streamsOk);
          Step(t, [listening, StatusEvent(Connected, t.isConnected, t.isServer)])
  }

  // ---------------------------------------------------------------------
  // Client connect with bounded retry
  // ---------------------------------------------------------------------

  /** What one connect attempt yields: an I/O failure (refused, timed out,
      unreachable), an established socket, or a non-I/O exception that
      escapes the retry loop. */
  datatype AttemptOutcome =
    | Refused
    | Established(reportsConnected: bool, streamsOk: bool)
    | Aborted

  /** One observable step of the connect procedure. */
  datatype ConnectStep =
    | Attempt(number: nat)
    | Wait(ms: nat)
    | Notice(event: StatusEvent)

  /** The retry loop from attempt number `made + 1` on; `outcome(j)` is what
      the network answers attempt number `j + 1`. */
  function ConnectLoop(s: LinkState, host: string, made: nat, outcome: nat -> AttemptOutcome): (r: (LinkState, seq<ConnectStep>))
    requires made < MaxRetryAttempts
    ensures Wellformed(s) ==> Wellformed(r.0)
    ensures r.0.isServer == s.isServer
    ensures Closed(s) && !r.0.isConnected ==> Closed(r.0)
    ensures Closed(s) ==> r.0.serverSocket.None?
    ensures !s.isConnected && r.0.isConnected ==>
              r.0.clientSocket.Some? && r.0.inputStream == r.0.outputStream == Some(Stream(r.0.clientSocket.value))
    decreases MaxRetryAttempts - made
  {
    var n := made + 1;
    match outcome(made)
    case Established(reportsConnected, streamsOk) =>
      var t := SetupSocket(s, PeerSocket(host, reportsConnected), streamsOk);
      (t, [Attempt(n), Notice(StatusEvent(Connected, t.isConnected, t.isServer))])
    case Aborted =>
      (CloseConnections(s), [Attempt(n), Notice(StatusEvent(Error, s.isConnected, s.isServer))])
    case Refused =>
      if n < MaxRetryAttempts then
        var rest := ConnectLoop(s, host, n, outcome);
        (rest.0, [Attempt(n), Wait(RetryDelayMs)] + rest.1)
      else
        (s, [Attempt(n), Notice(StatusEvent(Error, s.isConnected, s.isServer))])
  }

  /** connectToHost: refused while connected; otherwise tears down, becomes
      a client and runs the retry loop. */
  function ConnectToHost(s: LinkState, host: string, outcome: nat -> AttemptOutcome): (r: (LinkState, seq<ConnectStep>))
    ensures s.isConnected ==> r == (s, [])
    ensures !s.isConnected ==> !r.0.isServer
    ensures Wellformed(s) ==> Wellformed(r.0)
  {
    if s.isConnected then (s, [])
    else ConnectLoop(CloseConnections(s).(isServer := false), host, 0, outcome)
  }

  /** Number of attempts the loop makes: one more than the run of leading
      refusals, capped at the attempt budget. */
  function AttemptsMade(outcome: nat -> AttemptOutcome): nat
  {
    if !outcome(0).Refused? then 1
    else if !outcome(1).Refused? then 2
    else 3
  }

  /** The failed rounds numbered `from + 1` to `to`: each tries, then
      waits 500 ms. */
  function Rounds(from: nat, to: nat): seq<ConnectStep>
    decreases if from < to then to - from else 0
  {
    if to <= from then [] else [Attempt(from + 1), Wait(RetryDelayMs)] + Rounds(from + 1, to)
  }

  /** The attempt numbers of a trace, in order. */
  function Attempts(t: seq<ConnectStep>): seq<nat>
  {
    if |t| == 0 then []
    else (if t[0].Attempt? then [t[0].number] else []) + Attempts(t[1..])
  }

  /** The delays of a trace, in order. */
  function Delays(t: seq<ConnectStep>): seq<nat>
  {
    if |t| == 0 then []
    else (if t[0].Wait? then [t[0].ms] else []) + Delays(t[1..])
  }

  /** The status notifications of a trace, in order. */
  function Notices(t: seq<ConnectStep>): seq<StatusEvent>
  {
    if |t| == 0 then []
    else (if t[0].Notice? then [t[0].event] else []) + Notices(t[1..])
  }

  lemma ProjectionsAppend(a: seq<ConnectStep>, b: seq<ConnectStep>)
    ensures Attempts(a + b) == Attempts(a) + Attempts(b)
    ensures Delays(a + b) == Delays(a) + Delays(b)
    ensures Notices(a + b) == Notices(a) + Notices(b)
  {
    AttemptsAppend(a, b);
    DelaysAppend(a, b);
    NoticesAppend(a, b);
  }

  lemma {:induction false} AttemptsAppend(a: seq<ConnectStep>, b: seq<ConnectStep>)
    ensures Attempts(a + b) == Attempts(a) + Attempts(b)
  {
    if |a| == 0 {
      assert a + b == b;
    } else {
      assert (a + b)[0] == a[0];
      assert (a + b)[1..] == a[1..] + b;
      AttemptsAppend(a[1..], b);
    }
  }

  lemma {:induction false} DelaysAppend(a: seq<ConnectStep>, b: seq<ConnectStep>)
    ensures Delays(a + b) == Delays(a) + Delays(b)
  {
    if |a| == 0 {
      assert a + b == b;
    } else {
      assert (a + b)[0] == a[0];
      assert (a + b)[1..] == a[1..] + b;
      DelaysAppend(a[1..], b);
    }
  }

  lemma {:induction false} NoticesAppend(a: seq<ConnectStep>, b: seq<ConnectStep>)
    ensures Notices(a + b) == Notices(a) + Notices(b)
  {
    if |a| == 0 {
      assert a + b == b;
    } else {
      assert (a + b)[0] == a[0];
      assert (a + b)[1..] == a[1..] + b;
      NoticesAppend(a[1..], b);
    }
  }

  lemma {:induction false} RoundsProjections(from: nat, to: nat)
    requires from <= to
    ensures Attempts(Rounds(from, to)) == seq(to - from, i => from + i + 1)
    ensures Delays(Rounds(from, to)) == seq(to - from, i => RetryDelayMs)
    ensures Notices(Rounds(from, to)) == []
    decreases if from < to then to - from else 0
  {
    if from < to {
      RoundsProjections(from + 1, to);
      var head: seq<ConnectStep> := [Attempt(from + 1), Wait(RetryDelayMs)];
      ProjectionsAppend(head, Rounds(from + 1, to));
      assert head[1..][1..] == [];
      assert Attempts(head) == [from + 1];
      assert Delays(head) == [RetryDelayMs];
      assert Notices(head) == [];
    }
  }

  /** The loop entered after `made` refusals: the remaining refused rounds,
      the last attempt, then a single notification, which is an error
      exactly when the last attempt did not establish a socket; the link
      ends up exactly when that attempt established one with both streams. */
  lemma {:induction false} ConnectLoopShape(s: LinkState, host: string, made: nat, outcome: nat -> AttemptOutcome)
    requires made < MaxRetryAttempts
    requires forall j :: 0 <= j < made ==> outcome(j).Refused?
    requires !s.isConnected
    ensures var n := AttemptsMade(outcome);
            var r := ConnectLoop(s, host, made, outcome);
            && made < n
            && |r.1| >= 2
            && r.1 == Rounds(made, n - 1) + [Attempt(n), r.1[|r.1| - 1]]
            && r.1[|r.1| - 1] ==
                 Notice(StatusEvent(if outcome(n - 1).Established? then Connected else Error,
                                    r.0.isConnected, s.isServer))
            && (r.0.isConnected <==> outcome(n - 1).Established? && outcome(n - 1).streamsOk)
            && (r.0.isConnected ==> r.0.clientSocket == Some(PeerSocket(host, outcome(n - 1).reportsConnected)))
    decreases MaxRetryAttempts - made
  {
    var n := AttemptsMade(outcome);
    if outcome(made).Refused? && made + 1 < MaxRetryAttempts {
      ConnectLoopShape(s, host, made + 1, outcome);
    } else {
      assert n == made + 1;
    }
  }

  /** The connect schedule: between one and three attempts numbered from
      one, stopping at the first attempt that is not refused; a constant
      500 ms delay after every refused attempt except the last; exactly one
      notification at the end, `connected` when the last attempt established
      a socket and `error` otherwise, sent as a client with the link's final
      flag; the link is up exactly when that attempt established a socket
      with both streams, and then holds a socket to `host`. */
  lemma ConnectSchedule(s: LinkState, host: string, outcome: nat -> AttemptOutcome)
    requires !s.isConnected
    ensures var n := AttemptsMade(outcome);
            var r := ConnectToHost(s, host, outcome);
            && 1 <= n <= MaxRetryAttempts
            && (forall j :: 0 <= j < n - 1 ==> outcome(j).Refused?)
            && (n < MaxRetryAttempts ==> !outcome(n - 1).Refused?)
            && Attempts(r.1) == seq(n, i => i + 1)
            && Delays(r.1) == seq(n - 1, i => RetryDelayMs)
            && Notices(r.1) == [StatusEvent(if outcome(n - 1).Established? then Connected else Error,
                                            r.0.isConnected, false)]
            && (r.0.isConnected <==> outcome(n - 1).Established? && outcome(n - 1).streamsOk)
            && (r.0.isConnected ==> r.0.clientSocket == Some(PeerSocket(host, outcome(n - 1).reportsConnected)))
            && !r.0.isServer
            && r.0.serverSocket.None?
            && (r.0.isConnected ==> r.0.inputStream == r.0.outputStream == Some(Stream(r.0.clientSocket.value)))
            && (!r.0.isConnected ==> Closed(r.0))
  {
    var n := AttemptsMade(outcome);
    var c := CloseConnections(s).(isServer := false);
    var r := ConnectToHost(s, host, outcome);
    ConnectLoopShape(c, host, 0, outcome);
    assert r == ConnectLoop(c, host, 0, outcome);
    ScheduleProjections(n, r.1[|r.1| - 1]);
  }

  /** What the projections read off a trace of `n - 1` refused rounds, a
      last attempt and a final step. */
  lemma ScheduleProjections(n: nat, last: ConnectStep)
    requires 1 <= n && last.Notice?
    ensures var t := Rounds(0, n - 1) + [Attempt(n), last];
            && Attempts(t) == seq(n, i => i + 1)
            && Delays(t) == seq(n - 1, i => RetryDelayMs)
            && Notices(t) == [last.event]
  {
    RoundsProjections(0, n - 1);
    var tail: seq<ConnectStep> := [Attempt(n), last];
    ProjectionsAppend(Rounds(0, n - 1), tail);
    var end: seq<ConnectStep> := [last];
    assert tail[1..] == end;
    assert end[1..] == [];
    assert Attempts(end) == [] && Delays(end) == [] && Notices(end) == [last.event];
    assert Attempts(tail) == [n];
    assert Delays(tail) == [];
    assert Notices(tail) == [last.event];
  }

  // ---------------------------------------------------------------------
  // Write
  // ---------------------------------------------------------------------

  /** What writing and flushing the output stream does. */
  datatype WriteOutcome = Flushed | WriteIoError | WriteOtherError

  datatype WriteResult = WriteResult(ok: bool, written: seq<Byte>, events: seq<StatusEvent>, state: LinkState)

  /** write: refused without output when the link is down or has no output
      stream; an I/O failure reports an error and tears everything down;
      any other failure just answers false. Empty data is not rejected. */
  function Write(s: LinkState, data: seq<Byte>, outcome: WriteOutcome): (r: WriteResult)
    ensures r.ok ==> r.written == data && r.state == s && r.events == []
    ensures !r.ok ==> r.written == []
    ensures r.ok <==> s.isConnected && s.outputStream.Some? && outcome.Flushed?
    ensures !s.isConnected || s.outputStream.None? ==> r.state == s && r.events == []
    ensures s.isConnected && s.outputStream.Some? && outcome.WriteIoError? ==>
              r.state == CloseConnections(s) && r.events == [StatusEvent(Error, true, s.isServer)]
    ensures outcome.WriteOtherError? ==> r.state == s && r.events == []
    ensures Wellformed(s) ==> Wellformed(r.state)
  {
    if !s.isConnected || s.outputStream.None? then WriteResult(false, [], [], s)
    else match outcome
      case Flushed => WriteResult(true, data, [], s)
      case WriteIoError => WriteResult(false, [], [StatusEvent(Error, s.isConnected, s.isServer)], CloseConnections(s))
      case WriteOtherError => WriteResult(false, [], [], s)
  }

  /** Nothing can be written once the link has been closed. */
  lemma WriteAfterClose(s: LinkState, data: seq<Byte>, outcome: WriteOutcome)
    ensures var r := Write(CloseConnections(s), data, outcome);
            !r.ok && r.written == [] && r.events == [] && r.state == CloseConnections(s)
  {
  }

  // ---------------------------------------------------------------------
  // Read loop
  // ---------------------------------------------------------------------

  /** What one `read` into the 4096-byte buffer can return. */
  type Chunk = c: seq<Byte> | |c| <= ReadBufferSize

  /** One `read` call: the bytes read (at most the buffer), end of stream,
      a socket exception, another I/O exception, or an exception outside
      the I/O family. */
  datatype ReadResult =
    | Data(chunk: Chunk)
    | EndOfStream
    | SocketFailure
    | ReadIoError
    | ReadOtherError

  datatype ReadOutcome = ReadOutcome(
    messages: seq<seq<Byte>>,
    events: seq<StatusEvent>,
    state: LinkState,
    exited: bool)

  /** The read loop over the results of successive `read` calls. It runs
      while the link is up; each non-empty chunk is delivered as one
      message, unframed; the loop ends on the first non-data result (with
      one notification) and always ends by closing everything. When the
      inputs run out before that, the loop is still running. */
  function ReadLoop(s: LinkState, results: seq<ReadResult>): (r: ReadOutcome)
    ensures forall i :: 0 <= i < |r.messages| ==> 0 < |r.messages[i]| <= ReadBufferSize
    ensures r.exited ==> r.state == CloseConnections(s) && |r.events| <= 1
    ensures !r.exited ==> r.state == s && r.events == []
    ensures !s.isConnected ==> r.exited && r.events == [] && r.messages == []
    ensures s.isConnected && s.inputStream.None? ==>
              r.exited && r.messages == [] && r.events == [StatusEvent(Disconnected, true, s.isServer)]
    ensures Wellformed(s) ==> Wellformed(r.state)
    decreases |results|
  {
    if !s.isConnected then
      ReadOutcome([], [], CloseConnections(s), true)
    else if s.inputStream.None? then
      ReadOutcome([], [StatusEvent(Disconnected, s.isConnected, s.isServer)], CloseConnections(s), true)
    else if |results| == 0 then
      ReadOutcome([], [], s, false)
    else
      match results[0]
      case Data(chunk) =>
        var rest := ReadLoop(s, results[1..]);
        rest.(messages := (if |chunk| > 0 then [chunk] else []) + rest.messages)
      case EndOfStream => ReadOutcome([], [StatusEvent(Disconnected, s.isConnected, s.isServer)], CloseConnections(s), true)
      case SocketFailure => ReadOutcome([], [StatusEvent(Disconnected, s.isConnected, s.isServer)], CloseConnections(s), true)
      case ReadIoError => ReadOutcome([], [StatusEvent(Error, s.isConnected, s.isServer)], CloseConnections(s), true)
      case ReadOtherError => ReadOutcome([], [StatusEvent(Error, s.isConnected, s.isServer)], CloseConnections(s), true)
  }

  /** The chunks read before the first non-data result. */
  function LeadingChunks(results: seq<ReadResult>): (r: seq<seq<Byte>>)
    ensures |r| <= |results|
  {
    if |results| == 0 || !results[0].Data? then [] else [results[0].chunk] + LeadingChunks(results[1..])
  }

  /** Some read result ends the loop. */
  predicate HasTerminator(results: seq<ReadResult>)
  {
    exists i :: 0 <= i < |results| && !results[i].Data?
  }

  /** On a link that is up, the read loop loses, adds and reorders no bytes:
      the delivered messages joined together are exactly the bytes read.
      Message boundaries are read boundaries, not the sender's. The loop
      exits exactly when some read does not return data, and then sends
      exactly one notification, whose `isConnected` is still true. */
  lemma {:induction false} ReadLoopDelivers(s: LinkState, results: seq<ReadResult>)
    requires s.isConnected && s.inputStream.Some?
    ensures var r := ReadLoop(s, results);
            && Concat(r.messages) == Concat(LeadingChunks(results))
            && |r.messages| <= |LeadingChunks(results)|
            && (r.exited <==> HasTerminator(results))
            && (r.exited ==> |r.events| == 1 && r.events[0].isConnected)
  {
    ReadLoopMessagesAreReads(s, results);
    ConcatNonEmpty(LeadingChunks(results));
    ReadLoopExits(s, results);
  }

  /** The leading chunks are the data of the results before the first
      non-data result, which sits right after them. */
  lemma {:induction false} LeadingChunksPrefix(results: seq<ReadResult>)
    ensures var k := |LeadingChunks(results)|;
            && (forall j :: 0 <= j < k ==> results[j].Data? && results[j].chunk == LeadingChunks(results)[j])
            && (k < |results| ==> !results[k].Data?)
    decreases |results|
  {
    if |results| > 0 && results[0].Data? {
      LeadingChunksPrefix(results[1..]);
      var tail := LeadingChunks(results[1..]);
      assert LeadingChunks(results) == [results[0].chunk] + tail;
      forall j | 0 < j < |LeadingChunks(results)|
        ensures results[j].Data? && results[j].chunk == LeadingChunks(results)[j]
      {
        assert results[j] == results[1..][j - 1];
        assert LeadingChunks(results)[j] == tail[j - 1];
      }
    }
  }

  /** The loop exits exactly when some read does not return data. It then
      sends exactly one notification, still marked connected: `disconnected`
      when that first non-data result is the end of the stream or a socket
      exception, `error` when it is any other exception. */
  lemma {:induction false} ReadLoopExits(s: LinkState, results: seq<ReadResult>)
    requires s.isConnected && s.inputStream.Some?
    ensures var r := ReadLoop(s, results);
            var k := |LeadingChunks(results)|;
            && (r.exited <==> HasTerminator(results))
            && (r.exited <==> k < |results|)
            && (k < |results| ==>
                  r.events == [StatusEvent(if results[k].EndOfStream? || results[k].SocketFailure?
                                           then Disconnected else Error, true, s.isServer)])
    decreases |results|
  {
    LeadingChunksPrefix(results);
    if |results| > 0 && results[0].Data? {
      ReadLoopExits(s, results[1..]);
      assert LeadingChunks(results) == [results[0].chunk] + LeadingChunks(results[1..]);
      assert HasTerminator(results) <==> HasTerminator(results[1..]) by {
        if HasTerminator(results) {
          var i :| 0 <= i < |results| && !results[i].Data?;
          assert results[1..][i - 1] == results[i];
        }
        if HasTerminator(results[1..]) {
          var i :| 0 <= i < |results[1..]| && !results[1..][i].Data?;
          assert results[i + 1] == results[1..][i];
        }
      }
    } else if |results| > 0 {
      assert HasTerminator(results);
    }
  }

  /** On a link that is up, each message is exactly one non-empty read,
      in the order of the reads; empty reads deliver nothing. */
  lemma {:induction false} ReadLoopMessagesAreReads(s: LinkState, results: seq<ReadResult>)
    requires s.isConnected && s.inputStream.Some?
    ensures ReadLoop(s, results).messages == NonEmpty(LeadingChunks(results))
    decreases |results|
  {
    if |results| > 0 && results[0].Data? {
      ReadLoopMessagesAreReads(s, results[1..]);
      var c := results[0].chunk;
      var tail := LeadingChunks(results[1..]);
      assert LeadingChunks(results) == [c] + tail;
      assert ([c] + tail)[1..] == tail;
      assert NonEmpty([c] + tail) == (if |c| > 0 then [c] else []) + NonEmpty(tail);
    }
  }

  // ---------------------------------------------------------------------
  // The state invariant
  // ---------------------------------------------------------------------

  lemma InitialWellformed()
    ensures Wellformed(Initial) && Closed(Initial)
  {
  }
}
