/**
  The session half of the chat client: one connection to the chat server, the
  flag that says whether it is up, the notices shown to the user, and the
  receiver that reads from the server.

  Everything the network and the file system would decide arrives
  as a parameter (an outcome per call). Notices are kept as a sequence of
  abstract events in the order they are shown. The receiver thread is counted,
  not run: its loop body is the method ReceiveStep and a run of it over a
  given sequence of reads is ReceiveLoop.
*/
module Chat {
  import opened Sockets
  import Base64
  import Paths
  import Frames

  /** The name announced in the handshake and put in every frame. */
  const UserName: string := "Guest"

  /** The notices the client shows, one constructor per message it can emit. */
  datatype Notice =
    | ConnectedAs(user: string)
    | ConnectRefused
    | ConnectError
    | Incoming(text: string)
    | ResetByServer
    | ReceiveError
    | CannotSend
    | Echo(frame: string)
    | SendError
    | CannotSendImage
    | InvalidPath
    | ImageSent(name: string)
    | ImageError
    | Disconnected

  /** The result of reading a whole file: its bytes, or an I/O error. */
  datatype FileRead = Contents(bytes: seq<Base64.Byte>) | Unreadable

  /**
    The outcome of a block of calls inside one `try`: the first call that
    raises decides which handler runs, and the calls after it do not happen.
  */
  function FirstFailure(steps: seq<Outcome>): (r: Outcome)
    ensures r == Ok <==> forall i :: 0 <= i < |steps| ==> steps[i] == Ok
    ensures r != Ok ==> exists i :: 0 <= i < |steps| && steps[i] == r && forall j :: 0 <= j < i ==> steps[j] == Ok
  {
    if |steps| == 0 then Ok
    else if steps[0] != Ok then steps[0]
    else FirstFailure(steps[1..])
  }

  lemma FirstFailureOfThree(a: Outcome, b: Outcome, c: Outcome)
    ensures FirstFailure([a, b, c]) == if a != Ok then a else if b != Ok then b else c
  {
    assert [a, b, c][1..] == [b, c];
    assert [b, c][1..] == [c];
    assert [c][1..] == [];
    assert FirstFailure([c]) == c;
    assert FirstFailure([b, c]) == if b != Ok then b else c;
  }

  /** The notice of a connect attempt that failed with `failure`. */
  function ConnectFailureNotice(failure: Outcome): (n: Notice)
    ensures n == ConnectRefused || n == ConnectError
    ensures n == ConnectRefused <==> failure == Fails(Refused)
  {
    if failure == Fails(Refused) then ConnectRefused else ConnectError
  }

  /** The notice a successful teardown emits; a failing shutdown or close emits none. */
  function Farewell(shutdown: Outcome, close: Outcome): seq<Notice>
  {
    if shutdown == Ok && close == Ok then [Disconnected] else []
  }

  /**
    The state of an open socket after a teardown whose shutdown had the
    outcome `shutdown`: close runs only after a successful shutdown, and once
    it runs the handle is released whatever it reports.
  */
  ghost predicate TornDown(s: Socket, shutdown: Outcome)
    reads s
  {
    s.shutDown == (shutdown == Ok) && s.closed == (shutdown == Ok)
  }

  /** A read that lets the receive loop go on: a non-empty chunk of text. */
  predicate Continues(r: ReadOutcome)
  {
    r.Data? && r.chunk != []
  }

  /** The length of the longest prefix of `script` made of non-empty chunks. */
  function DataRun(script: seq<ReadOutcome>): (n: nat)
    ensures n <= |script|
    ensures forall i :: 0 <= i < n ==> Continues(script[i])
    ensures n < |script| ==> !Continues(script[n])
  {
    if |script| == 0 || !Continues(script[0]) then 0 else 1 + DataRun(script[1..])
  }

  /** The notices for the chunks in `script`, in order. */
  function Delivered(script: seq<ReadOutcome>): seq<Notice>
  {
    if |script| == 0 then []
    else (if script[0].Data? then [Incoming(script[0].chunk)] else []) + Delivered(script[1..])
  }

  /**
    The notices one pass of the receive loop shows for the read `r`, given
    whether the session was connected: the chunk itself; on a reset a notice
    and, when there was a session to take down, the farewell of the
    teardown; on any other error a notice only while connected.
  */
  function StepNotices(connected: bool, r: ReadOutcome, shutdown: Outcome, close: Outcome): (n: seq<Notice>)
    ensures |n| <= 2
    ensures Continues(r) ==> n == Delivered([r])
    ensures r.Data? && !Continues(r) ==> n == []
    ensures r == ReadFails(Reset) ==> |n| >= 1 && n[0] == ResetByServer
    ensures !connected ==> |n| <= 1
  {
    match r
    case Data(chunk) => if chunk == [] then [] else [Incoming(chunk)]
    case ReadFails(Reset) => [ResetByServer] + (if connected then Farewell(shutdown, close) else [])
    case ReadFails(_) => if connected then [ReceiveError] else []
  }

  class ChatClient {
    /** The socket of the last connect attempt that got one; null before. */
    var sock: Socket?
    /** Whether the session is up; it goes down once and never comes back. */
    var isConnected: bool
    /** What the user has been shown, oldest first. */
    var notices: seq<Notice>
    /** How many receiver threads have been started. */
    var receivers: nat

    /**
      At most one receiver runs, and only after a handshake that put the user
      name first on the wire; while connected the socket is open.
    */
    ghost predicate Valid()
      reads this, sock
    {
      && receivers <= 1
      && (receivers == 1 ==> sock != null && |sock.written| >= 1 && sock.written[0] == UserName)
      && (isConnected ==> receivers == 1 && sock.Writable())
    }

    /** A new client tries to connect straight away. */
    constructor (create: Outcome, connect: Outcome, handshake: Outcome)
      ensures Valid()
      ensures isConnected <==> create == Ok && connect == Ok && handshake == Ok
      ensures isConnected ==> sock.written == [UserName] && receivers == 1 && notices == [ConnectedAs(UserName)]
      ensures !isConnected ==> receivers == 0 && notices == [ConnectFailureNotice(FirstFailure([create, connect, handshake]))]
      ensures (sock == null) <==> create != Ok
      ensures sock != null ==> fresh(sock) && sock.Writable() && sock.written == (if isConnected then [UserName] else [])
    {
      sock := null;
      isConnected := false;
      notices := [];
      receivers := 0;
      new;
      ConnectToServer(create, connect, handshake);
    }

    /**
      Creates a socket, connects it and sends the user name as the handshake;
      then marks the session connected, says so and starts the one receiver.
      Any exception along the way is reported by one notice, chosen by the
      first call that raised, and leaves the session disconnected.
    */
    method ConnectToServer(create: Outcome, connect: Outcome, handshake: Outcome)
      requires Valid() && receivers == 0
      modifies this
      ensures Valid()
      ensures isConnected <==> create == Ok && connect == Ok && handshake == Ok
      ensures isConnected ==> receivers == 1 && notices == old(notices) + [ConnectedAs(UserName)]
      ensures !isConnected ==>
        receivers == 0 && notices == old(notices) + [ConnectFailureNotice(FirstFailure([create, connect, handshake]))]
      ensures create != Ok ==> sock == old(sock)
      ensures create == Ok ==>
        && fresh(sock) && sock.Writable()
        && sock.written == if connect == Ok && handshake == Ok then [UserName] else []
    {
      var failure: Outcome;
      if create == Ok {
        var s := new Socket();
        sock := s;
        if connect == Ok {
          var sent := s.Send(UserName, handshake);
          if sent {
            isConnected := true;
            notices := notices + [ConnectedAs(UserName)];
            receivers := receivers + 1;
            return;
          }
          failure := handshake;
        } else {
          failure := connect;
        }
      } else {
        failure := create;
      }
      FirstFailureOfThree(create, connect, handshake);
      notices := notices + [ConnectFailureNotice(failure)];
      isConnected := false;
    }

    /**
      One pass of the receive loop's body: read a chunk and show it (go on), or
      stop: quietly on an empty read, with a notice and a close on a reset, and
      on any other error with a notice only if the session is still connected.
      Only a reset of a connected session takes it down.
    */
    method ReceiveStep(read: ReadOutcome, shutdown: Outcome, close: Outcome) returns (again: bool)
      requires Valid() && sock != null
      modifies this, sock
      ensures Valid() && sock == old(sock) && receivers == old(receivers) && sock.written == old(sock.written)
      ensures var r := if old(sock.closed) then ReadFails(Other) else read;
        && again == Continues(r)
        && notices == old(notices) + StepNotices(old(isConnected), r, shutdown, close)
        && isConnected == (old(isConnected) && r != ReadFails(Reset))
        && (old(isConnected) && r == ReadFails(Reset) ==> TornDown(sock, shutdown))
        && (!(old(isConnected) && r == ReadFails(Reset)) ==> unchanged(sock))
    {
      var r := sock.Recv(read);
      match r
      case Data(chunk) =>
        if chunk == [] {
          return false;
        }
        notices := notices + [Incoming(chunk)];
        again := true;
      case ReadFails(Reset) =>
        notices := notices + [ResetByServer];
        CloseConnection(shutdown, close);
        again := false;
      case ReadFails(_) =>
        if isConnected {
          notices := notices + [ReceiveError];
        }
        again := false;
    }

    /**
      The receiver thread: `while connected` it runs ReceiveStep on the next
      read until a step stops it, or until `script` runs out (where the real
      thread would block). A connected session shows every chunk of the
      leading run of non-empty chunks, then the notices of the read that ended
      the run; only a reset takes the session down.
    */
    method ReceiveLoop(script: seq<ReadOutcome>, shutdown: Outcome, close: Outcome) returns (used: nat)
      requires Valid() && sock != null
      modifies this, sock
      ensures Valid() && sock == old(sock) && receivers == old(receivers) && sock.written == old(sock.written)
      ensures !old(isConnected) ==> used == 0 && unchanged(this) && unchanged(sock)
      ensures old(isConnected) ==>
        var n := DataRun(script);
        var reset := n < |script| && script[n] == ReadFails(Reset);
        && used == (if n < |script| then n + 1 else n)
        && notices == old(notices) + Delivered(script[..n]) + (if n < |script| then StepNotices(true, script[n], shutdown, close) else [])
        && isConnected == !reset
        && (reset ==> TornDown(sock, shutdown))
        && (!reset ==> unchanged(sock))
    {
      ghost var n := DataRun(script);
      used := 0;
      var again := true;
      while isConnected && again && used < |script|
        invariant Valid() && sock == old(sock) && receivers == old(receivers) && sock.written == old(sock.written)
        invariant used <= |script|
        invariant !old(isConnected) ==> used == 0 && unchanged(this) && unchanged(sock)
        invariant old(isConnected) && again ==>
          used <= n && isConnected && unchanged(sock) && notices == old(notices) + Delivered(script[..used])
        invariant old(isConnected) && !again ==> used == n + 1 && n < |script|
        invariant old(isConnected) && !again ==>
          var reset := script[n] == ReadFails(Reset);
          && notices == old(notices) + Delivered(script[..n]) + StepNotices(true, script[n], shutdown, close)
          && isConnected == !reset
          && (reset ==> TornDown(sock, shutdown))
          && (!reset ==> unchanged(sock))
        decreases |script| - used
      {
        again := ReceiveStep(script[used], shutdown, close);
        if again {
          DeliveredSnoc(script[..used], script[used]);
          assert script[..used + 1] == script[..used] + [script[used]];
        }
        used := used + 1;
      }
    }

    /**
      Sends "<user>: <message>" and echoes it to the user. Without a
      connection it only says it cannot send; a failed write reports the error
      and closes the session.
    */
    method SendMessage(message: string, send: Outcome, shutdown: Outcome, close: Outcome)
      requires Valid()
      modifies this, sock
      ensures Valid() && sock == old(sock) && receivers == old(receivers)
      ensures !old(isConnected) ==>
        !isConnected && notices == old(notices) + [CannotSend] && (sock != null ==> unchanged(sock))
      ensures old(isConnected) && send == Ok ==>
        var frame := Frames.TextFrame(UserName, message);
        && isConnected && sock.Writable()
        && sock.written == old(sock.written) + [frame]
        && notices == old(notices) + [Echo(frame)]
      ensures old(isConnected) && send != Ok ==>
        && !isConnected && sock.written == old(sock.written)
        && TornDown(sock, shutdown)
        && notices == old(notices) + [SendError] + Farewell(shutdown, close)
    {
      if !isConnected {
        notices := notices + [CannotSend];
        return;
      }
      var frame := Frames.TextFrame(UserName, message);
      var sent := sock.Send(frame, send);
      if sent {
        notices := notices + [Echo(frame)];
      } else {
        notices := notices + [SendError];
        CloseConnection(shutdown, close);
      }
    }

    /**
      Sends the file at `path` as an attachment frame. The guards run in
      order: not connected, then an empty or missing path; each stops with its
      own notice and writes nothing. A failure to read the file or to send the
      frame is reported but leaves the session as it was.
    */
    method SendImage(path: string, onDisk: bool, file: FileRead, send: Outcome)
      requires Valid()
      modifies this, sock
      ensures Valid() && sock == old(sock) && receivers == old(receivers) && isConnected == old(isConnected)
      ensures sock != null ==> sock.shutDown == old(sock.shutDown) && sock.closed == old(sock.closed)
      ensures !old(isConnected) ==> notices == old(notices) + [CannotSendImage] && (sock != null ==> unchanged(sock))
      ensures old(isConnected) && (path == [] || !onDisk) ==> notices == old(notices) + [InvalidPath] && unchanged(sock)
      ensures old(isConnected) && path != [] && onDisk && file.Unreadable? ==>
        notices == old(notices) + [ImageError] && unchanged(sock)
      ensures old(isConnected) && path != [] && onDisk && file.Contents? ==>
        var frame := Frames.AttachmentFrame(UserName, path, file.bytes);
        && sock.written == (if send == Ok then old(sock.written) + [frame] else old(sock.written))
        && notices == old(notices) + (if send == Ok then [ImageSent(Paths.Basename(path))] else [ImageError])
    {
      if !isConnected {
        notices := notices + [CannotSendImage];
        return;
      }
      if path == [] || !onDisk {
        notices := notices + [InvalidPath];
        return;
      }
      match file
      case Unreadable =>
        notices := notices + [ImageError];
      case Contents(raw) =>
        var payload := Base64.Encode(raw);
        var shortName := Paths.Basename(path);
        var frame := Frames.ImageFrame(Frames.Attachment(UserName, shortName, payload));
        var sent := sock.Send(frame, send);
        if sent {
          notices := notices + [ImageSent(shortName)];
        } else {
          notices := notices + [ImageError];
        }
    }

    /**
      Takes the session down if it is up: clears the flag first, then shuts
      the socket down and closes it, and says so when both succeed. A failure
      of either is swallowed. A session that is not up is left untouched, so
      a second call does nothing.
    */
    method CloseConnection(shutdown: Outcome, close: Outcome)
      requires Valid()
      modifies this, sock
      ensures Valid() && !isConnected && sock == old(sock) && receivers == old(receivers)
      ensures !old(isConnected) ==> unchanged(this) && (sock != null ==> unchanged(sock))
      ensures old(isConnected) ==>
        && sock.written == old(sock.written)
        && TornDown(sock, shutdown)
        && notices == old(notices) + Farewell(shutdown, close)
    {
      if isConnected && sock != null {
        isConnected := false;
        var down := sock.Shutdown(shutdown);
        if down {
          var closed := sock.Close(close);
          if closed {
            notices := notices + [Disconnected];
          }
        }
      }
    }
  }

  lemma {:induction false} DeliveredSnoc(script: seq<ReadOutcome>, r: ReadOutcome)
    ensures Delivered(script + [r]) == Delivered(script) + (if r.Data? then [Incoming(r.chunk)] else [])
    decreases |script|
  {
    if |script| > 0 {
      assert (script + [r])[1..] == script[1..] + [r];
      DeliveredSnoc(script[1..], r);
    }
  }

  /** Every chunk of a run of reads is shown, one notice per chunk, in the order it arrived. */
  lemma {:induction false} DeliveredChunks(script: seq<ReadOutcome>)
    requires forall i :: 0 <= i < |script| ==> script[i].Data?
    ensures |Delivered(script)| == |script|
    ensures forall i :: 0 <= i < |script| ==> Delivered(script)[i] == Incoming(script[i].chunk)
    decreases |script|
  {
    if |script| > 0 {
      DeliveredChunks(script[1..]);
      assert Delivered(script) == [Incoming(script[0].chunk)] + Delivered(script[1..]);
    }
  }
}
