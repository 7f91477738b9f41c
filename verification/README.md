# Chat client session, modelled in Dafny

This project models the `ChatClient` class of `pidi2.py`, the network half of a small chat client. The class does five things:

- It connects to the chat server and announces the user name "Guest" as an unframed handshake.
- It runs a receiver loop that shows every chunk the server sends.
- It sends text frames `"<user>: <text>"`.
- It sends a file as one attachment frame, `IMAGE@(<user>)@(<basename>)@(<base64>)\n`.
- It tears the session down.

The session state is modelled as a class, `Chat.ChatClient`:

- `sock` is the socket handle.
- `isConnected` is the flag of the same name.
- `notices` is the sequence of messages shown to the user.
- `receivers` counts the receiver threads started.

The socket is an abstract `Sockets.Socket`. It records every string written to it, plus whether it has been shut down and closed. Each call that the network could make fail takes the outcome as a parameter: success, connection refused, connection reset, or any other error. Notices are abstract events (`Chat.Notice`), one per kind of message the client shows.

The pure parts are functions, each with lemmas about it:

- **Base64 (module `Base64`).** The encoding of section 4 of RFC 4648. A strict decoder (section 3.5 of RFC 4648) is defined as its partner. The lemmas prove:
  - the decoder inverts the encoder, in both directions;
  - the output length is 4·⌈n/3⌉;
  - the output has the `=` padding shape.
- **Basename (module `Paths`).** The POSIX `os.path.basename`, characterised as the longest separator-free suffix.
- **Frames (module `Frames`).** The two outbound frames, each paired with a parser. The text parser is the exact inverse of the text frame. The attachment parser inverts every frame whose user and payload hold no ")"; a base64 payload never does, so every attachment sent by a user whose name has no ")" is read back, whatever characters its file name holds.

Three behaviours of the code are worth noting; the model follows them:

- A failed `sendall` of an attachment frame is reported but, unlike a failed text `send` (pidi2.py:79-81), does not close the session (pidi2.py:101-102).
- A generic read error in the receiver does not close the session (pidi2.py:46-49). Only a reset does (pidi2.py:42-45).
- A connect that fails after `socket()` succeeded leaves the new, unconnected socket in `sock` (pidi2.py:54, 62-67), so `sock` can be non-null while the client is disconnected.

## Model

| member | source | states |
|---|---|---|
| Chat.ChatClient.constructor | pidi2.py:22-28 | A new client starts disconnected with no socket and immediately attempts a connect; afterwards it is connected iff socket creation, connect and handshake all succeed, and the notices and receiver count are those of ConnectToServer; whenever a socket was created it is fresh and still open, and its trace is exactly the user name after a successful handshake and empty otherwise |
| Chat.ChatClient.ConnectToServer | pidi2.py:51-67 | On success the handshake wrote exactly the user name as the first and only string on a fresh open socket, the client is connected, one "connected as Guest" notice is added and exactly one receiver is started; on any failure the client is disconnected, no receiver is started and exactly one notice is added, "refused" if the first failing call was refused and the generic error otherwise; `sock` keeps its old value when socket creation itself failed |
| Chat.FirstFailure | pidi2.py:53-67 | The outcome of a `try` block is Ok iff every call succeeds, and otherwise it is the outcome of the first call that failed, all earlier ones having succeeded |
| Chat.FirstFailureOfThree | pidi2.py:54-56 | For the three calls of the connect block (socket, connect, send), the deciding outcome is the first failure among them in that order |
| Chat.ConnectFailureNotice | pidi2.py:62-67 | A failed connect shows exactly one of the two connect notices, and it is the "refused" one exactly when the deciding failure was a refused connection; every other error gets the generic one |
| Chat.ChatClient.ReceiveStep | pidi2.py:37-49 | One pass of the receive loop: a non-empty chunk is shown and the loop goes on; an empty read stops it with no notice and no state change; a reset adds the reset notice and closes the session (with the teardown's farewell when it was connected); any other error (including any read on a closed handle) adds a notice only while connected and stops without touching the socket; the trace is never changed |
| Chat.StepNotices | pidi2.py:38-49 | One pass shows at most two notices: a non-empty chunk is shown as it is (the same notice Delivered gives for it), an empty read shows nothing, a reset shows the reset notice first (followed by the teardown's farewell, if any), and a disconnected session shows at most one notice |
| Chat.ChatClient.ReceiveLoop | pidi2.py:34-49 | A connected session shows every chunk of the leading run of non-empty reads, then the notices of the read that ended the run, and consumes exactly that run plus the ending read; it ends disconnected iff that read was a reset, in which case the socket is torn down; a disconnected session reads nothing |
| Chat.DataRun | pidi2.py:36-41 | The number of passes that continue is the length of the longest prefix of non-empty chunks: all reads before it continue and the read at it does not |
| Chat.DeliveredChunks | pidi2.py:41 | Every chunk of a run of reads is shown as exactly one notice, in the order received, with the chunk unchanged (no reassembly or splitting) |
| Chat.DeliveredSnoc | pidi2.py:36-41 | Showing one more read appends that read's notice after the notices of the earlier reads |
| Chat.ChatClient.SendMessage | pidi2.py:69-81 | Not connected: only a "cannot send" notice, trace and socket unchanged; connected and the write succeeds: the trace gains exactly `"Guest: " + message` and the same string is echoed as a notice; write fails: trace unchanged, an error notice, then the session is closed and stays disconnected |
| Chat.ChatClient.SendImage | pidi2.py:83-102 | Guards in order, each with its own notice and no write: not connected, then empty or missing path; an unreadable file only adds an error notice; otherwise the trace gains exactly the attachment frame of the basename and base64 of the contents when the send succeeds (with an "image sent" notice naming the basename) and is unchanged with an error notice when it fails; the connected flag and the socket's shutdown/closed state never change |
| Chat.ChatClient.CloseConnection | pidi2.py:104-113 | Acts only on a connected session with a socket: clears the flag first, shuts the socket down and, only if that succeeded, closes it (the handle is released even when close raises), and adds the "disconnected" notice only if both succeed; failures are swallowed; otherwise it changes nothing, so a second call is a no-op; afterwards the session is always disconnected |
| Sockets.Socket.Send | pidi2.py:56 | A write succeeds iff the socket is neither shut down nor closed and the network accepts it; the trace gains exactly the data on success and is unchanged on failure |
| Sockets.Socket.Recv | pidi2.py:38 | A read on a closed handle always raises; otherwise the read yields what the network delivers |
| Sockets.Socket.Shutdown | pidi2.py:109 | Shutdown succeeds iff the handle is not closed and the network accepts it, and marks the socket shut down only then |
| Sockets.Socket.Close | pidi2.py:110 | Close reports success iff the network accepts it, and the handle is closed afterwards either way (a Python socket marks itself closed before the failing system call), leaving the trace unchanged |
| Frames.TextFrame | pidi2.py:76 | The text frame `user + ": " + text` sent and echoed for a message; its reader TextOf gets exactly the text back (partner lemma TextFrameRoundTrip) |
| Frames.TextOf | pidi2.py:76 | Part of the reader that is the partner of this frame, not code of the source: whatever it reads back, putting `user + ": "` in front gives the frame again |
| Frames.TextFrameRoundTrip | pidi2.py:76 | A string carries `text` from `user` (parsed back by stripping `user + ": "`) exactly when it equals `user + ": " + text` |
| Frames.TextFrameExample | pidi2.py:76 | The text frame of user "Guest" and message "hi" is "Guest: hi" |
| Frames.ImageFrame | pidi2.py:98 | The attachment frame `"IMAGE@(" + user + ")@(" + name + ")@(" + payload + ")\n"`; its reader ParseImageFrame gets the three fields back whenever the user and payload hold no ")" (partner lemma ImageFrameRoundTrip) |
| Frames.ParseImageFrame | pidi2.py:98 | Part of the reader that is the partner of this frame, not code of the source: the user and payload fields it returns never hold ")" |
| Frames.AttachmentFrame | pidi2.py:94-98 | The frame send_image builds from the user, the basename of the path and the base64 of the file's bytes; the reader gets exactly those three fields back whenever the user name holds no ")" (partner lemmas AttachmentRoundTrip and AttachmentInjective) |
| Frames.ImageFrameRoundTrip | pidi2.py:98 | A string parses as an attachment frame with given fields iff it is `"IMAGE@(" + user + ")@(" + name + ")@(" + payload + ")\n"` with no ")" in the user or payload fields; the name field may hold anything |
| Frames.AttachmentRoundTrip | pidi2.py:94-99 | From the frame built for any file, a reader recovers the sender, the file's basename (whatever characters it holds) and, after base64 decoding, the file's exact bytes, whenever the user name holds no ")" |
| Frames.AttachmentInjective | pidi2.py:94-99 | Two frames from the same user, whose name holds no ")", are equal only when the files have the same basename and the same contents |
| Frames.ParenthesisedNameExample | pidi2.py:97-98 | The frame for a file named "photo (1).png" reads back with that exact name |
| Frames.AttachmentExample | pidi2.py:94-99 | Sending "a/b/c.png" holding bytes 1, 2, 3 as "Guest" writes exactly `IMAGE@(Guest)@(c.png)@(AQID)\n` |
| Frames.IndexOf | pidi2.py:98 | Part of the reader that is the partner of this frame, not code of the source: the position of the first occurrence of a character, or the length when there is none: no earlier position holds it |
| Frames.LastIndexOf | pidi2.py:98 | Part of the reader that is the partner of this frame, not code of the source: the position of the last occurrence of a character, with none after it, or the length when there is none |
| Base64.Encode | pidi2.py:96 | The encoding of n bytes has length 4·⌈n/3⌉ |
| Base64.EncodeShape | pidi2.py:96 | Every character of an encoding is in the RFC 4648 alphabet except exactly the last (3 − n mod 3) mod 3, which are "=" |
| Base64.DecodeEncode | pidi2.py:96 | Decoding the encoding of any bytes gives back exactly those bytes |
| Base64.EncodeDecode | pidi2.py:96 | Any string the strict decoder accepts is the encoding of what it decodes to, so the encoding is canonical |
| Base64.EncodeInjective | pidi2.py:96 | Different file contents give different payloads |
| Base64.Decode | pidi2.py:96 | Part of the decoder that is the partner of this encoding, not code of the source: whatever it accepts has exactly the length of the encoding of what it decodes to |
| Base64.EncodeExample | pidi2.py:96 | The bytes 1, 2, 3 encode as "AQID" |
| Base64.CharOf | pidi2.py:96 | Every sextet maps to a character of the 64-character alphabet |
| Base64.ValueOf | pidi2.py:96 | Part of the decoder that is the partner of this encoding, not code of the source: reading an alphabet character back gives the sextet that maps to it |
| Base64.DecodeFinal | pidi2.py:96 | Part of the decoder that is the partner of this encoding, not code of the source: decoding the final quantum yields one to three bytes |
| Base64.FinalInverse | pidi2.py:96 | A final quantum the decoder accepts is the encoding of the bytes it decodes to |
| Paths.Basename | pidi2.py:97 | The basename is the last component of the path (IsLastComponent): a suffix that contains no "/" and is either the whole path or preceded by "/" |
| Paths.BasenameUnique | pidi2.py:97 | The last component is unique: any suffix of the path that is a last component is the basename |
| Paths.BasenameDropsDirectory | pidi2.py:97 | The basename of `dir + "/" + rest` is the basename of `rest`: directory components are stripped |
| Paths.BasenameOfName | pidi2.py:97 | A name without "/" is its own basename |
| Paths.BasenameExample | pidi2.py:97 | The basename of "a/b/c.png" is "c.png" |

## Left out

- The threads are not modelled. The receiver thread is not run concurrently; `receivers` counts its start. The `app.after(0, …)` hand-off to the UI thread is modelled as appending the notice directly.
- Chat.ChatClient.ReceiveLoop: chunk notices are deferred to the UI thread through `app.after(0, …)` (pidi2.py:41), while the reset and read-error notices are printed at once on the receiver thread (pidi2.py:43, 48). The program therefore does not guarantee that the notice of the read that ended the run comes after the chunk notices; the model fixes that one order, as it would be with the UI thread keeping up.
- The receiver is modelled as running until a pass stops it or its list of reads runs out. The real thread would block at that point. Reads that race with a concurrent close are represented only through the outcome parameters.
- Real sockets, the host and port, and `AF_INET`/`SOCK_STREAM` are replaced by the abstract socket with one outcome per call.
- The 1024-byte limit of one read is not modelled; a chunk is whatever the network delivers. A UTF-8 decoding error is one of the "other" read errors.
- Sockets.Socket.Send: a write is all-or-nothing. Partial writes of `send()` and a `sendall()` that fails after writing some bytes are not modelled.
- UTF-8 `.encode()`/`.decode()` are not modelled. Frames and chunks are strings of characters, and the file contents are bytes.
- The file read and `os.path.exists` are inputs. Chat.ChatClient.SendImage takes an existence flag and either the file's bytes or a read failure.
- The notice texts, the "SERVER"/"SYSTEM" prefix chosen by `add_message`, and the `print` of a teardown error are not modelled. Notices are abstract kinds carrying the user, chunk, frame or basename they mention.
- Chat.ChatClient.ConnectToServer: it is called only from the constructor, as in the source. It therefore requires a client that has started no receiver.
- A connect that starts the receiver and then raises in `add_message` or `Thread.start()` is not modelled.
- Paths.Basename: only the POSIX `os.path.basename` is modelled, which splits at "/" alone. On Windows `os.path` splits at "\\" as well and after a drive prefix such as "C:"; that variant is not modelled.
- `MainWindow` and every customtkinter widget and animation are UI and are not part of this model.
