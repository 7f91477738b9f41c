/**
  An abstract stream socket. The network is not modelled: every call that can
  fail takes the outcome the network produced as a parameter, and the socket
  records, in order, every string it wrote successfully.
*/
module Sockets {

  /** The exception kinds the client tells apart. */
  datatype Fault = Refused | Reset | Other

  /** The outcome the network gives to one call: success, or the exception it raises. */
  datatype Outcome = Ok | Fails(fault: Fault)

  /** The outcome of one read: a chunk of text (empty when the peer closed), or an exception. */
  datatype ReadOutcome = Data(chunk: string) | ReadFails(fault: Fault)

  class Socket {
    /** Every string written to the connection, oldest first. */
    var written: seq<string>
    /** Set once a shutdown of both directions succeeded. */
    var shutDown: bool
    /** Set once the handle has been closed. */
    var closed: bool

    constructor ()
      ensures written == [] && !shutDown && !closed
    {
      written, shutDown, closed := [], false, false;
    }

    /** True while a write can still reach the peer. */
    predicate Writable()
      reads this
    {
      !shutDown && !closed
    }

    /**
      Writes all of `data`. A write on a socket that was shut down or closed
      always fails; otherwise it succeeds exactly when the network says so.
      A failed write leaves the trace as it was.
    */
    method Send(data: string, outcome: Outcome) returns (ok: bool)
      modifies this
      ensures ok <==> old(Writable()) && outcome == Ok
      ensures written == if ok then old(written) + [data] else old(written)
      ensures shutDown == old(shutDown) && closed == old(closed)
    {
      ok := Writable() && outcome == Ok;
      if ok {
        written := written + [data];
      }
    }

    /** Reads one chunk. A read on a closed handle always raises. */
    method Recv(outcome: ReadOutcome) returns (r: ReadOutcome)
      ensures r == if closed then ReadFails(Other) else outcome
    {
      r := if closed then ReadFails(Other) else outcome;
    }

    /** Shuts both directions down; fails on a closed handle. */
    method Shutdown(outcome: Outcome) returns (ok: bool)
      modifies this
      ensures ok <==> !old(closed) && outcome == Ok
      ensures shutDown == (old(shutDown) || ok)
      ensures written == old(written) && closed == old(closed)
    {
      ok := !closed && outcome == Ok;
      if ok {
        shutDown := true;
      }
    }

    /**
      Releases the handle. The handle is released even when the call
      reports an error: the socket object marks itself closed and drops its
      descriptor before the system call that can fail.
    */
    method Close(outcome: Outcome) returns (ok: bool)
      modifies this
      ensures ok <==> outcome == Ok
      ensures closed
      ensures written == old(written) && shutDown == old(shutDown)
    {
      ok := outcome == Ok;
      closed := true;
    }
  }
}
