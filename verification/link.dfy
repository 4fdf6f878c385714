/**
 * The persistent TCP link to the agent on the PC (`TCPClient`). Its state is
 * the `connected` flag and the reader/writer pair of the current stream.
 *
 * The network is an oracle. A connection attempt is refused, fails with
 * another `OSError`, or is accepted and yields a stream; each call to
 * `send_command` meets one `Exchange`: a reply, a read timeout, a connection
 * reset, an incomplete read, or any other error. Sleeps, logging and the lock
 * are not modelled; a send is one atomic step.
 */
module Link {
  import opened Wrappers

  /** The stream pair opened by one accepted connection attempt. */
  datatype Stream = Stream(id: nat)

  datatype ConnectAttempt = Refused | OsError | Accepted(stream: Stream)

  datatype Exchange =
    | Reply(text: string)   // what `reader.read(1024)` returned, decoded
    | ReadTimeout           // `asyncio.TimeoutError` from `wait_for`
    | ConnectionReset       // `ConnectionResetError`
    | IncompleteRead        // `asyncio.IncompleteReadError`
    | OtherError            // any other exception, e.g. a reply that is not UTF-8
  {
    /** The errors `send_command` catches. */
    predicate Recovered() {
      ReadTimeout? || ConnectionReset? || IncompleteRead?
    }
  }

  /** What a call of `send_command` ends with: a returned string or an exception passed on. */
  datatype SendResult = Returned(text: string) | Raised

  /** One command handed to the writer of a stream. */
  datatype Written = Written(stream: Stream, command: string)

  /** The string `send_command` returns when the exchange failed and the link was rebuilt. */
  const SendFailedText: string := "Не удалось отправить команду."

  /** The number of accepted attempts in `attempts`. */
  function CountAccepted(attempts: seq<ConnectAttempt>): nat {
    if attempts == [] then 0
    else (if attempts[0].Accepted? then 1 else 0) + CountAccepted(attempts[1..])
  }

  /**
   * The attempts `from .. to - 1` are what one run of `connect` consumes: all
   * fail except the last, which is accepted.
   */
  predicate RetriedUntilAccepted(attempts: seq<ConnectAttempt>, from: nat, to: nat) {
    from < to <= |attempts| && attempts[to - 1].Accepted?
    && forall i :: from <= i < to - 1 ==> !attempts[i].Accepted?
  }

  /** How many accepted attempts one `send_command` needs: one per run of `connect`. */
  function ConnectsNeeded(connected: bool, exchange: Exchange): nat {
    (if connected then 0 else 1) + (if exchange.Recovered() then 1 else 0)
  }

  /** The count of accepted attempts splits at any index `k`: those before `k` plus those from `k` on. */
  lemma {:induction false} CountAcceptedSplit(attempts: seq<ConnectAttempt>, k: nat)
    requires k <= |attempts|
    ensures CountAccepted(attempts) == CountAccepted(attempts[..k]) + CountAccepted(attempts[k..])
  {
    if k > 0 {
      CountAcceptedSplit(attempts[1..], k - 1);
      assert attempts[1..][..k - 1] == attempts[..k][1..];
      assert attempts[1..][k - 1..] == attempts[k..];
    } else {
      assert attempts[..0] == [] && attempts[0..] == attempts;
    }
  }

  /** No accepted attempt in a sequence means a count of zero. */
  lemma {:induction false} CountAcceptedNone(attempts: seq<ConnectAttempt>)
    requires forall i :: 0 <= i < |attempts| ==> !attempts[i].Accepted?
    ensures CountAccepted(attempts) == 0
  {
    if attempts != [] {
      CountAcceptedNone(attempts[1..]);
    }
  }

  /** One run of `connect` from the start of `attempts` meets exactly one accepted attempt. */
  lemma CountAcceptedOneRun(attempts: seq<ConnectAttempt>, to: nat)
    requires RetriedUntilAccepted(attempts, 0, to)
    ensures CountAccepted(attempts[..to]) == 1
  {
    var run := attempts[..to];
    CountAcceptedSplit(run, to - 1);
    CountAcceptedNone(run[..to - 1]);
    assert run[to - 1..] == [attempts[to - 1]];
  }

  /** What is left after one run of `connect` holds all but one of the accepted attempts. */
  lemma CountAcceptedAfterRun(attempts: seq<ConnectAttempt>, to: nat)
    requires to == 0 || RetriedUntilAccepted(attempts, 0, to)
    requires to <= |attempts|
    ensures CountAccepted(attempts[to..]) == CountAccepted(attempts) - (if to == 0 then 0 else 1)
  {
    CountAcceptedSplit(attempts, to);
    if to > 0 {
      CountAcceptedOneRun(attempts, to);
    }
  }

  /** A run of `connect` on the suffix from `from` is a run on `attempts` from `from`. */
  lemma RetriedShift(attempts: seq<ConnectAttempt>, from: nat, n: nat)
    requires from <= |attempts| && RetriedUntilAccepted(attempts[from..], 0, n)
    ensures RetriedUntilAccepted(attempts, from, from + n)
    ensures attempts[from..][n - 1] == attempts[from + n - 1]
  {
    var rest := attempts[from..];
    forall i | from <= i < from + n - 1 ensures !attempts[i].Accepted? {
      assert attempts[i] == rest[i - from];
    }
  }

  class TcpClient {
    const serverIp: string
    const serverPort: int
    var reader: Option<Stream>
    var writer: Option<Stream>
    var connected: bool
    /** Every command handed to a writer, in order. */
    ghost var written: seq<Written>

    ghost predicate Valid()
      reads this
    {
      reader == writer && (connected ==> reader.Some?)
    }

    /** `TCPClient(server_ip, server_port)`: no stream, not connected. */
    constructor (ip: string, port: int)
      ensures Valid()
      ensures serverIp == ip && serverPort == port
      ensures reader == None && writer == None && !connected && written == []
    {
      serverIp, serverPort := ip, port;
      reader, writer := None, None;
      connected := false;
      written := [];
    }

    /**
     * `connect`: try again until an attempt is accepted; return at once when
     * already connected. `used` is the number of attempts made.
     */
    method Connect(attempts: seq<ConnectAttempt>) returns (used: nat)
      requires Valid()
      requires connected || CountAccepted(attempts) > 0
      modifies this
      ensures Valid() && connected && written == old(written)
      ensures old(connected) ==> used == 0 && reader == old(reader) && writer == old(writer)
      ensures !old(connected) ==> RetriedUntilAccepted(attempts, 0, used)
                                  && reader == Some(attempts[used - 1].stream)
    {
      used := 0;
      while !connected
        invariant Valid() && written == old(written)
        invariant used <= |attempts|
        invariant old(connected) ==> connected && used == 0 && reader == old(reader) && writer == old(writer)
        invariant !connected ==> forall i :: 0 <= i < used ==> !attempts[i].Accepted?
        invariant !connected ==> CountAccepted(attempts[used..]) > 0
        invariant connected && !old(connected) ==> RetriedUntilAccepted(attempts, 0, used)
                                                   && reader == Some(attempts[used - 1].stream)
        decreases |attempts| - used
      {
        assert attempts[used..][1..] == attempts[used + 1..];
        if attempts[used].Accepted? {
          var s := attempts[used].stream;
          reader, writer := Some(s), Some(s);
          connected := true;
        } else {
          connected := false;
        }
        used := used + 1;
      }
    }

    /**
     * `send_command`: connect first when not connected, hand the command to the
     * writer, then act on the exchange. A reply is returned as it is; a timeout,
     * reset or incomplete read marks the link down, reconnects and returns
     * `SendFailedText`; any other error is passed on. On every path the link is
     * connected again when the call ends. `firstConnect` and `reconnect` count
     * the attempts each run of `connect` made.
     */
    method SendCommand(command: string, attempts: seq<ConnectAttempt>, exchange: Exchange)
      returns (r: SendResult, firstConnect: nat, reconnect: nat)
      requires Valid()
      requires CountAccepted(attempts) >= ConnectsNeeded(connected, exchange)
      modifies this
      ensures Valid() && connected
      ensures old(connected) ==> firstConnect == 0
      ensures !old(connected) ==> RetriedUntilAccepted(attempts, 0, firstConnect)
      ensures var used := if old(connected) then old(writer).value else attempts[firstConnect - 1].stream;
              written == old(written) + [Written(used, command)]
              && (!exchange.Recovered() ==> reconnect == 0 && writer == Some(used))
      ensures exchange.Reply? ==> r == Returned(exchange.text)
      ensures exchange.OtherError? ==> r == Raised
      ensures exchange.Recovered() ==>
                r == Returned(SendFailedText)
                && RetriedUntilAccepted(attempts, firstConnect, firstConnect + reconnect)
                && writer == Some(attempts[firstConnect + reconnect - 1].stream)
    {
      firstConnect, reconnect := 0, 0;
      if !connected {
        firstConnect := Connect(attempts);
      }
      var stream := writer.value;
      written := written + [Written(stream, command)];
      if exchange.Reply? {
        r := Returned(exchange.text);
      } else if exchange.OtherError? {
        r := Raised;
      } else {
        connected := false;
        var rest := attempts[firstConnect..];
        CountAcceptedAfterRun(attempts, firstConnect);
        reconnect := Connect(rest);
        RetriedShift(attempts, firstConnect, reconnect);
        r := Returned(SendFailedText);
      }
    }
  }
}
