/**
 * The client session (class Csmcrc): login handshake, command exchange and
 * disconnection over one connection.
 *
 * The socket is not modelled. Whether the TCP connection opens, and what the
 * one write and the one read of a request do, are inputs: an Exchange says
 * that the write failed, that the read failed, or which bytes the single read
 * delivered. The random request id is an input too. Every packet the client
 * writes is recorded in `sent`, the outgoing side of the stream.
 */
module Session {
  import opened Bytes
  import opened Errors
  import opened PacketAssembler
  import opened PacketDisassembler

  /** Size of the scratch buffer every read goes into. */
  const BufferSize: nat := 8192
  /** Random.Next(MaxId) draws the request id from [0, MaxId). */
  const MaxId: int := 0x7FFF_FFFF

  datatype Option<T> = None | Some(value: T)

  /** What the transport does during one request: the write fails, the read
      fails, or the single read delivers these bytes. */
  datatype Exchange = WriteFails | ReadFails | Delivers(bytes: seq<byte>)

  /** The fields of a Csmcrc object (chost is None while it is still null),
      and the packets written to the connection so far, oldest first. */
  datatype SessionState = SessionState(
    chost: Option<string>,
    cport: int32,
    loggedIn: bool,
    requestId: int32,
    dataBuffer: Option<seq<byte>>,
    sent: seq<seq<byte>>)

  /** A newly constructed client: every field at its C# default. */
  const Initial: SessionState := SessionState(None, 0, false, 0, None, [])

  /** The scratch buffer after one read of `bytes` into a zeroed buffer: the
      read fills at most BufferSize bytes and leaves the rest zero. */
  function Received(bytes: seq<byte>): (buffer: seq<byte>)
    ensures |buffer| == BufferSize
    ensures forall k :: 0 <= k < BufferSize ==> buffer[k] == if k < |bytes| then bytes[k] else 0
  {
    if |bytes| >= BufferSize then bytes[..BufferSize] else bytes + Zeros(BufferSize - |bytes|)
  }

  /** The request-id field of a full scratch buffer; selector 1 never fails on it. */
  function ResponseId(buffer: seq<byte>): (id: seq<byte>)
    requires |buffer| == BufferSize
    ensures Disassemble(buffer, PacketSRequestId) == Success(id)
    ensures id == buffer[4..8]
  {
    HeaderField(buffer, PacketSRequestId);
    Disassemble(buffer, PacketSRequestId).value
  }

  /** Csmcrc.init: the new state and the result (true when logged in). */
  function InitStep(s: SessionState, host: string, port: int32, password: string,
                    id: int32, opens: bool, ex: Exchange): (r: (SessionState, Result<bool>))
    ensures s.loggedIn ==> r == (s, Failure(UnableToConnect(AlreadyConnected)))
    ensures r.0.loggedIn <==> s.loggedIn || r.1 == Success(true)
    ensures r.1 != Success(true) ==> r.0.chost == s.chost && r.0.cport == s.cport
    ensures r.1 == Success(true) ==> r.0.chost == Some(host) && r.0.cport == port
    ensures r.0.requestId == if !s.loggedIn && opens then id else s.requestId
    ensures r.1.Failure? ==> r.1.error.UnableToConnect? || r.1.error.InvalidPayload?
    ensures r.1.Success? ==> opens && ex.Delivers? && r.0.dataBuffer == Some(Zeros(BufferSize))
  {
    if s.loggedIn then (s, Failure(UnableToConnect(AlreadyConnected)))
    else if !opens then (s, Failure(UnableToConnect(SocketError)))
    else
      var withId := s.(requestId := id);
      match Assemble(id, TypeLogin, password)
      case Failure(e) => (withId, Failure(e))
      case Success(loginPacket) => LoginStep(withId, host, port, loginPacket, ex)
  }

  /** The second half of Csmcrc.init, once the login packet is assembled: write
      it, read the reply, and log in when the reply echoes s.requestId. */
  function LoginStep(s: SessionState, host: string, port: int32, loginPacket: seq<byte>,
                     ex: Exchange): (r: (SessionState, Result<bool>))
    ensures r.1.Success? <==> ex.Delivers?
    ensures r.1.Failure? ==> r.1.error == UnableToConnect(SocketError)
    ensures r.0.sent == if ex.WriteFails? then s.sent else s.sent + [loginPacket]
    ensures r.0.loggedIn <==> s.loggedIn || r.1 == Success(true)
    ensures r.0.requestId == s.requestId
    ensures r.1 == Success(true) <==> ex.Delivers? && Received(ex.bytes)[4..8] == Le32(s.requestId)
    ensures r.1 == Success(true) ==> r.0.chost == Some(host) && r.0.cport == port
    ensures r.1 != Success(true) ==> r.0.chost == s.chost && r.0.cport == s.cport
  {
    match ex
    case WriteFails => (s, Failure(UnableToConnect(SocketError)))
    case ReadFails =>
      (s.(sent := s.sent + [loginPacket], dataBuffer := Some(Zeros(BufferSize))),
       Failure(UnableToConnect(SocketError)))
    case Delivers(bytes) =>
      var cleared := s.(sent := s.sent + [loginPacket], dataBuffer := Some(Zeros(BufferSize)));
      if ResponseId(Received(bytes)) == Le32(s.requestId) then
        (cleared.(chost := Some(host), cport := port, loggedIn := true), Success(true))
      else
        (cleared, Success(false))
  }

  /** Csmcrc.send: the new state and the response text. */
  function SendStep(s: SessionState, payload: string, ex: Exchange): (r: (SessionState, Result<string>))
    ensures !s.loggedIn ==> r == (s, Failure(NotConnected))
    ensures r.0.loggedIn == s.loggedIn && r.0.requestId == s.requestId
    ensures r.0.chost == s.chost && r.0.cport == s.cport
    ensures r.1.Failure? ==> r.1.error in {NotConnected, InvalidPayload(NotAscii), InvalidPayload(TooLong),
                                           UnableToConnect(SocketError), InvalidPacket}
    ensures r.1.Success? ==> s.loggedIn && ex.Delivers? && r.0.dataBuffer == Some(Zeros(BufferSize))
    ensures r.1.Success? ==> |r.1.value| <= BufferSize - 12
    ensures |s.sent| <= |r.0.sent| <= |s.sent| + 1 && r.0.sent[..|s.sent|] == s.sent
  {
    if !s.loggedIn then (s, Failure(NotConnected))
    else
      match Assemble(s.requestId, TypeCommand, payload)
      case Failure(e) => (s, Failure(e))
      case Success(requestPacket) =>
        match ex
        case WriteFails => (s, Failure(UnableToConnect(SocketError)))
        case ReadFails =>
          (s.(sent := s.sent + [requestPacket], dataBuffer := Some(Zeros(BufferSize))),
           Failure(UnableToConnect(SocketError)))
        case Delivers(bytes) =>
          var buffer := Received(bytes);
          var written := s.(sent := s.sent + [requestPacket]);
          match Disassemble(buffer, PacketSPayload)
          case Failure(e) => (written.(dataBuffer := Some(buffer)), Failure(e))
          case Success(response) =>
            (written.(dataBuffer := Some(Zeros(BufferSize))), Success(AsciiText(response)))
  }

  /** Csmcrc.disconnect: the new state, and NotConnected when not logged in. */
  function DisconnectStep(s: SessionState): (r: (SessionState, Result<()>))
    ensures r.1.Success? <==> s.loggedIn
    ensures !s.loggedIn ==> r == (s, Failure(NotConnected))
    ensures !r.0.loggedIn && r.0.requestId == s.requestId && r.0.sent == s.sent
    ensures s.loggedIn ==> r.0.chost == Some("") && r.0.cport == 0 && r.0.dataBuffer == Some(Zeros(BufferSize))
  {
    if !s.loggedIn then (s, Failure(NotConnected))
    else (s.(chost := Some(""), cport := 0, loggedIn := false, dataBuffer := Some(Zeros(BufferSize))), Success(()))
  }

  /** The state after a series of send calls. */
  function SendAll(s: SessionState, commands: seq<(string, Exchange)>): (t: SessionState)
    decreases |commands|
  {
    if commands == [] then s
    else SendAll(SendStep(s, commands[0].0, commands[0].1).0, commands[1..])
  }

  // ---------------------------------------------------------------------
  // Properties of the session
  // ---------------------------------------------------------------------

  /** init on a client that is logged in refuses and changes nothing. */
  lemma InitWhileConnected(s: SessionState, host: string, port: int32, password: string,
                           id: int32, opens: bool, ex: Exchange)
    requires s.loggedIn
    ensures InitStep(s, host, port, password, id, opens, ex) == (s, Failure(UnableToConnect(AlreadyConnected)))
  {
  }

  /** Once the login packet is written and a reply is read, init answers
      whether bytes 4..7 of the reply are the little-endian request id, logs in
      exactly then, and records host and port only then. */
  lemma LoginAcceptedIffIdEchoed(s: SessionState, host: string, port: int32, password: string,
                                 id: int32, bytes: seq<byte>)
    requires !s.loggedIn && Assemble(id, TypeLogin, password).Success?
    ensures var (t, r) := InitStep(s, host, port, password, id, true, Delivers(bytes));
      && r == Success(Received(bytes)[4..8] == Le32(id))
      && t.loggedIn == r.value
      && t.requestId == id
      && t.sent == s.sent + [Assemble(id, TypeLogin, password).value]
      && t.dataBuffer == Some(Zeros(BufferSize))
      && (r.value ==> t.chost == Some(host) && t.cport == port)
      && (!r.value ==> t.chost == s.chost && t.cport == s.cport)
  {
  }

  /** A server that refuses the password answers with request id -1; since
      the client's id is never negative, such a reply is never a login. */
  lemma RefusalIsNotLogin(s: SessionState, host: string, port: int32, password: string,
                          id: int32, bytes: seq<byte>)
    requires !s.loggedIn && Assemble(id, TypeLogin, password).Success?
    requires 0 <= id && |bytes| >= 8 && bytes[4..8] == Le32(-1)
    ensures InitStep(s, host, port, password, id, true, Delivers(bytes)).1 == Success(false)
    ensures !InitStep(s, host, port, password, id, true, Delivers(bytes)).0.loggedIn
  {
    assert Received(bytes)[4..8] == bytes[4..8];
    Le32Injective(-1, id);
  }

  /** A reply assembled with the client's own request id (any type, any
      payload) logs the client in at host and port. */
  lemma EchoedIdIsLogin(s: SessionState, host: string, port: int32, password: string,
                        id: int32, replyType: int32, text: string, reply: seq<byte>)
    requires !s.loggedIn && Assemble(id, TypeLogin, password).Success?
    requires Assemble(id, replyType, text) == Success(reply)
    ensures var (t, r) := InitStep(s, host, port, password, id, true, Delivers(reply));
      r == Success(true) && t.loggedIn && t.chost == Some(host) && t.cport == port
  {
    AssembleLayout(id, replyType, text, reply);
    assert Received(reply)[4..8] == reply[4..8];
  }

  /** A login the server did not confirm leaves the client disconnected, so a
      later init is not refused as already connected. */
  lemma RetryAfterRejectedLogin(s: SessionState, host: string, port: int32, password: string,
                                id: int32, opens: bool, ex: Exchange,
                                host2: string, port2: int32, password2: string,
                                id2: int32, opens2: bool, ex2: Exchange)
    requires InitStep(s, host, port, password, id, opens, ex).1 == Success(false)
    ensures var t := InitStep(s, host, port, password, id, opens, ex).0;
      !t.loggedIn && InitStep(t, host2, port2, password2, id2, opens2, ex2).1 != Failure(UnableToConnect(AlreadyConnected))
  {
    var t := InitStep(s, host, port, password, id, opens, ex).0;
    assert !s.loggedIn && opens;
    match Assemble(id2, TypeLogin, password2)
    case Failure(e) =>
      assert e.InvalidPayload?;
    case Success(_) =>
  }

  /** send on a client that is not logged in refuses and changes nothing. */
  lemma SendWhileDisconnected(s: SessionState, payload: string, ex: Exchange)
    requires !s.loggedIn
    ensures SendStep(s, payload, ex) == (s, Failure(NotConnected))
  {
  }

  /** disconnect forgets the server and logs out; what it leaves behind refuses
      a second disconnect and every send. The request id and the written
      packets are kept. */
  lemma DisconnectLogsOut(s: SessionState, payload: string, ex: Exchange)
    requires s.loggedIn
    ensures var (t, r) := DisconnectStep(s);
      && r == Success(())
      && !t.loggedIn && t.chost == Some("") && t.cport == 0
      && t.requestId == s.requestId && t.sent == s.sent
      && DisconnectStep(t) == (t, Failure(NotConnected))
      && SendStep(t, payload, ex) == (t, Failure(NotConnected))
  {
  }

  /** Every call that returns normally leaves a zeroed scratch buffer; a send
      whose reply cannot be disassembled leaves the reply in it. */
  lemma ScratchBufferAfterCall(s: SessionState, host: string, port: int32, password: string,
                               id: int32, opens: bool, payload: string, ex: Exchange)
    ensures InitStep(s, host, port, password, id, opens, ex).1.Success? ==>
      InitStep(s, host, port, password, id, opens, ex).0.dataBuffer == Some(Zeros(BufferSize))
    ensures SendStep(s, payload, ex).1.Success? ==>
      SendStep(s, payload, ex).0.dataBuffer == Some(Zeros(BufferSize))
    ensures DisconnectStep(s).1.Success? ==> DisconnectStep(s).0.dataBuffer == Some(Zeros(BufferSize))
    ensures SendStep(s, payload, ex).1 == Failure(InvalidPacket) ==>
      ex.Delivers? && SendStep(s, payload, ex).0.dataBuffer == Some(Received(ex.bytes))
  {
    if InitStep(s, host, port, password, id, opens, ex).1.Success? {
      assert !s.loggedIn && opens && ex.Delivers?;
    }
  }

  /** A command reply assembled around 7-bit text (whatever its request id and
      type: send does not look at them) comes back from send as that text
      followed by the two NUL padding characters. */
  lemma SendReturnsReplyText(s: SessionState, payload: string, replyId: int32, replyType: int32,
                             text: string, reply: seq<byte>)
    requires s.loggedIn && Assemble(s.requestId, TypeCommand, payload).Success?
    requires Assemble(replyId, replyType, text) == Success(reply)
    requires forall i :: 0 <= i < |text| ==> text[i] as int < 0x80
    ensures SendStep(s, payload, Delivers(reply)) ==
      (s.(sent := s.sent + [Assemble(s.requestId, TypeCommand, payload).value], dataBuffer := Some(Zeros(BufferSize))),
       Success(text + ['\0', '\0']))
  {
    var buffer := Received(reply);
    assert buffer == reply + Zeros(BufferSize - |reply|);
    PayloadRoundTrip(replyId, replyType, text, reply);
    DisassembleIgnoresTail(reply, Zeros(BufferSize - |reply|), PacketSPayload);
    var padded := text + ['\0', '\0'];
    assert AsciiBytes(padded) == AsciiBytes(text) + [0, 0];
    AsciiTextOfBytes(padded);
  }

  /** A well-formed command packet carrying this request id. */
  predicate CommandPacket(p: seq<byte>, requestId: int32)
  {
    14 <= |p| && p[4..8] == Le32(requestId) && p[8..12] == Le32(TypeCommand)
  }

  /** t continues the session s by sends: the id, the login flag and the server
      are those of s, the packets s had written are still in place, and every
      packet written since is a command carrying the id of s. */
  predicate Continues(t: SessionState, s: SessionState)
  {
    && t.requestId == s.requestId && t.loggedIn == s.loggedIn
    && t.chost == s.chost && t.cport == s.cport
    && |s.sent| <= |t.sent| && t.sent[..|s.sent|] == s.sent
    && forall i :: |s.sent| <= i < |t.sent| ==> CommandPacket(t.sent[i], s.requestId)
  }

  /** One send continues the session: at most one packet is written, and it
      is a command with the session's request id. */
  lemma SendStepKeeps(s: SessionState, payload: string, ex: Exchange)
    ensures Continues(SendStep(s, payload, ex).0, s)
  {
    if s.loggedIn {
      match Assemble(s.requestId, TypeCommand, payload)
      case Failure(_) =>
      case Success(packet) =>
        AssembleLayout(s.requestId, TypeCommand, payload, packet);
    }
  }

  /** Continuing a continuation continues the original session. */
  lemma ContinuesTransitive(s: SessionState, u: SessionState, t: SessionState)
    requires Continues(u, s) && Continues(t, u)
    ensures Continues(t, s)
  {
    assert t.sent[..|s.sent|] == t.sent[..|u.sent|][..|s.sent|];
  }

  /** Over any series of send calls the request id chosen at login is reused:
      the id, the login flag and the server stay as they were, the packets
      written before stay in place, and every packet written since is a command
      carrying that id. */
  lemma {:induction false} SendsReuseRequestId(s: SessionState, commands: seq<(string, Exchange)>)
    ensures Continues(SendAll(s, commands), s)
    decreases |commands|
  {
    if commands == [] {
      assert s.sent[..|s.sent|] == s.sent;
    } else {
      var u := SendStep(s, commands[0].0, commands[0].1).0;
      SendStepKeeps(s, commands[0].0, commands[0].1);
      SendsReuseRequestId(u, commands[1..]);
      ContinuesTransitive(s, u, SendAll(u, commands[1..]));
    }
  }

  /** NetworkStream.Read(buffer, 0, buffer.Length) when it delivers `bytes`:
      the first min(|bytes|, buffer.Length) bytes are overwritten. The count it
      returns is not used by the client, so it is not returned here. */
  method Read(buffer: array<byte>, bytes: seq<byte>)
    modifies buffer
    ensures forall k :: 0 <= k < buffer.Length ==> buffer[k] == if k < |bytes| then bytes[k] else old(buffer[k])
  {
    var n := if buffer.Length < |bytes| then buffer.Length else |bytes|;
    for i := 0 to n
      invariant forall k :: 0 <= k < buffer.Length ==> buffer[k] == if k < i then bytes[k] else old(buffer[k])
    {
      buffer[i] := bytes[i];
    }
  }

  /** `new byte[8192]`: a fresh, zeroed scratch buffer. */
  method NewBuffer() returns (buffer: array<byte>)
    ensures fresh(buffer) && buffer[..] == Zeros(BufferSize)
  {
    buffer := new byte[BufferSize](_ => 0);
  }

  /** One read into a fresh scratch buffer. */
  method Receive(buffer: array<byte>, bytes: seq<byte>)
    requires buffer[..] == Zeros(BufferSize)
    modifies buffer
    ensures buffer[..] == Received(bytes)
  {
    Read(buffer, bytes);
  }

  /** The login check: the four bytes of the response's request-id field are
      compared one by one with BitConverter.GetBytes(requestId). */
  method SameId(responseId: array<byte>, requestId: int32) returns (same: bool)
    requires responseId.Length == 4
    ensures same <==> responseId[..] == Le32(requestId)
  {
    var bRequestId := GetBytes(requestId);
    same := responseId[0] == bRequestId[0] && responseId[1] == bRequestId[1]
      && responseId[2] == bRequestId[2] && responseId[3] == bRequestId[3];
    assert same ==> responseId[..] == bRequestId[..];
  }

  /** The read and the check of the login reply: the reply goes into the
      scratch buffer, and its request-id field, extracted with selector 1, is
      compared byte by byte with BitConverter.GetBytes(requestId). */
  method CheckLogin(buffer: array<byte>, bytes: seq<byte>, requestId: int32) returns (same: bool)
    requires buffer[..] == Zeros(BufferSize)
    modifies buffer
    ensures buffer[..] == Received(bytes)
    ensures same <==> Received(bytes)[4..8] == Le32(requestId)
  {
    Receive(buffer, bytes);
    var responseId := DisassemblePacket(buffer, PacketSRequestId);
    assert responseId.Success? && responseId.value[..] == buffer[..][4..8];
    same := SameId(responseId.value, requestId);
  }

  class Csmcrc {
    var chost: Option<string>
    var cport: int32
    var loggedIn: bool
    var requestId: int32
    var dataBuffer: array?<byte>
    /** The packets written to the connection so far, oldest first. */
    var sent: seq<seq<byte>>

    /** The object's fields as a value. */
    function State(): (st: SessionState)
      reads this, dataBuffer
    {
      SessionState(chost, cport, loggedIn, requestId,
                   if dataBuffer == null then None else Some(dataBuffer[..]), sent)
    }

    constructor ()
      ensures State() == Initial
    {
      chost, cport, loggedIn, requestId, dataBuffer, sent := None, 0, false, 0, null, [];
    }

    /** Csmcrc.isConnected: the loggedIn flag. */
    method IsConnected() returns (connected: bool)
      ensures connected == loggedIn
    {
      connected := loggedIn;
    }

    /** Csmcrc.getAddress: the host of the last successful login, "" after a
        disconnect, null (None) before any login. */
    method GetAddress() returns (address: Option<string>)
      ensures address == chost
    {
      address := chost;
    }

    /** Csmcrc.getPort: the port of the last successful login, 0 otherwise. */
    method GetPort() returns (port: int32)
      ensures port == cport
    {
      port := cport;
    }

    /** Csmcrc.init with the connection outcome `opens`, the request id `id`
        the random generator drew, and what the login write and read did. */
    method Init(host: string, port: int32, password: string, id: int32, opens: bool, ex: Exchange)
      returns (r: Result<bool>)
      requires 0 <= id as int < MaxId
      modifies this
      ensures (State(), r) == InitStep(old(State()), host, port, password, id, opens, ex)
      ensures dataBuffer != old(dataBuffer) ==> fresh(dataBuffer)
    {
      var connected := IsConnected();
      if connected {
        return Failure(UnableToConnect(AlreadyConnected));
      }
      if !opens {
        return Failure(UnableToConnect(SocketError));
      }
      requestId := id;
      var loginPacket := AssemblePacket(requestId, TypeLogin, password);
      if loginPacket.Failure? {
        return Failure(loginPacket.error);
      }
      r := Login(host, port, loginPacket.value, ex);
    }

    /** Lines 60-96 of init: write the login packet, read the reply into a fresh
        scratch buffer and compare its request id with ours. */
    method Login(host: string, port: int32, loginPacket: array<byte>, ex: Exchange) returns (r: Result<bool>)
      modifies this
      ensures (State(), r) == LoginStep(old(State()), host, port, loginPacket[..], ex)
      ensures dataBuffer != old(dataBuffer) ==> fresh(dataBuffer)
    {
      if ex.WriteFails? {
        return Failure(UnableToConnect(SocketError));
      }
      sent := sent + [loginPacket[..]];
      var buffer := NewBuffer();
      dataBuffer := buffer;
      if ex.ReadFails? {
        return Failure(UnableToConnect(SocketError));
      }
      var same := CheckLogin(buffer, ex.bytes, requestId);
      buffer := NewBuffer();
      dataBuffer := buffer;
      if same {
        chost := Some(host);
        cport := port;
        loggedIn := true;
        return Success(true);
      } else {
        return Success(false);
      }
    }

    /** Csmcrc.send with what the command write and read did. */
    method Send(payload: string, ex: Exchange) returns (r: Result<string>)
      modifies this
      ensures (State(), r) == SendStep(old(State()), payload, ex)
      ensures dataBuffer != old(dataBuffer) ==> fresh(dataBuffer)
    {
      var connected := IsConnected();
      if !connected {
        return Failure(NotConnected);
      }
      var requestPacket := AssemblePacket(requestId, TypeCommand, payload);
      if requestPacket.Failure? {
        return Failure(requestPacket.error);
      }
      if ex.WriteFails? {
        return Failure(UnableToConnect(SocketError));
      }
      sent := sent + [requestPacket.value[..]];
      var buffer := NewBuffer();
      dataBuffer := buffer;
      if ex.ReadFails? {
        return Failure(UnableToConnect(SocketError));
      }
      Receive(buffer, ex.bytes);
      var bResponse := DisassemblePacket(buffer, PacketSPayload);
      if bResponse.Failure? {
        return Failure(bResponse.error);
      }
      dataBuffer := NewBuffer();
      return Success(AsciiText(bResponse.value[..]));
    }

    /** Csmcrc.disconnect; closing the stream and the client is not modelled. */
    method Disconnect() returns (r: Result<()>)
      modifies this
      ensures (State(), r) == DisconnectStep(old(State()))
      ensures dataBuffer != old(dataBuffer) ==> fresh(dataBuffer)
    {
      var connected := IsConnected();
      if !connected {
        return Failure(NotConnected);
      }
      chost := Some("");
      cport := 0;
      loggedIn := false;
      dataBuffer := NewBuffer();
      return Success(());
    }
  }
}
