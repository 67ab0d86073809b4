# csmcrc: a verified model of the RCON client core

csmcrc is a small C# client for the Minecraft RCON protocol. This project models its core in Dafny and proves properties of the model:

- **PacketAssembler** builds request packets. The layout is a little-endian int32 remainder length (10 + n), the request id, the request type (3 for login, 2 for a command), the n ASCII payload bytes, and two NUL padding bytes.
- **PacketDisassembler** copies one field out of a raw response buffer. Selector 0, 1 or 2 picks the four bytes at offset 0, 4 or 8. Selector 3 picks the payload: the declared remainder length minus 8 bytes from offset 12.
- **Csmcrc** is the session object.
  - `init` opens the connection, draws a random request id and sends the login packet. The login succeeds when the reply echoes that id.
  - `send` sends a command with the same id and returns the reply payload as ASCII text.
  - `disconnect` closes the session.
  - `isConnected`, `getAddress` and `getPort` read the fields.

Modules:

- `Bytes` holds the shared vocabulary:
  - the `byte` and `int32` types;
  - unchecked 32-bit wrap-around;
  - `BitConverter` on a little-endian host;
  - the .NET ASCII encoder and decoder, which replace anything above 127 with `?`;
  - `Array.Copy` between two arrays.
- `Errors` has one variant per exception class of the client, wrapped in a `Result`.
- `PacketAssembler` and `PacketDisassembler` each pair a pure function with a method:
  - the functions `Assemble` and `Disassemble` give the packet or field, or the error;
  - the methods `AssemblePacket` and `DisassemblePacket` do what the C# does on arrays, one `Array.Copy` at a time, and are proved equal to those functions.
- `Session` has the class `Csmcrc`. Its fields are the C# fields, plus `sent`, the packets written to the connection.
  - Every method is proved to take the object's state to what a pure step function gives: `InitStep`, `LoginStep`, `SendStep` or `DisconnectStep` over `SessionState`.
  - The session properties are lemmas about those functions.

The socket is represented by inputs:

- `opens` says whether the TCP connection could be made.
- An `Exchange` says what happened to the single write and the single read: the write failed, the read failed, or the read delivered some bytes.
- The request id drawn by `Random.Next(2147483647)` is an input in `[0, 2^31 - 1)`.

Some behaviour of the code is easy to misread, and the model follows the code:

- A payload is accepted only when `14 + n < 1446`, so at most 1431 characters pass. 1432 do not.
- The length check counts characters. A character code in 128..255 passes the check, but the ASCII encoder sends it as `?`.
- The disassembled payload is the remainder length minus 8 bytes. That includes both NUL padding bytes, so `send` returns the reply text followed by two NUL characters.
- Consider a reply whose remainder field says 18. Selector 3 extracts 10 bytes from offset 12, not only the 6 bytes of a text such as `authOK` placed there.

## Model

| member | source | states |
|---|---|---|
| `Bytes.Wrap32` | PacketDisassembler.cs:43 | the result is the int32 congruent to the input modulo 2^32, and equals the input when that fits (unchecked `int` subtraction) |
| `Bytes.Le32` | PacketAssembler.cs:59-61 | `BitConverter.GetBytes(int)`: four bytes whose unsigned little-endian value is x modulo 2^32 |
| `Bytes.FromLe32` | PacketDisassembler.cs:43 | `BitConverter.ToInt32`: an int32 congruent to the four bytes read as an unsigned little-endian number |
| `Bytes.FromLe32Le32` | PacketDisassembler.cs:43 | decoding the bytes `GetBytes` produced gives the original int back |
| `Bytes.Le32FromLe32` | PacketDisassembler.cs:43 | encoding a decoded four-byte field gives the same bytes back |
| `Bytes.Le32Injective` | Csmcrc.cs:79-81 | two ids have equal wire bytes exactly when they are equal, so the bytewise login comparison compares ids |
| `Bytes.AsciiByte` | PacketAssembler.cs:50 | a character below 128 is sent as itself, any other as `?` |
| `Bytes.AsciiBytes` | PacketAssembler.cs:50 | `Encoding.ASCII.GetBytes`: one byte per character, each the `AsciiByte` of that character |
| `Bytes.AsciiText` | Csmcrc.cs:137 | `Encoding.ASCII.GetString`: one character per byte, bytes above 127 become `?` |
| `Bytes.AsciiTextOfBytes` | Csmcrc.cs:137 | 7-bit text survives encoding and then decoding unchanged |
| `Bytes.Zeros` | Csmcrc.cs:68 | a new array holds only zeros, n of them |
| `Bytes.GetBytes` | PacketAssembler.cs:59-61 | returns a fresh array holding the little-endian bytes of x |
| `Bytes.AsciiGetBytes` | PacketAssembler.cs:50 | returns a fresh array holding the ASCII encoding of s |
| `Bytes.ArrayCopy` | PacketAssembler.cs:70-74 | `Array.Copy` between distinct arrays overwrites the target range with the source range and keeps every other byte |
| `PacketAssembler.IsNotAscii` | PacketAssembler.cs:83-86 | true exactly when some character code is above 255 |
| `PacketAssembler.Assemble` | PacketAssembler.cs:42-76 | an accepted packet is 14 + n bytes and shorter than 1446; every refusal is an invalid-payload error |
| `PacketAssembler.AssembleAccepts` | PacketAssembler.cs:45-55 | accepted iff every code is at most 255 and n is at most 1431; not-ASCII iff some code is above 255, checked first; too-long iff all codes pass and n > 1431 |
| `PacketAssembler.AssembleWhenAccepted` | PacketAssembler.cs:56-75 | an accepted packet is the remainder length 10 + n, id, type, encoded payload and padding, concatenated |
| `PacketAssembler.AssembleLayout` | PacketAssembler.cs:56-75 | byte offsets of an accepted packet: length field at 0 that decodes to 10 + n, id at 4, type at 8, payload at 12, two NULs at the end |
| `PacketAssembler.HunterExample` | PacketAssembler.cs:42-76 | id 12345, login, "hunter2" give 17,0,0,0, 57,48,0,0, 3,0,0,0, the seven letters, and 0,0 |
| `PacketAssembler.LengthLimitEdge` | PacketAssembler.cs:51-55 | 1431 characters are accepted and 1432 are refused as too long |
| `PacketAssembler.WideCharacterSentAsQuestionMark` | PacketAssembler.cs:45-50 | a character in 128..255 passes the check but is written as `?` |
| `PacketAssembler.FilledInOrder` | PacketAssembler.cs:57-74 | the five copies into the zeroed array, in their order, yield the concatenation of the five parts |
| `PacketAssembler.CopyField` | PacketAssembler.cs:59-72 | converting an int and copying its four bytes to an offset overwrites exactly those four bytes |
| `PacketAssembler.AssemblePacket` | PacketAssembler.cs:42-76 | on arrays, it throws what `Assemble` refuses and otherwise returns a fresh array equal to `Assemble`'s packet |
| `PacketDisassembler.Disassemble` | PacketDisassembler.cs:38-72 | every failure is InvalidPacket; a success has a selector of at most 3, and the field lies within the buffer |
| `PacketDisassembler.HeaderField` | PacketDisassembler.cs:48-59 | selectors 0, 1 and 2 succeed exactly when the buffer holds 4 * selector + 4 bytes, and give those four bytes |
| `PacketDisassembler.PayloadLength` | PacketDisassembler.cs:41-43 | the payload length is the decoded remainder field minus 8 in unchecked int32 arithmetic: exactly that difference when it fits, that difference plus 2^32 when it wraps below -2^31 |
| `PacketDisassembler.PayloadField` | PacketDisassembler.cs:43-63 | selector 3 succeeds exactly when the declared remainder is at least 8 and fits in the buffer after the length field, and gives the bytes from 12 to its end, with int32 wrap-around accounted for |
| `PacketDisassembler.UnknownSelector` | PacketDisassembler.cs:64-65 | a selector above 3 is InvalidPacket |
| `PacketDisassembler.DeclaredEighteen` | PacketDisassembler.cs:43-62 | a remainder of 18 yields the 10 bytes from offset 12, of which `authOK` is only the first 6 |
| `PacketDisassembler.HeaderRoundTrip` | PacketDisassembler.cs:48-59 | the header fields of an assembled packet are the encoded length, id and type, and decode to the numbers that went in |
| `PacketDisassembler.PayloadRoundTrip` | PacketDisassembler.cs:60-62 | the payload of an assembled packet comes back as the encoded payload plus both NULs, never as the payload alone |
| `PacketDisassembler.DisassembleIgnoresTail` | PacketDisassembler.cs:38-72 | bytes after a successfully extracted field do not change the result |
| `PacketDisassembler.CopyOut` | PacketDisassembler.cs:49-62 | a new array followed by an `Array.Copy` is a fresh copy of the slice |
| `PacketDisassembler.DisassemblePacket` | PacketDisassembler.cs:38-72 | on arrays, it throws what `Disassemble` refuses and otherwise returns a fresh array equal to `Disassemble`'s field |
| `Session.Received` | Csmcrc.cs:68-71 | one read into a new 8192-byte buffer: the delivered bytes first, at most 8192 of them, zeros after |
| `Session.InitStep` | Csmcrc.cs:41-98 | init while logged in returns AlreadyConnected and leaves the state as it was. Otherwise it stores the id once the connection opens. It ends logged in exactly when it returns true, and then holds the given host and port; on every other outcome host and port are unchanged. Its failures are connection or payload errors. A normal return (true or false) needs a delivered reply and leaves a zeroed buffer |
| `Session.LoginStep` | Csmcrc.cs:60-96 | a failed write returns a socket error and writes nothing. A failed read returns a socket error after the login packet is written. A delivered reply returns normally, after the packet is written: true exactly when bytes 4..7 of the received buffer are the session's id, and then host, port and the login flag are set. Otherwise host and port are kept. The id is never changed |
| `Session.SendStep` | Csmcrc.cs:105-142 | send while logged out returns NotConnected and changes nothing. It never changes the login flag, the id, the host or the port. Its failures are NotConnected, a payload error, a socket error or InvalidPacket. A success needs a logged-in client and a delivered reply, leaves a zeroed buffer and returns at most 8180 characters. At most one packet is appended to those written |
| `Session.DisconnectStep` | Csmcrc.cs:144-157 | succeeds exactly when logged in, and then sets host "" and port 0 and zeroes the buffer; when logged out it returns NotConnected and changes nothing. Afterwards the client is logged out, with the id and the written packets kept |
| `Session.Receive` | Csmcrc.cs:68-71 | reading into a zeroed 8192-byte buffer leaves exactly `Received` of the delivered bytes in it |
| `Session.ResponseId` | Csmcrc.cs:78 | selector 1 never fails on the 8192-byte buffer and gives bytes 4..7 |
| `Session.InitWhileConnected` | Csmcrc.cs:43-46 | init while logged in is refused as already connected and changes nothing |
| `Session.LoginAcceptedIffIdEchoed` | Csmcrc.cs:56-96 | after the write and the read, init returns true exactly when bytes 4..7 of the reply are the id. It then sets host, port and loggedIn, and otherwise keeps them. The id is stored, the login packet is written, and the buffer is cleared |
| `Session.RefusalIsNotLogin` | Csmcrc.cs:78-96 | a reply with request id -1 (a refused password) never logs in, since the id is never negative |
| `Session.EchoedIdIsLogin` | Csmcrc.cs:78-90 | a reply packet carrying the client's own id logs in with the given host and port |
| `Session.RetryAfterRejectedLogin` | Csmcrc.cs:43-96 | a rejected login leaves the client disconnected, so the next init is not refused as already connected |
| `Session.SendWhileDisconnected` | Csmcrc.cs:107-110 | send while not logged in is NotConnected and changes nothing |
| `Session.DisconnectLogsOut` | Csmcrc.cs:144-157 | disconnect logs out, sets host "" and port 0, and keeps id and written packets; afterwards disconnect and send are NotConnected |
| `Session.ScratchBufferAfterCall` | Csmcrc.cs:68-156 | every normal return leaves a zeroed buffer; a send whose reply cannot be disassembled leaves the reply in it |
| `Session.SendReturnsReplyText` | Csmcrc.cs:112-137 | a reply packet around 7-bit text, whatever its id and type, comes back from send as that text plus two NULs, after the command packet was written |
| `Session.SendStepKeeps` | Csmcrc.cs:105-142 | one send continues the session: it keeps id, login flag, host, port and the packets already written, and writes at most one packet, a command with the session's id |
| `Session.SendsReuseRequestId` | Csmcrc.cs:112 | over any series of sends, the login id is reused, the earlier packets stay, and every new packet is a command with that id |
| `Session.Read` | Csmcrc.cs:71 | `NetworkStream.Read` overwrites the first min(delivered, length) bytes and keeps the rest |
| `Session.NewBuffer` | Csmcrc.cs:68 | a new scratch buffer is fresh and holds 8192 zeros |
| `Session.SameId` | Csmcrc.cs:79-81 | the four bytewise comparisons hold exactly when the field is the little-endian id |
| `Session.CheckLogin` | Csmcrc.cs:71-81 | after the read, the buffer is what was received, and the check holds exactly when bytes 4..7 of that are the id |
| `Session.Csmcrc.constructor` | Csmcrc.cs:26-32 | a new client has every field at its default: null host, port 0, not logged in |
| `Session.Csmcrc.IsConnected` | Csmcrc.cs:163-166 | returns the loggedIn flag |
| `Session.Csmcrc.GetAddress` | Csmcrc.cs:172-175 | returns the stored host |
| `Session.Csmcrc.GetPort` | Csmcrc.cs:181-184 | returns the stored port |
| `Session.Csmcrc.Init` | Csmcrc.cs:41-98 | the new state and result are `InitStep` of the old state. It checks the guard, then the connection. It stores the id and then assembles the login packet, whose failure propagates |
| `Session.Csmcrc.Login` | Csmcrc.cs:60-96 | the new state and result are `LoginStep` of the old state: write, read, compare, then set the fields and clear the buffer |
| `Session.Csmcrc.Send` | Csmcrc.cs:105-142 | the new state and result are `SendStep` of the old state: guard, assemble, write, read, extract the payload, clear the buffer, decode as ASCII |
| `Session.Csmcrc.Disconnect` | Csmcrc.cs:144-157 | the new state and result are `DisconnectStep` of the old state: guard, then reset host, port, flag and buffer |

## Left out

- Sockets: `new TcpClient(host, port)`, `GetStream`, `Write`, `Read` and `Close` are not modelled. Their outcomes are the inputs `opens` and `Exchange`. The exception messages they carry are reduced to `SocketError`.
- A write that fails part-way is modelled as writing nothing. A read that fails is modelled as leaving the fresh buffer zeroed.
- The `client` and `stream` fields are not modelled. Nor is the connection that a second `init` after a rejected login leaves open and unreferenced, nor the closing in `disconnect`.
- `Random`: the request id is an input in the range `Random.Next(2147483647)` returns.
- Big-endian hosts: the branch at PacketAssembler.cs:63-68 is not modelled. `BitConverter` is modelled on a little-endian host.
- Exception message texts are not modelled. Each exception class is one `Error` variant with the cause it names.
- The handler at Csmcrc.cs:138-141 is not modelled, because `Encoding.ASCII.GetString` replaces bytes above 127 instead of throwing.
- Characters: C# strings are UTF-16 code units, Dafny strings are Unicode scalar values. Both are refused whenever the code is above 255, so acceptance is the same. A character outside the Basic Multilingual Plane counts as one character here and two in C#.
- Concurrency: the class is not thread-safe, and concurrent calls are not modelled.
- Null strings: a Dafny `string` cannot be null, so null passwords and commands are not modelled. In C#, `init(host, port, null)` reaches `isNotAscii(null)` through Csmcrc.cs:59, and `s.Any(...)` at PacketAssembler.cs:85 throws an `ArgumentNullException`. By then the connection is open and `requestId` is stored. Nothing catches that exception, and it is none of the client's own exceptions. `send(null)` fails the same way through Csmcrc.cs:112. A null host is likewise left to `TcpClient`, which the model does not represent.
- The byte count that `Read` returns is ignored by the client, and it is not modelled. A reply split over several TCP segments is modelled only as what the single read delivers.
- PacketDisassembler.Disassemble: requires at least 4 bytes. On a shorter buffer the C# copy at PacketDisassembler.cs:42 throws the runtime's `ArgumentException` from outside the handler, which the model does not represent. The client always passes its 8192-byte buffer.
- PacketDisassembler.DisassemblePacket: requires at least 4 bytes, for the same reason.
- Session.Csmcrc.Init: requires the id to be in the range the random generator draws from. That is what makes `RefusalIsNotLogin` apply to every login.
