/**
 * Field extraction from a raw RCON response buffer: fixed four-byte fields at
 * offsets 0, 4 and 8, and a payload whose length is the declared remainder
 * length minus 8, starting at offset 12.
 */
module PacketDisassembler {
  import opened Bytes
  import opened Errors
  import PacketAssembler

  const PacketSLength: byte := 0
  const PacketSRequestId: byte := 1
  const PacketSType: byte := 2
  const PacketSPayload: byte := 3

  /** C# arrays hold fewer than 2^31 elements. */
  const ArrayBound: int := 0x8000_0000

  /** The payload length disassemblePacket computes: the declared remainder
      length minus 8, in unchecked int32 arithmetic. */
  function PayloadLength(packet: seq<byte>): (n: int32)
    requires |packet| >= 4
    ensures (n as int - (FromLe32(packet[..4]) as int - 8)) % TwoTo32 == 0
    ensures FromLe32(packet[..4]) as int >= -0x8000_0000 + 8 ==> n as int == FromLe32(packet[..4]) as int - 8
    ensures FromLe32(packet[..4]) as int < -0x8000_0000 + 8 ==> n as int == FromLe32(packet[..4]) as int - 8 + TwoTo32
  {
    Wrap32(FromLe32(packet[..4]) as int - 8)
  }

  /** The field disassemblePacket returns, or the error it throws. A selector
      outside 0..3, or a field that does not fit in the buffer, is InvalidPacket. */
  function Disassemble(packet: seq<byte>, selector: byte): (r: Result<seq<byte>>)
    requires |packet| >= 4
    ensures r.Failure? ==> r.error == InvalidPacket
    ensures r.Success? ==> selector <= PacketSPayload && 12 * (selector as int / 3) + |r.value| <= |packet|
  {
    var payloadLength := PayloadLength(packet);
    if selector == PacketSLength then Success(packet[0..4])
    else if selector == PacketSRequestId then
      if |packet| < 8 then Failure(InvalidPacket) else Success(packet[4..8])
    else if selector == PacketSType then
      if |packet| < 12 then Failure(InvalidPacket) else Success(packet[8..12])
    else if selector == PacketSPayload then
      if payloadLength < 0 || 12 + payloadLength as int > |packet| then Failure(InvalidPacket)
      else Success(packet[12..12 + payloadLength as int])
    else Failure(InvalidPacket)
  }

  /** Selectors 0, 1 and 2 give the four bytes at offset 4 * selector, and fail
      exactly when the buffer ends before them. */
  lemma HeaderField(packet: seq<byte>, selector: byte)
    requires |packet| >= 4 && selector < PacketSPayload
    ensures Disassemble(packet, selector).Success? <==> 4 * selector as int + 4 <= |packet|
    ensures Disassemble(packet, selector).Success? ==>
      Disassemble(packet, selector).value == packet[4 * selector as int..4 * selector as int + 4]
  {
  }

  /** Selector 3 gives the bytes from offset 12 up to the end of the declared
      remainder (the length field counts every byte after itself), and fails
      when the declared remainder is under 8 or runs past the buffer. */
  lemma PayloadField(packet: seq<byte>)
    requires 4 <= |packet| < ArrayBound
    ensures var declared := FromLe32(packet[..4]) as int;
      && (Disassemble(packet, PacketSPayload).Success? <==> 8 <= declared && 4 + declared <= |packet|)
      && (Disassemble(packet, PacketSPayload).Success? ==>
            Disassemble(packet, PacketSPayload).value == packet[12..4 + declared])
  {
    var declared := FromLe32(packet[..4]) as int;
    if declared < -0x8000_0000 + 8 {
      // the subtraction wraps round to a huge positive length, which never fits
      assert PayloadLength(packet) as int == declared - 8 + TwoTo32;
    } else {
      assert PayloadLength(packet) as int == declared - 8;
    }
  }

  /** Any selector outside 0..3 is refused. */
  lemma UnknownSelector(packet: seq<byte>, selector: byte)
    requires |packet| >= 4 && selector > PacketSPayload
    ensures Disassemble(packet, selector) == Failure(InvalidPacket)
  {
  }

  /** A response whose remainder field says 18 yields 10 payload bytes from
      offset 12, not just the 6 bytes of the text placed there. */
  lemma DeclaredEighteen(packet: seq<byte>)
    requires |packet| >= 22 && packet[..4] == [18, 0, 0, 0]
    requires packet[12..18] == [97, 117, 116, 104, 79, 75]  // "authOK"
    ensures Disassemble(packet, PacketSPayload) == Success(packet[12..22])
    ensures Disassemble(packet, PacketSPayload).value[..6] == AsciiBytes("authOK")
  {
    assert Unsigned(packet[..4]) == 18;
    assert AsciiBytes("authOK") == [97, 117, 116, 104, 79, 75];
    assert packet[12..22][..6] == packet[12..18];
  }

  /** Round trip of the header: the fields extracted from an assembled packet
      are the little-endian remainder length, request id and type, and decode
      back to the numbers that went in. */
  lemma HeaderRoundTrip(requestId: int32, requestType: int32, payload: string, packet: seq<byte>)
    requires PacketAssembler.Assemble(requestId, requestType, payload) == Success(packet)
    ensures Disassemble(packet, PacketSLength) == Success(Le32((10 + |payload|) as int32))
    ensures Disassemble(packet, PacketSRequestId) == Success(Le32(requestId))
    ensures Disassemble(packet, PacketSType) == Success(Le32(requestType))
    ensures FromLe32(Disassemble(packet, PacketSLength).value) as int == 10 + |payload|
    ensures FromLe32(Disassemble(packet, PacketSRequestId).value) == requestId
    ensures FromLe32(Disassemble(packet, PacketSType).value) == requestType
  {
    PacketAssembler.AssembleLayout(requestId, requestType, payload, packet);
    FromLe32Le32(requestId);
    FromLe32Le32(requestType);
  }

  /** Round trip of the payload: what comes back is the encoded payload followed
      by both NUL padding bytes, because the remainder length 10 + n minus 8 is
      n + 2. It is therefore never the encoded payload alone. */
  lemma PayloadRoundTrip(requestId: int32, requestType: int32, payload: string, packet: seq<byte>)
    requires PacketAssembler.Assemble(requestId, requestType, payload) == Success(packet)
    ensures Disassemble(packet, PacketSPayload) == Success(AsciiBytes(payload) + [0, 0])
    ensures Disassemble(packet, PacketSPayload) != Success(AsciiBytes(payload))
  {
    PacketAssembler.AssembleLayout(requestId, requestType, payload, packet);
    PayloadField(packet);
    assert packet[12..4 + 10 + |payload|] == packet[12..12 + |payload|] + packet[12 + |payload|..];
  }

  /** Extraction only looks at the declared part of the buffer: bytes after the
      field do not change the result. */
  lemma DisassembleIgnoresTail(packet: seq<byte>, tail: seq<byte>, selector: byte)
    requires |packet| >= 4 && Disassemble(packet, selector).Success?
    ensures Disassemble(packet + tail, selector) == Disassemble(packet, selector)
  {
    var whole := packet + tail;
    assert whole[..4] == packet[..4];
    assert PayloadLength(whole) == PayloadLength(packet);
    forall i, j | 0 <= i <= j <= |packet| ensures whole[i..j] == packet[i..j] {
    }
  }

  /** `data = new byte[length]; Array.Copy(packet, offset, data, 0, length)`:
      a fresh copy of one slice of the buffer. */
  method CopyOut(packet: array<byte>, offset: nat, length: nat) returns (data: array<byte>)
    requires offset + length <= packet.Length
    ensures fresh(data) && data[..] == packet[offset..offset + length]
  {
    data := new byte[length](_ => 0);
    ArrayCopy(packet, offset, data, 0, length);
    assert data[..] == Splice(Zeros(length), 0, packet[offset..offset + length]);
    SpliceAt(Zeros(length), 0, packet[offset..offset + length]);
  }

  /** PacketDisassembler.disassemblePacket: copies the selected field into a
      fresh array; the input buffer is left as it was. The caller must pass at
      least 4 bytes: the copy of the length field is outside the handler that
      turns failures into InvalidPacket. */
  method DisassemblePacket(packet: array<byte>, selector: byte) returns (r: Result<array<byte>>)
    requires packet.Length >= 4
    ensures r.Failure? ==> Disassemble(packet[..], selector) == Failure(r.error)
    ensures r.Success? ==> fresh(r.value) && Disassemble(packet[..], selector) == Success(r.value[..])
  {
    var bRemainderLength := CopyOut(packet, 0, 4);
    assert bRemainderLength[..] == packet[..][..4];
    var payloadLength := Wrap32(FromLe32(bRemainderLength[..]) as int - 8);
    var data: array<byte>;
    if selector == PacketSLength {
      data := CopyOut(packet, 0, 4);
    } else if selector == PacketSRequestId {
      if packet.Length < 8 {
        return Failure(InvalidPacket);
      }
      data := CopyOut(packet, 4, 4);
    } else if selector == PacketSType {
      if packet.Length < 12 {
        return Failure(InvalidPacket);
      }
      data := CopyOut(packet, 8, 4);
    } else if selector == PacketSPayload {
      if payloadLength < 0 {
        // allocating an array of negative length throws
        return Failure(InvalidPacket);
      }
      if 12 + payloadLength as int > packet.Length {
        // Array.Copy past the end of the buffer throws
        return Failure(InvalidPacket);
      }
      data := CopyOut(packet, 12, payloadLength as int);
    } else {
      return Failure(InvalidPacket);
    }
    return Success(data);
  }
}
