/**
 * Assembly of RCON request packets. The wire layout is
 *   offset 0      little-endian int32 remainder length (10 + payload length)
 *   offset 4      little-endian int32 request id
 *   offset 8      little-endian int32 request type
 *   offset 12     payload, one ASCII byte per character
 *   offset 12+n   two NUL padding bytes
 */
module PacketAssembler {
  import opened Bytes
  import opened Errors

  /** Largest character code the payload check lets through. */
  const Ansi: int := 255
  const TypeLogin: int32 := 3
  const TypeCommand: int32 := 2
  const Padding: seq<byte> := [0, 0]
  /** A packet must be shorter than this many bytes. */
  const PacketLimit: int := 1446
  /** The longest payload that fits: 14 + MaxPayload < PacketLimit. */
  const MaxPayload: int := 1431

  /** True when some character of s has a code above Ansi (LINQ Any over the string). */
  function IsNotAscii(s: string): (r: bool)
    ensures r <==> exists i :: 0 <= i < |s| && s[i] as int > Ansi
  {
    if s == [] then false
    else
      var rest := IsNotAscii(s[1..]);
      assert rest ==> exists i :: 0 <= i < |s| && s[i] as int > Ansi by {
        if rest {
          var j :| 0 <= j < |s[1..]| && s[1..][j] as int > Ansi;
          assert s[j + 1] as int > Ansi;
        }
      }
      s[0] as int > Ansi || rest
  }

  /** The packet assemblePacket returns, or the error it throws. */
  function Assemble(requestId: int32, requestType: int32, payload: string): (r: Result<seq<byte>>)
    ensures r.Success? ==> |r.value| == 14 + |payload| < PacketLimit
    ensures r.Failure? ==> r.error.InvalidPayload?
  {
    if IsNotAscii(payload) then Failure(InvalidPayload(NotAscii))
    else
      var bPayload := AsciiBytes(payload);
      var totLength := 14 + |bPayload|;
      if totLength >= PacketLimit then Failure(InvalidPayload(TooLong))
      else
        var remainderLength := (10 + |bPayload|) as int32;
        Success(Le32(remainderLength) + Le32(requestId) + Le32(requestType) + bPayload + Padding)
  }

  /** The payload is accepted exactly when every character code is at most 255
      and it has at most 1431 characters; the character check is made first,
      so an over-long payload with a wide character is reported as not ASCII. */
  lemma AssembleAccepts(requestId: int32, requestType: int32, payload: string)
    ensures Assemble(requestId, requestType, payload).Success? <==>
      (forall i :: 0 <= i < |payload| ==> payload[i] as int <= Ansi) && |payload| <= MaxPayload
    ensures Assemble(requestId, requestType, payload) == Failure(InvalidPayload(NotAscii)) <==>
      exists i :: 0 <= i < |payload| && payload[i] as int > Ansi
    ensures Assemble(requestId, requestType, payload) == Failure(InvalidPayload(TooLong)) <==>
      (forall i :: 0 <= i < |payload| ==> payload[i] as int <= Ansi) && |payload| > MaxPayload
  {
  }

  /** The packet of an accepted payload: header, encoded payload, padding. */
  lemma AssembleWhenAccepted(requestId: int32, requestType: int32, payload: string)
    requires !IsNotAscii(payload) && 14 + |payload| < PacketLimit
    ensures Assemble(requestId, requestType, payload) ==
      Success(Le32((10 + |payload|) as int32) + Le32(requestId) + Le32(requestType) + AsciiBytes(payload) + Padding)
  {
    var bPayload := AsciiBytes(payload);
    assert |bPayload| == |payload|;
    var remainderLength := (10 + |bPayload|) as int32;
    assert remainderLength == (10 + |payload|) as int32;
  }

  /** Byte-offset layout of an assembled packet. */
  lemma AssembleLayout(requestId: int32, requestType: int32, payload: string, packet: seq<byte>)
    requires Assemble(requestId, requestType, payload) == Success(packet)
    ensures |packet| == 14 + |payload|
    ensures packet[0..4] == Le32((|packet| - 4) as int32)
    ensures FromLe32(packet[0..4]) as int == 10 + |payload|
    ensures packet[4..8] == Le32(requestId)
    ensures packet[8..12] == Le32(requestType)
    ensures packet[12..12 + |payload|] == AsciiBytes(payload)
    ensures packet[12 + |payload|..] == [0, 0]
  {
    var n := |payload|;
    var remainderLength := (10 + n) as int32;
    var h := Le32(remainderLength) + Le32(requestId) + Le32(requestType);
    assert packet == h + AsciiBytes(payload) + Padding;
    assert packet[0..4] == h[0..4] == Le32(remainderLength);
    assert packet[4..8] == h[4..8] == Le32(requestId);
    assert packet[8..12] == h[8..12] == Le32(requestType);
    FromLe32Le32(remainderLength);
  }

  /** The worked example: id 12345, type 3, payload "hunter2". */
  lemma HunterExample()
    ensures Assemble(12345, TypeLogin, "hunter2") ==
      Success([17, 0, 0, 0] + [57, 48, 0, 0] + [3, 0, 0, 0] + [104, 117, 110, 116, 101, 114, 50] + [0, 0])
  {
    assert AsciiBytes("hunter2") == [104, 117, 110, 116, 101, 114, 50];
    assert !IsNotAscii("hunter2");
    // each field is the encoding of the four bytes that decode to it
    Le32FromLe32([17, 0, 0, 0]);
    Le32FromLe32([57, 48, 0, 0]);
    Le32FromLe32([3, 0, 0, 0]);
    assert FromLe32([17, 0, 0, 0]) == 17 && FromLe32([57, 48, 0, 0]) == 12345 && FromLe32([3, 0, 0, 0]) == 3;
    assert Assemble(12345, TypeLogin, "hunter2") ==
      Success(Le32(17) + Le32(12345) + Le32(3) + AsciiBytes("hunter2") + Padding);
  }

  /** The length limit at its edge: 1431 characters are accepted, 1432 are not. */
  lemma LengthLimitEdge(requestId: int32, requestType: int32, c: char)
    requires c as int <= Ansi
    ensures Assemble(requestId, requestType, seq(MaxPayload, _ => c)).Success?
    ensures Assemble(requestId, requestType, seq(MaxPayload + 1, _ => c)) == Failure(InvalidPayload(TooLong))
  {
    AssembleAccepts(requestId, requestType, seq(MaxPayload, _ => c));
    AssembleAccepts(requestId, requestType, seq(MaxPayload + 1, _ => c));
  }

  /** A character in 128..255 passes the check but is sent as '?', not as itself. */
  lemma WideCharacterSentAsQuestionMark(requestId: int32, requestType: int32, c: char)
    requires 0x80 <= c as int <= Ansi
    ensures Assemble(requestId, requestType, [c]).Success?
    ensures Assemble(requestId, requestType, [c]).value[12] as int == '?' as int != c as int
  {
    assert !IsNotAscii([c]);
  }

  /** Copying the four parts of a packet, in order, over a zeroed buffer of the
      right size gives their concatenation. */
  lemma FilledInOrder(remainder: seq<byte>, id: seq<byte>, kind: seq<byte>, body: seq<byte>, padding: seq<byte>)
    requires |remainder| == |id| == |kind| == 4 && |padding| == 2
    ensures Splice(Splice(Splice(Splice(Splice(Zeros(14 + |body|), 0, remainder), 4, id), 8, kind), 12, body), 12 + |body|, padding)
      == remainder + id + kind + body + padding
  {
    var n := |body|;
    var s1 := Splice(Zeros(14 + n), 0, remainder);
    var s2 := Splice(s1, 4, id);
    var s3 := Splice(s2, 8, kind);
    var s4 := Splice(s3, 12, body);
    var filled := Splice(s4, 12 + n, padding);
    SpliceAt(Zeros(14 + n), 0, remainder);
    SpliceAt(s1, 4, id);
    SpliceAt(s2, 8, kind);
    SpliceAt(s3, 12, body);
    SpliceAt(s4, 12 + n, padding);
  }

  /** BitConverter.GetBytes(x) followed by Array.Copy of its four bytes into
      data at offset: one header field of the packet. */
  method CopyField(x: int32, data: array<byte>, offset: nat)
    requires offset + 4 <= data.Length
    modifies data
    ensures data[..] == Splice(old(data[..]), offset, Le32(x))
  {
    var bytes := GetBytes(x);
    assert bytes[0..4] == Le32(x);
    ArrayCopy(bytes, 0, data, offset, 4);
  }

  /** PacketAssembler.assemblePacket: fills a fresh array with the header fields,
      the payload bytes and the padding, one Array.Copy at a time. It touches no
      state other than the array it allocates. */
  method AssemblePacket(requestId: int32, requestType: int32, payload: string) returns (r: Result<array<byte>>)
    ensures r.Failure? ==> Assemble(requestId, requestType, payload) == Failure(r.error)
    ensures r.Success? ==> fresh(r.value) && Assemble(requestId, requestType, payload) == Success(r.value[..])
  {
    if IsNotAscii(payload) {
      return Failure(InvalidPayload(NotAscii));
    }
    var bPayload := AsciiGetBytes(payload);
    var totLength := 14 + bPayload.Length;
    if totLength >= PacketLimit {
      return Failure(InvalidPayload(TooLong));
    }
    var remainderLength := (10 + bPayload.Length) as int32;
    var data := new byte[totLength](_ => 0);
    ghost var filled := data[..];
    assert filled == Zeros(totLength);
    CopyField(remainderLength, data, 0);
    filled := Splice(filled, 0, Le32(remainderLength));
    CopyField(requestId, data, 4);
    filled := Splice(filled, 4, Le32(requestId));
    CopyField(requestType, data, 8);
    filled := Splice(filled, 8, Le32(requestType));
    assert bPayload[0..bPayload.Length] == AsciiBytes(payload);
    ArrayCopy(bPayload, 0, data, 12, bPayload.Length);
    filled := Splice(filled, 12, AsciiBytes(payload));
    var padding := new byte[2](_ => 0);
    assert padding[0..2] == Padding;
    ArrayCopy(padding, 0, data, 12 + bPayload.Length, 2);
    filled := Splice(filled, 12 + bPayload.Length, Padding);
    assert data[..] == filled;
    FilledInOrder(Le32(remainderLength), Le32(requestId), Le32(requestType), AsciiBytes(payload), Padding);
    AssembleWhenAccepted(requestId, requestType, payload);
    return Success(data);
  }
}
