/**
 * The frame codec of the chat server: `encode` builds server-to-client frames
 * and `decode` parses client-to-server frames, in the wire format of section 5.2
 * of RFC 6455. Each is a specification function over octet strings plus a method
 * that builds its result with the loops the server uses, proved equal to it.
 */
module Codec {
  import opened Bytes

  /** Frame types by opcode (section 5.2 of RFC 6455). */
  datatype Kind = Text | Binary | Close | Ping | Pong

  /** The frame types the encoder has a first octet for. */
  type OutKind = k: Kind | !k.Binary? witness Text

  /**
   * The `error` text of a failed call: "protocol error (1002)", "unknown opcode
   * (1003)" and "frame too large (1004)".
   */
  datatype CodecError = ProtocolError | UnknownOpcode | FrameTooLarge

  datatype Result<T> = Ok(value: T) | Err(error: CodecError)

  /** The outcome of decoding a buffer; `NeedMore` is the server's `false`. */
  datatype Decoded = Message(kind: Kind, payload: seq<Byte>) | NeedMore | Failed(error: CodecError)

  function Opcode(k: Kind): nat
  {
    match k
    case Text => 1
    case Binary => 2
    case Close => 8
    case Ping => 9
    case Pong => 10
  }

  /** The opcode switch of the decoder. */
  function KindOf(opcode: int): (r: Option<Kind>)
    ensures r.Some? <==> opcode in {1, 2, 8, 9, 10}
    ensures r.Some? ==> Opcode(r.value) == opcode
  {
    if opcode == 1 then Some(Text)
    else if opcode == 2 then Some(Binary)
    else if opcode == 8 then Some(Close)
    else if opcode == 9 then Some(Ping)
    else if opcode == 10 then Some(Pong)
    else None
  }

  /** The first octet the encoder writes: FIN set, reserved bits clear, then the opcode. */
  function FirstByte(k: OutKind): (b: Byte)
    ensures b == 128 + Opcode(k)
    ensures OpcodeOf(b) == Opcode(k)
  {
    match k
    case Text => 129
    case Close => 136
    case Ping => 137
    case Pong => 138
  }

  // Fields of the first two octets as the decoder reads them: `b & 15`, `b & 128`
  // and `b & 127` on an octet are its value modulo 16, its top bit and its value
  // modulo 128.
  function OpcodeOf(b: Byte): int { b % 16 }
  predicate MaskBitSet(b: Byte) { b >= 128 }
  function LengthIndicator(b: Byte): int { b % 128 }

  /**
   * The second octet and the extended payload length that follow the first
   * octet: 7-bit, 16-bit or 64-bit, with the mask bit added when masked.
   */
  function LengthField(n: nat, masked: bool): seq<Byte>
    requires n < TwoTo64
  {
    if n > 65535 then [if masked then 255 else 127] + BigEndian(n, 8)
    else if n > 125 then [if masked then 254 else 126] + BigEndian(n, 2)
    else [if masked then n + 128 else n]
  }

  /** Octets before the mask: 2, 4 or 10. */
  function HeaderSize(n: nat): nat
  {
    if n > 65535 then 10 else if n > 125 then 4 else 2
  }

  /**
   * The frame `encode(payload, type, masked)` returns, with `mask` standing for
   * the four random octets it draws when masked.
   */
  function EncodeFrame(payload: seq<Byte>, k: OutKind, masked: bool, mask: Mask): Result<seq<Byte>>
    requires |payload| < TwoTo64
  {
    var n := |payload|;
    var head := [FirstByte(k)] + LengthField(n, masked);
    if n > 65535 && head[2] > 127 then Err(FrameTooLarge)
    else if masked then Ok(head + mask + Masked(payload, mask))
    else Ok(head + payload)
  }

  /** The `$frameHead` octets of `encode`: first octet and length field. */
  method FrameHead(n: nat, k: OutKind, masked: bool) returns (frameHead: seq<Byte>)
    requires n < TwoTo64
    ensures frameHead == [FirstByte(k)] + LengthField(n, masked)
  {
    frameHead := [FirstByte(k)];
    if n > 65535 {
      var octets := BigEndian(n, 8);
      frameHead := frameHead + [if masked then 255 else 127];
      for i := 0 to 8
        invariant frameHead == [FirstByte(k), if masked then 255 else 127] + octets[..i]
      {
        frameHead := frameHead + [octets[i]];
      }
      assert octets[..8] == octets;
    } else if n > 125 {
      var octets := BigEndian(n, 2);
      frameHead := frameHead + [if masked then 254 else 126, octets[0], octets[1]];
      assert octets == [octets[0], octets[1]];
    } else {
      frameHead := frameHead + [if masked then n + 128 else n];
    }
  }

  method Encode(payload: seq<Byte>, k: OutKind, masked: bool, mask: Mask) returns (r: Result<seq<Byte>>)
    requires |payload| < TwoTo64
    ensures r == EncodeFrame(payload, k, masked, mask)
  {
    var n := |payload|;
    var frameHead := FrameHead(n, k, masked);
    // most significant bit of the 64-bit length must be 0
    if n > 65535 && frameHead[2] > 127 {
      return Err(FrameTooLarge);
    }
    var frame := frameHead;
    if masked {
      frame := frame + mask;
    }
    for i := 0 to n
      invariant frame == frameHead + if masked then mask + Masked(payload[..i], mask) else payload[..i]
    {
      assert payload[..i + 1][..i] == payload[..i];
      frame := frame + [if masked then Xor(payload[i], mask[i % 4]) else payload[i]];
    }
    assert payload[..n] == payload;
    assert masked ==> frame == frameHead + mask + Masked(payload, mask);
    assert !masked ==> frame == frameHead + payload;
    assert EncodeFrame(payload, k, masked, mask) == Ok(frame);
    r := Ok(frame);
  }

  /** Encoding fails, with 1004, exactly when the length needs the 64-bit field's top bit. */
  lemma EncodeTooLarge(payload: seq<Byte>, k: OutKind, masked: bool, mask: Mask)
    requires |payload| < TwoTo64
    ensures EncodeFrame(payload, k, masked, mask).Err? <==> |payload| >= TwoTo63
    ensures EncodeFrame(payload, k, masked, mask).Err? ==> EncodeFrame(payload, k, masked, mask).error == FrameTooLarge
  {
    if |payload| > 65535 {
      TopBitOf64(|payload|);
    }
  }

  /** The header of an encoded frame: first octet, mask bit and the length field's value. */
  lemma EncodeHeader(payload: seq<Byte>, k: OutKind, masked: bool, mask: Mask)
    requires |payload| < TwoTo64 && EncodeFrame(payload, k, masked, mask).Ok?
    ensures var f, n := EncodeFrame(payload, k, masked, mask).value, |payload|;
      |f| >= HeaderSize(n) && f[0] == FirstByte(k) && MaskBitSet(f[1]) == masked &&
      (n <= 125 ==> LengthIndicator(f[1]) == n) &&
      (125 < n <= 65535 ==> LengthIndicator(f[1]) == 126 && FromBigEndian(f[2..4]) == n) &&
      (65535 < n ==> LengthIndicator(f[1]) == 127 && FromBigEndian(f[2..10]) == n)
  {
    var f, n := EncodeFrame(payload, k, masked, mask).value, |payload|;
    var head := [FirstByte(k)] + LengthField(n, masked);
    assert |head| == HeaderSize(n) && f[..|head|] == head;
    if n > 65535 {
      assert f[1] == if masked then 255 else 127;
      assert f[2..10] == head[2..10] == BigEndian(n, 8);
      Pow256Of8();
      FromBigEndianInverse(n, 8);
    } else if n > 125 {
      assert f[1] == if masked then 254 else 126;
      assert f[2..4] == head[2..4] == BigEndian(n, 2);
      FromBigEndianInverse(n, 2);
    } else {
      ShortLengthOctet(n, masked);
    }
  }

  lemma ShortLengthOctet(n: nat, masked: bool)
    requires n <= 125
    ensures var b: Byte := if masked then n + 128 else n;
      LengthIndicator(b) == n && MaskBitSet(b) == masked
  {
  }

  /**
   * The body of an encoded frame: its length, the mask after the header, and each
   * payload octet XOR-ed with the mask octet at its index modulo 4, or copied.
   */
  lemma EncodeBody(payload: seq<Byte>, k: OutKind, masked: bool, mask: Mask)
    requires |payload| < TwoTo64 && EncodeFrame(payload, k, masked, mask).Ok?
    ensures var f, h := EncodeFrame(payload, k, masked, mask).value, HeaderSize(|payload|);
      if masked then
        |f| == h + 4 + |payload| && f[h..h + 4] == mask &&
        forall i :: 0 <= i < |payload| ==> f[h + 4 + i] == Xor(payload[i], mask[i % 4])
      else
        |f| == h + |payload| && f[h..] == payload
  {
  }

  // ----- Decoding -----

  /** Octet i of the buffer; reading past the end gives `ord("") == 0`, as in PHP. */
  function At(data: seq<Byte>, i: nat): Byte
  {
    if i < |data| then data[i] else 0
  }

  /** `count` octets from `from`, past the end read as 0. */
  function Octets(data: seq<Byte>, from: nat, count: nat): (r: seq<Byte>)
    ensures |r| == count
    ensures forall i :: 0 <= i < count ==> r[i] == At(data, from + i)
  {
    if from + count <= |data| then data[from..from + count]
    else seq<Byte>(count, i requires 0 <= i < count => At(data, from + i))
  }

  /** Where the payload starts for a length indicator; the mask is the 4 octets before. */
  function PayloadOffset(indicator: int): nat
  {
    if indicator == 126 then 8 else if indicator == 127 then 14 else 6
  }

  /** The payload length a header declares: 16-bit, 64-bit or the indicator itself. */
  function DeclaredLength(data: seq<Byte>, indicator: nat): nat
  {
    if indicator == 126 then FromBigEndian(Octets(data, 2, 2))
    else if indicator == 127 then FromBigEndian(Octets(data, 2, 8))
    else indicator
  }

  /**
   * `decode($data)` as written: the first two octets are read without a bounds
   * check, so a buffer of fewer than two octets reads a clear mask bit.
   */
  function DecodeFrameAsWritten(data: seq<Byte>): Decoded
  {
    var b0, b1 := At(data, 0), At(data, 1);
    if !MaskBitSet(b1) then Failed(ProtocolError)
    else match KindOf(OpcodeOf(b0))
      case None => Failed(UnknownOpcode)
      case Some(kind) =>
        var indicator := LengthIndicator(b1);
        var offset := PayloadOffset(indicator);
        var end := offset + DeclaredLength(data, indicator);
        if |data| < end then NeedMore
        else Message(kind, Masked(data[offset..end], data[offset - 4..offset]))
  }

  /** `decode($data)`, waiting for more data while even the first two octets are missing. */
  function DecodeFrame(data: seq<Byte>): Decoded
  {
    if |data| < 2 then NeedMore else DecodeFrameAsWritten(data)
  }

  /** The payload offset and the end of the frame that `decode` works out from the header. */
  method FrameBounds(data: seq<Byte>, payloadLength: nat) returns (payloadOffset: nat, dataLength: nat)
    requires payloadLength < 128
    ensures payloadOffset == PayloadOffset(payloadLength)
    ensures dataLength == payloadOffset + DeclaredLength(data, payloadLength)
  {
    if payloadLength == 126 {
      payloadOffset := 8;
      dataLength := At(data, 2) * 256 + At(data, 3) + payloadOffset;
      ghost var octets := Octets(data, 2, 2);
      assert octets[..1] == [At(data, 2)] && [At(data, 2)][..0] == [];
      assert FromBigEndian(octets) == FromBigEndian([At(data, 2)]) * 256 + At(data, 3);
    } else if payloadLength == 127 {
      payloadOffset := 14;
      var length: nat := 0;
      for i := 0 to 8
        invariant length == FromBigEndian(Octets(data, 2, i))
      {
        assert Octets(data, 2, i + 1)[..i] == Octets(data, 2, i);
        length := length * 256 + At(data, i + 2);
      }
      dataLength := length + payloadOffset;
    } else {
      payloadOffset := 6;
      dataLength := payloadLength + payloadOffset;
    }
  }

  /** The unmasking loop of `decode`: payload octets XOR-ed with the mask just before them. */
  method Unmask(data: seq<Byte>, payloadOffset: nat, dataLength: nat) returns (unmaskedPayload: seq<Byte>)
    requires 4 <= payloadOffset <= dataLength <= |data|
    ensures unmaskedPayload == Masked(data[payloadOffset..dataLength], data[payloadOffset - 4..payloadOffset])
  {
    var mask: Mask := data[payloadOffset - 4..payloadOffset];
    unmaskedPayload := [];
    for i := payloadOffset to dataLength
      invariant unmaskedPayload == Masked(data[payloadOffset..i], mask)
    {
      var j := i - payloadOffset;
      assert data[payloadOffset..i + 1][..j] == data[payloadOffset..i];
      unmaskedPayload := unmaskedPayload + [Xor(data[i], mask[j % 4])];
    }
  }

  method Decode(data: seq<Byte>) returns (r: Decoded)
    ensures r == DecodeFrame(data)
  {
    if |data| < 2 {
      return NeedMore;
    }
    assert At(data, 0) == data[0] && At(data, 1) == data[1];
    var opcode := OpcodeOf(data[0]);
    var isMasked := MaskBitSet(data[1]);
    var payloadLength := LengthIndicator(data[1]);
    if !isMasked {
      return Failed(ProtocolError);
    }
    var kind: Kind;
    match KindOf(opcode)
    case None =>
      return Failed(UnknownOpcode);
    case Some(k) =>
      kind := k;
    var payloadOffset, dataLength := FrameBounds(data, payloadLength);
    if |data| < dataLength {
      return NeedMore;
    }
    var unmaskedPayload := Unmask(data, payloadOffset, dataLength);
    r := Message(kind, unmaskedPayload);
  }

  /**
   * Decoding fails only on a clear mask bit (1002, whatever the opcode) or, the
   * mask bit being set, on an opcode outside {1, 2, 8, 9, 10} (1003).
   */
  lemma DecodeFailure(data: seq<Byte>)
    ensures DecodeFrame(data) == Failed(ProtocolError) <==> |data| >= 2 && !MaskBitSet(data[1])
    ensures DecodeFrame(data) == Failed(UnknownOpcode) <==>
      |data| >= 2 && MaskBitSet(data[1]) && OpcodeOf(data[0]) !in {1, 2, 8, 9, 10}
    ensures !DecodeFrame(data).Failed? || DecodeFrame(data).error != FrameTooLarge
  {
  }

  /**
   * A well-formed masked header: the decoder waits for more data exactly while the
   * buffer is shorter than the payload offset plus the declared length.
   */
  lemma DecodeNeedMore(data: seq<Byte>)
    requires |data| >= 2 && MaskBitSet(data[1]) && KindOf(OpcodeOf(data[0])).Some?
    ensures var indicator := LengthIndicator(data[1]);
      DecodeFrame(data).NeedMore? <==> |data| < PayloadOffset(indicator) + DeclaredLength(data, indicator)
  {
  }

  /**
   * Round trip: a masked frame the encoder builds decodes to its type and payload,
   * whatever octets follow it in the buffer.
   */
  lemma DecodeEncode(payload: seq<Byte>, k: OutKind, mask: Mask, rest: seq<Byte>)
    requires |payload| < TwoTo63
    ensures EncodeFrame(payload, k, true, mask).Ok?
    ensures DecodeFrame(EncodeFrame(payload, k, true, mask).value + rest) == Message(k, payload)
  {
    EncodeTooLarge(payload, k, true, mask);
    var f := EncodeFrame(payload, k, true, mask).value;
    var data := f + rest;
    var n, h, kind: Kind := |payload|, HeaderSize(|payload|), k;
    var indicator := LengthIndicator(data[1]);
    assert MaskBitSet(data[1]) && KindOf(OpcodeOf(data[0])) == Some(kind) &&
      PayloadOffset(indicator) == h + 4 && DeclaredLength(data, indicator) == n by {
      assert data[..|f|] == f;
      EncodedFields(payload, k, mask, data);
    }
    assert data[h..h + 4] == mask && data[h + 4..h + 4 + n] == Masked(payload, mask) by {
      var head := [FirstByte(k)] + LengthField(n, true);
      assert |head| == h && data == head + mask + Masked(payload, mask) + rest;
    }
    DecodeComplete(data, kind, h + 4, n);
    MaskedTwice(payload, mask);
  }

  /** A masked header with a known opcode, followed by the whole declared payload. */
  lemma DecodeComplete(data: seq<Byte>, kind: Kind, offset: nat, n: nat)
    requires |data| >= 2 && MaskBitSet(data[1]) && KindOf(OpcodeOf(data[0])) == Some(kind)
    requires PayloadOffset(LengthIndicator(data[1])) == offset
    requires DeclaredLength(data, LengthIndicator(data[1])) == n && offset + n <= |data|
    ensures DecodeFrame(data) == Message(kind, Masked(data[offset..offset + n], data[offset - 4..offset]))
  {
  }

  /** What the decoder reads from the header of a masked frame, or of a prefix holding its header. */
  lemma EncodedFields(payload: seq<Byte>, k: OutKind, mask: Mask, data: seq<Byte>)
    requires |payload| < TwoTo64 && EncodeFrame(payload, k, true, mask).Ok?
    requires var f := EncodeFrame(payload, k, true, mask).value;
      2 <= |data| && (|data| <= |f| ==> data == f[..|data|]) && (|f| < |data| ==> data[..|f|] == f)
    ensures var n, indicator := |payload|, LengthIndicator(data[1]);
      MaskBitSet(data[1]) && OpcodeOf(data[0]) == Opcode(k) &&
      PayloadOffset(indicator) == HeaderSize(n) + 4 &&
      (|data| >= HeaderSize(n) ==> DeclaredLength(data, indicator) == n)
  {
    var f := EncodeFrame(payload, k, true, mask).value;
    EncodeHeader(payload, k, true, mask);
    var n := |payload|;
    assert data[0] == f[0] && data[1] == f[1];
    if |data| >= HeaderSize(n) {
      var h := HeaderSize(n);
      assert data[..h] == f[..h];
      assert Octets(data, 2, h - 2) == data[..h][2..];
      if n > 65535 {
        assert Octets(data, 2, 8) == f[2..10];
      } else if n > 125 {
        assert Octets(data, 2, 2) == f[2..4];
      }
    }
  }

  /** A frame the server sends unmasked is refused by its own decoder with 1002. */
  lemma DecodeUnmaskedEncode(payload: seq<Byte>, k: OutKind, mask: Mask)
    requires |payload| < TwoTo64 && EncodeFrame(payload, k, false, mask).Ok?
    ensures DecodeFrame(EncodeFrame(payload, k, false, mask).value) == Failed(ProtocolError)
  {
    EncodeHeader(payload, k, false, mask);
  }

  /** Every strict prefix of a masked frame asks for more data. */
  lemma DecodePrefixNeedsMore(payload: seq<Byte>, k: OutKind, mask: Mask, j: nat)
    requires |payload| < TwoTo64 && EncodeFrame(payload, k, true, mask).Ok?
    requires j < |EncodeFrame(payload, k, true, mask).value|
    ensures DecodeFrame(EncodeFrame(payload, k, true, mask).value[..j]) == NeedMore
  {
    var f := EncodeFrame(payload, k, true, mask).value;
    EncodeBody(payload, k, true, mask);
    if j >= 2 {
      EncodedFields(payload, k, mask, f[..j]);
    }
  }

  /**
   * As written, the first octet of any masked frame, read on its own, is refused
   * as unmasked (1002) rather than held as the start of a frame.
   */
  lemma OneOctetRefusedAsWritten(payload: seq<Byte>, k: OutKind, mask: Mask)
    requires |payload| < TwoTo63
    ensures EncodeFrame(payload, k, true, mask).Ok?
    ensures var f := EncodeFrame(payload, k, true, mask).value;
      1 < |f| && DecodeFrameAsWritten(f[..1]) == Failed(ProtocolError) && DecodeFrame(f) == Message(k, payload)
  {
    EncodeTooLarge(payload, k, true, mask);
    DecodeEncode(payload, k, mask, []);
    var f := EncodeFrame(payload, k, true, mask).value;
    assert f + [] == f;
  }
}
