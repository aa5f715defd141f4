# WebSocket chat server core, modelled in Dafny

This project models the protocol core of a small PHP WebSocket chat server
(`_index.php`): the frame encoder `encode`, the frame decoder `decode`, the
header parsing and response building of `handshake`, and the two rules by which
the main loop changes its list of open connections. The frame format is the one
of section 5.2 of RFC 6455, masking follows section 5.3, and the opening
handshake follows section 4.2.

Modules:

- `Bytes` (`bytes.dfy`): octets (integers 0 to 255, the values of `ord`), the
  4-octet mask, big-endian length
  fields (`BigEndian` / `FromBigEndian`, the `sprintf('%064b')` / `bindec`
  conversions of the source) and XOR masking (`Masked`, over a bit-by-bit `Xor`).
- `Codec` (`codec.dfy`): `EncodeFrame` and `DecodeFrame` state what `encode` and
  `decode` return; the methods `FrameHead`, `Encode`, `FrameBounds`, `Unmask` and
  `Decode` build the same results with the loops the source uses and are proved
  equal to them. The lemmas give the header layout, the 1004 condition, the error
  cases of the decoder, and the round trip: a masked frame decodes to its type
  and payload.
- `Handshake` (`handshake.dfy`): `rtrim`, the header regular expression, `explode`,
  the header loop (`Collect`, last value wins, stops at the first empty or
  non-matching line), and `Handshake`, which builds the `$info` array and the
  101 response, or fails when `Sec-WebSocket-Key` is missing or empty.
- `Registry` (`registry.dfy`): `$connections` as a class over a map from integer
  keys to sockets, with PHP's append and `unset(array_search(...))`, and one
  turn of the loop for a ready listener (`OnAccept`) and for a ready connection
  (`OnRead`).

The source closes a connection on any read PHP treats as false (`if ($data)`,
`_index.php:34`): an empty read, a failed `fread` (false), and also the one-octet
read "0". The model's `OnRead` closes on an empty read only, the corrected rule
recorded under Findings; a failed read is given to it as the empty read. A decode
error or a close frame does not close a connection, in the source and the model.

The socket, the random mask and the SHA-1/base64 digest are parameters: a
handshake takes the lines `fgets` would return, the peer name, and the digest
function `accept`; `Encode` takes the four mask octets.

## Model

| member | source | states |
|---|---|---|
| Bytes.BigEndian | _index.php:107 | the length written in binary and cut into octets has exactly `width` octets |
| Bytes.FromBigEndian | _index.php:200-204 | the value read from k octets is below 256^k |
| Bytes.FromBigEndianInverse | _index.php:196-204 | reading back the octets of a length that fits gives the length |
| Bytes.BigEndianInverse | _index.php:107-111 | writing the value of k octets as k octets gives the same octets |
| Bytes.BigEndianHead | _index.php:110 | the first octet of a k-octet length is the length divided by 256^(k-1) |
| Bytes.TopBitOf64 | _index.php:112-115 | the first octet of the 64-bit length exceeds 127 exactly when the length is at least 2^63 |
| Bytes.Masked | _index.php:141-143 | octet i of a masked payload is the payload octet XOR the mask octet at i mod 4 |
| Bytes.XorBitsTwice | _index.php:141 | XOR-ing a value twice with the same bits gives it back, the property of `^` that unmasking relies on |
| Bytes.MaskedTwice | _index.php:222-227 | unmasking with the same key gives back the original octets |
| Codec.KindOf | _index.php:164-191 | exactly the opcodes 1, 2, 8, 9 and 10 are known, each naming the type with that opcode |
| Codec.FirstByte | _index.php:83-103 | the first octet is 129, 136, 137 or 138: FIN set and the opcode of text, close, ping or pong |
| Codec.ShortLengthOctet | _index.php:122 | a length up to 125 in the second octet reads back as itself, with the mask bit as requested |
| Codec.FrameHead | _index.php:105-123 | the header octets are the first octet followed by the 7-bit, 16-bit or 64-bit length field chosen by size, mask bit included |
| Codec.Encode | _index.php:79-146 | the frame built by the loops is the specified frame, or the 1004 error |
| Codec.EncodeTooLarge | _index.php:112-115 | encoding fails, with 1004, exactly for payloads of 2^63 octets or more |
| Codec.EncodeHeader | _index.php:105-123 | first octet by type; mask bit as requested; length up to 125 in the second octet, up to 65535 as 126 plus 16 bits, above as 127 plus 64 bits |
| Codec.EncodeBody | _index.php:129-145 | the frame is header, then the mask if masked, then each payload octet XOR-ed with the mask or copied; its length adds up |
| Codec.FrameBounds | _index.php:193-210 | payload offset 8 with a 16-bit length for indicator 126, 14 with a 64-bit length for 127, 6 otherwise |
| Codec.Unmask | _index.php:221-228 | the unmasking loop yields the payload XOR-ed with the 4 octets before the offset |
| Codec.Decode | _index.php:148-235 | the decoding method returns the specified decoded frame, need-more-data or error |
| Codec.DecodeFailure | _index.php:159-191 | 1002 exactly when the mask bit is clear, whatever the opcode; otherwise 1003 exactly for an opcode outside 1, 2, 8, 9, 10; never 1004 |
| Codec.DecodeNeedMore | _index.php:193-219 | with a valid header, need-more-data exactly when the buffer is shorter than offset plus declared length |
| Codec.DecodeComplete | _index.php:217-228 | a valid header followed by its whole payload decodes to the type and the unmasked payload |
| Codec.EncodedFields | _index.php:193-210 | the decoder reads from a masked frame's header the mask bit, the opcode, the offset and the declared length the encoder wrote |
| Codec.DecodeEncode | _index.php:129-228 | a masked frame of any type and payload decodes to that type and payload, whatever follows it in the buffer |
| Codec.DecodeUnmaskedEncode | _index.php:160-162 | an unmasked frame the server itself builds is refused with 1002 |
| Codec.DecodePrefixNeedsMore | _index.php:217-219 | every strict prefix of a masked frame asks for more data |
| Codec.OneOctetRefusedAsWritten | _index.php:153-162 | as written, the first octet of a masked frame read alone is refused with 1002 |
| Handshake.RTrim | _index.php:54 | the trimmed line is a prefix of the line, every dropped character is trimmable and the kept line does not end in one |
| Handshake.FirstSpace | _index.php:55 | the index of the first white space character, or the length when there is none |
| Handshake.MatchHeaderIff | _index.php:55 | the header pattern matches exactly the lines name, colon, space, value, with a non-empty name without white space and a value without line feed |
| Handshake.Explode | _index.php:50 | the pieces of a split contain no separator and joined with it give back the string |
| Handshake.HeaderCount | _index.php:54-60 | the loop stores the lines before the first one that is empty, "0" or not a header, and stops at that one |
| Handshake.CollectKeeps | _index.php:54-60 | a name no stored line carries keeps its earlier entry, or stays absent |
| Handshake.CollectLastWins | _index.php:56 | a name holds the value of the last stored line carrying it |
| Handshake.Handshake | _index.php:46-77 | the method's result is the specified outcome: the `$info` array and the 101 response, or failure |
| Handshake.HandshakeWithoutKey | _index.php:66-68 | with no stored Sec-WebSocket-Key line the handshake fails |
| Handshake.HandshakeWithKey | _index.php:66-74 | the last Sec-WebSocket-Key line decides: failure when its value is empty or "0", otherwise the response carries the token of that value followed by the GUID |
| Handshake.HandshakePeer | _index.php:62-64 | on success `$info` holds the two sides of the peer name as ip and port, whatever the headers say |
| Handshake.HandshakeRequestLine | _index.php:50-52 | for a request line `method SP uri` followed by nothing or a space, `$info` holds that method and URI unless a stored header line is named "method" or "uri" |
| Handshake.HandshakeHeaderWins | _index.php:51-58 | the last stored line carrying a name sets it in `$info`, overwriting the request line's method or URI when it is named so; only ip and port are written later |
| Handshake.ExplodeCons | _index.php:50 | a separator-free piece before the first separator is the first element of `explode`, and the rest explodes on its own |
| Handshake.ExplodeHead | _index.php:50 | a separator-free prefix ending at a separator or at the end is the first element of `explode` |
| Handshake.ExplodeTwo | _index.php:62 | a string with one separator splits into its two sides |
| Handshake.ResponseCarriesToken | _index.php:72 | the token read back from between the fixed head and tail of the response is the accept token |
| Registry.ListenerDroppedAsWritten | _index.php:14 | as written, while key 0 holds a connection the listener is not among the channels waited on |
| Registry.ReadChannels | _index.php:14 | the listener and every registered connection are waited on, and no other connection |
| Registry.ZeroOctetClosesAsWritten | _index.php:34 | as written, a read of the single octet "0" is taken for a disconnect |
| Registry.Connections.constructor | _index.php:11 | the list starts empty |
| Registry.Connections.Search | _index.php:38 | the first key holding the socket, or none exactly when the socket is not listed |
| Registry.Connections.Append | _index.php:23 | the socket goes in under the next key and nothing else changes |
| Registry.Connections.Remove | _index.php:38 | exactly the entry of the socket is removed; a socket not listed removes key 0 |
| Registry.Connections.OnAccept | _index.php:21-26 | the accepted socket joins the list exactly when its handshake succeeds |
| Registry.Connections.OnRead | _index.php:31-40 | an empty read removes exactly that connection, every other socket keeping its key; any other read leaves the list alone |

## Findings

| source | as written | input that shows it | evidently intended | confidence | as-written member | corrected member |
|---|---|---|---|---|---|---|
| _index.php:153-162 | `$data[0]` and `$data[1]` are read without a length check; a missing octet reads as 0, so a short buffer has a clear mask bit and is refused with 1002 | the first octet 0x81 of a masked text frame, received alone | a buffer too short for the header waits for more data, like one too short for the payload | medium, not executed | Codec.OneOctetRefusedAsWritten | Codec.DecodePrefixNeedsMore |
| _index.php:14 | `$connections + [$server]` is a union by key, so the listener at key 0 is dropped while a connection holds key 0 | one open connection at key 0, the first client, while a second client connects | the listener is always waited on | high, not executed | Registry.ListenerDroppedAsWritten | Registry.ReadChannels |
| _index.php:34 | `if ($data)` is false for the string "0", so that read closes a live connection | a read returning the single octet 0x30 | only a read of no octets means the peer has closed | high, not executed | Registry.ZeroOctetClosesAsWritten | Registry.Connections.OnRead |

The model's `DecodeFrame` waits for more data on fewer than two octets (the
corrected decoder), and `DecodeFrameAsWritten` keeps the source's reading of
missing octets as 0. `OnRead` closes only on an empty read, where the source
also closes on the read "0".

## Left out

- Socket I/O (`stream_socket_server`, `stream_select`, `stream_socket_accept`, `fgets`, `fread`, `fwrite`, `fclose`, `stream_socket_get_name`): the handshake takes the lines already read and the peer name; the response is returned instead of written.
- The `while (true)` loop around `stream_select`: only one turn's effect on the list is modelled (`OnAccept`, `OnRead`) and the channel set it waits on; a failing `stream_select`, which ends the loop, is not.
- SHA-1 and base64 of the accept token: the digest is the parameter `accept`, applied to the key followed by the GUID; the RFC 6455 test vectors cannot be checked without it.
- `rand` for the mask: the four mask octets are a parameter of `Encode`.
- The callbacks `onOpen`, `onClose` and `onMessage`: application output. The source decodes each read on its own in `onMessage` and keeps no per-connection buffer, so a frame split across reads is lost; the model has no buffer either.
- `encode` with a type other than the four it knows (no default case): the type is restricted to `OutKind`.
- PHP's integer and float limits: lengths are exact naturals. `bindec` of a 64-bit length of 2^63 or more gives a float in PHP; the model reads the exact value. `Encode` requires fewer than 2^64 octets; PHP strings are shorter than 2^63 octets, so its 1004 branch cannot be reached there.
- The `else` branch of `decode` for unmasked payloads (lines 229-232): it cannot be reached, since unmasked frames are refused first.
- The FIN and reserved bits of a received frame: the decoder ignores them, as the source does; continuation frames (opcode 0) are refused with 1003.
- `$header[1]` or `$clientAddr[1]` missing: PHP gives null, which the model reads as the empty string.
- A failed `fread` (false): the model's `OnRead` takes it as the empty read, which the source also closes on.
- Registry.Connections.Append: requires the socket not to be listed already; `stream_socket_accept` always yields a new socket, and the list's invariant relies on sockets being distinct.
- Registry.Connections.OnRead: requires the socket to be listed; the loop only reads sockets taken from the list.
- Handshake.HandshakePeer: stated for a peer name with a single colon; IPv6 names are split at every colon by `explode` and are not covered by the lemma.
