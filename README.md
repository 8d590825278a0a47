# Neocore EEG headset client: protocol codec and session layer

This project models the protocol core of the Neocore client in
`neocore_client.py`, a Python driver for a BLE EEG headset, and proves
properties of that model. The core has five parts:

- **Command encoder** (`send_command`). It packs a feature id, a PDU type
  and a PDU id into a 16-bit command id: `(feature << 9) | (type << 7) | id`.
  The id goes out as two big-endian bytes, followed by the payload.
- **Demultiplexer** (`handle_notification`). A frame whose first byte is
  `0x04` is EEG data. Any other non-empty frame is a reply.
- **Reply decoder** (`parse_response`). It unpacks the header. A RESPONSE
  for CORE/GET_SERIAL sets the session's serial number. The payload is
  decoded as UTF-8, or rendered in hexadecimal when it is not UTF-8. A
  RESPONSE for BATTERY/GET_BATTERY with a payload sets the battery level
  to the first payload byte.
- **EEG decoder** (`parse_eeg_packet`). It reads a little-endian 16-bit
  index, then the 8-byte strides of the remainder. Each stride holds one
  signed little-endian 32-bit sample for channel 1 and one for channel 2.
- **Command sequences.** The frames written after connecting, and those
  written by `start_streaming` and `stop_streaming`.

Files:

- `wrappers.dfy`: `Option` and `Result`.
- `bits.dfy`: Python's `|` and `&` on unbounded non-negative integers,
  defined bit by bit. A field that is too wide really does spill into its
  neighbour.
- `ints.dfy`: bytes and `int.from_bytes(..., "little")`, unsigned and
  signed, with the encoders they invert.
- `protocol.dfy`: the header encoder and decoder, the protocol constants
  and the fixed command sequences.
- `eeg.dfy`: the EEG frame decoder. It is a pure specification plus the
  imperative loop of the source, proved equal to it. It also has a frame
  builder for the round trip.
- `utf8.dfy`: strict UTF-8, as `bytes.decode()` applies it. This is the
  well-formed byte sequences of table 3-7 of the Unicode Standard
  (chapter 3, section 3.9), plus the encoder and both round trips.
- `hex.dfy`: `bytes.hex()` and its inverse.
- `session.dfy`: the session state, the effect of a reply on it, and the
  client class. The class's `ParseResponse` and `HandleNotification`
  methods update its two fields in place.

Python integers are unbounded, so the header fields and the command id
are `nat` and no width is assumed for them. The one width the source
enforces is that of `int.to_bytes(2, "big")`, which raises `OverflowError`
for a command id of 65536 or more. The model returns `Err(OverflowError)`
there. Bytes are integers in `0..255`, and EEG samples are integers in the
signed 32-bit range.

Facts about the code that the lemmas make explicit:

- The code checks no field range. A feature id of 128 or more overflows
  `to_bytes` (`Protocol.FeatureOverflowFails`). An oversized PDU id or PDU
  type spills into its neighbour (`Protocol.PduIdOverflowAliases`,
  `Protocol.PduTypeOverflowAliases`).
- CORE / RESPONSE / GET_SERIAL is header `01 01`
  (`Session.SerialHeaderValue`). Header `02 81` is SENSOR_CONFIG /
  NOTIFICATION / 1, and the client ignores it
  (`Session.NotificationHeaderValue`).
- The decoders raise no error on short input. `parse_response` returns
  and leaves the state unchanged, and `parse_eeg_packet` returns None.
- The client keeps no streaming flag. The session has only the serial
  number and the battery level.

## Model

| member | source | states |
|---|---|---|
| Protocol.CommandId | neocore_client.py:77 | the packed id is at least each shifted field and at most their sum (the ors never carry) |
| Protocol.EncodeCommand | neocore_client.py:77-78 | encoding succeeds exactly when the packed command id is below 65536; the frame is the id's two big-endian bytes followed by the payload unchanged |
| Protocol.CommandIdPacks | neocore_client.py:77 | for fields within 7, 2 and 7 bits the two ors are additions, and the id fits in 16 bits |
| Protocol.FrameLayout | neocore_client.py:77-78 | for fields within their widths the frame is `[feature*2 + type/2, (type%2)*128 + id] + data` |
| Protocol.FeatureOverflowFails | neocore_client.py:77-78 | a feature id of 128 or more always makes `to_bytes` raise OverflowError |
| Protocol.PduIdOverflowAliases | neocore_client.py:77 | with no range check, PDU id 128 gives the same frame as PDU id 0 of the next (odd) PDU type |
| Protocol.PduTypeOverflowAliases | neocore_client.py:77 | PDU type 4 gives the same frame as PDU type 0 of the next (odd) feature |
| Protocol.DecodeResponse | neocore_client.py:105-111 | a frame yields a header exactly when it has at least two bytes; the payload is `data[2:]` |
| Protocol.UnpackHeader | neocore_client.py:108-111 | the masked PDU type is at most 3 and the masked PDU id at most 127; the payload is passed through |
| Protocol.ResponseHeaderBytes | neocore_client.py:107-110 | the shifts and masks give feature `data[0] >> 1`, PDU type `(data[0] & 1) << 1 | data[1] >> 7` and PDU id `data[1] & 0x7F` |
| Protocol.DecodedFieldsFit | neocore_client.py:107-110 | every decoded header has fields within 7, 2 and 7 bits |
| Protocol.HeaderRoundTrip | neocore_client.py:107-111 | decoding the frame `send_command` builds gives back its three fields and its payload |
| Protocol.DecodedResponseReencodes | neocore_client.py:107-111 | every frame of two or more bytes is exactly the encoding of the header and payload it decodes to |
| Protocol.EegMarkerIsSensorStream | neocore_client.py:97 | a first byte of `0x04` is exactly a SENSOR_STREAM header with PDU type COMMAND or NOTIFICATION, so no RESPONSE is ever routed to the EEG decoder |
| Protocol.Command | neocore_client.py:77-78 | for fields within their widths, encoding succeeds and yields the two-byte header layout followed by the payload |
| Protocol.IdentifyCommands | neocore_client.py:65-67 | the identification requests are GET_SERIAL `00 01`, then GET_BATTERY `06 00` |
| Protocol.SensorCfgCommand | neocore_client.py:84-90 | a one-byte SENSOR_CONFIG command is `02 <pdu id> <flag>` |
| Protocol.StartStreaming | neocore_client.py:82-86 | `start_streaming` writes `02 01 01` only when the test signal is requested, then `02 00 01` |
| Protocol.StopStreaming | neocore_client.py:88-90 | `stop_streaming` writes `02 00 00`, then `02 01 00` |
| Protocol.SensorCfgCommandDecodes | neocore_client.py:84-90 | each streaming frame decodes as a SENSOR_CONFIG COMMAND with its PDU id and one-byte payload |
| Protocol.StreamingCommandsDecode | neocore_client.py:82-90 | start's last frame enables STREAM_CTRL and its optional first frame enables TEST_SIGNAL_CTRL; stop disables STREAM_CTRL, then TEST_SIGNAL_CTRL |
| Bits.Or | neocore_client.py:77 | `a \| b` is at least each operand and at most their sum |
| Bits.And | neocore_client.py:109-110 | `a & b` is at most each operand |
| Bits.OrDisjoint | neocore_client.py:77 | or-ing a value below `2^k` onto `a << k` is addition |
| Bits.AndLowMask | neocore_client.py:109-110 | `a & (2^k - 1)` is `a % 2^k` |
| Ints.FromBytesLittle | neocore_client.py:128 | an unsigned little-endian value of `n` bytes is below `256^n` |
| Ints.FromBytesLittleTwo | neocore_client.py:128 | the two-byte index is `data[2] + 256 * data[3]` |
| Ints.FromBytesLittleSigned | neocore_client.py:134-135 | a signed little-endian value of `n` bytes lies in `[-256^n/2, 256^n/2)` |
| Ints.FromToLittle | neocore_client.py:128 | reading back the little-endian bytes of `n` gives `n` |
| Ints.ToFromLittle | neocore_client.py:128 | every byte string is the little-endian encoding of the value it reads as |
| Ints.FromToLittleSigned | neocore_client.py:134-135 | reading back the two's-complement bytes of `v` gives `v` |
| Ints.ToFromLittleSigned | neocore_client.py:134-135 | every non-empty byte string is the two's-complement encoding of its signed value |
| Eeg.Sample | neocore_client.py:134-135 | every sample is a signed 32-bit value |
| Eeg.Channel | neocore_client.py:132-135 | a channel has one entry per complete 8-byte stride, and entry `k` is the sample at offset `8k` plus the lane |
| Eeg.ParseEeg | neocore_client.py:124-136 | a frame under four bytes yields None; otherwise both channels have `(len - 4) / 8` samples |
| Eeg.ParseEegPacket | neocore_client.py:124-136 | the `for` loop over the strides builds exactly the packet `ParseEeg` describes |
| Eeg.ParseEegIndex | neocore_client.py:125-128 | every frame of four or more bytes decodes, with index `data[2] + 256 * data[3]` |
| Eeg.ParseEegLayout | neocore_client.py:128-135 | in a frame with at least one complete stride, sample `k` of each channel is read from absolute offsets `4 + 8k` and `8 + 8k` (and the index is as in ParseEegIndex) |
| Eeg.LengthByteIgnored | neocore_client.py:127 | the length byte `data[1]` never changes the decoded packet |
| Eeg.TrailingBytesDropped | neocore_client.py:132-133 | up to seven bytes after the last complete stride are dropped without error |
| Eeg.Int32RoundTrip | neocore_client.py:134 | the signed decoder reads back each encoded 32-bit sample |
| Eeg.EegFrameRoundTrip | neocore_client.py:124-136 | decoding a frame built from an index and two equally long channels, with any length byte and a short tail, gives them back |
| Eeg.HeaderOnlyFrame | neocore_client.py:125-136 | `04 00 05 00` decodes to index 5 with two empty channels |
| Eeg.OneStrideFrame | neocore_client.py:132-136 | a frame with one stride holding 1 and 2 decodes to channel 1 `[1]` and channel 2 `[2]` |
| Utf8.DecodeFirst | neocore_client.py:116 | a decoded character consumes one to four bytes; only an empty input or a non-ASCII first byte can fail |
| Utf8.Decode | neocore_client.py:116 | a decoded text has between a quarter of the byte count and the byte count in characters; with the round trips below, decoding succeeds exactly on UTF-8 encodings |
| Utf8.AsciiDecodes | neocore_client.py:116 | ASCII bytes always decode, one character per byte, with the same value |
| Utf8.DecodeEncode | neocore_client.py:116 | every string decodes from its UTF-8 encoding |
| Utf8.EncodeDecode | neocore_client.py:116 | a byte string that decodes is exactly the encoding of the text it decodes to |
| Hex.Hex | neocore_client.py:118 | `hex()` writes two lower-case hexadecimal digits per byte |
| Hex.FromHexOfHex | neocore_client.py:118 | the bytes are recovered from their hexadecimal text |
| Hex.HexOfFromHex | neocore_client.py:118 | text that parses as lower-case hexadecimal is the `hex()` of what it parses to |
| Session.SerialText | neocore_client.py:115-118 | the stored text is either the UTF-8 decoding of the payload (it encodes back to the payload) or its hexadecimal form (it parses back to the payload) |
| Session.SerialOfText | neocore_client.py:116 | a payload that is valid UTF-8 is stored as its text |
| Session.SerialOfDecodable | neocore_client.py:115-116 | every payload that is valid UTF-8 is stored as its decoding |
| Session.SerialOfBinary | neocore_client.py:117-118 | a payload that is not UTF-8 is stored as its hexadecimal form, twice as long and parseable back to the payload |
| Session.SerialTextAmbiguous | neocore_client.py:115-118 | because of the fallback, payload `AB` and payload `61 62` ("ab") are stored as the same serial number |
| Session.AfterResponse | neocore_client.py:113-121 | a reply changes at most one of the two session fields |
| Session.SerialResponseSetsSerial | neocore_client.py:113-118 | a frame starting `01 01` sets the serial number to the text of `data[2:]` and leaves the battery level |
| Session.BatteryResponseSetsBattery | neocore_client.py:120-121 | a frame `07 00 b ...` sets the battery level to `b` and leaves the serial number |
| Session.EmptyBatteryResponseIgnored | neocore_client.py:120 | a battery reply without payload changes nothing |
| Session.UnrecognisedFrameIgnored | neocore_client.py:104-121 | a frame shorter than two bytes, or whose header is neither `01 01` nor `07 00` followed by at least one payload byte, changes nothing |
| Session.AfterResponseIdempotent | neocore_client.py:113-121 | receiving the same reply twice has the effect of receiving it once |
| Session.EegFrameIsNoResponse | neocore_client.py:97-102 | a frame starting with `0x04` would change nothing even if handed to `parse_response` |
| Session.EncodedSerialReply | neocore_client.py:114-116 | a CORE / RESPONSE / GET_SERIAL reply built by the encoder around UTF-8 text stores that text |
| Session.EncodedBatteryReply | neocore_client.py:120-121 | a BATTERY / RESPONSE / GET_BATTERY reply built by the encoder stores its first payload byte |
| Session.SerialHeaderValue | neocore_client.py:77-78 | the header of CORE / RESPONSE / GET_SERIAL is `01 01` |
| Session.NotificationHeaderValue | neocore_client.py:107-113 | header `02 81` is SENSOR_CONFIG / NOTIFICATION / 1 and changes nothing |
| Session.BatteryExample | neocore_client.py:120-121 | the reply `07 00 5A` records battery level 90 |
| Session.NeocoreClient.constructor | neocore_client.py:42-45 | a new client knows neither serial number nor battery level |
| Session.NeocoreClient.ParseResponse | neocore_client.py:104-122 | the method's new state is `AfterResponse` of the old state and the frame |
| Session.NeocoreClient.HandleNotification | neocore_client.py:93-102 | an empty frame does nothing; a `0x04` frame yields `ParseEeg(data)` and leaves the state; any other frame goes to `ParseResponse`; in every case the new state is `AfterResponse` of the old |

## Left out

- The BLE transport is not modelled. That covers discovery and connection
  in `scan_and_connect` (lines 47-61), `disconnect` (69-72),
  `start_notify`, and `write_gatt_char` (80). Commands are modelled as the
  frames they write. The UUIDs and `TARGET_NAMES` serve only discovery.
- The `client` field and the "Not connected" `RuntimeError` of
  `send_command` (75-76) are not modelled, because there is no connection
  state.
- Every `print` is left out (79, 100, 112, 119, 122).
  `Session.NeocoreClient.HandleNotification` returns the decoded EEG
  packet instead of printing its summary.
- The `asyncio.sleep` pauses (64, 66, 85) are timing only and are not
  modelled.
- The `sender` argument of `handle_notification` is unused.
- Concurrency is not modelled: each notification is processed as one
  atomic step.
- `main` is not modelled.
- Protocol.EncodeCommand: the field arguments are `nat`, so Python's
  shifts and ors on negative integers are not modelled.
- Utf8.Decode: only success or failure of `bytes.decode()` is modelled.
  The position and message of the `UnicodeDecodeError` are not, because
  the code catches the error at once.

