/**
 * The Neocore command header: how `send_command` packs a
 * (feature id, PDU type, PDU id) triple into two big-endian bytes, how
 * `parse_response` unpacks it again, and the fixed command sequences the
 * client writes.
 */
module Protocol {
  import opened Wrappers
  import opened Ints
  import opened Bits

  // Feature ids
  const CoreFeature: nat := 0x00
  const SensorCfgFeature: nat := 0x01
  const SensorStreamFeature: nat := 0x02
  const BatteryFeature: nat := 0x03

  // PDU types
  const PduCommand: nat := 0
  const PduNotification: nat := 1
  const PduResponse: nat := 2
  const PduError: nat := 3

  // Command ids (each is relative to its feature)
  const CmdGetSerial: nat := 0x01
  const CmdGetBattery: nat := 0x00
  const CmdStreamCtrl: nat := 0x00
  const CmdTestSignalCtrl: nat := 0x01

  /** First byte of an EEG sample frame. */
  const EegPacketType: byte := 0x04

  /** The widths the header reserves: 7, 2 and 7 bits. The encoder does not check them. */
  predicate FieldsFit(featureId: nat, pduType: nat, pduId: nat)
  {
    featureId < 128 && pduType < 4 && pduId < 128
  }

  /** `((feature_id << 9) | (pdu_type << 7)) | pdu_id`, on unbounded integers. */
  function CommandId(featureId: nat, pduType: nat, pduId: nat): (r: nat)
    ensures featureId * 512 <= r && pduType * 128 <= r && pduId <= r
    ensures r <= featureId * 512 + pduType * 128 + pduId
  {
    Or(Or(featureId * 512, pduType * 128), pduId)
  }

  /** `int.to_bytes(2, "big")` raises OverflowError for a value that needs more than 16 bits. */
  datatype EncodeError = OverflowError

  /**
   * The bytes `send_command` writes: the command id as two big-endian bytes,
   * then the payload unchanged.
   */
  function EncodeCommand(featureId: nat, pduType: nat, pduId: nat, data: seq<byte>): (r: Result<seq<byte>, EncodeError>)
    ensures r.Ok? <==> CommandId(featureId, pduType, pduId) < 0x1_0000
    ensures r.Ok? ==> |r.value| == 2 + |data| && r.value[2..] == data
    ensures r.Ok? ==> r.value[0] as int * 256 + r.value[1] == CommandId(featureId, pduType, pduId)
  {
    var cmdId := CommandId(featureId, pduType, pduId);
    if cmdId < 0x1_0000 then Ok([cmdId / 256, cmdId % 256] + data) else Err(OverflowError)
  }

  /** Fields within their widths occupy disjoint bits, so the ors are sums. */
  lemma CommandIdPacks(featureId: nat, pduType: nat, pduId: nat)
    requires FieldsFit(featureId, pduType, pduId)
    ensures CommandId(featureId, pduType, pduId) == featureId * 512 + pduType * 128 + pduId
    ensures CommandId(featureId, pduType, pduId) < 0x1_0000
  {
    assert Pow2(7) == 128 && Pow2(9) == 512;
    OrDisjoint(featureId, 9, pduType * 128);
    assert featureId * 512 + pduType * 128 == (featureId * 4 + pduType) * Pow2(7);
    OrDisjoint(featureId * 4 + pduType, 7, pduId);
  }

  /**
   * For fields within their widths the frame is
   * `[feature_id << 1 | pdu_type >> 1, (pdu_type & 1) << 7 | pdu_id] + data`.
   */
  lemma FrameLayout(featureId: nat, pduType: nat, pduId: nat, data: seq<byte>)
    requires FieldsFit(featureId, pduType, pduId)
    ensures EncodeCommand(featureId, pduType, pduId, data)
         == Ok([featureId * 2 + pduType / 2, (pduType % 2) * 128 + pduId] + data)
  {
    CommandIdPacks(featureId, pduType, pduId);
    var cmdId := CommandId(featureId, pduType, pduId);
    DivModUnique(cmdId, 256, featureId * 2 + pduType / 2, (pduType % 2) * 128 + pduId);
  }

  /** A feature id of 128 or more always makes `to_bytes` raise. */
  lemma FeatureOverflowFails(featureId: nat, pduType: nat, pduId: nat, data: seq<byte>)
    requires featureId >= 128
    ensures EncodeCommand(featureId, pduType, pduId, data) == Err(OverflowError)
  {
    assert CommandId(featureId, pduType, pduId) >= 128 * 512;
  }

  /**
   * With no range check, PDU id 128 is not rejected: it sets the low bit of
   * the PDU type. For an even PDU type the frame is the one for the next
   * PDU type and PDU id 0.
   */
  lemma PduIdOverflowAliases(featureId: nat, pduType: nat, data: seq<byte>)
    requires featureId < 128 && pduType < 4 && pduType % 2 == 0
    ensures EncodeCommand(featureId, pduType, 128, data) == EncodeCommand(featureId, pduType + 1, 0, data)
  {
    var high := featureId * 2 + pduType / 2;
    assert Or(featureId * 512, pduType * 128) == high * 256 by {
      assert Pow2(9) == 512;
      OrDisjoint(featureId, 9, pduType * 128);
    }
    assert CommandId(featureId, pduType, 128) == high * 256 + 128 by {
      assert Pow2(8) == 256;
      OrDisjoint(high, 8, 128);
    }
    CommandIdPacks(featureId, pduType + 1, 0);
    assert CommandId(featureId, pduType, 128) == CommandId(featureId, pduType + 1, 0);
  }

  /**
   * Likewise PDU type 4 is not rejected: it sets the low bit of the feature
   * id. For an even feature id the frame is the one for the next feature
   * and PDU type 0.
   */
  lemma PduTypeOverflowAliases(featureId: nat, pduId: nat, data: seq<byte>)
    requires featureId < 127 && featureId % 2 == 0 && pduId < 128
    ensures EncodeCommand(featureId, 4, pduId, data) == EncodeCommand(featureId + 1, 0, pduId, data)
  {
    var next := featureId + 1;
    assert Or(featureId * 512, 4 * 128) == next * 512 by {
      assert Pow2(10) == 1024;
      assert featureId * 512 == (featureId / 2) * 1024;
      OrDisjoint(featureId / 2, 10, 512);
    }
    assert CommandId(featureId, 4, pduId) == next * 512 + pduId by {
      assert Pow2(7) == 128;
      assert next * 512 == (next * 4) * 128;
      OrDisjoint(next * 4, 7, pduId);
    }
    CommandIdPacks(next, 0, pduId);
    assert CommandId(featureId, 4, pduId) == CommandId(next, 0, pduId);
  }

  /** A decoded reply: the three header fields and `data[2:]`. */
  datatype Response = Response(featureId: nat, pduType: nat, pduId: nat, payload: seq<byte>)

  /**
   * The header unpacking of `parse_response`:
   * `command_id = (data[0] << 8) | data[1]`, `feature_id = command_id >> 9`,
   * `pdu_type = (command_id >> 7) & 0x03`, `pdu_id = command_id & 0x7F`.
   * A frame shorter than two bytes yields nothing.
   */
  function DecodeResponse(data: seq<byte>): (r: Option<Response>)
    ensures r.None? <==> |data| < 2
    ensures r.Some? ==> r.value.payload == data[2..]
  {
    if |data| < 2 then None
    else Some(UnpackHeader(Or(data[0] as nat * 256, data[1]), data[2..]))
  }

  /** The three shifts and masks applied to the 16-bit command id. */
  function UnpackHeader(commandId: nat, payload: seq<byte>): (r: Response)
    ensures r.pduType <= 0x03 && r.pduId <= 0x7F
    ensures r.payload == payload
  {
    Response(commandId / 512, And(commandId / 128, 0x03), And(commandId, 0x7F), payload)
  }

  /** The masks in UnpackHeader keep the low two and the low seven bits. */
  lemma UnpackHeaderFields(commandId: nat, payload: seq<byte>)
    ensures UnpackHeader(commandId, payload)
         == Response(commandId / 512, (commandId / 128) % 4, commandId % 128, payload)
  {
    AndTwoBits(commandId / 128);
    AndSevenBits(commandId);
  }

  /** The header fields in terms of the two bytes: 7 bits, then 2 bits straddling the bytes, then 7 bits. */
  lemma ResponseHeaderBytes(data: seq<byte>)
    requires |data| >= 2
    ensures DecodeResponse(data)
         == Some(Response(data[0] / 2, (data[0] % 2) * 2 + data[1] / 128, data[1] % 128, data[2..]))
  {
    var b0, b1 := data[0] as nat, data[1] as nat;
    var c := Or(b0 * 256, b1);
    assert DecodeResponse(data) == Some(UnpackHeader(c, data[2..]));
    OrLowByte(b0, b1);
    HeaderArithmetic(b0, b1, c);
    UnpackHeaderFields(c, data[2..]);
  }

  lemma HeaderArithmetic(b0: nat, b1: nat, c: nat)
    requires b0 < 256 && b1 < 256 && c == b0 * 256 + b1
    ensures c / 512 == b0 / 2
    ensures (c / 128) % 4 == (b0 % 2) * 2 + b1 / 128
    ensures c % 128 == b1 % 128
  {
    DivModUnique(c, 512, b0 / 2, 256 * (b0 % 2) + b1);
    DivModUnique(c, 128, 2 * b0 + b1 / 128, b1 % 128);
    DivModUnique(2 * b0 + b1 / 128, 4, b0 / 2, 2 * (b0 % 2) + b1 / 128);
  }

  /** The byte split of the frame layout undoes the field split of the header. */
  lemma SplitFields(featureId: nat, pduType: nat, pduId: nat)
    requires FieldsFit(featureId, pduType, pduId)
    ensures var b0, b1 := featureId * 2 + pduType / 2, (pduType % 2) * 128 + pduId;
            b0 / 2 == featureId && (b0 % 2) * 2 + b1 / 128 == pduType && b1 % 128 == pduId
  {
    DivModUnique(featureId * 2 + pduType / 2, 2, featureId, pduType / 2);
    DivModUnique((pduType % 2) * 128 + pduId, 128, pduType % 2, pduId);
  }

  /** And the field split of the header undoes the byte split. */
  lemma RepackBytes(b0: nat, b1: nat)
    requires b0 < 256 && b1 < 256
    ensures var t := (b0 % 2) * 2 + b1 / 128;
            (b0 / 2) * 2 + t / 2 == b0 && (t % 2) * 128 + b1 % 128 == b1
  {
    DivModUnique((b0 % 2) * 2 + b1 / 128, 2, b0 % 2, b1 / 128);
  }

  /** Whatever two bytes come in, the decoded fields lie within their widths. */
  lemma DecodedFieldsFit(data: seq<byte>)
    requires |data| >= 2
    ensures DecodeResponse(data).Some?
    ensures var r := DecodeResponse(data).value; FieldsFit(r.featureId, r.pduType, r.pduId)
  {
    ResponseHeaderBytes(data);
  }

  /** Header round trip: decoding an encoded command gives back its fields and payload. */
  lemma HeaderRoundTrip(featureId: nat, pduType: nat, pduId: nat, data: seq<byte>)
    requires FieldsFit(featureId, pduType, pduId)
    ensures EncodeCommand(featureId, pduType, pduId, data).Ok?
    ensures DecodeResponse(EncodeCommand(featureId, pduType, pduId, data).value)
         == Some(Response(featureId, pduType, pduId, data))
  {
    var frame := Command(featureId, pduType, pduId, data);
    var b0, b1 := featureId * 2 + pduType / 2, (pduType % 2) * 128 + pduId;
    assert frame[0] == b0 && frame[1] == b1 && frame[2..] == data;
    SplitFields(featureId, pduType, pduId);
    var fields := Response(frame[0] / 2, (frame[0] % 2) * 2 + frame[1] / 128, frame[1] % 128, frame[2..]);
    assert fields == Response(featureId, pduType, pduId, data);
    ResponseHeaderBytes(frame);
  }

  /** The other direction: every frame of two or more bytes is the encoding of what it decodes to. */
  lemma DecodedResponseReencodes(frame: seq<byte>)
    requires |frame| >= 2
    ensures DecodeResponse(frame).Some?
    ensures var r := DecodeResponse(frame).value;
            EncodeCommand(r.featureId, r.pduType, r.pduId, r.payload) == Ok(frame)
  {
    ResponseHeaderBytes(frame);
    var b0, b1 := frame[0] as nat, frame[1] as nat;
    var f, t, i := b0 / 2, (b0 % 2) * 2 + b1 / 128, b1 % 128;
    assert DecodeResponse(frame).value == Response(f, t, i, frame[2..]);
    FrameLayout(f, t, i, frame[2..]);
    RepackBytes(b0, b1);
    var head: seq<byte> := [f * 2 + t / 2, (t % 2) * 128 + i];
    assert head == frame[..2];
    assert head + frame[2..] == frame;
  }

  /**
   * The EEG marker `0x04` in the first byte is exactly a SENSOR_STREAM
   * header with PDU type COMMAND or NOTIFICATION, so no RESPONSE header is
   * ever taken for an EEG frame.
   */
  lemma EegMarkerIsSensorStream(data: seq<byte>)
    requires |data| >= 2
    ensures DecodeResponse(data).Some?
    ensures var r := DecodeResponse(data).value;
            (data[0] == EegPacketType <==> r.featureId == SensorStreamFeature && r.pduType < PduResponse)
  {
    ResponseHeaderBytes(data);
  }

  /** The frame of a command whose fields fit. */
  function Command(featureId: nat, pduType: nat, pduId: nat, data: seq<byte>): (r: seq<byte>)
    requires FieldsFit(featureId, pduType, pduId)
    ensures EncodeCommand(featureId, pduType, pduId, data) == Ok(r)
    ensures r == [featureId * 2 + pduType / 2, (pduType % 2) * 128 + pduId] + data
  {
    FrameLayout(featureId, pduType, pduId, data);
    EncodeCommand(featureId, pduType, pduId, data).value
  }

  /** The identification requests sent after connecting: GET_SERIAL, then GET_BATTERY. */
  function IdentifyCommands(): (r: seq<seq<byte>>)
    ensures r == [[0x00, 0x01], [0x06, 0x00]]
  {
    var getSerial := Command(CoreFeature, PduCommand, CmdGetSerial, []);
    var getBattery := Command(BatteryFeature, PduCommand, CmdGetBattery, []);
    assert getSerial == [0x00, 0x01] by { assert |getSerial| == 2 && getSerial[0] == 0x00 && getSerial[1] == 0x01; }
    assert getBattery == [0x06, 0x00] by { assert |getBattery| == 2 && getBattery[0] == 0x06 && getBattery[1] == 0x00; }
    [getSerial, getBattery]
  }

  /** Frame of a one-byte SENSOR_CONFIG command. */
  function SensorCfgCommand(pduId: nat, flag: byte): (r: seq<byte>)
    requires pduId < 128
    ensures r == [0x02, pduId, flag]
  {
    var frame := Command(SensorCfgFeature, PduCommand, pduId, [flag]);
    assert |frame| == 3 && frame[0] == 0x02 && frame[1] == pduId && frame[2] == flag;
    frame
  }

  /**
   * The frames `start_streaming` writes: test signal on (only when asked
   * for), then streaming on.
   */
  function StartStreaming(useTestSignal: bool): (r: seq<seq<byte>>)
    ensures r == (if useTestSignal then [[0x02, 0x01, 0x01]] else []) + [[0x02, 0x00, 0x01]]
  {
    (if useTestSignal then [SensorCfgCommand(CmdTestSignalCtrl, 0x01)] else [])
    + [SensorCfgCommand(CmdStreamCtrl, 0x01)]
  }

  /** The frames `stop_streaming` writes: streaming off, then test signal off. */
  function StopStreaming(): (r: seq<seq<byte>>)
    ensures r == [[0x02, 0x00, 0x00], [0x02, 0x01, 0x00]]
  {
    [SensorCfgCommand(CmdStreamCtrl, 0x00), SensorCfgCommand(CmdTestSignalCtrl, 0x00)]
  }

  /** A SENSOR_CONFIG command frame decodes to its PDU id and its one-byte payload. */
  lemma SensorCfgCommandDecodes(pduId: nat, flag: byte)
    requires pduId < 128
    ensures DecodeResponse(SensorCfgCommand(pduId, flag)) == Some(Response(SensorCfgFeature, PduCommand, pduId, [flag]))
  {
    var frame := Command(SensorCfgFeature, PduCommand, pduId, [flag]);
    HeaderRoundTrip(SensorCfgFeature, PduCommand, pduId, [flag]);
    assert SensorCfgCommand(pduId, flag) == frame;
  }

  /** The streaming frames as SENSOR_CONFIG commands, in the order each sequence writes them. */
  predicate IsSensorCfg(frame: seq<byte>, pduId: nat, flag: byte)
  {
    DecodeResponse(frame) == Some(Response(SensorCfgFeature, PduCommand, pduId, [flag]))
  }

  /**
   * Every streaming frame is a SENSOR_CONFIG command for STREAM_CTRL or
   * TEST_SIGNAL_CTRL with the one-byte payload 0x01 (start) or 0x00 (stop),
   * and stop turns off in the reverse order of start.
   */
  lemma StreamingCommandsDecode(useTestSignal: bool)
    ensures var start := StartStreaming(useTestSignal);
            |start| == (if useTestSignal then 2 else 1)
            && IsSensorCfg(start[|start| - 1], CmdStreamCtrl, 0x01)
            && (useTestSignal ==> IsSensorCfg(start[0], CmdTestSignalCtrl, 0x01))
    ensures var stop := StopStreaming();
            |stop| == 2 && IsSensorCfg(stop[0], CmdStreamCtrl, 0x00) && IsSensorCfg(stop[1], CmdTestSignalCtrl, 0x00)
  {
    SensorCfgCommandDecodes(CmdStreamCtrl, 0x01);
    SensorCfgCommandDecodes(CmdTestSignalCtrl, 0x01);
    SensorCfgCommandDecodes(CmdStreamCtrl, 0x00);
    SensorCfgCommandDecodes(CmdTestSignalCtrl, 0x00);
  }
}
