/**
 * The client's session state and the notification handler: an EEG frame is
 * decoded and leaves the state alone; any other frame is a reply whose
 * header selects which field, if any, it updates.
 */
module Session {
  import opened Wrappers
  import opened Ints
  import opened Protocol
  import opened Eeg
  import Utf8
  import Hex

  /** What the client has learnt about the device. */
  datatype SessionState = SessionState(serialNumber: Option<string>, batteryLevel: Option<byte>)

  /** The state of a freshly constructed client. */
  const Initial := SessionState(None, None)

  /**
   * The text stored for a serial-number payload: `payload.decode()`, or
   * `payload.hex()` where decoding raises. The text is therefore either the
   * UTF-8 decoding of the payload or its hexadecimal form; it does not say
   * which (see SerialTextAmbiguous).
   */
  function SerialText(payload: seq<byte>): (r: string)
    ensures Utf8.Encode(r) == payload || Hex.FromHex(r) == Some(payload)
  {
    match Utf8.Decode(payload)
    case Some(text) => Utf8.EncodeDecode(payload); text
    case None => Hex.FromHexOfHex(payload); Hex.Hex(payload)
  }

  /** Valid UTF-8 text is stored as it is. */
  lemma SerialOfText(text: string)
    ensures SerialText(Utf8.Encode(text)) == text
  {
    Utf8.DecodeEncode(text);
  }

  /** Every payload that is valid UTF-8 is stored as its decoding. */
  lemma SerialOfDecodable(payload: seq<byte>)
    requires Utf8.Decode(payload).Some?
    ensures SerialText(payload) == Utf8.Decode(payload).value
  {
    Utf8.EncodeDecode(payload);
    SerialOfText(Utf8.Decode(payload).value);
  }

  /** Anything else is stored as its hexadecimal form. */
  lemma SerialOfBinary(payload: seq<byte>)
    requires Utf8.Decode(payload).None?
    ensures SerialText(payload) == Hex.Hex(payload)
    ensures |SerialText(payload)| == 2 * |payload|
    ensures Hex.FromHex(SerialText(payload)) == Some(payload)
  {
    Hex.FromHexOfHex(payload);
  }

  /**
   * The fallback makes the stored text ambiguous: a payload `[0xAB]`, which
   * is not UTF-8, and a payload spelling the two letters "ab" are stored
   * as the same serial number.
   */
  lemma SerialTextAmbiguous()
    ensures SerialText([0xAB]) == SerialText([0x61, 0x62]) == "ab"
  {
    assert Utf8.DecodeFirst([0xAB]).None?;
    assert Utf8.Decode([0xAB]).None?;
    assert Hex.Hex([0xAB]) == Hex.HexByte(0xAB) + Hex.Hex([]);
    Utf8.AsciiDecodes([0x61, 0x62]);
    assert Utf8.Decode([0x61, 0x62]).value == "ab";
  }

  /**
   * The state change of `parse_response`. A frame under two bytes, a
   * header whose PDU type is not RESPONSE, and any other feature or PDU id
   * change nothing. CORE/GET_SERIAL sets the serial number and
   * BATTERY/GET_BATTERY with a payload sets the battery level to its first
   * byte. The two cases have different features, so at most one field
   * changes.
   */
  function AfterResponse(s: SessionState, data: seq<byte>): (r: SessionState)
    ensures r.serialNumber == s.serialNumber || r.batteryLevel == s.batteryLevel
  {
    match DecodeResponse(data)
    case None => s
    case Some(resp) =>
      if resp.pduType != PduResponse then s
      else
        var s1 :=
          if resp.featureId == CoreFeature && resp.pduId == CmdGetSerial
          then s.(serialNumber := Some(SerialText(resp.payload)))
          else s;
        if resp.featureId == BatteryFeature && resp.pduId == CmdGetBattery && |resp.payload| > 0
        then s1.(batteryLevel := Some(resp.payload[0]))
        else s1
  }

  /** The one header, `01 01`, that sets the serial number. */
  lemma SerialResponseSetsSerial(s: SessionState, data: seq<byte>)
    requires |data| >= 2 && data[0] == 0x01 && data[1] == 0x01
    ensures AfterResponse(s, data) == s.(serialNumber := Some(SerialText(data[2..])))
  {
    assert DecodeResponse(data) == Some(Response(0, 2, 1, data[2..])) by {
      ResponseHeaderBytes(data);
    }
  }

  /** The one header, `07 00`, that sets the battery level, to the first payload byte. */
  lemma BatteryResponseSetsBattery(s: SessionState, data: seq<byte>)
    requires |data| >= 3 && data[0] == 0x07 && data[1] == 0x00
    ensures AfterResponse(s, data) == s.(batteryLevel := Some(data[2]))
  {
    assert DecodeResponse(data) == Some(Response(3, 2, 0, data[2..])) by {
      ResponseHeaderBytes(data);
    }
  }

  /** A battery reply with no payload is ignored. */
  lemma EmptyBatteryResponseIgnored(s: SessionState)
    ensures AfterResponse(s, [0x07, 0x00]) == s
  {
    var data: seq<byte> := [0x07, 0x00];
    assert DecodeResponse(data) == Some(Response(3, 2, 0, [])) by {
      ResponseHeaderBytes(data);
    }
  }

  /** Every other frame leaves the state as it was. */
  lemma UnrecognisedFrameIgnored(s: SessionState, data: seq<byte>)
    requires |data| < 2
          || !((data[0] == 0x01 && data[1] == 0x01) || (data[0] == 0x07 && data[1] == 0x00 && |data| >= 3))
    ensures AfterResponse(s, data) == s
  {
    if |data| >= 2 {
      var b0, b1 := data[0] as nat, data[1] as nat;
      var fields := Response(b0 / 2, (b0 % 2) * 2 + b1 / 128, b1 % 128, data[2..]);
      ResponseHeaderBytes(data);
      assert fields.featureId == CoreFeature && fields.pduId == CmdGetSerial && fields.pduType == PduResponse
        ==> b0 == 1 && b1 == 1;
      assert fields.featureId == BatteryFeature && fields.pduId == CmdGetBattery && fields.pduType == PduResponse
        ==> b0 == 7 && b1 == 0;
    }
  }

  /** Receiving the same reply twice has the effect of receiving it once. */
  lemma AfterResponseIdempotent(s: SessionState, data: seq<byte>)
    ensures AfterResponse(AfterResponse(s, data), data) == AfterResponse(s, data)
  {
    if |data| >= 2 {
      ResponseHeaderBytes(data);
    }
  }

  /**
   * An EEG frame, were it handed to `parse_response`, would change nothing:
   * its header is a SENSOR_STREAM command or notification.
   */
  lemma EegFrameIsNoResponse(s: SessionState, data: seq<byte>)
    requires |data| >= 1 && data[0] == EegPacketType
    ensures AfterResponse(s, data) == s
  {
    if |data| >= 2 {
      EegMarkerIsSensorStream(data);
    }
  }

  /** A serial-number reply built by the encoder stores the text it carries. */
  lemma EncodedSerialReply(s: SessionState, text: string)
    ensures EncodeCommand(CoreFeature, PduResponse, CmdGetSerial, Utf8.Encode(text)).Ok?
    ensures AfterResponse(s, EncodeCommand(CoreFeature, PduResponse, CmdGetSerial, Utf8.Encode(text)).value)
         == s.(serialNumber := Some(text))
  {
    var payload := Utf8.Encode(text);
    HeaderRoundTrip(CoreFeature, PduResponse, CmdGetSerial, payload);
    SerialOfText(text);
  }

  /** A battery reply built by the encoder stores its first payload byte. */
  lemma EncodedBatteryReply(s: SessionState, level: byte, rest: seq<byte>)
    ensures EncodeCommand(BatteryFeature, PduResponse, CmdGetBattery, [level] + rest).Ok?
    ensures AfterResponse(s, EncodeCommand(BatteryFeature, PduResponse, CmdGetBattery, [level] + rest).value)
         == s.(batteryLevel := Some(level))
  {
    HeaderRoundTrip(BatteryFeature, PduResponse, CmdGetBattery, [level] + rest);
  }

  /** Header `01 01` is CORE / RESPONSE / GET_SERIAL. */
  lemma SerialHeaderValue()
    ensures EncodeCommand(CoreFeature, PduResponse, CmdGetSerial, []) == Ok([0x01, 0x01])
  {
    FrameLayout(CoreFeature, PduResponse, CmdGetSerial, []);
    assert [0x01, 0x01] + [] == [0x01, 0x01];
  }

  /** Header `02 81` is SENSOR_CONFIG / NOTIFICATION / 1, and changes nothing. */
  lemma NotificationHeaderValue()
    ensures DecodeResponse([0x02, 0x81]) == Some(Response(SensorCfgFeature, PduNotification, 1, []))
    ensures AfterResponse(Initial, [0x02, 0x81]) == Initial
  {
    var data: seq<byte> := [0x02, 0x81];
    assert data[0] == 0x02 && data[1] == 0x81 && data[2..] == [];
    ResponseHeaderBytes(data);
  }

  /** A battery reply with payload `5A` records 90. */
  lemma BatteryExample()
    ensures AfterResponse(Initial, [0x07, 0x00, 0x5A]).batteryLevel == Some(90)
  {
    BatteryResponseSetsBattery(Initial, [0x07, 0x00, 0x5A]);
  }

  /** The client object: the two fields `parse_response` writes. */
  class NeocoreClient {
    var serialNumber: Option<string>
    var batteryLevel: Option<byte>

    function State(): SessionState
      reads this
    {
      SessionState(serialNumber, batteryLevel)
    }

    constructor()
      ensures State() == Initial
    {
      serialNumber := None;
      batteryLevel := None;
    }

    /** `parse_response`: unpack the header, then update the field the reply is for. */
    method ParseResponse(data: seq<byte>)
      modifies this
      ensures State() == AfterResponse(old(State()), data)
    {
      var header := DecodeResponse(data);
      if header.None? {
        return;
      }
      var resp := header.value;
      if resp.pduType == PduResponse {
        if resp.featureId == CoreFeature && resp.pduId == CmdGetSerial {
          var text := Utf8.Decode(resp.payload);
          if text.Some? {
            serialNumber := Some(text.value);
          } else {
            serialNumber := Some(Hex.Hex(resp.payload));
          }
        }
        if resp.featureId == BatteryFeature && resp.pduId == CmdGetBattery && |resp.payload| > 0 {
          batteryLevel := Some(resp.payload[0]);
        }
      }
    }

    /**
     * `handle_notification`: ignore an empty frame, decode a frame starting
     * with `0x04` as EEG samples (returned here instead of printed), and
     * hand every other frame to `parse_response`. In every case the new
     * state is the one `parse_response` alone would give.
     */
    method HandleNotification(data: seq<byte>) returns (pkt: Option<EEGPacket>)
      modifies this
      ensures |data| == 0 ==> pkt.None? && State() == old(State())
      ensures |data| > 0 && data[0] == EegPacketType ==> pkt == ParseEeg(data) && State() == old(State())
      ensures |data| > 0 && data[0] != EegPacketType ==> pkt.None? && State() == AfterResponse(old(State()), data)
      ensures State() == AfterResponse(old(State()), data)
    {
      pkt := None;
      if |data| == 0 {
        return;
      }
      if data[0] == EegPacketType {
        pkt := ParseEegPacket(data);
        EegFrameIsNoResponse(State(), data);
      } else {
        ParseResponse(data);
      }
    }
  }
}
