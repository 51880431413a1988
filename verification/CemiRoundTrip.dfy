/** What encoding and decoding a cEMI frame promise of each other. */
module CemiRoundTrip {
  import opened Bits
  import opened Cemi
  import KnxAddress
  import opened Wrappers

  // ---------------------------------------------------------------------------
  // Octets and message codes
  // ---------------------------------------------------------------------------

  lemma CodeRoundTrip(c: MessageCode)
    ensures MessageCode.FromByte(c.ToByte()) == Some(c)
  {
  }

  // ---------------------------------------------------------------------------
  // Additional information: a type-length-value list
  // ---------------------------------------------------------------------------

  lemma {:induction false} EncodedInfosLen(infos: seq<AdditionalInfo>)
    ensures |EncodeInfos(infos)| == InfosLen(infos)
  {
    if infos != [] {
      EncodedInfosLen(infos[1..]);
    }
  }

  predicate FitsLengthOctet(infos: seq<AdditionalInfo>) {
    forall i :: 0 <= i < |infos| ==> |infos[i].data| <= 255
  }

  /** Taking one encoded item off a buffer. */
  lemma DecodeOneInfo(info: AdditionalInfo, rest: seq<byte>)
    requires |info.data| <= 255
    ensures DecodeInfos(EncodeInfo(info) + rest) == After([info], DecodeInfos(rest))
  {
    var n := |info.data|;
    var buf := EncodeInfo(info) + rest;
    assert buf[1] == n;
    assert buf[2..2 + n] == info.data;
    assert buf[2 + n..] == rest;
  }

  lemma {:induction false} InfosDecodeOfEncode(infos: seq<AdditionalInfo>)
    requires FitsLengthOctet(infos)
    ensures DecodeInfos(EncodeInfos(infos)) == Ok(infos)
  {
    if infos != [] {
      var tail := infos[1..];
      InfosDecodeOfEncode(tail);
      DecodeOneInfo(infos[0], EncodeInfos(tail));
      assert [infos[0]] + tail == infos;
    }
  }

  lemma EncodeInfosCons(info: AdditionalInfo, infos: seq<AdditionalInfo>)
    ensures EncodeInfos([info] + infos) == EncodeInfo(info) + EncodeInfos(infos)
    ensures |info.data| <= 255 && FitsLengthOctet(infos) ==> FitsLengthOctet([info] + infos)
  {
    assert ([info] + infos)[1..] == infos;
  }

  lemma {:induction false} FirstInfo(buf: seq<byte>) returns (info: AdditionalInfo, rest: seq<byte>)
    requires buf != [] && DecodeInfos(buf).Ok?
    ensures |info.data| <= 255 && buf == EncodeInfo(info) + rest && |rest| < |buf|
    ensures DecodeInfos(rest).Ok? && DecodeInfos(buf).value == [info] + DecodeInfos(rest).value
  {
    var n := buf[1];
    info, rest := AdditionalInfo(buf[0], buf[2..2 + n]), buf[2 + n..];
  }

  /** Any accepted octet string is the encoding of the list read from it. */
  lemma {:induction false} InfosEncodeOfDecode(buf: seq<byte>)
    requires DecodeInfos(buf).Ok?
    ensures EncodeInfos(DecodeInfos(buf).value) == buf
    ensures FitsLengthOctet(DecodeInfos(buf).value)
    decreases |buf|
  {
    if buf != [] {
      var info, rest := FirstInfo(buf);
      InfosEncodeOfDecode(rest);
      EncodeInfosCons(info, DecodeInfos(rest).value);
    }
  }

  /** The list survives exactly when every item's length fits its one length octet. */
  lemma {:induction false} InfosRoundTripIff(infos: seq<AdditionalInfo>)
    ensures DecodeInfos(EncodeInfos(infos)) == Ok(infos) <==> FitsLengthOctet(infos)
  {
    if FitsLengthOctet(infos) {
      InfosDecodeOfEncode(infos);
    } else if DecodeInfos(EncodeInfos(infos)) == Ok(infos) {
      InfosEncodeOfDecode(EncodeInfos(infos));
    }
  }

  // ---------------------------------------------------------------------------
  // From the whole frame to its body
  // ---------------------------------------------------------------------------

  lemma FrameParts(first: byte, second: byte, middle: seq<byte>, last: seq<byte>)
    ensures var wire := [first, second] + middle + last;
      && |wire| == 2 + |middle| + |last|
      && wire[0] == first && wire[1] == second
      && wire[2..2 + |middle|] == middle
      && wire[2 + |middle|..] == last
  {
  }

  /** Decoding splits the octets at the length octet of the additional information. */
  lemma {:induction false} DecodeSplit(code: MessageCode, n: byte, middle: seq<byte>, infos: seq<AdditionalInfo>,
                                       body: seq<byte>)
    requires |middle| == n && DecodeInfos(middle) == Ok(infos)
    ensures Decode([code.ToByte(), n] + middle + body) == DecodeBody(code, infos, body)
  {
    CodeRoundTrip(code);
    FrameParts(code.ToByte(), n, middle, body);
  }

  lemma {:induction false} InfosMiddle(infos: seq<AdditionalInfo>)
    requires InfosLen(infos) <= 255
    ensures |EncodeInfos(infos)| == InfosLen(infos)
    ensures DecodeInfos(EncodeInfos(infos)) == Ok(infos)
  {
    if infos != [] {
      var tail := infos[1..];
      InfosMiddle(tail);
      DecodeOneInfo(infos[0], EncodeInfos(tail));
      assert [infos[0]] + tail == infos;
    }
  }

  /** With at most 255 octets of additional information, decoding comes down to the body. */
  lemma {:induction false} DecodeOfParts(code: MessageCode, infos: seq<AdditionalInfo>, body: seq<byte>)
    requires InfosLen(infos) <= 255
    ensures Decode([code.ToByte(), LenByte(InfosLen(infos))] + EncodeInfos(infos) + body)
         == DecodeBody(code, infos, body)
  {
    InfosMiddle(infos);
    DecodeSplit(code, LenByte(InfosLen(infos)), EncodeInfos(infos), infos, body);
  }

  /** A decoded frame carries at most 255 octets of additional information. */
  lemma DecodedInfosAreShort(wire: seq<byte>)
    requires Decode(wire).Parsed?
    ensures InfosLen(Decode(wire).frame.infos) <= 255
  {
    var n := wire[1];
    InfosEncodeOfDecode(wire[2..2 + n]);
    var infos := DecodeInfos(wire[2..2 + n]).value;
    EncodedInfosLen(infos);
    assert Decode(wire).frame.infos == infos;
  }

  // ---------------------------------------------------------------------------
  // Header and NPDU of the L_Data and L_Raw frames
  // ---------------------------------------------------------------------------

  lemma ControlOctets(f: Frame)
    ensures var c := Control1(f);
      && Priority.FromBits(c / 4 % 4) == f.priority
      && (c % 2 != 0) == f.confirm
      && (c / 0x20 % 2 == 0) == f.ackRequest
      && c / 0x10 % 2 == 0
    ensures var c := Control2(f);
      && (c / 0x80 % 2 != 0) == f.addressType.Group?
      && c % 8 == f.hopCount % 8
  {
  }

  /** What reading back the NPDU of a service and a payload gives. */
  function ReadBack(apci: Apci, data: seq<byte>): (Apci, seq<byte>) {
    var npdu := EncodeNpdu(apci, data);
    DecodeNpdu(npdu[0], npdu[1..])
  }

  /** `f` as its fixed octets and the given service and payload are read back. */
  function Reread(f: Frame, npdu: (Apci, seq<byte>)): Frame {
    f.(hopCount := f.hopCount % 8, systemBroadcast := false, apci := npdu.0, data := npdu.1)
  }

  /** The fixed octets lose the upper bits of the hop count and the system broadcast flag. */
  lemma FixedOctets(f: Frame, apci: Apci, data: seq<byte>)
    ensures var source := KnxAddress.Encode(f.source);
      Assemble(f.code, f.infos, Control1(f), Control2(f), Join(High(source), Low8(source)),
               Join(High(f.destination), Low8(f.destination)), apci, data)
      == Reread(f, (apci, data))
  {
    ControlOctets(f);
    KnxAddress.DecodeOfEncode(f.source);
  }

  lemma StandardBody(f: Frame, npdu: seq<byte>)
    requires !f.code.HasRawBody()
    requires |npdu| >= 2 && npdu[0] <= |npdu| - 1
    ensures DecodeBody(f.code, f.infos, Header(f) + npdu) == Parsed(Reread(f, DecodeNpdu(npdu[0], npdu[1..])))
  {
    var (apci, data) := DecodeNpdu(npdu[0], npdu[1..]);
    FixedOctets(f, apci, data);
    SplitStandard(f.code, f.infos, Header(f), npdu);
  }

  lemma SplitStandard(code: MessageCode, infos: seq<AdditionalInfo>, h: seq<byte>, npdu: seq<byte>)
    requires |h| == 6 && |npdu| >= 2 && npdu[0] <= |npdu| - 1
    ensures var (apci, data) := DecodeNpdu(npdu[0], npdu[1..]);
      DecodeStandard(code, infos, h + npdu)
      == Parsed(Assemble(code, infos, h[0], h[1], Join(h[2], h[3]), Join(h[4], h[5]), apci, data))
  {
    var body := h + npdu;
    assert body[6] == npdu[0] && body[7..] == npdu[1..];
  }

  /** Payloads that take the APCI-and-data form: not empty and not embeddable. */
  predicate NeedsOctets(data: seq<byte>) {
    data != [] && !(|data| == 1 && data[0] <= 0x3F)
  }

  /** The services and payloads that come back unchanged. */
  predicate ExactNpdu(apci: Apci, data: seq<byte>) {
    match apci
    case GroupValueRead => data == []
    case GroupValueResponse => |data| <= 254 && data != [0]
    case GroupValueWrite => |data| <= 254 && data != [0]
    case Unknown(v) =>
      || (0 < v <= 0x3F && data == [v])
      || (4 <= v <= 0x3F && |data| <= 254 && NeedsOctets(data))
    case _ => false
  }

  /** A payload of the single octet 0 is embedded as no payload at all. */
  function NormalData(data: seq<byte>): seq<byte> {
    if data == [0] then [] else data
  }

  lemma {:induction false} EmbedGroupValue(b: byte, small: byte)
    requires b % 64 == 0 && small < 64
    ensures Embed(b, small) == b + small
  {
  }

  /** The octet that stands for the service, with an embeddable payload in it. */
  function ServiceOctet(apci: Apci, data: seq<byte>): byte {
    WithBits(Low8(apci.Encode()), data)
  }

  /** A service octet with the payload in its six low bits, if it fits there. */
  function WithBits(b: byte, data: seq<byte>): byte {
    if data == [] || NeedsOctets(data) then b else Embed(b, data[0])
  }

  /**
    What the reader makes of `data` behind the service octet `b`. An octet below
    4 in front of payload octets makes it take the first of them for the service.
   */
  function Reading(b: byte, data: seq<byte>): (Apci, seq<byte>) {
    if !NeedsOctets(data) then (Apci.Decode(b), SmallData(b))
    else if b >= 4 then (Apci.Decode(b), data)
    else (Apci.Decode(Join(b, data[0])), if |data| == 1 then SmallData(data[0]) else data[1..])
  }

  lemma {:induction false} LongReading(b: byte, data: seq<byte>)
    requires NeedsOctets(data)
    ensures DecodeNpdu(|data| + 1, [b] + data) == Reading(b, data)
  {
    var npdu := [b] + data;
    assert npdu[1..|data| + 1] == data;
    assert npdu[2..|data| + 1] == data[1..];
  }

  lemma {:induction false} ShortReading(b: byte, data: seq<byte>)
    requires !NeedsOctets(data)
    ensures DecodeNpdu(1, [b]) == Reading(b, data)
  {
  }

  lemma {:induction false} ShortNpdu(b: byte, data: seq<byte>)
    requires !NeedsOctets(data)
    ensures NpduOf(b, data) == [1, WithBits(b, data)]
  {
  }

  lemma {:induction false} NpduReading(b: byte, data: seq<byte>)
    requires |data| <= 254
    ensures var npdu := NpduOf(b, data);
      DecodeNpdu(npdu[0], npdu[1..]) == Reading(WithBits(b, data), data)
  {
    if NeedsOctets(data) {
      LongReading(b, data);
      assert NpduOf(b, data)[1..] == [b] + data;
    } else {
      var w := WithBits(b, data);
      ShortNpdu(b, data);
      ShortReading(w, data);
      assert [1, w][1..] == [w];
    }
  }

  lemma {:induction false} ReadBackIs(apci: Apci, data: seq<byte>)
    requires |data| <= 254
    ensures ReadBack(apci, data) == Reading(ServiceOctet(apci, data), data)
  {
    NpduReading(Low8(apci.Encode()), data);
  }

  lemma ReadBackIsShort(apci: Apci, data: seq<byte>)
    ensures |ReadBack(apci, data).1| <= 254
  {
  }

  /** Eight bits reach only the three group services; the rest reads as unknown. */
  lemma ServiceOfOctet(b: byte)
    ensures Apci.Decode(b) ==
      if b == 0 then GroupValueRead else if b < 0x40 then Unknown(b)
      else if b < 0x80 then GroupValueResponse else GroupValueWrite
  {
  }

  /** The payload bits that share the service octet. */
  function EmbeddedBits(data: seq<byte>): byte {
    if data == [] || NeedsOctets(data) then 0 else data[0]
  }

  lemma {:induction false} BitsAdd(b: byte, data: seq<byte>)
    requires b % 64 == 0
    ensures WithBits(b, data) == b + EmbeddedBits(data)
  {
    if data != [] && !NeedsOctets(data) {
      EmbedGroupValue(b, data[0]);
    }
  }

  lemma {:induction false} GroupServiceOctet(apci: Apci, data: seq<byte>)
    requires apci.CarriesGroupValue() || apci.GroupValueRead?
    ensures ServiceOctet(apci, data) == apci.Encode() + EmbeddedBits(data)
  {
    BitsAdd(Low8(apci.Encode()), data);
  }

  lemma GroupValueReading(apci: Apci, b: byte, data: seq<byte>)
    requires apci.CarriesGroupValue() && b == apci.Encode() + EmbeddedBits(data)
    ensures Reading(b, data) == (apci, NormalData(data))
  {
    ServiceOfOctet(b);
    assert b % 64 == EmbeddedBits(data);
    assert !NeedsOctets(data) ==> SmallData(b) == NormalData(data);
  }

  lemma ReadServiceIff(b: byte, data: seq<byte>)
    requires b == EmbeddedBits(data)
    ensures Reading(b, data) == (GroupValueRead, data) <==> data == []
  {
    ServiceOfOctet(b);
    if |data| == 1 && NeedsOctets(data) {
      ServiceOfOctet(data[0]);
    }
  }

  lemma {:induction false} UnknownAlone(v: word, b: byte, data: seq<byte>)
    requires !NeedsOctets(data)
    requires data == [] ==> b == v % 0x100
    requires data != [] && v == data[0] ==> b == v
    ensures Reading(b, data) == (Unknown(v), data) <==> ExactNpdu(Unknown(v), data)
  {
    ServiceOfOctet(b);
  }

  lemma {:induction false} UnknownWithOctets(v: word, b: byte, data: seq<byte>)
    requires NeedsOctets(data) && |data| <= 254 && b == v % 0x100 && b >= 4
    ensures Reading(b, data) == (Unknown(v), data) <==> ExactNpdu(Unknown(v), data)
  {
    ServiceOfOctet(b);
  }

  /** Behind an octet below 4 the first payload octet is lost. */
  lemma {:induction false} FirstOctetLost(b: byte, data: seq<byte>)
    requires NeedsOctets(data) && b < 4
    ensures Reading(b, data).1 != data
  {
    assert |data| > 1 ==> |data[1..]| < |data|;
  }

  lemma {:induction false} UnknownServiceIff(v: word, b: byte, data: seq<byte>)
    requires |data| <= 254
    requires data == [] || NeedsOctets(data) ==> b == v % 0x100
    requires data != [] && !NeedsOctets(data) && v == data[0] ==> b == v
    ensures Reading(b, data) == (Unknown(v), data) <==> ExactNpdu(Unknown(v), data)
  {
    if !NeedsOctets(data) {
      UnknownAlone(v, b, data);
    } else if b >= 4 {
      UnknownWithOctets(v, b, data);
    } else {
      FirstOctetLost(b, data);
    }
  }

  lemma SixBits(v: byte)
    requires v < 64
    ensures v % 64 == v && v / 64 * 64 == 0
  {
  }

  lemma {:induction false} EmbedSelf(v: byte)
    requires v < 64
    ensures Embed(v, v) == v
  {
    SixBits(v);
    OrSelf(v);
  }

  lemma {:induction false} BitsSelf(b: byte, data: seq<byte>)
    ensures data == [] || NeedsOctets(data) ==> WithBits(b, data) == b
    ensures data != [] && !NeedsOctets(data) && b == data[0] ==> WithBits(b, data) == b
  {
    if data != [] && !NeedsOctets(data) && b == data[0] {
      EmbedSelf(b);
    }
  }

  lemma {:induction false} UnknownServiceOctet(v: word, data: seq<byte>, b: byte)
    requires b == ServiceOctet(Unknown(v), data)
    ensures data == [] || NeedsOctets(data) ==> b == v % 0x100
    ensures data != [] && !NeedsOctets(data) && v == data[0] ==> b == v
  {
    if data != [] && !NeedsOctets(data) && v == data[0] {
      assert Low8(v) == data[0];
      BitsSelf(data[0], data);
    }
  }

  /** No other named service returns: the wire keeps eight bits of its ten. */
  lemma OtherServiceNever(apci: Apci, data: seq<byte>)
    requires !apci.GroupValueRead? && !apci.CarriesGroupValue() && !apci.Unknown?
    ensures Reading(ServiceOctet(apci, data), data).0 != apci
  {
    var b := ServiceOctet(apci, data);
    ServiceOfOctet(b);
    if NeedsOctets(data) && b < 4 {
      assert b == 0;
      ServiceOfOctet(data[0]);
    }
  }

  lemma {:induction false} NpduRoundTripIff(apci: Apci, data: seq<byte>)
    ensures ReadBack(apci, data) == (apci, data) <==> ExactNpdu(apci, data)
  {
    ReadBackIsShort(apci, data);
    if |data| <= 254 {
      ReadBackIs(apci, data);
      var b := ServiceOctet(apci, data);
      if apci.GroupValueRead? {
        GroupServiceOctet(apci, data);
        ReadServiceIff(b, data);
      } else if apci.CarriesGroupValue() {
        GroupServiceOctet(apci, data);
        GroupValueReading(apci, b, data);
      } else if apci.Unknown? {
        UnknownServiceOctet(apci.raw, data, b);
        UnknownServiceIff(apci.raw, b, data);
      } else {
        OtherServiceNever(apci, data);
      }
    }
  }

  lemma {:induction false} GroupValueReadBack(apci: Apci, data: seq<byte>)
    requires apci.CarriesGroupValue() && |data| <= 254
    ensures ReadBack(apci, data) == (apci, NormalData(data))
  {
    ReadBackIs(apci, data);
    GroupServiceOctet(apci, data);
    GroupValueReading(apci, ServiceOctet(apci, data), data);
  }

  // ---------------------------------------------------------------------------
  // Whole frames
  // ---------------------------------------------------------------------------

  /** The frames that encoding and decoding return field for field. */
  predicate Exact(f: Frame) {
    && InfosLen(f.infos) <= 255
    && if f.code.HasRawBody() then f == RawFrame(f.code, f.infos, f.data)
       else f.hopCount < 8 && !f.systemBroadcast && ExactNpdu(f.apci, f.data)
  }

  /** What decoding the encoding of a frame gives, lossy or not. */
  function WireImage(f: Frame): Frame {
    if f.code.HasRawBody() then RawFrame(f.code, f.infos, f.data)
    else Reread(f, ReadBack(f.apci, f.data))
  }

  /** With the additional information in range every frame decodes. */
  lemma {:induction false} DecodeOfEncode(f: Frame)
    requires InfosLen(f.infos) <= 255
    ensures Decode(Encode(f)) == Parsed(WireImage(f))
  {
    DecodeOfParts(f.code, f.infos, EncodeBody(f));
    BodyImage(f);
  }

  lemma BodyImage(f: Frame)
    ensures DecodeBody(f.code, f.infos, EncodeBody(f)) == Parsed(WireImage(f))
  {
    if !f.code.HasRawBody() {
      var npdu := EncodeNpdu(f.apci, f.data);
      assert |npdu| >= 2 && npdu[0] <= |npdu| - 1;
      StandardBody(f, npdu);
    }
  }

  lemma WireImageIff(f: Frame)
    requires InfosLen(f.infos) <= 255
    ensures WireImage(f) == f <==> Exact(f)
  {
    NpduRoundTripIff(f.apci, f.data);
    if !f.code.HasRawBody() {
      ChangedFieldsIff(f, ReadBack(f.apci, f.data));
    }
  }

  lemma ChangedFieldsIff(f: Frame, npdu: (Apci, seq<byte>))
    ensures Reread(f, npdu) == f <==> f.hopCount < 8 && !f.systemBroadcast && npdu == (f.apci, f.data)
  {
  }

  /**
    For every frame of every message code: it comes back unchanged from the
    wire exactly when it is `Exact`.
   */
  lemma FrameRoundTripIff(f: Frame)
    ensures Decode(Encode(f)) == Parsed(f) <==> Exact(f)
  {
    if InfosLen(f.infos) <= 255 {
      DecodeOfEncode(f);
      WireImageIff(f);
    } else if Decode(Encode(f)) == Parsed(f) {
      DecodedInfosAreShort(Encode(f));
    }
  }

  /** An L_Data or L_Raw frame with a group write or response, or an empty group read. */
  predicate GroupFrame(f: Frame) {
    && !f.code.HasRawBody()
    && InfosLen(f.infos) <= 255
    && if f.apci.GroupValueRead? then f.data == [] else f.apci.CarriesGroupValue() && |f.data| <= 254
  }

  function Normal(f: Frame): Frame {
    f.(hopCount := f.hopCount % 8, systemBroadcast := false, data := NormalData(f.data))
  }

  /** Group frames always decode, and to their normal form. */
  lemma GroupFrameRoundTrip(f: Frame)
    requires GroupFrame(f)
    ensures Decode(Encode(f)) == Parsed(Normal(f))
  {
    DecodeOfEncode(f);
    if f.apci.GroupValueRead? {
      NpduRoundTripIff(f.apci, f.data);
    } else {
      GroupValueReadBack(f.apci, f.data);
    }
  }

  /**
    Whatever octets a group write or response was read from, writing and reading
    it again gives its normal form, which then stays; the first reading was
    already normal unless it had the broadcast flag or the payload [0].
   */
  lemma DecodeEncodeDecode(wire: seq<byte>, f: Frame)
    requires Decode(wire) == Parsed(f)
    requires f.apci.CarriesGroupValue()
    ensures Decode(Encode(f)) == Parsed(Normal(f))
    ensures Decode(Encode(Normal(f))) == Parsed(Normal(f))
    ensures Normal(f) == f <==> !f.systemBroadcast && f.data != [0]
  {
    DecodedGroupFrame(wire, f);
    NormalIsNormal(f);
    GroupFrameRoundTrip(f);
    var g := Normal(f);
    assert Decode(Encode(g)) == Parsed(g) by {
      GroupFrameRoundTrip(g);
    }
  }

  lemma NormalIsNormal(f: Frame)
    requires GroupFrame(f) && f.hopCount < 8
    ensures GroupFrame(Normal(f)) && Normal(Normal(f)) == Normal(f)
    ensures Normal(f) == f <==> !f.systemBroadcast && f.data != [0]
  {
  }

  lemma DecodedGroupFrame(wire: seq<byte>, f: Frame)
    requires Decode(wire) == Parsed(f)
    requires f.apci.CarriesGroupValue()
    ensures GroupFrame(f) && f.hopCount < 8
  {
    DecodedInfosAreShort(wire);
    DecodedStandard(wire, f);
  }

  /** The frames read through the L_Data path. */
  lemma DecodedStandard(wire: seq<byte>, f: Frame)
    requires Decode(wire) == Parsed(f)
    requires !f.apci.Unknown?
    ensures !f.code.HasRawBody() && f.hopCount < 8 && |f.data| <= 254
  {
    var n := wire[1];
    var code := MessageCode.FromByte(wire[0]).value;
    var infos, body := DecodeInfos(wire[2..2 + n]).value, wire[2 + n..];
    assert Decode(wire) == DecodeBody(code, infos, body);
    if !code.HasRawBody() {
      var (apci, data) := DecodeNpdu(body[6], body[7..]);
      assert f.data == data;
      assert |data| <= 254;
    }
  }

  // ---------------------------------------------------------------------------
  // The two-octet TPCI/APCI layout of other stacks
  // ---------------------------------------------------------------------------

  /** The NPDU as external stacks write it: a zero TPCI octet, then service and payload bits, then data. */
  function TwoOctetNpdu(apci: Apci, data: seq<byte>): seq<byte>
    requires apci.CarriesGroupValue() && |data| <= 253
  {
    if NeedsOctets(data) then [|data| + 2, 0, apci.Encode()] + data
    else [2, 0, apci.Encode() + EmbeddedBits(data)]
  }

  lemma {:induction false} TwoOctetLong(b: byte, data: seq<byte>)
    requires NeedsOctets(data)
    ensures DecodeNpdu(|data| + 2, [0, b] + data) == (Apci.Decode(b), data)
  {
    assert ([0, b] + data)[2..|data| + 2] == data;
  }

  lemma {:induction false} TwoOctetShort(b: byte)
    ensures DecodeNpdu(2, [0, b]) == (Apci.Decode(b), SmallData(b))
  {
  }

  lemma {:induction false} TwoOctetReading(apci: Apci, data: seq<byte>)
    requires apci.CarriesGroupValue() && |data| <= 253
    ensures var npdu := TwoOctetNpdu(apci, data);
      npdu[0] <= |npdu| - 1 && DecodeNpdu(npdu[0], npdu[1..]) == (apci, NormalData(data))
  {
    var b := apci.Encode() + EmbeddedBits(data);
    GroupValueReading(apci, b, data);
    if NeedsOctets(data) {
      TwoOctetLong(b, data);
      assert TwoOctetNpdu(apci, data)[1..] == [0, b] + data;
    } else {
      TwoOctetShort(b);
      assert TwoOctetNpdu(apci, data)[1..] == [0, b];
    }
  }

  /** Swapping the layout of the NPDU does not change the frame that is decoded. */
  lemma {:induction false} TwoLayoutsOneFrame(f: Frame)
    requires GroupFrame(f) && f.apci.CarriesGroupValue() && |f.data| <= 253
    ensures Decode([f.code.ToByte(), LenByte(InfosLen(f.infos))] + EncodeInfos(f.infos)
                   + (Header(f) + TwoOctetNpdu(f.apci, f.data)))
         == Parsed(Normal(f))
         == Decode(Encode(f))
  {
    var npdu := TwoOctetNpdu(f.apci, f.data);
    DecodeOfParts(f.code, f.infos, Header(f) + npdu);
    StandardBody(f, npdu);
    TwoOctetReading(f.apci, f.data);
    GroupFrameRoundTrip(f);
  }

  const KNOWN_BODY: seq<byte> := [0xBC, 0xE0, 0x11, 0x65, 0x08, 0x02, 0x03, 0x00, 0x80, 0x80]

  const KNOWN_FRAME :=
    Frame(LDataReq, [], KnxAddress.IndividualAddress(1, 1, 101), 0x0802, Group, 0, Low,
          false, false, true, GroupValueWrite, [0x80])

  /** A frame of an external stack: write 0x80 to 1/0/2 from 1.1.101, in the two-octet layout. */
  lemma KnownWire()
    ensures Decode([0x11, 0x00] + KNOWN_BODY) == Parsed(KNOWN_FRAME)
  {
    var body := KNOWN_BODY;
    DecodeOfParts(LDataReq, [], body);
    assert [0x11, 0x00] + [] + body == [0x11, 0x00] + body;
    KnownBody();
  }

  lemma KnownBody()
    ensures DecodeBody(LDataReq, [], KNOWN_BODY) == Parsed(KNOWN_FRAME)
  {
    assert KNOWN_BODY[7..] == [0x00, 0x80, 0x80];
    KnownNpdu();
    assert KnxAddress.Decode(0x1165) == KnxAddress.IndividualAddress(1, 1, 101);
  }

  lemma KnownNpdu()
    ensures DecodeNpdu(3, [0x00, 0x80, 0x80]) == (GroupValueWrite, [0x80])
  {
    ServiceOfOctet(0x80);
    assert [0x00, 0x80, 0x80][2..3] == [0x80];
  }

  // ---------------------------------------------------------------------------
  // The unguarded read
  // ---------------------------------------------------------------------------

  /** A well-formed L_Data or L_Raw head whose buffer ends at an NPDU length octet of 0. */
  predicate EndsAtEmptyNpdu(wire: seq<byte>) {
    && |wire| >= 2
    && MessageCode.FromByte(wire[0]).Some?
    && !MessageCode.FromByte(wire[0]).value.HasRawBody()
    && |wire| - 9 == wire[1]
    && DecodeInfos(wire[2..2 + wire[1]]).Ok?
    && wire[|wire| - 1] == 0
  }

  /** Decoding leaves the buffer on exactly these inputs. */
  lemma PanicIff(wire: seq<byte>)
    ensures Decode(wire).Panicked? <==> EndsAtEmptyNpdu(wire)
  {
    if |wire| >= 2 && MessageCode.FromByte(wire[0]).Some? && |wire| - 2 >= wire[1] {
      var body := wire[2 + wire[1]..];
      assert |body| == 7 ==> body[6] == wire[|wire| - 1];
    }
  }
}
