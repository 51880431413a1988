/**
  The cEMI wire format as a table of octets: which octet strings are frames,
  where each field of a frame stands in them, and how the others are refused.
 */
module CemiWire {
  import opened Bits
  import opened Cemi
  import opened CemiRoundTrip
  import KnxAddress
  import opened Wrappers

  // ---------------------------------------------------------------------------
  // Code points
  // ---------------------------------------------------------------------------

  const MESSAGE_OCTETS: set<(MessageCode, int)> := {
    (LDataReq, 0x11), (LDataCon, 0x2E), (LDataInd, 0x29), (LBusmonInd, 0x2B),
    (LRawReq, 0x10), (LRawInd, 0x2D), (LRawCon, 0x2F),
    (MPropReadReq, 0xFC), (MPropReadCon, 0xFB), (MPropWriteReq, 0xF6), (MPropWriteCon, 0xF5),
    (MResetReq, 0xF1), (MResetInd, 0xF0)}

  /** Writing and reading a message code both follow the one table. */
  lemma MessageOctets(c: MessageCode, b: byte)
    ensures c.ToByte() == b <==> (c, b) in MESSAGE_OCTETS
    ensures MessageCode.FromByte(b) == Some(c) <==> (c, b) in MESSAGE_OCTETS
  {
  }

  /** The frames with control octets, addresses and an NPDU. */
  predicate Standard(c: MessageCode) {
    c in {LDataReq, LDataCon, LDataInd, LRawReq, LRawInd, LRawCon}
  }

  lemma StandardIsNotRaw(c: MessageCode)
    ensures Standard(c) <==> !c.HasRawBody()
  {
  }

  /** The ten-bit codes the services are written with; two services share 0x100. */
  lemma ServiceCodes(v: word)
    ensures GroupValueRead.Encode() == 0x000 && GroupValueResponse.Encode() == 0x040 && GroupValueWrite.Encode() == 0x080
    ensures IndividualAddressWrite.Encode() == IndividualAddressRead.Encode() == 0x100
    ensures IndividualAddressResponse.Encode() == 0x140 && AdcRead.Encode() == 0x180 && AdcResponse.Encode() == 0x1C0
    ensures MemoryRead.Encode() == 0x200 && MemoryResponse.Encode() == 0x240 && MemoryWrite.Encode() == 0x280
    ensures UserMessage.Encode() == 0x2C0 && Restart.Encode() == 0x380 && Escape.Encode() == 0x3C0
    ensures DeviceDescriptorRead.Encode() == 0x300 && DeviceDescriptorResponse.Encode() == 0x340
    ensures Unknown(v).Encode() == v
  {
  }

  /** The service that the code of `s` is read as: the reader's table is one row behind the writer's. */
  function OneRowBehind(s: Apci): Apci {
    match s
    case GroupValueRead => GroupValueRead
    case GroupValueResponse => GroupValueResponse
    case GroupValueWrite => GroupValueWrite
    case IndividualAddressWrite => IndividualAddressWrite
    case IndividualAddressRead => IndividualAddressWrite
    case IndividualAddressResponse => IndividualAddressRead
    case AdcRead => IndividualAddressResponse
    case AdcResponse => AdcRead
    case MemoryRead => AdcResponse
    case MemoryResponse => MemoryRead
    case MemoryWrite => MemoryResponse
    case UserMessage => MemoryWrite
    case DeviceDescriptorRead => UserMessage
    case DeviceDescriptorResponse => DeviceDescriptorRead
    case Restart => DeviceDescriptorResponse
    case Escape => Restart
    case Unknown(v) => Unknown(v)
  }

  /** Of the sixteen named services four are read as themselves. */
  lemma ServiceReadAs(s: Apci)
    requires !s.Unknown?
    ensures Apci.Decode(s.Encode()) == OneRowBehind(s)
    ensures Apci.Decode(s.Encode()) == s <==>
      s in {GroupValueRead, GroupValueResponse, GroupValueWrite, IndividualAddressWrite}
  {
  }

  /** A code is read by its block of 64, but in the first block and in the last. */
  lemma ServiceBlocks(v: word, w: word)
    requires v % 0x400 / 0x40 == w % 0x400 / 0x40
    ensures 0 < v % 0x400 / 0x40 < 15 ==> Apci.Decode(v) == Apci.Decode(w)
    ensures 0x080 <= v % 0x400 < 0x100 ==> Apci.Decode(v) == GroupValueWrite
    ensures v % 0x400 < 0x40 ==> Apci.Decode(v) == if v % 0x400 == 0 then GroupValueRead else Unknown(v)
    ensures 0x3C0 <= v % 0x400 ==> Apci.Decode(v) == if v % 0x400 < 0x3E0 then Restart else Escape
  {
  }

  // ---------------------------------------------------------------------------
  // Where the fields stand
  // ---------------------------------------------------------------------------

  function PriorityCode(p: Priority): byte {
    match p
    case System => 0
    case Normal => 1
    case Urgent => 2
    case Low => 3
  }

  /** `body`, from its first control octet on, holds the fields of `f`. */
  predicate HoldsFields(body: seq<byte>, f: Frame)
    requires |body| >= 6
  {
    && body[0] / 4 % 4 == PriorityCode(f.priority)
    && (body[0] % 2 == 1 <==> f.confirm)
    && (body[0] / 0x20 % 2 == 0 <==> f.ackRequest)
    && (body[0] / 0x10 % 2 == 1 <==> f.systemBroadcast)
    && (body[1] >= 0x80 <==> f.addressType == Group)
    && body[1] % 8 == f.hopCount
    && body[2] == f.source.area * 16 + f.source.line
    && body[3] == f.source.device
    && body[4] == f.destination / 0x100
    && body[5] == f.destination % 0x100
  }

  /** Every standard frame that is read holds its fields where the octets say. */
  lemma FieldsRead(code: MessageCode, infos: seq<AdditionalInfo>, body: seq<byte>, f: Frame)
    requires Standard(code) && DecodeBody(code, infos, body) == Parsed(f)
    ensures |body| >= 8 && HoldsFields(body, f)
    ensures f.code == code && f.infos == infos
  {
    SourceOctets(body[2], body[3]);
    PriorityBits(body[0] / 4 % 4);
    HighBit(body[1]);
  }

  lemma SourceOctets(high: byte, low: byte)
    ensures var a := KnxAddress.Decode(Join(high, low)); high == a.area * 16 + a.line && low == a.device
  {
    var v := Join(high, low);
    assert v / 0x100 == high && v % 0x100 == low;
    assert v / 0x1000 == high / 16;
  }

  lemma PriorityBits(bits: byte)
    requires bits < 4
    ensures PriorityCode(Priority.FromBits(bits)) == bits
  {
  }

  lemma HighBit(b: byte)
    ensures b / 0x80 % 2 != 0 <==> b >= 0x80
  {
  }

  /** The first control octet: the standard-frame bit, three fields, zeros elsewhere. */
  lemma FirstControlOctet(f: Frame)
    ensures var c := Control1(f);
      && c / 0x80 == 1 && c / 0x40 % 2 == 0 && c / 2 % 2 == 0
      && c / 4 % 4 == PriorityCode(f.priority)
      && (c % 2 == 1 <==> f.confirm)
      && (c / 0x20 % 2 == 0 <==> f.ackRequest)
      && c / 0x10 % 2 == 0
  {
  }

  lemma SecondControlOctet(f: Frame)
    ensures var c := Control2(f);
      && (c >= 0x80 <==> f.addressType == Group)
      && c / 8 % 16 == 0
      && c % 8 == f.hopCount % 8
  {
  }

  /** What is written: the fields, but the hop count cut to three bits and no broadcast flag. */
  lemma FieldsWritten(f: Frame)
    ensures HoldsFields(Header(f), f.(hopCount := f.hopCount % 8, systemBroadcast := false))
  {
    FirstControlOctet(f);
    SecondControlOctet(f);
    AddressOctets(f.source);
  }

  lemma AddressOctets(a: KnxAddress.IndividualAddress)
    ensures var v := KnxAddress.Encode(a); High(v) == a.area * 16 + a.line && Low8(v) == a.device
  {
  }

  // ---------------------------------------------------------------------------
  // Which octet strings are frames
  // ---------------------------------------------------------------------------

  /** Message code, length octet, additional information, body. */
  predicate Framed(wire: seq<byte>, code: MessageCode, infos: seq<AdditionalInfo>, body: seq<byte>) {
    && |EncodeInfos(infos)| <= 255
    && wire == [code.ToByte(), |EncodeInfos(infos)|] + EncodeInfos(infos) + body
  }

  /** Raw bodies are free; a standard body holds its NPDU of at least one octet. */
  predicate Complete(code: MessageCode, body: seq<byte>) {
    Standard(code) ==> |body| >= 8 && body[6] <= |body| - 7
  }

  lemma {:induction false} DecodeFramed(wire: seq<byte>, code: MessageCode, infos: seq<AdditionalInfo>, body: seq<byte>)
    requires Framed(wire, code, infos, body)
    ensures Decode(wire) == DecodeBody(code, infos, body)
  {
    EncodedInfosLen(infos);
    InfosMiddle(infos);
    DecodeSplit(code, |EncodeInfos(infos)|, EncodeInfos(infos), infos, body);
  }

  lemma CompleteIff(code: MessageCode, infos: seq<AdditionalInfo>, body: seq<byte>)
    ensures DecodeBody(code, infos, body).Parsed? <==> Complete(code, body)
    ensures Standard(code) && |body| < 7 ==> DecodeBody(code, infos, body) == Refused(FrameTooShort(7, |body|))
    ensures Standard(code) && |body| >= 7 && body[6] > |body| - 7 ==>
      DecodeBody(code, infos, body) == Refused(FrameTooShort(body[6], |body| - 7))
  {
    StandardIsNotRaw(code);
  }

  /** The code is known and the additional information lies inside the octets. */
  predicate HeadFits(wire: seq<byte>) {
    |wire| >= 2 && MessageCode.FromByte(wire[0]).Some? && wire[1] <= |wire| - 2
  }

  lemma Cut(wire: seq<byte>, n: nat)
    requires 2 + n <= |wire|
    ensures wire == [wire[0], wire[1]] + wire[2..2 + n] + wire[2 + n..]
  {
  }

  lemma {:induction false} FramedBy(wire: seq<byte>, infos: seq<AdditionalInfo>)
    requires HeadFits(wire) && DecodeInfos(wire[2..2 + wire[1]]) == Ok(infos)
    ensures Framed(wire, MessageCode.FromByte(wire[0]).value, infos, wire[2 + wire[1]..])
  {
    var n := wire[1];
    MessageOctets(MessageCode.FromByte(wire[0]).value, wire[0]);
    InfosEncodeOfDecode(wire[2..2 + n]);
    assert |wire[2..2 + n]| == n;
    Cut(wire, n);
  }

  lemma {:induction false} FrameOf(wire: seq<byte>) returns (code: MessageCode, infos: seq<AdditionalInfo>, body: seq<byte>)
    requires Decode(wire).Parsed?
    ensures Framed(wire, code, infos, body)
  {
    var n := wire[1];
    code, infos, body := MessageCode.FromByte(wire[0]).value, DecodeInfos(wire[2..2 + n]).value, wire[2 + n..];
    FramedBy(wire, infos);
  }

  /** The octet strings that decode are exactly the framed ones with a complete body. */
  lemma {:induction false} AcceptedIff(wire: seq<byte>)
    ensures Decode(wire).Parsed? <==>
      exists code, infos, body :: Framed(wire, code, infos, body) && Complete(code, body)
  {
    if Decode(wire).Parsed? {
      var code, infos, body := FrameOf(wire);
      DecodeFramed(wire, code, infos, body);
      CompleteIff(code, infos, body);
    }
    forall code, infos, body | Framed(wire, code, infos, body) && Complete(code, body)
      ensures Decode(wire).Parsed?
    {
      DecodeFramed(wire, code, infos, body);
      CompleteIff(code, infos, body);
    }
  }

  /** Octets behind a standard frame are ignored; behind any other they belong to its data. */
  lemma {:induction false} TrailingOctets(wire: seq<byte>, extra: seq<byte>)
    requires Decode(wire).Parsed?
    ensures var f := Decode(wire).frame;
      Decode(wire + extra) == Parsed(if Standard(f.code) then f else f.(data := f.data + extra))
  {
    var code, infos, body := FrameOf(wire);
    DecodeFramed(wire, code, infos, body);
    var head := [code.ToByte(), |EncodeInfos(infos)|] + EncodeInfos(infos);
    assert (head + body) + extra == head + (body + extra);
    DecodeFramed(wire + extra, code, infos, body + extra);
    TrailingBody(code, infos, body, extra);
  }

  lemma {:induction false} TrailingBody(code: MessageCode, infos: seq<AdditionalInfo>, body: seq<byte>, extra: seq<byte>)
    requires DecodeBody(code, infos, body).Parsed?
    ensures var f := DecodeBody(code, infos, body).frame;
      && f.code == code
      && DecodeBody(code, infos, body + extra)
         == Parsed(if Standard(code) then f else f.(data := f.data + extra))
  {
    StandardIsNotRaw(code);
    if Standard(code) {
      TrailingStandard(code, infos, body, extra);
    }
  }

  lemma {:induction false} TrailingStandard(code: MessageCode, infos: seq<AdditionalInfo>, body: seq<byte>, extra: seq<byte>)
    requires |body| >= 8 && body[6] <= |body| - 7
    ensures DecodeStandard(code, infos, body).Parsed? && DecodeStandard(code, infos, body).frame.code == code
    ensures DecodeStandard(code, infos, body + extra) == DecodeStandard(code, infos, body)
  {
    var longer := body + extra;
    assert longer[..7] == body[..7] && longer[7..] == body[7..] + extra;
    TrailingNpdu(body[6], body[7..], extra);
  }

  lemma {:induction false} TrailingNpdu(length: nat, npdu: seq<byte>, extra: seq<byte>)
    requires 0 < |npdu| && length <= |npdu|
    ensures DecodeNpdu(length, npdu + extra) == DecodeNpdu(length, npdu)
  {
    assert length >= 2 ==> (npdu + extra)[2..length] == npdu[2..length];
    assert length >= 1 ==> (npdu + extra)[1..length] == npdu[1..length];
  }

  // ---------------------------------------------------------------------------
  // How the others are refused
  // ---------------------------------------------------------------------------

  /** `rest` is no item: one octet alone, or fewer octets than its length octet says. */
  predicate Misfit(rest: seq<byte>, e: Error) {
    || (|rest| == 1 && e == FrameTooShort(2, 1))
    || (|rest| >= 2 && |rest| - 2 < rest[1] && e == FrameTooShort(rest[1], |rest| - 2))
  }

  /** Whole items up to a misfit. */
  predicate BreaksOff(buf: seq<byte>, infos: seq<AdditionalInfo>, rest: seq<byte>, e: Error) {
    FitsLengthOctet(infos) && buf == EncodeInfos(infos) + rest && Misfit(rest, e)
  }

  ghost predicate Broken(buf: seq<byte>, e: Error) {
    exists infos, rest :: BreaksOff(buf, infos, rest, e)
  }

  lemma {:induction false} DecodeItemsThen(infos: seq<AdditionalInfo>, rest: seq<byte>)
    requires FitsLengthOctet(infos)
    ensures DecodeInfos(EncodeInfos(infos) + rest) == After(infos, DecodeInfos(rest))
  {
    if infos == [] {
      assert EncodeInfos(infos) + rest == rest;
      AfterCompose([], [], DecodeInfos(rest));
    } else {
      var tail := infos[1..];
      DecodeItemsThen(tail, rest);
      DecodeOneInfo(infos[0], EncodeInfos(tail) + rest);
      assert EncodeInfos(infos) + rest == EncodeInfo(infos[0]) + (EncodeInfos(tail) + rest);
      AfterCompose([infos[0]], tail, DecodeInfos(rest));
      assert [infos[0]] + tail == infos;
    }
  }

  lemma OneItemMore(first: AdditionalInfo, buf: seq<byte>, infos: seq<AdditionalInfo>, rest: seq<byte>, e: Error)
    requires |first.data| <= 255 && BreaksOff(buf, infos, rest, e)
    ensures BreaksOff(EncodeInfo(first) + buf, [first] + infos, rest, e)
  {
    EncodeInfosCons(first, infos);
    assert EncodeInfo(first) + (EncodeInfos(infos) + rest) == (EncodeInfo(first) + EncodeInfos(infos)) + rest;
  }

  lemma {:induction false} FirstItem(buf: seq<byte>) returns (first: AdditionalInfo, more: seq<byte>)
    requires |buf| >= 2 && buf[1] <= |buf| - 2
    ensures |first.data| <= 255 && buf == EncodeInfo(first) + more && |more| < |buf|
    ensures DecodeInfos(buf) == After([first], DecodeInfos(more))
  {
    var n := buf[1];
    first, more := AdditionalInfo(buf[0], buf[2..2 + n]), buf[2 + n..];
    Cut(buf, n);
  }

  lemma {:induction false} FindMisfit(buf: seq<byte>) returns (infos: seq<AdditionalInfo>, rest: seq<byte>)
    requires DecodeInfos(buf).Err?
    ensures BreaksOff(buf, infos, rest, DecodeInfos(buf).error)
    decreases |buf|
  {
    if |buf| < 2 || |buf| - 2 < buf[1] {
      infos, rest := [], buf;
      assert [] + buf == buf;
    } else {
      var first, more := FirstItem(buf);
      infos, rest := FindMisfit(more);
      OneItemMore(first, more, infos, rest, DecodeInfos(more).error);
      infos := [first] + infos;
    }
  }

  /** The list is refused exactly at the first octets that are no item, and with their count. */
  lemma {:induction false} InfosRefusedIff(buf: seq<byte>, e: Error)
    ensures DecodeInfos(buf) == Err(e) <==> Broken(buf, e)
  {
    if DecodeInfos(buf) == Err(e) {
      var infos, rest := FindMisfit(buf);
    }
    forall infos, rest | BreaksOff(buf, infos, rest, e)
      ensures DecodeInfos(buf) == Err(e)
    {
      DecodeItemsThen(infos, rest);
    }
  }

  predicate KnownOctet(b: byte) {
    exists c :: (c, b) in MESSAGE_OCTETS
  }

  lemma KnownOctetIff(b: byte)
    ensures MessageCode.FromByte(b).Some? <==> KnownOctet(b)
  {
    if MessageCode.FromByte(b).Some? {
      MessageOctets(MessageCode.FromByte(b).value, b);
    }
    forall c | (c, b) in MESSAGE_OCTETS
      ensures MessageCode.FromByte(b) == Some(c)
    {
      MessageOctets(c, b);
    }
  }

  /** Too short, an unknown code, or a length octet that points past the end. */
  predicate HeadReason(wire: seq<byte>, e: Error) {
    if |wire| < 2 then e == FrameTooShort(2, |wire|)
    else if !KnownOctet(wire[0]) then e == UnknownMessageCode(wire[0])
    else |wire| - 2 < wire[1] && e == FrameTooShort(wire[1], |wire| - 2)
  }

  ghost predicate InfosReason(wire: seq<byte>, e: Error) {
    |wire| >= 2 && KnownOctet(wire[0]) && wire[1] <= |wire| - 2 && Broken(wire[2..2 + wire[1]], e)
  }

  /** A standard body that ends before its length octet, or before the NPDU does. */
  predicate ShortBody(body: seq<byte>, e: Error) {
    if |body| < 7 then e == FrameTooShort(7, |body|)
    else |body| - 7 < body[6] && e == FrameTooShort(body[6], |body| - 7)
  }

  ghost predicate BodyReason(wire: seq<byte>, e: Error) {
    exists code, infos, body :: Framed(wire, code, infos, body) && Standard(code) && ShortBody(body, e)
  }

  lemma ShortBodyIff(code: MessageCode, infos: seq<AdditionalInfo>, body: seq<byte>, e: Error)
    ensures DecodeBody(code, infos, body) == Refused(e) <==> Standard(code) && ShortBody(body, e)
  {
    StandardIsNotRaw(code);
  }

  lemma {:induction false} BodyRefused(wire: seq<byte>, e: Error)
    requires BodyReason(wire, e)
    ensures Decode(wire) == Refused(e)
  {
    var code, infos, body :| Framed(wire, code, infos, body) && Standard(code) && ShortBody(body, e);
    DecodeFramed(wire, code, infos, body);
    ShortBodyIff(code, infos, body, e);
  }

  lemma {:induction false} InfosRefused(wire: seq<byte>, e: Error)
    requires InfosReason(wire, e)
    ensures Decode(wire) == Refused(e)
  {
    KnownOctetIff(wire[0]);
    InfosRefusedIff(wire[2..2 + wire[1]], e);
  }

  lemma HeadRefused(wire: seq<byte>, e: Error)
    requires HeadReason(wire, e)
    ensures Decode(wire) == Refused(e)
  {
    if |wire| >= 2 {
      KnownOctetIff(wire[0]);
    }
  }

  lemma {:induction false} ReasonGiven(wire: seq<byte>, e: Error)
    requires Decode(wire) == Refused(e) && !HeadReason(wire, e) && !InfosReason(wire, e)
    ensures BodyReason(wire, e)
  {
    KnownOctetIff(wire[0]);
    var middle := wire[2..2 + wire[1]];
    InfosRefusedIff(middle, e);
    var code, infos, body := MessageCode.FromByte(wire[0]).value, DecodeInfos(middle).value, wire[2 + wire[1]..];
    FramedBy(wire, infos);
    DecodeFramed(wire, code, infos, body);
    ShortBodyIff(code, infos, body, e);
  }

  /** Every refusal, and the error it carries: in the head, in the additional information or in the body. */
  lemma {:induction false} RefusedIff(wire: seq<byte>, e: Error)
    ensures Decode(wire) == Refused(e) <==> HeadReason(wire, e) || InfosReason(wire, e) || BodyReason(wire, e)
  {
    if HeadReason(wire, e) {
      HeadRefused(wire, e);
    } else if InfosReason(wire, e) {
      InfosRefused(wire, e);
    } else if BodyReason(wire, e) {
      BodyRefused(wire, e);
    } else if Decode(wire) == Refused(e) {
      ReasonGiven(wire, e);
    }
  }
}
