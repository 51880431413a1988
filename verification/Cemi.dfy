/**
  The cEMI frame codec (crates/mabi-knx/src/cemi.rs). Octets and 16-bit values
  are bounded integers: a mask of low bits is a remainder, a right shift a
  quotient, a narrowing cast a remainder, and an or of disjoint bits a sum.
  The one or of overlapping bits is `Bits.Or`.
 */
module Cemi {
  import opened Bits
  import KnxAddress
  import opened Wrappers

  datatype MessageCode =
    | LDataReq | LDataCon | LDataInd | LBusmonInd | LRawReq | LRawInd | LRawCon
    | MPropReadReq | MPropReadCon | MPropWriteReq | MPropWriteCon | MResetReq | MResetInd
  {
    function ToByte(): byte {
      match this
      case LDataReq => 0x11
      case LDataCon => 0x2E
      case LDataInd => 0x29
      case LBusmonInd => 0x2B
      case LRawReq => 0x10
      case LRawInd => 0x2D
      case LRawCon => 0x2F
      case MPropReadReq => 0xFC
      case MPropReadCon => 0xFB
      case MPropWriteReq => 0xF6
      case MPropWriteCon => 0xF5
      case MResetReq => 0xF1
      case MResetInd => 0xF0
    }

    predicate IsPropertyService() {
      MPropReadReq? || MPropReadCon? || MPropWriteReq? || MPropWriteCon?
    }

    predicate IsResetService() {
      MResetReq? || MResetInd?
    }

    /** Frames whose body is the data octets as they are. */
    predicate HasRawBody() {
      IsPropertyService() || IsResetService() || LBusmonInd?
    }

    static function FromByte(b: byte): Option<MessageCode> {
      match b
      case 0x11 => Some(LDataReq)
      case 0x2E => Some(LDataCon)
      case 0x29 => Some(LDataInd)
      case 0x2B => Some(LBusmonInd)
      case 0x10 => Some(LRawReq)
      case 0x2D => Some(LRawInd)
      case 0x2F => Some(LRawCon)
      case 0xFC => Some(MPropReadReq)
      case 0xFB => Some(MPropReadCon)
      case 0xF6 => Some(MPropWriteReq)
      case 0xF5 => Some(MPropWriteCon)
      case 0xF1 => Some(MResetReq)
      case 0xF0 => Some(MResetInd)
      case _ => None
    }
  }

  datatype Priority = System | Normal | Urgent | Low
  {
    function ToBits(): byte {
      match this
      case System => 0
      case Normal => 1
      case Urgent => 2
      case Low => 3
    }

    static function FromBits(value: byte): Priority {
      match value % 4
      case 0 => System
      case 1 => Normal
      case 2 => Urgent
      case _ => Low
    }
  }

  datatype Apci =
    | GroupValueRead | GroupValueResponse | GroupValueWrite
    | IndividualAddressWrite | IndividualAddressRead | IndividualAddressResponse
    | AdcRead | AdcResponse | MemoryRead | MemoryResponse | MemoryWrite | UserMessage
    | DeviceDescriptorRead | DeviceDescriptorResponse | Restart | Escape
    | Unknown(raw: word)
  {
    function Encode(): word {
      match this
      case GroupValueRead => 0x0000
      case GroupValueResponse => 0x0040
      case GroupValueWrite => 0x0080
      case IndividualAddressWrite => 0x0100
      case IndividualAddressRead => 0x0100
      case IndividualAddressResponse => 0x0140
      case AdcRead => 0x0180
      case AdcResponse => 0x01C0
      case MemoryRead => 0x0200
      case MemoryResponse => 0x0240
      case MemoryWrite => 0x0280
      case UserMessage => 0x02C0
      case DeviceDescriptorRead => 0x0300
      case DeviceDescriptorResponse => 0x0340
      case Restart => 0x0380
      case Escape => 0x03C0
      case Unknown(v) => v
    }

    static function Decode(value: word): Apci {
      var apci := value % 0x400;
      if apci == 0x0000 then GroupValueRead
      else if 0x0040 <= apci <= 0x007F then GroupValueResponse
      else if 0x0080 <= apci <= 0x00FF then GroupValueWrite
      else if 0x0100 <= apci <= 0x013F then IndividualAddressWrite
      else if 0x0140 <= apci <= 0x017F then IndividualAddressRead
      else if 0x0180 <= apci <= 0x01BF then IndividualAddressResponse
      else if 0x01C0 <= apci <= 0x01FF then AdcRead
      else if 0x0200 <= apci <= 0x023F then AdcResponse
      else if 0x0240 <= apci <= 0x027F then MemoryRead
      else if 0x0280 <= apci <= 0x02BF then MemoryResponse
      else if 0x02C0 <= apci <= 0x02FF then MemoryWrite
      else if 0x0300 <= apci <= 0x033F then UserMessage
      else if 0x0340 <= apci <= 0x037F then DeviceDescriptorRead
      else if 0x0380 <= apci <= 0x03BF then DeviceDescriptorResponse
      else if 0x03C0 <= apci <= 0x03DF then Restart
      else if 0x03E0 <= apci <= 0x03FF then Escape
      else Unknown(value)
    }

    /** A group write or response: the services whose payload survives both layouts. */
    predicate CarriesGroupValue() {
      GroupValueWrite? || GroupValueResponse?
    }
  }

  datatype AddressType = Individual | Group

  datatype AdditionalInfo = AdditionalInfo(infoType: byte, data: seq<byte>)

  datatype Frame = Frame(
    code: MessageCode,
    infos: seq<AdditionalInfo>,
    source: KnxAddress.IndividualAddress,
    destination: word,
    addressType: AddressType,
    hopCount: byte,
    priority: Priority,
    confirm: bool,
    ackRequest: bool,
    systemBroadcast: bool,
    apci: Apci,
    data: seq<byte>)

  datatype Error = FrameTooShort(expected: nat, actual: nat) | UnknownMessageCode(code: byte)

  datatype Result<+T> = Ok(value: T) | Err(error: Error)

  /** `Panicked` is the read past the end of the buffer that the decoder does not guard. */
  datatype Decoded = Parsed(frame: Frame) | Refused(error: Error) | Panicked

  // ---------------------------------------------------------------------------
  // Octets
  // ---------------------------------------------------------------------------

  /** `n as u8` */
  function LenByte(n: nat): byte {
    n % 0x100
  }

  function High(v: word): byte {
    v / 0x100
  }

  function Low8(v: word): byte {
    v % 0x100
  }

  function Join(high: byte, low: byte): word {
    high * 0x100 + low
  }

  // ---------------------------------------------------------------------------
  // The wire form
  // ---------------------------------------------------------------------------

  function EncodeInfo(info: AdditionalInfo): seq<byte> {
    [info.infoType, LenByte(|info.data|)] + info.data
  }

  function EncodeInfos(infos: seq<AdditionalInfo>): seq<byte> {
    if infos == [] then [] else EncodeInfo(infos[0]) + EncodeInfos(infos[1..])
  }

  /** The sum of `encoded_len` over the list. */
  function InfosLen(infos: seq<AdditionalInfo>): nat {
    if infos == [] then 0 else 2 + |infos[0].data| + InfosLen(infos[1..])
  }

  /** Bit 7 standard frame, bit 5 inverted acknowledge request, bits 3-2 priority, bit 0 confirm. */
  function Control1(f: Frame): byte {
    0x80 + (if f.ackRequest then 0x00 else 0x20) + (if f.confirm then 0x01 else 0x00) + f.priority.ToBits() * 4
  }

  /** Bit 7 group destination, bits 2-0 hop count. */
  function Control2(f: Frame): byte {
    (if f.addressType == Group then 0x80 else 0x00) + f.hopCount % 8
  }

  /** `apciByte | small`, where `small` has six bits. */
  function Embed(apciByte: byte, small: byte): byte
    requires small < 64
  {
    OrSixBits(apciByte % 64, small);
    apciByte / 64 * 64 + Or(apciByte % 64, small)
  }

  /** The NPDU with its length octet: APCI alone, APCI with six embedded bits, or APCI and data. */
  function EncodeNpdu(apci: Apci, data: seq<byte>): seq<byte> {
    NpduOf(Low8(apci.Encode()), data)
  }

  function NpduOf(apciByte: byte, data: seq<byte>): seq<byte> {
    if data == [] then [1, apciByte]
    else if |data| == 1 && data[0] <= 0x3F then [1, Embed(apciByte, data[0])]
    else [LenByte(|data| + 1), apciByte] + data
  }

  /** The six fixed octets in front of the NPDU. */
  function Header(f: Frame): seq<byte> {
    var source := KnxAddress.Encode(f.source);
    [Control1(f), Control2(f), High(source), Low8(source), High(f.destination), Low8(f.destination)]
  }

  function EncodeBody(f: Frame): seq<byte> {
    if f.code.HasRawBody() then f.data else Header(f) + EncodeNpdu(f.apci, f.data)
  }

  function Encode(f: Frame): seq<byte> {
    [f.code.ToByte(), LenByte(InfosLen(f.infos))] + EncodeInfos(f.infos) + EncodeBody(f)
  }

  // ---------------------------------------------------------------------------
  // Reading the wire form, by position
  // ---------------------------------------------------------------------------

  /** What a parse yields once `infos` have been taken off in front of it. */
  function After(infos: seq<AdditionalInfo>, r: Result<seq<AdditionalInfo>>): Result<seq<AdditionalInfo>> {
    if r.Ok? then Ok(infos + r.value) else r
  }

  function DecodeInfos(buf: seq<byte>): Result<seq<AdditionalInfo>> {
    if buf == [] then Ok([])
    else if |buf| < 2 then Err(FrameTooShort(2, |buf|))
    else
      var length := buf[1];
      if |buf| - 2 < length then Err(FrameTooShort(length, |buf| - 2))
      else After([AdditionalInfo(buf[0], buf[2..2 + length])], DecodeInfos(buf[2 + length..]))
  }

  function RawFrame(code: MessageCode, infos: seq<AdditionalInfo>, data: seq<byte>): Frame
    requires code.HasRawBody()
  {
    Frame(code, infos, KnxAddress.IndividualAddress(0, 0, 0), 0,
          if code.LBusmonInd? then Group else Individual, 7,
          if code.LBusmonInd? then Low else System,
          false, false, false, Unknown(0), data)
  }

  /** Six payload bits of an APCI octet; zero reads as no payload. */
  function SmallData(b: byte): seq<byte> {
    if b % 64 != 0 then [b % 64] else []
  }

  /** Service and payload of an NPDU of `length` octets at the front of `npdu`. */
  function DecodeNpdu(length: nat, npdu: seq<byte>): (Apci, seq<byte>)
    requires 0 < |npdu| && length <= |npdu|
  {
    if length >= 2 && npdu[0] < 4 then
      (Apci.Decode(Join(npdu[0], npdu[1])),
       if length == 2 then SmallData(npdu[1]) else npdu[2..length])
    else
      (Apci.Decode(npdu[0]),
       if length <= 1 then SmallData(npdu[0]) else npdu[1..length])
  }

  /** The frame that the two control octets, the addresses and the NPDU stand for. */
  function Assemble(code: MessageCode, infos: seq<AdditionalInfo>, ctrl1: byte, ctrl2: byte,
                    source: word, destination: word, apci: Apci, data: seq<byte>): Frame
  {
    Frame(code, infos, KnxAddress.Decode(source), destination,
          if ctrl2 / 0x80 % 2 != 0 then Group else Individual,
          ctrl2 % 8,
          Priority.FromBits(ctrl1 / 4 % 4),
          ctrl1 % 2 != 0,
          ctrl1 / 0x20 % 2 == 0,
          ctrl1 / 0x10 % 2 != 0,
          apci, data)
  }

  function DecodeStandard(code: MessageCode, infos: seq<AdditionalInfo>, buf: seq<byte>): Decoded {
    if |buf| < 7 then Refused(FrameTooShort(7, |buf|))
    else
      var length := buf[6];
      if |buf| - 7 < length then Refused(FrameTooShort(length, |buf| - 7))
      else if |buf| == 7 then Panicked
      else
        var (apci, data) := DecodeNpdu(length, buf[7..]);
        Parsed(Assemble(code, infos, buf[0], buf[1], Join(buf[2], buf[3]), Join(buf[4], buf[5]), apci, data))
  }

  function DecodeBody(code: MessageCode, infos: seq<AdditionalInfo>, buf: seq<byte>): Decoded {
    if code.HasRawBody() then Parsed(RawFrame(code, infos, buf))
    else DecodeStandard(code, infos, buf)
  }

  function Decode(data: seq<byte>): Decoded {
    if |data| < 2 then Refused(FrameTooShort(2, |data|))
    else
      match MessageCode.FromByte(data[0])
      case None => Refused(UnknownMessageCode(data[0]))
      case Some(code) =>
        var infoLen := data[1];
        if |data| - 2 < infoLen then Refused(FrameTooShort(infoLen, |data| - 2))
        else
          match DecodeInfos(data[2..2 + infoLen])
          case Err(e) => Refused(e)
          case Ok(infos) => DecodeBody(code, infos, data[2 + infoLen..])
  }

  // ---------------------------------------------------------------------------
  // The source's own loops: a growing buffer and a shrinking slice
  // ---------------------------------------------------------------------------

  lemma {:induction false} EncodeInfosAppend(infos: seq<AdditionalInfo>, info: AdditionalInfo)
    ensures EncodeInfos(infos + [info]) == EncodeInfos(infos) + EncodeInfo(info)
    ensures InfosLen(infos + [info]) == InfosLen(infos) + 2 + |info.data|
  {
    if infos == [] {
      assert infos + [info] == [info];
      assert EncodeInfos([info]) == EncodeInfo(info) + EncodeInfos([]);
    } else {
      assert (infos + [info])[1..] == infos[1..] + [info];
      EncodeInfosAppend(infos[1..], info);
    }
  }

  method PutNpdu(apci: Apci, data: seq<byte>, head: seq<byte>) returns (buf: seq<byte>)
    ensures buf == head + EncodeNpdu(apci, data)
  {
    var apciByte := Low8(apci.Encode());
    if data == [] {
      buf := head + [1];
      buf := buf + [apciByte];
    } else if |data| == 1 && data[0] <= 0x3F {
      buf := head + [1];
      buf := buf + [Embed(apciByte, data[0])];
    } else {
      buf := head + [LenByte(|data| + 1)];
      buf := buf + [apciByte];
      buf := buf + data;
    }
  }

  /** Control octets and addresses, appended to the buffer. */
  method PutHeader(f: Frame, head: seq<byte>) returns (buf: seq<byte>)
    ensures buf == head + Header(f)
  {
    buf := head + [Control1(f)];
    buf := buf + [Control2(f)];
    var source := KnxAddress.Encode(f.source);
    buf := buf + [High(source), Low8(source)];
    buf := buf + [High(f.destination), Low8(f.destination)];
  }

  method PutBody(f: Frame, head: seq<byte>) returns (buf: seq<byte>)
    ensures buf == head + EncodeBody(f)
  {
    if f.code.IsPropertyService() || f.code.IsResetService() {
      return head + f.data;
    }
    if f.code.LBusmonInd? {
      return head + f.data;
    }
    buf := PutHeader(f, head);
    buf := PutNpdu(f.apci, f.data, buf);
    assert buf == head + (Header(f) + EncodeNpdu(f.apci, f.data));
  }

  method PutInfo(info: AdditionalInfo, head: seq<byte>) returns (buf: seq<byte>)
    ensures buf == head + EncodeInfo(info)
  {
    buf := head + [info.infoType];
    buf := buf + [LenByte(|info.data|)];
    buf := buf + info.data;
  }

  /** The length sum and the loop of `encode` over the additional information. */
  method PutInfos(infos: seq<AdditionalInfo>, head: seq<byte>) returns (buf: seq<byte>)
    ensures buf == head + [LenByte(InfosLen(infos))] + EncodeInfos(infos)
  {
    var infoLen := 0;
    for i := 0 to |infos|
      invariant infoLen == InfosLen(infos[..i])
    {
      assert infos[..i + 1] == infos[..i] + [infos[i]];
      EncodeInfosAppend(infos[..i], infos[i]);
      infoLen := infoLen + 2 + |infos[i].data|;
    }
    assert infos[..|infos|] == infos;
    buf := head + [LenByte(infoLen)];
    ghost var start := buf;
    for i := 0 to |infos|
      invariant buf == start + EncodeInfos(infos[..i])
    {
      assert infos[..i + 1] == infos[..i] + [infos[i]];
      EncodeInfosAppend(infos[..i], infos[i]);
      buf := PutInfo(infos[i], buf);
      assert buf == start + (EncodeInfos(infos[..i]) + EncodeInfo(infos[i]));
    }
  }

  /** `encode`: writes octet after octet into a buffer. */
  method EncodeFrame(f: Frame) returns (buf: seq<byte>)
    ensures buf == Encode(f)
  {
    buf := [f.code.ToByte()];
    buf := PutInfos(f.infos, buf);
    buf := PutBody(f, buf);
  }

  lemma AfterCompose(first: seq<AdditionalInfo>, second: seq<AdditionalInfo>, r: Result<seq<AdditionalInfo>>)
    ensures After(first, After(second, r)) == After(first + second, r)
    ensures After([], r) == r
  {
    if r.Ok? {
      assert first + (second + r.value) == (first + second) + r.value;
      assert [] + r.value == r.value;
    }
  }

  /** `AdditionalInfo::decode`: takes one item off the front of the slice. */
  method TakeInfo(buf: seq<byte>) returns (r: Result<AdditionalInfo>, rest: seq<byte>)
    ensures buf != [] && r.Err? ==> DecodeInfos(buf) == Err(r.error)
    ensures buf != [] && r.Ok? ==> DecodeInfos(buf) == After([r.value], DecodeInfos(rest))
    ensures r.Ok? ==> |rest| + 2 <= |buf|
  {
    rest := buf;
    if |rest| < 2 {
      return Err(FrameTooShort(2, |rest|)), rest;
    }
    var infoType := rest[0];
    rest := rest[1..];
    var octet := rest[0];
    rest := rest[1..];
    assert octet == buf[1] && rest == buf[2..];
    var length := octet;
    if |rest| < length {
      return Err(FrameTooShort(length, |rest|)), rest;
    }
    var data := rest[..length];
    rest := rest[length..];
    assert data == buf[2..2 + length] && rest == buf[2 + length..];
    r := Ok(AdditionalInfo(infoType, data));
  }

  /** The `while` loop over the additional-information slice. */
  method TakeInfos(slice: seq<byte>) returns (r: Result<seq<AdditionalInfo>>)
    ensures r == DecodeInfos(slice)
  {
    var buf := slice;
    var infos: seq<AdditionalInfo> := [];
    AfterCompose([], [], DecodeInfos(buf));
    while buf != []
      invariant DecodeInfos(slice) == After(infos, DecodeInfos(buf))
      decreases |buf|
    {
      var item, rest := TakeInfo(buf);
      if item.Err? {
        return Err(item.error);
      }
      AfterCompose(infos, [item.value], DecodeInfos(rest));
      buf := rest;
      infos := infos + [item.value];
    }
    assert infos + [] == infos;
    return Ok(infos);
  }

  /** `decode`: every read is taken from the front of the slice that is left. */
  method DecodeFrame(data: seq<byte>) returns (r: Decoded)
    ensures r == Decode(data)
  {
    if |data| < 2 {
      return Refused(FrameTooShort(2, |data|));
    }
    var buf := data;
    var code := MessageCode.FromByte(buf[0]);
    buf := buf[1..];
    if code.None? {
      return Refused(UnknownMessageCode(data[0]));
    }
    var infoLen := buf[0];
    buf := buf[1..];
    assert buf == data[2..] && infoLen == data[1];
    var infos := [];
    if infoLen > 0 {
      if |buf| < infoLen {
        return Refused(FrameTooShort(infoLen, |buf|));
      }
      assert buf[..infoLen] == data[2..2 + infoLen];
      var taken := TakeInfos(buf[..infoLen]);
      if taken.Err? {
        return Refused(taken.error);
      }
      infos := taken.value;
      buf := buf[infoLen..];
    }
    assert buf == data[2 + infoLen..];
    r := TakeBody(code.value, infos, buf);
  }

  method TakeBody(code: MessageCode, infos: seq<AdditionalInfo>, buf: seq<byte>) returns (r: Decoded)
    ensures r == DecodeBody(code, infos, buf)
  {
    if code.IsPropertyService() || code.IsResetService() {
      return Parsed(RawFrame(code, infos, buf));
    }
    if code.LBusmonInd? {
      return Parsed(RawFrame(code, infos, buf));
    }
    r := TakeStandard(code, infos, buf);
  }

  /** Picks the one-octet or the two-octet layout and takes the payload. */
  method TakeNpdu(length: nat, npdu: seq<byte>) returns (apci: Apci, data: seq<byte>)
    requires 0 < |npdu| && length <= |npdu|
    ensures (apci, data) == DecodeNpdu(length, npdu)
  {
    var buf := npdu;
    var first := buf[0];
    buf := buf[1..];
    if length >= 2 && first < 4 {
      var second := buf[0];
      buf := buf[1..];
      apci := Apci.Decode(Join(first, second));
      if length - 2 == 0 {
        data := SmallData(second);
      } else {
        data := buf[..length - 2];
      }
    } else {
      apci := Apci.Decode(first);
      if length <= 1 {
        data := SmallData(first);
      } else {
        data := buf[..length - 1];
      }
    }
    assert data == DecodeNpdu(length, npdu).1;
  }

  method TakeStandard(code: MessageCode, infos: seq<AdditionalInfo>, body: seq<byte>) returns (r: Decoded)
    ensures r == DecodeStandard(code, infos, body)
  {
    var buf := body;
    if |buf| < 7 {
      return Refused(FrameTooShort(7, |buf|));
    }
    var ctrl1, ctrl2 := buf[0], buf[1];
    buf := buf[2..];
    var source := Join(buf[0], buf[1]);
    buf := buf[2..];
    var destination := Join(buf[0], buf[1]);
    buf := buf[2..];
    var octet := buf[0];
    buf := buf[1..];
    assert octet == body[6] && buf == body[7..];
    var length := octet;
    if |buf| < length {
      return Refused(FrameTooShort(length, |buf|));
    }
    if |buf| == 0 {
      return Panicked;
    }
    var apci, data := TakeNpdu(length, buf);
    r := Parsed(Assemble(code, infos, ctrl1, ctrl2, source, destination, apci, data));
  }
}
