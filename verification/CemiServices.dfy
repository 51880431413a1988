/**
  The bus-monitor, property and reset frames of cemi.rs: how they are built,
  and what the other side reads from the wire.
 */
module CemiServices {
  import opened Bits
  import opened Cemi
  import opened CemiRoundTrip
  import KnxAddress
  import opened Wrappers

  type dword = n: int | 0 <= n < 0x1_0000_0000

  function WordBytes(v: word): seq<byte> {
    [High(v), Low8(v)]
  }

  function DwordBytes(v: dword): seq<byte> {
    WordBytes(v / 0x1_0000) + WordBytes(v % 0x1_0000)
  }

  function BusMonitorIndication(rawFrame: seq<byte>, status: byte, timestampMs: word): Frame {
    Frame(LBusmonInd, [AdditionalInfo(0x03, [status]), AdditionalInfo(0x04, WordBytes(timestampMs))],
          KnxAddress.IndividualAddress(0, 0, 0), 0, Group, 7, Low, false, false, false, Unknown(0), rawFrame)
  }

  function BusMonitorIndicationExt(rawFrame: seq<byte>, status: byte, timestampMs: word, timestampUs: dword): Frame {
    var frame := BusMonitorIndication(rawFrame, status, timestampMs);
    frame.(infos := frame.infos + [AdditionalInfo(0x06, DwordBytes(timestampUs))])
  }

  /** Element count in the top four bits, start index below: `count << 12 | start`, cut to 16 bits. */
  function CountIndex(count: byte, startIndex: byte): word {
    count % 16 * 0x1000 + startIndex
  }

  function PropertyHead(objectIndex: word, propertyId: word, count: byte, startIndex: byte): seq<byte> {
    WordBytes(objectIndex) + WordBytes(propertyId) + WordBytes(CountIndex(count, startIndex))
  }

  function PropReadCon(objectIndex: word, propertyId: word, count: byte, startIndex: byte, value: seq<byte>): Frame {
    Frame(MPropReadCon, [], KnxAddress.IndividualAddress(0, 0, 0), 0, Individual, 7, System,
          false, false, false, Unknown(0), PropertyHead(objectIndex, propertyId, count, startIndex) + value)
  }

  function PropWriteCon(objectIndex: word, propertyId: word, count: byte, startIndex: byte, success: bool): Frame {
    Frame(MPropWriteCon, [], KnxAddress.IndividualAddress(0, 0, 0), 0, Individual, 7, System,
          !success, false, false, Unknown(0),
          PropertyHead(objectIndex, propertyId, if success then count else 0, startIndex))
  }

  function ResetInd(): Frame {
    Frame(MResetInd, [], KnxAddress.IndividualAddress(0, 0, 0), 0, Individual, 7, System,
          false, false, false, Unknown(0), [])
  }

  datatype PropertyRequest = PropertyRequest(
    objectIndex: word, propertyId: word, count: byte, startIndex: byte, rest: seq<byte>)

  function ParsePropertyRequest(f: Frame): Option<PropertyRequest> {
    if |f.data| < 6 then None
    else
      var countIndex := Join(f.data[4], f.data[5]);
      Some(PropertyRequest(Join(f.data[0], f.data[1]), Join(f.data[2], f.data[3]),
                           countIndex / 0x1000, countIndex % 0x1000 % 0x100, f.data[6..]))
  }

  /** Monitor frames return field for field, and so do reset indications. */
  lemma {:induction false} MonitorAndResetRoundTrip(rawFrame: seq<byte>, status: byte, timestampMs: word, timestampUs: dword)
    ensures var f := BusMonitorIndication(rawFrame, status, timestampMs); Decode(Encode(f)) == Parsed(f)
    ensures var f := BusMonitorIndicationExt(rawFrame, status, timestampMs, timestampUs); Decode(Encode(f)) == Parsed(f)
    ensures Decode(Encode(ResetInd())) == Parsed(ResetInd())
  {
    var status', ms := AdditionalInfo(0x03, [status]), AdditionalInfo(0x04, WordBytes(timestampMs));
    var us := AdditionalInfo(0x06, DwordBytes(timestampUs));
    EncodeInfosAppend([], status');
    EncodeInfosAppend([status'], ms);
    EncodeInfosAppend([status', ms], us);
    assert [] + [status'] == [status'] && [status'] + [ms] == [status', ms];
    RawRoundTrip(LBusmonInd, [status', ms], rawFrame);
    RawRoundTrip(LBusmonInd, [status', ms] + [us], rawFrame);
    RawRoundTrip(MResetInd, [], []);
  }

  /** Big-endian: the value is the sum of the octets, each with its weight. */
  function BigEndian(octets: seq<byte>): nat {
    if octets == [] then 0 else BigEndian(octets[..|octets| - 1]) * 0x100 + octets[|octets| - 1]
  }

  lemma {:induction false} BigEndianTwo(a: byte, b: byte)
    ensures BigEndian([a, b]) == a * 0x100 + b
  {
    assert [a, b][..1] == [a] && [a][..0] == [];
    assert BigEndian([a]) == a;
  }

  lemma {:induction false} BigEndianFour(a: byte, b: byte, c: byte, d: byte)
    ensures BigEndian([a, b, c, d]) == ((a * 0x100 + b) * 0x100 + c) * 0x100 + d
  {
    assert [a, b, c, d][..3] == [a, b, c] && [a, b, c][..2] == [a, b];
    BigEndianTwo(a, b);
    assert BigEndian([a, b, c]) == BigEndian([a, b]) * 0x100 + c;
  }

  lemma {:induction false} TimestampOctets(ms: word, us: dword)
    ensures |WordBytes(ms)| == 2 && BigEndian(WordBytes(ms)) == ms
    ensures |DwordBytes(us)| == 4 && BigEndian(DwordBytes(us)) == us
  {
    BigEndianTwo(High(ms), Low8(ms));
    var h, l := us / 0x1_0000, us % 0x1_0000;
    assert DwordBytes(us) == [High(h), Low8(h), High(l), Low8(l)];
    BigEndianFour(High(h), Low8(h), High(l), Low8(l));
  }

  /** The receiver reads status and timestamps out of the items with types 0x03, 0x04 and 0x06. */
  lemma {:induction false} MonitorStampsRead(rawFrame: seq<byte>, status: byte, timestampMs: word, timestampUs: dword, got: Frame)
    requires Decode(Encode(BusMonitorIndicationExt(rawFrame, status, timestampMs, timestampUs))) == Parsed(got)
    ensures |got.infos| == 3 && got.data == rawFrame
    ensures got.infos[0] == AdditionalInfo(0x03, [status])
    ensures got.infos[1].infoType == 0x04 && |got.infos[1].data| == 2 && BigEndian(got.infos[1].data) == timestampMs
    ensures got.infos[2].infoType == 0x06 && |got.infos[2].data| == 4 && BigEndian(got.infos[2].data) == timestampUs
  {
    MonitorAndResetRoundTrip(rawFrame, status, timestampMs, timestampUs);
    TimestampOctets(timestampMs, timestampUs);
  }

  lemma {:induction false} RawRoundTrip(code: MessageCode, infos: seq<AdditionalInfo>, data: seq<byte>)
    requires code.HasRawBody() && InfosLen(infos) <= 255
    ensures Decode(Encode(RawFrame(code, infos, data))) == Parsed(RawFrame(code, infos, data))
  {
    FrameRoundTripIff(RawFrame(code, infos, data));
  }

  lemma CountIndexParts(count: byte, startIndex: byte)
    ensures var c := CountIndex(count, startIndex);
      c / 0x1000 == count % 16 && c % 0x1000 % 0x100 == startIndex
  {
  }

  lemma JoinSplit(v: word)
    ensures Join(High(v), Low8(v)) == v
  {
  }

  /** The data of a property answer parses to its fields, the count cut to four bits. */
  lemma {:induction false} ParseOfHead(objectIndex: word, propertyId: word, count: byte, startIndex: byte, value: seq<byte>, f: Frame)
    requires f.data == PropertyHead(objectIndex, propertyId, count, startIndex) + value
    ensures ParsePropertyRequest(f) == Some(PropertyRequest(objectIndex, propertyId, count % 16, startIndex, value))
  {
    var c := CountIndex(count, startIndex);
    var head := PropertyHead(objectIndex, propertyId, count, startIndex);
    assert head == [High(objectIndex), Low8(objectIndex), High(propertyId), Low8(propertyId), High(c), Low8(c)];
    assert f.data[..6] == head && f.data[6..] == value;
    JoinSplit(objectIndex);
    JoinSplit(propertyId);
    JoinSplit(c);
    CountIndexParts(count, startIndex);
  }

  /** Two octets each of object, property and count with index, then the value; nothing is read from fewer than six. */
  lemma {:induction false} ParsedOctets(f: Frame)
    ensures |f.data| < 6 <==> ParsePropertyRequest(f).None?
    ensures |f.data| >= 6 ==>
      var p := ParsePropertyRequest(f).value;
      && p.objectIndex == BigEndian([f.data[0], f.data[1]])
      && p.propertyId == BigEndian([f.data[2], f.data[3]])
      && p.count == f.data[4] / 16
      && p.startIndex == f.data[5]
      && p.rest == f.data[6..]
  {
    if |f.data| >= 6 {
      BigEndianTwo(f.data[0], f.data[1]);
      BigEndianTwo(f.data[2], f.data[3]);
      CountOctets(f.data[4], f.data[5]);
    }
  }

  lemma CountOctets(high: byte, low: byte)
    ensures var c := Join(high, low); c / 0x1000 == high / 16 && c % 0x1000 % 0x100 == low
  {
    var c := Join(high, low);
    assert c / 0x100 == high && c % 0x100 == low;
    assert c == c / 0x1000 * 0x1000 + c % 0x1000;
  }

  lemma CountBelow16(count: byte)
    ensures count % 16 == count <==> count < 16
  {
  }

  /** A property value survives building, encoding, decoding and parsing; the count does so exactly below 16. */
  lemma {:induction false} PropertyReadAnswer(objectIndex: word, propertyId: word, count: byte, startIndex: byte,
                                              value: seq<byte>)
    ensures var f := PropReadCon(objectIndex, propertyId, count, startIndex, value);
      && Decode(Encode(f)) == Parsed(f)
      && ParsePropertyRequest(f).Some?
      && (ParsePropertyRequest(f).value == PropertyRequest(objectIndex, propertyId, count, startIndex, value)
          <==> count < 16)
  {
    var data := PropertyHead(objectIndex, propertyId, count, startIndex) + value;
    RawRoundTrip(MPropReadCon, [], data);
    ParseOfHead(objectIndex, propertyId, count, startIndex, value, RawFrame(MPropReadCon, [], data));
    CountBelow16(count);
  }

  /** The `confirm` flag of a write answer is not on the wire. */
  lemma {:induction false} WriteAnswerImage(data: seq<byte>, success: bool)
    ensures var f := RawFrame(MPropWriteCon, [], data).(confirm := !success);
      && Decode(Encode(f)) == Parsed(f.(confirm := false))
      && (f == f.(confirm := false) <==> success)
  {
    DecodeOfEncode(RawFrame(MPropWriteCon, [], data).(confirm := !success));
  }

  /**
    A write answer loses its `confirm` flag on failure, so the receiver is left
    with the element count: zero on failure, but also on a success whose count
    is a multiple of 16.
   */
  lemma {:induction false} PropertyWriteAnswer(objectIndex: word, propertyId: word, count: byte, startIndex: byte,
                                               success: bool)
    ensures var f := PropWriteCon(objectIndex, propertyId, count, startIndex, success);
      && Decode(Encode(f)) == Parsed(f.(confirm := false))
      && (Decode(Encode(f)) == Parsed(f) <==> success)
      && ParsePropertyRequest(f.(confirm := false)).Some?
      && (ParsePropertyRequest(f.(confirm := false)).value.count == 0 <==> !success || count % 16 == 0)
  {
    var shown := if success then count else 0;
    var data := PropertyHead(objectIndex, propertyId, shown, startIndex);
    WriteAnswerImage(data, success);
    assert data + [] == data;
    ParseOfHead(objectIndex, propertyId, shown, startIndex, [], RawFrame(MPropWriteCon, [], data));
  }
}
