/**
  KNX individual addresses (crates/mabi-knx/src/address.rs): area, line and
  device packed into sixteen bits. The fields are private in the source and
  every constructor keeps area and line below 16, so the type says so.
 */
module KnxAddress {
  import opened Bits

  type nibble = n: int | 0 <= n < 16

  datatype IndividualAddress = IndividualAddress(area: nibble, line: nibble, device: byte)

  /** area << 12 | line << 8 | device */
  function Encode(a: IndividualAddress): word {
    a.area * 0x1000 + a.line * 0x100 + a.device
  }

  /** (v >> 12) & 0x0F, (v >> 8) & 0x0F, v & 0xFF */
  function Decode(value: word): IndividualAddress {
    IndividualAddress(value / 0x1000 % 16, value / 0x100 % 16, value % 0x100)
  }

  /** Area in the top four bits, line in the next four, device in the low octet. */
  lemma FieldBits(a: IndividualAddress)
    ensures var v := Encode(a); v / 0x1000 == a.area && v / 0x100 % 16 == a.line && v % 0x100 == a.device
  {
    var upper := a.area * 16 + a.line;
    assert Encode(a) / 0x100 == upper && upper % 16 == a.line;
  }

  lemma DecodeOfEncode(a: IndividualAddress)
    ensures Decode(Encode(a)) == a
  {
    FieldBits(a);
  }

  lemma EncodeOfDecode(value: word)
    ensures Encode(Decode(value)) == value
  {
    var upper := value / 0x100;
    assert value == upper * 0x100 + value % 0x100;
    assert upper == upper / 16 * 16 + upper % 16;
    assert value / 0x1000 == upper / 16;
    assert upper / 16 < 16;
  }
}
