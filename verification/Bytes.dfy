/** Byte strings and little-endian integers, as the archive and journal formats use them. */
module ByteStrings {
  newtype byte = value: int | 0 <= value < 256

  type Bytes = seq<byte>

  function Le16(value: nat): (bytes: Bytes)
    requires value < 0x1_0000
    ensures |bytes| == 2
  {
    [(value % 256) as byte, (value / 256) as byte]
  }

  function ReadLe16(bytes: Bytes, offset: nat): (value: nat)
    requires offset + 2 <= |bytes|
    ensures value < 0x1_0000
  {
    bytes[offset] as nat + 256 * bytes[offset + 1] as nat
  }

  function Le32(value: nat): (bytes: Bytes)
    requires value < 0x1_0000_0000
    ensures |bytes| == 4
  {
    Le16(value % 0x1_0000) + Le16(value / 0x1_0000)
  }

  function ReadLe32(bytes: Bytes, offset: nat): (value: nat)
    requires offset + 4 <= |bytes|
    ensures value < 0x1_0000_0000
  {
    ReadLe16(bytes, offset) + 0x1_0000 * ReadLe16(bytes, offset + 2)
  }

  lemma Le16RoundTrip(value: nat)
    requires value < 0x1_0000
    ensures ReadLe16(Le16(value), 0) == value
  {
  }

  /** An integer written anywhere inside a byte string is read back from there. */
  lemma Le16ReadsBack(bytes: Bytes, offset: nat, value: nat)
    requires value < 0x1_0000 && offset + 2 <= |bytes| && bytes[offset..offset + 2] == Le16(value)
    ensures ReadLe16(bytes, offset) == value
  {
    Le16RoundTrip(value);
    assert bytes[offset] == bytes[offset..offset + 2][0] && bytes[offset + 1] == bytes[offset..offset + 2][1];
  }

  lemma Le32ReadsBack(bytes: Bytes, offset: nat, value: nat)
    requires value < 0x1_0000_0000 && offset + 4 <= |bytes| && bytes[offset..offset + 4] == Le32(value)
    ensures ReadLe32(bytes, offset) == value
  {
    var low, high := Le16(value % 0x1_0000), Le16(value / 0x1_0000);
    assert bytes[offset..offset + 2] == bytes[offset..offset + 4][..2] == low;
    assert bytes[offset + 2..offset + 4] == bytes[offset..offset + 4][2..] == high;
    Le16ReadsBack(bytes, offset, value % 0x1_0000);
    Le16ReadsBack(bytes, offset + 2, value / 0x1_0000);
  }
}
