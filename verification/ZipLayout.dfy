/** The records of a stored archive, as PKWARE APPNOTE sections 4.3.7, 4.3.12 and 4.3.16 lay them out. */
module ZipLayout {
  import opened ByteStrings

  const LOCAL_FILE_SIGNATURE := 0x04034b50
  const CENTRAL_FILE_SIGNATURE := 0x02014b50
  const END_SIGNATURE := 0x06054b50
  const UTF8_FLAG := 0x0800
  const STORE_METHOD := 0
  const TWO_32 := 0x1_0000_0000
  const TWO_16 := 0x1_0000

  function LocalHeader(crc: nat, size: nat, nameLength: nat): Bytes
    requires crc < TWO_32 && size < TWO_32 && nameLength < TWO_16
  {
    Le32(LOCAL_FILE_SIGNATURE) + (Le16(20) + (Le16(UTF8_FLAG) + (Le16(STORE_METHOD) + (Le16(0) + (Le16(0) +
      (Le32(crc) + (Le32(size) + (Le32(size) + (Le16(nameLength) + Le16(0))))))))))
  }

  function CentralHeader(crc: nat, size: nat, nameLength: nat, localOffset: nat): Bytes
    requires crc < TWO_32 && size < TWO_32 && nameLength < TWO_16 && localOffset < TWO_32
  {
    Le32(CENTRAL_FILE_SIGNATURE) + (Le16(20) + (Le16(20) + (Le16(UTF8_FLAG) + (Le16(STORE_METHOD) + (Le16(0) +
      (Le16(0) + (Le32(crc) + (Le32(size) + (Le32(size) + (Le16(nameLength) + CentralTail(localOffset)))))))))))
  }

  /** Extra length, comment length, disk, internal and external attributes, local offset. */
  function CentralTail(localOffset: nat): Bytes
    requires localOffset < TWO_32
  {
    Le16(0) + (Le16(0) + (Le16(0) + (Le16(0) + (Le32(0) + Le32(localOffset)))))
  }

  function EndRecord(count: nat, centralSize: nat, centralOffset: nat): Bytes
    requires count < TWO_16 && centralSize < TWO_32 && centralOffset < TWO_32
  {
    Le32(END_SIGNATURE) + (Le16(0) + (Le16(0) + (Le16(count) + (Le16(count) +
      (Le32(centralSize) + (Le32(centralOffset) + Le16(0)))))))
  }

  /** `part` stands in `source` at `offset`. */
  predicate At(source: Bytes, offset: nat, part: Bytes) {
    offset + |part| <= |source| && source[offset..offset + |part|] == part
  }

  lemma AtSplits(source: Bytes, offset: nat, left: Bytes, right: Bytes)
    requires At(source, offset, left + right)
    ensures At(source, offset, left) && At(source, offset + |left|, right)
  {
    var whole := source[offset..offset + |left + right|];
    assert source[offset..offset + |left|] == whole[..|left|] == left;
    assert source[offset + |left|..offset + |left| + |right|] == whole[|left|..] == right;
  }

  lemma Reads16(source: Bytes, offset: nat, value: nat, rest: Bytes)
    requires value < TWO_16 && At(source, offset, Le16(value) + rest)
    ensures offset + 2 <= |source| && ReadLe16(source, offset) == value && At(source, offset + 2, rest)
  {
    AtSplits(source, offset, Le16(value), rest);
    Le16ReadsBack(source, offset, value);
  }

  lemma Reads32(source: Bytes, offset: nat, value: nat, rest: Bytes)
    requires value < TWO_32 && At(source, offset, Le32(value) + rest)
    ensures offset + 4 <= |source| && ReadLe32(source, offset) == value && At(source, offset + 4, rest)
  {
    AtSplits(source, offset, Le32(value), rest);
    Le32ReadsBack(source, offset, value);
  }

  lemma LocalHeaderReadsBack(source: Bytes, o: nat, crc: nat, size: nat, nameLength: nat)
    requires crc < TWO_32 && size < TWO_32 && nameLength < TWO_16
    requires At(source, o, LocalHeader(crc, size, nameLength))
    ensures |LocalHeader(crc, size, nameLength)| == 30 && o + 30 <= |source|
    ensures ReadLe32(source, o) == LOCAL_FILE_SIGNATURE
    ensures ReadLe16(source, o + 6) == UTF8_FLAG && ReadLe16(source, o + 8) == STORE_METHOD
    ensures ReadLe32(source, o + 14) == crc
    ensures ReadLe32(source, o + 18) == size && ReadLe32(source, o + 22) == size
    ensures ReadLe16(source, o + 26) == nameLength && ReadLe16(source, o + 28) == 0
  {
    hide Le16, Le32, ReadLe16, ReadLe32, At;
    var t10 := Le16(nameLength) + Le16(0);
    var t9 := Le32(size) + t10;
    var t8 := Le32(size) + t9;
    var t7 := Le32(crc) + t8;
    var t6 := Le16(0) + t7;
    var t5 := Le16(0) + t6;
    var t4 := Le16(STORE_METHOD) + t5;
    var t3 := Le16(UTF8_FLAG) + t4;
    var t2 := Le16(20) + t3;
    Reads32(source, o, LOCAL_FILE_SIGNATURE, t2);
    Reads16(source, o + 4, 20, t3);
    Reads16(source, o + 6, UTF8_FLAG, t4);
    Reads16(source, o + 8, STORE_METHOD, t5);
    Reads16(source, o + 10, 0, t6);
    Reads16(source, o + 12, 0, t7);
    Reads32(source, o + 14, crc, t8);
    Reads32(source, o + 18, size, t9);
    Reads32(source, o + 22, size, t10);
    Reads16(source, o + 26, nameLength, Le16(0));
    Last16(source, o + 28, 0);
  }

  lemma Last16(source: Bytes, offset: nat, value: nat)
    requires value < TWO_16 && At(source, offset, Le16(value))
    ensures offset + 2 <= |source| && ReadLe16(source, offset) == value
  {
    Le16ReadsBack(source, offset, value);
  }

  lemma Last32(source: Bytes, offset: nat, value: nat)
    requires value < TWO_32 && At(source, offset, Le32(value))
    ensures offset + 4 <= |source| && ReadLe32(source, offset) == value
  {
    Le32ReadsBack(source, offset, value);
  }

  lemma CentralTailReadsBack(source: Bytes, o: nat, localOffset: nat)
    requires localOffset < TWO_32 && At(source, o, CentralTail(localOffset))
    ensures |CentralTail(localOffset)| == 16 && o + 16 <= |source|
    ensures ReadLe16(source, o) == 0 && ReadLe16(source, o + 2) == 0 && ReadLe16(source, o + 4) == 0
    ensures ReadLe32(source, o + 8) == 0 && ReadLe32(source, o + 12) == localOffset
  {
    hide Le16, Le32, ReadLe16, ReadLe32, At;
    var t5 := Le32(0) + Le32(localOffset);
    var t4 := Le16(0) + t5;
    var t3 := Le16(0) + t4;
    var t2 := Le16(0) + t3;
    Reads16(source, o, 0, t2);
    Reads16(source, o + 2, 0, t3);
    Reads16(source, o + 4, 0, t4);
    Reads16(source, o + 6, 0, t5);
    Reads32(source, o + 8, 0, Le32(localOffset));
    Last32(source, o + 12, localOffset);
  }

  lemma CentralHeaderReadsBack(source: Bytes, o: nat, crc: nat, size: nat, nameLength: nat, localOffset: nat)
    requires crc < TWO_32 && size < TWO_32 && nameLength < TWO_16 && localOffset < TWO_32
    requires At(source, o, CentralHeader(crc, size, nameLength, localOffset))
    ensures |CentralHeader(crc, size, nameLength, localOffset)| == 46 && o + 46 <= |source|
    ensures ReadLe32(source, o) == CENTRAL_FILE_SIGNATURE
    ensures ReadLe16(source, o + 8) == UTF8_FLAG && ReadLe16(source, o + 10) == STORE_METHOD
    ensures ReadLe32(source, o + 16) == crc
    ensures ReadLe32(source, o + 20) == size && ReadLe32(source, o + 24) == size
    ensures ReadLe16(source, o + 28) == nameLength
    ensures ReadLe16(source, o + 30) == 0 && ReadLe16(source, o + 32) == 0 && ReadLe16(source, o + 34) == 0
    ensures ReadLe32(source, o + 38) == 0 && ReadLe32(source, o + 42) == localOffset
  {
    hide Le16, Le32, ReadLe16, ReadLe32, At, CentralTail;
    var t11 := Le16(nameLength) + CentralTail(localOffset);
    var t10 := Le32(size) + t11;
    var t9 := Le32(size) + t10;
    var t8 := Le32(crc) + t9;
    var t7 := Le16(0) + t8;
    var t6 := Le16(0) + t7;
    var t5 := Le16(STORE_METHOD) + t6;
    var t4 := Le16(UTF8_FLAG) + t5;
    var t3 := Le16(20) + t4;
    var t2 := Le16(20) + t3;
    Reads32(source, o, CENTRAL_FILE_SIGNATURE, t2);
    Reads16(source, o + 4, 20, t3);
    Reads16(source, o + 6, 20, t4);
    Reads16(source, o + 8, UTF8_FLAG, t5);
    Reads16(source, o + 10, STORE_METHOD, t6);
    Reads16(source, o + 12, 0, t7);
    Reads16(source, o + 14, 0, t8);
    Reads32(source, o + 16, crc, t9);
    Reads32(source, o + 20, size, t10);
    Reads32(source, o + 24, size, t11);
    Reads16(source, o + 28, nameLength, CentralTail(localOffset));
    CentralTailReadsBack(source, o + 30, localOffset);
  }

  lemma EndRecordReadsBack(source: Bytes, o: nat, count: nat, centralSize: nat, centralOffset: nat)
    requires count < TWO_16 && centralSize < TWO_32 && centralOffset < TWO_32
    requires At(source, o, EndRecord(count, centralSize, centralOffset))
    ensures |EndRecord(count, centralSize, centralOffset)| == 22 && o + 22 <= |source|
    ensures ReadLe32(source, o) == END_SIGNATURE
    ensures ReadLe16(source, o + 4) == 0 && ReadLe16(source, o + 6) == 0
    ensures ReadLe16(source, o + 8) == count && ReadLe16(source, o + 10) == count
    ensures ReadLe32(source, o + 12) == centralSize && ReadLe32(source, o + 16) == centralOffset
    ensures ReadLe16(source, o + 20) == 0
  {
    hide Le16, Le32, ReadLe16, ReadLe32, At;
    var t7 := Le32(centralOffset) + Le16(0);
    var t6 := Le32(centralSize) + t7;
    var t5 := Le16(count) + t6;
    var t4 := Le16(count) + t5;
    var t3 := Le16(0) + t4;
    var t2 := Le16(0) + t3;
    Reads32(source, o, END_SIGNATURE, t2);
    Reads16(source, o + 4, 0, t3);
    Reads16(source, o + 6, 0, t4);
    Reads16(source, o + 8, count, t5);
    Reads16(source, o + 10, count, t6);
    Reads32(source, o + 12, centralSize, t7);
    Reads32(source, o + 16, centralOffset, Le16(0));
    Last16(source, o + 20, 0);
  }
}
