/** The decoder with the archive's real checksum: what was written comes back, and small damage is refused. */
module ZipIntegrity {
  import opened Wrappers
  import opened ByteStrings
  import opened ZipLayout
  import opened ZipRanges
  import opened Zip
  import opened ZipDecode
  import Crc32
  import CrcBursts

  function OctetValue(octet: bv8): nat { octet as nat }

  function NextOctet(octet: bv8): bv8 { octet + 1 }

  lemma NextOctetCounts(octet: bv8)
    requires OctetValue(octet) < 255
    ensures OctetValue(NextOctet(octet)) == OctetValue(octet) + 1
  {
  }

  lemma FirstOctet()
    ensures OctetValue(0) == 0
  {
  }

  /** The eight bits of a byte, counted up so that they keep its value. */
  function Octet(value: nat): (octet: bv8)
    requires value < 256
    ensures OctetValue(octet) == value
  {
    if value == 0 then
      FirstOctet();
      0
    else
      hide OctetValue, NextOctet;
      NextOctetCounts(Octet(value - 1));
      NextOctet(Octet(value - 1))
  }

  function Octets(bytes: Bytes): (octets: seq<bv8>)
    ensures |octets| == |bytes| && forall i | 0 <= i < |bytes| :: octets[i] == Octet(bytes[i] as nat)
  {
    seq(|bytes|, i requires 0 <= i < |bytes| => Octet(bytes[i] as nat))
  }

  function WordValue(word: bv32): (value: nat)
    ensures value < TWO_32
  {
    word as nat
  }

  /** The CRC-32 of a byte string, as the number the archive stores. */
  function CrcOf(bytes: Bytes): (crc: nat)
    ensures crc < TWO_32
  {
    WordValue(Crc32.Checksum(Octets(bytes)))
  }

  ghost predicate UsesCrc32(text: Text) {
    forall bytes :: text.checksum(bytes) == CrcOf(bytes)
  }

  lemma WordsTellApart(x: bv32, y: bv32)
    requires WordValue(x) == WordValue(y)
    ensures x == y
  {
    assert x == (x as nat) as bv32 && y == (y as nat) as bv32;
  }

  /** Encode, then decode, at the real checksum. */
  lemma RoundTripWithCrc32(text: Text, entries: seq<Entry>)
    requires UsesCrc32(text) && Fits(text, entries) && forall entry | entry in entries :: WellFormed(text, entry.name)
    ensures AllEncodable(text, entries) && |entries| < TWO_16
    ensures |Locals(text, entries)| < TWO_32 && |Centrals(text, entries)| < TWO_32
    ensures Decode(text, Encoded(text, entries)).Ok?
    ensures var decoded := Decode(text, Encoded(text, entries)).value;
      |decoded| == |entries| && forall i | 0 <= i < |entries| ::
        decoded[i] == Decoded(entries[i].name, entries[i].bytes, CrcOf(entries[i].bytes))
  {
    hide Fits, Encoded, Decode;
    ZipRoundTrip(text, entries);
  }

  // ----- Damage -----

  /** The same bytes, except perhaps for `count` of them from `from` on. */
  ghost predicate SameExcept(archive: Bytes, damaged: Bytes, from: nat, count: nat) {
    && |archive| == |damaged|
    && forall i | 0 <= i < |archive| && !(from <= i < from + count) :: archive[i] == damaged[i]
  }

  lemma IntegersUntouched(archive: Bytes, damaged: Bytes, from: nat, count: nat, offset: nat)
    requires SameExcept(archive, damaged, from, count)
    ensures offset + 2 <= |archive| && (offset + 2 <= from || from + count <= offset) ==>
      ReadLe16(archive, offset) == ReadLe16(damaged, offset)
    ensures offset + 4 <= |archive| && (offset + 4 <= from || from + count <= offset) ==>
      ReadLe32(archive, offset) == ReadLe32(damaged, offset)
  {
  }

  lemma {:induction false} EndUntouched(
    archive: Bytes, damaged: Bytes, from: nat, count: nat, offset: int, minimum: nat)
    requires SameExcept(archive, damaged, from, count) && offset + 22 <= |archive|
    requires FindEnd(archive, offset, minimum).Some? && from + count <= FindEnd(archive, offset, minimum).value
    ensures FindEnd(damaged, offset, minimum) == FindEnd(archive, offset, minimum)
    decreases offset
  {
    hide ReadLe32;
    IntegersUntouched(archive, damaged, from, count, offset);
    if ReadLe32(archive, offset) != END_SIGNATURE {
      EndUntouched(archive, damaged, from, count, offset - 1, minimum);
    }
  }

  lemma EndRecordUntouched(archive: Bytes, damaged: Bytes, from: nat, count: nat, end: nat)
    requires SameExcept(archive, damaged, from, count) && from + count <= end && end + 22 <= |archive|
    ensures ReadEndRecord(damaged, end) == ReadEndRecord(archive, end)
  {
  }

  lemma DirectoryUntouched(archive: Bytes, damaged: Bytes, from: nat, count: nat)
    requires SameExcept(archive, damaged, from, count)
    requires ReadDirectory(archive).Ok? && from + count <= ReadDirectory(archive).value.offset
    ensures ReadDirectory(damaged) == ReadDirectory(archive)
  {
    hide FindEnd, ReadEndRecord;
    var found := FindEnd(archive, |archive| - 22, EndMinimum(archive));
    EndUntouched(archive, damaged, from, count, |archive| - 22, EndMinimum(archive));
    EndRecordUntouched(archive, damaged, from, count, found.value);
  }

  lemma CentralUntouched(
    text: Text, archive: Bytes, damaged: Bytes, from: nat, count: nat, cursor: nat, end: nat, total: nat)
    requires SameExcept(archive, damaged, from, count) && from + count <= cursor && end <= |archive|
    ensures ReadCentral(text, damaged, cursor, end, total) == ReadCentral(text, archive, cursor, end, total)
  {
    hide NameError;
    if cursor + 46 <= end {
      var stop := cursor + 46 + ReadLe16(archive, cursor + 28);
      if stop <= end {
        assert archive[cursor + 46..stop] == damaged[cursor + 46..stop];
      }
    }
  }

  /** The damage spares the local record of this member: it lies in the data, or in another member. */
  ghost predicate Spares(member: Member, from: nat, count: nat) {
    from + count <= member.range.start || member.dataOffset <= from
  }

  lemma LocalUntouched(
    text: Text, archive: Bytes, damaged: Bytes, from: nat, count: nat, central: Central, centralOffset: nat)
    requires SameExcept(archive, damaged, from, count) && centralOffset <= |archive|
    requires ReadLocal(text, archive, central, centralOffset).Ok?
    requires Spares(ReadLocal(text, archive, central, centralOffset).value, from, count)
    ensures ReadLocal(text, damaged, central, centralOffset) == ReadLocal(text, archive, central, centralOffset)
  {
    hide ReadLe16, ReadLe32, WellPlaced;
    var o := central.localOffset;
    IntegersUntouched(archive, damaged, from, count, o);
    IntegersUntouched(archive, damaged, from, count, o + 6);
    IntegersUntouched(archive, damaged, from, count, o + 8);
    IntegersUntouched(archive, damaged, from, count, o + 14);
    IntegersUntouched(archive, damaged, from, count, o + 18);
    IntegersUntouched(archive, damaged, from, count, o + 22);
    IntegersUntouched(archive, damaged, from, count, o + 26);
    IntegersUntouched(archive, damaged, from, count, o + 28);
    var stop := o + 30 + ReadLe16(archive, o + 26);
    assert archive[o + 30..stop] == damaged[o + 30..stop];
  }

  lemma {:induction false} ReadMembersExtend(
    text: Text, archive: Bytes, directory: Directory, cursor: nat, left: nat, names: set<string>, total: nat,
    members: seq<Member>)
    requires directory.offset <= directory.end <= |archive|
    ensures var result := ReadMembers(text, archive, directory, cursor, left, names, total, members);
      result.Ok? ==> members <= result.value
    decreases left
  {
    hide ReadCentral, ReadLocal;
    if left > 0 {
      var central := ReadCentral(text, archive, cursor, directory.end, total);
      if central.Ok? {
        var local := ReadLocal(text, archive, central.value, directory.offset);
        if local.Ok? {
          ReadMembersExtend(
            text, archive, directory, central.value.next, left - 1,
            names + {text.collisionKey(central.value.name)}, total + central.value.size, members + [local.value]);
        }
      }
    }
  }

  lemma {:induction false} MembersUntouched(
    text: Text, archive: Bytes, damaged: Bytes, from: nat, count: nat, directory: Directory, cursor: nat, left: nat,
    names: set<string>, total: nat, members: seq<Member>)
    requires SameExcept(archive, damaged, from, count)
    requires directory.offset <= directory.end <= |archive| && from + count <= directory.offset <= cursor
    requires var result := ReadMembers(text, archive, directory, cursor, left, names, total, members);
      result.Ok? && forall member | member in result.value :: Spares(member, from, count)
    ensures ReadMembers(text, damaged, directory, cursor, left, names, total, members)
      == ReadMembers(text, archive, directory, cursor, left, names, total, members)
    decreases left
  {
    hide ReadCentral, ReadLocal, SameExcept, Spares, WellPlaced, SafeName;
    if left > 0 {
      CentralUntouched(text, archive, damaged, from, count, cursor, directory.end, total);
      var central := ReadCentral(text, archive, cursor, directory.end, total).value;
      var local := ReadLocal(text, archive, central, directory.offset).value;
      var key := text.collisionKey(central.name);
      ReadMembersExtend(
        text, archive, directory, central.next, left - 1, names + {key}, total + central.size, members + [local]);
      assert (members + [local])[|members|] == local;
      LocalUntouched(text, archive, damaged, from, count, central, directory.offset);
      MembersUntouched(
        text, archive, damaged, from, count, directory, central.next, left - 1, names + {key}, total + central.size,
        members + [local]);
    }
  }

  lemma DamageIsSpared(
    text: Text, archive: Bytes, member: Member, damagedMember: Member, end: nat, from: nat, count: nat)
    requires end <= |archive| && WellPlaced(text, archive, member, end) && WellPlaced(text, archive, damagedMember, end)
    requires member == damagedMember || Apart(member.range, damagedMember.range)
    requires damagedMember.dataOffset <= from && from + count <= damagedMember.dataOffset + damagedMember.size
    ensures Spares(member, from, count) && from + count <= end
  {
    hide ReadLe16, ReadLe32;
  }

  /** Damage inside the data of one member of a decodable archive leaves the list of members as it was. */
  lemma MembersSurviveDamage(text: Text, archive: Bytes, damaged: Bytes, k: nat, from: nat, count: nat)
    requires Decode(text, archive).Ok? && MembersRead(text, archive).Ok?
    requires k < |MembersRead(text, archive).value| && SameExcept(archive, damaged, from, count)
    requires var member := MembersRead(text, archive).value[k];
      member.dataOffset <= from && from + count <= member.dataOffset + member.size
    ensures MembersRead(text, damaged) == MembersRead(text, archive)
  {
    hide ReadDirectory, ReadMembers, Decode, SafeName, SameExcept, ChecksumsMatch, WellPlaced, Spares, Apart;
    var directory, members := ReadDirectory(archive).value, MembersRead(text, archive).value;
    DecodedMembersAreDisjoint(text, archive);
    assert members[k] in members;
    forall member | member in members
      ensures Spares(member, from, count) && from + count <= directory.offset
    {
      var i :| 0 <= i < |members| && members[i] == member;
      if i != k {
        assert Apart(RangesOf(members)[if i < k then i else k], RangesOf(members)[if i < k then k else i]);
        ApartBothWays(member.range, members[k].range);
      }
      DamageIsSpared(text, archive, member, members[k], directory.offset, from, count);
    }
    DirectoryUntouched(archive, damaged, from, count);
    MembersUntouched(
      text, archive, damaged, from, count, directory, directory.offset, directory.count, {}, 0, []);
  }

  lemma ApartBothWays(left: MemberRange, right: MemberRange)
    ensures Apart(left, right) <==> Apart(right, left)
  {
  }

  /** Equal checksums of a member before and after such damage mean that nothing was damaged. */
  lemma DamageShowsInChecksum(archive: Bytes, damaged: Bytes, member: Member, from: nat, count: nat)
    requires SameExcept(archive, damaged, from, count) && count <= 4
    requires Inside(archive, member) && Inside(damaged, member)
    requires member.dataOffset <= from && from + count <= member.dataOffset + member.size
    requires CrcOf(Contents(archive, member).bytes) == CrcOf(Contents(damaged, member).bytes)
    ensures archive == damaged
  {
    hide Crc32.Checksum, Octet, WordValue;
    var before, after := Contents(archive, member).bytes, Contents(damaged, member).bytes;
    WordsTellApart(Crc32.Checksum(Octets(before)), Crc32.Checksum(Octets(after)));
    var at := from - member.dataOffset;
    assert Octets(before)[..at] == Octets(after)[..at];
    assert Octets(before)[at + count..] == Octets(after)[at + count..];
    CrcBursts.BurstIsDetected(Octets(before), Octets(after), at, count);
    forall i | 0 <= i < |archive|
      ensures archive[i] == damaged[i]
    {
      if from <= i < from + count {
        assert before[i - member.dataOffset] == archive[i] && after[i - member.dataOffset] == damaged[i];
        assert Octets(before)[i - member.dataOffset] == Octets(after)[i - member.dataOffset];
      }
    }
  }

  /**
   An archive that decodes no longer does once up to four consecutive bytes of a member's data are changed,
   whatever they are changed to.
   */
  lemma DamagedMemberIsRefused(text: Text, archive: Bytes, damaged: Bytes, k: nat, from: nat, count: nat)
    requires UsesCrc32(text) && Decode(text, archive).Ok? && MembersRead(text, archive).Ok?
    requires k < |MembersRead(text, archive).value| && count <= 4
    requires var member := MembersRead(text, archive).value[k];
      member.dataOffset <= from && from + count <= member.dataOffset + member.size
    requires SameExcept(archive, damaged, from, count) && archive != damaged
    ensures Decode(text, damaged) == Err(ArchiveInvalid)
  {
    hide ReadDirectory, ReadMembers, SafeName, SameExcept, Disjoint, WellPlaced, CrcOf;
    var members := MembersRead(text, archive).value;
    DecodedMembersAreDisjoint(text, archive);
    MembersSurviveDamage(text, archive, damaged, k, from, count);
    assert members[k] in members;
    if ChecksumsMatch(text, damaged, members) {
      DamageShowsInChecksum(archive, damaged, members[k], from, count);
    }
  }
}
