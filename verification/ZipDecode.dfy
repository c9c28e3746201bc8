/** The archive decoder, and what encoding followed by decoding gives back. */
module ZipDecode {
  import opened Wrappers
  import opened ByteStrings
  import opened ZipLayout
  import opened ZipRanges
  import opened Zip

  /** The end record is searched backwards, no further than the longest comment allows. */
  function FindEnd(archive: Bytes, offset: int, minimum: nat): (found: Option<nat>)
    requires offset + 22 <= |archive|
    ensures found.Some? ==> found.value <= offset
    decreases offset
  {
    if offset < minimum then None
    else if ReadLe32(archive, offset) == END_SIGNATURE then Some(offset)
    else FindEnd(archive, offset - 1, minimum)
  }

  function EndMinimum(archive: Bytes): nat {
    if |archive| < 65_557 then 0 else |archive| - 65_557
  }

  method FindEndOffset(archive: Bytes) returns (found: Option<nat>)
    requires |archive| >= 22
    ensures found == FindEnd(archive, |archive| - 22, EndMinimum(archive))
    ensures found.Some? ==>
      && ReadLe32(archive, found.value) == END_SIGNATURE
      && forall later | found.value < later <= |archive| - 22 :: ReadLe32(archive, later) != END_SIGNATURE
  {
    var offset := |archive| - 22;
    while offset >= EndMinimum(archive)
      invariant offset <= |archive| - 22
      invariant FindEnd(archive, |archive| - 22, EndMinimum(archive)) == FindEnd(archive, offset, EndMinimum(archive))
      invariant forall later: nat | offset < later <= |archive| - 22 :: ReadLe32(archive, later) != END_SIGNATURE
      decreases offset
    {
      if ReadLe32(archive, offset) == END_SIGNATURE {
        return Some(offset);
      }
      offset := offset - 1;
    }
    return None;
  }

  datatype Directory = Directory(end: nat, count: nat, offset: nat)

  /** The end record: one disk, no trailing data, a directory that ends where the end record starts. */
  function ReadDirectory(archive: Bytes): (result: Result<Directory, ZipError>)
    ensures result.Ok? ==> result.value.offset <= result.value.end && result.value.end + 22 <= |archive|
    ensures result.Ok? ==> 1 <= result.value.count <= MAX_ENTRIES
  {
    if |archive| > MAX_ARCHIVE_BYTES then Err(ArchiveLimitExceeded)
    else if |archive| < 22 then Err(ArchiveInvalid)
    else
      var found := FindEnd(archive, |archive| - 22, EndMinimum(archive));
      if found.None? then Err(ArchiveInvalid) else ReadEndRecord(archive, found.value)
  }

  function ReadEndRecord(archive: Bytes, end: nat): (result: Result<Directory, ZipError>)
    requires end + 22 <= |archive|
    ensures result.Ok? ==> result.value.end == end && result.value.offset <= end
    ensures result.Ok? ==> 1 <= result.value.count <= MAX_ENTRIES
  {
    var diskEntries, totalEntries := ReadLe16(archive, end + 8), ReadLe16(archive, end + 10);
    var centralSize, centralOffset := ReadLe32(archive, end + 12), ReadLe32(archive, end + 16);
    if ReadLe16(archive, end + 4) != 0 || ReadLe16(archive, end + 6) != 0 || diskEntries != totalEntries
    then Err(ArchiveInvalid)
    else if totalEntries == 0 || totalEntries > MAX_ENTRIES then Err(ArchiveLimitExceeded)
    else if end + 22 + ReadLe16(archive, end + 20) != |archive| then Err(ArchiveInvalid)
    else if centralOffset + centralSize != end then Err(ArchiveInvalid)
    else Ok(Directory(end, totalEntries, centralOffset))
  }

  // ----- Members -----

  datatype Member = Member(name: string, crc: nat, dataOffset: nat, size: nat, range: MemberRange)

  datatype Central = Central(name: string, flags: nat, crc: nat, size: nat, localOffset: nat, next: nat)

  predicate EncryptedOrStreaming(flags: nat) {
    flags % 2 != 0 || (flags / 8) % 2 != 0
  }

  predicate IsSymlink(externalAttributes: nat) {
    (externalAttributes / 0x1_0000) / 0x1000 == 10
  }

  function ReadCentral(text: Text, archive: Bytes, cursor: nat, end: nat, total: nat): (result: Result<Central, ZipError>)
    requires end <= |archive|
    ensures result.Ok? ==> cursor + 46 <= result.value.next <= end && SafeName(text, result.value.name)
  {
    if cursor + 46 > end || ReadLe32(archive, cursor) != CENTRAL_FILE_SIGNATURE then Err(ArchiveInvalid)
    else
      var flags, method_ := ReadLe16(archive, cursor + 8), ReadLe16(archive, cursor + 10);
      var crc, compressed := ReadLe32(archive, cursor + 16), ReadLe32(archive, cursor + 20);
      var size, nameLength := ReadLe32(archive, cursor + 24), ReadLe16(archive, cursor + 28);
      var next := cursor + 46 + nameLength + ReadLe16(archive, cursor + 30) + ReadLe16(archive, cursor + 32);
      if next > end then Err(ArchiveInvalid)
      else if EncryptedOrStreaming(flags) || ReadLe16(archive, cursor + 34) != 0 then Err(ArchiveInvalid)
      else if method_ != STORE_METHOD || compressed != size then Err(UnsupportedCompression)
      else if size > MAX_ENTRY_BYTES || total + size > MAX_TOTAL_BYTES then Err(ArchiveLimitExceeded)
      else if IsSymlink(ReadLe32(archive, cursor + 38)) then Err(ArchiveInvalid)
      else
        var nameBytes := archive[cursor + 46..cursor + 46 + nameLength];
        var name := text.fromUtf8(nameBytes);
        if text.utf8(name) != nameBytes then Err(ArchiveInvalid)
        else if NameError(text, name).Some? then Err(NameError(text, name).value)
        else Ok(Central(name, flags, crc, size, ReadLe32(archive, cursor + 42), next))
  }

  /**
   A member stands where its range says: a local record at the start of the range, with the member's own
   name, checksum and size, then its data up to the end of the range, all of it before `end`.
   */
  predicate WellPlaced(text: Text, archive: Bytes, member: Member, end: nat)
    requires end <= |archive|
  {
    var start := member.range.start;
    && 0 <= start && start + 30 <= member.dataOffset
    && member.range.end == member.dataOffset + member.size <= end
    && var nameLength := ReadLe16(archive, start + 26);
       && ReadLe32(archive, start) == LOCAL_FILE_SIGNATURE
       && ReadLe32(archive, start + 14) == member.crc && ReadLe32(archive, start + 22) == member.size
       && member.dataOffset == start + 30 + nameLength + ReadLe16(archive, start + 28)
       && text.fromUtf8(archive[start + 30..start + 30 + nameLength]) == member.name
  }

  /** The local record must lie before the directory and agree with the central one. */
  function ReadLocal(text: Text, archive: Bytes, central: Central, centralOffset: nat): (result: Result<Member, ZipError>)
    requires centralOffset <= |archive|
    ensures result.Ok? ==>
      && WellPlaced(text, archive, result.value, centralOffset)
      && result.value.dataOffset + result.value.size <= |archive|
      && result.value.name == central.name && result.value.size == central.size
  {
    var o := central.localOffset;
    if o + 30 > centralOffset || ReadLe32(archive, o) != LOCAL_FILE_SIGNATURE then Err(ArchiveInvalid)
    else
      var nameLength, extraLength := ReadLe16(archive, o + 26), ReadLe16(archive, o + 28);
      var dataOffset := o + 30 + nameLength + extraLength;
      if dataOffset + central.size > centralOffset then Err(ArchiveInvalid)
      else if
        || text.fromUtf8(archive[o + 30..o + 30 + nameLength]) != central.name
        || ReadLe16(archive, o + 6) != central.flags || ReadLe16(archive, o + 8) != STORE_METHOD
        || ReadLe32(archive, o + 14) != central.crc
        || ReadLe32(archive, o + 18) != central.size || ReadLe32(archive, o + 22) != central.size
      then Err(ArchiveInvalid)
      else Ok(Member(
        central.name, central.crc, dataOffset, central.size, MemberRange(o, dataOffset + central.size)))
  }

  /** What the loop over the central directory still returns from here on. */
  function ReadMembers(
    text: Text, archive: Bytes, directory: Directory, cursor: nat, left: nat, names: set<string>, total: nat,
    members: seq<Member>): Result<seq<Member>, ZipError>
    requires directory.offset <= directory.end <= |archive|
    decreases left
  {
    if left == 0 then
      if cursor == directory.end then Ok(members) else Err(ArchiveInvalid)
    else
      var central := ReadCentral(text, archive, cursor, directory.end, total);
      if central.Err? then Err(central.error)
      else
        var key := text.collisionKey(central.value.name);
        var local := ReadLocal(text, archive, central.value, directory.offset);
        if key in names then Err(ArchiveInvalid)
        else if local.Err? then Err(local.error)
        else
          ReadMembers(
            text, archive, directory, central.value.next, left - 1, names + {key}, total + central.value.size,
            members + [local.value])
  }

  function RangesOf(members: seq<Member>): (ranges: seq<MemberRange>)
    ensures |ranges| == |members| && forall i | 0 <= i < |members| :: ranges[i] == members[i].range
  {
    seq(|members|, i requires 0 <= i < |members| => members[i].range)
  }

  predicate Inside(archive: Bytes, member: Member) {
    member.dataOffset + member.size <= |archive|
  }

  function Contents(archive: Bytes, member: Member): Decoded
    requires Inside(archive, member)
  {
    Decoded(member.name, archive[member.dataOffset..member.dataOffset + member.size], member.crc)
  }

  predicate ChecksumsMatch(text: Text, archive: Bytes, members: seq<Member>) {
    forall member | member in members ::
      Inside(archive, member) && text.checksum(Contents(archive, member).bytes) == member.crc
  }

  function Extract(archive: Bytes, members: seq<Member>): (entries: seq<Decoded>)
    requires forall member | member in members :: Inside(archive, member)
    ensures |entries| == |members| && forall i | 0 <= i < |members| :: entries[i] == Contents(archive, members[i])
  {
    seq(|members|, i requires 0 <= i < |members| => Contents(archive, members[i]))
  }

  predicate Disjoint(members: seq<Member>) {
    PairwiseApart(RangesOf(members)) && forall range | range in RangesOf(members) :: ValidRange(range)
  }

  /** The members the central directory lists. */
  function MembersRead(text: Text, archive: Bytes): Result<seq<Member>, ZipError> {
    var directory := ReadDirectory(archive);
    if directory.Err? then Err(directory.error)
    else ReadMembers(text, archive, directory.value, directory.value.offset, directory.value.count, {}, 0, [])
  }

  /** What an archive decodes to. */
  function Decode(text: Text, archive: Bytes): Result<seq<Decoded>, ZipError> {
    var directory := ReadDirectory(archive);
    if directory.Err? then Err(directory.error)
    else
      var members := MembersRead(text, archive);
      if members.Err? then Err(members.error)
      else if !Disjoint(members.value) || !ChecksumsMatch(text, archive, members.value) then Err(ArchiveInvalid)
      else Ok(Extract(archive, members.value))
  }

  /** Well placed members with safe names, no two of which collide; `names` holds their collision keys. */
  ghost predicate WellRead(text: Text, archive: Bytes, end: nat, names: set<string>, members: seq<Member>)
    requires end <= |archive|
  {
    && (forall i | 0 <= i < |members| ::
         WellPlaced(text, archive, members[i], end) && SafeName(text, members[i].name) &&
         text.collisionKey(members[i].name) in names)
    && forall i, j | 0 <= i < j < |members| ::
      text.collisionKey(members[i].name) != text.collisionKey(members[j].name)
  }

  lemma {:induction false} ReadMembersAreWellRead(
    text: Text, archive: Bytes, directory: Directory, cursor: nat, left: nat, names: set<string>, total: nat,
    members: seq<Member>) returns (all: set<string>)
    requires directory.offset <= directory.end <= |archive|
    requires WellRead(text, archive, directory.offset, names, members)
    ensures var result := ReadMembers(text, archive, directory, cursor, left, names, total, members);
      result.Ok? ==>
        |result.value| == |members| + left && WellRead(text, archive, directory.offset, all, result.value)
    decreases left
  {
    hide ReadCentral, ReadLocal, WellPlaced, SafeName;
    all := names;
    if left > 0 {
      var central := ReadCentral(text, archive, cursor, directory.end, total);
      if central.Ok? {
        var key := text.collisionKey(central.value.name);
        var local := ReadLocal(text, archive, central.value, directory.offset);
        if local.Ok? && key !in names {
          all := ReadMembersAreWellRead(
            text, archive, directory, central.value.next, left - 1, names + {key}, total + central.value.size,
            members + [local.value]);
        }
      }
    }
  }

  /** `decodeStoredZip`. */
  method DecodeStoredZip(text: Text, archive: Bytes) returns (result: Result<seq<Decoded>, ZipError>)
    ensures result == Decode(text, archive)
  {
    hide ReadCentral, ReadLocal, ReadDirectory, PairwiseApart, ValidRange, WellPlaced;
    var read := ReadDirectory(archive);
    if read.Err? {
      return Err(read.error);
    }
    var directory := read.value;
    var members: seq<Member> := [];
    var names: set<string> := {};
    var cursor: nat, total: nat := directory.offset, 0;
    ghost var all := ReadMembers(text, archive, directory, directory.offset, directory.count, {}, 0, []);
    for index := 0 to directory.count
      invariant all == ReadMembers(text, archive, directory, cursor, directory.count - index, names, total, members)
      invariant forall member | member in members :: Inside(archive, member)
    {
      var central := ReadCentral(text, archive, cursor, directory.end, total);
      if central.Err? {
        return Err(central.error);
      }
      var key := text.collisionKey(central.value.name);
      if key in names {
        return Err(ArchiveInvalid);
      }
      var local := ReadLocal(text, archive, central.value, directory.offset);
      if local.Err? {
        return Err(local.error);
      }
      names := names + {key};
      total := total + central.value.size;
      members := members + [local.value];
      cursor := central.value.next;
    }
    if cursor != directory.end {
      return Err(ArchiveInvalid);
    }
    var apart := AssertDisjointZipMemberRanges(RangesOf(members));
    if !apart {
      return Err(ArchiveInvalid);
    }
    var entries: seq<Decoded> := [];
    for i := 0 to |members|
      invariant |entries| == i && forall j | 0 <= j < i :: entries[j] == Contents(archive, members[j])
      invariant forall j | 0 <= j < i :: text.checksum(Contents(archive, members[j]).bytes) == members[j].crc
    {
      var entry := Contents(archive, members[i]);
      if text.checksum(entry.bytes) != members[i].crc {
        assert members[i] in members;
        return Err(ArchiveInvalid);
      }
      entries := entries + [entry];
    }
    assert entries == Extract(archive, members);
    return Ok(entries);
  }

  /** Where the bytes of each member lie. */
  function DataOf(members: seq<Member>): (ranges: seq<MemberRange>)
    ensures |ranges| == |members|
    ensures forall i | 0 <= i < |members| ::
      ranges[i] == MemberRange(members[i].dataOffset, members[i].dataOffset + members[i].size)
  {
    seq(|members|, i requires 0 <= i < |members| =>
      MemberRange(members[i].dataOffset, members[i].dataOffset + members[i].size))
  }

  /**
   Whatever is decoded, every member stands behind its own local record, before the directory, under a safe
   name that collides with no other; no two members share a byte, of the whole records or of the data; and
   the bytes handed out are those, with the checksums that were stored.
   */
  lemma DecodedMembersAreDisjoint(text: Text, archive: Bytes)
    requires Decode(text, archive).Ok?
    ensures ReadDirectory(archive).Ok? && MembersRead(text, archive).Ok?
    ensures var directory, members := ReadDirectory(archive).value, MembersRead(text, archive).value;
      && directory.offset <= |archive| && |members| == directory.count
      && (forall member | member in members ::
           WellPlaced(text, archive, member, directory.offset) && SafeName(text, member.name))
      && (forall i, j | 0 <= i < j < |members| ::
           text.collisionKey(members[i].name) != text.collisionKey(members[j].name))
      && PairwiseApart(RangesOf(members)) && PairwiseApart(DataOf(members))
      && ChecksumsMatch(text, archive, members) && Decode(text, archive).value == Extract(archive, members)
  {
    hide ReadDirectory, ReadMembers, SafeName, WellPlaced;
    var directory := ReadDirectory(archive).value;
    var members := MembersRead(text, archive).value;
    var all := ReadMembersAreWellRead(text, archive, directory, directory.offset, directory.count, {}, 0, []);
    forall i, j | 0 <= i < j < |members|
      ensures Apart(DataOf(members)[i], DataOf(members)[j])
    {
      assert Apart(RangesOf(members)[i], RangesOf(members)[j]);
      DataIsInRange(text, archive, members[i], directory.offset);
      DataIsInRange(text, archive, members[j], directory.offset);
    }
  }

  lemma DataIsInRange(text: Text, archive: Bytes, member: Member, end: nat)
    requires end <= |archive| && WellPlaced(text, archive, member, end)
    ensures member.range.start < member.dataOffset && member.dataOffset + member.size == member.range.end
  {
  }

  // ----- Decoding what was encoded -----

  function MemberOf(text: Text, entry: Entry, offset: nat): Member {
    var dataOffset := offset + 30 + |text.utf8(entry.name)|;
    Member(
      entry.name, text.checksum(entry.bytes), dataOffset, |entry.bytes|,
      MemberRange(offset, dataOffset + |entry.bytes|))
  }

  lemma CentralReadsBack(
    text: Text, archive: Bytes, cursor: nat, end: nat, total: nat, entry: Entry, localOffset: nat)
    requires Encodable(text, entry) && localOffset < TWO_32 && SafeName(text, entry.name) && WellFormed(text, entry.name)
    requires At(archive, cursor, CentralRecord(text, entry, localOffset))
    requires cursor + 46 + |text.utf8(entry.name)| <= end <= |archive| && total + |entry.bytes| <= MAX_TOTAL_BYTES
    ensures ReadCentral(text, archive, cursor, end, total) == Ok(Central(
      entry.name, UTF8_FLAG, text.checksum(entry.bytes), |entry.bytes|, localOffset,
      cursor + 46 + |text.utf8(entry.name)|))
  {
    hide Le16, Le32, ReadLe16, ReadLe32, NameError, CentralHeader;
    var name := text.utf8(entry.name);
    var header := CentralHeader(text.checksum(entry.bytes), |entry.bytes|, |name|, localOffset);
    AtSplits(archive, cursor, header, name);
    CentralHeaderReadsBack(archive, cursor, text.checksum(entry.bytes), |entry.bytes|, |name|, localOffset);
    assert archive[cursor + 46..cursor + 46 + |name|] == name;
  }

  lemma LocalReadsBack(text: Text, archive: Bytes, entry: Entry, localOffset: nat, centralOffset: nat, next: nat)
    requires Encodable(text, entry) && WellFormed(text, entry.name)
    requires At(archive, localOffset, LocalMember(text, entry))
    requires localOffset + |LocalMember(text, entry)| <= centralOffset <= |archive|
    ensures ReadLocal(
        text, archive,
        Central(entry.name, UTF8_FLAG, text.checksum(entry.bytes), |entry.bytes|, localOffset, next), centralOffset)
      == Ok(MemberOf(text, entry, localOffset))
    ensures Inside(archive, MemberOf(text, entry, localOffset))
    ensures Contents(archive, MemberOf(text, entry, localOffset)).bytes == entry.bytes
  {
    hide Le16, Le32, ReadLe16, ReadLe32, LocalHeader;
    var name := text.utf8(entry.name);
    var header := LocalHeader(text.checksum(entry.bytes), |entry.bytes|, |name|);
    AtSplits(archive, localOffset, header, name + entry.bytes);
    LocalHeaderReadsBack(archive, localOffset, text.checksum(entry.bytes), |entry.bytes|, |name|);
    AtSplits(archive, localOffset + 30, name, entry.bytes);
    assert archive[localOffset + 30..localOffset + 30 + |name|] == name;
  }

  /** Where the `i`-th member starts. */
  function Start(text: Text, entries: seq<Entry>, i: nat): nat
    requires AllEncodable(text, entries) && i <= |entries|
  {
    |Locals(text, entries[..i])|
  }

  function MembersOf(text: Text, entries: seq<Entry>, k: nat): (members: seq<Member>)
    requires AllEncodable(text, entries) && k <= |entries|
    ensures |members| == k
    ensures forall i | 0 <= i < k :: members[i] == MemberOf(text, entries[i], Start(text, entries, i))
  {
    seq(k, i requires 0 <= i < k => MemberOf(text, entries[i], Start(text, entries, i)))
  }

  ghost predicate Laid(text: Text, entries: seq<Entry>) {
    && Lawful(text) && Fits(text, entries)
    && AllEncodable(text, entries) && |entries| < TWO_16
    && |Locals(text, entries)| < TWO_32 && |Centrals(text, entries)| < TWO_32
    && forall entry | entry in entries :: WellFormed(text, entry.name)
  }

  lemma LaidFacts(text: Text, entries: seq<Entry>)
    requires Laid(text, entries)
    ensures AllEncodable(text, entries) && |entries| < TWO_16
    ensures |Locals(text, entries)| < TWO_32 && |Centrals(text, entries)| < TWO_32
  {
  }

  lemma LocalInPlace(text: Text, entries: seq<Entry>, i: nat)
    requires Laid(text, entries) && i < |entries|
    ensures Start(text, entries, i + 1) == Start(text, entries, i) + |LocalMember(text, entries[i])|
    ensures Start(text, entries, i + 1) <= |Locals(text, entries)|
    ensures At(Encoded(text, entries), Start(text, entries, i), LocalMember(text, entries[i]))
  {
    hide Fits, LocalMember, Centrals, EndRecord;
    assert entries[..i + 1][..i] == entries[..i] && entries[..i + 1][i] == entries[i];
    LocalsGrow(text, entries, i + 1);
    var archive := Encoded(text, entries);
    assert archive[..|Locals(text, entries)|] == Locals(text, entries);
  }

  /** Where the `i`-th central record starts. */
  function CentralStart(text: Text, entries: seq<Entry>, i: nat): nat
    requires Laid(text, entries) && i <= |entries|
  {
    LocalsGrow(text, entries, i);
    |Locals(text, entries)| + |Centrals(text, entries[..i])|
  }

  lemma CentralsStep(text: Text, entries: seq<Entry>, i: nat)
    requires AllEncodable(text, entries) && |Locals(text, entries)| < TWO_32 && i < |entries|
    ensures |Locals(text, entries[..i])| < TWO_32 && |Locals(text, entries[..i + 1])| < TWO_32
    ensures Centrals(text, entries[..i + 1])
      == Centrals(text, entries[..i]) + CentralRecord(text, entries[i], |Locals(text, entries[..i])|)
  {
    hide CentralRecord, LocalMember;
    assert entries[..i + 1][..i] == entries[..i] && entries[..i + 1][i] == entries[i];
    LocalsGrow(text, entries, i);
    LocalsGrow(text, entries, i + 1);
  }

  lemma CentralInPlace(text: Text, entries: seq<Entry>, i: nat)
    requires Laid(text, entries) && i < |entries|
    ensures Start(text, entries, i) < TWO_32
    ensures CentralStart(text, entries, i + 1) == CentralStart(text, entries, i) + 46 + |text.utf8(entries[i].name)|
    ensures CentralStart(text, entries, i + 1) <= |Locals(text, entries)| + |Centrals(text, entries)|
    ensures At(
      Encoded(text, entries), CentralStart(text, entries, i),
      CentralRecord(text, entries[i], Start(text, entries, i)))
  {
    hide Fits, LocalMember, EndRecord, CentralRecord, Centrals, Locals;
    CentralsStep(text, entries, i);
    CentralsGrow(text, entries, i + 1);
    HeaderSizes(text, entries[i], Start(text, entries, i));
    CentralSlice(
      Encoded(text, entries), Locals(text, entries), Centrals(text, entries), Centrals(text, entries[..i]),
      CentralRecord(text, entries[i], Start(text, entries, i)));
  }

  lemma SliceOfSlice(archive: Bytes, from: nat, to: nat, left: nat, right: nat)
    requires from <= to <= |archive| && left <= right <= to - from
    ensures archive[from..to][left..right] == archive[from + left..from + right]
  {
    var once, twice := archive[from + left..from + right], archive[from..to][left..right];
    forall i | 0 <= i < right - left
      ensures once[i] == twice[i]
    {
      assert twice[i] == archive[from..to][left + i] == archive[from + (left + i)];
    }
    assert |once| == |twice|;
  }

  lemma CentralSlice(archive: Bytes, locals: Bytes, centrals: Bytes, left: Bytes, right: Bytes)
    requires |locals| + |centrals| <= |archive| && left + right <= centrals
    requires archive[|locals|..|locals| + |centrals|] == centrals
    ensures At(archive, |locals| + |left|, right)
  {
    SliceOfSlice(archive, |locals|, |locals| + |centrals|, |left|, |left| + |right|);
    assert |left| + |right| == |left + right| <= |centrals|;
    assert archive[|locals| + |left|..|locals| + |left| + |right|] == centrals[|left|..|left| + |right|];
  }

  /** The names and the size of the first `k` entries, as the decoder has accumulated them. */
  lemma PrefixState(text: Text, entries: seq<Entry>, k: nat)
    requires Laid(text, entries) && k < |entries|
    ensures SafeName(text, entries[k].name) && WellFormed(text, entries[k].name)
    ensures text.collisionKey(entries[k].name) !in Keys(text, entries[..k])
    ensures Keys(text, entries[..k + 1]) == Keys(text, entries[..k]) + {text.collisionKey(entries[k].name)}
    ensures TotalBytes(entries[..k + 1]) == TotalBytes(entries[..k]) + |entries[k].bytes| <= MAX_TOTAL_BYTES
  {
    hide NameError, EncodedSize, TotalBytes, Keys;
    assert entries[..k + 1] == entries[..k] + [entries[k]];
    PrefixesFit(text, entries, k + 1);
    OneMoreEntry(text, entries[..k], entries[k]);
    assert entries[k] in entries;
  }

  /** The decoder's state before member `k` of an encoded archive leads to all members. */
  lemma {:induction false} MembersReadBack(text: Text, entries: seq<Entry>, directory: Directory, k: nat)
    requires Laid(text, entries) && k <= |entries|
    requires directory.offset == |Locals(text, entries)|
    requires directory.end == directory.offset + |Centrals(text, entries)| <= |Encoded(text, entries)|
    ensures ReadMembers(
        text, Encoded(text, entries), directory, CentralStart(text, entries, k), |entries| - k,
        Keys(text, entries[..k]), TotalBytes(entries[..k]), MembersOf(text, entries, k))
      == Ok(MembersOf(text, entries, |entries|))
    decreases |entries| - k
  {
    hide Laid, Encoded, Keys, TotalBytes, Start, CentralStart, ReadCentral, ReadLocal, CentralRecord, LocalMember;
    hide Locals, Centrals, At, Encodable, NameError, WellPlaced;
    LaidFacts(text, entries);
    var archive := Encoded(text, entries);
    if k == |entries| {
      CentralsEnd(text, entries);
    } else {
      PrefixState(text, entries, k);
      CentralInPlace(text, entries, k);
      LocalInPlace(text, entries, k);
      CentralReadsBack(
        text, archive, CentralStart(text, entries, k), directory.end, TotalBytes(entries[..k]), entries[k],
        Start(text, entries, k));
      LocalReadsBack(
        text, archive, entries[k], Start(text, entries, k), directory.offset, CentralStart(text, entries, k + 1));
      assert MembersOf(text, entries, k + 1)
        == MembersOf(text, entries, k) + [MemberOf(text, entries[k], Start(text, entries, k))];
      MembersReadBack(text, entries, directory, k + 1);
    }
  }

  lemma CentralsEnd(text: Text, entries: seq<Entry>)
    requires Laid(text, entries)
    ensures CentralStart(text, entries, |entries|) == |Locals(text, entries)| + |Centrals(text, entries)|
  {
    assert entries[..|entries|] == entries;
  }

  lemma DirectoryReadsBack(text: Text, entries: seq<Entry>)
    requires Laid(text, entries)
    ensures ReadDirectory(Encoded(text, entries))
      == Ok(Directory(|Locals(text, entries)| + |Centrals(text, entries)|, |entries|, |Locals(text, entries)|))
  {
    hide Le16, Le32, ReadLe16, ReadLe32, NameError, PrefixFits, EndRecord, Locals, Centrals;
    var locals, centrals := Locals(text, entries), Centrals(text, entries);
    var archive, end := Encoded(text, entries), |Locals(text, entries)| + |Centrals(text, entries)|;
    var record := EndRecord(|entries|, |centrals|, |locals|);
    assert At(archive, end, record) by {
      assert archive == (locals + centrals) + record;
      assert archive[end..end + |record|] == record;
    }
    EndRecordReadsBack(archive, end, |entries|, |centrals|, |locals|);
    PreflightIsExact(text, entries);
    FitsWithinLimit(text, entries);
  }

  lemma {:induction false} StartsAscend(text: Text, entries: seq<Entry>, i: nat, j: nat)
    requires Laid(text, entries) && i <= j <= |entries|
    ensures Start(text, entries, i) <= Start(text, entries, j)
  {
    LocalsGrow(text, entries[..j], i);
    assert entries[..j][..i] == entries[..i];
  }

  lemma MembersAreDisjoint(text: Text, entries: seq<Entry>)
    requires Laid(text, entries)
    ensures Disjoint(MembersOf(text, entries, |entries|))
  {
    hide Laid, Start, LocalMember;
    LaidFacts(text, entries);
    var members := MembersOf(text, entries, |entries|);
    var ranges := RangesOf(members);
    forall i, j | 0 <= i < j < |ranges|
      ensures Apart(ranges[i], ranges[j])
    {
      MemberSpan(text, entries, i);
      StartsAscend(text, entries, i + 1, j);
    }
    forall range | range in ranges
      ensures ValidRange(range)
    {
      var i :| 0 <= i < |ranges| && ranges[i] == range;
      MemberSpan(text, entries, i);
    }
  }

  lemma MemberSpan(text: Text, entries: seq<Entry>, i: nat)
    requires Laid(text, entries) && i < |entries|
    ensures MemberOf(text, entries[i], Start(text, entries, i)).range
      == MemberRange(Start(text, entries, i), Start(text, entries, i + 1))
    ensures Start(text, entries, i) < Start(text, entries, i + 1)
  {
    HeaderSizes(text, entries[i], 0);
    LocalInPlace(text, entries, i);
  }

  function DecodedOf(text: Text, entries: seq<Entry>): (decoded: seq<Decoded>)
    ensures |decoded| == |entries|
    ensures forall i | 0 <= i < |entries| ::
      decoded[i] == Decoded(entries[i].name, entries[i].bytes, text.checksum(entries[i].bytes))
  {
    seq(|entries|, i requires 0 <= i < |entries| =>
      Decoded(entries[i].name, entries[i].bytes, text.checksum(entries[i].bytes)))
  }

  lemma MemberContents(text: Text, entries: seq<Entry>, i: nat)
    requires Laid(text, entries) && i < |entries|
    ensures var member := MemberOf(text, entries[i], Start(text, entries, i));
      Inside(Encoded(text, entries), member) && Contents(Encoded(text, entries), member) == DecodedOf(text, entries)[i]
  {
    hide Start, LocalMember;
    LaidFacts(text, entries);
    LocalInPlace(text, entries, i);
    assert entries[i] in entries;
    LocalReadsBack(
      text, Encoded(text, entries), entries[i], Start(text, entries, i), |Locals(text, entries)|, 0);
  }

  /** Decoding an encoded archive gives back the same names and bytes, in order. */
  lemma ZipRoundTrip(text: Text, entries: seq<Entry>)
    requires Lawful(text) && Fits(text, entries) && forall entry | entry in entries :: WellFormed(text, entry.name)
    ensures AllEncodable(text, entries) && |entries| < TWO_16
    ensures |Locals(text, entries)| < TWO_32 && |Centrals(text, entries)| < TWO_32
    ensures Decode(text, Encoded(text, entries)) == Ok(DecodedOf(text, entries))
  {
    hide NameError, PrefixFits, Encoded, ReadDirectory, ReadMembers, Disjoint, Start, LocalMember;
    FitsIsEncodable(text, entries);
    assert Laid(text, entries);
    var archive := Encoded(text, entries);
    var directory := Directory(|Locals(text, entries)| + |Centrals(text, entries)|, |entries|, |Locals(text, entries)|);
    DirectoryReadsBack(text, entries);
    MembersReadBackFromStart(text, entries, directory);
    var members := MembersOf(text, entries, |entries|);
    MembersAreDisjoint(text, entries);
    forall i | 0 <= i < |entries|
      ensures Inside(archive, members[i]) && Contents(archive, members[i]) == DecodedOf(text, entries)[i]
    {
      MemberContents(text, entries, i);
    }
    assert ChecksumsMatch(text, archive, members);
    assert Extract(archive, members) == DecodedOf(text, entries);
  }

  lemma MembersReadBackFromStart(text: Text, entries: seq<Entry>, directory: Directory)
    requires Laid(text, entries) && directory.count == |entries| && directory.offset == |Locals(text, entries)|
    requires directory.end == directory.offset + |Centrals(text, entries)| <= |Encoded(text, entries)|
    ensures ReadMembers(text, Encoded(text, entries), directory, directory.offset, directory.count, {}, 0, [])
      == Ok(MembersOf(text, entries, |entries|))
  {
    hide Laid, Encoded, ReadMembers;
    LaidFacts(text, entries);
    assert entries[..0] == [] && MembersOf(text, entries, 0) == [];
    MembersReadBack(text, entries, directory, 0);
  }
}
