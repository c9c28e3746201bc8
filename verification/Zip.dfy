/** The store-only archive codec. */
module Zip {
  import opened Wrappers
  import opened ByteStrings
  import opened ZipLayout
  import opened ZipRanges

  const MAX_ARCHIVE_BYTES := 512 * 1024 * 1024
  const MAX_ENTRIES := 2048
  const MAX_ENTRY_BYTES := 256 * 1024 * 1024
  const MAX_NAME_BYTES := 240
  const MAX_TOTAL_BYTES := 512 * 1024 * 1024

  datatype ZipError = ArchiveInvalid | ArchiveLimitExceeded | UnsupportedCompression

  /** UTF-8, the case- and composition-insensitive name key, and the member checksum, as functions. */
  datatype Text = Text(
    utf8: string -> Bytes, fromUtf8: Bytes -> string, collisionKey: string -> string, checksum: Bytes -> nat)

  ghost predicate Lawful(text: Text) {
    forall bytes :: text.checksum(bytes) < TWO_32
  }

  /** A string without lone surrogates survives UTF-8. */
  predicate WellFormed(text: Text, name: string) {
    text.fromUtf8(text.utf8(name)) == name
  }

  datatype Entry = Entry(name: string, bytes: Bytes)

  datatype Decoded = Decoded(name: string, bytes: Bytes, crc: nat)

  // ----- Names -----

  function Segments(name: string, current: string): seq<string>
    decreases |name|
  {
    if name == [] then [current]
    else if name[0] == '/' then [current] + Segments(name[1..], [])
    else Segments(name[1..], current + [name[0]])
  }

  predicate HasDrive(name: string) {
    |name| >= 2 && name[1] == ':' && ('a' <= name[0] <= 'z' || 'A' <= name[0] <= 'Z')
  }

  function NameError(text: Text, name: string): Option<ZipError> {
    var length := |text.utf8(name)|;
    if length == 0 || length > MAX_NAME_BYTES then Some(ArchiveLimitExceeded)
    else if (exists c | c in name :: c == '\\' || c < ' ' || c as int == 0x7f) || HasDrive(name) ||
            (name != [] && name[0] == '/')
    then Some(ArchiveInvalid)
    else if exists segment | segment in Segments(name, []) :: segment in ["", ".", ".."] then Some(ArchiveInvalid)
    else None
  }

  predicate SafeName(text: Text, name: string) {
    NameError(text, name).None?
  }

  // ----- Preflight -----

  function TotalBytes(entries: seq<Entry>): nat {
    if entries == [] then 0 else TotalBytes(entries[..|entries| - 1]) + |entries[|entries| - 1].bytes|
  }

  /** 22 bytes for the end record, and for every entry its data, 76 header bytes and its name twice. */
  function EncodedSize(text: Text, entries: seq<Entry>): nat {
    if entries == [] then 22
    else
      var last := entries[|entries| - 1];
      EncodedSize(text, entries[..|entries| - 1]) + |last.bytes| + 76 + 2 * |text.utf8(last.name)|
  }

  function Keys(text: Text, entries: seq<Entry>): set<string> {
    if entries == [] then {}
    else Keys(text, entries[..|entries| - 1]) + {text.collisionKey(entries[|entries| - 1].name)}
  }

  predicate NamesApart(text: Text, entries: seq<Entry>) {
    entries == [] ||
      (NamesApart(text, entries[..|entries| - 1]) &&
       text.collisionKey(entries[|entries| - 1].name) !in Keys(text, entries[..|entries| - 1]))
  }

  predicate EntriesFit(text: Text, entries: seq<Entry>) {
    forall entry | entry in entries :: SafeName(text, entry.name) && |entry.bytes| <= MAX_ENTRY_BYTES
  }

  /** Everything the preflight demands of the entries so far. */
  predicate PrefixFits(text: Text, entries: seq<Entry>) {
    && EntriesFit(text, entries) && NamesApart(text, entries)
    && TotalBytes(entries) <= MAX_TOTAL_BYTES && EncodedSize(text, entries) <= MAX_ARCHIVE_BYTES
  }

  predicate Fits(text: Text, entries: seq<Entry>) {
    1 <= |entries| <= MAX_ENTRIES && PrefixFits(text, entries)
  }

  predicate Admits(text: Text, entries: seq<Entry>, entry: Entry) {
    && SafeName(text, entry.name) && text.collisionKey(entry.name) !in Keys(text, entries)
    && |entry.bytes| <= MAX_ENTRY_BYTES && TotalBytes(entries) + |entry.bytes| <= MAX_TOTAL_BYTES
    && EncodedSize(text, entries) + |entry.bytes| + 76 + 2 * |text.utf8(entry.name)| <= MAX_ARCHIVE_BYTES
  }

  lemma OneMoreEntry(text: Text, entries: seq<Entry>, entry: Entry)
    ensures TotalBytes(entries + [entry]) == TotalBytes(entries) + |entry.bytes|
    ensures EncodedSize(text, entries + [entry])
      == EncodedSize(text, entries) + |entry.bytes| + 76 + 2 * |text.utf8(entry.name)|
    ensures Keys(text, entries + [entry]) == Keys(text, entries) + {text.collisionKey(entry.name)}
    ensures PrefixFits(text, entries + [entry]) <==> PrefixFits(text, entries) && Admits(text, entries, entry)
  {
    hide NameError;
    assert (entries + [entry])[..|entries|] == entries;
    assert forall other :: other in entries + [entry] <==> other in entries || other == entry;
  }

  lemma {:induction false} PrefixesFit(text: Text, entries: seq<Entry>, k: nat)
    requires k <= |entries| && PrefixFits(text, entries)
    ensures PrefixFits(text, entries[..k])
    decreases |entries|
  {
    hide PrefixFits, Admits;
    if k == |entries| {
      assert entries[..k] == entries;
    } else {
      var shorter := entries[..|entries| - 1];
      assert shorter[..k] == entries[..k] && shorter + [entries[|entries| - 1]] == entries;
      OneMoreEntry(text, shorter, entries[|entries| - 1]);
      PrefixesFit(text, shorter, k);
    }
  }

  lemma NothingFits(text: Text)
    ensures PrefixFits(text, [])
  {
  }

  /** `prepareStoredZipEntryDescriptions`: one pass that accepts exactly the lists that fit. */
  method Prepare(text: Text, entries: seq<Entry>) returns (result: Result<seq<Bytes>, ZipError>)
    ensures result.Ok? <==> Fits(text, entries)
    ensures result.Ok? ==>
      |result.value| == |entries| && forall i | 0 <= i < |entries| :: result.value[i] == text.utf8(entries[i].name)
  {
    hide NameError, PrefixFits, EncodedSize, TotalBytes, Keys;
    if |entries| == 0 || |entries| > MAX_ENTRIES {
      return Err(ArchiveLimitExceeded);
    }
    var prepared: seq<Bytes> := [];
    var names: set<string> := {};
    var expandedBytes, archiveBytes: nat := 0, 22;
    EmptyTotals(text);
    NothingFits(text);
    for i := 0 to |entries|
      invariant |prepared| == i && forall j | 0 <= j < i :: prepared[j] == text.utf8(entries[j].name)
      invariant names == Keys(text, entries[..i])
      invariant expandedBytes == TotalBytes(entries[..i]) && archiveBytes == EncodedSize(text, entries[..i])
      invariant PrefixFits(text, entries[..i])
    {
      var entry := entries[i];
      assert entries[..i + 1] == entries[..i] + [entry];
      OneMoreEntry(text, entries[..i], entry);
      if PrefixFits(text, entries) { PrefixesFit(text, entries, i + 1); }
      var wrongName := NameError(text, entry.name);
      if wrongName.Some? {
        return Err(wrongName.value);
      }
      if text.collisionKey(entry.name) in names {
        return Err(ArchiveInvalid);
      }
      names := names + {text.collisionKey(entry.name)};
      if |entry.bytes| > MAX_ENTRY_BYTES {
        return Err(ArchiveLimitExceeded);
      }
      if expandedBytes > MAX_TOTAL_BYTES - |entry.bytes| {
        return Err(ArchiveLimitExceeded);
      }
      expandedBytes := expandedBytes + |entry.bytes|;
      var name := text.utf8(entry.name);
      var contribution := |entry.bytes| + 76 + |name| * 2;
      if archiveBytes > MAX_ARCHIVE_BYTES - contribution {
        return Err(ArchiveLimitExceeded);
      }
      archiveBytes := archiveBytes + contribution;
      prepared := prepared + [name];
    }
    assert entries[..|entries|] == entries;
    return Ok(prepared);
  }

  lemma EmptyTotals(text: Text)
    ensures TotalBytes([]) == 0 && EncodedSize(text, []) == 22 && Keys(text, []) == {}
  {
  }

  // ----- Encoding -----

  predicate Encodable(text: Text, entry: Entry) {
    text.checksum(entry.bytes) < TWO_32 && |entry.bytes| <= MAX_ENTRY_BYTES && |text.utf8(entry.name)| <= MAX_NAME_BYTES
  }

  function LocalMember(text: Text, entry: Entry): (bytes: Bytes)
    requires Encodable(text, entry)
  {
    LocalHeader(text.checksum(entry.bytes), |entry.bytes|, |text.utf8(entry.name)|) +
    (text.utf8(entry.name) + entry.bytes)
  }

  function CentralRecord(text: Text, entry: Entry, localOffset: nat): Bytes
    requires Encodable(text, entry) && localOffset < TWO_32
  {
    CentralHeader(text.checksum(entry.bytes), |entry.bytes|, |text.utf8(entry.name)|, localOffset) +
    text.utf8(entry.name)
  }

  predicate AllEncodable(text: Text, entries: seq<Entry>) {
    forall i | 0 <= i < |entries| :: Encodable(text, entries[i])
  }

  function Locals(text: Text, entries: seq<Entry>): Bytes
    requires AllEncodable(text, entries)
  {
    if entries == [] then []
    else Locals(text, entries[..|entries| - 1]) + LocalMember(text, entries[|entries| - 1])
  }

  function Centrals(text: Text, entries: seq<Entry>): Bytes
    requires AllEncodable(text, entries) && |Locals(text, entries)| < TWO_32
  {
    if entries == [] then []
    else
      var shorter := entries[..|entries| - 1];
      Centrals(text, shorter) + CentralRecord(text, entries[|entries| - 1], |Locals(text, shorter)|)
  }

  lemma HeaderSizes(text: Text, entry: Entry, localOffset: nat)
    requires Encodable(text, entry) && localOffset < TWO_32
    ensures |LocalMember(text, entry)| == 30 + |text.utf8(entry.name)| + |entry.bytes|
    ensures |CentralRecord(text, entry, localOffset)| == 46 + |text.utf8(entry.name)|
  {
    hide Le16, Le32;
  }

  lemma {:induction false} EncodedSizeIsExact(text: Text, entries: seq<Entry>)
    requires AllEncodable(text, entries) && |Locals(text, entries)| < TWO_32
    ensures |Locals(text, entries)| + |Centrals(text, entries)| + 22 == EncodedSize(text, entries)
    ensures |Centrals(text, entries)| <= (46 + MAX_NAME_BYTES) * |entries|
    decreases |entries|
  {
    if entries != [] {
      var shorter := entries[..|entries| - 1];
      EncodedSizeIsExact(text, shorter);
      HeaderSizes(text, entries[|entries| - 1], |Locals(text, shorter)|);
    }
  }

  lemma {:induction false} LocalsAreSmaller(text: Text, entries: seq<Entry>)
    requires AllEncodable(text, entries)
    ensures |Locals(text, entries)| + 22 <= EncodedSize(text, entries)
    decreases |entries|
  {
    if entries != [] {
      LocalsAreSmaller(text, entries[..|entries| - 1]);
      HeaderSizes(text, entries[|entries| - 1], 0);
    }
  }

  lemma FitsIsEncodable(text: Text, entries: seq<Entry>)
    requires Lawful(text) && Fits(text, entries)
    ensures AllEncodable(text, entries) && |Locals(text, entries)| < TWO_32 && |Centrals(text, entries)| < TWO_32
    ensures |entries| < TWO_16
  {
    forall i | 0 <= i < |entries|
      ensures Encodable(text, entries[i])
    {
      assert entries[i] in entries && SafeName(text, entries[i].name);
    }
    LocalsAreSmaller(text, entries);
    EncodedSizeIsExact(text, entries);
  }

  /** The archive of a list of entries. */
  function Encoded(text: Text, entries: seq<Entry>): Bytes
    requires AllEncodable(text, entries) && |entries| < TWO_16
    requires |Locals(text, entries)| < TWO_32 && |Centrals(text, entries)| < TWO_32
  {
    Locals(text, entries) + (Centrals(text, entries) +
      EndRecord(|entries|, |Centrals(text, entries)|, |Locals(text, entries)|))
  }

  /** The preflight computes the encoded length without encoding, so it accepts exactly what will fit. */
  lemma PreflightIsExact(text: Text, entries: seq<Entry>)
    requires AllEncodable(text, entries) && |entries| < TWO_16
    requires |Locals(text, entries)| < TWO_32 && |Centrals(text, entries)| < TWO_32
    ensures |Encoded(text, entries)| == EncodedSize(text, entries)
    ensures Fits(text, entries) <==>
      && 1 <= |entries| <= MAX_ENTRIES && EntriesFit(text, entries) && NamesApart(text, entries)
      && TotalBytes(entries) <= MAX_TOTAL_BYTES && |Encoded(text, entries)| <= MAX_ARCHIVE_BYTES
  {
    hide NameError, Le16, Le32;
    EncodedSizeIsExact(text, entries);
  }

  /** `encodeStoredZip`. */
  method EncodeStoredZip(text: Text, entries: seq<Entry>) returns (result: Result<Bytes, ZipError>)
    requires Lawful(text)
    ensures result.Ok? <==> Fits(text, entries)
    ensures result.Ok? ==>
      && AllEncodable(text, entries) && |entries| < TWO_16
      && |Locals(text, entries)| < TWO_32 && |Centrals(text, entries)| < TWO_32
      && result.value == Encoded(text, entries) && |result.value| == EncodedSize(text, entries)
  {
    hide NameError, Le16, Le32, Fits, LocalHeader, CentralHeader, EndRecord, EncodedSize;
    var prepared := Prepare(text, entries);
    if prepared.Err? {
      return Err(prepared.error);
    }
    FitsIsEncodable(text, entries);
    var locals, central: Bytes := [], [];
    for i := 0 to |entries|
      invariant AllEncodable(text, entries[..i]) && |Locals(text, entries[..i])| < TWO_32
      invariant locals == Locals(text, entries[..i]) && central == Centrals(text, entries[..i])
    {
      var entry, name := entries[i], prepared.value[i];
      var checksum := text.checksum(entry.bytes);
      assert entries[..i + 1][..i] == entries[..i] && entries[..i + 1][i] == entry;
      LocalsGrow(text, entries, i + 1);
      var localOffset := |locals|;
      var localHeader := LocalHeader(checksum, |entry.bytes|, |name|);
      locals := locals + (localHeader + (name + entry.bytes));
      central := central + (CentralHeader(checksum, |entry.bytes|, |name|, localOffset) + name);
    }
    assert entries[..|entries|] == entries;
    PreflightIsExact(text, entries);
    FitsWithinLimit(text, entries);
    var archive := locals + (central + EndRecord(|entries|, |central|, |locals|));
    if |archive| > MAX_ARCHIVE_BYTES {
      return Err(ArchiveLimitExceeded);
    }
    return Ok(archive);
  }

  lemma FitsWithinLimit(text: Text, entries: seq<Entry>)
    requires Fits(text, entries)
    ensures EncodedSize(text, entries) <= MAX_ARCHIVE_BYTES
  {
  }

  lemma {:induction false} LocalsGrow(text: Text, entries: seq<Entry>, k: nat)
    requires AllEncodable(text, entries) && k <= |entries|
    ensures Locals(text, entries[..k]) <= Locals(text, entries)
    decreases |entries|
  {
    if k == |entries| {
      assert entries[..k] == entries;
    } else {
      var shorter := entries[..|entries| - 1];
      assert shorter[..k] == entries[..k];
      LocalsGrow(text, shorter, k);
    }
  }

  lemma {:induction false} CentralsGrow(text: Text, entries: seq<Entry>, k: nat)
    requires AllEncodable(text, entries) && |Locals(text, entries)| < TWO_32 && k <= |entries|
    ensures |Locals(text, entries[..k])| < TWO_32
    ensures Centrals(text, entries[..k]) <= Centrals(text, entries)
    decreases |entries|
  {
    if k == |entries| {
      assert entries[..k] == entries;
    } else {
      var shorter := entries[..|entries| - 1];
      assert shorter[..k] == entries[..k];
      CentralsGrow(text, shorter, k);
    }
  }
}
