/** The fixed-layout bundle header (Program.cs lines 115-155): the magic string,
    the version fields, the sizes and flags of the metadata block, and the checks
    that locate the compressed metadata in the file. */
module Header {
  import opened Wire
  import opened Flags

  /** "UnityFS" in ASCII; the magic is this string followed by a zero byte. */
  const Magic: seq<byte> := [0x55, 0x6E, 0x69, 0x74, 0x79, 0x46, 0x53]

  /** Length of the vendor prefix that follows the header when flag 0x200 is set. */
  const VendorPrefixSize: nat := 0x46

  /** Smallest accepted decompressed metadata size. */
  const MinMetadataSize: int := 24

  datatype Header = Header(
    version: i32,
    engineVersion: seq<byte>,
    minimumRevision: seq<byte>,
    bundleSize: u64,
    metadataSize: i32,
    uncompressedMetadataSize: i32,
    flags: u32)

  /** A decoded header and the file offset at which the compressed metadata starts. */
  datatype Located = Located(header: Header, metadataOffset: nat)

  function Min(a: nat, b: nat): nat {
    if a <= b then a else b
  }

  /** Bytes skipped after the header: the vendor prefix when flag 0x200 is set,
      cut short at the end of the file. */
  function PrefixSkip(flags: u32, available: nat): nat {
    if HasVendorPrefix(flags) then Min(VendorPrefixSize, available) else 0
  }

  /** Where the compressed metadata starts: `end` is where the header fields end
      and `available` the number of bytes after them. */
  function MetadataStart(flags: u32, end: nat, available: nat): nat {
    end + PrefixSkip(flags, available)
  }

  /** Number of bytes the header fields occupy on the wire. */
  function HeaderLength(h: Header): nat {
    (|Magic| + 1) + 4 + (|h.engineVersion| + 1) + (|h.minimumRevision| + 1) + 8 + 4 + 4 + 4
  }

  /** The sizes the decoder insists on. */
  predicate SizesValid(h: Header) {
    h.metadataSize != 0 && h.uncompressedMetadataSize >= MinMetadataSize
  }

  /** Version strings a zero terminator can delimit. */
  predicate Delimitable(h: Header) {
    0 !in h.engineVersion && 0 !in h.minimumRevision
  }

  /** The flag combination the decoder supports: metadata right after the header
      and a codec whose low six bits are 2 or 3. */
  predicate FlagsSupported(flags: u32) {
    !MetadataAtEnd(flags) && CodecAccepted(flags)
  }

  /** The header's bytes as they appear in a file. */
  function EncodeHeader(h: Header): (r: seq<byte>)
    ensures |r| == HeaderLength(h)
  {
    EncodePreamble(h.version, h.engineVersion, h.minimumRevision)
    + EncodeSizes(h.bundleSize, h.metadataSize, h.uncompressedMetadataSize, h.flags)
  }

  function EncodePreamble(version: i32, engine: seq<byte>, revision: seq<byte>): (r: seq<byte>)
    ensures |r| == 8 + 4 + (|engine| + 1) + (|revision| + 1)
  {
    Magic + [0] + ToBE(FromInt32(version), 4) + engine + [0] + revision + [0]
  }

  function EncodeSizes(bundleSize: u64, metadataSize: i32, rawSize: i32, flags: u32): (r: seq<byte>)
    ensures |r| == 20
  {
    ToBE(bundleSize, 8) + ToBE(FromInt32(metadataSize), 4) + ToBE(FromInt32(rawSize), 4) + ToBE(flags, 4)
  }

  /** The leading fields (lines 117-126): a wrong or unreadable magic is
      `NotABundle`; a short read of the version or of either string is
      `CorruptHeader`. */
  function ReadPreamble(s: seq<byte>): (r: Result<Read<(i32, seq<byte>, seq<byte>)>>)
    ensures r.Ok? ==> r.value.next == 8 + 4 + (|r.value.value.1| + 1) + (|r.value.value.2| + 1) <= |s|
  {
    var tag :- Expect(ReadCString(s, 0), NotABundle);
    if tag.value != Magic then Err(NotABundle)
    else
      var version :- Expect(ReadI32(s, tag.next), CorruptHeader);
      var engine :- Expect(ReadCString(s, version.next), CorruptHeader);
      var revision :- Expect(ReadCString(s, engine.next), CorruptHeader);
      Ok(Read((version.value, engine.value, revision.value), revision.next))
  }

  /** The size and flag fields (lines 127-136): a short read, a zero metadata
      size or a decompressed size below 24 is `CorruptHeader`. */
  function ReadSizes(s: seq<byte>, pos: nat): (r: Result<Read<(u64, i32, i32, u32)>>)
    ensures r.Ok? ==> r.value.value.1 != 0 && r.value.value.2 >= MinMetadataSize
    ensures r.Ok? ==> r.value.next == pos + 20 <= |s|
  {
    var bundleSize :- Expect(ReadU64(s, pos), CorruptHeader);
    var metadataSize :- Expect(ReadI32(s, bundleSize.next), CorruptHeader);
    if metadataSize.value == 0 then Err(CorruptHeader)
    else
      var rawSize :- Expect(ReadI32(s, metadataSize.next), CorruptHeader);
      if rawSize.value < MinMetadataSize then Err(CorruptHeader)
      else
        var flags :- Expect(ReadU32(s, rawSize.next), CorruptHeader);
        Ok(Read((bundleSize.value, metadataSize.value, rawSize.value, flags.value), flags.next))
  }

  /** All header fields (lines 117-136). */
  function ReadFields(s: seq<byte>): (r: Result<Read<Header>>)
    ensures r.Ok? ==> SizesValid(r.value.value)
    ensures r.Ok? ==> r.value.next == HeaderLength(r.value.value) <= |s|
  {
    var pre :- ReadPreamble(s);
    var sizes :- ReadSizes(s, pre.next);
    var (version, engine, revision) := pre.value;
    var (bundleSize, metadataSize, rawSize, flags) := sizes.value;
    Ok(Read(Header(version, engine, revision, bundleSize, metadataSize, rawSize, flags), sizes.next))
  }

  /** Where the metadata starts (lines 137-155): past the vendor prefix when flag
      0x200 is set; the end-of-file layout (flag 0x80) always fails, with one of
      two errors depending on the offset the program computes; then the codec. */
  function Locate(h: Header, end: nat, fileLength: nat): (r: Result<nat>)
    requires end <= fileLength
    ensures r.Ok? <==> FlagsSupported(h.flags)
    ensures r.Ok? ==> end <= r.value <= fileLength
    ensures MetadataAtEnd(h.flags) ==> r == Err(MetadataOutOfBounds) || r == Err(UnsupportedLayout)
  {
    if MetadataAtEnd(h.flags) then
      var metaPosition := Wrap64(ToInt64(h.bundleSize) - h.metadataSize);
      if metaPosition < 0 || metaPosition > fileLength then Err(MetadataOutOfBounds)
      else Err(UnsupportedLayout)
    else if !CodecAccepted(h.flags) then Err(UnsupportedCodec(CodecBits(h.flags)))
    else Ok(MetadataStart(h.flags, end, fileLength - end))
  }

  function DecodeHeader(s: seq<byte>): (r: Result<Located>)
    ensures r.Ok? ==> SizesValid(r.value.header) && FlagsSupported(r.value.header.flags)
    ensures r.Ok? ==>
      var h := r.value.header;
      HeaderLength(h) <= |s| &&
      r.value.metadataOffset == MetadataStart(h.flags, HeaderLength(h), |s| - HeaderLength(h))
  {
    var fields :- ReadFields(s);
    var start :- Locate(fields.value, fields.next, |s|);
    Ok(Located(fields.value, start))
  }

  // ---------------------------------------------------------------------------
  // Properties

  /** Decoding reports `NotABundle` exactly when the file does not begin with the
      magic string and its terminator; a truncated magic is rejected too. */
  lemma NotABundleIff(s: seq<byte>)
    ensures DecodeHeader(s) == Err(NotABundle) <==> !(|s| >= 8 && s[..8] == Magic + [0])
  {
    NotABundleFromTag(s);
    var tag := ReadCString(s, 0);
    if |s| >= 8 && s[..8] == Magic + [0] {
      ReadCStringOfEncoding([], Magic, s[8..]);
      assert [] + Magic + [0] + s[8..] == s;
    } else if tag.Some? && tag.value.value == Magic {
      CStringBytes(s, 0);
    }
  }

  /** Only the tag check yields `NotABundle`. */
  lemma NotABundleFromTag(s: seq<byte>)
    ensures var tag := ReadCString(s, 0);
      DecodeHeader(s) == Err(NotABundle) <==> tag.None? || tag.value.value != Magic
  {
    var tag := ReadCString(s, 0);
    if tag.Some? && tag.value.value == Magic {
      var pre := ReadPreamble(s);
      assert pre.Err? ==> pre.error == CorruptHeader;
      if pre.Ok? {
        var sizes := ReadSizes(s, pre.value.next);
        assert sizes.Err? ==> sizes.error == CorruptHeader;
      }
    }
  }

  /** With flag 0x80 set, decoding fails whichever way the bounds test goes, and
      never with a codec error. */
  lemma EndOfFileLayoutFails(s: seq<byte>)
    requires ReadFields(s).Ok? && MetadataAtEnd(ReadFields(s).value.value.flags)
    ensures DecodeHeader(s) == Err(MetadataOutOfBounds) || DecodeHeader(s) == Err(UnsupportedLayout)
  {
  }

  /** A codec error is reported only after the layout check passed, and carries
      the low six bits of the flags. */
  lemma CodecErrorAfterLayout(s: seq<byte>, code: nat)
    requires DecodeHeader(s) == Err(UnsupportedCodec(code))
    ensures ReadFields(s).Ok?
    ensures var f := ReadFields(s).value.value.flags;
      !MetadataAtEnd(f) && !CodecAccepted(f) && code == CodecBits(f)
  {
  }

  /** Encoding a supported header and decoding it gives it back, with the metadata
      right after the header fields (and past the vendor prefix when flagged). */
  lemma HeaderRoundTrip(h: Header, rest: seq<byte>)
    requires SizesValid(h) && Delimitable(h) && FlagsSupported(h.flags)
    ensures DecodeHeader(EncodeHeader(h) + rest) ==
      Ok(Located(h, MetadataStart(h.flags, HeaderLength(h), |rest|)))
  {
    FieldsRoundTrip(h, rest);
    DecodeSupported(EncodeHeader(h) + rest, h, HeaderLength(h), |rest|);
  }

  /** Once the fields are read, supported flags make the decode succeed. */
  lemma DecodeSupported(s: seq<byte>, h: Header, end: nat, available: nat)
    requires ReadFields(s) == Ok(Read(h, end)) && FlagsSupported(h.flags)
    requires |s| == end + available
    ensures DecodeHeader(s) == Ok(Located(h, MetadataStart(h.flags, end, available)))
  {
    LocateSupported(h, end, |s|, available);
    DecodeHeaderStages(s, h, end, available, MetadataStart(h.flags, end, available));
  }

  /** Decoding is reading the fields, then locating the metadata. */
  lemma DecodeHeaderStages(s: seq<byte>, h: Header, end: nat, available: nat, start: nat)
    requires ReadFields(s) == Ok(Read(h, end)) && |s| == end + available
    requires Locate(h, end, |s|) == Ok(start)
    ensures DecodeHeader(s) == Ok(Located(h, start))
  {
  }

  /** Supported flags locate the metadata right after the header, past the vendor
      prefix when flag 0x200 is set. */
  lemma LocateSupported(h: Header, end: nat, fileLength: nat, available: nat)
    requires FlagsSupported(h.flags) && fileLength == end + available
    ensures Locate(h, end, fileLength) == Ok(MetadataStart(h.flags, end, available))
  {
  }

  lemma FieldsRoundTrip(h: Header, rest: seq<byte>)
    requires SizesValid(h) && Delimitable(h)
    ensures ReadFields(EncodeHeader(h) + rest) == Ok(Read(h, HeaderLength(h)))
  {
    var pre := EncodePreamble(h.version, h.engineVersion, h.minimumRevision);
    var sizes := EncodeSizes(h.bundleSize, h.metadataSize, h.uncompressedMetadataSize, h.flags);
    assert EncodeHeader(h) + rest == pre + (sizes + rest) == pre + sizes + rest;
    PreambleRoundTrip(h.version, h.engineVersion, h.minimumRevision, sizes + rest);
    SizesRoundTrip(pre, h.bundleSize, h.metadataSize, h.uncompressedMetadataSize, h.flags, rest);
  }

  lemma PreambleRoundTrip(version: i32, engine: seq<byte>, revision: seq<byte>, rest: seq<byte>)
    requires 0 !in engine && 0 !in revision
    ensures ReadPreamble(EncodePreamble(version, engine, revision) + rest) ==
      Ok(Read((version, engine, revision), |EncodePreamble(version, engine, revision)|))
  {
    PreambleFieldsDecode(version, engine, revision, rest);
  }

  /** Each leading field decodes to the value encoded at its offset. */
  lemma PreambleFieldsDecode(version: i32, engine: seq<byte>, revision: seq<byte>, rest: seq<byte>)
    requires 0 !in engine && 0 !in revision
    ensures var s := EncodePreamble(version, engine, revision) + rest;
      var e := 12 + |engine| + 1;
      && ReadCString(s, 0) == Some(Read(Magic, 8))
      && ReadI32(s, 8) == Some(Read(version, 12))
      && ReadCString(s, 12) == Some(Read(engine, e))
      && ReadCString(s, e) == Some(Read(revision, e + |revision| + 1))
  {
    MagicDecodes(version, engine, revision, rest);
    VersionDecodes(version, engine, revision, rest);
    EngineDecodes(version, engine, revision, rest);
    RevisionDecodes(version, engine, revision, rest);
  }

  lemma MagicDecodes(version: i32, engine: seq<byte>, revision: seq<byte>, rest: seq<byte>)
    ensures ReadCString(EncodePreamble(version, engine, revision) + rest, 0) == Some(Read(Magic, 8))
  {
    var tail := ToBE(FromInt32(version), 4) + engine + [0] + revision + [0] + rest;
    assert EncodePreamble(version, engine, revision) + rest == [] + Magic + [0] + tail;
    ReadCStringOfEncoding([], Magic, tail);
  }

  lemma VersionDecodes(version: i32, engine: seq<byte>, revision: seq<byte>, rest: seq<byte>)
    ensures ReadI32(EncodePreamble(version, engine, revision) + rest, 8) == Some(Read(version, 12))
  {
    var tail := engine + [0] + revision + [0] + rest;
    assert EncodePreamble(version, engine, revision) + rest == (Magic + [0]) + ToBE(FromInt32(version), 4) + tail;
    ReadUIntOfEncoding(Magic + [0], FromInt32(version), 4, tail);
  }

  lemma EngineDecodes(version: i32, engine: seq<byte>, revision: seq<byte>, rest: seq<byte>)
    requires 0 !in engine
    ensures ReadCString(EncodePreamble(version, engine, revision) + rest, 12) == Some(Read(engine, 12 + |engine| + 1))
  {
    var head := Magic + [0] + ToBE(FromInt32(version), 4);
    var tail := revision + [0] + rest;
    assert EncodePreamble(version, engine, revision) + rest == head + engine + [0] + tail;
    ReadCStringOfEncoding(head, engine, tail);
  }

  lemma RevisionDecodes(version: i32, engine: seq<byte>, revision: seq<byte>, rest: seq<byte>)
    requires 0 !in revision
    ensures var e := 12 + |engine| + 1;
      ReadCString(EncodePreamble(version, engine, revision) + rest, e) == Some(Read(revision, e + |revision| + 1))
  {
    var head := Magic + [0] + ToBE(FromInt32(version), 4) + engine + [0];
    assert EncodePreamble(version, engine, revision) + rest == head + revision + [0] + rest;
    ReadCStringOfEncoding(head, revision, rest);
  }

  lemma SizesRoundTrip(pre: seq<byte>, bundleSize: u64, metadataSize: i32, rawSize: i32, flags: u32, rest: seq<byte>)
    requires metadataSize != 0 && rawSize >= MinMetadataSize
    ensures ReadSizes(pre + EncodeSizes(bundleSize, metadataSize, rawSize, flags) + rest, |pre|) ==
      Ok(Read((bundleSize, metadataSize, rawSize, flags), |pre| + 20))
  {
    SizeFieldsDecode(pre, bundleSize, metadataSize, rawSize, flags, rest);
  }

  /** Each of the four size fields decodes to the value encoded at its offset. */
  lemma SizeFieldsDecode(pre: seq<byte>, bundleSize: u64, metadataSize: i32, rawSize: i32, flags: u32, rest: seq<byte>)
    ensures var s := pre + EncodeSizes(bundleSize, metadataSize, rawSize, flags) + rest;
      && ReadU64(s, |pre|) == Some(Read(bundleSize, |pre| + 8))
      && ReadI32(s, |pre| + 8) == Some(Read(metadataSize, |pre| + 12))
      && ReadI32(s, |pre| + 12) == Some(Read(rawSize, |pre| + 16))
      && ReadU32(s, |pre| + 16) == Some(Read(flags, |pre| + 20))
  {
    var bs := ToBE(bundleSize, 8);
    var md := ToBE(FromInt32(metadataSize), 4);
    var us := ToBE(FromInt32(rawSize), 4);
    var fl := ToBE(flags, 4);
    var s := pre + EncodeSizes(bundleSize, metadataSize, rawSize, flags) + rest;
    assert s == pre + bs + (md + us + fl + rest);
    ReadUIntOfEncoding(pre, bundleSize, 8, md + us + fl + rest);
    assert s == pre + bs + md + (us + fl + rest);
    ReadUIntOfEncoding(pre + bs, FromInt32(metadataSize), 4, us + fl + rest);
    assert s == pre + bs + md + us + (fl + rest);
    ReadUIntOfEncoding(pre + bs + md, FromInt32(rawSize), 4, fl + rest);
    assert s == pre + bs + md + us + fl + rest;
    ReadUIntOfEncoding(pre + bs + md + us, flags, 4, rest);
  }

  /** A successful decode consumed exactly the encoding of the header it returns:
      every field was read from the file's own leading bytes. */
  lemma DecodedHeaderIsPrefix(s: seq<byte>)
    requires DecodeHeader(s).Ok?
    ensures var h := DecodeHeader(s).value.header;
      HeaderLength(h) <= |s| && s[..HeaderLength(h)] == EncodeHeader(h)
  {
    var h := DecodeHeader(s).value.header;
    var pre := ReadPreamble(s).value;
    PreambleIsPrefix(s);
    SizesArePrefix(s, pre.next);
    assert s[..HeaderLength(h)] == s[..pre.next] + s[pre.next..pre.next + 20];
  }

  lemma PreambleIsPrefix(s: seq<byte>)
    requires ReadPreamble(s).Ok?
    ensures var r := ReadPreamble(s).value;
      s[..r.next] == EncodePreamble(r.value.0, r.value.1, r.value.2)
  {
    var r := ReadPreamble(s).value;
    var e := ReadCString(s, 12).value.next;
    CStringBytes(s, 0);
    FieldBytes(s, 8, 4);
    FromInt32OfToInt32(ReadU32(s, 8).value.value);
    CStringBytes(s, 12);
    CStringBytes(s, e);
    PreambleParts(s, r.value.0, r.value.1, r.value.2, e, r.next);
  }

  lemma PreambleParts(s: seq<byte>, version: i32, engine: seq<byte>, revision: seq<byte>, e: nat, next: nat)
    requires 12 <= e <= next <= |s|
    requires s[0..8] == Magic + [0] && s[8..12] == ToBE(FromInt32(version), 4)
    requires s[12..e] == engine + [0] && s[e..next] == revision + [0]
    ensures s[..next] == EncodePreamble(version, engine, revision)
  {
    assert s[..next] == s[0..8] + s[8..12] + s[12..e] + s[e..next];
  }

  lemma SizesArePrefix(s: seq<byte>, pos: nat)
    requires ReadSizes(s, pos).Ok?
    ensures var r := ReadSizes(s, pos).value;
      s[pos..r.next] == EncodeSizes(r.value.0, r.value.1, r.value.2, r.value.3)
  {
    SizesValues(s, pos);
    var md := BE(s, pos + 8, 4);
    var us := BE(s, pos + 12, 4);
    FieldBytes(s, pos, 8);
    FieldBytes(s, pos + 8, 4);
    FieldBytes(s, pos + 12, 4);
    FieldBytes(s, pos + 16, 4);
    FromInt32OfToInt32(md);
    FromInt32OfToInt32(us);
    FourFields(s, pos);
  }

  /** The values `ReadSizes` returns, field by field. */
  lemma SizesValues(s: seq<byte>, pos: nat)
    requires ReadSizes(s, pos).Ok?
    ensures pos + 20 <= |s|
    ensures ReadSizes(s, pos).value.value
      == (BE(s, pos, 8), ToInt32(BE(s, pos + 8, 4)), ToInt32(BE(s, pos + 12, 4)), BE(s, pos + 16, 4))
  {
  }

  lemma FourFields(s: seq<byte>, pos: nat)
    requires pos + 20 <= |s|
    ensures s[pos..pos + 20] == s[pos..pos + 8] + s[pos + 8..pos + 12] + s[pos + 12..pos + 16] + s[pos + 16..pos + 20]
  {
    assert s[pos + 12..pos + 20] == s[pos + 12..pos + 16] + s[pos + 16..pos + 20];
    assert s[pos + 8..pos + 20] == s[pos + 8..pos + 12] + s[pos + 12..pos + 20];
    assert s[pos..pos + 20] == s[pos..pos + 8] + s[pos + 8..pos + 20];
  }

  /** The bytes of a fixed-width field are the encoding of the value read from them. */
  lemma FieldBytes(s: seq<byte>, pos: nat, width: nat)
    requires pos + width <= |s|
    ensures ToBE(BE(s, pos, width), width) == s[pos..pos + width]
  {
    var field := s[pos..pos + width];
    BESameBytes(s, pos, field, 0, width);
    ToBEOfBE(field);
  }

  // ---------------------------------------------------------------------------
  // The reader-based decoder

  method ReadPreambleFrom(reader: Reader) returns (r: Result<(i32, seq<byte>, seq<byte>)>)
    requires reader.Valid() && reader.pos == 0
    modifies reader
    ensures reader.Valid()
    ensures At(r, reader.pos) == ReadPreamble(reader.buf[..])
  {
    var ok, tag := reader.TryReadStringNullTerm();
    if !ok || tag != Magic {
      return Err(NotABundle);
    }
    var version: i32, engine: seq<byte>, revision: seq<byte>;
    ok, version := reader.TryReadInt32();
    if !ok {
      return Err(CorruptHeader);
    }
    ok, engine := reader.TryReadStringNullTerm();
    if !ok {
      return Err(CorruptHeader);
    }
    ok, revision := reader.TryReadStringNullTerm();
    if !ok {
      return Err(CorruptHeader);
    }
    r := Ok((version, engine, revision));
  }

  method ReadSizesFrom(reader: Reader) returns (r: Result<(u64, i32, i32, u32)>)
    requires reader.Valid()
    modifies reader
    ensures reader.Valid()
    ensures At(r, reader.pos) == ReadSizes(reader.buf[..], old(reader.pos))
  {
    var ok;
    var bundleSize: u64, metadataSize: i32, rawSize: i32, flags: u32;
    ok, bundleSize := reader.TryReadUInt64();
    if !ok {
      return Err(CorruptHeader);
    }
    ok, metadataSize := reader.TryReadInt32();
    if !ok || metadataSize == 0 {
      return Err(CorruptHeader);
    }
    ok, rawSize := reader.TryReadInt32();
    if !ok || rawSize < MinMetadataSize {
      return Err(CorruptHeader);
    }
    ok, flags := reader.TryReadUInt32();
    if !ok {
      return Err(CorruptHeader);
    }
    r := Ok((bundleSize, metadataSize, rawSize, flags));
  }

  /** Reads the header through a cursor, as the program does. */
  method ReadHeader(file: array<byte>) returns (r: Result<Located>)
    ensures r == DecodeHeader(file[..])
  {
    var reader := new Reader(file);
    var pre := ReadPreambleFrom(reader);
    if pre.Err? {
      return Err(pre.error);
    }
    var sizes := ReadSizesFrom(reader);
    if sizes.Err? {
      return Err(sizes.error);
    }
    var (version, engine, revision) := pre.value;
    var (bundleSize, metadataSize, rawSize, flags) := sizes.value;
    var h := Header(version, engine, revision, bundleSize, metadataSize, rawSize, flags);
    assert ReadFields(file[..]) == Ok(Read(h, reader.pos));
    var start := LocateFrom(reader, h);
    if start.Err? {
      return Err(start.error);
    }
    r := Ok(Located(h, start.value));
  }

  /** The flag checks of lines 137-155, skipping the vendor prefix through the cursor. */
  method LocateFrom(reader: Reader, h: Header) returns (r: Result<nat>)
    requires reader.Valid()
    modifies reader
    ensures reader.Valid()
    ensures old(reader.pos) <= reader.buf.Length
    ensures r == Locate(h, old(reader.pos), reader.buf.Length)
    ensures r.Ok? ==> reader.pos == r.value
  {
    if HasVendorPrefix(h.flags) {
      reader.ReadBytesClamped(VendorPrefixSize);
    }
    if MetadataAtEnd(h.flags) {
      var metaPosition := Wrap64(ToInt64(h.bundleSize) - h.metadataSize);
      if metaPosition < 0 || metaPosition > reader.buf.Length {
        return Err(MetadataOutOfBounds);
      }
      return Err(UnsupportedLayout);
    }
    if !CodecAccepted(h.flags) {
      return Err(UnsupportedCodec(CodecBits(h.flags)));
    }
    r := Ok(reader.pos);
  }
}
