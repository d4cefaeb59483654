/** One bundle from file bytes to tables (Program.cs lines 113-205), and the
    batch that copies every source bundle under its chosen name (lines 104-236).
    The LZ4 stage is abstract: a function from the compressed bytes and the two
    sizes to the decompressed bytes, or to nothing when it fails. */
module Bundle {
  import opened Wire
  import Header
  import Flags
  import opened Metadata
  import opened Naming

  /** The decompression stage: the bytes from the metadata offset on, the
      compressed size and the requested size. */
  type Decompressor = (seq<byte>, int, nat) -> Option<seq<byte>>

  /** Lines 157-161: the metadata buffer holds exactly the requested number of
      bytes; a failed or short decompression is an error. */
  function Decompress(decompress: Decompressor, compressed: seq<byte>, compressedSize: int, size: nat): (r: Result<seq<byte>>)
    ensures r.Ok? <==>
      decompress(compressed, compressedSize, size).Some? && |decompress(compressed, compressedSize, size).value| == size
    ensures r.Ok? ==> r.value == decompress(compressed, compressedSize, size).value
    ensures r.Err? ==> r.error == DecompressionError
  {
    match decompress(compressed, compressedSize, size)
    case Some(metadata) => if |metadata| == size then Ok(metadata) else Err(DecompressionError)
    case None => Err(DecompressionError)
  }

  /** The header, then the decompressed metadata, then the tables. */
  function DecodeBundle(file: seq<byte>, decompress: Decompressor): (r: Result<Tables>)
    ensures r.Ok? ==> Header.DecodeHeader(file).Ok?
    ensures r.Ok? ==>
      var size := Header.DecodeHeader(file).value.header.uncompressedMetadataSize;
      BlocksStart + BlockSize * |r.value.blocks| + 4 + MinDirectorySize * |r.value.directories| <= size
  {
    var located :- Header.DecodeHeader(file);
    var h := located.header;
    var metadata :- Decompress(decompress, file[located.metadataOffset..], h.metadataSize, h.uncompressedMetadataSize as nat);
    ParseTables(metadata)
  }

  /** The decode as the program runs it: the table stage as written, with
      wrapping guards and unchecked record reads. */
  function DecodeBundleAsWritten(file: seq<byte>, decompress: Decompressor): (r: Result<Tables>)
    ensures r.Ok? ==> Header.DecodeHeader(file).Ok?
    ensures Header.DecodeHeader(file).Err? ==> r == Err(Header.DecodeHeader(file).error)
  {
    var located :- Header.DecodeHeader(file);
    var h := located.header;
    var metadata :- Decompress(decompress, file[located.metadataOffset..], h.metadataSize, h.uncompressedMetadataSize as nat);
    ParseTablesAsWritten(metadata)
  }

  /** Wherever the corrected decode succeeds, the program decodes the same
      tables: the metadata size is an `int`, so the guards cannot wrap on it. */
  lemma DecodeBundleAgrees(file: seq<byte>, decompress: Decompressor)
    requires DecodeBundle(file, decompress).Ok?
    ensures DecodeBundleAsWritten(file, decompress) == DecodeBundle(file, decompress)
  {
    var located := Header.DecodeHeader(file).value;
    var h := located.header;
    var metadata := Decompress(decompress, file[located.metadataOffset..], h.metadataSize, h.uncompressedMetadataSize as nat).value;
    TablesAgreeWhenValid(metadata);
  }

  // ---------------------------------------------------------------------------
  // Properties

  /** A file that does not start with the magic string fails with `NotABundle`
      whatever the decompressor does, and no later stage reports `NotABundle`. */
  lemma NotABundleIff(file: seq<byte>, decompress: Decompressor)
    ensures DecodeBundle(file, decompress) == Err(NotABundle) <==>
      !(|file| >= 8 && file[..8] == Header.Magic + [0])
  {
    Header.NotABundleIff(file);
    var located := Header.DecodeHeader(file);
    if located.Ok? {
      var h := located.value.header;
      var metadata := Decompress(decompress, file[located.value.metadataOffset..], h.metadataSize, h.uncompressedMetadataSize as nat);
      if metadata.Ok? {
        TablesNeverNotABundle(metadata.value);
      }
    }
  }

  /** The metadata stage reports only its own errors. */
  lemma TablesNeverNotABundle(s: seq<byte>)
    ensures ParseTables(s) != Err(NotABundle)
  {
    var blocks := BlockTable(s);
    if blocks.Ok? {
      DirectoryTableErrors(s, blocks.value.next, |blocks.value.value|);
    }
  }

  lemma DirectoryTableErrors(s: seq<byte>, pos: nat, blockCount: nat)
    ensures DirectoryTable(s, pos, blockCount) != Err(NotABundle)
  {
    if pos + 4 <= |s| {
      DirectoriesErrors(s, pos + 4, BE(s, pos, 4));
    }
  }

  /** A header failure ends the decode before decompression: the outcome does
      not depend on the decompressor. */
  lemma HeaderFailureFirst(file: seq<byte>, d1: Decompressor, d2: Decompressor)
    requires Header.DecodeHeader(file).Err?
    ensures DecodeBundle(file, d1) == DecodeBundle(file, d2) == Err(Header.DecodeHeader(file).error)
  {
  }

  /** Bytes the decoder skips after the header fields when the file is long
      enough: the vendor prefix when flag 0x200 is set. */
  function PrefixLength(flags: u32): nat {
    if Flags.HasVendorPrefix(flags) then Header.VendorPrefixSize else 0
  }

  /** A supported header followed by any prefix bytes and by compressed bytes
      the decompressor turns into encoded tables of exactly the declared size:
      decoding the file gives back those tables. */
  lemma BundleRoundTrip(h: Header.Header, rest: seq<byte>, decompress: Decompressor,
                        hash: seq<byte>, t: Tables, pad: seq<byte>)
    requires Header.SizesValid(h) && Header.Delimitable(h) && Header.FlagsSupported(h.flags)
    requires PrefixLength(h.flags) <= |rest|
    requires |hash| == HashSize && Encodable(t)
    requires decompress(rest[PrefixLength(h.flags)..], h.metadataSize, h.uncompressedMetadataSize as nat) ==
      Some(EncodeTables(hash, t) + pad)
    requires |EncodeTables(hash, t) + pad| == h.uncompressedMetadataSize
    ensures DecodeBundle(Header.EncodeHeader(h) + rest, decompress) == Ok(t)
  {
    var metadata := EncodeTables(hash, t) + pad;
    TablesRoundTrip(hash, t, pad);
    HeaderAndMetadata(h, rest, decompress, metadata);
  }

  /** Decoding a file made of an encoded supported header and the bytes after
      it gives the tables of the decompressed buffer. */
  lemma HeaderAndMetadata(h: Header.Header, rest: seq<byte>, decompress: Decompressor, metadata: seq<byte>)
    requires Header.SizesValid(h) && Header.Delimitable(h) && Header.FlagsSupported(h.flags)
    requires PrefixLength(h.flags) <= |rest|
    requires decompress(rest[PrefixLength(h.flags)..], h.metadataSize, h.uncompressedMetadataSize as nat) == Some(metadata)
    requires |metadata| == h.uncompressedMetadataSize
    ensures DecodeBundle(Header.EncodeHeader(h) + rest, decompress) == ParseTables(metadata)
  {
    var file := Header.EncodeHeader(h) + rest;
    var start := Header.MetadataStart(h.flags, Header.HeaderLength(h), |rest|);
    Header.HeaderRoundTrip(h, rest);
    PrefixSkipped(h, rest, file, start);
    DecodeBundleStages(file, decompress, Header.Located(h, start), metadata);
  }

  /** The metadata starts right after the header and the prefix. */
  lemma PrefixSkipped(h: Header.Header, rest: seq<byte>, file: seq<byte>, start: nat)
    requires PrefixLength(h.flags) <= |rest| && file == Header.EncodeHeader(h) + rest
    requires start == Header.MetadataStart(h.flags, Header.HeaderLength(h), |rest|)
    ensures start <= |file| && file[start..] == rest[PrefixLength(h.flags)..]
  {
  }

  /** A located header whose metadata does not decompress to the declared size
      fails the decode. */
  lemma DecompressionFails(file: seq<byte>, decompress: Decompressor, located: Header.Located)
    requires Header.DecodeHeader(file) == Ok(located)
    requires located.metadataOffset <= |file|
    requires var d := decompress(file[located.metadataOffset..], located.header.metadataSize,
                                 located.header.uncompressedMetadataSize as nat);
      d.None? || |d.value| != located.header.uncompressedMetadataSize
    ensures DecodeBundle(file, decompress) == Err(DecompressionError)
  {
  }

  /** A located header and a decompressed buffer of the declared size leave the
      outcome to the tables. */
  lemma DecodeBundleStages(file: seq<byte>, decompress: Decompressor, located: Header.Located, metadata: seq<byte>)
    requires Header.DecodeHeader(file) == Ok(located)
    requires located.metadataOffset <= |file|
    requires decompress(file[located.metadataOffset..], located.header.metadataSize,
                        located.header.uncompressedMetadataSize as nat) == Some(metadata)
    requires |metadata| == located.header.uncompressedMetadataSize
    ensures DecodeBundle(file, decompress) == ParseTables(metadata)
  {
  }

  /** Lines 113-205 over the file's bytes: the header through a cursor, the
      abstract decompression into a buffer of the declared size, and the tables
      through a second cursor over that buffer. */
  method ReadBundle(file: array<byte>, decompress: Decompressor) returns (r: Result<Tables>)
    ensures r == DecodeBundle(file[..], decompress)
  {
    var located := Header.ReadHeader(file);
    if located.Err? {
      return Err(located.error);
    }
    ghost var contents := file[..];
    var h := located.value.header;
    var size := h.uncompressedMetadataSize as nat;
    var decoded := decompress(file[located.value.metadataOffset..], h.metadataSize, size);
    assert file[located.value.metadataOffset..] == contents[located.value.metadataOffset..];
    if decoded.None? || |decoded.value| != size {
      DecompressionFails(contents, decompress, located.value);
      return Err(DecompressionError);
    }
    var metadata := decoded.value;
    var buffer := NewBuffer(metadata);
    DecodeBundleStages(contents, decompress, located.value, metadata);
    r := ParseMetadata(buffer);
  }

  // ---------------------------------------------------------------------------
  // The batch

  /** The name a bundle asks for (line 206), or why it has none: the decode
      failed or the bundle has no directory entry. */
  function Preferred(file: seq<byte>, decompress: Decompressor, destination: string): (r: Result<string>)
    ensures r.Err? <==>
      DecodeBundle(file, decompress).Err? || |DecodeBundle(file, decompress).value.directories| == 0
  {
    var t :- DecodeBundle(file, decompress);
    BaseName(destination, t)
  }

  /** Each source file's preferred name, found on its own. */
  function PreferredNames(files: seq<seq<byte>>, decompress: Decompressor, destination: string): (r: seq<Result<string>>)
    ensures |r| == |files|
  {
    seq(|files|, k requires 0 <= k < |files| => Preferred(files[k], decompress, destination))
  }

  /** The names the bundles were copied to, in order, and the failure that
      stopped the batch, if any. */
  datatype Outcome = Outcome(copies: seq<string>, failure: Option<Error>)

  /** The batch over the preferred names: each copy goes to the name chosen
      against the names present and joins them; the first failure ends the
      batch, since the error handler surrounds the whole loop. */
  function Batch(preferred: seq<Result<string>>, existing: set<string>): (r: Outcome)
    ensures |r.copies| <= |preferred|
    decreases |preferred|
  {
    if |preferred| == 0 then Outcome([], None)
    else
      match preferred[0]
      case Err(e) => Outcome([], Some(e))
      case Ok(name) =>
        var chosen := ChosenName(name, existing);
        var rest := Batch(preferred[1..], existing + {chosen});
        Outcome([chosen] + rest.copies, rest.failure)
  }

  /** The copies made so far, followed by the outcome of the rest. */
  function Then(copies: seq<string>, rest: Outcome): Outcome {
    Outcome(copies + rest.copies, rest.failure)
  }

  lemma ThenAppend(copies: seq<string>, chosen: string, rest: Outcome)
    ensures Then(copies, Then([chosen], rest)) == Then(copies + [chosen], rest)
  {
    assert copies + ([chosen] + rest.copies) == copies + [chosen] + rest.copies;
  }

  /** The names in a sequence, as a set. */
  function Names(copies: seq<string>): set<string> {
    set x | x in copies
  }

  /** None of the names existed, and no two are the same. */
  predicate FreshAndDistinct(copies: seq<string>, existing: set<string>) {
    (forall k :: 0 <= k < |copies| ==> copies[k] !in existing) &&
    forall j, k :: 0 <= j < k < |copies| ==> copies[j] != copies[k]
  }

  /** No copy overwrites a file that existed before, nor one made earlier in
      the batch. */
  lemma {:induction false} CopiesFresh(preferred: seq<Result<string>>, existing: set<string>)
    ensures FreshAndDistinct(Batch(preferred, existing).copies, existing)
    decreases |preferred|
  {
    if |preferred| > 0 && preferred[0].Ok? {
      var chosen := ChosenName(preferred[0].value, existing);
      ChosenNameFreshAndLeast(preferred[0].value, existing);
      CopiesFresh(preferred[1..], existing + {chosen});
      ConsFresh(chosen, Batch(preferred[1..], existing + {chosen}).copies, existing);
    }
  }

  lemma ConsFresh(name: string, rest: seq<string>, existing: set<string>)
    requires name !in existing && FreshAndDistinct(rest, existing + {name})
    ensures FreshAndDistinct([name] + rest, existing)
  {
    var all := [name] + rest;
    forall k | 0 < k < |all|
      ensures all[k] == rest[k - 1] && all[k] != name && all[k] !in existing
    {
      assert rest[k - 1] !in existing + {name};
    }
  }

  /** Bundle `k` was copied under the name chosen for its preferred name
      against the names that existed before plus the copies made before it. */
  predicate CopiedInOrder(preferred: seq<Result<string>>, existing: set<string>, copies: seq<string>) {
    |copies| <= |preferred| &&
    forall k :: 0 <= k < |copies| ==>
      preferred[k].Ok? && copies[k] == ChosenName(preferred[k].value, existing + Names(copies[..k]))
  }

  /** The batch copied every bundle, or stopped at the first bundle without a
      preferred name, with that bundle's failure. */
  predicate StoppedAtFailure(preferred: seq<Result<string>>, r: Outcome) {
    (r.failure.None? <==> |r.copies| == |preferred|) &&
    (r.failure.Some? ==> |r.copies| < |preferred| && preferred[|r.copies|] == Err(r.failure.value))
  }

  /** The batch copies the bundles in order, each against the names present at
      its turn, and ends at the first failure. */
  lemma {:induction false} BatchInOrder(preferred: seq<Result<string>>, existing: set<string>)
    ensures CopiedInOrder(preferred, existing, Batch(preferred, existing).copies)
    ensures StoppedAtFailure(preferred, Batch(preferred, existing))
    decreases |preferred|
  {
    if |preferred| > 0 && preferred[0].Ok? {
      var chosen := ChosenName(preferred[0].value, existing);
      var rest := Batch(preferred[1..], existing + {chosen});
      BatchInOrder(preferred[1..], existing + {chosen});
      ConsCopied(preferred, existing, chosen, rest.copies);
      ConsStopped(preferred, chosen, rest);
    }
  }

  lemma ConsCopied(preferred: seq<Result<string>>, existing: set<string>, chosen: string, rest: seq<string>)
    requires |preferred| > 0 && preferred[0].Ok? && chosen == ChosenName(preferred[0].value, existing)
    requires CopiedInOrder(preferred[1..], existing + {chosen}, rest)
    ensures CopiedInOrder(preferred, existing, [chosen] + rest)
  {
    var copies := [chosen] + rest;
    forall k | 0 <= k < |copies|
      ensures preferred[k].Ok? && copies[k] == ChosenName(preferred[k].value, existing + Names(copies[..k]))
    {
      if k == 0 {
        assert existing + Names(copies[..0]) == existing;
      } else {
        CopiedShift(preferred, existing, chosen, rest, k);
      }
    }
  }

  lemma CopiedShift(preferred: seq<Result<string>>, existing: set<string>, chosen: string, rest: seq<string>, k: nat)
    requires 0 < k <= |rest| && |preferred| > 0
    requires CopiedInOrder(preferred[1..], existing + {chosen}, rest)
    ensures preferred[k].Ok? &&
      ([chosen] + rest)[k] == ChosenName(preferred[k].value, existing + Names(([chosen] + rest)[..k]))
  {
    var copies := [chosen] + rest;
    assert copies[..k] == [chosen] + rest[..k - 1];
    assert existing + Names(copies[..k]) == existing + {chosen} + Names(rest[..k - 1]);
    assert preferred[k] == preferred[1..][k - 1];
  }

  lemma ConsStopped(preferred: seq<Result<string>>, chosen: string, rest: Outcome)
    requires |preferred| > 0 && StoppedAtFailure(preferred[1..], rest)
    ensures StoppedAtFailure(preferred, Outcome([chosen] + rest.copies, rest.failure))
  {
    if rest.failure.Some? {
      assert preferred[1 + |rest.copies|] == preferred[1..][|rest.copies|];
    }
  }

  /** Lines 108-222: the bundles in order, each decoded, named and copied, the
      copy joining the existing names; the first failure ends the loop. */
  method RenameAll(files: seq<seq<byte>>, decompress: Decompressor, destination: string, existing: set<string>)
    returns (copies: seq<string>, failure: Option<Error>)
    ensures Outcome(copies, failure) == Batch(PreferredNames(files, decompress, destination), existing)
  {
    ghost var preferred := PreferredNames(files, decompress, destination);
    copies := [];
    var present := existing;
    var k := 0;
    while k < |files|
      invariant k <= |files|
      invariant Batch(preferred, existing) == Then(copies, Batch(preferred[k..], present))
      decreases |files| - k
    {
      var name := PreferredFrom(files[k], decompress, destination);
      BatchStep(preferred, k, present);
      if name.Err? {
        return copies, Some(name.error);
      }
      var chosen := ChooseName(name.value, present);
      ThenAppend(copies, chosen, Batch(preferred[k + 1..], present + {chosen}));
      copies := copies + [chosen];
      present := present + {chosen};
      k := k + 1;
    }
    assert preferred[k..] == [];
    failure := None;
  }

  /** The batch from bundle `k` on, by the preferred name of bundle `k`. */
  lemma BatchStep(preferred: seq<Result<string>>, k: nat, present: set<string>)
    requires k < |preferred|
    ensures preferred[k].Err? ==> Batch(preferred[k..], present) == Outcome([], Some(preferred[k].error))
    ensures preferred[k].Ok? ==>
      var chosen := ChosenName(preferred[k].value, present);
      Batch(preferred[k..], present) == Then([chosen], Batch(preferred[k + 1..], present + {chosen}))
  {
    assert preferred[k..][0] == preferred[k] && preferred[k..][1..] == preferred[k + 1..];
  }

  /** Lines 113-206 for one source: open, decode, take the first path. */
  method PreferredFrom(contents: seq<byte>, decompress: Decompressor, destination: string) returns (r: Result<string>)
    ensures r == Preferred(contents, decompress, destination)
  {
    var file := NewBuffer(contents);
    var tables := ReadBundle(file, decompress);
    if tables.Err? {
      return Err(tables.error);
    }
    r := BaseName(destination, tables.value);
  }
}
