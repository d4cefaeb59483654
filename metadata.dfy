/** The metadata tables of a bundle (Program.cs lines 157-200), read from the
    decompressed metadata buffer, whose length is the header's uncompressed
    metadata size: a 16-byte hash, a block count and that many 10-byte block
    records, then a directory count and that many directory records.

    `ParseTables` is the decoder the rest of the model uses.  It differs from
    the program in two places, each modelled as written as well (the
    `AsWritten` members): the two size guards are computed here without 32-bit
    wrap-around, and a record that runs past the end of the buffer is an error
    instead of a record of default values. */
module Metadata {
  import opened Wire

  /** The program's `Block` struct. */
  datatype Block = Block(uncompressedSize: u32, compressedSize: u32, flags: u16)

  /** The program's `DirectoryInfo` struct; the path is kept as raw bytes. */
  datatype DirectoryEntry = DirectoryEntry(offset: u64, size: u64, flags: u32, path: seq<byte>)

  datatype Tables = Tables(blocks: seq<Block>, directories: seq<DirectoryEntry>)

  const HashSize: nat := 16
  /** Bytes taken by one block record: two u32 and a u16. */
  const BlockSize: nat := 10
  /** Bytes before the first block record: the hash and the block count. */
  const BlocksStart: nat := 20
  /** Fewest bytes a directory record takes: two u64, a u32 and the path's terminator. */
  const MinDirectorySize: nat := 21

  // ---------------------------------------------------------------------------
  // Records

  /** Two u32 and a u16 (lines 178-180): all three reads succeed exactly when ten bytes remain. */
  function ReadBlock(s: seq<byte>, pos: nat): (r: Option<Read<Block>>)
    ensures r.Some? <==> pos + BlockSize <= |s|
    ensures r.Some? ==> r.value.next == pos + BlockSize
  {
    if pos + BlockSize <= |s| then
      Some(Read(Block(BE(s, pos, 4), BE(s, pos + 4, 4), BE(s, pos + 8, 2)), pos + BlockSize))
    else None
  }

  /** `n` block records in a row, starting at `pos`. */
  function ReadBlocks(s: seq<byte>, pos: nat, n: nat): (r: Option<Read<seq<Block>>>)
    ensures r.Some? <==> pos + BlockSize * n <= |s|
    ensures r.Some? ==> |r.value.value| == n && r.value.next == pos + BlockSize * n
  {
    if n == 0 then
      if pos <= |s| then Some(Read([], pos)) else None
    else
      var init :- ReadBlocks(s, pos, n - 1);
      var last :- ReadBlock(s, init.next);
      Some(Read(init.value + [last.value], last.next))
  }

  /** Two u64, a u32 and a zero-terminated path (lines 193-197).  The three
      fixed-width reads succeed exactly when twenty bytes remain. */
  function ReadDirectory(s: seq<byte>, pos: nat): (r: Result<Read<DirectoryEntry>>)
    ensures r.Ok? ==> pos + MinDirectorySize <= r.value.next <= |s|
  {
    if pos + 20 > |s| then Err(InsufficientData)
    else
      match ReadCString(s, pos + 20)
      case None => Err(MalformedString)
      case Some(path) =>
        Ok(Read(DirectoryEntry(BE(s, pos, 8), BE(s, pos + 8, 8), BE(s, pos + 16, 4), path.value), path.next))
  }

  /** `n` directory records in a row, starting at `pos`. */
  function ReadDirectories(s: seq<byte>, pos: nat, n: nat): (r: Result<Read<seq<DirectoryEntry>>>)
    ensures r.Ok? ==> |r.value.value| == n && pos + MinDirectorySize * n <= r.value.next <= |s|
  {
    if n == 0 then
      if pos <= |s| then Ok(Read([], pos)) else Err(InsufficientData)
    else
      match ReadDirectories(s, pos, n - 1)
      case Err(e) => Err(e)
      case Ok(init) =>
        match ReadDirectory(s, init.next)
        case Err(e) => Err(e)
        case Ok(last) => Ok(Read(init.value + [last.value], last.next))
  }

  /** A record that fails to read fails every longer run of records with the same error. */
  lemma {:induction false} DirectoryFailurePropagates(s: seq<byte>, pos: nat, j: nat, n: nat, e: Error)
    requires j < n
    requires ReadDirectories(s, pos, j).Ok?
    requires ReadDirectory(s, ReadDirectories(s, pos, j).value.next) == Err(e)
    ensures ReadDirectories(s, pos, n) == Err(e)
  {
    var init := ReadDirectories(s, pos, n - 1);
    if n > j + 1 {
      DirectoryFailurePropagates(s, pos, j, n - 1, e);
      assert init == Err(e);
    } else {
      assert init.Ok? && ReadDirectory(s, init.value.next) == Err(e);
    }
  }

  lemma DirectoryStep(s: seq<byte>, pos: nat, j: nat, init: seq<DirectoryEntry>, p: nat, last: DirectoryEntry, q: nat)
    requires ReadDirectories(s, pos, j) == Ok(Read(init, p))
    requires ReadDirectory(s, p) == Ok(Read(last, q))
    ensures ReadDirectories(s, pos, j + 1) == Ok(Read(init + [last], q))
  {
  }

  // ---------------------------------------------------------------------------
  // Size guards

  /** Line 170 without wrap-around: the hash, the count and the block records fit. */
  predicate BlockTableFits(blockCount: u32, size: int) {
    blockCount * 10 + 20 <= size
  }

  /** Line 185 without wrap-around (ten bytes counted per directory). */
  predicate DirectoryTableFits(directoryCount: u32, blockCount: u32, size: int) {
    directoryCount * 10 + blockCount * 10 + 20 <= size
  }

  /** Reduction of `uint` arithmetic modulo 2^32. */
  function Wrap32(x: int): (r: u32)
  {
    x % 0x1_0000_0000
  }

  /** Line 170 as written: the left side is computed in `uint`. */
  predicate BlockTableFitsAsWritten(blockCount: u32, size: int) {
    Wrap32(blockCount * 10 + 20) <= size
  }

  /** Line 185 as written: the left side is computed in `uint`. */
  predicate DirectoryTableFitsAsWritten(directoryCount: u32, blockCount: u32, size: int) {
    Wrap32(directoryCount * 10 + blockCount * 10 + 20) <= size
  }

  // ---------------------------------------------------------------------------
  // The tables

  /** The hash, the guarded block count and the block records (lines 165-183). */
  function BlockTable(s: seq<byte>): (r: Result<Read<seq<Block>>>)
    ensures r.Ok? ==> r.value.next == BlocksStart + BlockSize * |r.value.value| <= |s|
  {
    var hash :- Expect(ReadBytes(s, 0, HashSize), MetadataUnreadable);
    var blockCount :- Expect(ReadU32(s, hash.next), BlockTableTooLarge);
    if !BlockTableFits(blockCount.value, |s|) then Err(BlockTableTooLarge)
    else Expect(ReadBlocks(s, blockCount.next, blockCount.value), InsufficientData)
  }

  /** The guarded directory count and the directory records (lines 185-200). */
  function DirectoryTable(s: seq<byte>, pos: nat, blockCount: nat): (r: Result<Read<seq<DirectoryEntry>>>)
    ensures r.Ok? ==> pos + 4 + MinDirectorySize * |r.value.value| <= r.value.next <= |s|
    ensures r.Ok? ==> pos + 4 <= |s| && |r.value.value| == BE(s, pos, 4)
    ensures r.Ok? ==> blockCount < 0x1_0000_0000 && DirectoryTableFits(|r.value.value|, blockCount, |s|)
  {
    var directoryCount :- Expect(ReadU32(s, pos), DirectoryTableTooLarge);
    if blockCount >= 0x1_0000_0000 || !DirectoryTableFits(directoryCount.value, blockCount, |s|) then
      Err(DirectoryTableTooLarge)
    else ReadDirectories(s, directoryCount.next, directoryCount.value)
  }

  /** Decodes the whole decompressed metadata buffer; its length is the size the guards compare with. */
  function ParseTables(s: seq<byte>): (r: Result<Tables>)
    ensures r.Ok? ==> BlocksStart + BlockSize * |r.value.blocks| + 4 + MinDirectorySize * |r.value.directories| <= |s|
  {
    var blocks :- BlockTable(s);
    var directories :- DirectoryTable(s, blocks.next, |blocks.value|);
    Ok(Tables(blocks.value, directories.value))
  }

  // ---------------------------------------------------------------------------
  // What a successful or failed parse says about the buffer

  /** The block stage fails with `MetadataUnreadable` exactly when the hash is
      short, with `BlockTableTooLarge` exactly when the count is short or fails
      the guard, and never because a block record is short: the guard leaves
      room for every record.  Otherwise it returns `blockCount` records. */
  lemma BlockTableOutcome(s: seq<byte>)
    ensures BlockTable(s) == Err(MetadataUnreadable) <==> |s| < HashSize
    ensures BlockTable(s) == Err(BlockTableTooLarge) <==>
      HashSize <= |s| && (|s| < BlocksStart || !BlockTableFits(BE(s, HashSize, 4), |s|))
    ensures BlockTable(s) != Err(InsufficientData)
    ensures BlockTable(s).Ok? <==> BlocksStart <= |s| && BlockTableFits(BE(s, HashSize, 4), |s|)
    ensures BlockTable(s).Ok? ==>
      |BlockTable(s).value.value| == BE(s, HashSize, 4) &&
      BlockTable(s).value.next == BlocksStart + BlockSize * BE(s, HashSize, 4)
  {
  }

  /** Block `i` of a run is the three big-endian fields at offset `10 * i`. */
  lemma {:induction false} BlocksInWireOrder(s: seq<byte>, pos: nat, n: nat, i: nat)
    requires ReadBlocks(s, pos, n).Some? && i < n
    ensures pos + BlockSize * i + BlockSize <= |s|
    ensures ReadBlocks(s, pos, n).value.value[i] ==
      Block(BE(s, pos + BlockSize * i, 4), BE(s, pos + BlockSize * i + 4, 4), BE(s, pos + BlockSize * i + 8, 2))
  {
    if i < n - 1 {
      BlocksInWireOrder(s, pos, n - 1, i);
    }
  }

  /** Directory record `k` of a run is the record that starts where the first
      `k` records end. */
  lemma {:induction false} DirectoriesInWireOrder(s: seq<byte>, pos: nat, n: nat, k: nat)
    requires ReadDirectories(s, pos, n).Ok? && k < n
    ensures ReadDirectories(s, pos, k).Ok?
    ensures var start := ReadDirectories(s, pos, k).value.next;
      ReadDirectory(s, start).Ok? &&
      ReadDirectory(s, start).value.value == ReadDirectories(s, pos, n).value.value[k]
    decreases n
  {
    if k < n - 1 {
      DirectoriesInWireOrder(s, pos, n - 1, k);
    }
  }

  /** The directory stage fails with `DirectoryTableTooLarge` exactly when the
      count is short or fails the guard; otherwise its outcome is that of the
      `directoryCount` records. */
  lemma DirectoryTableOutcome(s: seq<byte>, pos: nat, blockCount: u32)
    ensures pos + 4 <= |s| && DirectoryTableFits(BE(s, pos, 4), blockCount, |s|) ==>
      DirectoryTable(s, pos, blockCount) == ReadDirectories(s, pos + 4, BE(s, pos, 4))
    ensures !(pos + 4 <= |s| && DirectoryTableFits(BE(s, pos, 4), blockCount, |s|)) ==>
      DirectoryTable(s, pos, blockCount) == Err(DirectoryTableTooLarge)
  {
  }

  /** A run of directory records fails only with `InsufficientData` or `MalformedString`. */
  lemma {:induction false} DirectoriesErrors(s: seq<byte>, pos: nat, n: nat)
    ensures ReadDirectories(s, pos, n).Err? ==>
      ReadDirectories(s, pos, n).error == InsufficientData || ReadDirectories(s, pos, n).error == MalformedString
  {
    if n > 0 {
      DirectoriesErrors(s, pos, n - 1);
    }
  }

  /** A directory record is the three big-endian fields and a path that runs to
      the next zero byte, which holds no zero itself. */
  lemma DirectoryLayout(s: seq<byte>, pos: nat)
    requires ReadDirectory(s, pos).Ok?
    ensures var r := ReadDirectory(s, pos).value;
      && pos + 20 < r.next
      && r.value.offset == BE(s, pos, 8)
      && r.value.size == BE(s, pos + 8, 8)
      && r.value.flags == BE(s, pos + 16, 4)
      && s[pos + 20..r.next] == r.value.path + [0]
      && 0 !in r.value.path
  {
    CStringBytes(s, pos + 20);
    ReadCStringNoZero(s, pos + 20);
  }

  /** A record that runs past the end fails with `InsufficientData` when its
      fixed-width fields are short, and with `MalformedString` when no zero byte
      ends its path. */
  lemma DirectoryFailure(s: seq<byte>, pos: nat)
    ensures ReadDirectory(s, pos) == Err(InsufficientData) <==> |s| < pos + 20
    ensures ReadDirectory(s, pos) == Err(MalformedString) <==>
      pos + 20 <= |s| && forall k :: pos + 20 <= k < |s| ==> s[k] != 0
  {
    if pos + 20 <= |s| {
      if ReadCString(s, pos + 20).None? {
        ReadCStringFails(s, pos + 20);
      } else {
        CStringBytes(s, pos + 20);
        var z := ReadCString(s, pos + 20).value.next - 1;
        assert s[z] == 0;
      }
    }
  }

  // ---------------------------------------------------------------------------
  // Encoding: the layout the parser reads

  function EncodeBlock(b: Block): (r: seq<byte>)
    ensures |r| == BlockSize
  {
    ToBE(b.uncompressedSize, 4) + ToBE(b.compressedSize, 4) + ToBE(b.flags, 2)
  }

  function EncodeBlocks(bs: seq<Block>): (r: seq<byte>)
    ensures |r| == BlockSize * |bs|
  {
    if |bs| == 0 then [] else EncodeBlocks(bs[..|bs| - 1]) + EncodeBlock(bs[|bs| - 1])
  }

  function EncodeDirectory(d: DirectoryEntry): (r: seq<byte>)
    ensures |r| == 20 + |d.path| + 1
  {
    ToBE(d.offset, 8) + ToBE(d.size, 8) + ToBE(d.flags, 4) + d.path + [0]
  }

  function EncodeDirectories(ds: seq<DirectoryEntry>): (r: seq<byte>)
    ensures |r| >= MinDirectorySize * |ds|
  {
    if |ds| == 0 then [] else EncodeDirectories(ds[..|ds| - 1]) + EncodeDirectory(ds[|ds| - 1])
  }

  /** Paths hold no zero byte, so each ends at its terminator. */
  predicate Delimitable(ds: seq<DirectoryEntry>) {
    forall i :: 0 <= i < |ds| ==> 0 !in ds[i].path
  }

  predicate Encodable(t: Tables) {
    |t.blocks| < 0x1_0000_0000 && |t.directories| < 0x1_0000_0000 && Delimitable(t.directories)
  }

  function EncodeTables(hash: seq<byte>, t: Tables): (r: seq<byte>)
    requires |hash| == HashSize && Encodable(t)
  {
    hash + ToBE(|t.blocks|, 4) + EncodeBlocks(t.blocks) + ToBE(|t.directories|, 4) + EncodeDirectories(t.directories)
  }

  /** Parsing the encoding of any tables, followed by any padding, gives back those tables. */
  lemma TablesRoundTrip(hash: seq<byte>, t: Tables, pad: seq<byte>)
    requires |hash| == HashSize && Encodable(t)
    ensures ParseTables(EncodeTables(hash, t) + pad) == Ok(t)
  {
    var s := EncodeTables(hash, t) + pad;
    TablesLayout(hash, t, pad);
    BlockTableAt(s, t.blocks);
    DirectoryTableAt(s, BlocksEnd(|t.blocks|), |t.blocks|, t.directories);
  }

  /** Where the block records end and the directory count begins. */
  function BlocksEnd(blockCount: nat): nat {
    BlocksStart + BlockSize * blockCount
  }

  /** Where each part of the encoding lies in the buffer. */
  lemma TablesLayout(hash: seq<byte>, t: Tables, pad: seq<byte>)
    requires |hash| == HashSize && Encodable(t)
    ensures var s := EncodeTables(hash, t) + pad;
      && Occurs(s, HashSize, ToBE(|t.blocks|, 4))
      && Occurs(s, BlocksStart, EncodeBlocks(t.blocks))
      && Occurs(s, BlocksEnd(|t.blocks|), ToBE(|t.directories|, 4))
      && Occurs(s, BlocksEnd(|t.blocks|) + 4, EncodeDirectories(t.directories))
  {
    OccursPrefix(EncodeTables(hash, t), pad);
    PartsAt(EncodeTables(hash, t) + pad, hash, ToBE(|t.blocks|, 4), EncodeBlocks(t.blocks),
      ToBE(|t.directories|, 4), EncodeDirectories(t.directories));
  }

  /** The parts of an encoding that starts the buffer, each at its own offset. */
  lemma PartsAt(s: seq<byte>, hash: seq<byte>, blockCount: seq<byte>, blocks: seq<byte>, directoryCount: seq<byte>, directories: seq<byte>)
    requires |hash| == HashSize && |blockCount| == 4 && |directoryCount| == 4
    requires Occurs(s, 0, hash + blockCount + blocks + directoryCount + directories)
    ensures Occurs(s, HashSize, blockCount) && Occurs(s, BlocksStart, blocks)
    ensures Occurs(s, BlocksStart + |blocks|, directoryCount) && Occurs(s, BlocksStart + |blocks| + 4, directories)
  {
    OccursParts(s, 0, hash, blockCount, blocks, directoryCount, directories);
  }

  lemma OccursPrefix(e: seq<byte>, pad: seq<byte>)
    ensures Occurs(e + pad, 0, e)
  {
    assert (e + pad)[0..|e|] == e;
    OccursIff(e + pad, 0, e);
  }

  /** An occurrence of five consecutive parts is an occurrence of each part. */
  lemma OccursParts(s: seq<byte>, pos: nat, a: seq<byte>, b: seq<byte>, c: seq<byte>, d: seq<byte>, e: seq<byte>)
    requires Occurs(s, pos, a + b + c + d + e)
    ensures Occurs(s, pos, a) && Occurs(s, pos + |a|, b) && Occurs(s, pos + |a| + |b|, c)
    ensures Occurs(s, pos + |a| + |b| + |c|, d) && Occurs(s, pos + |a| + |b| + |c| + |d|, e)
  {
    OccursSplit(s, pos, a + b + c + d, e);
    OccursSplit(s, pos, a + b + c, d);
    OccursSplit(s, pos, a + b, c);
    OccursSplit(s, pos, a, b);
  }

  /** The block stage reads back the encoded count and block records. */
  lemma BlockTableAt(s: seq<byte>, blocks: seq<Block>)
    requires |blocks| < 0x1_0000_0000
    requires Occurs(s, HashSize, ToBE(|blocks|, 4)) && Occurs(s, BlocksStart, EncodeBlocks(blocks))
    ensures BlockTable(s) == Ok(Read(blocks, BlocksEnd(|blocks|)))
  {
    FieldAt(s, HashSize, |blocks|, 4);
    ReadBlocksAt(s, BlocksStart, blocks);
  }

  /** The directory stage reads back the encoded count and directory records
      when the block records before them passed the block guard. */
  lemma DirectoryTableAt(s: seq<byte>, pos: nat, blockCount: nat, directories: seq<DirectoryEntry>)
    requires blockCount < 0x1_0000_0000 && BlocksEnd(blockCount) <= pos
    requires |directories| < 0x1_0000_0000 && Delimitable(directories)
    requires Occurs(s, pos, ToBE(|directories|, 4)) && Occurs(s, pos + 4, EncodeDirectories(directories))
    ensures DirectoryTable(s, pos, blockCount) == Ok(Read(directories, RunEnd(pos + 4, directories)))
  {
    FieldAt(s, pos, |directories|, 4);
    ReadDirectoriesAt(s, pos + 4, directories);
    DirectoryGuardAt(s, pos, blockCount, directories);
    DirectoryTableOutcome(s, pos, blockCount);
  }

  /** Directory records that read back leave room for the directory guard. */
  lemma DirectoryGuardAt(s: seq<byte>, pos: nat, blockCount: nat, directories: seq<DirectoryEntry>)
    requires blockCount < 0x1_0000_0000 && BlocksEnd(blockCount) <= pos && |directories| < 0x1_0000_0000
    requires ReadDirectories(s, pos + 4, |directories|) == Ok(Read(directories, RunEnd(pos + 4, directories)))
    ensures DirectoryTableFits(|directories|, blockCount, |s|)
  {
  }

  /** `e` occurs in `s` at `pos`.  Stated byte by byte from the end, so that the
      solver unfolds it only as far as a proof asks. */
  predicate Occurs(s: seq<byte>, pos: nat, e: seq<byte>)
    decreases |e|
  {
    if |e| == 0 then pos <= |s|
    else pos + |e| <= |s| && s[pos + |e| - 1] == e[|e| - 1] && Occurs(s, pos, e[..|e| - 1])
  }

  lemma {:induction false} OccursIff(s: seq<byte>, pos: nat, e: seq<byte>)
    decreases |e|
    ensures Occurs(s, pos, e) <==> pos + |e| <= |s| && s[pos..pos + |e|] == e
  {
    if |e| > 0 {
      OccursIff(s, pos, e[..|e| - 1]);
      if pos + |e| <= |s| {
        assert s[pos..pos + |e|] == s[pos..pos + |e| - 1] + [s[pos + |e| - 1]];
        assert e == e[..|e| - 1] + [e[|e| - 1]];
      }
    }
  }

  /** An occurrence of a concatenation is an occurrence of each part. */
  lemma OccursSplit(s: seq<byte>, pos: nat, a: seq<byte>, b: seq<byte>)
    requires Occurs(s, pos, a + b)
    ensures Occurs(s, pos, a) && Occurs(s, pos + |a|, b)
  {
    OccursIff(s, pos, a + b);
    OccursIff(s, pos, a);
    OccursIff(s, pos + |a|, b);
    assert s[pos..pos + |a|] == (a + b)[..|a|];
    assert s[pos + |a|..pos + |a| + |b|] == (a + b)[|a|..];
  }

  /** An occurrence of the encoding of a value reads back as that value. */
  lemma FieldAt(s: seq<byte>, pos: nat, v: nat, width: nat)
    requires v < Pow256(width) && Occurs(s, pos, ToBE(v, width))
    ensures pos + width <= |s| && BE(s, pos, width) == v
  {
    OccursIff(s, pos, ToBE(v, width));
    BESameBytes(s, pos, ToBE(v, width), 0, width);
    BEOfToBE(v, width);
  }

  lemma ReadBlockAt(s: seq<byte>, pos: nat, b: Block)
    requires Occurs(s, pos, EncodeBlock(b))
    ensures ReadBlock(s, pos) == Some(Read(b, pos + BlockSize))
  {
    var u := ToBE(b.uncompressedSize, 4);
    var c := ToBE(b.compressedSize, 4);
    OccursSplit(s, pos, u + c, ToBE(b.flags, 2));
    OccursSplit(s, pos, u, c);
    FieldAt(s, pos, b.uncompressedSize, 4);
    FieldAt(s, pos + 4, b.compressedSize, 4);
    FieldAt(s, pos + 8, b.flags, 2);
  }

  lemma {:induction false} ReadBlocksAt(s: seq<byte>, pos: nat, bs: seq<Block>)
    requires Occurs(s, pos, EncodeBlocks(bs))
    ensures ReadBlocks(s, pos, |bs|) == Some(Read(bs, pos + BlockSize * |bs|))
  {
    if |bs| == 0 {
      OccursIff(s, pos, EncodeBlocks(bs));
    } else {
      var init := bs[..|bs| - 1];
      var last := bs[|bs| - 1];
      OccursSplit(s, pos, EncodeBlocks(init), EncodeBlock(last));
      ReadBlocksAt(s, pos, init);
      ReadBlockAt(s, pos + BlockSize * |init|, last);
      assert init + [last] == bs;
    }
  }

  lemma ReadDirectoryAt(s: seq<byte>, pos: nat, d: DirectoryEntry)
    requires 0 !in d.path && Occurs(s, pos, EncodeDirectory(d))
    ensures ReadDirectory(s, pos) == Ok(Read(d, pos + |EncodeDirectory(d)|))
  {
    DirectoryPartsAt(s, pos, d);
    PathAt(s, pos + 20, d.path);
  }

  /** The fields of an encoded directory record, where the encoding puts them. */
  lemma DirectoryPartsAt(s: seq<byte>, pos: nat, d: DirectoryEntry)
    requires Occurs(s, pos, EncodeDirectory(d))
    ensures pos + 20 <= |s|
    ensures BE(s, pos, 8) == d.offset && BE(s, pos + 8, 8) == d.size && BE(s, pos + 16, 4) == d.flags
    ensures Occurs(s, pos + 20, d.path) && Occurs(s, pos + 20 + |d.path|, [0])
  {
    RecordPartsAt(s, pos, ToBE(d.offset, 8), ToBE(d.size, 8), ToBE(d.flags, 4), d.path);
    FieldAt(s, pos, d.offset, 8);
    FieldAt(s, pos + 8, d.size, 8);
    FieldAt(s, pos + 16, d.flags, 4);
  }

  lemma RecordPartsAt(s: seq<byte>, pos: nat, offset: seq<byte>, size: seq<byte>, flags: seq<byte>, path: seq<byte>)
    requires |offset| == 8 && |size| == 8 && |flags| == 4
    requires Occurs(s, pos, offset + size + flags + path + [0])
    ensures Occurs(s, pos, offset) && Occurs(s, pos + 8, size) && Occurs(s, pos + 16, flags)
    ensures Occurs(s, pos + 20, path) && Occurs(s, pos + 20 + |path|, [0])
  {
    OccursParts(s, pos, offset, size, flags, path, [0]);
  }

  /** An occurrence of a zero-free path and its terminator reads back as that path. */
  lemma PathAt(s: seq<byte>, pos: nat, path: seq<byte>)
    requires 0 !in path && Occurs(s, pos, path) && Occurs(s, pos + |path|, [0])
    ensures ReadCString(s, pos) == Some(Read(path, pos + |path| + 1))
  {
    OccursIff(s, pos, path);
    OccursIff(s, pos + |path|, [0]);
    var z := pos + |path|;
    assert s[z] == s[z..z + 1][0];
    forall k | pos <= k < z
      ensures s[k] != 0
    {
      assert s[k] == path[k - pos];
    }
    FindZeroAt(s, pos, z);
  }

  /** Where the encoding of the records `ds` placed at `pos` ends. */
  function RunEnd(pos: nat, ds: seq<DirectoryEntry>): nat {
    pos + |EncodeDirectories(ds)|
  }

  lemma {:induction false} ReadDirectoriesAt(s: seq<byte>, pos: nat, ds: seq<DirectoryEntry>)
    requires Delimitable(ds) && Occurs(s, pos, EncodeDirectories(ds))
    ensures ReadDirectories(s, pos, |ds|) == Ok(Read(ds, RunEnd(pos, ds)))
    decreases |ds|, 1
  {
    if |ds| == 0 {
      OccursIff(s, pos, EncodeDirectories(ds));
    } else {
      SplitLast(s, pos, ds);
      AppendAt(s, pos, ds[..|ds| - 1], ds[|ds| - 1]);
    }
  }

  /** The last record of a run and the run before it, each where the encoding puts it. */
  lemma SplitLast(s: seq<byte>, pos: nat, ds: seq<DirectoryEntry>)
    requires |ds| > 0 && Delimitable(ds) && Occurs(s, pos, EncodeDirectories(ds))
    ensures Delimitable(ds[..|ds| - 1]) && 0 !in ds[|ds| - 1].path
    ensures Occurs(s, pos, EncodeDirectories(ds[..|ds| - 1]))
    ensures Occurs(s, RunEnd(pos, ds[..|ds| - 1]), EncodeDirectory(ds[|ds| - 1]))
    ensures RunEnd(pos, ds) == RunEnd(pos, ds[..|ds| - 1]) + |EncodeDirectory(ds[|ds| - 1])|
    ensures ds[..|ds| - 1] + [ds[|ds| - 1]] == ds
  {
    var init := ds[..|ds| - 1];
    assert Delimitable(init) by {
      forall i | 0 <= i < |init|
        ensures 0 !in init[i].path
      {
        assert init[i] == ds[i];
      }
    }
    OccursSplit(s, pos, EncodeDirectories(init), EncodeDirectory(ds[|ds| - 1]));
  }

  /** A run of records followed by one more record reads back as the longer run. */
  lemma {:induction false} AppendAt(s: seq<byte>, pos: nat, init: seq<DirectoryEntry>, last: DirectoryEntry)
    requires Delimitable(init) && Occurs(s, pos, EncodeDirectories(init))
    requires 0 !in last.path && Occurs(s, RunEnd(pos, init), EncodeDirectory(last))
    ensures ReadDirectories(s, pos, |init| + 1) ==
      Ok(Read(init + [last], RunEnd(pos, init) + |EncodeDirectory(last)|))
    decreases |init| + 1, 0
  {
    ReadDirectoriesAt(s, pos, init);
    DirectoryAppendAt(s, pos, |init|, init, RunEnd(pos, init), last, RunEnd(pos, init) + |EncodeDirectory(last)|);
  }

  /** One more record read after a run of records extends the run. */
  lemma DirectoryAppendAt(s: seq<byte>, pos: nat, n: nat, init: seq<DirectoryEntry>, p: nat, last: DirectoryEntry, q: nat)
    requires ReadDirectories(s, pos, n) == Ok(Read(init, p))
    requires 0 !in last.path && Occurs(s, p, EncodeDirectory(last)) && q == p + |EncodeDirectory(last)|
    ensures ReadDirectories(s, pos, n + 1) == Ok(Read(init + [last], q))
  {
    assert ReadDirectory(s, p) == Ok(Read(last, q)) by {
      ReadDirectoryAt(s, p, last);
    }
    DirectoryStep(s, pos, n, init, p, last, q);
  }

  // ---------------------------------------------------------------------------
  // The reader-based parser (lines 165-200)

  method ReadBlockFrom(reader: Reader) returns (r: Option<Block>)
    requires reader.Valid()
    modifies reader
    ensures reader.Valid()
    ensures (if r.Some? then Some(Read(r.value, reader.pos)) else None) == ReadBlock(reader.buf[..], old(reader.pos))
  {
    var ok1, uncompressed := reader.TryReadUInt32();
    var ok2, compressed := reader.TryReadUInt32();
    var ok3, flags := reader.TryReadUInt16();
    if !ok1 || !ok2 || !ok3 {
      return None;
    }
    r := Some(Block(uncompressed, compressed, flags));
  }

  method ReadDirectoryFrom(reader: Reader) returns (r: Result<DirectoryEntry>)
    requires reader.Valid()
    modifies reader
    ensures reader.Valid()
    ensures At(r, reader.pos) == ReadDirectory(reader.buf[..], old(reader.pos))
  {
    var ok, offset := reader.TryReadUInt64();
    if !ok {
      return Err(InsufficientData);
    }
    var size: u64, flags: u32, path: seq<byte>;
    ok, size := reader.TryReadUInt64();
    if !ok {
      return Err(InsufficientData);
    }
    ok, flags := reader.TryReadUInt32();
    if !ok {
      return Err(InsufficientData);
    }
    ok, path := reader.TryReadStringNullTerm();
    if !ok {
      return Err(MalformedString);
    }
    r := Ok(DirectoryEntry(offset, size, flags, path));
  }

  method ReadBlockTable(reader: Reader) returns (r: Result<seq<Block>>)
    requires reader.Valid() && reader.pos == 0
    modifies reader
    ensures reader.Valid()
    ensures At(r, reader.pos) == BlockTable(reader.buf[..])
  {
    var ok, hash := reader.TryReadBytes(HashSize);
    if !ok {
      return Err(MetadataUnreadable);
    }
    var blockCount: u32;
    ok, blockCount := reader.TryReadUInt32();
    if !ok || !BlockTableFits(blockCount, reader.buf.Length) {
      return Err(BlockTableTooLarge);
    }
    var blocks: seq<Block> := [];
    var i: nat := 0;
    while i < blockCount
      invariant reader.Valid()
      invariant i <= blockCount
      invariant ReadBlocks(reader.buf[..], BlocksStart, i) == Some(Read(blocks, reader.pos))
    {
      var block := ReadBlockFrom(reader);
      if block.None? {
        return Err(InsufficientData);
      }
      blocks := blocks + [block.value];
      i := i + 1;
    }
    r := Ok(blocks);
  }

  method ReadDirectoryTable(reader: Reader, blockCount: u32) returns (r: Result<seq<DirectoryEntry>>)
    requires reader.Valid()
    modifies reader
    ensures reader.Valid()
    ensures At(r, reader.pos) == DirectoryTable(reader.buf[..], old(reader.pos), blockCount)
  {
    var ok, directoryCount := reader.TryReadUInt32();
    if !ok || !DirectoryTableFits(directoryCount, blockCount, reader.buf.Length) {
      return Err(DirectoryTableTooLarge);
    }
    r := ReadDirectoryRecords(reader, directoryCount);
  }

  method ReadDirectoryRecords(reader: Reader, count: nat) returns (r: Result<seq<DirectoryEntry>>)
    requires reader.Valid()
    modifies reader
    ensures reader.Valid()
    ensures At(r, reader.pos) == ReadDirectories(reader.buf[..], old(reader.pos), count)
  {
    ghost var start := reader.pos;
    var directories: seq<DirectoryEntry> := [];
    var j: nat := 0;
    while j < count
      invariant reader.Valid()
      invariant j <= count
      invariant ReadDirectories(reader.buf[..], start, j) == Ok(Read(directories, reader.pos))
    {
      ghost var before := reader.pos;
      var entry := ReadDirectoryFrom(reader);
      if entry.Err? {
        DirectoryFailurePropagates(reader.buf[..], start, j, count, entry.error);
        return Err(entry.error);
      }
      DirectoryStep(reader.buf[..], start, j, directories, before, entry.value, reader.pos);
      directories := directories + [entry.value];
      j := j + 1;
    }
    r := Ok(directories);
  }

  /** Reads the tables through a cursor, filling the two lists in counted loops. */
  method ParseMetadata(buf: array<byte>) returns (r: Result<Tables>)
    ensures r == ParseTables(buf[..])
  {
    var reader := new Reader(buf);
    var blocks := ReadBlockTable(reader);
    if blocks.Err? {
      return Err(blocks.error);
    }
    var directories := ReadDirectoryTable(reader, |blocks.value|);
    if directories.Err? {
      return Err(directories.error);
    }
    r := Ok(Tables(blocks.value, directories.value));
  }

  // ---------------------------------------------------------------------------
  // The program as written: unchecked record reads and wrapping guards

  /** A fixed-width field read whose failure is ignored (lines 178-180, 193-195):
      a failed read yields zero and leaves the cursor where it was. */
  function FieldOrZero(s: seq<byte>, pos: nat, width: nat): (r: Read<nat>)
    ensures r.value < Pow256(width)
    ensures pos + width <= |s| ==> r == Read(BE(s, pos, width), pos + width)
    ensures pos + width > |s| ==> r == Read(0, pos)
  {
    if pos + width <= |s| then Read(BE(s, pos, width), pos + width) else Read(0, pos)
  }

  /** A block record read as the loop at lines 176-183 reads it: each field on its own. */
  function ReadBlockAsWritten(s: seq<byte>, pos: nat): (r: Read<Block>)
    ensures pos <= r.next <= pos + BlockSize
    ensures pos <= |s| ==> r.next <= |s|
    ensures ReadBlock(s, pos).Some? ==> ReadBlock(s, pos) == Some(r)
    ensures pos <= |s| < pos + BlockSize ==> |s| <= r.next + 1
  {
    var uncompressed := FieldOrZero(s, pos, 4);
    var compressed := FieldOrZero(s, uncompressed.next, 4);
    var flags := FieldOrZero(s, compressed.next, 2);
    Read(Block(uncompressed.value, compressed.value, flags.value), flags.next)
  }

  function ReadBlocksAsWritten(s: seq<byte>, pos: nat, n: nat): (r: Read<seq<Block>>)
    ensures |r.value| == n && pos <= r.next
    ensures pos <= |s| ==> r.next <= |s|
  {
    if n == 0 then Read([], pos)
    else
      var init := ReadBlocksAsWritten(s, pos, n - 1);
      var last := ReadBlockAsWritten(s, init.next);
      Read(init.value + [last.value], last.next)
  }

  /** Where the block records fit, the unchecked reads read what the checked ones do. */
  lemma {:induction false} BlocksAsWrittenAgree(s: seq<byte>, pos: nat, n: nat)
    requires pos + BlockSize * n <= |s|
    ensures ReadBlocks(s, pos, n) == Some(ReadBlocksAsWritten(s, pos, n))
  {
    if n > 0 {
      BlocksAsWrittenAgree(s, pos, n - 1);
    }
  }

  /** Where they do not fit, the unchecked reads stop less than one field short of
      the end, so the directory count that follows cannot be read. */
  lemma {:induction false} BlocksAsWrittenOverrun(s: seq<byte>, pos: nat, n: nat)
    requires pos <= |s| < pos + BlockSize * n
    ensures |s| <= ReadBlocksAsWritten(s, pos, n).next + 1
  {
    if pos + BlockSize * (n - 1) > |s| {
      BlocksAsWrittenOverrun(s, pos, n - 1);
    } else {
      BlocksAsWrittenAgree(s, pos, n - 1);
    }
  }

  /** The default the program's record holds for a path that could not be read. */
  const NoPath: seq<byte> := []

  /** A directory record read as the loop at lines 191-200 reads it: each field
      on its own, and a path with no terminator left empty. */
  function ReadDirectoryAsWritten(s: seq<byte>, pos: nat): (r: Read<DirectoryEntry>)
    ensures pos <= r.next
    ensures pos <= |s| ==> r.next <= |s|
    ensures ReadDirectory(s, pos).Ok? ==> ReadDirectory(s, pos) == Ok(r)
  {
    var offset := FieldOrZero(s, pos, 8);
    var size := FieldOrZero(s, offset.next, 8);
    var flags := FieldOrZero(s, size.next, 4);
    match ReadCString(s, flags.next)
    case None => Read(DirectoryEntry(offset.value, size.value, flags.value, NoPath), flags.next)
    case Some(path) => Read(DirectoryEntry(offset.value, size.value, flags.value, path.value), path.next)
  }

  function ReadDirectoriesAsWritten(s: seq<byte>, pos: nat, n: nat): (r: Read<seq<DirectoryEntry>>)
    ensures |r.value| == n && pos <= r.next
    ensures pos <= |s| ==> r.next <= |s|
  {
    if n == 0 then Read([], pos)
    else
      var init := ReadDirectoriesAsWritten(s, pos, n - 1);
      var last := ReadDirectoryAsWritten(s, init.next);
      Read(init.value + [last.value], last.next)
  }

  /** Where every directory record reads, the unchecked reads read the same records. */
  lemma {:induction false} DirectoriesAsWrittenAgree(s: seq<byte>, pos: nat, n: nat)
    requires ReadDirectories(s, pos, n).Ok?
    ensures ReadDirectories(s, pos, n) == Ok(ReadDirectoriesAsWritten(s, pos, n))
  {
    if n > 0 {
      DirectoriesAsWrittenAgree(s, pos, n - 1);
    }
  }

  /** Records read at or past the end of the buffer are all zero fields and an empty path. */
  lemma {:induction false} DirectoriesPastEnd(s: seq<byte>, pos: nat, n: nat, i: nat)
    requires |s| <= pos && i < n
    ensures ReadDirectoriesAsWritten(s, pos, n).next == pos
    ensures ReadDirectoriesAsWritten(s, pos, n).value[i] == DirectoryEntry(0, 0, 0, NoPath)
  {
    if i < n - 1 {
      DirectoriesPastEnd(s, pos, n - 1, i);
    } else if n > 1 {
      DirectoriesPastEnd(s, pos, n - 1, 0);
    }
  }

  /** The loops at lines 176 and 191 count with an `int` against a `uint`
      count: a count of 2^31 or more is never reached, and the record list
      fails to grow (an out-of-memory exception) before the counter wraps. */
  const CounterLimit: nat := 0x8000_0000

  /** Lines 165-183 as written: the block guard wraps modulo 2^32 and no block read is checked. */
  function BlockTableAsWritten(s: seq<byte>): (r: Result<Read<seq<Block>>>)
    ensures r.Ok? ==> |r.value.value| < CounterLimit
    ensures r == Err(RecordListOverflow) <==>
      BlocksStart <= |s| && BlockTableFitsAsWritten(BE(s, HashSize, 4), |s|) && BE(s, HashSize, 4) >= CounterLimit
  {
    var hash :- Expect(ReadBytes(s, 0, HashSize), MetadataUnreadable);
    var blockCount :- Expect(ReadU32(s, hash.next), BlockTableTooLarge);
    if !BlockTableFitsAsWritten(blockCount.value, |s|) then Err(BlockTableTooLarge)
    else if blockCount.value >= CounterLimit then Err(RecordListOverflow)
    else Ok(ReadBlocksAsWritten(s, blockCount.next, blockCount.value))
  }

  /** Lines 185-200 as written: the directory guard wraps modulo 2^32 and no directory read is checked. */
  function DirectoryTableAsWritten(s: seq<byte>, pos: nat, blockCount: nat): (r: Result<Read<seq<DirectoryEntry>>>)
    ensures r.Ok? ==> |r.value.value| < CounterLimit
    ensures r.Ok? ==> pos + 4 <= |s| && |r.value.value| == BE(s, pos, 4)
  {
    var directoryCount :- Expect(ReadU32(s, pos), DirectoryTableTooLarge);
    if blockCount >= 0x1_0000_0000 || !DirectoryTableFitsAsWritten(directoryCount.value, blockCount, |s|) then
      Err(DirectoryTableTooLarge)
    else if directoryCount.value >= CounterLimit then Err(RecordListOverflow)
    else Ok(ReadDirectoriesAsWritten(s, directoryCount.next, directoryCount.value))
  }

  /** Lines 165-200 as written. */
  function ParseTablesAsWritten(s: seq<byte>): (r: Result<Tables>)
    ensures r.Ok? ==> |r.value.blocks| < CounterLimit && |r.value.directories| < CounterLimit
  {
    var blocks :- BlockTableAsWritten(s);
    var directories :- DirectoryTableAsWritten(s, blocks.next, |blocks.value|);
    Ok(Tables(blocks.value, directories.value))
  }

  /** Below 2^32 the `uint` arithmetic of the guards does not wrap. */
  lemma GuardsAgreeWithoutOverflow(blockCount: u32, directoryCount: u32, size: int)
    requires size < 0x8000_0000
    ensures BlockTableFits(blockCount, size) ==> BlockTableFitsAsWritten(blockCount, size)
    ensures DirectoryTableFits(directoryCount, blockCount, size) ==> DirectoryTableFitsAsWritten(directoryCount, blockCount, size)
  {
  }

  /** On every buffer the corrected decoder accepts (its size is an `int`, so
      below 2^31), the program as written returns the same tables. */
  lemma TablesAgreeWhenValid(s: seq<byte>)
    requires |s| < 0x8000_0000 && ParseTables(s).Ok?
    ensures ParseTablesAsWritten(s) == ParseTables(s)
  {
    BlockTableAgrees(s);
    var blocks := BlockTable(s).value;
    DirectoryTableAgrees(s, blocks.next, |blocks.value|);
  }

  /** When the block guard cannot wrap, the program as written reads the block
      table exactly as the corrected decoder does. */
  lemma BlockNoOverflow(s: seq<byte>)
    requires |s| < 0x8000_0000
    requires BlocksStart <= |s| ==> BE(s, HashSize, 4) * 10 + 20 < 0x1_0000_0000
    ensures BlockTableAsWritten(s) == BlockTable(s)
  {
    if |s| < BlocksStart {
      ShortBlockTable(s);
    } else if BlockTableFits(BE(s, HashSize, 4), |s|) {
      BlockTableOutcome(s);
      BlockTableAgrees(s);
    } else {
      BlockGuardRejects(s);
    }
  }

  /** Without room for the hash and the count, both decoders fail alike. */
  lemma ShortBlockTable(s: seq<byte>)
    requires |s| < BlocksStart
    ensures BlockTableAsWritten(s) == BlockTable(s)
  {
  }

  /** A count the unwrapped guard rejects, and that cannot wrap, fails both decoders. */
  lemma BlockGuardRejects(s: seq<byte>)
    requires BlocksStart <= |s|
    requires BE(s, HashSize, 4) * 10 + 20 < 0x1_0000_0000
    requires !BlockTableFits(BE(s, HashSize, 4), |s|)
    ensures BlockTableAsWritten(s) == BlockTable(s) == Err(BlockTableTooLarge)
  {
    assert !BlockTableFitsAsWritten(BE(s, HashSize, 4), |s|);
  }

  /** When the directory guard cannot wrap, a directory table the program
      accepts fits the buffer by the unwrapped guard. */
  lemma DirectoryNoOverflow(s: seq<byte>, pos: nat, blockCount: nat)
    requires pos + 4 <= |s| && blockCount < 0x1_0000_0000
    requires BE(s, pos, 4) * 10 + blockCount * 10 + 20 < 0x1_0000_0000
    ensures DirectoryTableAsWritten(s, pos, blockCount).Ok? ==>
      DirectoryTableFits(|DirectoryTableAsWritten(s, pos, blockCount).value.value|, blockCount, |s|)
  {
  }

  lemma BlockTableAgrees(s: seq<byte>)
    requires |s| < 0x8000_0000 && BlockTable(s).Ok?
    ensures BlockTableAsWritten(s) == BlockTable(s)
  {
    BlockTableOutcome(s);
    var blockCount := BE(s, HashSize, 4);
    BlocksAsWrittenAgree(s, BlocksStart, blockCount);
    GuardsAgreeWithoutOverflow(blockCount, 0, |s|);
  }

  lemma DirectoryTableAgrees(s: seq<byte>, pos: nat, blockCount: nat)
    requires |s| < 0x8000_0000 && DirectoryTable(s, pos, blockCount).Ok?
    ensures DirectoryTableAsWritten(s, pos, blockCount) == DirectoryTable(s, pos, blockCount)
  {
    DirectoryTableOutcome(s, pos, blockCount);
    var directoryCount := BE(s, pos, 4);
    GuardsAgreeWithoutOverflow(blockCount, directoryCount, |s|);
    DirectoriesAsWrittenAgree(s, pos + 4, directoryCount);
  }

  /** Line 170: when the block guard passes only because it wrapped, the
      program reads past the end of the buffer for every counted block and then
      fails on the directory count, where the corrected guard rejects the
      block count itself. */
  lemma BlockGuardWrapOutcome(s: seq<byte>)
    requires BlocksStart <= |s|
    requires BlockTableFitsAsWritten(BE(s, HashSize, 4), |s|) && !BlockTableFits(BE(s, HashSize, 4), |s|)
    requires BE(s, HashSize, 4) < CounterLimit
    ensures ParseTables(s) == Err(BlockTableTooLarge)
    ensures ParseTablesAsWritten(s) == Err(DirectoryTableTooLarge)
  {
    BlockTableOutcome(s);
    BlocksAsWrittenOverrun(s, BlocksStart, BE(s, HashSize, 4));
  }

  /** A 24-byte buffer (the least uncompressed size the header accepts) whose
      block count is 429496728 (0x19999998): 10 * 429496728 + 20 wraps to 4. */
  lemma BlockCountWraps()
    ensures var s: seq<byte> := [0, 0, 0, 0, 0, 0, 0, 0, 0, 0, 0, 0, 0, 0, 0, 0,
      0x19, 0x99, 0x99, 0x98, 0, 0, 0, 0];
      && ParseTables(s) == Err(BlockTableTooLarge)
      && ParseTablesAsWritten(s) == Err(DirectoryTableTooLarge)
  {
    var s: seq<byte> := [0, 0, 0, 0, 0, 0, 0, 0, 0, 0, 0, 0, 0, 0, 0, 0,
      0x19, 0x99, 0x99, 0x98, 0, 0, 0, 0];
    assert BE(s, HashSize, 4) == 429496728;
    BlockGuardWrapOutcome(s);
  }

  /** Line 185: when the directory guard passes only because it wrapped, the
      program accepts a directory table the buffer cannot hold, where the
      corrected guard rejects it. */
  lemma DirectoryGuardWrapOutcome(s: seq<byte>)
    requires |s| < 0x8000_0000 && BlockTable(s).Ok?
    requires var pos := BlockTable(s).value.next;
      && pos + 4 <= |s|
      && DirectoryTableFitsAsWritten(BE(s, pos, 4), |BlockTable(s).value.value|, |s|)
      && !DirectoryTableFits(BE(s, pos, 4), |BlockTable(s).value.value|, |s|)
      && BE(s, pos, 4) < CounterLimit
    ensures ParseTables(s) == Err(DirectoryTableTooLarge)
    ensures ParseTablesAsWritten(s).Ok?
    ensures var t := ParseTablesAsWritten(s).value;
      && t.blocks == BlockTable(s).value.value
      && |t.directories| == BE(s, BlockTable(s).value.next, 4)
      && !DirectoryTableFits(|t.directories|, |t.blocks|, |s|)
  {
    BlockTableOutcome(s);
    var blockCount := BE(s, HashSize, 4);
    BlocksAsWrittenAgree(s, BlocksStart, blockCount);
    DirectoryTableOutcome(s, BlocksEnd(blockCount), blockCount);
    GuardsAgreeWithoutOverflow(blockCount, 0, |s|);
  }

  /** A 24-byte buffer with no blocks and 429496728 directories: the guard
      wraps to 4 and the program accepts 429496728 records of zero fields and
      empty paths. */
  lemma DirectoryCountWraps()
    ensures var s: seq<byte> := [0, 0, 0, 0, 0, 0, 0, 0, 0, 0, 0, 0, 0, 0, 0, 0,
      0, 0, 0, 0, 0x19, 0x99, 0x99, 0x98];
      && ParseTables(s) == Err(DirectoryTableTooLarge)
      && ParseTablesAsWritten(s).Ok?
      && |ParseTablesAsWritten(s).value.directories| == 429496728
      && ParseTablesAsWritten(s).value.directories[0] == DirectoryEntry(0, 0, 0, NoPath)
  {
    var s: seq<byte> := [0, 0, 0, 0, 0, 0, 0, 0, 0, 0, 0, 0, 0, 0, 0, 0,
      0, 0, 0, 0, 0x19, 0x99, 0x99, 0x98];
    assert BE(s, HashSize, 4) == 0;
    assert BE(s, BlocksStart, 4) == 429496728;
    DirectoryGuardWrapOutcome(s);
    DirectoriesPastEnd(s, 24, 429496728, 0);
  }

  /** Lines 193-197: a directory record that runs past the end of the buffer.
      The guard passes (one directory counts ten bytes, and the buffer has
      thirty), the two u64 reads fail, the u32 read takes four of the six bytes
      left and the path finds no terminator: the program records zero fields,
      flags 0x01010101 and an empty path, where the corrected decoder fails. */
  lemma ShortDirectoryRecord()
    ensures var s: seq<byte> := [0, 0, 0, 0, 0, 0, 0, 0, 0, 0, 0, 0, 0, 0, 0, 0,
      0, 0, 0, 0, 0, 0, 0, 1, 1, 1, 1, 1, 1, 1];
      && ParseTables(s) == Err(InsufficientData)
      && ParseTablesAsWritten(s) == Ok(Tables([], [DirectoryEntry(0, 0, 0x0101_0101, NoPath)]))
  {
    var s: seq<byte> := [0, 0, 0, 0, 0, 0, 0, 0, 0, 0, 0, 0, 0, 0, 0, 0,
      0, 0, 0, 0, 0, 0, 0, 1, 1, 1, 1, 1, 1, 1];
    assert BE(s, HashSize, 4) == 0;
    assert BE(s, BlocksStart, 4) == 1;
    assert BE(s, 24, 4) == 0x0101_0101;
    assert ReadCString(s, 28).None?;
    assert ReadDirectoryAsWritten(s, 24) == Read(DirectoryEntry(0, 0, 0x0101_0101, NoPath), 28);
    assert ReadDirectoriesAsWritten(s, 24, 1).value == [DirectoryEntry(0, 0, 0x0101_0101, NoPath)];
    assert ReadU32(s, HashSize) == Some(Read(0, BlocksStart));
    assert ReadU32(s, BlocksStart) == Some(Read(1, 24));
    assert DirectoryTableFitsAsWritten(1, 0, |s|);
  }
}
