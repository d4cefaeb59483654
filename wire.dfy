/** Bytes, big-endian integers and the bounds-checked primitive reads of a
    big-endian byte reader.  Every read either yields its value and advances
    the cursor by exactly the width of the field, or fails and leaves the
    cursor where it was. */
module Wire {

  type byte = b: int | 0 <= b < 0x100
  type u16 = x: int | 0 <= x < 0x1_0000
  type u32 = x: int | 0 <= x < 0x1_0000_0000
  type u64 = x: int | 0 <= x < 0x1_0000_0000_0000_0000
  type i32 = x: int | -0x8000_0000 <= x < 0x8000_0000

  datatype Option<T> = None | Some(value: T) {
    predicate IsFailure() { None? }
    function PropagateFailure<U>(): Option<U> requires None? { None }
    function Extract(): T requires Some? { value }
  }

  /** The failures a decode can end in.  Most stand for an exception the program
      throws.  `InsufficientData` and `MalformedString` are record reads the
      program does not check, on which the corrected decoder fails;
      `DecompressionError` stands for a failure inside the decompressor, and
      `RecordListOverflow` for a record count the program's lists cannot reach. */
  datatype Error =
    | NotABundle              // wrong or unreadable magic string
    | CorruptHeader           // a short header read or a size field out of range
    | MetadataOutOfBounds     // end-of-file layout whose offset lies outside the file
    | UnsupportedLayout       // end-of-file layout, never implemented
    | UnsupportedCodec(code: nat)
    | DecompressionError
    | MetadataUnreadable      // the 16-byte hash is missing
    | BlockTableTooLarge
    | DirectoryTableTooLarge
    | InsufficientData        // a table record runs past the end of the metadata
    | MalformedString         // a path with no terminating zero byte
    | EmptyBundle             // no directory entry to take a name from
    | RecordListOverflow      // a record count of 2^31 or more

  datatype Result<T> = Ok(value: T) | Err(error: Error) {
    predicate IsFailure() { Err? }
    function PropagateFailure<U>(): Result<U> requires Err? { Err(error) }
    function Extract(): T requires Ok? { value }
  }

  /** Turns a failed read into the given error. */
  function Expect<T>(o: Option<T>, e: Error): Result<T> {
    match o
    case Some(v) => Ok(v)
    case None => Err(e)
  }

  /** A value decoded at some position, with the position just past it. */
  datatype Read<T> = Read(value: T, next: nat)

  /** A stage's outcome paired with the cursor it left. */
  function At<T>(r: Result<T>, pos: nat): Result<Read<T>> {
    match r
    case Ok(v) => Ok(Read(v, pos))
    case Err(e) => Err(e)
  }

  function Pow256(n: nat): (r: nat)
    ensures r >= 1
  {
    if n == 0 then 1 else 256 * Pow256(n - 1)
  }

  /** The unsigned big-endian value of the `width` bytes of `s` at `pos`. */
  function BE(s: seq<byte>, pos: nat, width: nat): (r: nat)
    requires pos + width <= |s|
    ensures r < Pow256(width)
  {
    if width == 0 then 0 else BE(s, pos, width - 1) * 256 + s[pos + width - 1]
  }

  /** The value depends only on the bytes in the window. */
  lemma {:induction false} BESameBytes(s: seq<byte>, pos: nat, t: seq<byte>, off: nat, width: nat)
    requires pos + width <= |s| && off + width <= |t|
    requires s[pos..pos + width] == t[off..off + width]
    ensures BE(s, pos, width) == BE(t, off, width)
  {
    if width > 0 {
      assert s[pos..pos + width - 1] == s[pos..pos + width][..width - 1];
      assert t[off..off + width - 1] == t[off..off + width][..width - 1];
      assert s[pos + width - 1] == s[pos..pos + width][width - 1];
      assert t[off + width - 1] == t[off..off + width][width - 1];
      BESameBytes(s, pos, t, off, width - 1);
    }
  }

  /** The `width`-byte big-endian encoding of `v`; decoding it gives `v` back. */
  function ToBE(v: nat, width: nat): (r: seq<byte>)
    requires v < Pow256(width)
    ensures |r| == width
  {
    if width == 0 then [] else ToBE(v / 256, width - 1) + [v % 256]
  }

  /** Encoding a value and reading the bytes back gives the value. */
  lemma {:induction false} BEOfToBE(v: nat, width: nat)
    requires v < Pow256(width)
    ensures BE(ToBE(v, width), 0, width) == v
  {
    if width > 0 {
      BEOfToBE(v / 256, width - 1);
      BESameBytes(ToBE(v, width), 0, ToBE(v / 256, width - 1), 0, width - 1);
    }
  }

  /** Encoding what was decoded gives the same bytes: big-endian decoding is injective. */
  lemma {:induction false} ToBEOfBE(s: seq<byte>)
    ensures ToBE(BE(s, 0, |s|), |s|) == s
  {
    if |s| > 0 {
      var n := |s| - 1;
      ToBEOfBE(s[..n]);
      BESameBytes(s, 0, s[..n], 0, n);
      assert BE(s, 0, |s|) / 256 == BE(s, 0, n);
      assert BE(s, 0, |s|) % 256 == s[n];
      assert s == s[..n] + [s[n]];
    }
  }

  /** Two's-complement reading of a 32-bit pattern, as an `int` read does. */
  function ToInt32(u: u32): (r: i32)
    ensures r >= 0 <==> u < 0x8000_0000
  {
    if u < 0x8000_0000 then u else u - 0x1_0000_0000
  }

  function FromInt32(x: i32): (u: u32)
    ensures ToInt32(u) == x
  {
    if x >= 0 then x else x + 0x1_0000_0000
  }

  lemma FromInt32OfToInt32(u: u32)
    ensures FromInt32(ToInt32(u)) == u
  {
  }

  /** The unchecked `(long)` cast of an unsigned 64-bit value. */
  function ToInt64(u: u64): (r: int)
    ensures -0x8000_0000_0000_0000 <= r < 0x8000_0000_0000_0000
    ensures r == u || r == u - 0x1_0000_0000_0000_0000
  {
    if u < 0x8000_0000_0000_0000 then u else u - 0x1_0000_0000_0000_0000
  }

  /** Unchecked 64-bit signed arithmetic: the value modulo 2^64, in the signed range. */
  function Wrap64(x: int): (r: int)
    ensures -0x8000_0000_0000_0000 <= r < 0x8000_0000_0000_0000
    ensures (r - x) % 0x1_0000_0000_0000_0000 == 0
  {
    (x + 0x8000_0000_0000_0000) % 0x1_0000_0000_0000_0000 - 0x8000_0000_0000_0000
  }

  // ---------------------------------------------------------------------------
  // Primitive reads, as functions of the whole buffer and a cursor

  /** `width` bytes at `pos` as an unsigned big-endian number. */
  function ReadUInt(s: seq<byte>, pos: nat, width: nat): (r: Option<Read<nat>>)
    ensures r.Some? <==> pos + width <= |s|
    ensures r.Some? ==> r.value.next == pos + width && r.value.value < Pow256(width)
  {
    if pos + width <= |s| then Some(Read(BE(s, pos, width), pos + width)) else None
  }

  /** A `u16` field: the 2 big-endian bytes at the cursor, when they remain. */
  function ReadU16(s: seq<byte>, pos: nat): (r: Option<Read<u16>>)
    ensures r.Some? <==> pos + 2 <= |s|
    ensures r.Some? ==> r.value.next == pos + 2 && r.value.value == BE(s, pos, 2)
  {
    match ReadUInt(s, pos, 2)
    case None => None
    case Some(r) => Some(Read(r.value as u16, r.next))
  }

  /** A `u32` field: the 4 big-endian bytes at the cursor, when they remain. */
  function ReadU32(s: seq<byte>, pos: nat): (r: Option<Read<u32>>)
    ensures r.Some? <==> pos + 4 <= |s|
    ensures r.Some? ==> r.value.next == pos + 4 && r.value.value == BE(s, pos, 4)
  {
    match ReadUInt(s, pos, 4)
    case None => None
    case Some(r) => Some(Read(r.value as u32, r.next))
  }

  /** A `u64` field: the 8 big-endian bytes at the cursor, when they remain. */
  function ReadU64(s: seq<byte>, pos: nat): (r: Option<Read<u64>>)
    ensures r.Some? <==> pos + 8 <= |s|
    ensures r.Some? ==> r.value.next == pos + 8 && r.value.value == BE(s, pos, 8)
  {
    match ReadUInt(s, pos, 8)
    case None => None
    case Some(r) => Some(Read(r.value as u64, r.next))
  }

  /** An `int` field: the two's-complement value of the 4 bytes at the cursor. */
  function ReadI32(s: seq<byte>, pos: nat): (r: Option<Read<i32>>)
    ensures r.Some? <==> pos + 4 <= |s|
    ensures r.Some? ==> r.value.next == pos + 4 && r.value.value == ToInt32(BE(s, pos, 4))
  {
    match ReadU32(s, pos)
    case None => None
    case Some(r) => Some(Read(ToInt32(r.value), r.next))
  }

  /** A run of `n` bytes that are skipped (the 128-bit hash). */
  function ReadBytes(s: seq<byte>, pos: nat, n: nat): (r: Option<Read<seq<byte>>>)
    ensures r.Some? <==> pos + n <= |s|
    ensures r.Some? ==> r.value.next == pos + n && |r.value.value| == n
  {
    if pos + n <= |s| then Some(Read(s[pos..pos + n], pos + n)) else None
  }

  /** Index of the first zero byte at or after `pos`, if there is one before the end. */
  function FindZero(s: seq<byte>, pos: nat): (r: Option<nat>)
    decreases |s| - pos
    ensures r.Some? ==> pos <= r.value < |s|
  {
    if pos >= |s| then None
    else if s[pos] == 0 then Some(pos)
    else FindZero(s, pos + 1)
  }

  /** The zero found is the first one, and none is found only when there is none. */
  lemma {:induction false} FindZeroFirst(s: seq<byte>, pos: nat)
    decreases |s| - pos
    ensures FindZero(s, pos).Some? ==> s[FindZero(s, pos).value] == 0
    ensures FindZero(s, pos).Some? ==> forall k :: pos <= k < FindZero(s, pos).value ==> s[k] != 0
    ensures FindZero(s, pos).None? ==> forall k :: pos <= k < |s| ==> s[k] != 0
  {
    if pos < |s| && s[pos] != 0 {
      FindZeroFirst(s, pos + 1);
    }
  }

  /** A zero byte with none before it, from `pos` on, is the one found. */
  lemma {:induction false} FindZeroAt(s: seq<byte>, pos: nat, z: nat)
    requires pos <= z < |s| && s[z] == 0
    requires forall k :: pos <= k < z ==> s[k] != 0
    decreases z - pos
    ensures FindZero(s, pos) == Some(z)
  {
    if pos < z {
      FindZeroAt(s, pos + 1, z);
    }
  }

  /** A null-terminated string: the bytes up to the first zero, which is consumed.
      The scan never passes the end of the buffer. */
  function ReadCString(s: seq<byte>, pos: nat): (r: Option<Read<seq<byte>>>)
    ensures r.Some? ==> pos < r.value.next <= |s|
  {
    match FindZero(s, pos)
    case None => None
    case Some(z) => Some(Read(s[pos..z], z + 1))
  }

  /** A string that was read holds no zero byte. */
  lemma ReadCStringNoZero(s: seq<byte>, pos: nat)
    requires ReadCString(s, pos).Some?
    ensures 0 !in ReadCString(s, pos).value.value
  {
    FindZeroFirst(s, pos);
    var str := ReadCString(s, pos).value.value;
    forall i | 0 <= i < |str|
      ensures str[i] != 0
    {
      assert str[i] == s[pos + i];
    }
  }

  /** A string read fails only when no zero byte follows the cursor. */
  lemma ReadCStringFails(s: seq<byte>, pos: nat)
    requires ReadCString(s, pos).None?
    ensures forall k :: pos <= k < |s| ==> s[k] != 0
  {
    FindZeroFirst(s, pos);
  }

  /** The bytes a string read consumed are the string and its terminator. */
  lemma CStringBytes(s: seq<byte>, pos: nat)
    requires ReadCString(s, pos).Some?
    ensures var r := ReadCString(s, pos).value;
      s[pos..r.next] == r.value + [0]
  {
    var r := ReadCString(s, pos).value;
    FindZeroFirst(s, pos);
    assert s[pos..r.next] == s[pos..r.next - 1] + [s[r.next - 1]];
  }

  // ---------------------------------------------------------------------------
  // Reads of encoded fields: each primitive read decodes what was written

  lemma ReadUIntOfEncoding(pre: seq<byte>, v: nat, width: nat, rest: seq<byte>)
    requires v < Pow256(width)
    ensures ReadUInt(pre + ToBE(v, width) + rest, |pre|, width) == Some(Read(v, |pre| + width))
  {
    var s := pre + ToBE(v, width) + rest;
    assert s[|pre|..|pre| + width] == ToBE(v, width)[0..width];
    BESameBytes(s, |pre|, ToBE(v, width), 0, width);
    BEOfToBE(v, width);
  }

  lemma ReadCStringOfEncoding(pre: seq<byte>, str: seq<byte>, rest: seq<byte>)
    requires 0 !in str
    ensures ReadCString(pre + str + [0] + rest, |pre|) == Some(Read(str, |pre| + |str| + 1))
  {
    var s := pre + str + [0] + rest;
    var z := |pre| + |str|;
    assert s[z] == 0;
    assert forall k :: |pre| <= k < z ==> s[k] == str[k - |pre|];
    FindZeroAt(s, |pre|, z);
    assert s[|pre|..z] == str;
  }

  lemma ReadBytesOfEncoding(pre: seq<byte>, run: seq<byte>, rest: seq<byte>)
    ensures ReadBytes(pre + run + rest, |pre|, |run|) == Some(Read(run, |pre| + |run|))
  {
    var s := pre + run + rest;
    assert s[|pre|..|pre| + |run|] == run;
  }

  // ---------------------------------------------------------------------------
  // The reader: a cursor over a fixed byte buffer

  /** A new buffer holding the given bytes (a memory stream over them). */
  method NewBuffer(bytes: seq<byte>) returns (buf: array<byte>)
    ensures fresh(buf) && buf[..] == bytes
  {
    buf := new byte[|bytes|];
    forall i | 0 <= i < |bytes| {
      buf[i] := bytes[i];
    }
  }

  class Reader {
    const buf: array<byte>
    var pos: nat

    ghost predicate Valid()
      reads this
    {
      pos <= buf.Length
    }

    constructor (b: array<byte>)
      ensures buf == b && pos == 0 && Valid()
    {
      buf := b;
      pos := 0;
    }

    /** Reads `width` bytes as an unsigned big-endian number. */
    method TryReadUInt(width: nat) returns (ok: bool, v: nat)
      requires Valid()
      modifies this
      ensures Valid()
      ensures (if ok then Some(Read(v, pos)) else None) == ReadUInt(buf[..], old(pos), width)
      ensures !ok ==> pos == old(pos)
    {
      var start := pos;
      if start + width > buf.Length {
        return false, 0;
      }
      v := 0;
      var i := start;
      while i < start + width
        invariant start <= i <= start + width
        invariant v == BE(buf[..], start, i - start)
      {
        v := v * 256 + buf[i];
        i := i + 1;
      }
      pos := start + width;
      ok := true;
    }

    method TryReadUInt16() returns (ok: bool, v: u16)
      requires Valid()
      modifies this
      ensures Valid()
      ensures (if ok then Some(Read(v, pos)) else None) == ReadU16(buf[..], old(pos))
      ensures !ok ==> pos == old(pos)
    {
      var n;
      ok, n := TryReadUInt(2);
      v := if ok then n as u16 else 0;
    }

    method TryReadUInt32() returns (ok: bool, v: u32)
      requires Valid()
      modifies this
      ensures Valid()
      ensures (if ok then Some(Read(v, pos)) else None) == ReadU32(buf[..], old(pos))
      ensures !ok ==> pos == old(pos)
    {
      var n;
      ok, n := TryReadUInt(4);
      v := if ok then n as u32 else 0;
    }

    method TryReadUInt64() returns (ok: bool, v: u64)
      requires Valid()
      modifies this
      ensures Valid()
      ensures (if ok then Some(Read(v, pos)) else None) == ReadU64(buf[..], old(pos))
      ensures !ok ==> pos == old(pos)
    {
      var n;
      ok, n := TryReadUInt(8);
      v := if ok then n as u64 else 0;
    }

    method TryReadInt32() returns (ok: bool, v: i32)
      requires Valid()
      modifies this
      ensures Valid()
      ensures (if ok then Some(Read(v, pos)) else None) == ReadI32(buf[..], old(pos))
      ensures !ok ==> pos == old(pos)
    {
      var n;
      ok, n := TryReadUInt32();
      v := if ok then ToInt32(n) else 0;
    }

    /** Reads a run of `n` bytes (the 128-bit hash is read this way). */
    method TryReadBytes(n: nat) returns (ok: bool, run: seq<byte>)
      requires Valid()
      modifies this
      ensures Valid()
      ensures (if ok then Some(Read(run, pos)) else None) == ReadBytes(buf[..], old(pos), n)
      ensures !ok ==> pos == old(pos)
    {
      if pos + n > buf.Length {
        return false, [];
      }
      run := buf[pos..pos + n];
      pos := pos + n;
      ok := true;
    }

    /** Skips up to `n` bytes, stopping at the end of the buffer; never fails. */
    method ReadBytesClamped(n: nat)
      requires Valid()
      modifies this
      ensures Valid()
      ensures pos == if old(pos) + n <= buf.Length then old(pos) + n else buf.Length
    {
      pos := if pos + n <= buf.Length then pos + n else buf.Length;
    }

    /** Reads bytes up to the next zero byte and consumes the zero; fails when the
        buffer ends first. */
    method TryReadStringNullTerm() returns (ok: bool, str: seq<byte>)
      requires Valid()
      modifies this
      ensures Valid()
      ensures (if ok then Some(Read(str, pos)) else None) == ReadCString(buf[..], old(pos))
      ensures !ok ==> pos == old(pos)
    {
      var i := pos;
      while i < buf.Length && buf[i] != 0
        invariant pos <= i <= buf.Length
        invariant FindZero(buf[..], pos) == FindZero(buf[..], i)
      {
        i := i + 1;
      }
      if i == buf.Length {
        return false, [];
      }
      str := buf[pos..i];
      pos := i + 1;
      ok := true;
    }
  }
}
