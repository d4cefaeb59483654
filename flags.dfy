/** The bits of the header's flags word that the decoder tests (Program.cs lines
    137-155).  Each test is written on the integer value of the word; the lemmas
    below show that it is the program's bitwise mask test on the 32-bit word. */
module Flags {
  import opened Wire

  /** `flags & 0x200 != 0`: a vendor prefix follows the header. */
  predicate HasVendorPrefix(flags: u32) {
    (flags / 0x200) % 2 == 1
  }

  /** `flags & 0x80 != 0`: the metadata is stored at the end of the file. */
  predicate MetadataAtEnd(flags: u32) {
    (flags / 0x80) % 2 == 1
  }

  /** `flags & 0x3f`: the low six bits, which name the metadata codec. */
  function CodecBits(flags: u32): (r: nat)
    ensures r < 0x40
  {
    flags % 0x40
  }

  /** `flags & 0x3e == 2`: bits 1 to 5 hold the value 1, whatever bit 0 is. */
  predicate CodecAccepted(flags: u32) {
    (flags / 2) % 0x20 == 1
  }

  lemma VendorPrefixIsMask(flags: u32)
    ensures HasVendorPrefix(flags) <==> (flags as bv32) & 0x200 != 0
  {
  }

  lemma MetadataAtEndIsMask(flags: u32)
    ensures MetadataAtEnd(flags) <==> (flags as bv32) & 0x80 != 0
  {
  }

  /** The codec number reported at line 154 is `flags & 0x3f`. */
  lemma CodecBitsIsMask(flags: u32)
    ensures CodecBits(flags) as bv32 == (flags as bv32) & 0x3f
  {
    var low: u32 := flags % 0x40;
    LowBitOf(flags, 1, 32);
    LowBitOf(flags, 2, 16);
    LowBitOf(flags, 4, 8);
    LowBitOf(flags, 8, 4);
    LowBitOf(flags, 16, 2);
    LowBitOf(flags, 32, 1);
    assert flags / 1 == flags && low / 1 == low;
    Bit0(flags); Bit1(flags); Bit2(flags); Bit3(flags); Bit4(flags); Bit5(flags);
    Bit0(low); Bit1(low); Bit2(low); Bit3(low); Bit4(low); Bit5(low);
    HighBitsClear(low);
    SixBits(flags as bv32, low as bv32);
  }

  lemma CodecAcceptedIsMask(flags: u32)
    ensures CodecAccepted(flags) <==> (flags as bv32) & 0x3e == 2
  {
    CodecMaskBits(flags as bv32);
    Bit1(flags);
    Bit2(flags);
    Bit3(flags);
    Bit4(flags);
    Bit5(flags);
    FiveBits(flags / 2);
    assert flags / 4 == flags / 2 / 2 && flags / 8 == flags / 2 / 4;
    assert flags / 16 == flags / 2 / 8 && flags / 32 == flags / 2 / 16;
  }

  /** The 0x3e mask accepts exactly the codec numbers 2 and 3. */
  lemma CodecMaskAccepts(flags: u32)
    ensures CodecAccepted(flags) <==> CodecBits(flags) == 2 || CodecBits(flags) == 3
  {
  }

  // ---------------------------------------------------------------------------
  // Bit-level helpers

  lemma CodecMaskBits(b: bv32)
    ensures b & 0x3e == 2 <==> b & 2 != 0 && b & 4 == 0 && b & 8 == 0 && b & 16 == 0 && b & 32 == 0
  {
  }

  lemma Bit0(f: u32) ensures f % 2 == 1 <==> (f as bv32) & 1 != 0 {}
  lemma Bit1(f: u32) ensures (f / 2) % 2 == 1 <==> (f as bv32) & 2 != 0 {}
  lemma Bit2(f: u32) ensures (f / 4) % 2 == 1 <==> (f as bv32) & 4 != 0 {}
  lemma Bit3(f: u32) ensures (f / 8) % 2 == 1 <==> (f as bv32) & 8 != 0 {}
  lemma Bit4(f: u32) ensures (f / 16) % 2 == 1 <==> (f as bv32) & 16 != 0 {}
  lemma Bit5(f: u32) ensures (f / 32) % 2 == 1 <==> (f as bv32) & 32 != 0 {}

  lemma HighBitsClear(g: u32)
    requires g < 0x40
    ensures (g as bv32) & 0xFFFF_FFC0 == 0
  {
  }

  /** Bit `d` of `f` and of `f % 64` agree, for `d` a power of two below 64. */
  lemma LowBitOf(f: nat, d: nat, t: nat)
    requires d > 0 && t > 0 && 64 == d * 2 * t
    ensures ((f % 64) / d) % 2 == (f / d) % 2
  {
    var q, g := f / 64, f % 64;
    var x := 2 * t * q + g / d;
    assert f == 64 * q + g;
    assert g == d * (g / d) + g % d;
    assert f == d * x + g % d;
    ModUnique(f, d, x, g % d);
    assert f / d == x;
    ModUnique(x, 2, t * q + (g / d) / 2, (g / d) % 2);
  }

  /** A word with no bits above the sixth is the low six bits of any word
      that agrees with it on those bits. */
  lemma SixBits(b: bv32, c: bv32)
    requires c & 0xFFFF_FFC0 == 0
    requires (b & 1 != 0 <==> c & 1 != 0) && (b & 2 != 0 <==> c & 2 != 0) && (b & 4 != 0 <==> c & 4 != 0)
    requires (b & 8 != 0 <==> c & 8 != 0) && (b & 16 != 0 <==> c & 16 != 0) && (b & 32 != 0 <==> c & 32 != 0)
    ensures b & 0x3f == c
  {
  }

  /** Five low bits spelling 1 are bit 0 set and bits 1 to 4 clear. */
  lemma FiveBits(g: nat)
    ensures g % 0x20 == 1 <==>
      g % 2 == 1 && (g / 2) % 2 == 0 && (g / 4) % 2 == 0 && (g / 8) % 2 == 0 && (g / 16) % 2 == 0
  {
    LowBit(g, 16);
    LowBit(g / 2, 8);
    LowBit(g / 4, 4);
    LowBit(g / 8, 2);
    assert g / 2 / 2 == g / 4 && g / 4 / 2 == g / 8 && g / 8 / 2 == g / 16;
  }

  /** The remainder modulo 2m is the lowest bit plus twice the remainder of the rest. */
  lemma LowBit(g: nat, m: nat)
    requires m > 0
    ensures g % (2 * m) == 2 * ((g / 2) % m) + g % 2
  {
    var q := (g / 2) / m;
    var r := 2 * ((g / 2) % m) + g % 2;
    assert g / 2 == m * q + (g / 2) % m;
    assert g == 2 * (g / 2) + g % 2;
    assert g == (2 * m) * q + r;
    ModUnique(g, 2 * m, q, r);
  }

  lemma ModUnique(g: int, d: int, q: int, r: int)
    requires d > 0 && 0 <= r < d && g == d * q + r
    ensures g % d == r
  {
    var q' := g / d;
    var r' := g % d;
    assert g == d * q' + r';
    assert d * (q - q') == r' - r;
    if q > q' {
      MulAtLeast(d, q - q');
    } else if q < q' {
      MulAtLeast(d, q' - q);
    }
  }

  lemma {:induction false} MulAtLeast(d: int, k: int)
    requires d > 0 && k >= 1
    ensures d * k >= d
  {
    if k > 1 {
      MulAtLeast(d, k - 1);
      assert d * k == d * (k - 1) + d;
    }
  }
}
