/** The address helpers of Bus.h: region masking, the BIOS-only read path
    and the write path that accepts a few hardware registers and fails on
    everything else. */
module Bus {
  import opened Failure
  import opened Opcode

  /** region_mask, indexed by the top three address bits: KUSEG (0-3) and
      the last two entries pass the address through, KSEG0 (4) drops the top
      bit, KSEG1 (5) drops the top three. */
  function RegionMask(region: bv32): Word
    requires region < 8
  {
    if region == 4 then 0x7FFF_FFFF
    else if region == 5 then 0x1FFF_FFFF
    else 0xFFFF_FFFF
  }

  function MaskRegion(addr: Word): (r: Word)
    ensures r <= addr
  {
    addr & RegionMask(addr >> 29)
  }

  /** Masking keeps the low 29 bits, the offset within a 512MB segment. */
  lemma MaskRegionKeepsOffset(addr: Word)
    ensures MaskRegion(addr) & 0x1FFF_FFFF == addr & 0x1FFF_FFFF
  {
    var top := addr >> 29;
    if top == 4 {
    } else if top == 5 {
    } else {
    }
  }

  lemma MaskRegionSamples()
    ensures MaskRegion(0x8001_0000) == 0x0001_0000
    ensures MaskRegion(0xA001_0000) == 0x0001_0000
    ensures MaskRegion(0x0001_0000) == 0x0001_0000
    ensures MaskRegion(0xBFC0_0000) == 0x1FC0_0000
  {
  }

  /** Masking twice is masking once: a masked address always lies in a
      pass-through region. */
  lemma MaskRegionIdempotent(addr: Word)
    ensures MaskRegion(MaskRegion(addr)) == MaskRegion(addr)
  {
    MaskedIsPassThrough(addr);
    PassThroughUnchanged(MaskRegion(addr));
  }

  lemma PassThroughUnchanged(a: Word)
    requires a >> 29 != 4 && a >> 29 != 5
    ensures MaskRegion(a) == a
  {
    assert RegionMask(a >> 29) == 0xFFFF_FFFF;
  }

  /** A masked address always lies in a pass-through region. */
  lemma MaskedIsPassThrough(addr: Word)
    ensures var top := MaskRegion(addr) >> 29; top != 4 && top != 5
  {
    var top := addr >> 29;
    if top == 4 {
      assert MaskRegion(addr) == addr & 0x7FFF_FFFF;
    } else if top == 5 {
      assert MaskRegion(addr) == addr & 0x1FFF_FFFF;
    } else {
      assert MaskRegion(addr) == addr;
    }
  }

  // The BIOS image is visible at physical addresses [0x1FC0_0000, 0x1FC8_0000).
  const BiosSize: nat := 0x8_0000

  /** The `bios` array: exactly 0x80000 bytes. */
  type BiosImage = s: seq<bv8> | |s| == BiosSize witness seq(BiosSize, _ => 0)

  /** sizeof(T) of the read<T> and write<T> instantiations. */
  datatype Width = Byte | Half | Full

  function Bytes(w: Width): nat
  {
    match w
    case Byte => 1
    case Half => 2
    case Full => 4
  }

  /** n bytes of the image from off, little-endian (the host's byte order). */
  function LoadLE(bios: BiosImage, off: nat, n: nat): Word
    requires n <= 4 && off + n <= BiosSize
    decreases n
  {
    if n == 0 then 0 else (bios[off] as Word) | (LoadLE(bios, off + 1, n - 1) << 8)
  }

  /** The guard of read<T> as written: the masked address lies in the BIOS
      window, whatever sizeof(T) is. */
  predicate InBiosWindow(a: Word)
  {
    0x1FC0_0000 <= a < 0x1FC8_0000
  }

  /** The last offset at which an access of the width still fits the image. */
  function LastStart(width: Width): Word
  {
    match width
    case Byte => 0x7_FFFF
    case Half => 0x7_FFFE
    case Full => 0x7_FFFC
  }

  /** The guard read<T> evidently intends: all sizeof(T) bytes lie in the
      image. */
  predicate BiosCovers(a: Word, width: Width)
  {
    0x1FC0_0000 <= a && a - 0x1FC0_0000 <= LastStart(width)
  }

  lemma OffsetFits(off: Word, width: Width)
    requires off <= LastStart(width)
    ensures 0 <= off as int <= BiosSize - Bytes(width)
  {
    match width
    case Byte =>
    case Half =>
    case Full =>
  }

  /** read<T>: mask the address, then read from the BIOS image or fail.
      The image is the only readable region. */
  function Read(bios: BiosImage, addr: Word, width: Width): (r: Result<Word>)
    ensures r.Ok? <==> BiosCovers(MaskRegion(addr), width)
    ensures r.Err? ==> r.error == UnmappedRead(MaskRegion(addr))
  {
    var a := MaskRegion(addr);
    if BiosCovers(a, width) then Ok(LoadLE(bios, BiosOffset(a, width), Bytes(width)))
    else Err(UnmappedRead(a))
  }

  /** addr - 0x1fc00000, the index into the image. */
  function BiosOffset(a: Word, width: Width): (off: nat)
    requires BiosCovers(a, width)
    ensures off + Bytes(width) <= BiosSize
  {
    var off := a - 0x1FC0_0000;
    OffsetFits(off, width);
    off as int
  }

  /** Every successful read passes the guard as written too. */
  lemma ReadInWindow(bios: BiosImage, addr: Word, width: Width)
    requires Read(bios, addr, width).Ok?
    ensures InBiosWindow(MaskRegion(addr))
  {
    var a := MaskRegion(addr);
    assert a - 0x1FC0_0000 <= 0x7_FFFF;
  }

  /** A byte read returns the image byte at the masked offset. */
  lemma ReadByte(bios: BiosImage, addr: Word)
    requires InBiosWindow(MaskRegion(addr))
    ensures BiosCovers(MaskRegion(addr), Byte)
    ensures Read(bios, addr, Byte) == Ok(bios[BiosOffset(MaskRegion(addr), Byte)] as Word)
  {
    var off := BiosOffset(MaskRegion(addr), Byte);
    assert LoadLE(bios, off + 1, 0) == 0;
    assert LoadLE(bios, off, 1) == (bios[off] as Word) | (0 << 8);
    assert Read(bios, addr, Byte) == Ok(LoadLE(bios, off, Bytes(Byte)));
  }

  /** The guard as written lets a four-byte read start three bytes before the
      end of the image, so *(T*)&bios[...] reads past the array; the guarded
      Read refuses it. */
  lemma ReadGuardAdmitsOverrun(bios: BiosImage)
    ensures InBiosWindow(MaskRegion(0xBFC7_FFFD))
    ensures (MaskRegion(0xBFC7_FFFD) - 0x1FC0_0000) as int + Bytes(Full) > BiosSize
    ensures Read(bios, 0xBFC7_FFFD, Full).Err?
  {
    assert MaskRegion(0xBFC7_FFFD) == 0x1FC7_FFFD;
  }

  /** For accesses aligned to their width the two guards agree, so instruction
      fetches from a word-aligned pc are unaffected by the correction. */
  lemma AlignedGuardsAgree(a: Word, width: Width)
    requires a & AlignMask(width) == 0
    ensures InBiosWindow(a) <==> BiosCovers(a, width)
  {
    match width
    case Byte =>
    case Half =>
    case Full =>
  }

  /** The address bits that must be clear for an access of the width to be
      aligned. */
  function AlignMask(width: Width): Word
  {
    match width
    case Byte => 0
    case Half => 1
    case Full => 3
  }

  /** The registers write<T> silently ignores (compared without masking). */
  predicate WriteIgnored(addr: Word)
  {
    || (0x1F80_1000 <= addr <= 0x1F80_1020)  // timing / base addresses
    || addr == 0x1F80_1060                   // RAM size
    || addr == 0xFFFE_0130                   // cache control
  }

  /** write<T>: no state change on an ignored register, fatal otherwise. The
      data is never stored. */
  function Write(addr: Word, width: Width, data: Word): (r: Outcome)
    ensures r.Pass? <==> WriteIgnored(addr)
    ensures r.Fail? ==> r.error == UnmappedWrite(addr)
  {
    if WriteIgnored(addr) then Pass else Fail(UnmappedWrite(addr))
  }

  function Write32(addr: Word, data: Word): (r: Outcome)
    ensures r == Write(addr, Full, data)
  {
    Write(addr, Full, data)
  }

  /** write<T> does not mask: the KSEG1 alias of an ignored register is
      fatal, while the read path would have masked it. */
  lemma WriteDoesNotMask()
    ensures MaskRegion(0xBF80_1060) == 0x1F80_1060 && WriteIgnored(0x1F80_1060)
    ensures Write32(0xBF80_1060, 0).Fail?
  {
  }
}
