/**
 The on-disk layout of the two ELF64 structures the kernel reads: the
 64-byte file header and the 56-byte program-header entry, as defined by the
 System V ABI (generic specification, chapter 4 "ELF Header" and chapter 5
 "Program Header") for a little-endian 64-bit object.

 The kernel obtains these records by casting a pointer into the image to
 `goblin::elf64::header::Header` and `goblin::elf64::program_header::ProgramHeader`.
 Here each record is decoded field by field from exactly the bytes it
 occupies, and an encoder is given that is proved to be its inverse.
 */
module ElfLayout {
  import opened Bytes

  /** Size of the fixed ELF64 file header (`e_ehsize` of a 64-bit object). */
  const HeaderSize: nat := 64
  /** Size of one ELF64 program-header entry, the stride of the table. */
  const ProgramHeaderSize: nat := 56
  /** Length of `e_ident`. */
  const IdentSize: nat := 16

  // Byte offsets of the header fields the parser consults.
  const MachineOffset: nat := 18
  const EntryOffset: nat := 24
  const PhoffOffset: nat := 32
  const PhnumOffset: nat := 56

  type Ident = s: seq<Byte> | |s| == 16 witness seq(16, _ => 0)

  /** The ELF64 file header, in the order its fields appear in the file. */
  datatype Header = Header(
    ident: Ident,      // e_ident: magic, class, data encoding, version, OS ABI, padding
    fileType: U16,     // e_type
    machine: U16,      // e_machine
    version: U32,      // e_version
    entry: U64,        // e_entry: virtual address of the first instruction
    phoff: U64,        // e_phoff: file offset of the program-header table
    shoff: U64,        // e_shoff
    flags: U32,        // e_flags
    ehsize: U16,       // e_ehsize
    phentsize: U16,    // e_phentsize
    phnum: U16,        // e_phnum: number of program-header entries
    shentsize: U16,    // e_shentsize
    shnum: U16,        // e_shnum
    shstrndx: U16      // e_shstrndx
  )

  /** One ELF64 program-header entry (the 64-bit layout puts `p_flags` second). */
  datatype ProgramHeader = ProgramHeader(
    segmentType: U32,  // p_type
    flags: U32,        // p_flags
    offset: U64,       // p_offset
    vaddr: U64,        // p_vaddr
    paddr: U64,        // p_paddr
    filesz: U64,       // p_filesz
    memsz: U64,        // p_memsz
    align: U64         // p_align
  )

  /** The header held by the 64 bytes `b`. */
  function DecodeHeader(b: seq<Byte>): (h: Header)
    requires |b| == HeaderSize
  {
    Header(
      b[0..16],
      ReadU16(b, 16), ReadU16(b, MachineOffset), ReadU32(b, 20),
      ReadU64(b, EntryOffset), ReadU64(b, PhoffOffset), ReadU64(b, 40),
      ReadU32(b, 48), ReadU16(b, 52), ReadU16(b, 54),
      ReadU16(b, PhnumOffset), ReadU16(b, 58), ReadU16(b, 60), ReadU16(b, 62))
  }

  /** The header decoded from the start of `buf` carries the fields stored at their offsets in `buf`. */
  lemma HeaderFieldsAt(buf: seq<Byte>)
    requires |buf| >= HeaderSize
    ensures DecodeHeader(buf[..HeaderSize]).ident == buf[..IdentSize]
    ensures DecodeHeader(buf[..HeaderSize]).machine == FromLe(buf[MachineOffset..MachineOffset + 2])
    ensures DecodeHeader(buf[..HeaderSize]).entry == FromLe(buf[EntryOffset..EntryOffset + 8])
    ensures DecodeHeader(buf[..HeaderSize]).phoff == FromLe(buf[PhoffOffset..PhoffOffset + 8])
    ensures DecodeHeader(buf[..HeaderSize]).phnum == FromLe(buf[PhnumOffset..PhnumOffset + 2])
  {
    var b := buf[..HeaderSize];
    assert b[0..IdentSize] == buf[..IdentSize];
    assert b[MachineOffset..MachineOffset + 2] == buf[MachineOffset..MachineOffset + 2];
    assert b[EntryOffset..EntryOffset + 8] == buf[EntryOffset..EntryOffset + 8];
    assert b[PhoffOffset..PhoffOffset + 8] == buf[PhoffOffset..PhoffOffset + 8];
    assert b[PhnumOffset..PhnumOffset + 2] == buf[PhnumOffset..PhnumOffset + 2];
  }

  /** Byte `k` of the image of `h`: byte `k - off` of the field that occupies offset `k`. */
  function HeaderByte(h: Header, k: nat): (x: Byte)
    requires k < HeaderSize
  {
    if k < 16 then h.ident[k]
    else if k < 18 then WriteU16(h.fileType)[k - 16]
    else if k < 20 then WriteU16(h.machine)[k - 18]
    else if k < 24 then WriteU32(h.version)[k - 20]
    else if k < 32 then WriteU64(h.entry)[k - 24]
    else if k < 40 then WriteU64(h.phoff)[k - 32]
    else if k < 48 then WriteU64(h.shoff)[k - 40]
    else if k < 52 then WriteU32(h.flags)[k - 48]
    else if k < 54 then WriteU16(h.ehsize)[k - 52]
    else if k < 56 then WriteU16(h.phentsize)[k - 54]
    else if k < 58 then WriteU16(h.phnum)[k - 56]
    else if k < 60 then WriteU16(h.shentsize)[k - 58]
    else if k < 62 then WriteU16(h.shnum)[k - 60]
    else WriteU16(h.shstrndx)[k - 62]
  }

  /** The 64 bytes that represent `h` in a little-endian ELF64 file. */
  function EncodeHeader(h: Header): (b: seq<Byte>)
    ensures |b| == HeaderSize
  {
    seq(HeaderSize, k requires 0 <= k < HeaderSize => HeaderByte(h, k))
  }

  /** The program header held by the 56 bytes `b`. */
  function DecodeProgramHeader(b: seq<Byte>): (p: ProgramHeader)
    requires |b| == ProgramHeaderSize
  {
    ProgramHeader(
      ReadU32(b, 0), ReadU32(b, 4),
      ReadU64(b, 8), ReadU64(b, 16), ReadU64(b, 24),
      ReadU64(b, 32), ReadU64(b, 40), ReadU64(b, 48))
  }

  /** Byte `k` of the image of `p`: byte `k - off` of the field that occupies offset `k`. */
  function ProgramHeaderByte(p: ProgramHeader, k: nat): (x: Byte)
    requires k < ProgramHeaderSize
  {
    if k < 4 then WriteU32(p.segmentType)[k]
    else if k < 8 then WriteU32(p.flags)[k - 4]
    else if k < 16 then WriteU64(p.offset)[k - 8]
    else if k < 24 then WriteU64(p.vaddr)[k - 16]
    else if k < 32 then WriteU64(p.paddr)[k - 24]
    else if k < 40 then WriteU64(p.filesz)[k - 32]
    else if k < 48 then WriteU64(p.memsz)[k - 40]
    else WriteU64(p.align)[k - 48]
  }

  /** The 56 bytes that represent `p` in a little-endian ELF64 file. */
  function EncodeProgramHeader(p: ProgramHeader): (b: seq<Byte>)
    ensures |b| == ProgramHeaderSize
  {
    seq(ProgramHeaderSize, k requires 0 <= k < ProgramHeaderSize => ProgramHeaderByte(p, k))
  }

  /** Decoding an encoded header gives the header back. */
  lemma HeaderRoundTrip(h: Header)
    ensures DecodeHeader(EncodeHeader(h)) == h
  {
    var b := EncodeHeader(h);
    assert b[0..16] == h.ident;
    assert b[16..18] == WriteU16(h.fileType);
    assert b[18..20] == WriteU16(h.machine);
    assert b[20..24] == WriteU32(h.version);
    assert b[24..32] == WriteU64(h.entry);
    assert b[32..40] == WriteU64(h.phoff);
    assert b[40..48] == WriteU64(h.shoff);
    assert b[48..52] == WriteU32(h.flags);
    assert b[52..54] == WriteU16(h.ehsize);
    assert b[54..56] == WriteU16(h.phentsize);
    assert b[56..58] == WriteU16(h.phnum);
    assert b[58..60] == WriteU16(h.shentsize);
    assert b[60..62] == WriteU16(h.shnum);
    assert b[62..64] == WriteU16(h.shstrndx);
  }

  /** Every 64-byte header image is the encoding of the header it decodes to. */
  lemma HeaderBytesRoundTrip(b: seq<Byte>)
    requires |b| == HeaderSize
    ensures EncodeHeader(DecodeHeader(b)) == b
  {
    var e := EncodeHeader(DecodeHeader(b));
    HeaderRoundTrip(DecodeHeader(b));
    assert DecodeHeader(e) == DecodeHeader(b);
    forall k: nat | k < 16
      ensures e[k] == b[k]
    {
      assert e[0..16][k] == b[0..16][k];
    }
    SameFieldSameBytes(e, b, 16, 2);
    SameFieldSameBytes(e, b, 18, 2);
    SameFieldSameBytes(e, b, 20, 4);
    SameFieldSameBytes(e, b, 24, 8);
    SameFieldSameBytes(e, b, 32, 8);
    SameFieldSameBytes(e, b, 40, 8);
    SameFieldSameBytes(e, b, 48, 4);
    SameFieldSameBytes(e, b, 52, 2);
    SameFieldSameBytes(e, b, 54, 2);
    SameFieldSameBytes(e, b, 56, 2);
    SameFieldSameBytes(e, b, 58, 2);
    SameFieldSameBytes(e, b, 60, 2);
    SameFieldSameBytes(e, b, 62, 2);
  }

  /** Decoding an encoded program header gives the program header back. */
  lemma ProgramHeaderRoundTrip(p: ProgramHeader)
    ensures DecodeProgramHeader(EncodeProgramHeader(p)) == p
  {
    var b := EncodeProgramHeader(p);
    assert b[0..4] == WriteU32(p.segmentType);
    assert b[4..8] == WriteU32(p.flags);
    assert b[8..16] == WriteU64(p.offset);
    assert b[16..24] == WriteU64(p.vaddr);
    assert b[24..32] == WriteU64(p.paddr);
    assert b[32..40] == WriteU64(p.filesz);
    assert b[40..48] == WriteU64(p.memsz);
    assert b[48..56] == WriteU64(p.align);
  }

  /** Every 56-byte entry image is the encoding of the program header it decodes to. */
  lemma ProgramHeaderBytesRoundTrip(b: seq<Byte>)
    requires |b| == ProgramHeaderSize
    ensures EncodeProgramHeader(DecodeProgramHeader(b)) == b
  {
    var e := EncodeProgramHeader(DecodeProgramHeader(b));
    ProgramHeaderRoundTrip(DecodeProgramHeader(b));
    SameFieldSameBytes(e, b, 0, 4);
    SameFieldSameBytes(e, b, 4, 4);
    SameFieldSameBytes(e, b, 8, 8);
    SameFieldSameBytes(e, b, 16, 8);
    SameFieldSameBytes(e, b, 24, 8);
    SameFieldSameBytes(e, b, 32, 8);
    SameFieldSameBytes(e, b, 40, 8);
    SameFieldSameBytes(e, b, 48, 8);
  }

  /** Two images whose field at `off` decodes alike hold the same bytes there. */
  lemma SameFieldSameBytes(e: seq<Byte>, b: seq<Byte>, off: nat, width: nat)
    requires off + width <= |e| == |b|
    requires FromLe(e[off..off + width]) == FromLe(b[off..off + width])
    ensures forall k :: off <= k < off + width ==> e[k] == b[k]
  {
    FromLeInjective(e[off..off + width], b[off..off + width]);
    forall k | off <= k < off + width
      ensures e[k] == b[k]
    {
      assert e[off..off + width][k - off] == b[off..off + width][k - off];
    }
  }
}
