/**
 The kernel's ELF64 executable parser: a read-only view over a byte buffer
 exposing the entry address and the program-header table.

 The code in kernel/elf.rs returns no error. Its only check is the
 `buf[e_phoff]` index (line 19), which panics when `e_phoff >= buf.len()`;
 otherwise it returns a view. Its TODOs (lines 14-15) call for size, magic
 and machine checks. `Parse` is the parser with those checks in place. Once
 the buffer holds the whole fixed header, it decodes the header and checks, in
 this order, that it carries the ELF magic, the 64-bit class, the
 little-endian data encoding and the x86-64 machine number, and that the
 program-header table lies inside the buffer. Only when every check passes
 does it decode the table, and every byte it decodes is provably inside the
 buffer. Each failure is one of the
 reasons in `ParseError`, which this model introduces in place of the
 code's panic and its unchecked views.
 */
module Elf {
  import opened Bytes
  import opened ElfLayout

  /** `e_ident[EI_MAG0..EI_MAG3]`: 0x7f 'E' 'L' 'F'. */
  const ElfMagic: seq<Byte> := [0x7f, 0x45, 0x4c, 0x46]
  /** `e_ident[EI_CLASS]` of a 64-bit object (ELFCLASS64). */
  const ElfClass64: Byte := 2
  /** `e_ident[EI_DATA]` of a little-endian object (ELFDATA2LSB). */
  const ElfData2Lsb: Byte := 1
  /** `e_machine` of the kernel's target architecture (EM_X86_64). */
  const MachineX86_64: U16 := 62

  /** Why a buffer is not an executable this kernel can load. */
  datatype ParseError =
    | TooShort           // shorter than the fixed header
    | BadMagic           // e_ident does not start with the ELF magic
    | BadClass           // not a 64-bit object
    | BadDataEncoding    // not a little-endian object
    | WrongMachine       // built for another architecture
    | TableOutOfBounds   // the program-header table runs past the end of the buffer

  datatype Result<T> = Ok(value: T) | Err(error: ParseError)

  /** What the kernel keeps of a parsed executable: its header and its program headers. */
  datatype ElfView = ElfView(header: Header, programHeaders: seq<ProgramHeader>)

  /** One past the last byte of the program-header table `h` describes. */
  function TableEnd(h: Header): (end: nat)
  {
    h.phoff + h.phnum * ProgramHeaderSize
  }

  /**
   The raw-byte conditions under which `Parse` accepts the fixed header of
   `buf`, stated directly on the bytes at their ELF64 offsets.
   */
  predicate HeaderAccepted(buf: seq<Byte>)
  {
    && |buf| >= HeaderSize
    && buf[0..4] == ElfMagic
    && buf[4] == ElfClass64
    && buf[5] == ElfData2Lsb
    && FromLe(buf[MachineOffset..MachineOffset + 2]) == MachineX86_64
  }

  /** One past the last byte of the table the raw header of `buf` describes. */
  function RawTableEnd(buf: seq<Byte>): (end: nat)
    requires |buf| >= HeaderSize
  {
    FromLe(buf[PhoffOffset..PhoffOffset + 8]) + FromLe(buf[PhnumOffset..PhnumOffset + 2]) * ProgramHeaderSize
  }

  /** The raw-byte conditions under which `Parse` accepts `buf`. */
  predicate WellFormed(buf: seq<Byte>)
  {
    HeaderAccepted(buf) && RawTableEnd(buf) <= |buf|
  }

  /** The `n` program headers held, back to back, in the table image `t`: entry `i` is bytes `56i .. 56i+56`. */
  function DecodeTable(t: seq<Byte>, n: nat): (phs: seq<ProgramHeader>)
    requires |t| == n * ProgramHeaderSize
    ensures |phs| == n
  {
    seq(n, i requires 0 <= i < n =>
      DecodeProgramHeader(t[i * ProgramHeaderSize .. i * ProgramHeaderSize + ProgramHeaderSize]))
  }

  /** The table image of `phs`: their encodings, back to back. */
  function EncodeTable(phs: seq<ProgramHeader>): (t: seq<Byte>)
    ensures |t| == |phs| * ProgramHeaderSize
  {
    seq(|phs| * ProgramHeaderSize, k requires 0 <= k < |phs| * ProgramHeaderSize =>
      EncodeProgramHeader(phs[k / ProgramHeaderSize])[k % ProgramHeaderSize])
  }

  /** Models `Elf::parse`, with the size, magic, machine and table-bounds checks in place. */
  function Parse(buf: seq<Byte>): (r: Result<ElfView>)
    ensures r.Ok? <==> WellFormed(buf)
    ensures r.Ok? ==>
      && r.value.header == DecodeHeader(buf[..HeaderSize])
      && TableEnd(r.value.header) <= |buf|
      && r.value.programHeaders
         == DecodeTable(buf[r.value.header.phoff .. TableEnd(r.value.header)], r.value.header.phnum)
  {
    if |buf| < HeaderSize then Err(TooShort)
    else
      var h := DecodeHeader(buf[..HeaderSize]);
      HeaderFieldsAt(buf);
      if h.ident[..4] != ElfMagic then Err(BadMagic)
      else if h.ident[4] != ElfClass64 then Err(BadClass)
      else if h.ident[5] != ElfData2Lsb then Err(BadDataEncoding)
      else if h.machine != MachineX86_64 then Err(WrongMachine)
      else if TableEnd(h) > |buf| then Err(TableOutOfBounds)
      else
        Ok(ElfView(h, DecodeTable(buf[h.phoff..TableEnd(h)], h.phnum)))
  }

  /**
   Why `Parse` rejects a buffer: the first check, in the order size, magic,
   class, data encoding, machine, table bounds, that the raw bytes fail.
   */
  lemma ParseRejects(buf: seq<Byte>)
    ensures |buf| < HeaderSize ==> Parse(buf) == Err(TooShort)
    ensures |buf| >= HeaderSize && buf[0..4] != ElfMagic ==> Parse(buf) == Err(BadMagic)
    ensures |buf| >= HeaderSize && buf[0..4] == ElfMagic && buf[4] != ElfClass64
            ==> Parse(buf) == Err(BadClass)
    ensures |buf| >= HeaderSize && buf[0..4] == ElfMagic && buf[4] == ElfClass64 && buf[5] != ElfData2Lsb
            ==> Parse(buf) == Err(BadDataEncoding)
    ensures |buf| >= HeaderSize && buf[0..4] == ElfMagic && buf[4] == ElfClass64 && buf[5] == ElfData2Lsb
            && FromLe(buf[MachineOffset..MachineOffset + 2]) != MachineX86_64
            ==> Parse(buf) == Err(WrongMachine)
    ensures Parse(buf) == Err(TableOutOfBounds) <==> HeaderAccepted(buf) && RawTableEnd(buf) > |buf|
  {
    if |buf| >= HeaderSize {
      HeaderFieldsAt(buf);
    }
  }

  /** Models `Elf::entry`: the header's `e_entry`. */
  function Entry(v: ElfView): (entry: U64)
  {
    v.header.entry
  }

  /** Models `Elf::program_headers`: the table, in file order. */
  function ProgramHeaders(v: ElfView): (phs: seq<ProgramHeader>)
  {
    v.programHeaders
  }

  /** On success, the entry address is the little-endian `e_entry` at bytes 24..32 of the buffer. */
  lemma EntryOfParse(buf: seq<Byte>, v: ElfView)
    requires Parse(buf) == Ok(v)
    ensures Entry(v) == FromLe(buf[EntryOffset..EntryOffset + 8])
  {
    HeaderFieldsAt(buf);
  }

  /**
   On success, the view holds exactly `e_phnum` program headers (bytes 56..58),
   and the i-th of them is decoded from the 56 bytes at `e_phoff + i*56`
   (`e_phoff` being bytes 32..40), in table order.
   */
  lemma ProgramHeadersOfParse(buf: seq<Byte>, v: ElfView)
    requires Parse(buf) == Ok(v)
    ensures |ProgramHeaders(v)| == FromLe(buf[PhnumOffset..PhnumOffset + 2])
    ensures var phoff := FromLe(buf[PhoffOffset..PhoffOffset + 8]);
      forall i :: 0 <= i < |ProgramHeaders(v)| ==>
        && phoff + i * ProgramHeaderSize + ProgramHeaderSize <= |buf|
        && ProgramHeaders(v)[i]
           == DecodeProgramHeader(buf[phoff + i * ProgramHeaderSize .. phoff + i * ProgramHeaderSize + ProgramHeaderSize])
  {
    var h := v.header;
    HeaderFieldsAt(buf);
    TableEntriesAt(buf, h.phoff, h.phnum, TableEnd(h), v.programHeaders);
  }

  /** Entry `i` of the table image at `off` in `buf` is decoded from its own 56 bytes of `buf`. */
  lemma TableEntriesAt(buf: seq<Byte>, off: nat, n: nat, end: nat, phs: seq<ProgramHeader>)
    requires end == off + n * ProgramHeaderSize <= |buf|
    requires phs == DecodeTable(buf[off..end], n)
    ensures |phs| == n
    ensures forall i :: 0 <= i < n ==>
      && off + i * ProgramHeaderSize + ProgramHeaderSize <= |buf|
      && phs[i] == DecodeProgramHeader(buf[off + i * ProgramHeaderSize .. off + i * ProgramHeaderSize + ProgramHeaderSize])
  {
    forall i | 0 <= i < n
      ensures off + i * ProgramHeaderSize + ProgramHeaderSize <= |buf|
      ensures phs[i] == DecodeProgramHeader(buf[off + i * ProgramHeaderSize .. off + i * ProgramHeaderSize + ProgramHeaderSize])
    {
      assert i * ProgramHeaderSize + ProgramHeaderSize <= n * ProgramHeaderSize;
      SliceOfSlice(buf, off, end, i * ProgramHeaderSize, i * ProgramHeaderSize + ProgramHeaderSize);
    }
  }

  /** Byte `k` of a table lies in entry `k / 56`, at offset `k % 56` within it. */
  lemma EntryOfByte(k: nat, i: nat, j: nat)
    requires j < ProgramHeaderSize && k == i * ProgramHeaderSize + j
    ensures k / ProgramHeaderSize == i && k % ProgramHeaderSize == j
  {
  }

  /** The 56 bytes of entry `i` of an encoded table are the encoding of `phs[i]`. */
  lemma EncodeTableEntry(phs: seq<ProgramHeader>, i: nat)
    requires i < |phs|
    ensures EncodeTable(phs)[i * ProgramHeaderSize .. i * ProgramHeaderSize + ProgramHeaderSize]
            == EncodeProgramHeader(phs[i])
  {
    var t := EncodeTable(phs);
    var lo := i * ProgramHeaderSize;
    forall j | 0 <= j < ProgramHeaderSize
      ensures t[lo .. lo + ProgramHeaderSize][j] == EncodeProgramHeader(phs[i])[j]
    {
      EntryOfByte(lo + j, i, j);
    }
  }

  /** Decoding an encoded table gives the program headers back, in order. */
  lemma TableRoundTrip(phs: seq<ProgramHeader>)
    ensures DecodeTable(EncodeTable(phs), |phs|) == phs
  {
    var d := DecodeTable(EncodeTable(phs), |phs|);
    forall i | 0 <= i < |phs|
      ensures d[i] == phs[i]
    {
      EncodeTableEntry(phs, i);
      ProgramHeaderRoundTrip(phs[i]);
    }
  }

  /** Every table image is the encoding of the program headers it decodes to. */
  lemma TableBytesRoundTrip(t: seq<Byte>, n: nat)
    requires |t| == n * ProgramHeaderSize
    ensures EncodeTable(DecodeTable(t, n)) == t
  {
    var d := DecodeTable(t, n);
    var e := EncodeTable(d);
    forall k | 0 <= k < |t|
      ensures e[k] == t[k]
    {
      var i := k / ProgramHeaderSize;
      var lo := i * ProgramHeaderSize;
      var chunk := t[lo .. lo + ProgramHeaderSize];
      ProgramHeaderBytesRoundTrip(chunk);
      assert e[k] == EncodeProgramHeader(DecodeProgramHeader(chunk))[k - lo];
    }
  }

  /** A header whose identification, machine, and table position fit the image layout below. */
  predicate Loadable(h: Header, gap: nat, count: nat)
  {
    && h.ident[..4] == ElfMagic
    && h.ident[4] == ElfClass64
    && h.ident[5] == ElfData2Lsb
    && h.machine == MachineX86_64
    && h.phoff == HeaderSize + gap
    && h.phnum == count
  }

  /**
   The image of an executable: its header, `gap` (bytes the parser ignores),
   its program-header table, and whatever follows (segment contents and so on).
   */
  function Image(h: Header, gap: seq<Byte>, phs: seq<ProgramHeader>, tail: seq<Byte>): (image: seq<Byte>)
  {
    EncodeHeader(h) + gap + EncodeTable(phs) + tail
  }

  /** Parsing a well-formed encoded image returns the encoded entry and program headers. */
  lemma ParseImage(h: Header, gap: seq<Byte>, phs: seq<ProgramHeader>, tail: seq<Byte>)
    requires Loadable(h, |gap|, |phs|)
    ensures Parse(Image(h, gap, phs, tail)) == Ok(ElfView(h, phs))
    ensures Entry(Parse(Image(h, gap, phs, tail)).value) == h.entry
    ensures ProgramHeaders(Parse(Image(h, gap, phs, tail)).value) == phs
  {
    var buf := Image(h, gap, phs, tail);
    assert buf[..HeaderSize] == EncodeHeader(h);
    HeaderRoundTrip(h);
    assert buf[h.phoff..TableEnd(h)] == EncodeTable(phs);
    TableRoundTrip(phs);
  }

  /** Conversely, the header of whatever `Parse` accepts re-encodes to the buffer's first 64 bytes. */
  lemma ParseReencodes(buf: seq<Byte>, v: ElfView)
    requires Parse(buf) == Ok(v)
    ensures EncodeHeader(v.header) == buf[..HeaderSize]
  {
    HeaderBytesRoundTrip(buf[..HeaderSize]);
  }

  /** Each program header of whatever `Parse` accepts re-encodes to its own 56 bytes of the table. */
  lemma ParseReencodesTable(buf: seq<Byte>, v: ElfView)
    requires Parse(buf) == Ok(v)
    ensures forall i :: 0 <= i < |v.programHeaders| ==>
      EncodeProgramHeader(v.programHeaders[i])
      == buf[v.header.phoff + i * ProgramHeaderSize .. v.header.phoff + i * ProgramHeaderSize + ProgramHeaderSize]
  {
    var h := v.header;
    TableEntriesReencode(buf, h.phoff, h.phnum, TableEnd(h), v.programHeaders);
  }

  /** Each entry decoded from the table image at `off` in `buf` encodes back to its own 56 bytes. */
  lemma TableEntriesReencode(buf: seq<Byte>, off: nat, n: nat, end: nat, phs: seq<ProgramHeader>)
    requires end == off + n * ProgramHeaderSize <= |buf|
    requires phs == DecodeTable(buf[off..end], n)
    ensures forall i :: 0 <= i < |phs| ==>
      EncodeProgramHeader(phs[i])
      == buf[off + i * ProgramHeaderSize .. off + i * ProgramHeaderSize + ProgramHeaderSize]
  {
    TableEntriesAt(buf, off, n, end, phs);
    forall i | 0 <= i < |phs|
      ensures EncodeProgramHeader(phs[i])
              == buf[off + i * ProgramHeaderSize .. off + i * ProgramHeaderSize + ProgramHeaderSize]
    {
      ProgramHeaderBytesRoundTrip(buf[off + i * ProgramHeaderSize .. off + i * ProgramHeaderSize + ProgramHeaderSize]);
    }
  }

  /**
   `Parse` is a pure function of the bytes it reads: two buffers of the same
   length that agree on the header and, when the first is well formed, on the
   table range its raw header names, parse alike. No other byte of the buffer,
   and none beyond it, matters.
   */
  lemma ParseReadsOnlyHeaderAndTable(buf: seq<Byte>, other: seq<Byte>)
    requires |other| == |buf|
    requires |buf| >= HeaderSize ==> other[..HeaderSize] == buf[..HeaderSize]
    requires WellFormed(buf) ==>
      var phoff := FromLe(buf[PhoffOffset..PhoffOffset + 8]);
      other[phoff..RawTableEnd(buf)] == buf[phoff..RawTableEnd(buf)]
    ensures Parse(other) == Parse(buf)
  {
    if |buf| >= HeaderSize {
      HeaderFieldsAt(buf);
      HeaderFieldsAt(other);
    }
  }
}
