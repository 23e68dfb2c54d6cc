/**
 `Elf::parse` as kernel/elf.rs writes it, kept beside the checked `Elf.Parse`
 to show what the missing checks allow.

 The code returns no error. It makes a header reference to the start of the
 buffer without checking the buffer's length or any header field, and its only
 check is the `buf[e_phoff]` index (kernel/elf.rs:19), which panics when
 `e_phoff >= buf.len()`; otherwise it builds the program-header slice from
 that byte without checking where it ends. Both let the returned view reach
 memory past the end of the buffer. To describe such accesses, `after` stands
 for whatever memory happens to follow the buffer.
 */
module ElfAsWritten {
  import opened Bytes
  import opened ElfLayout
  import Elf

  /**
   What the unchecked parse produces: a panic from the `buf[e_phoff]` index,
   after reading memory up to `readEnd` (the `e_phoff` field, bytes 32..40,
   is read through the header reference first), or a view whose header
   reference spans the first 64 bytes of memory and whose table covers bytes
   `tableStart .. tableEnd` of memory.
   */
  datatype Outcome =
    | Panics(readEnd: nat)
    | View(header: Header, tableStart: nat, tableEnd: nat)

  /** Models `Elf::parse` as written, over the buffer followed by `after` in memory. */
  function ParseAsWritten(buf: seq<Byte>, after: seq<Byte>): (r: Outcome)
    requires |buf| + |after| >= HeaderSize
    ensures r.Panics? <==> FromLe((buf + after)[PhoffOffset..PhoffOffset + 8]) >= |buf|
    ensures r.Panics? ==> r.readEnd == PhoffOffset + 8
    ensures r.View? ==>
      && r.tableStart == FromLe((buf + after)[PhoffOffset..PhoffOffset + 8]) < |buf|
      && r.tableEnd - r.tableStart == FromLe((buf + after)[PhnumOffset..PhnumOffset + 2]) * ProgramHeaderSize
  {
    var mem := buf + after;
    var h := DecodeHeader(mem[..HeaderSize]);
    assert mem[..HeaderSize][PhoffOffset..PhoffOffset + 8] == mem[PhoffOffset..PhoffOffset + 8];
    assert mem[..HeaderSize][PhnumOffset..PhnumOffset + 2] == mem[PhnumOffset..PhnumOffset + 2];
    if h.phoff >= |buf| then Panics(PhoffOffset + 8)
    else View(h, h.phoff, Elf.TableEnd(h))
  }

  /**
   One past the last byte of memory the outcome reaches: what was read before
   a panic, or, for a view, its header and then its table.
   */
  function Footprint(r: Outcome): (end: nat)
  {
    match r
    case Panics(readEnd) => readEnd
    case View(_, tableStart, tableEnd) =>
      if tableEnd > tableStart && tableEnd > HeaderSize then tableEnd else HeaderSize
  }

  /**
   The unchecked parse reaches past the end of `buf`: it reads past it before
   panicking, or hands out a view whose header or table extends past it.
   */
  predicate ReachesPastBuffer(buf: seq<Byte>, after: seq<Byte>)
    requires |buf| + |after| >= HeaderSize
  {
    Footprint(ParseAsWritten(buf, after)) > |buf|
  }

  /**
   On an image `Elf.Parse` accepts, the unchecked parse panics only for an
   empty table placed at the very end; otherwise the two agree on the header
   and the table. Either way nothing it reads or reaches lies past the buffer.
   */
  lemma AsWrittenAgreesOnWellFormed(buf: seq<Byte>, after: seq<Byte>, v: Elf.ElfView)
    requires Elf.Parse(buf) == Elf.Ok(v)
    ensures ParseAsWritten(buf, after).Panics? <==> v.header.phoff >= |buf|
    ensures ParseAsWritten(buf, after).View? ==>
      ParseAsWritten(buf, after) == View(v.header, v.header.phoff, Elf.TableEnd(v.header))
    ensures !ReachesPastBuffer(buf, after)
  {
    assert (buf + after)[..HeaderSize] == buf[..HeaderSize];
  }

  /**
   A buffer holding only the first `cut` bytes of a header (with `e_phoff`
   below `cut`): the index passes, and the header reference of the view the
   unchecked parse returns extends beyond the buffer, while `Elf.Parse`
   rejects the buffer as too short.
   */
  lemma ShortBufferViewReachesPastItsEnd(h: Header, cut: nat)
    requires h.phoff < cut < HeaderSize
    ensures ReachesPastBuffer(EncodeHeader(h)[..cut], EncodeHeader(h)[cut..])
    ensures Elf.Parse(EncodeHeader(h)[..cut]) == Elf.Err(Elf.TooShort)
  {
    var image := EncodeHeader(h);
    HeaderRoundTrip(h);
    assert image[..cut] + image[cut..] == image;
    assert image[..HeaderSize] == image;
  }

  /**
   A buffer passing the header checks whose table starts inside it but ends
   beyond it: the index `buf[e_phoff]` is in bounds, so the unchecked parse
   succeeds with a table running past the buffer, while `Elf.Parse` rejects it.
   */
  lemma TableRunsPastBuffer(buf: seq<Byte>, after: seq<Byte>)
    requires Elf.HeaderAccepted(buf)
    requires FromLe(buf[PhoffOffset..PhoffOffset + 8]) < |buf| < Elf.RawTableEnd(buf)
    ensures ReachesPastBuffer(buf, after)
    ensures ParseAsWritten(buf, after).View?
    ensures ParseAsWritten(buf, after).tableEnd == Elf.RawTableEnd(buf)
    ensures Elf.Parse(buf) == Elf.Err(Elf.TableOutOfBounds)
  {
    Elf.ParseRejects(buf);
    assert (buf + after)[PhoffOffset..PhoffOffset + 8] == buf[PhoffOffset..PhoffOffset + 8];
    assert (buf + after)[PhnumOffset..PhnumOffset + 2] == buf[PhnumOffset..PhnumOffset + 2];
  }

  /**
   Any buffer too short to hold `e_phoff` is read past its end by the
   unchecked parse, whether it then panics or hands out a view.
   */
  lemma ShortBufferAlwaysReadPast(buf: seq<Byte>, after: seq<Byte>)
    requires |buf| < PhoffOffset + 8 && |buf| + |after| >= HeaderSize
    ensures ReachesPastBuffer(buf, after)
    ensures Elf.Parse(buf) == Elf.Err(Elf.TooShort)
  {
  }

  /** ELF identification of a little-endian 64-bit object, version 1. */
  const SampleIdent: Ident := [0x7f, 0x45, 0x4c, 0x46, 2, 1, 1, 0, 0, 0, 0, 0, 0, 0, 0, 0]

  /** An x86-64 executable header with the given table position. */
  function SampleHeader(phoff: U64, phnum: U16): (h: Header)
    ensures h.ident[..4] == Elf.ElfMagic && h.ident[4] == Elf.ElfClass64 && h.ident[5] == Elf.ElfData2Lsb
    ensures h.machine == Elf.MachineX86_64 && h.phoff == phoff && h.phnum == phnum
  {
    Header(SampleIdent, 2, 62, 1, 0x40_1000, phoff, 0, 0, 64, 56, phnum, 64, 0, 0)
  }

  /**
   A concrete short buffer: the first 40 bytes of a header with `e_phoff` 0.
   The header reference of the unchecked view spans bytes 40..64, past the
   buffer, and the parse itself reads `e_phnum` from bytes 56..58 there;
   `Elf.Parse` rejects it as too short.
   */
  lemma ShortHeaderWitness()
    ensures ReachesPastBuffer(EncodeHeader(SampleHeader(0, 0))[..40], EncodeHeader(SampleHeader(0, 0))[40..])
    ensures Elf.Parse(EncodeHeader(SampleHeader(0, 0))[..40]) == Elf.Err(Elf.TooShort)
  {
    ShortBufferViewReachesPastItsEnd(SampleHeader(0, 0), 40);
  }

  /**
   A concrete overrun: a lone 64-byte header placing `e_phnum >= 1` entries at
   offset 63. Index 63 is in bounds, so the unchecked view's table runs to byte
   `63 + 56 * e_phnum` (119 for one entry); `Elf.Parse` rejects it.
   */
  lemma TableOverrunWitness(phnum: U16)
    requires phnum >= 1
    ensures ReachesPastBuffer(EncodeHeader(SampleHeader(63, phnum)), [])
    ensures Elf.Parse(EncodeHeader(SampleHeader(63, phnum))) == Elf.Err(Elf.TableOutOfBounds)
  {
    var image := EncodeHeader(SampleHeader(63, phnum));
    HeaderRoundTrip(SampleHeader(63, phnum));
    assert image[..HeaderSize] == image;
    HeaderFieldsAt(image);
    assert image[0..4] == image[..IdentSize][..4];
    TableRunsPastBuffer(image, []);
  }
}
