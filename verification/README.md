# ELF64 executable parser of the kerla kernel, in Dafny

This project models `Elf` in `kernel/elf.rs`, the kernel's ELF64 parser.
`Elf::parse` takes a borrowed byte buffer holding an executable image. It
yields a view that exposes two things:

- `Elf::entry`: the entry address stored in the header's `e_entry`.
- `Elf::program_headers`: the program-header table, `e_phnum` entries of 56
  bytes each, starting at byte offset `e_phoff`.

The Rust code builds the view by reinterpreting the buffer's memory
(`transmute`, `from_raw_parts`). Its TODOs say that length, magic and
`e_machine` checks are intended. The model states that intended behaviour:

- `Elf.Parse` is a pure function from `seq<Byte>` to `Result<ElfView>`.
- Once the buffer holds the 64-byte header, it decodes the header and checks
  its fields, in this order: the magic is `7f 'E' 'L' 'F'`; the class is
  ELFCLASS64; the data encoding is ELFDATA2LSB; `e_machine` is EM_X86_64 (62,
  the kernel's target); and the table fits, i.e.
  `e_phoff + e_phnum * 56 <= |buf|`. Only when every check passes does it
  decode the table.
- Decoding is field by field, little-endian, at the offsets the System V ABI
  gives (chapter 4 "ELF Header" and chapter 5 "Program Header" of the generic
  specification).
- Every failure is one `ParseError` reason. The error type is this model's
  own: the code as written returns no error. Its only check is the
  `buf[e_phoff]` index (kernel/elf.rs:19), which panics when
  `e_phoff >= buf.len()`; otherwise it returns a view.
- `Elf.Entry` and `Elf.ProgramHeaders` model `Elf::entry` and
  `Elf::program_headers`; `ElfLayout.DecodeHeader` and
  `ElfLayout.DecodeProgramHeader` model the casts at kernel/elf.rs:16 and
  kernel/elf.rs:19. Their contracts are stated by the lemmas about them in the
  table below.

The code as written is modelled as well, in `ElfAsWritten`, and is compared
with `Elf.Parse` under "## Findings".

Files and modules:

- `bytes.dfy`, module `Bytes`: byte and unsigned-integer types, and
  little-endian decoding and encoding with both round trips.
- `elf_layout.dfy`, module `ElfLayout`: the ELF64 `Header` and `ProgramHeader`
  records and their 64- and 56-byte images, with round trips in both
  directions.
- `elf.dfy`, module `Elf`: `Parse`, `Entry`, `ProgramHeaders`, the table
  codec, and the properties of the parser.
- `elf_as_written.dfy`, module `ElfAsWritten`: the unchecked parse, and inputs
  on which it reaches past the buffer.

Choices where the code leaves the behaviour open:

- Apart from the `buf[e_phoff]` index at kernel/elf.rs:19, which panics when
  `e_phoff >= buf.len()`, the code checks nothing; the TODOs at
  kernel/elf.rs:14-15 call for the checks. `Elf.Parse` has them in place; `ElfAsWritten.ParseAsWritten`
  follows the code as written.
- The table stride is the size of goblin's `ProgramHeader`, a fixed 56 bytes,
  whatever `e_phentsize` says. The model uses 56, as the code does.
- The TODOs name the magic and `e_machine` checks. The two other `e_ident`
  checks, the class (ELFCLASS64) and the data encoding (ELFDATA2LSB), fall
  under the "etc." of kernel/elf.rs:15. They are included because the
  reinterpretation as a `goblin::elf64` header is only correct for a 64-bit,
  little-endian image on the little-endian target.

## Model

| member | source | states |
|---|---|---|
| `Bytes.FromLe` | kernel/elf.rs:16 | the number read from an n-byte little-endian field is below 256^n, so it fits the field's width |
| `Bytes.FromLeToLe` | kernel/elf.rs:16 | reading back the n little-endian bytes written for a value gives that value |
| `Bytes.ToLeFromLe` | kernel/elf.rs:16 | writing back the value read from any n bytes gives those same bytes |
| `ElfLayout.HeaderFieldsAt` | kernel/elf.rs:16 | in the header `DecodeHeader` decodes from a buffer's first 64 bytes, `e_ident` is bytes 0..16, and `e_machine`, `e_entry`, `e_phoff`, `e_phnum` are the little-endian values at bytes 18, 24, 32, 56 |
| `ElfLayout.HeaderRoundTrip` | kernel/elf.rs:16 | decoding the 64-byte image of any header gives that header back |
| `ElfLayout.HeaderBytesRoundTrip` | kernel/elf.rs:16 | every 64-byte sequence is the image of the header it decodes to, so the header view loses no byte |
| `ElfLayout.ProgramHeaderRoundTrip` | kernel/elf.rs:17-21 | decoding the 56-byte image of any program header gives it back |
| `ElfLayout.ProgramHeaderBytesRoundTrip` | kernel/elf.rs:17-21 | every 56-byte sequence is the image of the program header it decodes to |
| `Elf.DecodeTable` | kernel/elf.rs:17-21 | a table image of n entries decodes to exactly n program headers |
| `Elf.TableRoundTrip` | kernel/elf.rs:17-21 | decoding an encoded table gives the same program headers in the same order |
| `Elf.TableBytesRoundTrip` | kernel/elf.rs:17-21 | every table image of n entries is the encoding of what it decodes to |
| `Elf.TableEntriesAt` | kernel/elf.rs:17-21 | entry i of the table at offset `off` of a buffer lies inside the buffer and is decoded from bytes `off + 56i .. off + 56i + 56` |
| `Elf.Parse` | kernel/elf.rs:13-27 | parsing succeeds exactly when the raw bytes pass all checks: length at least 64, magic, class, data encoding, machine, and `e_phoff + e_phnum * 56 <= |buf|`; on success the header is decoded from bytes 0..64 and the table from its range, which lies inside the buffer |
| `Elf.ParseRejects` | kernel/elf.rs:14-15 | a rejected buffer fails with the first check it fails, in the order size, magic, class, data encoding, machine, table bounds; a too-short buffer is always rejected before any header byte is read |
| `Elf.EntryOfParse` | kernel/elf.rs:29-31 | on success, `Entry` (the model of `Elf::entry`) is the little-endian u64 at bytes 24..32 of the buffer |
| `Elf.ProgramHeadersOfParse` | kernel/elf.rs:33-35 | on success, `ProgramHeaders` (the model of `Elf::program_headers`) has exactly `e_phnum` entries (u16 at bytes 56..58); entry i is `DecodeProgramHeader` of bytes `e_phoff + 56i .. e_phoff + 56i + 56` of the buffer, in table order, all inside the buffer |
| `Elf.ParseImage` | kernel/elf.rs:13-35 | parsing the image of a loadable header, any gap, its encoded table and any trailing bytes returns exactly that header and those program headers, hence the encoded entry and table |
| `Elf.ParseReencodes` | kernel/elf.rs:16 | the header of whatever parses re-encodes to the very bytes it came from, bytes 0..64 of the buffer |
| `Elf.ParseReencodesTable` | kernel/elf.rs:17-21 | program header i of whatever parses re-encodes to the very bytes it came from, bytes `e_phoff + 56i .. e_phoff + 56i + 56` of the buffer |
| `Elf.TableEntriesReencode` | kernel/elf.rs:17-21 | every entry decoded from a table inside a buffer encodes back to its own 56 bytes of that buffer |
| `Elf.ParseReadsOnlyHeaderAndTable` | kernel/elf.rs:7-13 | the result depends only on the buffer's length, its 64 header bytes and, for a well-formed buffer, the bytes of the table range its raw header names; no other byte, and none beyond the buffer, affects it |
| `ElfAsWritten.ParseAsWritten` | kernel/elf.rs:13-27 | the unchecked parse panics exactly when `e_phoff` is not an index of the buffer, having read memory up to byte 40 (the `e_phoff` field) first; otherwise its table starts at `e_phoff` and spans `56 * e_phnum` bytes, however long the buffer is |
| `ElfAsWritten.AsWrittenAgreesOnWellFormed` | kernel/elf.rs:16-22 | on a buffer `Elf.Parse` accepts, the unchecked parse panics exactly when `e_phoff = |buf|` (an empty table at the very end); otherwise it yields the same header and table range; in both cases it reaches no byte past the buffer |
| `ElfAsWritten.ShortBufferViewReachesPastItsEnd` | kernel/elf.rs:14-16 | a buffer holding only the first `cut < 64` bytes of a header whose `e_phoff` is below `cut` passes the index check, and the header reference of the unchecked view reaches past its end; it is rejected by `Elf.Parse` as too short |
| `ElfAsWritten.TableRunsPastBuffer` | kernel/elf.rs:17-21 | any buffer that passes the header checks and whose table starts inside it but ends beyond it passes the `buf[e_phoff]` index, so the unchecked view's table ends at `e_phoff + 56 * e_phnum`, past the buffer; `Elf.Parse` rejects it as out of bounds |
| `ElfAsWritten.ShortBufferAlwaysReadPast` | kernel/elf.rs:16-19 | every buffer shorter than 40 bytes is reached past its end by the unchecked parse: it reads `e_phoff` (bytes 32..40) past the end whether it then panics or hands out a view; `Elf.Parse` rejects it as too short |
| `ElfAsWritten.ShortHeaderWitness` | kernel/elf.rs:14-16 | concrete input: the first 40 bytes of an x86-64 header with `e_phoff` 0; the unchecked view's header reference reaches past the buffer (the parse reads `e_phnum` at bytes 56..58 there), and `Elf.Parse` rejects it as too short |
| `ElfAsWritten.TableOverrunWitness` | kernel/elf.rs:17-21 | concrete input: a lone 64-byte x86-64 header with `e_phoff` 63 and any `e_phnum >= 1`; the unchecked view's table reaches past the buffer, and `Elf.Parse` rejects it as out of bounds |

## Findings

| source | as written | input that shows it | evidently intended | confidence | as-written member | corrected member |
|---|---|---|---|---|---|---|
| kernel/elf.rs:14-16 | the start of `buf` is reinterpreted as a 64-byte header whatever the buffer's length | a 40-byte buffer holding the first 40 bytes of a header with `e_phoff` 0: the `&Header` made at line 16 spans bytes 40..64, past the buffer, and line 20 reads `e_phnum` from bytes 56..58 there | reject buffers shorter than the header (the TODO on line 14) | high; not executed | `ElfAsWritten.ShortHeaderWitness` | `Elf.ParseRejects` |
| kernel/elf.rs:17-21 | only the table's first byte is bounds-checked (`&buf[e_phoff]`); the slice then spans `56 * e_phnum` bytes unchecked | a 64-byte x86-64 header with `e_phoff` 63 and `e_phnum` 1: index 63 is in bounds, and the table runs to byte 119 | reject images whose table does not fit, i.e. `e_phoff + e_phnum * 56 > len` | high; not executed | `ElfAsWritten.TableOverrunWitness` | `Elf.Parse` |

The general forms of the two rows are `ElfAsWritten.ShortBufferViewReachesPastItsEnd`
and `ElfAsWritten.TableRunsPastBuffer`. The two rows are the missing checks that the TODOs at kernel/elf.rs:14-15
announce. `Elf.Parse` and the rest of the model use the corrected behaviour.

The corrected bound differs from the as-written index check in one edge case.
With `e_phnum = 0` and `e_phoff = |buf|`, the as-written code panics on
`buf[e_phoff]` although the table is empty. `Elf.Parse` accepts that image,
since its empty table lies within the buffer.

## Left out

- kernel/boot.rs (boot orchestration), kernel/syscalls/dup2.rs (descriptor
  duplication, which delegates to a table that is not part of this model) and
  packages/dropbear.py (a user-space build script) are not part of this model.
- `UserVAddr::new`, which `Elf::entry` applies to `e_entry`, is not part of
  this model. `Entry` returns the raw 64-bit value.
- The layout of goblin's `Header` and `ProgramHeader` is not part of this
  model. The records follow the standard ELF64 layout instead.
- The alignment that the pointer casts need, and the Rust lifetime tying the
  view to the buffer, are not modelled. The model is a pure function over an
  immutable sequence.
- `e_phentsize`, `e_type`, `e_version`, `e_ident[EI_VERSION]` and the OS ABI
  byte are decoded but not checked, as in the code. The table stride is the
  fixed 56 bytes.
- Mapping segments into an address space and selecting `PT_LOAD` entries
  happen during process creation, outside `kernel/elf.rs`, and are not
  modelled.
- Machine-word arithmetic is not modelled. The bound `e_phoff + e_phnum * 56`
  is computed exactly. An implementation in 64-bit arithmetic must use a
  checked addition to get the same answer.
- ElfAsWritten.ParseAsWritten: requires the caller to supply, as `after`,
  the memory that follows the buffer at least up to the end of the header
  (`|buf| + |after| >= 64`). What an unchecked read finds there is not
  determined by the buffer. The table bytes themselves are described only
  by their range, not decoded.
