# relf: an ELF64 inspector, modelled in Dafny

relf reads a whole ELF64 file into a byte buffer and prints one view of
it, chosen by the first character of its mode flag:

- `h`: the file header (`Elf64_Ehdr`);
- `p`: the program header table;
- `s`: the section header table;
- `S`: the strings of the section-name string table.

Every view is a decoding of fixed-layout little-endian records found at
byte offsets inside that one buffer. This project models that decoding
over an immutable `seq<Byte>` and proves what each decoder and each walk
visits and returns.

- `little_endian.dfy` (`LittleEndian`): unsigned little-endian fields of 2, 4 and 8
  bytes, and their encoders. Both round trips are proved.
- `file_header.dfy` (`ElfFileHeader`): the 64-byte file header, decoded from offset
  0 at the System V ABI offsets. It comes with its encoder and both round trips.
- `program_headers.dfy` (`ElfProgramHeaders`): the 56-byte `Elf64_Phdr` record,
  with its encoder and round trips. The table walk is a `for` loop that advances
  the record cursor by `sizeof(Elf64_Phdr)` at each step.
- `section_headers.dfy` (`ElfSectionHeaders`): the 64-byte `Elf64_Shdr` record,
  with its encoder and round trips. It also has the table walk and the direct
  indexing `shdr[e_shstrndx]` that locates the string table.
- `string_table.dfy` (`ElfStringTable`): `strlen` as `CStringAt`, the walk
  `StringTableFrom` as a specification, and the `while` loop `WalkStringTable`
  proved equal to it. Lemmas cover offsets, strings, stopping and
  reconstruction.
- `inspector.dfy` (`ElfInspector`): the mode dispatch, the exit status, and
  `Inspect`. `Inspect` checks every bound before it reads.

Byte order: the source reads each field through a pointer cast, in the
host's byte order, and never looks at `e_ident[EI_DATA]`. The model fixes
that order to little-endian (`ELFDATA2LSB`).

Bounds: the source checks no offset or count against the file size. The
decoders and walks therefore take the needed bounds as preconditions:

- a record must fit in the buffer, and a table of `n > 0` records must fit
  as a whole; an empty table is never read, so its offset may be anything;
- the string-table region must be empty, or have a NUL at or after its last
  byte (`TableTerminated`). This condition is enough for every `strlen` of the
  walk to stay inside the buffer.

`Inspect` reads, per mode, the header fields the source reads and no more.
Before the dispatch it reads `e_phoff` and `e_shoff` (bytes 32..48). Mode `h`
then needs the whole 64-byte header. Mode `p` needs `e_phnum` (bytes 56..58)
and mode `s` needs `e_shnum` (bytes 60..62). Mode `S` needs `e_shstrndx`
(bytes 62..64), and of record `e_shstrndx` only `sh_offset` and `sh_size`.
When one of these bytes or a non-empty table lies outside the buffer, or the
string-table region fails `TableTerminated`, `Inspect` returns
`Failed(Truncated)`.

Section names: the section view prints `sh_name` as a raw number
(main.c:66). Descriptions of the tool say that names are resolved through
the string table, but the code does not do that. The model follows the
code: `SectionHeader.name` stays the raw offset.

## Model

| member | source | states |
|---|---|---|
| `LittleEndian.LeUint` | main.c:95-97 | a field read from `n` bytes is below 256^n |
| `LittleEndian.LeBytes` | main.c:95-97 | encoding a value as a field gives exactly `n` bytes |
| `LittleEndian.LeUintOfLeBytes` | main.c:95-97 | encoding a value that fits in `n` bytes, then reading it back, gives the value |
| `LittleEndian.LeBytesOfLeUint` | main.c:95-97 | reading `n` bytes as a value, then encoding it in `n` bytes, gives the same bytes |
| `LittleEndian.U16At` | main.c:20-21 | a u16 field is below 2^16, and its two bytes at the offset re-encode to themselves |
| `LittleEndian.U32At` | main.c:22 | a u32 field is below 2^32, and its four bytes at the offset re-encode to themselves |
| `LittleEndian.U64At` | main.c:23-25 | a u64 field is below 2^64, and its eight bytes at the offset re-encode to themselves |
| `ElfFileHeader.DecodeFileHeader` | main.c:95 | the header is read from buffer offset 0; every field fits its ELF64 width; `e_ident` is the first 16 bytes, in order |
| `ElfFileHeader.EncodeFileHeader` | main.c:95 | the reference on-disk layout of `Elf64_Ehdr` that the cast reads: exactly 64 bytes |
| `ElfFileHeader.EncodeDecodeFileHeader` | main.c:13-32 | decoding loses nothing: the decoded fields re-encode to the first 64 bytes of the file |
| `ElfFileHeader.DecodeEncodeFileHeader` | main.c:13-32 | every well-formed header decodes back from its encoding, so the field offsets do not overlap |
| `ElfProgramHeaders.DecodeProgramHeader` | main.c:39-45 | a program header record decoded at any in-bounds offset has every field within its ELF64 width |
| `ElfProgramHeaders.EncodeDecodeProgramHeader` | main.c:39-45 | the decoded record re-encodes to its 56 bytes |
| `ElfProgramHeaders.DecodeEncodeProgramHeader` | main.c:39-45 | every well-formed record decodes back from its 56-byte encoding |
| `ElfProgramHeaders.WalkProgramHeaders` | main.c:36-49 | the walk visits exactly `e_phnum` records; record `i` is decoded from byte `e_phoff + 56*i`; with `e_phnum` 0 it reads nothing and accepts any `e_phoff` |
| `ElfSectionHeaders.DecodeSectionHeader` | main.c:66-75 | a section header record decoded at any in-bounds offset has every field within its ELF64 width |
| `ElfSectionHeaders.EncodeDecodeSectionHeader` | main.c:66-75 | the decoded record re-encodes to its 64 bytes |
| `ElfSectionHeaders.DecodeEncodeSectionHeader` | main.c:66-75 | every well-formed record decodes back from its 64-byte encoding |
| `ElfSectionHeaders.WalkSectionHeaders` | main.c:63-79 | the walk visits exactly `e_shnum` records; record `i` is decoded from byte `e_shoff + 64*i`; with `e_shnum` 0 it reads nothing and accepts any `e_shoff` |
| `ElfSectionHeaders.IndexedExtent` | main.c:52-55 | of record `&shdr[e_shstrndx]` (main.c:114), indexed without a check against `e_shnum`, only `sh_offset` (bytes 24..32) and `sh_size` (bytes 32..40) are read; each is the u64 those bytes encode |
| `ElfSectionHeaders.IndexedExtentInTable` | main.c:97-114 | when `e_shstrndx < e_shnum`, the extent read at byte `e_shoff + 64*e_shstrndx` is the `sh_offset` and `sh_size` of entry `e_shstrndx` of the section-table walk |
| `ElfStringTable.CStringAt` | main.c:58 | what `strlen` measures: the maximal run of non-NUL bytes at the position, followed by a NUL inside the buffer |
| `ElfStringTable.CStringAtIs` | main.c:56-58 | any NUL-terminated run at a position is the one `CStringAt` reads, so the string at a position is unique |
| `ElfStringTable.StringTableFrom` | main.c:55-59 | the walk emits something exactly when the cursor is below `sh_size`; with `sh_size == 0` it emits nothing |
| `ElfStringTable.WalkShape` | main.c:55-58 | every emitted offset is at least the start cursor and below `sh_size`; the first is the start cursor; each string is the NUL-terminated run at `sh_offset + offset`; each next offset is the previous offset plus the string's length plus 1; the walk stops at the first cursor at or past `sh_size` |
| `ElfStringTable.OffsetsIncrease` | main.c:58 | offsets that each follow the previous string and its NUL strictly increase |
| `ElfStringTable.WalkOffsetsIncrease` | main.c:55-58 | the offsets the walk over a region emits strictly increase |
| `ElfStringTable.WalkJoinsBack` | main.c:51-61 | the walk loses nothing: the emitted strings, each followed by its NUL, joined together, are the region's bytes from the cursor to where the walk stopped |
| `ElfStringTable.WalkStringTable` | main.c:51-61 | the `while` loop over `total_len` emits exactly the specification walk from cursor 0 |
| `ElfStringTable.ThreeStrings` | main.c:51-61 | the table `"abc\0de\0\0"` yields (0, "abc"), (4, "de") and (7, "") |
| `ElfInspector.ModeOf` | main.c:99-117 | 'h', 'p', 's' and 'S' select the header, program header, section header and string table views; any other first character, or an empty flag, selects none |
| `ElfInspector.ExitStatus` | main.c:116-120 | the exit status is 0 exactly when a view was shown, and EXIT_FAILURE otherwise |
| `ElfInspector.Inspect` | main.c:95-120 | `e_phoff` and `e_shoff` are always read first, and a buffer of under 48 bytes fails with Truncated. An unknown mode then fails with UnknownMode. Mode `h` shows the decoded 64-byte header. Mode `p` shows the `e_phnum` records at `e_phoff`, and mode `s` the `e_shnum` records at `e_shoff`; an empty table is shown at any offset. Mode `S` shows the string-table walk over the `sh_offset`/`sh_size` of section record `e_shstrndx`. A mode whose header fields, non-empty table or string region are not all inside the buffer fails with Truncated |

## Left out

- File access (`fopen`, `stat`, `fread`, `fclose`, main.c:84-93) and the stack buffer: the model receives the file contents as a `seq<Byte>`.
- All `printf` output: the text layout, the `%03lu`/`%02x` formats and the `(uint32_t)` casts in `DUMP` (main.c:8-11). These are presentation only. The value printed for a field is that field mod 2^32.
- `dump_phdr` prints seven of the eight `Elf64_Phdr` fields and skips `p_paddr` (main.c:39-45). The model's records hold all eight fields, because the pointer cast decodes all of them. Which fields are printed is presentation.
- Byte order taken from `e_ident[EI_DATA]`, and ELF32: the source handles neither. The model is fixed to little-endian ELF64.
- Validation of the ELF magic or class, and any use of `e_phentsize`/`e_shentsize`: the source does none of these. Its walks step by the struct sizes 56 and 64.
- Section-name resolution through the string table: the source does not do it.
- The extended section index (`e_shstrndx == SHN_XINDEX`, with the real index in section 0's `sh_link`): the source indexes with `e_shstrndx` as it is, and so does the model.
- Out-of-bounds reads: there are no such reads in the model. The decoders and walks exclude them by precondition. `Inspect` returns `Failed(Truncated)` where one of the bounds above fails; the source's behaviour on such inputs is undefined.
- A missing flag or file argument (`argv[1]`, `argv[2]` absent): the model takes the flag string as given. An empty flag, whose first character in C is the terminating NUL, gives the same outcome as any unrecognised character.
