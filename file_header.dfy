/**
 * The ELF64 file header (Elf64_Ehdr): the first 64 bytes of the file, read
 * in place by casting the start of the buffer to a header pointer.
 *
 * Byte layout (System V ABI, chapter "Object Files", section "ELF Header"):
 *   e_ident[16] at 0, e_type u16 at 16, e_machine u16 at 18, e_version u32 at 20,
 *   e_entry u64 at 24, e_phoff u64 at 32, e_shoff u64 at 40, e_flags u32 at 48,
 *   e_ehsize, e_phentsize, e_phnum, e_shentsize, e_shnum, e_shstrndx: u16 at 52..62.
 */
module ElfFileHeader {
  import opened LittleEndian

  /** EI_NIDENT: the number of identification bytes. */
  const IdentSize: nat := 16
  /** sizeof(Elf64_Ehdr). */
  const FileHeaderSize: nat := 64
  /** Byte positions of the fields the program, section and string-table views read. */
  const PhoffAt: nat := 32
  const ShoffAt: nat := 40
  const PhnumAt: nat := 56
  const ShnumAt: nat := 60
  const ShstrndxAt: nat := 62

  datatype FileHeader = FileHeader(
    ident: seq<Byte>,
    objType: nat,
    machine: nat,
    version: nat,
    entry: nat,
    phoff: nat,
    shoff: nat,
    flags: nat,
    ehsize: nat,
    phentsize: nat,
    phnum: nat,
    shentsize: nat,
    shnum: nat,
    shstrndx: nat)
  {
    /** Every field fits the width the ELF64 layout gives it. */
    predicate Valid() {
      && |ident| == IdentSize
      && objType < U16Limit && machine < U16Limit && version < U32Limit
      && entry < U64Limit && phoff < U64Limit && shoff < U64Limit
      && flags < U32Limit
      && ehsize < U16Limit && phentsize < U16Limit && phnum < U16Limit
      && shentsize < U16Limit && shnum < U16Limit && shstrndx < U16Limit
    }
  }

  /** The file header, decoded from buffer offset 0. */
  function DecodeFileHeader(buf: seq<Byte>): (h: FileHeader)
    requires FileHeaderSize <= |buf|
    ensures h.Valid()
    ensures h.ident == buf[..IdentSize]
  {
    FileHeader(
      buf[..IdentSize],
      U16At(buf, 16), U16At(buf, 18), U32At(buf, 20),
      U64At(buf, 24), U64At(buf, PhoffAt), U64At(buf, ShoffAt),
      U32At(buf, 48),
      U16At(buf, 52), U16At(buf, 54), U16At(buf, PhnumAt),
      U16At(buf, 58), U16At(buf, ShnumAt), U16At(buf, ShstrndxAt))
  }

  /** The 64 bytes that hold `h` on disk. */
  function EncodeFileHeader(h: FileHeader): (bytes: seq<Byte>)
    requires h.Valid()
    ensures |bytes| == FileHeaderSize
  {
    h.ident
      + LeBytes(h.objType, 2) + LeBytes(h.machine, 2) + LeBytes(h.version, 4)
      + LeBytes(h.entry, 8) + LeBytes(h.phoff, 8) + LeBytes(h.shoff, 8)
      + LeBytes(h.flags, 4)
      + LeBytes(h.ehsize, 2) + LeBytes(h.phentsize, 2) + LeBytes(h.phnum, 2)
      + LeBytes(h.shentsize, 2) + LeBytes(h.shnum, 2) + LeBytes(h.shstrndx, 2)
  }

  /** Decoding loses nothing: the decoded header re-encodes to the first 64 bytes. */
  lemma EncodeDecodeFileHeader(buf: seq<Byte>)
    requires FileHeaderSize <= |buf|
    ensures EncodeFileHeader(DecodeFileHeader(buf)) == buf[..FileHeaderSize]
  {
    JoinSlices(buf, 0, 16, 18);
    JoinSlices(buf, 0, 18, 20);
    JoinSlices(buf, 0, 20, 24);
    JoinSlices(buf, 0, 24, 32);
    JoinSlices(buf, 0, 32, 40);
    JoinSlices(buf, 0, 40, 48);
    JoinSlices(buf, 0, 48, 52);
    JoinSlices(buf, 0, 52, 54);
    JoinSlices(buf, 0, 54, 56);
    JoinSlices(buf, 0, 56, 58);
    JoinSlices(buf, 0, 58, 60);
    JoinSlices(buf, 0, 60, 62);
    JoinSlices(buf, 0, 62, 64);
  }

  /** The identification bytes and the u16/u32 fields before e_entry read back from the encoding. */
  lemma DecodeEncodeIdent(h: FileHeader)
    requires h.Valid()
    ensures var e := EncodeFileHeader(h);
      && e[..16] == h.ident
      && U16At(e, 16) == h.objType && U16At(e, 18) == h.machine && U32At(e, 20) == h.version
  {
    var e := EncodeFileHeader(h);
    FieldLimits();
    SliceIs(e, 16, LeBytes(h.objType, 2));
    ReadBack(e, 16, 2, h.objType);
    SliceIs(e, 18, LeBytes(h.machine, 2));
    ReadBack(e, 18, 2, h.machine);
    SliceIs(e, 20, LeBytes(h.version, 4));
    ReadBack(e, 20, 4, h.version);
  }

  /** The u64 fields and e_flags read back from the encoding. */
  lemma DecodeEncodeAddresses(h: FileHeader)
    requires h.Valid()
    ensures var e := EncodeFileHeader(h);
      && U64At(e, 24) == h.entry && U64At(e, 32) == h.phoff && U64At(e, 40) == h.shoff
      && U32At(e, 48) == h.flags
  {
    var e := EncodeFileHeader(h);
    FieldLimits();
    SliceIs(e, 24, LeBytes(h.entry, 8));
    ReadBack(e, 24, 8, h.entry);
    SliceIs(e, 32, LeBytes(h.phoff, 8));
    ReadBack(e, 32, 8, h.phoff);
    SliceIs(e, 40, LeBytes(h.shoff, 8));
    ReadBack(e, 40, 8, h.shoff);
    SliceIs(e, 48, LeBytes(h.flags, 4));
    ReadBack(e, 48, 4, h.flags);
  }

  /** The trailing u16 sizes, counts and index read back from the encoding. */
  lemma DecodeEncodeCounts(h: FileHeader)
    requires h.Valid()
    ensures var e := EncodeFileHeader(h);
      && U16At(e, 52) == h.ehsize && U16At(e, 54) == h.phentsize && U16At(e, 56) == h.phnum
      && U16At(e, 58) == h.shentsize && U16At(e, 60) == h.shnum && U16At(e, 62) == h.shstrndx
  {
    var e := EncodeFileHeader(h);
    FieldLimits();
    SliceIs(e, 52, LeBytes(h.ehsize, 2));
    ReadBack(e, 52, 2, h.ehsize);
    SliceIs(e, 54, LeBytes(h.phentsize, 2));
    ReadBack(e, 54, 2, h.phentsize);
    SliceIs(e, 56, LeBytes(h.phnum, 2));
    ReadBack(e, 56, 2, h.phnum);
    SliceIs(e, 58, LeBytes(h.shentsize, 2));
    ReadBack(e, 58, 2, h.shentsize);
    SliceIs(e, 60, LeBytes(h.shnum, 2));
    ReadBack(e, 60, 2, h.shnum);
    SliceIs(e, 62, LeBytes(h.shstrndx, 2));
    ReadBack(e, 62, 2, h.shstrndx);
  }

  /** Encoding loses nothing: a well-formed header decodes back from its bytes. */
  lemma DecodeEncodeFileHeader(h: FileHeader)
    requires h.Valid()
    ensures DecodeFileHeader(EncodeFileHeader(h)) == h
  {
    DecodeEncodeIdent(h);
    DecodeEncodeAddresses(h);
    DecodeEncodeCounts(h);
  }
}
