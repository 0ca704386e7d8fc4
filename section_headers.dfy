/**
 * The section header table: `e_shnum` Elf64_Shdr records of 64 bytes each,
 * laid out back to back from byte `e_shoff` of the file.
 *
 * Byte layout of one record (System V ABI, chapter "Object Files", section
 * "Sections"): sh_name u32 at 0, sh_type u32 at 4, sh_flags, sh_addr,
 * sh_offset, sh_size u64 at 8..32, sh_link u32 at 40, sh_info u32 at 44,
 * sh_addralign u64 at 48, sh_entsize u64 at 56.
 *
 * `name` stays the raw offset into the section-name string table: the
 * inspector never resolves it to text.
 */
module ElfSectionHeaders {
  import opened LittleEndian

  /** sizeof(Elf64_Shdr): the stride of the walk, not e_shentsize. */
  const SectionHeaderSize: nat := 64

  datatype SectionHeader = SectionHeader(
    name: nat,
    kind: nat,
    flags: nat,
    addr: nat,
    offset: nat,
    size: nat,
    link: nat,
    info: nat,
    addralign: nat,
    entsize: nat)
  {
    /** Every field fits the width the ELF64 layout gives it. */
    predicate Valid() {
      && name < U32Limit && kind < U32Limit
      && flags < U64Limit && addr < U64Limit && offset < U64Limit && size < U64Limit
      && link < U32Limit && info < U32Limit
      && addralign < U64Limit && entsize < U64Limit
    }
  }

  /** The section header whose record starts at byte `at`. */
  function DecodeSectionHeader(buf: seq<Byte>, at: nat): (s: SectionHeader)
    requires at + SectionHeaderSize <= |buf|
    ensures s.Valid()
  {
    SectionHeader(
      U32At(buf, at), U32At(buf, at + 4),
      U64At(buf, at + 8), U64At(buf, at + 16), U64At(buf, at + 24), U64At(buf, at + 32),
      U32At(buf, at + 40), U32At(buf, at + 44),
      U64At(buf, at + 48), U64At(buf, at + 56))
  }

  /** The 64 bytes that hold `s` on disk. */
  function EncodeSectionHeader(s: SectionHeader): (bytes: seq<Byte>)
    requires s.Valid()
    ensures |bytes| == SectionHeaderSize
  {
    LeBytes(s.name, 4) + LeBytes(s.kind, 4)
      + LeBytes(s.flags, 8) + LeBytes(s.addr, 8) + LeBytes(s.offset, 8) + LeBytes(s.size, 8)
      + LeBytes(s.link, 4) + LeBytes(s.info, 4)
      + LeBytes(s.addralign, 8) + LeBytes(s.entsize, 8)
  }

  /** Decoding loses nothing: the decoded record re-encodes to its 64 bytes. */
  lemma EncodeDecodeSectionHeader(buf: seq<Byte>, at: nat)
    requires at + SectionHeaderSize <= |buf|
    ensures EncodeSectionHeader(DecodeSectionHeader(buf, at)) == buf[at..at + SectionHeaderSize]
  {
    JoinSlices(buf, at, at + 4, at + 8);
    JoinSlices(buf, at, at + 8, at + 16);
    JoinSlices(buf, at, at + 16, at + 24);
    JoinSlices(buf, at, at + 24, at + 32);
    JoinSlices(buf, at, at + 32, at + 40);
    JoinSlices(buf, at, at + 40, at + 44);
    JoinSlices(buf, at, at + 44, at + 48);
    JoinSlices(buf, at, at + 48, at + 56);
    JoinSlices(buf, at, at + 56, at + 64);
  }

  /** Encoding loses nothing: a well-formed record decodes back from its bytes. */
  lemma DecodeEncodeSectionHeader(s: SectionHeader)
    requires s.Valid()
    ensures DecodeSectionHeader(EncodeSectionHeader(s), 0) == s
  {
    var e := EncodeSectionHeader(s);
    FieldLimits();
    SliceIs(e, 0, LeBytes(s.name, 4));
    ReadBack(e, 0, 4, s.name);
    SliceIs(e, 4, LeBytes(s.kind, 4));
    ReadBack(e, 4, 4, s.kind);
    SliceIs(e, 8, LeBytes(s.flags, 8));
    ReadBack(e, 8, 8, s.flags);
    SliceIs(e, 16, LeBytes(s.addr, 8));
    ReadBack(e, 16, 8, s.addr);
    SliceIs(e, 24, LeBytes(s.offset, 8));
    ReadBack(e, 24, 8, s.offset);
    SliceIs(e, 32, LeBytes(s.size, 8));
    ReadBack(e, 32, 8, s.size);
    SliceIs(e, 40, LeBytes(s.link, 4));
    ReadBack(e, 40, 4, s.link);
    SliceIs(e, 44, LeBytes(s.info, 4));
    ReadBack(e, 44, 4, s.info);
    SliceIs(e, 48, LeBytes(s.addralign, 8));
    ReadBack(e, 48, 8, s.addralign);
    SliceIs(e, 56, LeBytes(s.entsize, 8));
    ReadBack(e, 56, 8, s.entsize);
  }

  /** Record `i` of `sections` is the section header decoded at byte `shoff + 64 * i`. */
  predicate SectionHeaderTableAt(buf: seq<Byte>, shoff: nat, sections: seq<SectionHeader>) {
    forall i | 0 <= i < |sections| ::
      && shoff + SectionHeaderSize * (i + 1) <= |buf|
      && sections[i] == DecodeSectionHeader(buf, shoff + SectionHeaderSize * i)
  }

  /**
   * The walk over the section header table: `shnum` records, the record
   * cursor advancing by one record size per step. With `shnum == 0` nothing
   * is read, so the offset may then lie anywhere.
   */
  method WalkSectionHeaders(buf: seq<Byte>, shoff: nat, shnum: nat) returns (sections: seq<SectionHeader>)
    requires shnum > 0 ==> shoff + SectionHeaderSize * shnum <= |buf|
    ensures |sections| == shnum
    ensures SectionHeaderTableAt(buf, shoff, sections)
  {
    sections := [];
    var at := shoff;
    for i := 0 to shnum
      invariant at == shoff + SectionHeaderSize * i
      invariant |sections| == i
      invariant SectionHeaderTableAt(buf, shoff, sections)
    {
      sections := sections + [DecodeSectionHeader(buf, at)];
      at := at + SectionHeaderSize;
    }
  }

  /** The two fields of a section record that locate its contents: sh_offset and sh_size. */
  datatype Extent = Extent(offset: nat, size: nat)

  /**
   * What the string-table view reads from `&shdr[shstrndx]`: only the
   * sh_offset (bytes 24..32) and sh_size (bytes 32..40) of that record. The
   * index is not compared with e_shnum, and the rest of the record may lie
   * past the end of the buffer.
   */
  function IndexedExtent(buf: seq<Byte>, shoff: nat, index: nat): (e: Extent)
    requires shoff + SectionHeaderSize * index + 40 <= |buf|
    ensures e.offset < U64Limit && e.size < U64Limit
    ensures LeBytes(e.offset, 8) == buf[shoff + SectionHeaderSize * index + 24..shoff + SectionHeaderSize * index + 32]
    ensures LeBytes(e.size, 8) == buf[shoff + SectionHeaderSize * index + 32..shoff + SectionHeaderSize * index + 40]
  {
    var at := shoff + SectionHeaderSize * index;
    Extent(U64At(buf, at + 24), U64At(buf, at + 32))
  }

  /** When `index` is below the table length, the extent read is that of entry `index` of the walked table. */
  lemma IndexedExtentInTable(buf: seq<Byte>, shoff: nat, sections: seq<SectionHeader>, index: nat)
    requires SectionHeaderTableAt(buf, shoff, sections) && index < |sections|
    ensures shoff + SectionHeaderSize * index + 40 <= |buf|
    ensures IndexedExtent(buf, shoff, index) == Extent(sections[index].offset, sections[index].size)
  {
    var entry := sections[index];
    assert entry == DecodeSectionHeader(buf, shoff + SectionHeaderSize * index);
  }
}
