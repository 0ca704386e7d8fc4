/**
 * The program header table: `e_phnum` Elf64_Phdr records of 56 bytes each,
 * laid out back to back from byte `e_phoff` of the file.
 *
 * Byte layout of one record (System V ABI, chapter "Program Loading",
 * section "Program Header"): p_type u32 at 0, p_flags u32 at 4, then
 * p_offset, p_vaddr, p_paddr, p_filesz, p_memsz, p_align as u64 at 8..48.
 */
module ElfProgramHeaders {
  import opened LittleEndian

  /** sizeof(Elf64_Phdr): the stride of the walk, not e_phentsize. */
  const ProgramHeaderSize: nat := 56

  datatype ProgramHeader = ProgramHeader(
    kind: nat,
    flags: nat,
    offset: nat,
    vaddr: nat,
    paddr: nat,
    filesz: nat,
    memsz: nat,
    align: nat)
  {
    /** Every field fits the width the ELF64 layout gives it. */
    predicate Valid() {
      && kind < U32Limit && flags < U32Limit
      && offset < U64Limit && vaddr < U64Limit && paddr < U64Limit
      && filesz < U64Limit && memsz < U64Limit && align < U64Limit
    }
  }

  /** The program header whose record starts at byte `at`. */
  function DecodeProgramHeader(buf: seq<Byte>, at: nat): (p: ProgramHeader)
    requires at + ProgramHeaderSize <= |buf|
    ensures p.Valid()
  {
    ProgramHeader(
      U32At(buf, at), U32At(buf, at + 4),
      U64At(buf, at + 8), U64At(buf, at + 16), U64At(buf, at + 24),
      U64At(buf, at + 32), U64At(buf, at + 40), U64At(buf, at + 48))
  }

  /** The 56 bytes that hold `p` on disk. */
  function EncodeProgramHeader(p: ProgramHeader): (bytes: seq<Byte>)
    requires p.Valid()
    ensures |bytes| == ProgramHeaderSize
  {
    LeBytes(p.kind, 4) + LeBytes(p.flags, 4)
      + LeBytes(p.offset, 8) + LeBytes(p.vaddr, 8) + LeBytes(p.paddr, 8)
      + LeBytes(p.filesz, 8) + LeBytes(p.memsz, 8) + LeBytes(p.align, 8)
  }

  /** Decoding loses nothing: the decoded record re-encodes to its 56 bytes. */
  lemma EncodeDecodeProgramHeader(buf: seq<Byte>, at: nat)
    requires at + ProgramHeaderSize <= |buf|
    ensures EncodeProgramHeader(DecodeProgramHeader(buf, at)) == buf[at..at + ProgramHeaderSize]
  {
    JoinSlices(buf, at, at + 4, at + 8);
    JoinSlices(buf, at, at + 8, at + 16);
    JoinSlices(buf, at, at + 16, at + 24);
    JoinSlices(buf, at, at + 24, at + 32);
    JoinSlices(buf, at, at + 32, at + 40);
    JoinSlices(buf, at, at + 40, at + 48);
    JoinSlices(buf, at, at + 48, at + 56);
  }

  /** Encoding loses nothing: a well-formed record decodes back from its bytes. */
  lemma DecodeEncodeProgramHeader(p: ProgramHeader)
    requires p.Valid()
    ensures DecodeProgramHeader(EncodeProgramHeader(p), 0) == p
  {
    var e := EncodeProgramHeader(p);
    FieldLimits();
    SliceIs(e, 0, LeBytes(p.kind, 4));
    ReadBack(e, 0, 4, p.kind);
    SliceIs(e, 4, LeBytes(p.flags, 4));
    ReadBack(e, 4, 4, p.flags);
    SliceIs(e, 8, LeBytes(p.offset, 8));
    ReadBack(e, 8, 8, p.offset);
    SliceIs(e, 16, LeBytes(p.vaddr, 8));
    ReadBack(e, 16, 8, p.vaddr);
    SliceIs(e, 24, LeBytes(p.paddr, 8));
    ReadBack(e, 24, 8, p.paddr);
    SliceIs(e, 32, LeBytes(p.filesz, 8));
    ReadBack(e, 32, 8, p.filesz);
    SliceIs(e, 40, LeBytes(p.memsz, 8));
    ReadBack(e, 40, 8, p.memsz);
    SliceIs(e, 48, LeBytes(p.align, 8));
    ReadBack(e, 48, 8, p.align);
  }

  /** Record `i` of `segments` is the program header decoded at byte `phoff + 56 * i`. */
  predicate ProgramHeaderTableAt(buf: seq<Byte>, phoff: nat, segments: seq<ProgramHeader>) {
    forall i | 0 <= i < |segments| ::
      && phoff + ProgramHeaderSize * (i + 1) <= |buf|
      && segments[i] == DecodeProgramHeader(buf, phoff + ProgramHeaderSize * i)
  }

  /**
   * The walk over the program header table: `phnum` records, the record
   * cursor advancing by one record size per step. With `phnum == 0` nothing
   * is read, so the offset may then lie anywhere.
   */
  method WalkProgramHeaders(buf: seq<Byte>, phoff: nat, phnum: nat) returns (segments: seq<ProgramHeader>)
    requires phnum > 0 ==> phoff + ProgramHeaderSize * phnum <= |buf|
    ensures |segments| == phnum
    ensures ProgramHeaderTableAt(buf, phoff, segments)
  {
    segments := [];
    var at := phoff;
    for i := 0 to phnum
      invariant at == phoff + ProgramHeaderSize * i
      invariant |segments| == i
      invariant ProgramHeaderTableAt(buf, phoff, segments)
    {
      segments := segments + [DecodeProgramHeader(buf, at)];
      at := at + ProgramHeaderSize;
    }
  }
}
