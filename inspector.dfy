/**
 * The inspector's entry point: the first character of the mode flag picks
 * one view of the file (header, program headers, section headers, or the
 * section-name string table); any other character fails with EXIT_FAILURE.
 *
 * The file is handed over as a byte sequence. Every offset and count taken
 * from the file is checked against the buffer before it is used; a run
 * that would read outside the buffer fails with Truncated.
 */
module ElfInspector {
  import opened LittleEndian
  import opened ElfFileHeader
  import opened ElfProgramHeaders
  import opened ElfSectionHeaders
  import opened ElfStringTable

  datatype Mode = FileHeaderMode | ProgramHeadersMode | SectionHeadersMode | StringTableMode

  datatype Option<T> = None | Some(value: T)

  /** What one run shows. */
  datatype View =
    | HeaderView(header: FileHeader)
    | ProgramView(segments: seq<ProgramHeader>)
    | SectionView(sections: seq<SectionHeader>)
    | StringView(strings: seq<StringEntry>)

  datatype Failure = UnknownMode | Truncated

  datatype Outcome = Shown(view: View) | Failed(reason: Failure)

  const ExitSuccess: int := 0
  const ExitFailure: int := 1

  /** The view the flag selects: its first character is one of 'h', 'p', 's', 'S'. */
  function ModeOf(flag: string): (m: Option<Mode>)
    ensures m.Some? <==> |flag| > 0 && flag[0] in {'h', 'p', 's', 'S'}
    ensures m == Some(FileHeaderMode) <==> |flag| > 0 && flag[0] == 'h'
    ensures m == Some(ProgramHeadersMode) <==> |flag| > 0 && flag[0] == 'p'
    ensures m == Some(SectionHeadersMode) <==> |flag| > 0 && flag[0] == 's'
    ensures m == Some(StringTableMode) <==> |flag| > 0 && flag[0] == 'S'
  {
    if |flag| == 0 then None
    else match flag[0]
      case 'h' => Some(FileHeaderMode)
      case 'p' => Some(ProgramHeadersMode)
      case 's' => Some(SectionHeadersMode)
      case 'S' => Some(StringTableMode)
      case _ => None
  }

  /** The process exit status of a run. */
  function ExitStatus(outcome: Outcome): (code: int)
    ensures code == ExitSuccess <==> outcome.Shown?
    ensures code == ExitFailure <==> outcome.Failed?
  {
    if outcome.Shown? then ExitSuccess else ExitFailure
  }

  /** The program header table lies inside the buffer, or is empty and never read. */
  predicate ProgramTableFits(buf: seq<Byte>, phoff: nat, phnum: nat) {
    phnum > 0 ==> phoff + ProgramHeaderSize * phnum <= |buf|
  }

  /** The section header table lies inside the buffer, or is empty and never read. */
  predicate SectionTableFits(buf: seq<Byte>, shoff: nat, shnum: nat) {
    shnum > 0 ==> shoff + SectionHeaderSize * shnum <= |buf|
  }

  /** sh_offset and sh_size of section record `shstrndx` lie inside the buffer. */
  predicate NameExtentFits(buf: seq<Byte>, shoff: nat, shstrndx: nat) {
    shoff + SectionHeaderSize * shstrndx + 40 <= |buf|
  }

  /**
   * One run of the inspector on the file bytes `buf` with mode flag `flag`.
   * Before dispatching, the source forms the program and section table
   * pointers, reading e_phoff and e_shoff (bytes 32..48); each mode then
   * reads only the header fields it needs.
   */
  method Inspect(buf: seq<Byte>, flag: string) returns (outcome: Outcome)
    ensures |buf| < ShoffAt + 8 ==> outcome == Failed(Truncated)
    ensures ShoffAt + 8 <= |buf| && ModeOf(flag).None? ==> outcome == Failed(UnknownMode)
    ensures ModeOf(flag) == Some(FileHeaderMode) ==>
      if FileHeaderSize <= |buf| then outcome == Shown(HeaderView(DecodeFileHeader(buf)))
      else outcome == Failed(Truncated)
    ensures ModeOf(flag) == Some(ProgramHeadersMode) ==>
      if PhnumAt + 2 <= |buf| && ProgramTableFits(buf, U64At(buf, PhoffAt), U16At(buf, PhnumAt)) then
        && outcome.Shown? && outcome.view.ProgramView?
        && |outcome.view.segments| == U16At(buf, PhnumAt)
        && ProgramHeaderTableAt(buf, U64At(buf, PhoffAt), outcome.view.segments)
      else outcome == Failed(Truncated)
    ensures ModeOf(flag) == Some(SectionHeadersMode) ==>
      if ShnumAt + 2 <= |buf| && SectionTableFits(buf, U64At(buf, ShoffAt), U16At(buf, ShnumAt)) then
        && outcome.Shown? && outcome.view.SectionView?
        && |outcome.view.sections| == U16At(buf, ShnumAt)
        && SectionHeaderTableAt(buf, U64At(buf, ShoffAt), outcome.view.sections)
      else outcome == Failed(Truncated)
    ensures ModeOf(flag) == Some(StringTableMode) ==>
      if ShstrndxAt + 2 <= |buf| && NameExtentFits(buf, U64At(buf, ShoffAt), U16At(buf, ShstrndxAt))
        && var names := IndexedExtent(buf, U64At(buf, ShoffAt), U16At(buf, ShstrndxAt));
           TableTerminated(buf, names.offset, names.size)
      then
        var names := IndexedExtent(buf, U64At(buf, ShoffAt), U16At(buf, ShstrndxAt));
        outcome == Shown(StringView(StringTableFrom(buf, names.offset, names.size, 0)))
      else outcome == Failed(Truncated)
  {
    if |buf| < ShoffAt + 8 {
      return Failed(Truncated);
    }
    var phoff := U64At(buf, PhoffAt);
    var shoff := U64At(buf, ShoffAt);
    var mode := ModeOf(flag);
    match mode {
      case None =>
        outcome := Failed(UnknownMode);
      case Some(FileHeaderMode) =>
        if |buf| < FileHeaderSize {
          outcome := Failed(Truncated);
        } else {
          outcome := Shown(HeaderView(DecodeFileHeader(buf)));
        }
      case Some(ProgramHeadersMode) =>
        if |buf| < PhnumAt + 2 {
          outcome := Failed(Truncated);
        } else {
          var phnum := U16At(buf, PhnumAt);
          if ProgramTableFits(buf, phoff, phnum) {
            var segments := WalkProgramHeaders(buf, phoff, phnum);
            outcome := Shown(ProgramView(segments));
          } else {
            outcome := Failed(Truncated);
          }
        }
      case Some(SectionHeadersMode) =>
        if |buf| < ShnumAt + 2 {
          outcome := Failed(Truncated);
        } else {
          var shnum := U16At(buf, ShnumAt);
          if SectionTableFits(buf, shoff, shnum) {
            var sections := WalkSectionHeaders(buf, shoff, shnum);
            outcome := Shown(SectionView(sections));
          } else {
            outcome := Failed(Truncated);
          }
        }
      case Some(StringTableMode) =>
        if |buf| < ShstrndxAt + 2 {
          outcome := Failed(Truncated);
        } else {
          var shstrndx := U16At(buf, ShstrndxAt);
          if NameExtentFits(buf, shoff, shstrndx) {
            var names := IndexedExtent(buf, shoff, shstrndx);
            if TableTerminated(buf, names.offset, names.size) {
              var strings := WalkStringTable(buf, names.offset, names.size);
              outcome := Shown(StringView(strings));
            } else {
              outcome := Failed(Truncated);
            }
          } else {
            outcome := Failed(Truncated);
          }
        }
    }
  }
}
