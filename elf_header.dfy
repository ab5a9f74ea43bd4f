/** The ELF file header, program header and section header checks of mojoelf.c
    (System V gABI chapter 4, "ELF Header" and "ELF Identification"; chapter 5,
    "Program Header"). One build targets one architecture; the layouts below are
    the ones the C structs ElfHeader, ElfProgram and ElfSection have there. */
module ElfHeader {
  import opened Bytes

  datatype Arch = I386 | X86_64

  /** sizeof(uintptr) and sizeof(size_t). */
  function WordSize(a: Arch): nat
  {
    if a == I386 then 4 else 8
  }

  /** The number of values a uintptr can hold; C arithmetic on it wraps at this. */
  function WordModulus(a: Arch): (r: nat)
    ensures r == if a == I386 then 0x1_0000_0000 else 0x1_0000_0000_0000_0000
  {
    WordPowers();
    Pow256(WordSize(a))
  }

  lemma WordPowers()
    ensures Pow256(4) == 0x1_0000_0000 && Pow256(8) == 0x1_0000_0000_0000_0000
  {
    assert Pow256(2) == 0x1_0000;
    assert Pow256(4) == 0x1_0000_0000;
    assert Pow256(6) == 0x1_0000_0000_0000;
  }

  function ElfClass(a: Arch): nat
  {
    if a == I386 then 1 else 2   // ELFCLASS32 / ELFCLASS64
  }

  function MachineType(a: Arch): nat
  {
    if a == I386 then 3 else 62  // EM_386 / EM_X86_64
  }

  function HeaderSize(a: Arch): nat
  {
    if a == I386 then 52 else 64
  }

  function ProgramHeaderSize(a: Arch): nat
  {
    if a == I386 then 32 else 56
  }

  function SectionHeaderSize(a: Arch): nat
  {
    if a == I386 then 40 else 64
  }

  const ElfDataLsb := 1        // ELFDATA2LSB: both targets are little-endian
  const OsAbi := 0             // ELFOSABI_SYSV
  const OsAbiVersion := 0
  const EtDyn := 3             // the only object type accepted
  const ShtStrtab := 3
  /** The size test is literally 64 bytes on both targets. */
  const MinHeaderBytes := 64

  /** Every way an open can fail, with the message the loader stores for it. */
  datatype LoadError =
    | NotEnoughData | NotElf | BadClass | BadDataOrder | BadFileVersion
    | BadOsAbi | BadOsAbiVersion | BadObjectType | BadMachine | BadObjectVersion
    | BadHeaderSize | BadProgramHeaderSize | BadSectionHeaderSize
    | BadProgramTable | BadSectionTable | BadStringTableIndex
    | BadSectionBounds | BadSectionName
    | StringTableWrongType | StringTableNoLeadingNul | StringTableNoTrailingNul
    | BadProgramBounds | BadProgramSize
    | MultipleDynamic | NoLoadablePages | NoDynamic
    | OutOfMemory | MmapFailed | MprotectFailed
    | DuplicateDynamicEntry | NoDynStrTab | NoDynStrSz | DynStrTabNoLeadingNul
    | DynStrTabOutOfBounds
    | DependencyLoadFailed | Unfinished
    | BogusHandle | SymbolNotFound

  function Message(e: LoadError): string
  {
    match e
    case NotEnoughData => "Not enough data"
    case NotElf => "Not an ELF file"
    case BadClass => "Unsupported/bogus ELF class"
    case BadDataOrder => "Unsupported/bogus ELF data ordering"
    case BadFileVersion => "Unsupported/bogus ELF file version"
    case BadOsAbi => "Unsupported/bogus ELF OSABI"
    case BadOsAbiVersion => "Unsupported/bogus ELF OSABI"
    case BadObjectType => "Unsupported/bogus ELF object type"
    case BadMachine => "Unsupported/bogus ELF machine type"
    case BadObjectVersion => "Unsupported/bogus ELF object version"
    case BadHeaderSize => "Unsupported/bogus ELF main header size"
    case BadProgramHeaderSize => "Unsupported/bogus ELF program header size"
    case BadSectionHeaderSize => "Unsupported/bogus ELF section header size"
    case BadProgramTable => "Bogus ELF program header offset/count"
    case BadSectionTable => "Bogus ELF section header offset/count"
    case BadStringTableIndex => "Bogus ELF section header string table index"
    case BadSectionBounds => "Bogus ELF program offset/size"
    case BadSectionName => "Bogus ELF section name index"
    case StringTableWrongType => "String table section has wrong type"
    case StringTableNoLeadingNul => "String table doesn't start with null byte"
    case StringTableNoTrailingNul => "String table doesn't end with null byte"
    case BadProgramBounds => "Bogus ELF program offset/size"
    case BadProgramSize => "Bogus ELF program size"
    case MultipleDynamic => "Multiple PT_DYNAMIC tables"
    case NoLoadablePages => "No loadable pages"
    case NoDynamic => "No PT_DYNAMIC table"
    case OutOfMemory => "Out of memory"
    case MmapFailed => "mmap failed"
    case MprotectFailed => "mprotect failed"
    case DuplicateDynamicEntry => "Illegal duplicate dynamic table entry"
    case NoDynStrTab => "No dynamic string table"
    case NoDynStrSz => "No dynamic string table size"
    case DynStrTabNoLeadingNul => "Dynstrtab doesn't start with null byte"
    case DynStrTabOutOfBounds => "Dynstrtab outside the file"
    case DependencyLoadFailed => "Couldn't load dependency"
    case Unfinished => "write me"
    case BogusHandle => "Bogus library handle"
    case SymbolNotFound => "Symbol not found"
  }

  datatype Header = Header(
    etype: nat, machine: nat, version: nat, entry: nat,
    phoff: nat, shoff: nat, flags: nat,
    ehsize: nat, phentsize: nat, phnum: nat,
    shentsize: nat, shnum: nat, shstrndx: nat)

  /** The fields of the ElfHeader struct that starts the buffer (after the
      16 identification bytes). */
  function DecodeHeader(a: Arch, buf: seq<byte>): Header
    requires |buf| >= MinHeaderBytes
  {
    var w := WordSize(a);
    Header(
      ReadLE(buf, 16, 2), ReadLE(buf, 18, 2), ReadLE(buf, 20, 4), ReadLE(buf, 24, w),
      ReadLE(buf, 24 + w, w), ReadLE(buf, 24 + 2 * w, w), ReadLE(buf, 24 + 3 * w, 4),
      ReadLE(buf, 28 + 3 * w, 2), ReadLE(buf, 30 + 3 * w, 2), ReadLE(buf, 32 + 3 * w, 2),
      ReadLE(buf, 34 + 3 * w, 2), ReadLE(buf, 36 + 3 * w, 2), ReadLE(buf, 38 + 3 * w, 2))
  }

  datatype Section = Section(name: nat, stype: nat, offset: nat, size: nat)

  /** The fields of the ElfSection struct at byte offset off that the loader reads. */
  function DecodeSection(a: Arch, buf: seq<byte>, off: nat): (r: Section)
    requires off + SectionHeaderSize(a) <= |buf|
    ensures r.size < WordModulus(a) && r.offset < WordModulus(a)
  {
    var w := WordSize(a);
    Section(ReadLE(buf, off, 4), ReadLE(buf, off + 4, 4),
            ReadLE(buf, off + 8 + 2 * w, w), ReadLE(buf, off + 8 + 3 * w, w))
  }

  datatype Program = Program(ptype: nat, flags: nat, offset: nat, vaddr: nat, filesz: nat, memsz: nat)

  /** The fields of the ElfProgram struct at byte offset off; p_flags sits
      after p_type on x86-64 and after p_memsz on i386. */
  function DecodeProgram(a: Arch, buf: seq<byte>, off: nat): (r: Program)
    requires off + ProgramHeaderSize(a) <= |buf|
    ensures r.ptype < 0x1_0000_0000 && r.flags < 0x1_0000_0000
    ensures r.vaddr < WordModulus(a) && r.offset < WordModulus(a)
  {
    var w := WordSize(a);
    var flagsAt := if a == I386 then 24 else 4;
    Program(ReadLE(buf, off, 4), ReadLE(buf, off + flagsAt, 4),
            ReadLE(buf, off + w, w), ReadLE(buf, off + 2 * w, w),
            ReadLE(buf, off + 4 * w, w), ReadLE(buf, off + 5 * w, w))
  }

  /** validate_elf_program: the segment's file bytes lie inside the buffer and
      its file size does not exceed its memory size. */
  function ValidateProgram(p: Program, bufsize: nat): (r: Option<LoadError>)
    ensures r == None <==> p.offset + p.filesz <= bufsize && p.filesz <= p.memsz
    ensures r == Some(BadProgramBounds) <==> !Fits(p.offset, p.filesz, bufsize)
    ensures r == Some(BadProgramSize) <==> Fits(p.offset, p.filesz, bufsize) && p.filesz > p.memsz
  {
    if !Fits(p.offset, p.filesz, bufsize) then Some(BadProgramBounds)
    else if p.filesz > p.memsz then Some(BadProgramSize)
    else None
  }

  /** validate_elf_section: the section's bytes lie inside the buffer and, when
      a string-table limit maxstr > 0 is given, its name index is within it. */
  function ValidateSection(s: Section, bufsize: nat, maxstr: nat): (r: Option<LoadError>)
    ensures r == None <==> s.offset + s.size <= bufsize && (maxstr == 0 || s.name <= maxstr)
    ensures r == Some(BadSectionBounds) <==> !Fits(s.offset, s.size, bufsize)
  {
    if !Fits(s.offset, s.size, bufsize) then Some(BadSectionBounds)
    else if maxstr > 0 && s.name > maxstr then Some(BadSectionName)
    else None
  }

  lemma SectionNameUncheckedWithoutLimit(s: Section, bufsize: nat)
    ensures ValidateSection(s, bufsize, 0) != Some(BadSectionName)
  {
  }

  /** validate_elf_program as compiled: p_offset + p_filesz (mojoelf.c:148)
      is a uintptr sum, so it wraps. Whatever the exact test accepts passes,
      and the two agree when the sum stays below the word modulus. */
  function ValidateProgramAsWritten(a: Arch, p: Program, bufsize: nat): (r: Option<LoadError>)
    ensures ValidateProgram(p, bufsize) == None ==> r == None
    ensures p.offset + p.filesz < WordModulus(a) ==> r == ValidateProgram(p, bufsize)
  {
    FitsAsWrittenAgrees(p.offset, p.filesz, bufsize, WordModulus(a));
    if !FitsAsWritten(p.offset, p.filesz, bufsize, WordModulus(a)) then Some(BadProgramBounds)
    else if p.filesz > p.memsz then Some(BadProgramSize)
    else None
  }

  /** validate_elf_section as compiled: sh_offset + sh_size (mojoelf.c:158)
      wraps in the same way. */
  function ValidateSectionAsWritten(a: Arch, s: Section, bufsize: nat, maxstr: nat): (r: Option<LoadError>)
    ensures ValidateSection(s, bufsize, maxstr) == None ==> r == None
    ensures s.offset + s.size < WordModulus(a) ==> r == ValidateSection(s, bufsize, maxstr)
  {
    FitsAsWrittenAgrees(s.offset, s.size, bufsize, WordModulus(a));
    if !FitsAsWritten(s.offset, s.size, bufsize, WordModulus(a)) then Some(BadSectionBounds)
    else if maxstr > 0 && s.name > maxstr then Some(BadSectionName)
    else None
  }

  /** Number of tests validate_elf_header makes. */
  const HeaderChecks := 20

  /** Byte offset of the section header that e_shstrndx selects. */
  function ShStrSectionOffset(a: Arch, h: Header): nat
  {
    h.shoff + h.shstrndx * SectionHeaderSize(a)
  }

  /** Tests 1 to 6: the identification bytes. */
  predicate IdentCheck(a: Arch, buf: seq<byte>, k: nat)
    requires |buf| >= MinHeaderBytes
  {
    match k
    case 1 => buf[0] == 0x7F && buf[1] == 0x45 && buf[2] == 0x4C && buf[3] == 0x46  // 0x7F 'E' 'L' 'F'
    case 2 => buf[4] as nat == ElfClass(a)
    case 3 => buf[5] as nat == ElfDataLsb
    case 4 => buf[6] == 1
    case 5 => buf[7] as nat == OsAbi
    case 6 => buf[8] as nat == OsAbiVersion
    case _ => true
  }

  /** Tests 7 to 15: the header fields. */
  predicate FieldCheck(a: Arch, h: Header, bufsize: nat, k: nat)
  {
    match k
    case 7 => h.etype == EtDyn
    case 8 => h.machine == MachineType(a)
    case 9 => h.version == 1
    case 10 => h.ehsize == HeaderSize(a)
    case 11 => h.phentsize == ProgramHeaderSize(a)
    case 12 => h.shentsize == SectionHeaderSize(a)
    case 13 => Fits(h.phoff, h.phnum * h.phentsize, bufsize)
    case 14 => Fits(h.shoff, h.shnum * h.shentsize, bufsize)
    case 15 => h.shstrndx != 0 ==> h.shstrndx < h.shnum
    case _ => true
  }

  /** Tests 16 to 19: the section-name string table, read from section header s. */
  predicate StringTableCheck(s: Section, buf: seq<byte>, k: nat)
  {
    match k
    case 16 => ValidateSection(s, |buf|, 0) == None
    case 17 => s.stype == ShtStrtab
    case 18 => s.size == 0 || s.offset + s.size > |buf| || buf[s.offset] == 0
    case 19 => s.size == 0 || s.offset + s.size > |buf| || buf[s.offset + s.size - 1] == 0
    case _ => true
  }

  /** Test k of validate_elf_header, in source order. A test that reads past the
      fixed header is stated for the buffers where the earlier tests make that
      read defined; elsewhere an earlier test has already failed. */
  predicate HeaderCheck(a: Arch, buf: seq<byte>, k: nat)
  {
    if k == 0 then |buf| >= MinHeaderBytes
    else if |buf| < MinHeaderBytes then true
    else if k <= 6 then IdentCheck(a, buf, k)
    else
      var h := DecodeHeader(a, buf);
      if k <= 15 then FieldCheck(a, h, |buf|, k)
      else
        var off := ShStrSectionOffset(a, h);
        h.shstrndx == 0 || off + SectionHeaderSize(a) > |buf|
        || StringTableCheck(DecodeSection(a, buf, off), buf, k)
  }

  /** The message validate_elf_header stores when test k fails. */
  function HeaderCheckError(k: nat): LoadError
  {
    match k
    case 0 => NotEnoughData
    case 1 => NotElf
    case 2 => BadClass
    case 3 => BadDataOrder
    case 4 => BadFileVersion
    case 5 => BadOsAbi
    case 6 => BadOsAbiVersion
    case 7 => BadObjectType
    case 8 => BadMachine
    case 9 => BadObjectVersion
    case 10 => BadHeaderSize
    case 11 => BadProgramHeaderSize
    case 12 => BadSectionHeaderSize
    case 13 => BadProgramTable
    case 14 => BadSectionTable
    case 15 => BadStringTableIndex
    case 16 => BadSectionBounds
    case 17 => StringTableWrongType
    case 18 => StringTableNoLeadingNul
    case _ => StringTableNoTrailingNul
  }

  /** Every test of validate_elf_header passes. */
  predicate HeaderOk(a: Arch, buf: seq<byte>)
  {
    forall k :: 0 <= k < HeaderChecks ==> HeaderCheck(a, buf, k)
  }

  /** The first test, from test k on, that fails. */
  function FirstFailedCheck(a: Arch, buf: seq<byte>, k: nat): (r: Option<nat>)
    requires k <= HeaderChecks
    ensures r == None <==> forall j :: k <= j < HeaderChecks ==> HeaderCheck(a, buf, j)
    ensures r.Some? ==> k <= r.value < HeaderChecks && !HeaderCheck(a, buf, r.value)
    ensures r.Some? ==> forall j :: k <= j < r.value ==> HeaderCheck(a, buf, j)
    decreases HeaderChecks - k
  {
    if k == HeaderChecks then None
    else if !HeaderCheck(a, buf, k) then Some(k)
    else FirstFailedCheck(a, buf, k + 1)
  }

  /** validate_elf_header: None when the header is acceptable, otherwise the
      error of the first test that fails. */
  function ValidateHeader(a: Arch, buf: seq<byte>): (r: Option<LoadError>)
    ensures r == None <==> HeaderOk(a, buf)
    ensures r.Some? ==> exists k :: 0 <= k < HeaderChecks && r.value == HeaderCheckError(k)
                                    && !HeaderCheck(a, buf, k)
                                    && (forall j :: 0 <= j < k ==> HeaderCheck(a, buf, j))
  {
    match FirstFailedCheck(a, buf, 0)
    case None => None
    case Some(k) => Some(HeaderCheckError(k))
  }

  /** Test k of validate_elf_header as compiled: the table bounds of
      mojoelf.c:194 and 196 and the string-table section bound of line 158 are
      uintptr sums and wrap. Every other test is the one of HeaderCheck. */
  predicate HeaderCheckAsWritten(a: Arch, buf: seq<byte>, k: nat)
  {
    if |buf| < MinHeaderBytes || !(k == 13 || k == 14 || k == 16) then HeaderCheck(a, buf, k)
    else if k == 16 then StringSectionAsWritten(a, buf)
    else TableBoundAsWritten(a, DecodeHeader(a, buf), |buf|, k)
  }

  /** Tests 13 and 14 as compiled. */
  predicate TableBoundAsWritten(a: Arch, h: Header, bufsize: nat, k: nat)
  {
    if k == 13 then FitsAsWritten(h.phoff, h.phnum * h.phentsize, bufsize, WordModulus(a))
    else FitsAsWritten(h.shoff, h.shnum * h.shentsize, bufsize, WordModulus(a))
  }

  /** Test 16 as compiled: validate_elf_section on the section e_shstrndx names. */
  predicate StringSectionAsWritten(a: Arch, buf: seq<byte>)
    requires |buf| >= MinHeaderBytes
  {
    var h := DecodeHeader(a, buf);
    var off := ShStrSectionOffset(a, h);
    h.shstrndx == 0 || off + SectionHeaderSize(a) > |buf|
    || ValidateSectionAsWritten(a, DecodeSection(a, buf, off), |buf|, 0) == None
  }

  /** The sums the compiled tests wrap all stay below the word modulus. */
  predicate HeaderSumsInRange(a: Arch, buf: seq<byte>)
  {
    |buf| >= MinHeaderBytes ==>
      var h := DecodeHeader(a, buf);
      var off := ShStrSectionOffset(a, h);
      && h.phoff + h.phnum * h.phentsize < WordModulus(a)
      && h.shoff + h.shnum * h.shentsize < WordModulus(a)
      && (off + SectionHeaderSize(a) <= |buf| ==>
            DecodeSection(a, buf, off).offset + DecodeSection(a, buf, off).size < WordModulus(a))
  }

  /** Each compiled test passes whenever the exact one does, and they are the
      same test when no sum wraps. */
  lemma HeaderCheckAsWrittenAgrees(a: Arch, buf: seq<byte>, k: nat)
    ensures HeaderCheck(a, buf, k) ==> HeaderCheckAsWritten(a, buf, k)
    ensures HeaderSumsInRange(a, buf) ==> (HeaderCheckAsWritten(a, buf, k) <==> HeaderCheck(a, buf, k))
  {
    if |buf| >= MinHeaderBytes && (k == 13 || k == 14) {
      var h := DecodeHeader(a, buf);
      assert HeaderCheck(a, buf, k) == FieldCheck(a, h, |buf|, k);
      TableBoundAgrees(a, h, |buf|, k);
    } else if |buf| >= MinHeaderBytes && k == 16 {
      StringSectionAgrees(a, buf);
    }
  }

  lemma TableBoundAgrees(a: Arch, h: Header, bufsize: nat, k: nat)
    requires k == 13 || k == 14
    ensures FieldCheck(a, h, bufsize, k) ==> TableBoundAsWritten(a, h, bufsize, k)
    ensures h.phoff + h.phnum * h.phentsize < WordModulus(a) && h.shoff + h.shnum * h.shentsize < WordModulus(a)
            ==> (TableBoundAsWritten(a, h, bufsize, k) <==> FieldCheck(a, h, bufsize, k))
  {
    var pn := h.phnum * h.phentsize;
    var sn := h.shnum * h.shentsize;
    if k == 13 {
      FitsAsWrittenAgrees(h.phoff, pn, bufsize, WordModulus(a));
    } else {
      FitsAsWrittenAgrees(h.shoff, sn, bufsize, WordModulus(a));
    }
  }

  lemma StringSectionAgrees(a: Arch, buf: seq<byte>)
    requires |buf| >= MinHeaderBytes
    ensures HeaderCheck(a, buf, 16) ==> StringSectionAsWritten(a, buf)
    ensures HeaderSumsInRange(a, buf) ==> (StringSectionAsWritten(a, buf) <==> HeaderCheck(a, buf, 16))
  {
    var h := DecodeHeader(a, buf);
    var off := ShStrSectionOffset(a, h);
    if h.shstrndx != 0 && off + SectionHeaderSize(a) <= |buf| {
      var sec := DecodeSection(a, buf, off);
      assert HeaderCheck(a, buf, 16) == StringTableCheck(sec, buf, 16);
    }
  }

  /** The first compiled test, from test k on, that fails. */
  function FirstFailedCheckAsWritten(a: Arch, buf: seq<byte>, k: nat): (r: Option<nat>)
    requires k <= HeaderChecks
    ensures r == None <==> forall j :: k <= j < HeaderChecks ==> HeaderCheckAsWritten(a, buf, j)
    ensures r.Some? ==> k <= r.value < HeaderChecks && !HeaderCheckAsWritten(a, buf, r.value)
    ensures r.Some? ==> forall j :: k <= j < r.value ==> HeaderCheckAsWritten(a, buf, j)
    decreases HeaderChecks - k
  {
    if k == HeaderChecks then None
    else if !HeaderCheckAsWritten(a, buf, k) then Some(k)
    else FirstFailedCheckAsWritten(a, buf, k + 1)
  }

  /** validate_elf_header as compiled. */
  function ValidateHeaderAsWritten(a: Arch, buf: seq<byte>): (r: Option<LoadError>)
    ensures r == None <==> forall k :: 0 <= k < HeaderChecks ==> HeaderCheckAsWritten(a, buf, k)
  {
    match FirstFailedCheckAsWritten(a, buf, 0)
    case None => None
    case Some(k) => Some(HeaderCheckError(k))
  }

  /** Every header ValidateHeader accepts is accepted as compiled, and the two
      give the same result when no sum wraps. */
  lemma {:induction false} ValidateHeaderAsWrittenAgrees(a: Arch, buf: seq<byte>)
    ensures ValidateHeader(a, buf) == None ==> ValidateHeaderAsWritten(a, buf) == None
    ensures HeaderSumsInRange(a, buf) ==> ValidateHeaderAsWritten(a, buf) == ValidateHeader(a, buf)
  {
    forall k | 0 <= k < HeaderChecks
      ensures HeaderCheck(a, buf, k) ==> HeaderCheckAsWritten(a, buf, k)
    {
      HeaderCheckAsWrittenAgrees(a, buf, k);
    }
    if HeaderSumsInRange(a, buf) {
      FirstFailedAgrees(a, buf, 0);
    }
  }

  lemma {:induction false} FirstFailedAgrees(a: Arch, buf: seq<byte>, k: nat)
    requires k <= HeaderChecks && HeaderSumsInRange(a, buf)
    ensures FirstFailedCheckAsWritten(a, buf, k) == FirstFailedCheck(a, buf, k)
    decreases HeaderChecks - k
  {
    if k < HeaderChecks {
      HeaderCheckAsWrittenAgrees(a, buf, k);
      if HeaderCheck(a, buf, k) {
        assert HeaderCheckAsWritten(a, buf, k);
        FirstFailedAgrees(a, buf, k + 1);
        assert FirstFailedCheck(a, buf, k) == FirstFailedCheck(a, buf, k + 1);
      } else {
        assert !HeaderCheckAsWritten(a, buf, k);
        assert FirstFailedCheck(a, buf, k) == Some(k);
      }
    }
  }

  /** A read of the compiled validator outside the buffer: the section
      header e_shstrndx names (mojoelf.c:205-207), or a byte of the string
      table it describes (mojoelf.c:215-218). */
  datatype OutsideRead = SectionHeaderAt(offset: nat) | StringByteAt(offset: nat)

  /** The read outside the buffer the compiled validator makes, if any. It
      reads the string-table section header once tests 0 to 15 pass, the
      first byte of the table once tests 16 and 17 pass on a non-empty
      table, and the last byte once the first is NUL. The exact tests keep
      every such read inside the buffer; the wrapped sums of tests 14 and
      16 let each read fall outside it, where tests 16 to 19 as stated
      above pass without reading. */
  function HeaderReadOutsideAsWritten(a: Arch, buf: seq<byte>): (r: Option<OutsideRead>)
    ensures r.Some? && r.value.SectionHeaderAt? ==> r.value.offset + SectionHeaderSize(a) > |buf|
    ensures r.Some? && r.value.StringByteAt? ==> r.value.offset >= |buf|
    ensures r.Some? ==> |buf| >= MinHeaderBytes && DecodeHeader(a, buf).shstrndx != 0
                        && forall k :: 0 <= k <= 15 ==> HeaderCheckAsWritten(a, buf, k)
  {
    var f := FirstFailedCheckAsWritten(a, buf, 0);
    if |buf| < MinHeaderBytes || (f.Some? && f.value <= 15) || DecodeHeader(a, buf).shstrndx == 0 then None
    else StringTableReadOutside(a, buf, ShStrSectionOffset(a, DecodeHeader(a, buf)))
  }

  /** The reads from the string-table section header at off on. */
  function StringTableReadOutside(a: Arch, buf: seq<byte>, off: nat): (r: Option<OutsideRead>)
    ensures r.Some? && r.value.SectionHeaderAt? ==> r.value.offset + SectionHeaderSize(a) > |buf|
    ensures r.Some? && r.value.StringByteAt? ==> r.value.offset >= |buf|
  {
    if off + SectionHeaderSize(a) > |buf| then Some(SectionHeaderAt(off))
    else
      var sec := DecodeSection(a, buf, off);
      if ValidateSectionAsWritten(a, sec, |buf|, 0).Some? || sec.stype != ShtStrtab || sec.size == 0 then None
      else if sec.offset >= |buf| then Some(StringByteAt(sec.offset))
      else if buf[sec.offset] != 0 then None
      else if sec.offset + sec.size - 1 >= |buf| then Some(StringByteAt(sec.offset + sec.size - 1))
      else None
  }

  /** When no sum wraps, the compiled validator reads only inside the
      buffer. */
  lemma HeaderReadsInside(a: Arch, buf: seq<byte>)
    requires HeaderSumsInRange(a, buf)
    ensures HeaderReadOutsideAsWritten(a, buf) == None
  {
    var f := FirstFailedCheckAsWritten(a, buf, 0);
    if |buf| >= MinHeaderBytes && !(f.Some? && f.value <= 15) && DecodeHeader(a, buf).shstrndx != 0 {
      assert HeaderCheckAsWritten(a, buf, 12) && HeaderCheckAsWritten(a, buf, 14) && HeaderCheckAsWritten(a, buf, 15);
      ShStrHeaderInside(a, buf);
      StringBytesInside(a, buf);
    }
  }

  /** The string-table section header lies inside the buffer once the
      tests up to 15 pass without wrapping. */
  lemma ShStrHeaderInside(a: Arch, buf: seq<byte>)
    requires HeaderSumsInRange(a, buf) && |buf| >= MinHeaderBytes && DecodeHeader(a, buf).shstrndx != 0
    requires HeaderCheckAsWritten(a, buf, 12) && HeaderCheckAsWritten(a, buf, 14) && HeaderCheckAsWritten(a, buf, 15)
    ensures ShStrSectionOffset(a, DecodeHeader(a, buf)) + SectionHeaderSize(a) <= |buf|
  {
    var h := DecodeHeader(a, buf);
    HeaderCheckAsWrittenAgrees(a, buf, 12);
    HeaderCheckAsWrittenAgrees(a, buf, 14);
    HeaderCheckAsWrittenAgrees(a, buf, 15);
    ShStrSectionInside(h.shoff, h.shstrndx, h.shnum, SectionHeaderSize(a), |buf|);
  }

  /** A string table whose section passes test 16 without wrapping lies
      inside the buffer. */
  lemma StringBytesInside(a: Arch, buf: seq<byte>)
    requires HeaderSumsInRange(a, buf) && |buf| >= MinHeaderBytes && DecodeHeader(a, buf).shstrndx != 0
    requires ShStrSectionOffset(a, DecodeHeader(a, buf)) + SectionHeaderSize(a) <= |buf|
    ensures StringTableReadOutside(a, buf, ShStrSectionOffset(a, DecodeHeader(a, buf))) == None
  {
    var off := ShStrSectionOffset(a, DecodeHeader(a, buf));
    var sec := DecodeSection(a, buf, off);
    StringSectionAgrees(a, buf);
    assert HeaderCheck(a, buf, 16) == StringTableCheck(sec, buf, 16);
  }

  /** Entry i < n of a table of n entries of size e at o inside the buffer
      is inside the buffer. */
  lemma ShStrSectionInside(o: nat, i: nat, n: nat, e: nat, size: nat)
    requires i < n && o + n * e <= size
    ensures o + i * e + e <= size
  {
    assert i * e + e == (i + 1) * e <= n * e;
  }

  /** A 64-byte x86-64 header that is correct in every field except e_phoff,
      which is 2^64 - 56 with one program header: the compiled test of
      mojoelf.c:194 computes 0 <= 64 and accepts the header, and the loader
      then reads its program header from buf + 2^64 - 56, outside the
      buffer. The exact test rejects it. */
  predicate IsWrappedPhoffHeader(buf: seq<byte>)
  {
    |buf| == MinHeaderBytes && forall i :: 0 <= i < MinHeaderBytes ==> buf[i] == WrappedPhoffByte(i)
  }

  /** Byte i of that header: the identification, e_type 3, e_machine 62,
      e_version 1, e_phoff 0xFFFF_FFFF_FFFF_FFC8, e_ehsize 64, e_phentsize
      56, e_phnum 1, e_shentsize 64, and zero everywhere else. */
  function WrappedPhoffByte(i: int): byte
  {
    if i == 0 then 0x7F else if i == 1 then 0x45 else if i == 2 then 0x4C else if i == 3 then 0x46
    else if i == 4 then 2 else if i == 5 || i == 6 then 1
    else if i == 16 then 3 else if i == 18 then 62 else if i == 20 then 1
    else if i == 32 then 0xC8 else if 33 <= i < 40 then 0xFF
    else if i == 52 || i == 58 then 64 else if i == 54 then 56 else if i == 56 then 1
    else 0
  }

  /** The header exists. */
  function WrappedPhoffHeader(): (r: seq<byte>)
    ensures IsWrappedPhoffHeader(r)
  {
    seq(MinHeaderBytes, i => WrappedPhoffByte(i))
  }

  lemma WrappedHeaderLowFields(buf: seq<byte>)
    requires IsWrappedPhoffHeader(buf)
    ensures var h := DecodeHeader(X86_64, buf);
            h.etype == 3 && h.machine == 62 && h.version == 1 && h.phoff == 0xFFFF_FFFF_FFFF_FFC8
  {
    ReadLE2(buf, 16); ReadLE2(buf, 18); ReadLE4Bytes(buf, 20); ReadLE8Bytes(buf, 32);
  }

  lemma WrappedHeaderHighFields(buf: seq<byte>)
    requires IsWrappedPhoffHeader(buf)
    ensures var h := DecodeHeader(X86_64, buf);
            && h.shoff == 0 && h.ehsize == 64 && h.phentsize == 56 && h.phnum == 1
            && h.shentsize == 64 && h.shnum == 0 && h.shstrndx == 0
  {
    WrappedHeaderSizes(buf);
    ReadLE2(buf, 58); ReadLE2(buf, 60); ReadLE2(buf, 62);
  }

  lemma WrappedHeaderSizes(buf: seq<byte>)
    requires IsWrappedPhoffHeader(buf)
    ensures var h := DecodeHeader(X86_64, buf);
            h.shoff == 0 && h.ehsize == 64 && h.phentsize == 56 && h.phnum == 1
  {
    ReadLE8Bytes(buf, 40); ReadLE2(buf, 52); ReadLE2(buf, 54); ReadLE2(buf, 56);
  }

  /** Tests 0 to 12 pass and test 13 fails. */
  lemma WrappedHeaderFailsAt13(buf: seq<byte>)
    requires IsWrappedPhoffHeader(buf)
    ensures forall k :: 0 <= k < 13 ==> HeaderCheck(X86_64, buf, k)
    ensures !HeaderCheck(X86_64, buf, 13)
  {
    WrappedHeaderLowFields(buf);
    WrappedHeaderHighFields(buf);
    assert buf[0] == 0x7F && buf[1] == 0x45 && buf[2] == 0x4C && buf[3] == 0x46;
    assert buf[4] == 2 && buf[5] == 1 && buf[6] == 1 && buf[7] == 0 && buf[8] == 0;
  }

  /** Every compiled test passes. */
  lemma WrappedHeaderPassesAsWritten(buf: seq<byte>)
    requires IsWrappedPhoffHeader(buf)
    ensures forall k :: 0 <= k < HeaderChecks ==> HeaderCheckAsWritten(X86_64, buf, k)
  {
    WrappedHeaderFailsAt13(buf);
    WrappedHeaderLowFields(buf);
    WrappedHeaderHighFields(buf);
    var h := DecodeHeader(X86_64, buf);
    assert (h.phoff + h.phnum * h.phentsize) % WordModulus(X86_64) == 0;
    assert TableBoundAsWritten(X86_64, h, |buf|, 13);
  }

  lemma WrappedHeaderAcceptedAsWritten(buf: seq<byte>)
    requires IsWrappedPhoffHeader(buf)
    ensures ValidateHeaderAsWritten(X86_64, buf) == None
    ensures ValidateHeader(X86_64, buf) == Some(BadProgramTable)
  {
    WrappedHeaderFailsAt13(buf);
    FirstFailedAt(X86_64, buf, 13);
    WrappedHeaderPassesAsWritten(buf);
  }

  /** The first failed test is the one that fails after all earlier ones pass. */
  lemma {:induction false} FirstFailedAt(a: Arch, buf: seq<byte>, k: nat)
    requires k < HeaderChecks && !HeaderCheck(a, buf, k)
    requires forall j :: 0 <= j < k ==> HeaderCheck(a, buf, j)
    ensures ValidateHeader(a, buf) == Some(HeaderCheckError(k))
  {
    var r := FirstFailedCheck(a, buf, 0);
    assert r.Some?;
    assert r.value == k;
  }

  /** What an accepted header guarantees, written out field by field. */
  lemma HeaderOkMeans(a: Arch, buf: seq<byte>)
    requires HeaderOk(a, buf)
    ensures |buf| >= MinHeaderBytes
    ensures buf[0] == 0x7F && buf[1] == 0x45 && buf[2] == 0x4C && buf[3] == 0x46
    ensures buf[4] as nat == ElfClass(a) && buf[5] as nat == ElfDataLsb && buf[6] == 1
    ensures buf[7] as nat == OsAbi && buf[8] as nat == OsAbiVersion
    ensures var h := DecodeHeader(a, buf);
            && h.etype == EtDyn && h.machine == MachineType(a) && h.version == 1
            && h.ehsize == HeaderSize(a) && h.phentsize == ProgramHeaderSize(a)
            && h.shentsize == SectionHeaderSize(a)
            && h.phoff + h.phnum * ProgramHeaderSize(a) <= |buf|
            && h.shoff + h.shnum * SectionHeaderSize(a) <= |buf|
            && (h.shstrndx != 0 ==> h.shstrndx < h.shnum)
  {
    assert HeaderCheck(a, buf, 0) && HeaderCheck(a, buf, 1) && HeaderCheck(a, buf, 2);
    assert HeaderCheck(a, buf, 3) && HeaderCheck(a, buf, 4) && HeaderCheck(a, buf, 5);
    assert HeaderCheck(a, buf, 6) && HeaderCheck(a, buf, 7) && HeaderCheck(a, buf, 8);
    assert HeaderCheck(a, buf, 9) && HeaderCheck(a, buf, 10) && HeaderCheck(a, buf, 11);
    assert HeaderCheck(a, buf, 12) && HeaderCheck(a, buf, 13) && HeaderCheck(a, buf, 14);
    assert HeaderCheck(a, buf, 15);
  }

  /** When e_shstrndx names a section, an accepted header has that section
      header inside the buffer, the section's bytes inside the buffer, type
      SHT_STRTAB, and, if it is not empty, a NUL byte first and last. */
  lemma HeaderOkStringTable(a: Arch, buf: seq<byte>)
    requires HeaderOk(a, buf) && |buf| >= MinHeaderBytes
    requires DecodeHeader(a, buf).shstrndx != 0
    ensures var h := DecodeHeader(a, buf);
            var off := ShStrSectionOffset(a, h);
            && off + SectionHeaderSize(a) <= |buf|
            && var s := DecodeSection(a, buf, off);
               && s.offset + s.size <= |buf| && s.stype == ShtStrtab
               && (s.size > 0 ==> buf[s.offset] == 0 && buf[s.offset + s.size - 1] == 0)
  {
    var h := DecodeHeader(a, buf);
    var off := ShStrSectionOffset(a, h);
    assert FieldCheck(a, h, |buf|, 12) && FieldCheck(a, h, |buf|, 14) && FieldCheck(a, h, |buf|, 15) by {
      assert HeaderCheck(a, buf, 12) && HeaderCheck(a, buf, 14) && HeaderCheck(a, buf, 15);
    }
    SectionEntryInside(h.shoff, h.shstrndx, h.shnum, SectionHeaderSize(a), |buf|);
    var s := DecodeSection(a, buf, off);
    assert StringTableCheck(s, buf, 16) && StringTableCheck(s, buf, 17) by {
      assert HeaderCheck(a, buf, 16) && HeaderCheck(a, buf, 17);
    }
    assert StringTableCheck(s, buf, 18) && StringTableCheck(s, buf, 19) by {
      assert HeaderCheck(a, buf, 18) && HeaderCheck(a, buf, 19);
    }
  }

  lemma SectionEntryInside(shoff: nat, idx: nat, n: nat, size: nat, bufsize: nat)
    requires idx < n && shoff + n * size <= bufsize
    ensures shoff + idx * size + size <= bufsize
  {
    assert idx * size + size == (idx + 1) * size;
    assert (idx + 1) * size <= n * size;
  }

  /** A buffer too short for a header fails with "Not enough data" whatever it holds. */
  lemma ShortBufferFailsFirst(a: Arch, buf: seq<byte>)
    requires |buf| < MinHeaderBytes
    ensures ValidateHeader(a, buf) == Some(NotEnoughData)
  {
  }

  /** With enough bytes, a wrong magic number is the first failure, whatever follows it. */
  lemma BadMagicFailsSecond(a: Arch, buf: seq<byte>)
    requires |buf| >= MinHeaderBytes
    requires buf[0] != 0x7F || buf[1] != 0x45 || buf[2] != 0x4C || buf[3] != 0x46
    ensures ValidateHeader(a, buf) == Some(NotElf)
  {
    assert HeaderCheck(a, buf, 0) && !HeaderCheck(a, buf, 1);
  }

  /** Only ET_DYN objects are accepted: an executable (e_type 2) never is. */
  lemma OnlySharedObjectsAccepted(a: Arch, buf: seq<byte>)
    requires |buf| >= MinHeaderBytes && DecodeHeader(a, buf).etype != EtDyn
    ensures ValidateHeader(a, buf) != None
  {
    assert !HeaderCheck(a, buf, 7);
  }

  /** The program-header table bound of mojoelf.c:194 as the C code computes it:
      the sum is a uintptr, so it wraps and a table ending past the address
      space passes. The same holds for mojoelf.c:148, 158 and 196. */
  lemma WrappedTableBoundPassesAsWritten()
    ensures var off := WordModulus(X86_64) - ProgramHeaderSize(X86_64);
            && FitsAsWritten(off, ProgramHeaderSize(X86_64), 64, WordModulus(X86_64))
            && !Fits(off, ProgramHeaderSize(X86_64), 64)
  {
    var m := WordModulus(X86_64);
    assert m == 0x1_0000_0000_0000_0000;
    var off := m - 56;
    assert (off + 56) % m == 0;
  }
}
