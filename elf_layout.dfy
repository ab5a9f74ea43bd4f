/** The program-header scan, the page rounding and the construction of the
    memory image in MOJOELF_dlopen_mem (mojoelf.c:358-415), following chapter 5
    of the System V gABI, "Program Header". The image is a byte array; the OS
    mapping itself is not modelled. */
module ElfLayout {
  import opened Bytes
  import opened ElfHeader

  const PtLoad := 1
  const PtDynamic := 2
  const PageSize := 4096

  /** The initial base, (uintptr) -1. */
  function Top(a: Arch): (r: nat)
    ensures r + 1 == WordModulus(a)
  {
    WordModulus(a) - 1
  }

  /** A program header that the loader maps: PT_LOAD with a non-empty memory image. */
  predicate IsLoad(p: Program)
  {
    p.ptype == PtLoad && p.memsz > 0
  }

  /** The program-header table, decoded entry by entry from e_phoff. */
  function Programs(a: Arch, buf: seq<byte>, phoff: nat, phnum: nat): (r: seq<Program>)
    requires phoff + phnum * ProgramHeaderSize(a) <= |buf|
    ensures |r| == phnum
    ensures forall i :: 0 <= i < phnum ==>
              (SectionEntryInside(phoff, i, phnum, ProgramHeaderSize(a), |buf|);
               phoff + i * ProgramHeaderSize(a) + ProgramHeaderSize(a) <= |buf| &&
               r[i] == DecodeProgram(a, buf, phoff + i * ProgramHeaderSize(a)))
  {
    seq(phnum, i requires 0 <= i < phnum =>
      SectionEntryInside(phoff, i, phnum, ProgramHeaderSize(a), |buf|);
      DecodeProgram(a, buf, phoff + i * ProgramHeaderSize(a)))
  }

  /** What the scan has accumulated: the lowest loadable address (starting at
      (uintptr)-1), the highest end address (starting at 0) and the index of
      the PT_DYNAMIC header. */
  datatype Scan = Scan(base: nat, maxEnd: nat, dynamic: Option<nat>)

  datatype ScanResult = ScanOk(scan: Scan) | ScanFail(error: LoadError, at: nat)

  /** One iteration of the scan over header i. */
  function ScanStep(p: Program, i: nat, st: Scan, bufsize: nat): ScanResult
  {
    if ValidateProgram(p, bufsize).Some? then ScanFail(ValidateProgram(p, bufsize).value, i)
    else if IsLoad(p) then
      ScanOk(Scan(if p.vaddr < st.base then p.vaddr else st.base,
                  if p.vaddr + p.memsz > st.maxEnd then p.vaddr + p.memsz else st.maxEnd,
                  st.dynamic))
    else if p.ptype == PtDynamic then
      if st.dynamic.Some? then ScanFail(MultipleDynamic, i)
      else ScanOk(st.(dynamic := Some(i)))
    else ScanOk(st)
  }

  /** The scan over the first n headers, starting from base `top`. */
  function ScanPrefix(phs: seq<Program>, n: nat, bufsize: nat, top: nat): ScanResult
    requires n <= |phs|
  {
    if n == 0 then ScanOk(Scan(top, 0, None))
    else match ScanPrefix(phs, n - 1, bufsize, top)
      case ScanFail(e, at) => ScanFail(e, at)
      case ScanOk(st) => ScanStep(phs[n - 1], n - 1, st, bufsize)
  }

  /** Once the scan has failed, later headers do not change the failure. */
  lemma {:induction false} FailurePersists(phs: seq<Program>, m: nat, n: nat, bufsize: nat, top: nat)
    requires m <= n <= |phs|
    requires ScanPrefix(phs, m, bufsize, top).ScanFail?
    ensures ScanPrefix(phs, n, bufsize, top) == ScanPrefix(phs, m, bufsize, top)
    decreases n - m
  {
    if m < n {
      FailurePersists(phs, m, n - 1, bufsize, top);
    }
  }

  /** The first loop of MOJOELF_dlopen_mem (mojoelf.c:359-378). */
  method ScanProgramHeaders(phs: seq<Program>, bufsize: nat, top: nat) returns (r: ScanResult)
    ensures r == ScanPrefix(phs, |phs|, bufsize, top)
  {
    var base: nat, maxEnd: nat, dynamic: Option<nat> := top, 0, None;
    var i := 0;
    while i < |phs|
      invariant 0 <= i <= |phs|
      invariant ScanPrefix(phs, i, bufsize, top) == ScanOk(Scan(base, maxEnd, dynamic))
    {
      var p := phs[i];
      var bad := ValidateProgram(p, bufsize);
      if bad.Some? {
        FailurePersists(phs, i + 1, |phs|, bufsize, top);
        return ScanFail(bad.value, i);
      } else if p.ptype == PtLoad && p.memsz > 0 {
        var endAddr := p.vaddr + p.memsz;
        if endAddr > maxEnd {
          maxEnd := endAddr;
        }
        if p.vaddr < base {
          base := p.vaddr;
        }
      } else if p.ptype == PtDynamic {
        if dynamic.Some? {
          FailurePersists(phs, i + 1, |phs|, bufsize, top);
          return ScanFail(MultipleDynamic, i);
        }
        dynamic := Some(i);
      }
      i := i + 1;
    }
    r := ScanOk(Scan(base, maxEnd, dynamic));
  }

  /** A successful scan of n headers: each is valid; base is the lowest load
      address (or top when there is no load) and maxEnd the highest load end
      (or 0); dynamic is the one PT_DYNAMIC header, if any. */
  lemma {:induction false} ScanOkMeans(phs: seq<Program>, n: nat, bufsize: nat, top: nat)
    requires n <= |phs|
    requires forall i :: 0 <= i < |phs| ==> phs[i].vaddr <= top
    requires ScanPrefix(phs, n, bufsize, top).ScanOk?
    ensures var st := ScanPrefix(phs, n, bufsize, top).scan;
      && (forall i :: 0 <= i < n ==> ValidateProgram(phs[i], bufsize) == None)
      && (forall i :: 0 <= i < n && IsLoad(phs[i]) ==>
            st.base <= phs[i].vaddr && phs[i].vaddr + phs[i].memsz <= st.maxEnd)
      && (st.base == top || exists i :: 0 <= i < n && IsLoad(phs[i]) && st.base == phs[i].vaddr)
      && (st.maxEnd == 0 || exists i :: 0 <= i < n && IsLoad(phs[i]) && st.maxEnd == phs[i].vaddr + phs[i].memsz)
      && (st.maxEnd == 0 <==> forall i :: 0 <= i < n ==> !IsLoad(phs[i]))
      && (forall i :: 0 <= i < n && !IsLoad(phs[i]) && phs[i].ptype == PtDynamic ==> st.dynamic == Some(i))
      && (st.dynamic.Some? ==> st.dynamic.value < n && !IsLoad(phs[st.dynamic.value])
                               && phs[st.dynamic.value].ptype == PtDynamic)
  {
    if n > 0 {
      ScanOkMeans(phs, n - 1, bufsize, top);
      var prev := ScanPrefix(phs, n - 1, bufsize, top).scan;
      var st := ScanPrefix(phs, n, bufsize, top).scan;
      var p := phs[n - 1];
      if IsLoad(p) {
        assert st.base == p.vaddr || st.base == prev.base;
        assert st.maxEnd == p.vaddr + p.memsz || st.maxEnd == prev.maxEnd;
      }
    }
  }

  /** A scan fails exactly at the first header that is invalid or is a second
      PT_DYNAMIC; everything before it scanned cleanly. */
  lemma {:induction false} ScanFailMeans(phs: seq<Program>, n: nat, bufsize: nat, top: nat)
    requires n <= |phs|
    requires ScanPrefix(phs, n, bufsize, top).ScanFail?
    ensures var f := ScanPrefix(phs, n, bufsize, top);
      && f.at < n && ScanPrefix(phs, f.at, bufsize, top).ScanOk?
      && ScanStep(phs[f.at], f.at, ScanPrefix(phs, f.at, bufsize, top).scan, bufsize)
           == ScanFail(f.error, f.at)
  {
    if ScanPrefix(phs, n - 1, bufsize, top).ScanFail? {
      ScanFailMeans(phs, n - 1, bufsize, top);
    }
  }

  /** A second PT_DYNAMIC header among valid headers fails the scan with
      "Multiple PT_DYNAMIC tables" when it is reached. */
  lemma {:induction false} SecondDynamicFails(phs: seq<Program>, i: nat, j: nat, bufsize: nat, top: nat)
    requires i < j < |phs|
    requires phs[i].ptype == PtDynamic && phs[j].ptype == PtDynamic
    requires forall k :: 0 <= k < |phs| ==> phs[k].vaddr <= top
    requires ScanPrefix(phs, j, bufsize, top).ScanOk?
    requires ValidateProgram(phs[j], bufsize) == None
    ensures ScanPrefix(phs, j + 1, bufsize, top) == ScanFail(MultipleDynamic, j)
  {
    ScanOkMeans(phs, j, bufsize, top);
    assert !IsLoad(phs[i]);
  }

  /** The final page-aligned base and mapping length (mojoelf.c:386-388). */
  function RoundLayout(base: nat, maxEnd: nat): (r: (nat, nat))
    requires base <= maxEnd
    ensures r.0 % PageSize == 0 && r.0 <= base && base - r.0 < PageSize
    ensures r.1 % PageSize == 0
    ensures maxEnd - r.0 < r.1 <= maxEnd - r.0 + PageSize
    ensures (maxEnd - r.0) % PageSize == 0 ==> r.1 == maxEnd - r.0 + PageSize
  {
    var pageBase := base - base % PageSize;
    var span := maxEnd - pageBase;
    (pageBase, span + (PageSize - span % PageSize))
  }

  /** One iteration of the scan as compiled: the bound of validate_elf_program
      (mojoelf.c:148) and endaddr = p_vaddr + p_memsz (mojoelf.c:366) are
      size_t sums and wrap at the word modulus. */
  function ScanStepAsWritten(a: Arch, p: Program, i: nat, st: Scan, bufsize: nat): ScanResult
  {
    var bad := ValidateProgramAsWritten(a, p, bufsize);
    if bad.Some? then ScanFail(bad.value, i)
    else if IsLoad(p) then
      var endAddr := (p.vaddr + p.memsz) % WordModulus(a);
      ScanOk(Scan(if p.vaddr < st.base then p.vaddr else st.base,
                  if endAddr > st.maxEnd then endAddr else st.maxEnd,
                  st.dynamic))
    else if p.ptype == PtDynamic then
      if st.dynamic.Some? then ScanFail(MultipleDynamic, i)
      else ScanOk(st.(dynamic := Some(i)))
    else ScanOk(st)
  }

  /** The compiled scan over the first n headers. */
  function ScanPrefixAsWritten(a: Arch, phs: seq<Program>, n: nat, bufsize: nat, top: nat): ScanResult
    requires n <= |phs|
  {
    if n == 0 then ScanOk(Scan(top, 0, None))
    else match ScanPrefixAsWritten(a, phs, n - 1, bufsize, top)
      case ScanFail(e, at) => ScanFail(e, at)
      case ScanOk(st) => ScanStepAsWritten(a, phs[n - 1], n - 1, st, bufsize)
  }

  /** No header's file range or memory range ends past the address space. */
  predicate NoScanWrap(a: Arch, phs: seq<Program>)
  {
    forall i :: 0 <= i < |phs| ==>
      phs[i].offset + phs[i].filesz < WordModulus(a) && phs[i].vaddr + phs[i].memsz < WordModulus(a)
  }

  /** When no sum wraps, the compiled scan is the exact one. */
  lemma {:induction false} ScanAsWrittenAgrees(a: Arch, phs: seq<Program>, n: nat, bufsize: nat, top: nat)
    requires n <= |phs| && NoScanWrap(a, phs)
    ensures ScanPrefixAsWritten(a, phs, n, bufsize, top) == ScanPrefix(phs, n, bufsize, top)
  {
    if n > 0 {
      ScanAsWrittenAgrees(a, phs, n - 1, bufsize, top);
      match ScanPrefix(phs, n - 1, bufsize, top)
      case ScanFail(_, _) =>
      case ScanOk(st) => ScanStepAsWrittenAgrees(a, phs[n - 1], n - 1, st, bufsize);
    }
  }

  lemma ScanStepAsWrittenAgrees(a: Arch, p: Program, i: nat, st: Scan, bufsize: nat)
    requires p.offset + p.filesz < WordModulus(a) && p.vaddr + p.memsz < WordModulus(a)
    ensures ScanStepAsWritten(a, p, i, st, bufsize) == ScanStep(p, i, st, bufsize)
  {
    var bad := ValidateProgramAsWritten(a, p, bufsize);
    assert bad == ValidateProgram(p, bufsize);
    if bad.None? && IsLoad(p) {
      SmallRemainder(p.vaddr + p.memsz, WordModulus(a));
    }
  }

  lemma SmallRemainder(x: nat, m: nat)
    requires x < m
    ensures x % m == x
  {
  }

  /** The page rounding as compiled: `mmaplen -= base` and the addition of
      mojoelf.c:387-388 wrap at the word modulus. RoundLayoutAsWrittenAgrees:
      it is RoundLayout whenever base <= maxEnd and the rounded length stays
      inside the address space. */
  function RoundLayoutAsWritten(a: Arch, base: nat, maxEnd: nat): (r: (nat, nat))
  {
    var pageBase := base - base % PageSize;
    var span := (maxEnd - pageBase) % WordModulus(a);
    (pageBase, (span + (PageSize - span % PageSize)) % WordModulus(a))
  }

  lemma RoundLayoutAsWrittenAgrees(a: Arch, base: nat, maxEnd: nat)
    requires base <= maxEnd && maxEnd + PageSize < WordModulus(a)
    ensures RoundLayoutAsWritten(a, base, maxEnd) == RoundLayout(base, maxEnd)
  {
    var m := WordModulus(a);
    var pageBase := base - base % PageSize;
    var span := maxEnd - pageBase;
    SmallRemainder(span, m);
    var len := span + (PageSize - span % PageSize);
    SmallRemainder(len, m);
  }

  /** A PT_LOAD at 2^64 - 4096 with 4096 bytes of memory, and a PT_DYNAMIC:
      the compiled end address wraps to 0, so mmaplen stays 0 and the open
      fails with "No loadable pages" (mojoelf.c:380-381) although the header is
      loadable. The exact scan ends at 2^64. */
  lemma WrappedEndHidesLoadAsWritten()
    ensures var m := WordModulus(X86_64);
            var phs := [Program(PtLoad, 6, 0, m - PageSize, 0, PageSize), Program(PtDynamic, 6, 0, 0, 0, 0)];
            && IsLoad(phs[0])
            && ScanPrefixAsWritten(X86_64, phs, 2, 64, Top(X86_64)) == ScanOk(Scan(m - PageSize, 0, Some(1)))
            && ScanPrefix(phs, 2, 64, Top(X86_64)) == ScanOk(Scan(m - PageSize, m, Some(1)))
  {
    var m := WordModulus(X86_64);
    var phs := [Program(PtLoad, 6, 0, m - PageSize, 0, PageSize), Program(PtDynamic, 6, 0, 0, 0, 0)];
    assert (phs[0].vaddr + phs[0].memsz) % m == 0;
    assert ScanPrefixAsWritten(X86_64, phs, 1, 64, Top(X86_64)) == ScanOk(Scan(m - PageSize, 0, None));
    assert ScanPrefix(phs, 1, 64, Top(X86_64)) == ScanOk(Scan(m - PageSize, m, None));
  }

  /** Two PT_LOADs, at 0x2000 with 0x1000 bytes of memory and at 0x3000 with
      0x2000 file bytes and 2^64 - 0x2000 bytes of memory, and a PT_DYNAMIC,
      in a 0x2000-byte file: the second end address wraps to 0x1000, so the
      compiled scan keeps 0x3000 as the end and maps 0x2000 bytes from 0x2000.
      The memcpy of mojoelf.c:411 then writes the second segment's file
      bytes up to offset 0x3000 of that mapping. */
  lemma WrappedEndOverrunsAsWritten()
    ensures var m := WordModulus(X86_64);
            var phs := [Program(PtLoad, 6, 0, 0x2000, 0, 0x1000), Program(PtLoad, 6, 0, 0x3000, 0x2000, m - 0x2000),
                        Program(PtDynamic, 6, 0, 0, 0, 0)];
            && ScanPrefixAsWritten(X86_64, phs, 3, 0x2000, Top(X86_64)) == ScanOk(Scan(0x2000, 0x3000, Some(2)))
            && RoundLayoutAsWritten(X86_64, 0x2000, 0x3000) == (0x2000, 0x2000)
            && phs[1].vaddr - 0x2000 + phs[1].filesz > 0x2000
  {
    var m := WordModulus(X86_64);
    var phs := [Program(PtLoad, 6, 0, 0x2000, 0, 0x1000), Program(PtLoad, 6, 0, 0x3000, 0x2000, m - 0x2000),
                Program(PtDynamic, 6, 0, 0, 0, 0)];
    assert ScanPrefixAsWritten(X86_64, phs, 1, 0x2000, Top(X86_64)) == ScanOk(Scan(0x2000, 0x3000, None));
    assert (phs[1].vaddr + phs[1].memsz) % m == 0x1000;
    assert ScanPrefixAsWritten(X86_64, phs, 2, 0x2000, Top(X86_64)) == ScanOk(Scan(0x2000, 0x3000, None));
  }

  /** The page protection mojoelf.c:408-410 derives from p_flags. */
  datatype Prot = Prot(exec: bool, write: bool, read: bool)

  const ReadWrite := Prot(false, true, true)

  function ProtOf(flags: nat): Prot
    requires flags < 0x1_0000_0000
  {
    var f := flags as bv32;
    Prot(f & 1 != 0, f & 2 != 0, f & 4 != 0)
  }

  /** mprotect is skipped exactly for segments whose PF_X, PF_W, PF_R bits are
      PF_W|PF_R, since the region is mapped read-write. */
  lemma ProtectSkippedIffReadWrite(flags: nat)
    requires flags < 0x1_0000_0000
    ensures ProtOf(flags) == ReadWrite <==> (flags as bv32) & 7 == 6
  {
    var f := flags as bv32;
    assert f & 7 == (f & 1) | (f & 2) | (f & 4);
  }

  /** img with data written at offset dst. */
  function CopyAt(img: seq<byte>, dst: nat, data: seq<byte>): (r: seq<byte>)
    requires dst + |data| <= |img|
    ensures |r| == |img|
    ensures forall k :: 0 <= k < |img| ==> r[k] == if dst <= k < dst + |data| then data[k - dst] else img[k]
  {
    img[..dst] + data + img[dst + |data|..]
  }

  /** The segments fit the region [base, base + len) and the file. */
  predicate SegmentsFit(phs: seq<Program>, buf: seq<byte>, base: nat, len: nat)
  {
    forall i :: 0 <= i < |phs| && IsLoad(phs[i]) ==>
      && base <= phs[i].vaddr && phs[i].vaddr + phs[i].memsz <= base + len
      && phs[i].filesz <= phs[i].memsz && phs[i].offset + phs[i].filesz <= |buf|
  }

  /** The file bytes segment p places in the image. */
  function FileBytes(p: Program, buf: seq<byte>): seq<byte>
    requires p.offset + p.filesz <= |buf|
  {
    buf[p.offset..p.offset + p.filesz]
  }

  /** The image after the first n headers have been placed. */
  function Placed(phs: seq<Program>, buf: seq<byte>, base: nat, len: nat, n: nat): (r: seq<byte>)
    requires n <= |phs| && SegmentsFit(phs, buf, base, len)
    ensures |r| == len
  {
    if n == 0 then seq(len, _ => 0)
    else
      var prev := Placed(phs, buf, base, len, n - 1);
      var p := phs[n - 1];
      if IsLoad(p) then CopyAt(prev, p.vaddr - base, FileBytes(p, buf)) else prev
  }

  /** Whether image byte k holds file bytes of segment i. */
  predicate Covers(p: Program, base: nat, k: nat)
  {
    IsLoad(p) && p.vaddr >= base && p.vaddr - base <= k < p.vaddr - base + p.filesz
  }

  /** Bytes no placed segment copies into are zero: in particular the
      [p_filesz, p_memsz) tail of a segment stays zero unless another segment's
      file bytes land there. */
  lemma {:induction false} UncoveredBytesZero(phs: seq<Program>, buf: seq<byte>, base: nat, len: nat, n: nat, k: nat)
    requires n <= |phs| && SegmentsFit(phs, buf, base, len) && k < len
    requires forall i :: 0 <= i < n ==> !Covers(phs[i], base, k)
    ensures Placed(phs, buf, base, len, n)[k] == 0
  {
    if n > 0 {
      UncoveredBytesZero(phs, buf, base, len, n - 1, k);
      assert !Covers(phs[n - 1], base, k);
    }
  }

  /** A byte copied by segment i and by no later segment holds the file byte
      at p_offset + (k - (p_vaddr - base)). */
  lemma {:induction false} CoveredBytesFromFile(phs: seq<Program>, buf: seq<byte>, base: nat, len: nat,
                                                 n: nat, i: nat, k: nat)
    requires n <= |phs| && SegmentsFit(phs, buf, base, len) && k < len
    requires i < n && Covers(phs[i], base, k)
    requires forall j :: i < j < n ==> !Covers(phs[j], base, k)
    ensures phs[i].offset + (k - (phs[i].vaddr - base)) < |buf|
    ensures Placed(phs, buf, base, len, n)[k] == buf[phs[i].offset + (k - (phs[i].vaddr - base))]
  {
    if n - 1 != i {
      CoveredBytesFromFile(phs, buf, base, len, n - 1, i, k);
      assert !Covers(phs[n - 1], base, k);
    }
  }

  /** The memcpy of mojoelf.c:411: data written into img at offset dst. */
  method PlaceSegment(img: array<byte>, dst: nat, data: seq<byte>)
    requires dst + |data| <= img.Length
    modifies img
    ensures img[..] == CopyAt(old(img[..]), dst, data)
  {
    forall k | 0 <= k < |data| {
      img[dst + k] := data[k];
    }
  }

  /** One request to change page protection: region offset, length, protection. */
  datatype ProtectCall = ProtectCall(offset: nat, len: nat, prot: Prot)

  /** The mprotect calls made for the first n headers. */
  function ProtectCalls(phs: seq<Program>, base: nat, n: nat): seq<ProtectCall>
    requires n <= |phs|
    requires forall i :: 0 <= i < |phs| ==> phs[i].flags < 0x1_0000_0000
    requires forall i :: 0 <= i < |phs| && IsLoad(phs[i]) ==> base <= phs[i].vaddr
  {
    if n == 0 then []
    else
      var p := phs[n - 1];
      ProtectCalls(phs, base, n - 1) +
      (if IsLoad(p) && ProtOf(p.flags) != ReadWrite then [ProtectCall(p.vaddr - base, p.memsz, ProtOf(p.flags))] else [])
  }

  /** Whether the mprotect request for header i is made and fails. */
  predicate ProtectFails(p: Program, i: nat, protectOk: nat -> bool)
    requires p.flags < 0x1_0000_0000
  {
    IsLoad(p) && ProtOf(p.flags) != ReadWrite && !protectOk(i)
  }

  /** The first header, from k on, whose mprotect request is made and fails. */
  function FirstProtectFailure(phs: seq<Program>, protectOk: nat -> bool, k: nat): (r: Option<nat>)
    requires k <= |phs|
    requires forall i :: 0 <= i < |phs| ==> phs[i].flags < 0x1_0000_0000
    ensures r.Some? ==> k <= r.value < |phs| && ProtectFails(phs[r.value], r.value, protectOk)
    decreases |phs| - k
  {
    if k == |phs| then None
    else if ProtectFails(phs[k], k, protectOk) then Some(k)
    else FirstProtectFailure(phs, protectOk, k + 1)
  }

  /** No request from k on fails exactly when there is no first failure, and
      none fails before the first one. */
  lemma {:induction false} FirstProtectFailureMeans(phs: seq<Program>, protectOk: nat -> bool, k: nat)
    requires k <= |phs|
    requires forall i :: 0 <= i < |phs| ==> phs[i].flags < 0x1_0000_0000
    ensures var r := FirstProtectFailure(phs, protectOk, k);
            && (r.None? <==> forall i :: k <= i < |phs| ==> !ProtectFails(phs[i], i, protectOk))
            && (r.Some? ==> forall i :: k <= i < r.value ==> !ProtectFails(phs[i], i, protectOk))
    decreases |phs| - k
  {
    if k < |phs| && !ProtectFails(phs[k], k, protectOk) {
      FirstProtectFailureMeans(phs, protectOk, k + 1);
    }
  }

  /** One iteration of the second loop: a loadable header's file bytes are
      copied into place, and the protection it needs, if not read-write, is
      returned as a request. */
  method PlaceHeader(img: array<byte>, phs: seq<Program>, buf: seq<byte>, base: nat, i: nat)
    returns (request: Option<ProtectCall>)
    requires i < |phs| && SegmentsFit(phs, buf, base, img.Length)
    requires forall j :: 0 <= j < |phs| ==> phs[j].flags < 0x1_0000_0000
    requires img[..] == Placed(phs, buf, base, img.Length, i)
    modifies img
    ensures img[..] == Placed(phs, buf, base, img.Length, i + 1)
    ensures ProtectCalls(phs, base, i + 1) ==
            ProtectCalls(phs, base, i) + (if request.Some? then [request.value] else [])
    ensures request.Some? <==> IsLoad(phs[i]) && ProtOf(phs[i].flags) != ReadWrite
  {
    var p := phs[i];
    request := None;
    if IsLoad(p) {
      var dst := p.vaddr - base;
      var prot := ProtOf(p.flags);
      PlaceSegment(img, dst, FileBytes(p, buf));
      if prot != ReadWrite {
        request := Some(ProtectCall(dst, p.memsz, prot));
      }
    }
  }

  /** One iteration of the second loop with its mprotect outcome: failed says
      whether the request for header i was made and failed. */
  method LoadStep(img: array<byte>, phs: seq<Program>, buf: seq<byte>, base: nat, protectOk: nat -> bool,
                  i: nat, calls: seq<ProtectCall>)
    returns (next: seq<ProtectCall>, failed: bool)
    requires i < |phs| && SegmentsFit(phs, buf, base, img.Length)
    requires forall j :: 0 <= j < |phs| ==> phs[j].flags < 0x1_0000_0000
    requires img[..] == Placed(phs, buf, base, img.Length, i) && calls == ProtectCalls(phs, base, i)
    modifies img
    ensures img[..] == Placed(phs, buf, base, img.Length, i + 1) && next == ProtectCalls(phs, base, i + 1)
    ensures failed ==> FirstProtectFailure(phs, protectOk, i) == Some(i)
    ensures !failed ==> FirstProtectFailure(phs, protectOk, i) == FirstProtectFailure(phs, protectOk, i + 1)
  {
    var request := PlaceHeader(img, phs, buf, base, i);
    next := calls;
    failed := false;
    if request.Some? {
      next := calls + [request.value];
      failed := !protectOk(i);
    }
  }

  /** The zero-filled region the segments are placed in (the memset of mojoelf.c:398). */
  method ZeroImage(phs: seq<Program>, buf: seq<byte>, base: nat, len: nat) returns (img: array<byte>)
    requires SegmentsFit(phs, buf, base, len)
    ensures fresh(img) && img[..] == Placed(phs, buf, base, len, 0)
  {
    img := new byte[len](_ => 0);
    assert img[..] == Placed(phs, buf, base, len, 0);
  }

  /** The second loop of MOJOELF_dlopen_mem (mojoelf.c:398-415): a zero-filled
      region of len bytes receives each loadable segment's file bytes at
      p_vaddr - base, and each segment whose protection is not read-write gets
      an mprotect request; protectOk(i) says whether the request for header i
      succeeds. The loop stops at the first failed request. */
  method LoadSegments(phs: seq<Program>, buf: seq<byte>, base: nat, len: nat, protectOk: nat -> bool)
    returns (img: array<byte>, calls: seq<ProtectCall>, failedAt: Option<nat>)
    requires SegmentsFit(phs, buf, base, len)
    requires forall i :: 0 <= i < |phs| ==> phs[i].flags < 0x1_0000_0000
    ensures fresh(img)
    ensures failedAt == FirstProtectFailure(phs, protectOk, 0)
    ensures failedAt.Some? ==> img[..] == Placed(phs, buf, base, len, failedAt.value + 1)
                               && calls == ProtectCalls(phs, base, failedAt.value + 1)
    ensures failedAt.None? ==> img[..] == Placed(phs, buf, base, len, |phs|)
                               && calls == ProtectCalls(phs, base, |phs|)
  {
    img := ZeroImage(phs, buf, base, len);
    calls := [];
    failedAt := None;
    var i, failed := 0, false;
    while i < |phs| && !failed
      invariant 0 <= i <= |phs| && img.Length == len
      invariant img[..] == Placed(phs, buf, base, len, i)
      invariant calls == ProtectCalls(phs, base, i)
      invariant failed ==> 0 < i && FirstProtectFailure(phs, protectOk, 0) == Some(i - 1)
      invariant !failed ==> FirstProtectFailure(phs, protectOk, 0) == FirstProtectFailure(phs, protectOk, i)
    {
      calls, failed := LoadStep(img, phs, buf, base, protectOk, i, calls);
      i := i + 1;
    }
    if failed {
      failedAt := Some(i - 1);
    }
  }
}
