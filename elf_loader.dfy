/** The public entry points of mojoelf.c: MOJOELF_dlerror, MOJOELF_dlsym,
    MOJOELF_dlclose and MOJOELF_dlopen_mem. The global dlerror slot is a field
    of class Loader; every allocation, mapping, protection change, dependency
    open and release the C code performs is appended to a ghost log. What the
    operating system does (calloc, mmap, mprotect, dlopen) is given as an
    environment that says which calls succeed. */
module ElfLoader {
  import opened Bytes
  import opened ElfHeader
  import opened ElfLayout
  import opened ElfDynamic

  const DtFini := 13

  /** An exported symbol: its name and its address. */
  datatype Symbol = Symbol(name: string, addr: nat)

  /** A handle returned by the system dlopen for a DT_NEEDED dependency. */
  datatype Dep = Dep(id: nat)

  /** The ElfHandle struct. mapped says whether mmapaddr is not MAP_FAILED;
      syms and dlopens are None for NULL pointers. */
  datatype ElfHandle = ElfHandle(
    mapped: bool, mmapLen: nat,
    syms: Option<seq<Symbol>>,
    fini: Option<nat>,
    dlopensCount: nat, dlopens: Option<seq<Option<Dep>>>)

  /** What calloc and the assignment of MAP_FAILED leave in a new handle. */
  function NewHandle(): (r: ElfHandle)
    ensures !r.mapped && r.syms.None? && r.dlopens.None? && r.fini.None? && r.dlopensCount == 0
  {
    ElfHandle(false, 0, None, None, 0, None)
  }

  /** A fresh handle holds only its own memory: closing it frees the handle
      and does nothing else. */
  lemma NewHandleHoldsOnlyItself()
    ensures WellFormed(Some(NewHandle())) && Held(NewHandle()) == multiset{HandleMemory}
    ensures Teardown(Some(NewHandle())) == [FreeHandle]
  {
  }

  /** The dependency count never exceeds the dependency array. */
  predicate WellFormed(h: Option<ElfHandle>)
  {
    h.Some? && h.value.dlopens.Some? ==> h.value.dlopensCount <= |h.value.dlopens.value|
  }

  /** The effects the loader has on the outside world, in the order made. */
  datatype Action =
    | AllocHandle | MapRegion(len: nat) | Protect(call: ProtectCall) | AllocDeps(count: nat)
    | OpenDep(name: nat, dep: Dep)
    | CloseDep(dep: Dep) | FreeDepArray | Unmap(len: nat)
    | FreeSymbolName(index: nat) | FreeSymbolArray | FreeHandle

  /** What an action acquires or releases. */
  datatype Resource = HandleMemory | Region(len: nat) | DepArray | DepHandle(dep: Dep)

  function AcquiredBy(act: Action): multiset<Resource>
  {
    match act
    case AllocHandle => multiset{HandleMemory}
    case MapRegion(len) => multiset{Region(len)}
    case AllocDeps(_) => multiset{DepArray}
    case OpenDep(_, d) => multiset{DepHandle(d)}
    case _ => multiset{}
  }

  function ReleasedBy(act: Action): multiset<Resource>
  {
    match act
    case FreeHandle => multiset{HandleMemory}
    case Unmap(len) => multiset{Region(len)}
    case FreeDepArray => multiset{DepArray}
    case CloseDep(d) => multiset{DepHandle(d)}
    case _ => multiset{}
  }

  function Acquired(acts: seq<Action>): multiset<Resource>
  {
    if acts == [] then multiset{} else Acquired(acts[..|acts| - 1]) + AcquiredBy(acts[|acts| - 1])
  }

  function Released(acts: seq<Action>): multiset<Resource>
  {
    if acts == [] then multiset{} else Released(acts[..|acts| - 1]) + ReleasedBy(acts[|acts| - 1])
  }

  lemma {:induction false} AcquiredAppend(x: seq<Action>, y: seq<Action>)
    ensures Acquired(x + y) == Acquired(x) + Acquired(y)
    ensures Released(x + y) == Released(x) + Released(y)
    decreases |y|
  {
    if y == [] {
      assert x + y == x;
    } else {
      assert (x + y)[..|x + y| - 1] == x + y[..|y| - 1];
      AcquiredAppend(x, y[..|y| - 1]);
    }
  }

  /** The dependency handles among the first n slots. */
  function DepsHeld(deps: seq<Option<Dep>>, n: nat): multiset<Resource>
    requires n <= |deps|
  {
    if n == 0 then multiset{}
    else DepsHeld(deps, n - 1) + (if deps[n - 1].Some? then multiset{DepHandle(deps[n - 1].value)} else multiset{})
  }

  /** Everything a handle owns: its own memory, the region when mapped, the
      dependency array and the dependencies recorded in it. Symbol storage is
      left out: no handle ever gets symbols, since the open fails before
      relocation (mojoelf.c:516-519). */
  function Held(h: ElfHandle): multiset<Resource>
    requires WellFormed(Some(h))
  {
    HeldDeps(h) + HeldRegion(h) + multiset{HandleMemory}
  }

  function HeldDeps(h: ElfHandle): multiset<Resource>
    requires WellFormed(Some(h))
  {
    if h.dlopens.Some? then DepsHeld(h.dlopens.value, h.dlopensCount) + multiset{DepArray} else multiset{}
  }

  function HeldRegion(h: ElfHandle): multiset<Resource>
  {
    if h.mapped then multiset{Region(h.mmapLen)} else multiset{}
  }

  /** The dlclose calls for the first n dependency slots, in index order,
      skipping NULL slots. */
  function DepCloses(deps: seq<Option<Dep>>, n: nat): (r: seq<Action>)
    requires n <= |deps|
    ensures forall k :: 0 <= k < |r| ==> r[k].CloseDep?
  {
    if n == 0 then []
    else DepCloses(deps, n - 1) + (if deps[n - 1].Some? then [CloseDep(deps[n - 1].value)] else [])
  }

  lemma {:induction false} DepClosesRelease(deps: seq<Option<Dep>>, n: nat)
    requires n <= |deps|
    ensures Acquired(DepCloses(deps, n)) == multiset{}
    ensures Released(DepCloses(deps, n)) == DepsHeld(deps, n)
  {
    if n > 0 {
      DepClosesRelease(deps, n - 1);
      var prev := DepCloses(deps, n - 1);
      if deps[n - 1].Some? {
        var acts := prev + [CloseDep(deps[n - 1].value)];
        assert DepCloses(deps, n) == acts;
        assert acts[..|acts| - 1] == prev;
      } else {
        assert DepCloses(deps, n) == prev + [] == prev;
      }
    }
  }

  lemma OneAction(act: Action)
    ensures Acquired([act]) == AcquiredBy(act) && Released([act]) == ReleasedBy(act)
  {
    assert [act][..0] == [];
  }

  /** The number of non-NULL slots before slot i. */
  function LiveBefore(deps: seq<Option<Dep>>, i: nat): nat
    requires i <= |deps|
  {
    if i == 0 then 0 else LiveBefore(deps, i - 1) + (if deps[i - 1].Some? then 1 else 0)
  }

  /** Dependency i is closed at position LiveBefore(deps, i): the closes come
      in index order and there is one per live slot. */
  lemma {:induction false} DepClosesInOrder(deps: seq<Option<Dep>>, n: nat, i: nat)
    requires i < n <= |deps| && deps[i].Some?
    ensures |DepCloses(deps, n)| == LiveBefore(deps, n)
    ensures LiveBefore(deps, i) < LiveBefore(deps, n)
    ensures DepCloses(deps, n)[LiveBefore(deps, i)] == CloseDep(deps[i].value)
  {
    if i < n - 1 {
      DepClosesInOrder(deps, n - 1, i);
    } else {
      DepClosesLength(deps, n - 1);
    }
  }

  lemma {:induction false} DepClosesLength(deps: seq<Option<Dep>>, n: nat)
    requires n <= |deps|
    ensures |DepCloses(deps, n)| == LiveBefore(deps, n)
  {
    if n > 0 {
      DepClosesLength(deps, n - 1);
    }
  }

  /** free() of each symbol name, in index order. */
  function SymbolFrees(n: nat): (r: seq<Action>)
    ensures |r| == n && forall i :: 0 <= i < n ==> r[i] == FreeSymbolName(i)
  {
    seq(n, (i: int) requires 0 <= i < n => FreeSymbolName(i))
  }

  /** What MOJOELF_dlclose does to a handle (mojoelf.c:247-280): nothing for
      NULL; otherwise the dependencies, the dependency array, the mapping
      when there is one, the symbol names and array, and last the handle. */
  function Teardown(h: Option<ElfHandle>): (r: seq<Action>)
    requires WellFormed(h)
    ensures h.None? ==> r == []
    ensures h.Some? ==> |r| > 0 && r[|r| - 1] == FreeHandle
    ensures h.Some? ==> (Unmap(h.value.mmapLen) in r <==> h.value.mapped)
  {
    match h
    case None => []
    case Some(hd) => DepTeardown(hd) + RegionTeardown(hd) + SymbolTeardown(hd) + [FreeHandle]
  }

  function DepTeardown(h: ElfHandle): (r: seq<Action>)
    requires WellFormed(Some(h))
    ensures forall k :: 0 <= k < |r| ==> r[k].CloseDep? || r[k].FreeDepArray?
  {
    if h.dlopens.Some? then DepCloses(h.dlopens.value, h.dlopensCount) + [FreeDepArray] else []
  }

  function RegionTeardown(h: ElfHandle): (r: seq<Action>)
  {
    if h.mapped then [Unmap(h.mmapLen)] else []
  }

  function SymbolTeardown(h: ElfHandle): (r: seq<Action>)
    ensures forall k :: 0 <= k < |r| ==> r[k].FreeSymbolName? || r[k].FreeSymbolArray?
  {
    if h.syms.Some? then SymbolFrees(|h.syms.value|) + [FreeSymbolArray] else []
  }

  /** Closing a handle releases exactly what it holds and acquires nothing. */
  lemma TeardownReleasesHeld(h: ElfHandle)
    requires WellFormed(Some(h))
    ensures Acquired(Teardown(Some(h))) == multiset{}
    ensures Released(Teardown(Some(h))) == Held(h)
  {
    var deps, region, syms := DepTeardown(h), RegionTeardown(h), SymbolTeardown(h);
    DepTeardownReleases(h);
    RegionTeardownReleases(h);
    SymbolTeardownReleases(h);
    OneAction(FreeHandle);
    ReleaseOfFour(deps, region, syms, [FreeHandle], HeldDeps(h), HeldRegion(h));
  }

  /** Four pieces of activity that acquire nothing, the last freeing the
      handle's own memory. */
  lemma ReleaseOfFour(w: seq<Action>, x: seq<Action>, y: seq<Action>, z: seq<Action>,
                      rw: multiset<Resource>, rx: multiset<Resource>)
    requires Acquired(w) == multiset{} && Acquired(x) == multiset{} && Acquired(y) == multiset{} && Acquired(z) == multiset{}
    requires Released(w) == rw && Released(x) == rx && Released(y) == multiset{} && Released(z) == multiset{HandleMemory}
    ensures Acquired(w + x + y + z) == multiset{}
    ensures Released(w + x + y + z) == rw + rx + multiset{HandleMemory}
  {
    AccountOfFour(w, x, y, z);
  }

  lemma AccountOfFour(w: seq<Action>, x: seq<Action>, y: seq<Action>, z: seq<Action>)
    ensures Acquired(w + x + y + z) == Acquired(w) + Acquired(x) + Acquired(y) + Acquired(z)
    ensures Released(w + x + y + z) == Released(w) + Released(x) + Released(y) + Released(z)
  {
    AcquiredAppend(w, x);
    AcquiredAppend(w + x, y);
    AcquiredAppend(w + x + y, z);
  }

  lemma DepTeardownReleases(h: ElfHandle)
    requires WellFormed(Some(h))
    ensures Acquired(DepTeardown(h)) == multiset{}
    ensures Released(DepTeardown(h)) == HeldDeps(h)
  {
    if h.dlopens.Some? {
      DepClosesRelease(h.dlopens.value, h.dlopensCount);
      AcquiredAppend(DepCloses(h.dlopens.value, h.dlopensCount), [FreeDepArray]);
      OneAction(FreeDepArray);
    }
  }

  lemma RegionTeardownReleases(h: ElfHandle)
    ensures Acquired(RegionTeardown(h)) == multiset{}
    ensures Released(RegionTeardown(h)) == HeldRegion(h)
  {
    OneAction(Unmap(h.mmapLen));
  }

  lemma SymbolTeardownReleases(h: ElfHandle)
    ensures Acquired(SymbolTeardown(h)) == multiset{} && Released(SymbolTeardown(h)) == multiset{}
  {
    if h.syms.Some? {
      SymbolFreesRelease(|h.syms.value|);
      AcquiredAppend(SymbolFrees(|h.syms.value|), [FreeSymbolArray]);
      OneAction(FreeSymbolArray);
    }
  }

  lemma {:induction false} SymbolFreesRelease(n: nat)
    ensures Acquired(SymbolFrees(n)) == multiset{} && Released(SymbolFrees(n)) == multiset{}
  {
    if n > 0 {
      assert SymbolFrees(n)[..n - 1] == SymbolFrees(n - 1);
      SymbolFreesRelease(n - 1);
    }
  }

  /** The index of the first symbol named sym. */
  function FirstMatch(syms: seq<Symbol>, sym: string, k: nat): (r: Option<nat>)
    requires k <= |syms|
    ensures r.None? <==> forall i :: k <= i < |syms| ==> syms[i].name != sym
    ensures r.Some? ==> k <= r.value < |syms| && syms[r.value].name == sym
    ensures r.Some? ==> forall i :: k <= i < r.value ==> syms[i].name != sym
    decreases |syms| - k
  {
    if k == |syms| then None
    else if syms[k].name == sym then Some(k)
    else FirstMatch(syms, sym, k + 1)
  }

  /** Which OS and allocator calls succeed: calloc of the handle, mmap, mprotect
      for header i and calloc of the dependency array; loadDep holds the
      handle dlopen returns for each name (by its offset in the buffer) that
      it can open. */
  datatype Env = Env(handleAllocOk: bool, mmapOk: bool, protectOk: nat -> bool,
                     depsAllocOk: bool, loadDep: map<nat, Dep>)

  /** The fail: label of MOJOELF_dlopen_mem as written (mojoelf.c:526-528):
      it stores into retval->fini before dlclose, whether or not retval was
      ever allocated. */
  datatype FailPath = NullWrite | Cleanup(actions: seq<Action>)

  function FailLabelAsWritten(retval: Option<ElfHandle>): (r: FailPath)
    requires WellFormed(retval)
    ensures r == NullWrite <==> retval.None?
  {
    match retval
    case None => NullWrite
    case Some(h) => Cleanup(Teardown(Some(h.(fini := None))))
  }

  /** A buffer shorter than a header fails validation before the handle is
      allocated, so the fail: label as written writes through NULL. */
  lemma ShortBufferWritesNullAsWritten(a: Arch, buf: seq<byte>)
    requires |buf| < MinHeaderBytes
    ensures ValidateHeader(a, buf) == Some(NotEnoughData)
    ensures FailLabelAsWritten(None) == NullWrite
  {
  }

  /** The fail: label as intended: no handle means nothing to release. */
  function FailLabel(retval: Option<ElfHandle>): (r: seq<Action>)
    requires WellFormed(retval)
    ensures retval.None? ==> r == []
    ensures retval.Some? ==> |r| > 0 && r[|r| - 1] == FreeHandle
  {
    match retval
    case None => []
    case Some(h) => Teardown(Some(h.(fini := None)))
  }

  lemma FailLabelReleasesHeld(h: ElfHandle)
    requires WellFormed(Some(h))
    ensures Acquired(FailLabel(Some(h))) == multiset{} && Released(FailLabel(Some(h))) == Held(h)
  {
    TeardownReleasesHeld(h.(fini := None));
  }

  /** The string-table setup of mojoelf.c:349-351 as written: section header
      e_shstrndx is read even when e_shstrndx is 0, and maxstr is
      sh_size - 1 in a uintptr. */
  datatype Setup = SetupReadsOutside(offset: nat) | SetupDone(maxstr: nat, strtab: nat)

  function StringTableSetupAsWritten(a: Arch, buf: seq<byte>): (r: Setup)
    requires |buf| >= MinHeaderBytes
    ensures r.SetupReadsOutside? ==> r.offset + SectionHeaderSize(a) > |buf|
    ensures r.SetupDone? ==> r.maxstr < WordModulus(a)
  {
    var off := ShStrSectionOffset(a, DecodeHeader(a, buf));
    if off + SectionHeaderSize(a) > |buf| then SetupReadsOutside(off)
    else
      var s := DecodeSection(a, buf, off);
      SetupDone(WordMinusOne(a, s.size), s.offset)
  }

  /** x - 1 computed in a uintptr: 0 wraps to the largest value. */
  function WordMinusOne(a: Arch, x: nat): (r: nat)
    requires x < WordModulus(a)
    ensures x > 0 ==> r == x - 1
    ensures x == 0 ==> r == WordModulus(a) - 1
  {
    (x + WordModulus(a) - 1) % WordModulus(a)
  }

  /** An accepted header with no section headers at all (e_shnum = 0,
      e_shstrndx = 0, e_shoff at the end of the buffer) makes the setup read
      a section header past the buffer. */
  lemma EmptySectionTableReadsOutsideAsWritten(a: Arch, buf: seq<byte>)
    requires |buf| >= MinHeaderBytes
    requires DecodeHeader(a, buf).shnum == 0 && DecodeHeader(a, buf).shstrndx == 0
    requires DecodeHeader(a, buf).shoff == |buf|
    ensures FieldCheck(a, DecodeHeader(a, buf), |buf|, 14) && FieldCheck(a, DecodeHeader(a, buf), |buf|, 15)
    ensures forall k :: 16 <= k < HeaderChecks ==> HeaderCheck(a, buf, k)
    ensures StringTableSetupAsWritten(a, buf) == SetupReadsOutside(|buf|)
  {
  }

  /** A zero-sized section 0 (as the gABI's reserved null section always is)
      gives maxstr = 2^64 - 1 on x86-64 as written. The wrap is inert: the
      only reader of maxstr, the section walk of mojoelf.c:417-435, is
      compiled out by #if 0, so of this setup only the read of section
      header 0 past the buffer is a defect. */
  lemma EmptyStringTableUnderflowsAsWritten(buf: seq<byte>)
    requires |buf| >= MinHeaderBytes
    requires StringTableSetupAsWritten(X86_64, buf).SetupDone?
    requires DecodeSection(X86_64, buf, ShStrSectionOffset(X86_64, DecodeHeader(X86_64, buf))).size == 0
    ensures StringTableSetupAsWritten(X86_64, buf).maxstr == 0xFFFF_FFFF_FFFF_FFFF
  {
  }

  /** The last valid name index of the section-name string table: the setup
      as intended, made only when e_shstrndx names a non-empty table. */
  predicate IsLastNul(a: Arch, buf: seq<byte>, m: nat)
    requires |buf| >= MinHeaderBytes
  {
    var off := ShStrSectionOffset(a, DecodeHeader(a, buf));
    && off + SectionHeaderSize(a) <= |buf|
    && var s := DecodeSection(a, buf, off);
       && m + 1 == s.size && s.offset + m < |buf| && buf[s.offset + m] == 0
  }

  function StringTableLimit(a: Arch, buf: seq<byte>): (r: Option<nat>)
    requires HeaderOk(a, buf)
    ensures |buf| >= MinHeaderBytes
    ensures r.Some? ==> DecodeHeader(a, buf).shstrndx != 0 && IsLastNul(a, buf, r.value)
    ensures r.None? ==> DecodeHeader(a, buf).shstrndx == 0 || forall m :: !IsLastNul(a, buf, m)
  {
    HeaderOkMeans(a, buf);
    var h := DecodeHeader(a, buf);
    if h.shstrndx == 0 then None
    else
      HeaderOkStringTable(a, buf);
      var s := DecodeSection(a, buf, ShStrSectionOffset(a, h));
      if s.size == 0 then None else Some(s.size - 1)
  }

  /** The mprotect calls as log entries. */
  function ProtectActions(calls: seq<ProtectCall>): (r: seq<Action>)
    ensures |r| == |calls| && forall i :: 0 <= i < |calls| ==> r[i] == Protect(calls[i])
  {
    seq(|calls|, i requires 0 <= i < |calls| => Protect(calls[i]))
  }

  lemma {:induction false} ProtectActionsTouchNothing(calls: seq<ProtectCall>)
    ensures Acquired(ProtectActions(calls)) == multiset{} && Released(ProtectActions(calls)) == multiset{}
    decreases |calls|
  {
    if calls != [] {
      assert ProtectActions(calls)[..|calls| - 1] == ProtectActions(calls[..|calls| - 1]);
      ProtectActionsTouchNothing(calls[..|calls| - 1]);
    }
  }

  /** The second walk over the dynamic table so far: the dependency array of
      alloc slots, how many are filled, whether a dlopen failed, and the
      dlopen calls made. */
  datatype DepLoad = DepLoad(deps: seq<Option<Dep>>, count: nat, failed: bool, acts: seq<Action>)

  /** The C code writes dlopens[dlopens_count] without a test; the
      `count < alloc` test below keeps the model total and never fires when,
      as DepsStage arranges, alloc is the DT_NEEDED count (LoadDepsGuardIdle). */
  function LoadDepsPrefix(es: seq<DynEntry>, strtab: nat, loadDep: map<nat, Dep>, alloc: nat, n: nat): (r: DepLoad)
    requires n <= |es|
    ensures |r.deps| == alloc && r.count <= alloc
  {
    if n == 0 then DepLoad(seq(alloc, _ => None), 0, false, [])
    else
      var prev := LoadDepsPrefix(es, strtab, loadDep, alloc, n - 1);
      var e := es[n - 1];
      if prev.failed || e.tag != DtNeeded || prev.count >= alloc then prev
      else if strtab + e.val !in loadDep then prev.(failed := true)
      else
        var d := loadDep[strtab + e.val];
        DepLoad(prev.deps[prev.count := Some(d)], prev.count + 1, false,
                prev.acts + [OpenDep(strtab + e.val, d)])
  }

  /** With an array as large as the DT_NEEDED count, the walk fills slots
      0 .. count - 1, one per dependency opened, and the slots after them stay
      NULL; without a failure every DT_NEEDED entry is loaded. */
  lemma {:induction false} LoadDepsShape(es: seq<DynEntry>, strtab: nat, loadDep: map<nat, Dep>, alloc: nat, n: nat)
    requires n <= |es| && CountNeeded(es, n) <= alloc
    ensures var r := LoadDepsPrefix(es, strtab, loadDep, alloc, n);
      && r.count <= CountNeeded(es, n)
      && (!r.failed ==> r.count == CountNeeded(es, n))
      && (forall i :: 0 <= i < alloc ==> (r.deps[i].Some? <==> i < r.count))
  {
    if n > 0 {
      LoadDepsShape(es, strtab, loadDep, alloc, n - 1);
    }
  }

  /** With an array as large as the DT_NEEDED count, every DT_NEEDED entry
      finds a free slot: the bound test of LoadDepsPrefix never decides. */
  lemma LoadDepsGuardIdle(es: seq<DynEntry>, strtab: nat, loadDep: map<nat, Dep>, alloc: nat, n: nat)
    requires 0 < n <= |es| && CountNeeded(es, n) <= alloc && es[n - 1].tag == DtNeeded
    ensures LoadDepsPrefix(es, strtab, loadDep, alloc, n - 1).count < alloc
  {
    LoadDepsShape(es, strtab, loadDep, alloc, n - 1);
  }

  /** The dlopen calls of the walk acquire exactly the dependencies recorded
      in the array. */
  lemma {:induction false} LoadDepsAcquire(es: seq<DynEntry>, strtab: nat, loadDep: map<nat, Dep>, alloc: nat, n: nat)
    requires n <= |es|
    ensures var r := LoadDepsPrefix(es, strtab, loadDep, alloc, n); Acquired(r.acts) == DepsHeld(r.deps, r.count)
  {
    if n > 0 {
      LoadDepsAcquire(es, strtab, loadDep, alloc, n - 1);
      var prev := LoadDepsPrefix(es, strtab, loadDep, alloc, n - 1);
      var r := LoadDepsPrefix(es, strtab, loadDep, alloc, n);
      if LoadDepsOpens(es, strtab, loadDep, alloc, n) {
        LoadDepsOpenStep(es, strtab, loadDep, alloc, n);
      } else {
        LoadDepsKeeps(es, strtab, loadDep, alloc, n);
        assert Acquired(prev.acts) == DepsHeld(prev.deps, prev.count);
        assert Acquired(r.acts) == Acquired(prev.acts);
        assert DepsHeld(r.deps, r.count) == DepsHeld(prev.deps, prev.count);
      }
    }
  }

  /** Whether entry n - 1 opens a dependency. */
  predicate LoadDepsOpens(es: seq<DynEntry>, strtab: nat, loadDep: map<nat, Dep>, alloc: nat, n: nat)
    requires 0 < n <= |es|
  {
    var prev := LoadDepsPrefix(es, strtab, loadDep, alloc, n - 1);
    !prev.failed && es[n - 1].tag == DtNeeded && prev.count < alloc && strtab + es[n - 1].val in loadDep
  }

  /** An entry that opens nothing leaves the array, the count and the calls
      as they were. */
  lemma LoadDepsKeeps(es: seq<DynEntry>, strtab: nat, loadDep: map<nat, Dep>, alloc: nat, n: nat)
    requires 0 < n <= |es| && !LoadDepsOpens(es, strtab, loadDep, alloc, n)
    ensures var prev := LoadDepsPrefix(es, strtab, loadDep, alloc, n - 1);
            var r := LoadDepsPrefix(es, strtab, loadDep, alloc, n);
            r.acts == prev.acts && r.deps == prev.deps && r.count == prev.count
  {
  }

  lemma LoadDepsOpenStep(es: seq<DynEntry>, strtab: nat, loadDep: map<nat, Dep>, alloc: nat, n: nat)
    requires 0 < n <= |es|
    requires LoadDepsOpens(es, strtab, loadDep, alloc, n)
    requires var prev := LoadDepsPrefix(es, strtab, loadDep, alloc, n - 1);
      Acquired(prev.acts) == DepsHeld(prev.deps, prev.count)
    ensures var r := LoadDepsPrefix(es, strtab, loadDep, alloc, n); Acquired(r.acts) == DepsHeld(r.deps, r.count)
  {
    var prev := LoadDepsPrefix(es, strtab, loadDep, alloc, n - 1);
    var name := strtab + es[n - 1].val;
    var d := loadDep[name];
    assert LoadDepsPrefix(es, strtab, loadDep, alloc, n)
        == DepLoad(prev.deps[prev.count := Some(d)], prev.count + 1, false, prev.acts + [OpenDep(name, d)]);
    OpenStep(prev.acts, prev.deps, prev.count, name, d);
  }

  /** Opening one more dependency into slot count. */
  lemma OpenStep(acts: seq<Action>, deps: seq<Option<Dep>>, count: nat, name: nat, d: Dep)
    requires count < |deps| && Acquired(acts) == DepsHeld(deps, count)
    ensures Acquired(acts + [OpenDep(name, d)]) == DepsHeld(deps[count := Some(d)], count + 1)
  {
    var deps' := deps[count := Some(d)];
    AcquiredAppend(acts, [OpenDep(name, d)]);
    OneAction(OpenDep(name, d));
    assert deps[..count] == deps'[..count];
    DepsHeldPrefix(deps, deps', count);
  }

  /** The walk releases nothing. */
  lemma {:induction false} LoadDepsRelease(es: seq<DynEntry>, strtab: nat, loadDep: map<nat, Dep>, alloc: nat, n: nat)
    requires n <= |es|
    ensures Released(LoadDepsPrefix(es, strtab, loadDep, alloc, n).acts) == multiset{}
  {
    if n > 0 {
      LoadDepsRelease(es, strtab, loadDep, alloc, n - 1);
      var prev := LoadDepsPrefix(es, strtab, loadDep, alloc, n - 1);
      var r := LoadDepsPrefix(es, strtab, loadDep, alloc, n);
      if r.acts != prev.acts {
        var e := es[n - 1];
        var d := loadDep[strtab + e.val];
        assert r.acts == prev.acts + [OpenDep(strtab + e.val, d)];
        AcquiredAppend(prev.acts, [OpenDep(strtab + e.val, d)]);
        OneAction(OpenDep(strtab + e.val, d));
      }
    }
  }

  lemma {:induction false} DepsHeldPrefix(x: seq<Option<Dep>>, y: seq<Option<Dep>>, n: nat)
    requires n <= |x| && n <= |y| && x[..n] == y[..n]
    ensures DepsHeld(x, n) == DepsHeld(y, n)
  {
    if n > 0 {
      assert x[..n - 1] == y[..n - 1] by {
        assert x[..n - 1] == x[..n][..n - 1] && y[..n - 1] == y[..n][..n - 1];
      }
      assert x[n - 1] == x[..n][n - 1] && y[n - 1] == y[..n][n - 1];
      DepsHeldPrefix(x, y, n - 1);
    }
  }

  /** Once a dlopen has failed, later entries change nothing. */
  lemma {:induction false} FailedLoadPersists(es: seq<DynEntry>, strtab: nat, loadDep: map<nat, Dep>,
                                              alloc: nat, m: nat, n: nat)
    requires m <= n <= |es| && LoadDepsPrefix(es, strtab, loadDep, alloc, m).failed
    ensures LoadDepsPrefix(es, strtab, loadDep, alloc, n) == LoadDepsPrefix(es, strtab, loadDep, alloc, m)
    decreases n - m
  {
    if m < n {
      FailedLoadPersists(es, strtab, loadDep, alloc, m, n - 1);
    }
  }

  /** How far an open gets after some point: the error it stops with, what
      it did from that point on, and the handle as the fail: label finds it. */
  datatype Progress = Progress(error: LoadError, acts: seq<Action>, handle: ElfHandle)

  /** The fini pointer DT_FINI gives (mojoelf.c:476-480). */
  function FiniOf(es: seq<DynEntry>, ix: DynIndex): Option<nat>
    requires |ix.slots| == MaxDynTabs
    requires forall t :: 0 <= t < MaxDynTabs && ix.slots[t].Some? ==> ix.slots[t].value < |es|
  {
    if ix.slots[DtFini].Some? then Some(es[ix.slots[DtFini].value].ptr) else None
  }

  /** mojoelf.c:489-514 once the dependency array may be allocated: an array
      of needed slots (none when needed is 0), then the dlopen walk; the open
      always stops here, with the dlopen error or with "write me". */
  function DepsStage(es: seq<DynEntry>, strtab: nat, loadDep: map<nat, Dep>, needed: nat, hnd: ElfHandle): (r: Progress)
    requires hnd.dlopens.None?
    ensures WellFormed(Some(r.handle))
    ensures r.handle.mapped == hnd.mapped && r.handle.mmapLen == hnd.mmapLen && r.handle.syms == hnd.syms
    ensures r.error == DependencyLoadFailed || r.error == Unfinished
    ensures r.handle.dlopens.Some? <==> needed > 0
  {
    var dl := LoadDepsPrefix(es, strtab, loadDep, needed, |es|);
    Progress(if dl.failed then DependencyLoadFailed else Unfinished,
             (if needed > 0 then [AllocDeps(needed)] else []) + dl.acts,
             hnd.(dlopens := if needed > 0 then Some(dl.deps) else None, dlopensCount := dl.count))
  }

  /** mojoelf.c:466-495 after a clean index: the string-table checks, the
      DT_FINI pointer and the allocation of the dependency array. */
  function AfterIndex(es: seq<DynEntry>, ix: DynIndex, buf: seq<byte>, env: Env, hnd: ElfHandle): (r: Progress)
    requires |ix.slots| == MaxDynTabs
    requires forall t :: 0 <= t < MaxDynTabs && ix.slots[t].Some? ==> ix.slots[t].value < |es|
    requires hnd.dlopens.None?
    ensures WellFormed(Some(r.handle))
    ensures r.handle.mapped == hnd.mapped && r.handle.mmapLen == hnd.mmapLen && r.handle.syms == hnd.syms
    ensures CheckDynStrTab(es, ix, buf).Some? ==> r == Progress(CheckDynStrTab(es, ix, buf).value, [], hnd)
    ensures r.acts != [] ==> CheckDynStrTab(es, ix, buf).None? && (ix.needed > 0 ==> env.depsAllocOk)
  {
    match CheckDynStrTab(es, ix, buf)
    case Some(e) => Progress(e, [], hnd)
    case None =>
      var hnd1 := hnd.(fini := FiniOf(es, ix));
      if ix.needed > 0 && !env.depsAllocOk then Progress(OutOfMemory, [], hnd1)
      else DepsStage(es, es[ix.slots[DtStrTab].value].ptr, env.loadDep, ix.needed, hnd1)
  }

  /** mojoelf.c:436-514 from a mapped handle hnd: index the dynamic table
      (a duplicate entry stops the open with the count of DT_NEEDED entries
      seen so far), then the rest. */
  function AfterPlace(a: Arch, buf: seq<byte>, env: Env, dp: Program, hnd: ElfHandle): (r: Progress)
    requires dp.offset + dp.filesz <= |buf| && hnd.dlopens.None?
    ensures WellFormed(Some(r.handle))
    ensures r.handle.mapped == hnd.mapped && r.handle.mmapLen == hnd.mmapLen && r.handle.syms == hnd.syms
  {
    var es := DynEntries(a, buf, dp.offset, dp.filesz);
    match IndexPrefix(es, |es|)
    case IndexFail(at) => Progress(DuplicateDynamicEntry, [], hnd.(dlopensCount := CountNeeded(es, at)))
    case IndexOk(ix) => AfterIndex(es, ix, buf, env, hnd.(dlopensCount := ix.needed))
  }

  /** After a clean scan that found loadable pages and a dynamic table: the
      pages lie inside the rounded region, their file bytes and those of the
      dynamic table inside the buffer. */
  lemma ScanReady(phs: seq<Program>, buf: seq<byte>, top: nat, st: Scan)
    requires forall i :: 0 <= i < |phs| ==> phs[i].vaddr <= top
    requires ScanPrefix(phs, |phs|, |buf|, top) == ScanOk(st) && st.maxEnd != 0
    ensures st.base <= st.maxEnd
    ensures SegmentsFit(phs, buf, RoundLayout(st.base, st.maxEnd).0, RoundLayout(st.base, st.maxEnd).1)
    ensures st.dynamic.Some? ==>
              st.dynamic.value < |phs| && phs[st.dynamic.value].offset + phs[st.dynamic.value].filesz <= |buf|
  {
    ScanOkMeans(phs, |phs|, |buf|, top);
    var i :| 0 <= i < |phs| && IsLoad(phs[i]) && st.maxEnd == phs[i].vaddr + phs[i].memsz;
  }

  /** The program-header table of an accepted header. */
  function ProgramTable(a: Arch, buf: seq<byte>): (r: seq<Program>)
    requires HeaderOk(a, buf)
    ensures forall i :: 0 <= i < |r| ==> r[i].vaddr <= Top(a) && r[i].flags < 0x1_0000_0000
  {
    HeaderOkMeans(a, buf);
    var hdr := DecodeHeader(a, buf);
    Programs(a, buf, hdr.phoff, hdr.phnum)
  }

  /** mojoelf.c:384-392 after a successful mmap: the page-rounded region. */
  function AfterMap(a: Arch, buf: seq<byte>, env: Env, phs: seq<Program>, st: Scan): (r: Progress)
    requires forall i :: 0 <= i < |phs| ==> phs[i].vaddr <= Top(a) && phs[i].flags < 0x1_0000_0000
    requires ScanPrefix(phs, |phs|, |buf|, Top(a)) == ScanOk(st) && st.maxEnd != 0 && st.dynamic.Some?
    ensures WellFormed(Some(r.handle)) && r.handle.mapped
    ensures r.handle.mmapLen % PageSize == 0 && st.base + r.handle.mmapLen > st.maxEnd
  {
    ScanReady(phs, buf, Top(a), st);
    var layout := RoundLayout(st.base, st.maxEnd);
    AfterProtect(a, buf, env, phs, st.dynamic.value, layout.0, layout.1)
  }

  /** mojoelf.c:395-514 in a mapped region of len bytes at base: the
      placement of every loadable segment with an mprotect for each one whose
      protection is not read-write, stopping at the first that fails, then
      the dynamic table of header dyn. */
  function AfterProtect(a: Arch, buf: seq<byte>, env: Env, phs: seq<Program>, dyn: nat, base: nat, len: nat): (r: Progress)
    requires SegmentsFit(phs, buf, base, len)
    requires forall i :: 0 <= i < |phs| ==> phs[i].flags < 0x1_0000_0000
    requires dyn < |phs| && phs[dyn].offset + phs[dyn].filesz <= |buf|
    ensures WellFormed(Some(r.handle)) && r.handle.mapped && r.handle.mmapLen == len
    ensures |r.acts| > 0 && r.acts[0] == MapRegion(len)
  {
    var failed := FirstProtectFailure(phs, env.protectOk, 0);
    var calls := ProtectCalls(phs, base, if failed.Some? then failed.value + 1 else |phs|);
    var mapped := NewHandle().(mapped := true, mmapLen := len);
    var acts := [MapRegion(len)] + ProtectActions(calls);
    if failed.Some? then Progress(MprotectFailed, acts, mapped)
    else
      var rest := AfterPlace(a, buf, env, phs[dyn], mapped);
      Progress(rest.error, acts + rest.acts, rest.handle)
  }

  /** mojoelf.c:358-514 once the handle is allocated: the program-header scan
      and its three failures, then the mapping. */
  function AfterAlloc(a: Arch, buf: seq<byte>, env: Env): (r: Progress)
    requires HeaderOk(a, buf)
    ensures WellFormed(Some(r.handle))
    ensures r.acts != [] <==> r.handle.mapped
  {
    var phs := ProgramTable(a, buf);
    match ScanPrefix(phs, |phs|, |buf|, Top(a))
    case ScanFail(e, _) => Progress(e, [], NewHandle())
    case ScanOk(st) =>
      if st.maxEnd == 0 then Progress(NoLoadablePages, [], NewHandle())
      else if st.dynamic.None? then Progress(NoDynamic, [], NewHandle())
      else if !env.mmapOk then Progress(MmapFailed, [], NewHandle())
      else AfterMap(a, buf, env, phs, st)
  }

  /** A clean scan has found a loadable page exactly when some header is a
      non-empty PT_LOAD, and a dynamic table exactly when some header is
      PT_DYNAMIC. */
  lemma ScanOkFinds(phs: seq<Program>, bufsize: nat, top: nat, st: Scan)
    requires forall i :: 0 <= i < |phs| ==> phs[i].vaddr <= top
    requires ScanPrefix(phs, |phs|, bufsize, top) == ScanOk(st)
    ensures st.maxEnd != 0 <==> exists i :: 0 <= i < |phs| && IsLoad(phs[i])
    ensures st.dynamic.Some? <==> exists i :: 0 <= i < |phs| && phs[i].ptype == PtDynamic
  {
    ScanOkMeans(phs, |phs|, bufsize, top);
    if st.dynamic.None? {
      forall i | 0 <= i < |phs| ensures phs[i].ptype != PtDynamic {
        assert !(!IsLoad(phs[i]) && phs[i].ptype == PtDynamic);
      }
    }
  }

  /** The scan stage in terms of the program headers: a failed scan stops the
      open with its error; after a clean scan it stops with "No loadable pages"
      when no header is a non-empty PT_LOAD, then with "No PT_DYNAMIC table"
      when no header is PT_DYNAMIC, then with "mmap failed"; each before
      anything is acquired. Otherwise the region is mapped. */
  lemma ScanStageErrors(a: Arch, buf: seq<byte>, env: Env)
    requires HeaderOk(a, buf)
    ensures var phs := ProgramTable(a, buf);
            var sc := ScanPrefix(phs, |phs|, |buf|, Top(a));
            var r := AfterAlloc(a, buf, env);
            var loads := exists i :: 0 <= i < |phs| && IsLoad(phs[i]);
            var dyns := exists i :: 0 <= i < |phs| && phs[i].ptype == PtDynamic;
            && (sc.ScanFail? ==> r.error == sc.error && r.acts == [])
            && (sc.ScanOk? && !loads ==> r.error == NoLoadablePages && r.acts == [])
            && (sc.ScanOk? && loads && !dyns ==> r.error == NoDynamic && r.acts == [])
            && (sc.ScanOk? && loads && dyns && !env.mmapOk ==> r.error == MmapFailed && r.acts == [])
            && (sc.ScanOk? && loads && dyns && env.mmapOk ==> r.handle.mapped)
  {
    var phs := ProgramTable(a, buf);
    var r := AfterAlloc(a, buf, env);
    match ScanPrefix(phs, |phs|, |buf|, Top(a))
    case ScanFail(e, _) =>
      assert r == Progress(e, [], NewHandle());
    case ScanOk(st) =>
      ScanOkFinds(phs, |buf|, Top(a), st);
      if st.maxEnd == 0 {
        assert r == Progress(NoLoadablePages, [], NewHandle());
      } else if st.dynamic.None? {
        assert r == Progress(NoDynamic, [], NewHandle());
      } else if !env.mmapOk {
        assert r == Progress(MmapFailed, [], NewHandle());
      } else {
        assert r == AfterMap(a, buf, env, phs, st);
      }
  }

  /** The outcome of MOJOELF_dlopen_mem: the message it leaves in the dlerror
      slot and everything it did. It never returns a handle. */
  datatype Outcome = Outcome(error: LoadError, actions: seq<Action>)

  function OpenOutcome(a: Arch, buf: seq<byte>, env: Env): (r: Outcome)
    ensures ValidateHeader(a, buf).Some? ==> r == Outcome(ValidateHeader(a, buf).value, [])
    ensures ValidateHeader(a, buf).None? && !env.handleAllocOk ==> r == Outcome(OutOfMemory, [])
    ensures ValidateHeader(a, buf).None? && env.handleAllocOk ==>
              |r.actions| >= 2 && r.actions[0] == AllocHandle && r.actions[|r.actions| - 1] == FreeHandle
  {
    match ValidateHeader(a, buf)
    case Some(e) => Outcome(e, FailLabel(None))
    case None =>
      if !env.handleAllocOk then Outcome(OutOfMemory, FailLabel(None))
      else
        var p := AfterAlloc(a, buf, env);
        Outcome(p.error, [AllocHandle] + p.acts + FailLabel(Some(p.handle)))
  }

  /** Adding a dependency array to a handle that had none. */
  lemma HeldGainsDeps(h: ElfHandle, deps: seq<Option<Dep>>, count: nat)
    requires h.dlopens.None? && count <= |deps|
    ensures Held(h.(dlopens := Some(deps), dlopensCount := count))
         == Held(h) + multiset{DepArray} + DepsHeld(deps, count)
  {
  }

  /** From each stage on, what the handle holds beyond what it held on entry
      is exactly what the stage's actions acquired, and nothing is released. */
  lemma DepsStageHolds(es: seq<DynEntry>, strtab: nat, loadDep: map<nat, Dep>, needed: nat, hnd: ElfHandle)
    requires hnd.dlopens.None?
    ensures var r := DepsStage(es, strtab, loadDep, needed, hnd);
            Released(r.acts) == multiset{} && Held(r.handle) == Held(hnd) + Acquired(r.acts)
  {
    var dl := LoadDepsPrefix(es, strtab, loadDep, needed, |es|);
    LoadDepsAcquire(es, strtab, loadDep, needed, |es|);
    LoadDepsRelease(es, strtab, loadDep, needed, |es|);
    if needed > 0 {
      GainDeps(dl.acts, dl.deps, dl.count, needed, hnd);
    } else {
      assert [] + dl.acts == dl.acts;
    }
  }

  /** Allocating an array of needed slots and then opening dependencies. */
  lemma GainDeps(acts: seq<Action>, deps: seq<Option<Dep>>, count: nat, needed: nat, hnd: ElfHandle)
    requires hnd.dlopens.None? && count <= |deps|
    requires Acquired(acts) == DepsHeld(deps, count) && Released(acts) == multiset{}
    ensures Released([AllocDeps(needed)] + acts) == multiset{}
    ensures Held(hnd.(dlopens := Some(deps), dlopensCount := count)) == Held(hnd) + Acquired([AllocDeps(needed)] + acts)
  {
    OneAction(AllocDeps(needed));
    AcquiredAppend([AllocDeps(needed)], acts);
    HeldGainsDeps(hnd, deps, count);
  }

  lemma AfterIndexHolds(es: seq<DynEntry>, ix: DynIndex, buf: seq<byte>, env: Env, hnd: ElfHandle)
    requires |ix.slots| == MaxDynTabs
    requires forall t :: 0 <= t < MaxDynTabs && ix.slots[t].Some? ==> ix.slots[t].value < |es|
    requires hnd.dlopens.None?
    ensures var r := AfterIndex(es, ix, buf, env, hnd);
            Released(r.acts) == multiset{} && Held(r.handle) == Held(hnd) + Acquired(r.acts)
  {
    if CheckDynStrTab(es, ix, buf).None? && !(ix.needed > 0 && !env.depsAllocOk) {
      DepsStageHolds(es, es[ix.slots[DtStrTab].value].ptr, env.loadDep, ix.needed, hnd.(fini := FiniOf(es, ix)));
    }
  }

  lemma AfterPlaceHolds(a: Arch, buf: seq<byte>, env: Env, dp: Program, hnd: ElfHandle)
    requires dp.offset + dp.filesz <= |buf| && hnd.dlopens.None?
    ensures var r := AfterPlace(a, buf, env, dp, hnd);
            Released(r.acts) == multiset{} && Held(r.handle) == Held(hnd) + Acquired(r.acts)
  {
    var es := DynEntries(a, buf, dp.offset, dp.filesz);
    if IndexPrefix(es, |es|).IndexOk? {
      var ix := IndexPrefix(es, |es|).index;
      AfterIndexHolds(es, ix, buf, env, hnd.(dlopensCount := ix.needed));
    }
  }

  /** Three consecutive pieces of activity. */
  lemma AccountOfThree(x: seq<Action>, y: seq<Action>, z: seq<Action>)
    ensures Acquired(x + y + z) == Acquired(x) + Acquired(y) + Acquired(z)
    ensures Released(x + y + z) == Released(x) + Released(y) + Released(z)
  {
    AcquiredAppend(x, y);
    AcquiredAppend(x + y, z);
  }

  lemma AfterMapHolds(a: Arch, buf: seq<byte>, env: Env, phs: seq<Program>, st: Scan)
    requires forall i :: 0 <= i < |phs| ==> phs[i].vaddr <= Top(a) && phs[i].flags < 0x1_0000_0000
    requires ScanPrefix(phs, |phs|, |buf|, Top(a)) == ScanOk(st) && st.maxEnd != 0 && st.dynamic.Some?
    ensures var r := AfterMap(a, buf, env, phs, st);
            Released(r.acts) == multiset{} && Held(r.handle) == multiset{HandleMemory} + Acquired(r.acts)
  {
    ScanReady(phs, buf, Top(a), st);
    var layout := RoundLayout(st.base, st.maxEnd);
    AfterProtectHolds(a, buf, env, phs, st.dynamic.value, layout.0, layout.1);
  }

  lemma AfterProtectHolds(a: Arch, buf: seq<byte>, env: Env, phs: seq<Program>, dyn: nat, base: nat, len: nat)
    requires SegmentsFit(phs, buf, base, len)
    requires forall i :: 0 <= i < |phs| ==> phs[i].flags < 0x1_0000_0000
    requires dyn < |phs| && phs[dyn].offset + phs[dyn].filesz <= |buf|
    ensures var r := AfterProtect(a, buf, env, phs, dyn, base, len);
            Released(r.acts) == multiset{} && Held(r.handle) == multiset{HandleMemory} + Acquired(r.acts)
  {
    if FirstProtectFailure(phs, env.protectOk, 0).Some? {
      ProtectFailHolds(a, buf, env, phs, dyn, base, len);
    } else {
      ProtectPassHolds(a, buf, env, phs, dyn, base, len);
    }
  }

  /** A failed mprotect: the handle holds the region and nothing else. */
  lemma ProtectFailHolds(a: Arch, buf: seq<byte>, env: Env, phs: seq<Program>, dyn: nat, base: nat, len: nat)
    requires SegmentsFit(phs, buf, base, len)
    requires forall i :: 0 <= i < |phs| ==> phs[i].flags < 0x1_0000_0000
    requires dyn < |phs| && phs[dyn].offset + phs[dyn].filesz <= |buf|
    requires FirstProtectFailure(phs, env.protectOk, 0).Some?
    ensures var r := AfterProtect(a, buf, env, phs, dyn, base, len);
            Released(r.acts) == multiset{} && Held(r.handle) == multiset{HandleMemory} + Acquired(r.acts)
  {
    var mapped := NewHandle().(mapped := true, mmapLen := len);
    var failed := FirstProtectFailure(phs, env.protectOk, 0);
    var calls := ProtectCalls(phs, base, failed.value + 1);
    var prot := ProtectActions(calls);
    ProtectActionsTouchNothing(calls);
    MapAccount(len, prot, [], Held(mapped), Held(mapped));
    assert [MapRegion(len)] + prot + [] == [MapRegion(len)] + prot;
  }

  /** Every mprotect succeeded: the rest of the load adds what it acquires. */
  lemma ProtectPassHolds(a: Arch, buf: seq<byte>, env: Env, phs: seq<Program>, dyn: nat, base: nat, len: nat)
    requires SegmentsFit(phs, buf, base, len)
    requires forall i :: 0 <= i < |phs| ==> phs[i].flags < 0x1_0000_0000
    requires dyn < |phs| && phs[dyn].offset + phs[dyn].filesz <= |buf|
    requires FirstProtectFailure(phs, env.protectOk, 0).None?
    ensures var r := AfterProtect(a, buf, env, phs, dyn, base, len);
            Released(r.acts) == multiset{} && Held(r.handle) == multiset{HandleMemory} + Acquired(r.acts)
  {
    var mapped := NewHandle().(mapped := true, mmapLen := len);
    var calls := ProtectCalls(phs, base, |phs|);
    var prot := ProtectActions(calls);
    ProtectActionsTouchNothing(calls);
    var rest := AfterPlace(a, buf, env, phs[dyn], mapped);
    AfterPlaceHolds(a, buf, env, phs[dyn], mapped);
    MapAccount(len, prot, rest.acts, Held(mapped), Held(rest.handle));
  }

  /** Mapping a region, changing protections, then a stage that acquires
      what it adds to the handle. */
  lemma MapAccount(len: nat, prot: seq<Action>, rest: seq<Action>, held0: multiset<Resource>, held: multiset<Resource>)
    requires Acquired(prot) == multiset{} && Released(prot) == multiset{}
    requires held0 == multiset{} + multiset{Region(len)} + multiset{HandleMemory}
    requires Released(rest) == multiset{} && held == held0 + Acquired(rest)
    ensures Released([MapRegion(len)] + prot + rest) == multiset{}
    ensures held == multiset{HandleMemory} + Acquired([MapRegion(len)] + prot + rest)
  {
    OneAction(MapRegion(len));
    AccountOfThree([MapRegion(len)], prot, rest);
  }

  lemma AfterAllocHolds(a: Arch, buf: seq<byte>, env: Env)
    requires HeaderOk(a, buf)
    ensures var r := AfterAlloc(a, buf, env);
            Released(r.acts) == multiset{} && Held(r.handle) == multiset{HandleMemory} + Acquired(r.acts)
  {
    var phs := ProgramTable(a, buf);
    var scan := ScanPrefix(phs, |phs|, |buf|, Top(a));
    if scan.ScanOk? && scan.scan.maxEnd != 0 && scan.scan.dynamic.Some? && env.mmapOk {
      AfterMapHolds(a, buf, env, phs, scan.scan);
    }
  }

  /** Every failed open releases everything it acquired: the handle, the
      mapping, the dependency array and each dependency opened. */
  lemma OpenReleasesEverything(a: Arch, buf: seq<byte>, env: Env)
    ensures Acquired(OpenOutcome(a, buf, env).actions) == Released(OpenOutcome(a, buf, env).actions)
  {
    if ValidateHeader(a, buf) == None && env.handleAllocOk {
      var p := AfterAlloc(a, buf, env);
      AfterAllocHolds(a, buf, env);
      FailLabelReleasesHeld(p.handle);
      OneAction(AllocHandle);
      AccountOfThree([AllocHandle], p.acts, FailLabel(Some(p.handle)));
    }
  }

  /** Appending two pieces of activity to a log one after the other. */
  lemma LogAppend(log: seq<Action>, x: seq<Action>, y: seq<Action>)
    ensures log + x + y == log + (x + y)
  {
  }

  lemma LogAppendFour(log: seq<Action>, w: seq<Action>, x: seq<Action>, y: seq<Action>, z: seq<Action>)
    ensures log + w + x + y + z == log + (w + x + y + z)
  {
  }

  /** The loader's global state: the dlerror slot and the log of effects. */
  class Loader {
    var dlerrorMsg: Option<string>
    ghost var log: seq<Action>

    constructor ()
      ensures dlerrorMsg.None? && log == []
    {
      dlerrorMsg := None;
      log := [];
    }

    /** set_dlerror (mojoelf.c:86). */
    method SetDlerror(e: LoadError)
      modifies this
      ensures dlerrorMsg == Some(Message(e)) && log == old(log)
    {
      dlerrorMsg := Some(Message(e));
    }

    /** MOJOELF_dlerror: the last message, once; the slot is then empty. */
    method Dlerror() returns (msg: Option<string>)
      modifies this
      ensures msg == old(dlerrorMsg) && dlerrorMsg.None? && log == old(log)
    {
      msg := dlerrorMsg;
      dlerrorMsg := None;
    }

    /** MOJOELF_dlsym: the address of the first symbol named sym (0 standing
        for NULL); NULL with "Bogus library handle" for a NULL handle and with
        "Symbol not found" when no symbol has that name. */
    method Dlsym(h: Option<ElfHandle>, sym: string) returns (addr: nat)
      modifies this
      ensures log == old(log)
      ensures h.None? ==> addr == 0 && dlerrorMsg == Some(Message(BogusHandle))
      ensures h.Some? ==>
        var syms := if h.value.syms.Some? then h.value.syms.value else [];
        match FirstMatch(syms, sym, 0)
        case Some(i) => addr == syms[i].addr && dlerrorMsg == old(dlerrorMsg)
        case None => addr == 0 && dlerrorMsg == Some(Message(SymbolNotFound))
    {
      if h.None? {
        SetDlerror(BogusHandle);
        return 0;
      }
      var syms := if h.value.syms.Some? then h.value.syms.value else [];
      var i := 0;
      while i < |syms|
        invariant 0 <= i <= |syms|
        invariant FirstMatch(syms, sym, 0) == FirstMatch(syms, sym, i)
      {
        if syms[i].name == sym {
          return syms[i].addr;
        }
        i := i + 1;
      }
      SetDlerror(SymbolNotFound);
      return 0;
    }

    /** The dependency part of MOJOELF_dlclose (mojoelf.c:256-265). */
    method CloseDeps(h: ElfHandle)
      requires WellFormed(Some(h))
      modifies this
      ensures log == old(log) + DepTeardown(h) && dlerrorMsg == old(dlerrorMsg)
    {
      if h.dlopens.Some? {
        var table := h.dlopens.value;
        var i := 0;
        while i < h.dlopensCount
          invariant 0 <= i <= h.dlopensCount
          invariant log == old(log) + DepCloses(table, i) && dlerrorMsg == old(dlerrorMsg)
        {
          if table[i].Some? {
            log := log + [CloseDep(table[i].value)];
          }
          i := i + 1;
        }
        log := log + [FreeDepArray];
      }
    }

    /** The symbol part of MOJOELF_dlclose (mojoelf.c:271-276). */
    method FreeSymbols(h: ElfHandle)
      modifies this
      ensures log == old(log) + SymbolTeardown(h) && dlerrorMsg == old(dlerrorMsg)
    {
      if h.syms.Some? {
        var i := 0;
        while i < |h.syms.value|
          invariant 0 <= i <= |h.syms.value|
          invariant log == old(log) + SymbolFrees(i) && dlerrorMsg == old(dlerrorMsg)
        {
          log := log + [FreeSymbolName(i)];
          i := i + 1;
        }
        log := log + [FreeSymbolArray];
      }
    }

    /** MOJOELF_dlclose (mojoelf.c:247-280). */
    method Dlclose(h: Option<ElfHandle>)
      requires WellFormed(h)
      modifies this
      ensures log == old(log) + Teardown(h) && dlerrorMsg == old(dlerrorMsg)
    {
      if h.None? {
        return;
      }
      var hd := h.value;
      CloseDeps(hd);
      if hd.mapped {
        log := log + [Unmap(hd.mmapLen)];
      }
      assert log == old(log) + DepTeardown(hd) + RegionTeardown(hd);
      FreeSymbols(hd);
      log := log + [FreeHandle];
      LogAppendFour(old(log), DepTeardown(hd), RegionTeardown(hd), SymbolTeardown(hd), [FreeHandle]);
    }

    /** DLOPEN_FAIL and the fail: label, as intended: set the message and
        release the handle if there is one. */
    method Fail(e: LoadError, retval: Option<ElfHandle>)
      requires WellFormed(retval)
      modifies this
      ensures dlerrorMsg == Some(Message(e)) && log == old(log) + FailLabel(retval)
    {
      SetDlerror(e);
      if retval.Some? {
        Dlclose(Some(retval.value.(fini := None)));
      }
    }

    /** The second walk over the dynamic table (mojoelf.c:497-514): each
        DT_NEEDED entry's name, at strtab + d_val, is opened and recorded
        until one fails. */
    method LoadDependencies(es: seq<DynEntry>, strtab: nat, loadDep: map<nat, Dep>, alloc: nat)
      returns (deps: seq<Option<Dep>>, count: nat, failed: bool)
      modifies this
      ensures var r := LoadDepsPrefix(es, strtab, loadDep, alloc, |es|);
              deps == r.deps && count == r.count && failed == r.failed
              && log == old(log) + r.acts && dlerrorMsg == old(dlerrorMsg)
    {
      deps := seq(alloc, _ => None);
      count := 0;
      failed := false;
      var i := 0;
      while i < |es|
        invariant 0 <= i <= |es| && !failed
        invariant var r := LoadDepsPrefix(es, strtab, loadDep, alloc, i);
                  deps == r.deps && count == r.count && !r.failed
                  && log == old(log) + r.acts && dlerrorMsg == old(dlerrorMsg)
      {
        if es[i].tag == DtNeeded && count < alloc {
          var name := strtab + es[i].val;
          if name !in loadDep {
            failed := true;
            FailedLoadPersists(es, strtab, loadDep, alloc, i + 1, |es|);
            return;
          }
          log := log + [OpenDep(name, loadDep[name])];
          deps := deps[count := Some(loadDep[name])];
          count := count + 1;
        }
        i := i + 1;
      }
    }

    /** mojoelf.c:489-514: allocate the dependency array and open each
        DT_NEEDED library. */
    method AllocAndLoadDeps(es: seq<DynEntry>, strtab: nat, loadDep: map<nat, Dep>, needed: nat, hnd: ElfHandle)
      returns (p: Progress)
      requires hnd.dlopens.None?
      modifies this
      ensures p == DepsStage(es, strtab, loadDep, needed, hnd)
      ensures log == old(log) + p.acts && dlerrorMsg == old(dlerrorMsg)
    {
      var alloc: seq<Action> := [];
      if needed > 0 {
        log := log + [AllocDeps(needed)];
        alloc := [AllocDeps(needed)];
      }
      var deps, count, failed := LoadDependencies(es, strtab, loadDep, needed);
      LogAppend(old(log), alloc, LoadDepsPrefix(es, strtab, loadDep, needed, |es|).acts);
      var retval := hnd.(dlopens := if needed > 0 then Some(deps) else None, dlopensCount := count);
      p := Progress(if failed then DependencyLoadFailed else Unfinished,
                    alloc + LoadDepsPrefix(es, strtab, loadDep, needed, |es|).acts, retval);
    }

    /** mojoelf.c:466-495: the string-table checks, DT_FINI and the
        allocation check of the dependency array. */
    method CheckAndLoad(es: seq<DynEntry>, ix: DynIndex, buf: seq<byte>, env: Env, hnd: ElfHandle)
      returns (p: Progress)
      requires |ix.slots| == MaxDynTabs
      requires forall t :: 0 <= t < MaxDynTabs && ix.slots[t].Some? ==> ix.slots[t].value < |es|
      requires hnd.dlopens.None?
      modifies this
      ensures p == AfterIndex(es, ix, buf, env, hnd)
      ensures log == old(log) + p.acts && dlerrorMsg == old(dlerrorMsg)
    {
      var strBad := CheckDynStrTab(es, ix, buf);
      if strBad.Some? {
        return Progress(strBad.value, [], hnd);
      }
      var retval := hnd.(fini := FiniOf(es, ix));
      if ix.needed > 0 && !env.depsAllocOk {
        return Progress(OutOfMemory, [], retval);
      }
      p := AllocAndLoadDeps(es, es[ix.slots[DtStrTab].value].ptr, env.loadDep, ix.needed, retval);
    }

    /** mojoelf.c:436-514 on a mapped handle: the dynamic-table index, then
        the string table and the dependencies. */
    method IndexAndLoad(a: Arch, buf: seq<byte>, env: Env, dp: Program, hnd: ElfHandle) returns (p: Progress)
      requires dp.offset + dp.filesz <= |buf| && hnd.dlopens.None?
      modifies this
      ensures p == AfterPlace(a, buf, env, dp, hnd)
      ensures log == old(log) + p.acts && dlerrorMsg == old(dlerrorMsg)
    {
      var es := DynEntries(a, buf, dp.offset, dp.filesz);
      var slots, needed, dup := IndexDynamicTable(es);
      if dup.Some? {
        return Progress(DuplicateDynamicEntry, [], hnd.(dlopensCount := needed));
      }
      p := CheckAndLoad(es, DynIndex(slots[..], needed), buf, env, hnd.(dlopensCount := needed));
    }

    /** mojoelf.c:384-514 after a successful mmap. */
    method MapAndPlace(a: Arch, buf: seq<byte>, env: Env, phs: seq<Program>, st: Scan) returns (p: Progress)
      requires forall i :: 0 <= i < |phs| ==> phs[i].vaddr <= Top(a) && phs[i].flags < 0x1_0000_0000
      requires ScanPrefix(phs, |phs|, |buf|, Top(a)) == ScanOk(st) && st.maxEnd != 0 && st.dynamic.Some?
      modifies this
      ensures p == AfterMap(a, buf, env, phs, st)
      ensures log == old(log) + p.acts && dlerrorMsg == old(dlerrorMsg)
    {
      ScanReady(phs, buf, Top(a), st);
      var layout := RoundLayout(st.base, st.maxEnd);
      p := ProtectAndLoad(a, buf, env, phs, st.dynamic.value, layout.0, layout.1);
    }

    /** mojoelf.c:386-514 on the region of len bytes at base: the mapping is
        recorded, the segments placed and protected, then the dynamic table. */
    method ProtectAndLoad(a: Arch, buf: seq<byte>, env: Env, phs: seq<Program>, dyn: nat, base: nat, len: nat)
      returns (p: Progress)
      requires SegmentsFit(phs, buf, base, len)
      requires forall i :: 0 <= i < |phs| ==> phs[i].flags < 0x1_0000_0000
      requires dyn < |phs| && phs[dyn].offset + phs[dyn].filesz <= |buf|
      modifies this
      ensures p == AfterProtect(a, buf, env, phs, dyn, base, len)
      ensures log == old(log) + p.acts && dlerrorMsg == old(dlerrorMsg)
    {
      var retval := NewHandle().(mapped := true, mmapLen := len);
      log := log + [MapRegion(len)];
      var calls, failedAt := PlaceSegments(phs, buf, base, len, env.protectOk);
      var acts := [MapRegion(len)] + ProtectActions(calls);
      LogAppend(old(log), [MapRegion(len)], ProtectActions(calls));
      if failedAt.Some? {
        return Progress(MprotectFailed, acts, retval);
      }
      var rest := IndexAndLoad(a, buf, env, phs[dyn], retval);
      LogAppend(old(log), acts, rest.acts);
      p := Progress(rest.error, acts + rest.acts, rest.handle);
    }

    /** mojoelf.c:395-414: the segments placed in a fresh image and the
        mprotect calls made, logged. */
    method PlaceSegments(phs: seq<Program>, buf: seq<byte>, base: nat, len: nat, protectOk: nat -> bool)
      returns (calls: seq<ProtectCall>, failedAt: Option<nat>)
      requires SegmentsFit(phs, buf, base, len)
      requires forall i :: 0 <= i < |phs| ==> phs[i].flags < 0x1_0000_0000
      modifies this
      ensures failedAt == FirstProtectFailure(phs, protectOk, 0)
      ensures calls == ProtectCalls(phs, base, if failedAt.Some? then failedAt.value + 1 else |phs|)
      ensures log == old(log) + ProtectActions(calls) && dlerrorMsg == old(dlerrorMsg)
    {
      var img;
      img, calls, failedAt := LoadSegments(phs, buf, base, len, protectOk);
      log := log + ProtectActions(calls);
    }

    /** mojoelf.c:358-514 once the handle is allocated. */
    method MapAndLoad(a: Arch, buf: seq<byte>, env: Env) returns (p: Progress)
      requires HeaderOk(a, buf)
      modifies this
      ensures p == AfterAlloc(a, buf, env)
      ensures log == old(log) + p.acts && dlerrorMsg == old(dlerrorMsg)
    {
      var phs := ProgramTable(a, buf);
      var scan := ScanProgramHeaders(phs, |buf|, Top(a));
      if scan.ScanFail? {
        return Progress(scan.error, [], NewHandle());
      }
      var st := scan.scan;
      if st.maxEnd == 0 {
        return Progress(NoLoadablePages, [], NewHandle());
      } else if st.dynamic.None? {
        return Progress(NoDynamic, [], NewHandle());
      } else if !env.mmapOk {
        return Progress(MmapFailed, [], NewHandle());
      }
      p := MapAndPlace(a, buf, env, phs, st);
    }

    /** MOJOELF_dlopen_mem (mojoelf.c:321-530) with the fail: label as
        intended. It never returns a handle: after the dependencies are
        loaded it stops with "write me". */
    method DlopenMem(a: Arch, buf: seq<byte>, env: Env) returns (h: Option<ElfHandle>)
      modifies this
      ensures h.None?
      ensures dlerrorMsg == Some(Message(OpenOutcome(a, buf, env).error))
      ensures log == old(log) + OpenOutcome(a, buf, env).actions
    {
      h := None;
      var bad := ValidateHeader(a, buf);
      if bad.Some? {
        Fail(bad.value, None);
        return;
      }
      if !env.handleAllocOk {
        Fail(OutOfMemory, None);
        return;
      }
      log := log + [AllocHandle];
      var p := MapAndLoad(a, buf, env);
      Fail(p.error, Some(p.handle));
      LogAppend(old(log), [AllocHandle], p.acts);
      LogAppend(old(log), [AllocHandle] + p.acts, FailLabel(Some(p.handle)));
    }
  }
}
