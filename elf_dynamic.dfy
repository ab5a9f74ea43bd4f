/** The first walk over the dynamic section in MOJOELF_dlopen_mem
    (mojoelf.c:438-471), following chapter 5 of the System V gABI, "Dynamic
    Section": entries are indexed into 24 slots by tag, DT_NEEDED entries are
    counted, and the string table entries are checked. */
module ElfDynamic {
  import opened Bytes
  import opened ElfHeader

  const MaxDynTabs := 24
  const DtNull := 0
  const DtNeeded := 1
  const DtStrTab := 5
  const DtStrSz := 10

  /** sizeof(ElfDynTable): a uint32 tag padded to a word, then the word-sized union. */
  function DynEntrySize(a: Arch): (r: nat)
    ensures r == 2 * WordSize(a) && r > 0
  {
    2 * WordSize(a)
  }

  /** One dynamic entry: d_tag, the union read as d_ptr (a word) and as d_val
      (its low four bytes). */
  datatype DynEntry = DynEntry(tag: nat, ptr: nat, val: nat)

  function DecodeDyn(a: Arch, buf: seq<byte>, off: nat): (r: DynEntry)
    requires off + DynEntrySize(a) <= |buf|
    ensures r.tag < 0x1_0000_0000 && r.val < 0x1_0000_0000 && r.ptr < WordModulus(a)
  {
    var w := WordSize(a);
    DynEntry(ReadLE(buf, off, 4), ReadLE(buf, off + w, w), ReadLE(buf, off + w, 4))
  }

  lemma DynEntryInside(off: nat, i: nat, filesz: nat, size: nat, bufsize: nat)
    requires size > 0 && i < filesz / size && off + filesz <= bufsize
    ensures off + i * size + size <= bufsize
  {
    assert i * size + size == (i + 1) * size;
    assert (i + 1) * size <= (filesz / size) * size <= filesz;
  }

  /** The entries of the table a PT_DYNAMIC header describes: p_filesz divided
      by the entry size, rounded down, entries from p_offset on. */
  function DynEntries(a: Arch, buf: seq<byte>, off: nat, filesz: nat): (r: seq<DynEntry>)
    requires off + filesz <= |buf|
    ensures |r| == filesz / DynEntrySize(a)
    ensures forall i :: 0 <= i < |r| ==>
              (DynEntryInside(off, i, filesz, DynEntrySize(a), |buf|);
               off + i * DynEntrySize(a) + DynEntrySize(a) <= |buf| &&
               r[i] == DecodeDyn(a, buf, off + i * DynEntrySize(a)))
  {
    var n := filesz / DynEntrySize(a);
    seq(n, i requires 0 <= i < n =>
      DynEntryInside(off, i, filesz, DynEntrySize(a), |buf|);
      DecodeDyn(a, buf, off + i * DynEntrySize(a)))
  }

  /** The slot an entry occupies: tags 2 to 23 are indexed, DT_NULL and
      DT_NEEDED are handled before the slot test and larger tags are ignored. */
  function SlotOf(tag: nat): (r: Option<nat>)
    ensures r.Some? <==> DtNeeded < tag < MaxDynTabs
    ensures r.Some? ==> r.value == tag
  {
    if DtNeeded < tag < MaxDynTabs then Some(tag) else None
  }

  /** The C code converts d_tag with `(int)`: a uint32 of 2^31 or more becomes negative. */
  function SignedTag(tag: nat): (r: int)
    requires tag < 0x1_0000_0000
    ensures -0x8000_0000 <= r < 0x8000_0000
    ensures r % 0x1_0000_0000 == tag % 0x1_0000_0000
  {
    if tag < 0x8000_0000 then tag else tag - 0x1_0000_0000
  }

  /** The slot index mojoelf.c:445-458 uses, as written: the signed tag when it
      is neither 0 nor 1 and is below 24. */
  function SlotOfAsWritten(tag: nat): (r: Option<int>)
    requires tag < 0x1_0000_0000
    ensures r.Some? ==> r.value < MaxDynTabs && r.value != DtNull && r.value != DtNeeded
  {
    var t := SignedTag(tag);
    if t == DtNull || t == DtNeeded then None
    else if t < MaxDynTabs then Some(t)
    else None
  }

  /** A tag of 0x80000000 passes the `< MAX_DYNTABS` test as written and
      selects slot -2^31, outside the 24-slot array. */
  lemma NegativeTagPassesAsWritten()
    ensures SlotOfAsWritten(0x8000_0000) == Some(-0x8000_0000)
    ensures SlotOf(0x8000_0000) == None
  {
  }

  /** The unsigned reading agrees with the code whenever the code indexes
      inside the array, and never leaves it. */
  lemma SlotOfAgreesInRange(tag: nat)
    requires tag < 0x1_0000_0000
    ensures SlotOf(tag).Some? ==> SlotOf(tag).value < MaxDynTabs
    ensures SlotOfAsWritten(tag).Some? && SlotOfAsWritten(tag).value >= 0
            ==> SlotOf(tag) == Some(SlotOfAsWritten(tag).value as nat)
    ensures SlotOf(tag).Some? ==> SlotOfAsWritten(tag) == Some(tag as int)
  {
  }

  /** The index built so far: for each of the 24 slots, the position of the
      entry stored there, and the number of DT_NEEDED entries seen. */
  datatype DynIndex = DynIndex(slots: seq<Option<nat>>, needed: nat)

  datatype IndexResult = IndexOk(index: DynIndex) | IndexFail(at: nat)

  function EmptyIndex(): (r: DynIndex)
    ensures |r.slots| == MaxDynTabs && r.needed == 0
    ensures forall t :: 0 <= t < MaxDynTabs ==> r.slots[t] == None
  {
    DynIndex(seq(MaxDynTabs, _ => None), 0)
  }

  /** One iteration of the walk over entry i. */
  function IndexStep(e: DynEntry, i: nat, st: DynIndex): IndexResult
    requires |st.slots| == MaxDynTabs
  {
    if e.tag == DtNull then IndexOk(st)
    else if e.tag == DtNeeded then IndexOk(st.(needed := st.needed + 1))
    else match SlotOf(e.tag)
      case None => IndexOk(st)
      case Some(t) =>
        if st.slots[t].Some? then IndexFail(i)
        else IndexOk(st.(slots := st.slots[t := Some(i)]))
  }

  /** The walk over the first n entries. */
  function IndexPrefix(es: seq<DynEntry>, n: nat): (r: IndexResult)
    requires n <= |es|
    ensures r.IndexOk? ==> |r.index.slots| == MaxDynTabs
    ensures r.IndexOk? ==> forall t :: 0 <= t < MaxDynTabs && r.index.slots[t].Some? ==> r.index.slots[t].value < n
    ensures r.IndexFail? ==> r.at < n
  {
    if n == 0 then IndexOk(EmptyIndex())
    else match IndexPrefix(es, n - 1)
      case IndexFail(at) => IndexFail(at)
      case IndexOk(st) => IndexStep(es[n - 1], n - 1, st)
  }

  /** The number of DT_NEEDED entries among the first n. */
  function CountNeeded(es: seq<DynEntry>, n: nat): nat
    requires n <= |es|
  {
    if n == 0 then 0 else CountNeeded(es, n - 1) + (if es[n - 1].tag == DtNeeded then 1 else 0)
  }

  /** Two entries among the first n share an indexed tag. */
  predicate HasDuplicate(es: seq<DynEntry>, n: nat)
    requires n <= |es|
  {
    exists i, j :: 0 <= i < j < n && SlotOf(es[i].tag).Some? && es[i].tag == es[j].tag
  }

  /** A successful walk: slot t holds the entry with tag t, every indexed
      entry is in its slot, and slots 0 and 1 stay empty. */
  lemma {:induction false} IndexOkSlots(es: seq<DynEntry>, n: nat)
    requires n <= |es| && IndexPrefix(es, n).IndexOk?
    ensures var st := IndexPrefix(es, n).index;
      && st.slots[DtNull] == None && st.slots[DtNeeded] == None
      && (forall t :: 0 <= t < MaxDynTabs && st.slots[t].Some? ==> es[st.slots[t].value].tag == t)
      && (forall i :: 0 <= i < n && SlotOf(es[i].tag).Some? ==> st.slots[es[i].tag] == Some(i))
  {
    if n > 0 {
      var prev := IndexPrefix(es, n - 1);
      assert prev.IndexOk?;
      IndexOkSlots(es, n - 1);
      IndexStepSlots(es[n - 1], n - 1, prev.index);
    }
  }

  /** A step that succeeds fills the slot of an indexed tag with i and
      leaves every other slot as it was. */
  lemma IndexStepSlots(e: DynEntry, i: nat, st: DynIndex)
    requires |st.slots| == MaxDynTabs && IndexStep(e, i, st).IndexOk?
    ensures IndexStep(e, i, st).index.slots ==
      if SlotOf(e.tag).Some? then st.slots[e.tag := Some(i)] else st.slots
    ensures SlotOf(e.tag).Some? ==> st.slots[e.tag].None?
  {
  }

  /** A successful walk has counted every DT_NEEDED entry. */
  lemma {:induction false} IndexOkCount(es: seq<DynEntry>, n: nat)
    requires n <= |es| && IndexPrefix(es, n).IndexOk?
    ensures IndexPrefix(es, n).index.needed == CountNeeded(es, n)
  {
    if n > 0 {
      IndexOkCount(es, n - 1);
    }
  }

  /** A successful walk saw no indexed tag twice. */
  lemma IndexOkNoDuplicate(es: seq<DynEntry>, n: nat)
    requires n <= |es| && IndexPrefix(es, n).IndexOk?
    ensures !HasDuplicate(es, n)
  {
    IndexOkSlots(es, n);
    var st := IndexPrefix(es, n).index;
    forall i, j | 0 <= i < j < n && SlotOf(es[i].tag).Some?
      ensures es[i].tag != es[j].tag
    {
      assert st.slots[es[i].tag] == Some(i);
    }
  }

  /** The walk fails exactly when an indexed tag repeats, and then at the
      second occurrence of the first tag to repeat. */
  lemma {:induction false} IndexFailMeans(es: seq<DynEntry>, n: nat)
    requires n <= |es|
    ensures IndexPrefix(es, n).IndexFail? <==> HasDuplicate(es, n)
    ensures IndexPrefix(es, n).IndexFail? ==>
      var at := IndexPrefix(es, n).at;
      && at < n && SlotOf(es[at].tag).Some? && IndexPrefix(es, at).IndexOk?
      && (exists j :: 0 <= j < at && es[j].tag == es[at].tag)
  {
    if n > 0 {
      IndexFailMeans(es, n - 1);
      if IndexPrefix(es, n - 1).IndexOk? {
        IndexOkSlots(es, n - 1);
        var prev := IndexPrefix(es, n - 1).index;
        var e := es[n - 1];
        if IndexPrefix(es, n).IndexFail? {
          var j := prev.slots[e.tag].value;
          assert j < n - 1 && es[j].tag == e.tag;
        } else {
          IndexOkNoDuplicate(es, n);
        }
      } else {
        assert HasDuplicate(es, n) by {
          var i, j :| 0 <= i < j < n - 1 && SlotOf(es[i].tag).Some? && es[i].tag == es[j].tag;
        }
      }
    }
  }

  /** Once the walk has failed, later entries do not change the failure. */
  lemma {:induction false} IndexFailurePersists(es: seq<DynEntry>, m: nat, n: nat)
    requires m <= n <= |es| && IndexPrefix(es, m).IndexFail?
    ensures IndexPrefix(es, n) == IndexPrefix(es, m)
    decreases n - m
  {
    if m < n {
      IndexFailurePersists(es, m, n - 1);
    }
  }

  /** The indexing loop of mojoelf.c:440-459, on a zero-initialised array of
      24 slots filled in place. */
  method IndexDynamicTable(es: seq<DynEntry>) returns (slots: array<Option<nat>>, needed: nat, failedAt: Option<nat>)
    ensures fresh(slots) && slots.Length == MaxDynTabs
    ensures failedAt.None? ==> IndexPrefix(es, |es|) == IndexOk(DynIndex(slots[..], needed))
    ensures failedAt.Some? ==> IndexPrefix(es, |es|) == IndexFail(failedAt.value)
    ensures needed == CountNeeded(es, if failedAt.Some? then failedAt.value else |es|)
  {
    slots := new Option<nat>[MaxDynTabs](_ => None);
    needed := 0;
    failedAt := None;
    assert slots[..] == EmptyIndex().slots;
    var i := 0;
    while i < |es|
      invariant 0 <= i <= |es|
      invariant IndexPrefix(es, i) == IndexOk(DynIndex(slots[..], needed))
    {
      var tag := es[i].tag;
      if tag == DtNull {
      } else if tag == DtNeeded {
        needed := needed + 1;
      } else if tag < MaxDynTabs {
        if slots[tag].Some? {
          failedAt := Some(i);
          IndexOkCount(es, i);
          IndexFailurePersists(es, i + 1, |es|);
          return;
        }
        slots[tag] := Some(i);
      }
      i := i + 1;
    }
    IndexOkCount(es, |es|);
  }

  /** The string-table checks of mojoelf.c:462-469 after a successful walk:
      a DT_STRTAB entry, a DT_STRSZ entry, and a NUL at the table's start. The
      start is first checked to lie inside the buffer (see findings). */
  function CheckDynStrTab(es: seq<DynEntry>, st: DynIndex, buf: seq<byte>): (r: Option<LoadError>)
    requires |st.slots| == MaxDynTabs
    requires forall t :: 0 <= t < MaxDynTabs && st.slots[t].Some? ==> st.slots[t].value < |es|
    ensures r == Some(NoDynStrTab) <==> st.slots[DtStrTab].None?
    ensures r == Some(NoDynStrSz) <==> st.slots[DtStrTab].Some? && st.slots[DtStrSz].None?
    ensures r == None <==> st.slots[DtStrTab].Some? && st.slots[DtStrSz].Some?
                           && es[st.slots[DtStrTab].value].ptr < |buf|
                           && buf[es[st.slots[DtStrTab].value].ptr] == 0
  {
    if st.slots[DtStrTab].None? then Some(NoDynStrTab)
    else if st.slots[DtStrSz].None? then Some(NoDynStrSz)
    else
      var p := es[st.slots[DtStrTab].value].ptr;
      if p >= |buf| then Some(DynStrTabOutOfBounds)
      else if buf[p] != 0 then Some(DynStrTabNoLeadingNul)
      else None
  }

  /** What the string-table test does as written: it reads buf[d_ptr] with no
      bound, so a d_ptr past the buffer is a read outside it. */
  datatype StrTabOutcome = StrTabError(error: LoadError) | StrTabPass | ReadOutside(offset: nat)

  function CheckDynStrTabAsWritten(es: seq<DynEntry>, st: DynIndex, buf: seq<byte>): (r: StrTabOutcome)
    requires |st.slots| == MaxDynTabs
    requires forall t :: 0 <= t < MaxDynTabs && st.slots[t].Some? ==> st.slots[t].value < |es|
    ensures r.ReadOutside? ==> r.offset >= |buf|
    ensures r.StrTabPass? ==> CheckDynStrTab(es, st, buf) == None
  {
    if st.slots[DtStrTab].None? then StrTabError(NoDynStrTab)
    else if st.slots[DtStrSz].None? then StrTabError(NoDynStrSz)
    else
      var p := es[st.slots[DtStrTab].value].ptr;
      if p >= |buf| then ReadOutside(p)
      else if buf[p] != 0 then StrTabError(DynStrTabNoLeadingNul)
      else StrTabPass
  }

  /** A table with DT_STRTAB pointing past a 16-byte buffer and a DT_STRSZ
      entry is indexed cleanly and then read outside the buffer as written;
      the corrected check rejects it. */
  lemma UncheckedStrTabReadsOutside()
    ensures var es := [DynEntry(DtStrTab, 4096, 4096), DynEntry(DtStrSz, 1, 1)];
            var buf := seq(16, _ => 0 as byte);
            && IndexPrefix(es, 2).IndexOk?
            && CheckDynStrTabAsWritten(es, IndexPrefix(es, 2).index, buf) == ReadOutside(4096)
            && CheckDynStrTab(es, IndexPrefix(es, 2).index, buf) == Some(DynStrTabOutOfBounds)
  {
    var es := [DynEntry(DtStrTab, 4096, 4096), DynEntry(DtStrSz, 1, 1)];
    assert IndexPrefix(es, 1) == IndexOk(DynIndex(EmptyIndex().slots[DtStrTab := Some(0)], 0));
  }
}
