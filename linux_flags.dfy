/** The flag translations of the open, open64, mmap, recv and send
    trampolines in macelf/mactrampolines.c. The Linux values are the ones the
    file spells out; the Mac values come from system headers that are not
    part of this model, so they are parameters, required only to be
    non-empty and pairwise disjoint as distinct single-bit constants are. */
module LinuxFlags {
  import opened FlagMap
  import opened Errnos

  /** What a trampoline does with translated flags: fail with an errno
      without calling the Mac function, or call it with the Mac flags. */
  datatype Outcome = Fails(errno: Errno) | Calls(flags: Mask)

  /** What the open trampoline does: fail, or call open with the Mac flags
      and the 16-bit Mac mode. */
  datatype OpenCall = OpenFails(errno: Errno) | CallsOpen(flags: Mask, mode: nat)

  // LinuxOpenFlags, as bit positions of the octal values.
  const O_WRONLY: Mask := {0}        // 01
  const O_RDWR: Mask := {1}          // 02
  const O_CREAT: Mask := {6}         // 0100
  const O_EXCL: Mask := {7}          // 0200
  const O_NOCTTY: Mask := {8}        // 0400
  const O_TRUNC: Mask := {9}         // 01000
  const O_APPEND: Mask := {10}       // 02000
  const O_NONBLOCK: Mask := {11}     // 04000
  const O_ASYNC: Mask := {13}        // 020000
  const O_DIRECT: Mask := {14}       // 040000
  const O_LARGEFILE: Mask := {15}    // 0100000
  const O_DIRECTORY: Mask := {16}    // 0200000
  const O_NOFOLLOW: Mask := {17}     // 0400000
  const O_NOATIME: Mask := {18}      // 01000000
  const O_CLOEXEC: Mask := {19}      // 02000000
  const O_SYNC: Mask := {12, 20}     // 04010000

  // LinuxMMapFlags.
  const MAP_SHARED: Mask := {0}      // 0x01
  const MAP_PRIVATE: Mask := {1}     // 0x02
  const MAP_FIXED: Mask := {4}       // 0x10
  const MAP_ANON: Mask := {5}        // 0x20

  // LinuxSendRecvFlags.
  const MSG_OOB: Mask := {0}         // 0x01
  const MSG_PEEK: Mask := {1}        // 0x02
  const MSG_DONTROUTE: Mask := {2}   // 0x04
  const MSG_CTRUNC: Mask := {3}      // 0x08
  const MSG_TRUNC: Mask := {5}       // 0x20
  const MSG_DONTWAIT: Mask := {6}    // 0x40
  const MSG_EOR: Mask := {7}         // 0x80
  const MSG_WAITALL: Mask := {8}     // 0x100

  /** The Mac O_* values the open trampoline maps to. */
  datatype MacOpenFlags = MacOpenFlags(
    wronly: Mask, rdwr: Mask, creat: Mask, excl: Mask, noctty: Mask,
    trunc: Mask, append: Mask, nonblock: Mask, async: Mask,
    directory: Mask, nofollow: Mask, cloexec: Mask, sync: Mask)

  /** The Mac MAP_* values. */
  datatype MacMmapFlags = MacMmapFlags(shared: Mask, private: Mask, fixed: Mask, anon: Mask)

  /** The Mac MSG_* values. */
  datatype MacMsgFlags = MacMsgFlags(
    oob: Mask, peek: Mask, dontroute: Mask, ctrunc: Mask,
    trunc: Mask, dontwait: Mask, eor: Mask, waitall: Mask)

  /** The MAPFLAG lines of mactrampoline_open, in order; O_DIRECT and
      O_NOATIME are commented out there, so they are not known. */
  function OpenTable(m: MacOpenFlags): seq<FlagPair>
  {
    [FlagPair(O_WRONLY, m.wronly), FlagPair(O_RDWR, m.rdwr), FlagPair(O_CREAT, m.creat),
     FlagPair(O_EXCL, m.excl), FlagPair(O_NOCTTY, m.noctty), FlagPair(O_TRUNC, m.trunc),
     FlagPair(O_APPEND, m.append), FlagPair(O_NONBLOCK, m.nonblock), FlagPair(O_ASYNC, m.async),
     FlagPair(O_DIRECTORY, m.directory), FlagPair(O_NOFOLLOW, m.nofollow),
     FlagPair(O_CLOEXEC, m.cloexec), FlagPair(O_SYNC, m.sync)]
  }

  /** The CVTFLAG lines of mactrampoline_mmap, in order. */
  function MmapTable(m: MacMmapFlags): seq<FlagPair>
  {
    [FlagPair(MAP_SHARED, m.shared), FlagPair(MAP_PRIVATE, m.private),
     FlagPair(MAP_FIXED, m.fixed), FlagPair(MAP_ANON, m.anon)]
  }

  /** The CVTFLAG lines of linux_sendrecvflags_to_mac, in order. */
  function MsgTable(m: MacMsgFlags): seq<FlagPair>
  {
    [FlagPair(MSG_OOB, m.oob), FlagPair(MSG_PEEK, m.peek), FlagPair(MSG_DONTROUTE, m.dontroute),
     FlagPair(MSG_CTRUNC, m.ctrunc), FlagPair(MSG_TRUNC, m.trunc), FlagPair(MSG_DONTWAIT, m.dontwait),
     FlagPair(MSG_EOR, m.eor), FlagPair(MSG_WAITALL, m.waitall)]
  }

  /** For each Linux open bit the trampoline knows, the MAPFLAG line (an
      index into OpenTable) that handles it. */
  const OpenOwner: map<nat, nat> :=
    map[0 := 0, 1 := 1, 6 := 2, 7 := 3, 8 := 4, 9 := 5, 10 := 6, 11 := 7,
        13 := 8, 16 := 9, 17 := 10, 19 := 11, 12 := 12, 20 := 12]

  /** The same for the mmap and send/recv tables. */
  const MmapOwner: map<nat, nat> := map[0 := 0, 1 := 1, 4 := 2, 5 := 3]
  const MsgOwner: map<nat, nat> := map[0 := 0, 1 := 1, 2 := 2, 3 := 3, 5 := 4, 6 := 5, 7 := 6, 8 := 7]

  /** The Linux open bits accepted without failing: the known ones and, in
      a 32-bit x86 build, O_LARGEFILE, which is dropped there. */
  function OpenAccepted(i386: bool): Mask
  {
    OpenOwner.Keys + (if i386 then O_LARGEFILE else {})
  }

  lemma OpenOwnedLow(m: MacOpenFlags)
    ensures OwnedRange(OpenTable(m), OpenOwner, 0, 7)
  {
  }

  lemma OpenOwnedHigh(m: MacOpenFlags)
    ensures OwnedRange(OpenTable(m), OpenOwner, 7, |OpenTable(m)|)
  {
  }

  lemma OpenCovered(m: MacOpenFlags)
    ensures Covers(OpenTable(m), OpenOwner)
  {
  }

  /** OpenTable knows exactly the bits of OpenOwner, and no two of its
      Linux masks share a bit. */
  lemma OpenTableFacts(m: MacOpenFlags)
    ensures Known(OpenTable(m)) == OpenOwner.Keys
    ensures LinuxDisjoint(OpenTable(m))
  {
    OpenOwnedLow(m);
    OpenOwnedHigh(m);
    OpenCovered(m);
    OwnedJoin(OpenTable(m), OpenOwner, 7);
    KnownOwned(OpenTable(m), OpenOwner);
    OwnedDisjoint(OpenTable(m), OpenOwner);
  }

  lemma MmapOwned(m: MacMmapFlags)
    ensures OwnedBy(MmapTable(m), MmapOwner)
  {
  }

  lemma MmapCovered(m: MacMmapFlags)
    ensures Covers(MmapTable(m), MmapOwner)
  {
  }

  lemma MmapTableFacts(m: MacMmapFlags)
    ensures Known(MmapTable(m)) == MmapOwner.Keys
    ensures LinuxDisjoint(MmapTable(m))
  {
    MmapOwned(m);
    MmapCovered(m);
    KnownOwned(MmapTable(m), MmapOwner);
    OwnedDisjoint(MmapTable(m), MmapOwner);
  }

  lemma MsgOwned(m: MacMsgFlags)
    ensures OwnedBy(MsgTable(m), MsgOwner)
  {
  }

  lemma MsgCovered(m: MacMsgFlags)
    ensures Covers(MsgTable(m), MsgOwner)
  {
  }

  lemma MsgTableFacts(m: MacMsgFlags)
    ensures Known(MsgTable(m)) == MsgOwner.Keys
    ensures LinuxDisjoint(MsgTable(m))
  {
    MsgOwned(m);
    MsgCovered(m);
    KnownOwned(MsgTable(m), MsgOwner);
    OwnedDisjoint(MsgTable(m), MsgOwner);
  }

  /** mactrampoline_open (macelf/mactrampolines.c:1325-1376): the mode is
      read only when O_CREAT is set and is cut to the 16-bit Mac mode_t;
      each known flag is mapped and cleared; a 32-bit x86 build drops
      O_LARGEFILE; any flag left makes the call fail with EPERM before
      open is called. */
  method Open(m: MacOpenFlags, i386: bool, flags: Mask, modeArg: nat) returns (r: OpenCall)
    ensures r.OpenFails? <==> !(flags <= OpenAccepted(i386))
    ensures r.OpenFails? ==> r.errno == EPERM
    ensures r.CallsOpen? ==> r.flags == Selected(OpenTable(m), flags)
    ensures r.CallsOpen? ==> r.mode == if Meets(flags, O_CREAT) then modeArg % 0x1_0000 else 0
  {
    var mode := 0;
    if Meets(flags, O_CREAT) {
      mode := modeArg % 0x1_0000;
    }
    OpenTableFacts(m);
    var macflags, rest := MapFlags(OpenTable(m), flags);
    if i386 && Meets(rest, O_LARGEFILE) {
      rest := rest - O_LARGEFILE;
    }
    if rest != {} {
      assert exists b :: b in rest;
      return OpenFails(EPERM);
    }
    assert forall b :: b in flags ==> b in OpenAccepted(i386) by {
      forall b | b in flags ensures b in OpenAccepted(i386) {
        assert b !in rest;
      }
    }
    return CallsOpen(macflags, mode);
  }

  /** mactrampoline_open64 (macelf/mactrampolines.c:1378-1393): open with
      O_LARGEFILE added. Outside a 32-bit x86 build that bit is never
      cleared, so every call fails with EPERM; in a 32-bit x86 build it is
      the open translation of the flags as given. */
  method Open64(m: MacOpenFlags, i386: bool, flags: Mask, modeArg: nat) returns (r: OpenCall)
    ensures !i386 ==> r == OpenFails(EPERM)
    ensures i386 ==> (r.OpenFails? <==> !(flags <= OpenAccepted(true)))
    ensures r.OpenFails? ==> r.errno == EPERM
    ensures r.CallsOpen? ==> r.flags == Selected(OpenTable(m), flags)
    ensures r.CallsOpen? ==> r.mode == if Meets(flags, O_CREAT) then modeArg % 0x1_0000 else 0
  {
    var withLarge := flags + O_LARGEFILE;
    assert 15 in withLarge;
    assert Meets(withLarge, O_CREAT) == Meets(flags, O_CREAT) by {
      assert withLarge * O_CREAT == flags * O_CREAT;
    }
    r := Open(m, i386, withLarge, modeArg);
    if r.CallsOpen? {
      LargeFileIgnored(m, flags);
    }
    assert (withLarge <= OpenAccepted(true)) == (flags <= OpenAccepted(true));
  }

  /** O_LARGEFILE is in no Linux mask of the open table, so it does not
      change the translation. */
  lemma LargeFileIgnored(m: MacOpenFlags, flags: Mask)
    ensures Selected(OpenTable(m), flags + O_LARGEFILE) == Selected(OpenTable(m), flags)
  {
    var t := OpenTable(m);
    forall i | 0 <= i < |t| ensures t[i].linux !! O_LARGEFILE {
    }
    SelectedIgnores(t, flags + O_LARGEFILE, O_LARGEFILE);
    SelectedIgnores(t, flags, O_LARGEFILE);
    assert (flags + O_LARGEFILE) - O_LARGEFILE == flags - O_LARGEFILE;
  }

  /** mactrampoline_mmap (macelf/mactrampolines.c:443-466): each known flag
      is mapped and cleared; any flag left makes the call fail with ENOTSUP
      (returning MAP_FAILED) before mmap is called. */
  method Mmap(m: MacMmapFlags, flags: Mask) returns (r: Outcome)
    ensures r.Fails? <==> !(flags <= MmapOwner.Keys)
    ensures r.Fails? ==> r.errno == ENOTSUP
    ensures r.Calls? ==> r.flags == Selected(MmapTable(m), flags)
  {
    MmapTableFacts(m);
    var macflags, rest := MapFlags(MmapTable(m), flags);
    if rest != {} {
      assert exists b :: b in rest;
      return Fails(ENOTSUP);
    }
    assert forall b :: b in flags ==> b in MmapOwner.Keys by {
      forall b | b in flags ensures b in MmapOwner.Keys {
        assert b !in rest;
      }
    }
    return Calls(macflags);
  }

  /** linux_sendrecvflags_to_mac (macelf/mactrampolines.c:2670-2705): each
      known flag is mapped and cleared; any flag left gives -1 with EINVAL.
      The translated flags hold only Mac MSG_* bits, which is what the
      source's assertion that the result is not -1 relies on. */
  method SendRecvFlagsToMac(m: MacMsgFlags, flags: Mask) returns (r: Outcome)
    ensures r.Fails? <==> !(flags <= MsgOwner.Keys)
    ensures r.Fails? ==> r.errno == EINVAL
    ensures r.Calls? ==> r.flags == Selected(MsgTable(m), flags) && r.flags <= MacKnown(MsgTable(m))
  {
    MsgTableFacts(m);
    var macflags, rest := MapFlags(MsgTable(m), flags);
    if rest != {} {
      assert exists b :: b in rest;
      return Fails(EINVAL);
    }
    assert forall b :: b in flags ==> b in MsgOwner.Keys by {
      forall b | b in flags ensures b in MsgOwner.Keys {
        assert b !in rest;
      }
    }
    SelectedWithin(MsgTable(m), flags);
    return Calls(macflags);
  }

  /** mactrampoline_recv and mactrampoline_send (macelf/mactrampolines.c:
      2707-2711, 2728-2732): -1 without calling the OS when the flags do not
      translate, and otherwise the OS call with the translated flags. */
  method RecvOrSend(m: MacMsgFlags, flags: Mask) returns (r: Outcome)
    ensures r.Fails? <==> !(flags <= MsgOwner.Keys)
    ensures r.Calls? ==> r.flags == Selected(MsgTable(m), flags)
  {
    r := SendRecvFlagsToMac(m, flags);
  }

  /** With valid Mac constants, each Mac open bit is passed to open
      exactly when the flags hold the Linux bit it translates. */
  lemma OpenFlagTranslated(m: MacOpenFlags, flags: Mask, k: nat, b: nat)
    requires MacDisjoint(OpenTable(m)) && k < |OpenTable(m)| && b in OpenTable(m)[k].mac
    ensures b in Selected(OpenTable(m), flags) <==> Meets(flags, OpenTable(m)[k].linux)
  {
    SelectedBit(OpenTable(m), flags, k, b);
  }

  /** Linux O_DIRECT and O_NOATIME are never translated, so open rejects
      them in every build. */
  lemma OpenRejectsUnmapped(i386: bool, flags: Mask)
    requires Meets(flags, O_DIRECT) || Meets(flags, O_NOATIME)
    ensures !(flags <= OpenAccepted(i386))
  {
    if Meets(flags, O_DIRECT) {
      assert 14 in flags * O_DIRECT;
    } else {
      assert 18 in flags * O_NOATIME;
    }
  }
}
