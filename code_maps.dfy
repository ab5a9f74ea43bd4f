/** The constant-translating switches of macelf/mactrampolines.c:
    gai_strerror, mac_addrinfoerror_to_linux, linux_sockopt_to_mac with the
    setsockopt / getsockopt prelude, and the category switch of setlocale.

    The named constants here are the Linux values, which the source spells
    out. The Mac values come from system headers the model does not have, so
    they are the fields of a record parameter. Each switch is written as its
    list of labels, its list of values in the same order and the value after
    the switch. */
module CodeMaps {
  import opened Bytes
  import opened Errnos
  import opened Switch

  // ---------------------------------------------------------------------
  // getaddrinfo error codes

  /** The LinuxAddrInfoErrors enumeration (macelf/mactrampolines.c:2476-2488). */
  const EAI_BADFLAGS: int := -1
  const EAI_NONAME: int := -2
  const EAI_AGAIN: int := -3
  const EAI_FAIL: int := -4
  const EAI_FAMILY: int := -6
  const EAI_SOCKTYPE: int := -7
  const EAI_SERVICE: int := -8
  const EAI_MEMORY: int := -10
  const EAI_SYSTEM: int := -11
  const EAI_OVERFLOW: int := -12

  /** The labels of gai_strerror, in the source's order. */
  const GaiCodes: seq<int> :=
    [EAI_BADFLAGS, EAI_NONAME, EAI_AGAIN, EAI_FAIL, EAI_FAMILY,
     EAI_SOCKTYPE, EAI_SERVICE, EAI_MEMORY, EAI_SYSTEM, EAI_OVERFLOW]

  /** Its messages; the one for EAI_MEMORY does start with a space. */
  const GaiTexts: seq<string> := [
    "invalid value for ai_flags",
    "hostname or servname not provided, or not known",
    "temporary failure in name resolution",
    "non-recoverable failure in name resolution",
    "ai_family not supported",
    "ai_socktype not supported",
    "servname not supported for ai_socktype",
    " memory allocation failure",
    "system error returned in errno",
    "argument buffer overflow"]

  /** What gai_strerror returns after its switch. */
  const UNKNOWN_ERROR: string := "unknown error"

  /** mactrampoline_gai_strerror. */
  function GaiStrerror(err: int): string
  {
    Lookup(Zip(GaiCodes, GaiTexts), err, UNKNOWN_ERROR)
  }

  /** The k-th code gets the k-th message, and "unknown error" comes back
      exactly for the codes the switch does not list. */
  lemma GaiStrerrorKnown(err: int)
    ensures forall k :: 0 <= k < |GaiCodes| ==> GaiStrerror(GaiCodes[k]) == GaiTexts[k]
    ensures GaiStrerror(err) != UNKNOWN_ERROR <==> err in GaiCodes
  {
    var cs := Zip(GaiCodes, GaiTexts);
    ZipParts(GaiCodes, GaiTexts);
    StrictDistinct(GaiCodes, false);
    forall k | 0 <= k < |GaiCodes| ensures GaiStrerror(GaiCodes[k]) == GaiTexts[k] {
      LookupHit(cs, k, UNKNOWN_ERROR);
    }
    LookupIn(cs, err, UNKNOWN_ERROR);
  }

  /** The Mac EAI_* values that mac_addrinfoerror_to_linux switches on. */
  datatype MacEai = MacEai(badflags: int, noname: int, again: int, fail: int, family: int,
                           socktype: int, service: int, memory: int, system: int, overflow: int)

  /** The labels of mac_addrinfoerror_to_linux (macelf/mactrampolines.c:2509-2528):
      0, then the Mac code of each name gai_strerror knows, in its order. */
  function MacEaiCodes(m: MacEai): seq<int>
  {
    [0, m.badflags, m.noname, m.again, m.fail, m.family,
     m.socktype, m.service, m.memory, m.system, m.overflow]
  }

  /** The values it returns for them: 0, then the Linux codes of the same
      names. */
  const AddrinfoResults: seq<int> := [0] + GaiCodes

  /** The switch compiles: its labels are distinct. */
  predicate ValidEai(m: MacEai)
  {
    Distinct(MacEaiCodes(m))
  }

  /** mac_addrinfoerror_to_linux: EAI_FAIL for a code it does not know. */
  function AddrinfoErrorToLinux(m: MacEai, err: int): int
  {
    Lookup(Zip(MacEaiCodes(m), AddrinfoResults), err, EAI_FAIL)
  }

  /** Success stays 0, each Mac code becomes the Linux code of the same name,
      and every other code becomes EAI_FAIL. */
  lemma AddrinfoErrorTranslates(m: MacEai, err: int)
    requires ValidEai(m)
    ensures forall k :: 0 <= k < |MacEaiCodes(m)| ==> AddrinfoErrorToLinux(m, MacEaiCodes(m)[k]) == AddrinfoResults[k]
    ensures AddrinfoErrorToLinux(m, 0) == 0 && AddrinfoErrorToLinux(m, m.memory) == EAI_MEMORY
    ensures err !in MacEaiCodes(m) ==> AddrinfoErrorToLinux(m, err) == EAI_FAIL
  {
    var cs := Zip(MacEaiCodes(m), AddrinfoResults);
    ZipParts(MacEaiCodes(m), AddrinfoResults);
    forall k | 0 <= k < |cs| ensures AddrinfoErrorToLinux(m, MacEaiCodes(m)[k]) == AddrinfoResults[k] {
      LookupHit(cs, k, EAI_FAIL);
    }
    assert MacEaiCodes(m)[8] == m.memory;
    LookupIn(cs, err, EAI_FAIL);
  }

  /** Whatever the Mac side returns, the Linux caller sees 0 or a code that
      gai_strerror has a message for. */
  lemma AddrinfoErrorHasMessage(m: MacEai, err: int)
    ensures AddrinfoErrorToLinux(m, err) == 0 || AddrinfoErrorToLinux(m, err) in GaiCodes
    ensures AddrinfoErrorToLinux(m, err) != 0 ==> GaiStrerror(AddrinfoErrorToLinux(m, err)) != UNKNOWN_ERROR
  {
    var cs := Zip(MacEaiCodes(m), AddrinfoResults);
    ZipParts(MacEaiCodes(m), AddrinfoResults);
    LookupIn(cs, err, EAI_FAIL);
    GaiStrerrorKnown(AddrinfoErrorToLinux(m, err));
  }

  /** Two codes that translate to the same code other than the fallback
      EAI_FAIL were the same code. */
  lemma AddrinfoErrorInjective(m: MacEai, err: int, other: int)
    requires AddrinfoErrorToLinux(m, err) == AddrinfoErrorToLinux(m, other) != EAI_FAIL
    ensures err == other
  {
    var cs := Zip(MacEaiCodes(m), AddrinfoResults);
    ZipParts(MacEaiCodes(m), AddrinfoResults);
    StrictDistinct(AddrinfoResults, false);
    LookupInjective(cs, err, other, EAI_FAIL);
  }

  // ---------------------------------------------------------------------
  // socket options

  /** LINUX_SOL_SOCKET and the LinuxSocketOptions enumeration
      (macelf/mactrampolines.c:2595-2614). */
  const LINUX_SOL_SOCKET: int := 1
  const SO_DEBUG: int := 1
  const SO_REUSEADDR: int := 2
  const SO_TYPE: int := 3
  const SO_ERROR: int := 4
  const SO_DONTROUTE: int := 5
  const SO_BROADCAST: int := 6
  const SO_SNDBUF: int := 7
  const SO_RCVBUF: int := 8
  const SO_KEEPALIVE: int := 9
  const SO_OOBINLINE: int := 10
  const SO_LINGER: int := 13
  const SO_RCVLOWAT: int := 18
  const SO_SNDLOWAT: int := 19
  const SO_RCVTIMEO: int := 20
  const SO_SNDTIMEO: int := 21

  /** The labels of linux_sockopt_to_mac (macelf/mactrampolines.c:2616-2640). */
  const LinuxSockopts: seq<int> :=
    [SO_DEBUG, SO_REUSEADDR, SO_TYPE, SO_ERROR, SO_DONTROUTE, SO_BROADCAST, SO_SNDBUF, SO_RCVBUF,
     SO_KEEPALIVE, SO_OOBINLINE, SO_LINGER, SO_RCVLOWAT, SO_SNDLOWAT, SO_RCVTIMEO, SO_SNDTIMEO]

  /** The Mac SO_* values. */
  datatype MacSockopts = MacSockopts(
    debug: int, reuseAddr: int, sockType: int, sockError: int, dontRoute: int,
    broadcast: int, sndBuf: int, rcvBuf: int, keepAlive: int, oobInline: int,
    linger: int, rcvLowat: int, sndLowat: int, rcvTimeo: int, sndTimeo: int)

  /** The values of linux_sockopt_to_mac: the Mac option of each name. */
  function MacSockoptValues(m: MacSockopts): seq<int>
  {
    [m.debug, m.reuseAddr, m.sockType, m.sockError, m.dontRoute, m.broadcast, m.sndBuf, m.rcvBuf,
     m.keepAlive, m.oobInline, m.linger, m.rcvLowat, m.sndLowat, m.rcvTimeo, m.sndTimeo]
  }

  /** No Mac option is the -1 that marks an unknown option. */
  predicate ValidSockopts(m: MacSockopts)
  {
    -1 !in MacSockoptValues(m)
  }

  /** linux_sockopt_to_mac: -1 for an option it does not know. */
  function SockoptToMac(m: MacSockopts, opt: int): int
  {
    Lookup(Zip(LinuxSockopts, MacSockoptValues(m)), opt, -1)
  }

  /** Each Linux option becomes the Mac option of the same name, and -1
      comes back exactly for the options the switch does not list. */
  lemma SockoptTranslates(m: MacSockopts, opt: int)
    requires ValidSockopts(m)
    ensures forall k :: 0 <= k < |LinuxSockopts| ==> SockoptToMac(m, LinuxSockopts[k]) == MacSockoptValues(m)[k]
    ensures SockoptToMac(m, opt) == -1 <==> opt !in LinuxSockopts
  {
    var cs := Zip(LinuxSockopts, MacSockoptValues(m));
    ZipParts(LinuxSockopts, MacSockoptValues(m));
    StrictDistinct(LinuxSockopts, true);
    forall k | 0 <= k < |cs| ensures SockoptToMac(m, LinuxSockopts[k]) == MacSockoptValues(m)[k] {
      LookupHit(cs, k, -1);
    }
    LookupIn(cs, opt, -1);
  }

  /** What the shared prelude of mactrampoline_setsockopt and
      mactrampoline_getsockopt decides: fail with errno ENOTSUP and return
      -1 without calling the OS, or call it with this level and option. */
  datatype SockoptOutcome = SockoptFails(errno: Errno) | SockoptCalls(level: int, option: int)

  /** The prelude (macelf/mactrampolines.c:2642-2666); macSolSocket is the
      Mac SOL_SOCKET. */
  function SockoptCall(m: MacSockopts, macSolSocket: int, level: int, option: int): SockoptOutcome
  {
    var lvl := if level == LINUX_SOL_SOCKET then macSolSocket else level;
    var opt := SockoptToMac(m, option);
    if opt == -1 then SockoptFails(ENOTSUP) else SockoptCalls(lvl, opt)
  }

  /** set/getsockopt fail with ENOTSUP exactly for an unknown option, and
      otherwise reach the OS with the socket level translated, every other
      level passed through and the option translated. */
  lemma SockoptCallOutcome(m: MacSockopts, macSolSocket: int, level: int, option: int)
    requires ValidSockopts(m)
    ensures SockoptCall(m, macSolSocket, level, option) == SockoptFails(ENOTSUP) <==> option !in LinuxSockopts
    ensures option in LinuxSockopts ==>
              SockoptCall(m, macSolSocket, level, option)
              == SockoptCalls(if level == LINUX_SOL_SOCKET then macSolSocket else level, SockoptToMac(m, option))
  {
    SockoptTranslates(m, option);
  }

  // ---------------------------------------------------------------------
  // locale categories

  /** The LinuxLocaleCategory enumeration (macelf/mactrampolines.c:918-927). */
  const LC_CTYPE: int := 0
  const LC_NUMERIC: int := 1
  const LC_TIME: int := 2
  const LC_COLLATE: int := 3
  const LC_MONETARY: int := 4
  const LC_MESSAGES: int := 5
  const LC_ALL: int := 6

  /** The labels of the category switch in mactrampoline_setlocale. */
  const LinuxLocales: seq<int> := [LC_CTYPE, LC_NUMERIC, LC_TIME, LC_COLLATE, LC_MONETARY, LC_MESSAGES, LC_ALL]

  /** The Mac LC_* values. */
  datatype MacLocales = MacLocales(ctype: int, numeric: int, time: int, collate: int,
                                   monetary: int, messages: int, all: int)

  function MacLocaleValues(m: MacLocales): seq<int>
  {
    [m.ctype, m.numeric, m.time, m.collate, m.monetary, m.messages, m.all]
  }

  /** The Mac categories are distinct, as the system headers define them. */
  predicate ValidLocales(m: MacLocales)
  {
    Distinct(MacLocaleValues(m))
  }

  /** The values of the switch: the Mac category of each name. */
  function LocaleOutcomes(m: MacLocales): (r: seq<Option<int>>)
    ensures |r| == |LinuxLocales| && forall i :: 0 <= i < |r| ==> r[i] == Some(MacLocaleValues(m)[i])
  {
    seq(|LinuxLocales|, i requires 0 <= i < |LinuxLocales| => Some(MacLocaleValues(m)[i]))
  }

  /** The switch of mactrampoline_setlocale (macelf/mactrampolines.c:930-949):
      None when it returns NULL without calling setlocale, Some(c) when it
      calls the Mac setlocale with category c and the caller's locale. */
  function SetlocaleCategory(m: MacLocales, category: int): Option<int>
  {
    Lookup(Zip(LinuxLocales, LocaleOutcomes(m)), category, None)
  }

  /** setlocale reaches the OS exactly for the seven Linux categories, each
      as the Mac category of the same name, and distinct categories stay
      distinct. */
  lemma SetlocaleTranslates(m: MacLocales, category: int, other: int)
    ensures forall k :: 0 <= k < |LinuxLocales| ==> SetlocaleCategory(m, LinuxLocales[k]) == Some(MacLocaleValues(m)[k])
    ensures SetlocaleCategory(m, category).Some? <==> LC_CTYPE <= category <= LC_ALL
    ensures (ValidLocales(m) && SetlocaleCategory(m, category).Some?
             && SetlocaleCategory(m, category) == SetlocaleCategory(m, other)) ==> category == other
  {
    var cs := Zip(LinuxLocales, LocaleOutcomes(m));
    ZipParts(LinuxLocales, LocaleOutcomes(m));
    StrictDistinct(LinuxLocales, true);
    forall k | 0 <= k < |cs| ensures SetlocaleCategory(m, LinuxLocales[k]) == Some(MacLocaleValues(m)[k]) {
      LookupHit(cs, k, None);
    }
    LookupIn(cs, category, None);
    if ValidLocales(m) && SetlocaleCategory(m, category).Some? && SetlocaleCategory(m, category) == SetlocaleCategory(m, other) {
      assert Distinct(LocaleOutcomes(m));
      LookupInjective(cs, category, other, None);
    }
  }
}
