/** The socket-address header rewrite of macelf/mactrampolines.c:2317-2384.
    A Linux sockaddr starts with a 16-bit little-endian family; a Mac one
    starts with an 8-bit struct length and an 8-bit family. AF_UNIX and
    AF_INET have the same numbers on both systems; AF_INET6 is 10 on Linux
    and something else on the Mac. The rest of the struct is copied as it
    is. */
module Sockaddr {
  import opened Bytes
  import opened Errnos

  /** LINUX_AF_INET6. */
  const LINUX_AF_INET6: nat := 10

  /** The Mac AF_UNIX, AF_INET and AF_INET6 and the sizes of sockaddr_un,
      sockaddr_in and sockaddr_in6, which come from the system headers. */
  datatype MacNet = MacNet(afUnix: nat, afInet: nat, afInet6: nat, unLen: nat, inLen: nat, in6Len: nat)

  /** Three distinct one-byte families, none of them Linux's 10, and struct
      sizes that hold the two header bytes and fit the one-byte length. */
  predicate ValidNet(c: MacNet)
  {
    c.afUnix != c.afInet && c.afUnix != c.afInet6 && c.afInet != c.afInet6
    && c.afUnix < 256 && c.afInet < 256 && c.afInet6 < 256
    && c.afUnix != LINUX_AF_INET6 && c.afInet != LINUX_AF_INET6 && c.afInet6 != LINUX_AF_INET6
    && 2 <= c.unLen < 256 && 2 <= c.inLen < 256 && 2 <= c.in6Len < 256
  }

  /** get_sockaddr_len: the struct size of a Mac family, 0 for any other. */
  function SockaddrLen(c: MacNet, family: int): nat
  {
    if family == c.afUnix then c.unLen
    else if family == c.afInet then c.inLen
    else if family == c.afInet6 then c.in6Len
    else 0
  }

  /** supported_socket_family holds for exactly the three Mac families, and
      each gets the size of its own struct. */
  lemma SockaddrLenKnown(c: MacNet, family: int)
    requires ValidNet(c)
    ensures SockaddrLen(c, family) != 0 <==> family in [c.afUnix, c.afInet, c.afInet6]
    ensures SockaddrLen(c, c.afUnix) == c.unLen && SockaddrLen(c, c.afInet) == c.inLen
    ensures SockaddrLen(c, c.afInet6) == c.in6Len
  {
  }

  /** The 16-bit little-endian family word at the start of a Linux sockaddr. */
  function LinuxFamily(a: seq<byte>): (f: nat)
    requires |a| >= 2
    ensures f < 0x1_0000
  {
    a[0] as nat + 256 * a[1] as nat
  }

  /** What memcpy(dst, src, n) leaves in dst. */
  function Copied(dst: seq<byte>, src: seq<byte>, n: nat): (r: seq<byte>)
    requires n <= |dst| && n <= |src|
    ensures |r| == |dst|
  {
    src[..n] + dst[n..]
  }

  /** b with its first two bytes overwritten. */
  function WithHeader(b: seq<byte>, b0: byte, b1: byte): (r: seq<byte>)
    requires |b| >= 2
    ensures |r| == |b|
  {
    [b0, b1] + b[2..]
  }

  /** The family linux_sockaddr_to_mac looks up: Linux's 10 becomes the Mac
      AF_INET6, every other value stays. */
  function MacFamilyOf(c: MacNet, lnx: seq<byte>): nat
    requires |lnx| >= 2
  {
    if LinuxFamily(lnx) == LINUX_AF_INET6 then c.afInet6 else LinuxFamily(lnx)
  }

  /** The caller's buffers hold the struct linux_sockaddr_to_mac copies. */
  predicate ToMacFits(c: MacNet, mac: seq<byte>, lnx: seq<byte>)
  {
    |lnx| >= 2 && |mac| >= 2
    && SockaddrLen(c, MacFamilyOf(c, lnx)) <= |lnx| && SockaddrLen(c, MacFamilyOf(c, lnx)) <= |mac|
  }

  /** linux_sockaddr_to_mac on the bytes of the two buffers: None when it
      fails (with errno ENOTSUP), otherwise the new Mac buffer: the struct
      copied, then byte 0 the struct length and byte 1 the Mac family, both
      truncated to 8 bits. */
  function LinuxToMac(c: MacNet, mac: seq<byte>, lnx: seq<byte>): Option<seq<byte>>
    requires ToMacFits(c, mac, lnx)
  {
    var family := MacFamilyOf(c, lnx);
    var n := SockaddrLen(c, family);
    if n == 0 then None
    else Some(WithHeader(Copied(mac, lnx, n), (n % 256) as byte, (family % 256) as byte))
  }

  /** linux_sockaddr_to_mac succeeds exactly for the Linux families 10,
      AF_UNIX and AF_INET (and a Linux family that happens to equal the Mac
      AF_INET6), and then writes the Mac header over a copy of the struct. */
  lemma LinuxToMacAccepts(c: MacNet, mac: seq<byte>, lnx: seq<byte>)
    requires ValidNet(c) && ToMacFits(c, mac, lnx)
    ensures LinuxToMac(c, mac, lnx).Some? <==> LinuxFamily(lnx) in [c.afUnix, c.afInet, LINUX_AF_INET6, c.afInet6]
    ensures LinuxToMac(c, mac, lnx).Some? ==>
              var n := SockaddrLen(c, MacFamilyOf(c, lnx));
              var r := LinuxToMac(c, mac, lnx).value;
              |r| == |mac| && r[0] as nat == n && r[1] as nat == MacFamilyOf(c, lnx)
              && r[2..n] == lnx[2..n] && r[n..] == mac[n..]
  {
    SockaddrLenKnown(c, MacFamilyOf(c, lnx));
    if LinuxToMac(c, mac, lnx).Some? {
      var n := SockaddrLen(c, MacFamilyOf(c, lnx));
      var r := LinuxToMac(c, mac, lnx).value;
      assert r[2..n] == lnx[2..n] by {
        forall i | 2 <= i < n ensures r[i] == lnx[i] {
        }
      }
      assert r[n..] == mac[n..] by {
        forall i | n <= i < |mac| ensures r[i] == mac[i] {
        }
      }
    }
  }

  /** The caller's buffers hold the struct mac_sockaddr_to_linux copies,
      whose length is the Mac header's first byte. */
  predicate ToLinuxFits(lnx: seq<byte>, mac: seq<byte>)
  {
    |mac| >= 2 && |lnx| >= 2 && mac[0] as nat <= |mac| && mac[0] as nat <= |lnx|
  }

  /** The Linux family of a Mac family byte: AF_INET6 becomes 10. */
  function LinuxFamilyOf(c: MacNet, family: byte): (f: nat)
    ensures f < 256
  {
    if family as nat == c.afInet6 then LINUX_AF_INET6 else family as nat
  }

  /** mac_sockaddr_to_linux as written: the family is turned into the Linux
      value BEFORE supported_socket_family tests it, and that test knows
      only Mac values. None when it fails (with errno ENOTSUP); otherwise the
      struct copied and the 16-bit family written little-endian. */
  function MacToLinux(c: MacNet, lnx: seq<byte>, mac: seq<byte>): Option<seq<byte>>
    requires ToLinuxFits(lnx, mac)
  {
    var family := LinuxFamilyOf(c, mac[1]);
    if SockaddrLen(c, family) == 0 then None
    else Some(WithHeader(Copied(lnx, mac, mac[0] as nat), family as byte, 0))
  }

  /** As written, a Mac AF_INET6 address is always refused: its family is
      already 10 when the Mac-valued table is asked about it. Only AF_UNIX
      and AF_INET get through. */
  lemma MacToLinuxRejectsInet6(c: MacNet, lnx: seq<byte>, mac: seq<byte>)
    requires ValidNet(c) && ToLinuxFits(lnx, mac)
    ensures mac[1] as nat == c.afInet6 ==> MacToLinux(c, lnx, mac).None?
    ensures MacToLinux(c, lnx, mac).Some? <==> mac[1] as nat in [c.afUnix, c.afInet]
  {
    SockaddrLenKnown(c, LinuxFamilyOf(c, mac[1]));
  }

  /** mac_sockaddr_to_linux with the test made on the Mac family, as the
      AF_INET6 conversion right before it evidently intends. */
  function MacToLinuxFixed(c: MacNet, lnx: seq<byte>, mac: seq<byte>): Option<seq<byte>>
    requires ToLinuxFits(lnx, mac)
  {
    if SockaddrLen(c, mac[1] as nat) == 0 then None
    else Some(WithHeader(Copied(lnx, mac, mac[0] as nat), LinuxFamilyOf(c, mac[1]) as byte, 0))
  }

  /** The two rewrites undo each other: a Linux AF_UNIX, AF_INET or AF_INET6
      address taken to the Mac form and back comes out as it went in, over
      the whole struct. The code as written gives this back for AF_UNIX and
      AF_INET and refuses AF_INET6; the corrected test gives it for all
      three. */
  lemma FixedRoundTrip(c: MacNet, lnx: seq<byte>, mac: seq<byte>, back: seq<byte>)
    requires ValidNet(c) && ToMacFits(c, mac, lnx)
    requires LinuxFamily(lnx) in [c.afUnix, c.afInet, LINUX_AF_INET6]
    requires SockaddrLen(c, MacFamilyOf(c, lnx)) <= |back| && |back| >= 2
    ensures LinuxToMac(c, mac, lnx).Some?
    ensures var m := LinuxToMac(c, mac, lnx).value;
            var n := SockaddrLen(c, MacFamilyOf(c, lnx));
            ToLinuxFits(back, m)
            && MacToLinuxFixed(c, back, m).Some?
            && MacToLinuxFixed(c, back, m).value[..n] == lnx[..n]
            && MacToLinuxFixed(c, back, m).value[n..] == back[n..]
            && (MacToLinux(c, back, m).Some? <==> LinuxFamily(lnx) != LINUX_AF_INET6)
            && (MacToLinux(c, back, m).Some? ==> MacToLinux(c, back, m) == MacToLinuxFixed(c, back, m))
  {
    LinuxToMacAccepts(c, mac, lnx);
    var m := LinuxToMac(c, mac, lnx).value;
    var n := SockaddrLen(c, MacFamilyOf(c, lnx));
    assert m[0] as nat == n;
    assert lnx[1] == 0 && lnx[0] as nat == LinuxFamily(lnx);
    assert LinuxFamilyOf(c, m[1]) == LinuxFamily(lnx);
    MacToLinuxRejectsInet6(c, back, m);
    var r := MacToLinuxFixed(c, back, m).value;
    assert r[..n] == lnx[..n] by {
      forall i | 0 <= i < n ensures r[i] == lnx[i] {
        if i >= 2 {
          assert r[i] == m[i] == lnx[i];
        }
      }
    }
    assert r[n..] == back[n..] by {
      forall i | n <= i < |back| ensures r[i] == back[i] {
      }
    }
  }

  /** linux_sockaddr_to_mac (macelf/mactrampolines.c:2336-2358) on the two
      buffers: returns 1 with the Mac buffer rewritten, or 0 with errno
      ENOTSUP and the Mac buffer untouched. */
  method LinuxSockaddrToMac(c: MacNet, macaddr: array<byte>, lnxaddr: array<byte>) returns (r: int, errno: Option<Errno>)
    requires macaddr != lnxaddr && ToMacFits(c, macaddr[..], lnxaddr[..])
    modifies macaddr
    ensures LinuxToMac(c, old(macaddr[..]), lnxaddr[..]) == if r == 1 then Some(macaddr[..]) else None
    ensures (r == 1 && errno.None?) || (r == 0 && errno == Some(ENOTSUP) && macaddr[..] == old(macaddr[..]))
  {
    var family: nat := lnxaddr[0] as nat + 256 * lnxaddr[1] as nat;
    if family == LINUX_AF_INET6 {
      family := c.afInet6;
    }
    var structlen := SockaddrLen(c, family);
    if structlen == 0 {
      return 0, Some(ENOTSUP);
    }
    ghost var before := macaddr[..];
    forall i | 0 <= i < structlen {
      macaddr[i] := lnxaddr[i];
    }
    assert macaddr[..] == Copied(before, lnxaddr[..], structlen);
    macaddr[0] := (structlen % 256) as byte;
    macaddr[1] := (family % 256) as byte;
    assert macaddr[..] == WithHeader(Copied(before, lnxaddr[..], structlen), (structlen % 256) as byte, (family % 256) as byte);
    return 1, None;
  }

  /** mac_sockaddr_to_linux (macelf/mactrampolines.c:2360-2384) as written on
      the two buffers: returns 1 with the Linux buffer rewritten, or 0 with
      errno ENOTSUP and the Linux buffer untouched. */
  method MacSockaddrToLinux(c: MacNet, lnxaddr: array<byte>, macaddr: array<byte>) returns (r: int, errno: Option<Errno>)
    requires macaddr != lnxaddr && ToLinuxFits(lnxaddr[..], macaddr[..])
    modifies lnxaddr
    ensures MacToLinux(c, old(lnxaddr[..]), macaddr[..]) == if r == 1 then Some(lnxaddr[..]) else None
    ensures (r == 1 && errno.None?) || (r == 0 && errno == Some(ENOTSUP) && lnxaddr[..] == old(lnxaddr[..]))
  {
    var structlen := macaddr[0];
    var family := macaddr[1];
    if family as nat == c.afInet6 {
      family := LINUX_AF_INET6 as byte;
    }
    if SockaddrLen(c, family as nat) == 0 {
      return 0, Some(ENOTSUP);
    }
    ghost var before := lnxaddr[..];
    forall i | 0 <= i < structlen as nat {
      lnxaddr[i] := macaddr[i];
    }
    assert lnxaddr[..] == Copied(before, macaddr[..], structlen as nat);
    lnxaddr[0] := family;
    lnxaddr[1] := 0;
    assert lnxaddr[..] == WithHeader(Copied(before, macaddr[..], structlen as nat), family, 0);
    return 1, None;
  }
}
