/** The mount-table emulation of macelf/mactrampolines.c: setmntent on
    "/etc/mtab" renders the mounts getmntinfo reports as Linux mtab lines
    into one buffer, served to stdio by the mtab_read callback; getmntent
    splits each line fgets returns into the fields of a mount entry.

    getmntinfo, realloc, malloc and funopen are outside this model: the
    mounts and the outcome of each allocation are parameters. The Mac MNT_*
    values come from system headers and are parameters too. */
module Mtab {
  import opened Bytes
  import opened FlagMap
  import opened CText
  import opened Errnos

  /** The Mac MNT_* bits the option string reports. */
  datatype MacMntFlags = MacMntFlags(
    rdonly: Mask, synchronous: Mask, async: Mask, noexec: Mask, nosuid: Mask, nodev: Mask)

  /** The struct statfs fields setmntent reads from one mount. */
  datatype Mount = Mount(fromName: CStr, onName: CStr, fsType: CStr, flags: Mask)

  /** The static struct getmntent fills, as a value. */
  datatype MntEnt = MntEnt(fsname: string, dir: string, fsType: string, opts: string, freq: int, passno: int)

  // ---------------------------------------------------------------------
  // The option string (macelf/mactrampolines.c:1477-1488)
  // ---------------------------------------------------------------------

  /** The CVTFLAG lines of setmntent, in order: a Mac bit and the option
      name appended when it is set. */
  function OptionTable(m: MacMntFlags): seq<(Mask, string)>
  {
    [(m.synchronous, "sync"), (m.async, "async"), (m.noexec, "noexec"),
     (m.nosuid, "nosuid"), (m.nodev, "nodev")]
  }

  /** What the CVTFLAG lines append: ",name" for each set bit, in order. */
  function OptionSuffix(table: seq<(Mask, string)>, flags: Mask): string
    decreases |table|
  {
    if |table| == 0 then ""
    else (if Meets(flags, table[0].0) then "," + table[0].1 else "") + OptionSuffix(table[1..], flags)
  }

  /** The reference list: the names of the set bits, in table order. */
  function OptionNames(table: seq<(Mask, string)>, flags: Mask): seq<string>
    decreases |table|
  {
    if |table| == 0 then []
    else (if Meets(flags, table[0].0) then [table[0].1] else []) + OptionNames(table[1..], flags)
  }

  /** The opts buffer of setmntent: "ro" or "rw", then the options. */
  function MountOpts(m: MacMntFlags, flags: Mask): string
  {
    (if Meets(flags, m.rdonly) then "ro" else "rw") + OptionSuffix(OptionTable(m), flags)
  }

  predicate Lower(s: string)
  {
    forall c :: c in s ==> 'a' <= c <= 'z'
  }

  /** Every option name is a non-empty lower-case word. */
  predicate PlainNames(table: seq<(Mask, string)>)
  {
    forall i :: 0 <= i < |table| ==> table[i].1 != [] && Lower(table[i].1)
  }

  /** The option suffix splits at commas into exactly the names of the set
      bits, and holds only lower-case letters and commas. */
  lemma {:induction false} SuffixTokens(table: seq<(Mask, string)>, flags: Mask)
    requires PlainNames(table)
    ensures Tokens(OptionSuffix(table, flags), ',') == OptionNames(table, flags)
    ensures OptionSuffix(table, flags) == [] || OptionSuffix(table, flags)[0] == ','
    ensures forall c :: c in OptionSuffix(table, flags) ==> c == ',' || 'a' <= c <= 'z'
    decreases |table|
  {
    if |table| > 0 {
      var t := table[1..];
      assert PlainNames(t) by {
        forall i | 0 <= i < |t| ensures t[i].1 != [] && Lower(t[i].1) {
          assert t[i] == table[i + 1];
        }
      }
      SuffixTokens(t, flags);
      var rest := OptionSuffix(t, flags);
      if Meets(flags, table[0].0) {
        var name := table[0].1;
        assert ',' !in name by {
          assert Lower(name);
        }
        var joined := [','] + (name + rest);
        assert OptionSuffix(table, flags) == joined;
        assert joined[0] == ',' && joined[1..] == name + rest;
        TokensCons(name, rest, ',');
        assert Tokens(joined, ',') == [name] + Tokens(rest, ',');
      } else {
        assert OptionSuffix(table, flags) == rest;
        assert OptionNames(table, flags) == OptionNames(t, flags);
      }
    }
  }

  lemma OptionTablePlain(m: MacMntFlags)
    ensures PlainNames(OptionTable(m))
  {
  }

  /** Split at commas, the option string is "ro" or "rw" followed by the
      names of the set MNT_* bits in order. */
  lemma MountOptsTokens(m: MacMntFlags, flags: Mask)
    ensures Tokens(MountOpts(m, flags), ',') ==
              [if Meets(flags, m.rdonly) then "ro" else "rw"] + OptionNames(OptionTable(m), flags)
    ensures forall c :: c in MountOpts(m, flags) ==> c == ',' || 'a' <= c <= 'z'
  {
    OptionTablePlain(m);
    SuffixTokens(OptionTable(m), flags);
    TokensCons(if Meets(flags, m.rdonly) then "ro" else "rw", OptionSuffix(OptionTable(m), flags), ',');
  }

  /** The option string never exceeds the 33 characters of
      "rw,sync,async,noexec,nosuid,nodev", so the 256-byte opts buffer of
      setmntent cannot overflow. */
  lemma MountOptsFit(m: MacMntFlags, flags: Mask)
    ensures |MountOpts(m, flags)| <= 33 < 256
  {
    var t := OptionTable(m);
    assert |OptionSuffix(t[4..], flags)| <= 6;
    assert |OptionSuffix(t[3..], flags)| <= 13;
    assert |OptionSuffix(t[2..], flags)| <= 20;
    assert |OptionSuffix(t[1..], flags)| <= 26;
  }

  // ---------------------------------------------------------------------
  // The mtab text (macelf/mactrampolines.c:1490-1502)
  // ---------------------------------------------------------------------

  /** The line "%s %s %s %s 0 0\n" before snprintf's size limit. */
  function FullLine(m: MacMntFlags, e: Mount): string
  {
    Join([e.fromName, e.onName, e.fsType, MountOpts(m, e.flags), "0", "0"], ' ') + "\n"
  }

  /** The line snprintf writes into the 1024-byte buffer: the full line
      cut to 1023 characters, which is also its strlen. */
  function MntLine(m: MacMntFlags, e: Mount): (line: string)
    ensures line <= FullLine(m, e)
    ensures |line| == if |FullLine(m, e)| <= 1023 then |FullLine(m, e)| else 1023
  {
    var full := FullLine(m, e);
    if |full| <= 1023 then full else full[..1023]
  }

  /** The lines of the mounts, in getmntinfo order. */
  function MntLines(m: MacMntFlags, mounts: seq<Mount>): (lines: seq<string>)
    ensures |lines| == |mounts|
  {
    seq(|mounts|, i requires 0 <= i < |mounts| => MntLine(m, mounts[i]))
  }

  /** The mtab buffer: the lines one after another. */
  function MtabText(m: MacMntFlags, mounts: seq<Mount>): string
  {
    Concat(MntLines(m, mounts))
  }

  // ---------------------------------------------------------------------
  // The reader (macelf/mactrampolines.c:1432-1451)
  // ---------------------------------------------------------------------

  /** How many bytes one mtab_read call delivers: the request cut to what
      is left, and returned unchanged when it is zero or negative. */
  function ReadCount(want: int, avail: int): (n: int)
    ensures n <= want && n <= avail
    ensures n == want || n == avail
  {
    if want > avail then avail else want
  }

  /** The bytes that successive reads of want bytes deliver from pos until
      one delivers nothing. */
  function Delivered(data: seq<char>, pos: nat, want: int): seq<char>
    requires pos <= |data|
    decreases |data| - pos
  {
    var n := ReadCount(want, |data| - pos);
    if n > 0 then data[pos..pos + n] + Delivered(data, pos + n, want) else []
  }

  /** With a positive request size, the reads deliver the rest of the
      buffer exactly once, in order. */
  lemma {:induction false} DeliveredAll(data: seq<char>, pos: nat, want: int)
    requires pos <= |data| && want > 0
    ensures Delivered(data, pos, want) == data[pos..]
    decreases |data| - pos
  {
    var n := ReadCount(want, |data| - pos);
    if n > 0 {
      DeliveredAll(data, pos + n, want);
      assert data[pos..pos + n] + data[pos + n..] == data[pos..];
    }
  }

  /** MtabIo: the rendered buffer, its length and the read position. */
  class MtabIo {
    const ptr: seq<char>
    const len: int
    var pos: int

    ghost predicate Valid()
      reads this
    {
      len == |ptr| && 0 <= pos <= len
    }

    /** The fields setmntent sets: the buffer, its length, position 0. */
    constructor (mtab: seq<char>)
      ensures Valid() && ptr == mtab && pos == 0
    {
      ptr := mtab;
      len := |mtab|;
      pos := 0;
    }

    /** mtab_read: copies ReadCount(want, len - pos) bytes from the current
        position into buf and advances the position by that many, and
        copies and advances nothing when the count is not positive. */
    method Read(buf: array<char>, want: int) returns (n: int)
      requires Valid() && want <= buf.Length
      modifies this, buf
      ensures Valid()
      ensures n == ReadCount(want, len - old(pos))
      ensures n > 0 ==> pos == old(pos) + n && buf[..n] == ptr[old(pos)..pos] && buf[n..] == old(buf[n..])
      ensures n <= 0 ==> pos == old(pos) && buf[..] == old(buf[..])
    {
      n := want;
      var avail := len - pos;
      if n > avail {
        n := avail;
      }
      if n > 0 {
        var from := pos;
        forall i | 0 <= i < n {
          buf[i] := ptr[from + i];
        }
        pos := pos + n;
      }
    }
  }

  // ---------------------------------------------------------------------
  // setmntent (macelf/mactrampolines.c:1463-1528)
  // ---------------------------------------------------------------------

  /** What setmntent returns: a FILE that fopen opened, the mtab stream, or
      NULL with errno set to ENOMEM by setmntent itself (Some) or left as
      the failed call left it (None). */
  datatype MntStream = Opened(name: CStr, mode: CStr) | MtabStream(io: MtabIo) | NoStream(errno: Option<Errno>)

  /** setmntent: any name other than "/etc/mtab" goes to fopen. For
      "/etc/mtab" each mount's line is appended to the buffer, a failing
      realloc giving NULL with ENOMEM; then a failing malloc of the MtabIo
      or a failing funopen gives NULL, and otherwise the stream reads the
      whole buffer from position 0. The mode is not used for "/etc/mtab". */
  method Setmntent(m: MacMntFlags, fname: CStr, mode: CStr, mounts: seq<Mount>,
                   reallocOk: nat -> bool, iodataOk: bool, funopenOk: bool) returns (r: MntStream)
    ensures fname != "/etc/mtab" ==> r == Opened(fname, mode)
    ensures fname == "/etc/mtab" && !(forall i :: 0 <= i < |mounts| ==> reallocOk(i)) ==>
              r == NoStream(Some(ENOMEM))
    ensures fname == "/etc/mtab" && (forall i :: 0 <= i < |mounts| ==> reallocOk(i)) ==>
              if iodataOk && funopenOk
              then r.MtabStream? && fresh(r.io) && r.io.Valid() && r.io.ptr == MtabText(m, mounts) && r.io.pos == 0
              else r == NoStream(None)
  {
    if fname != "/etc/mtab" {
      return Opened(fname, mode);
    }
    var mtab := "";
    var i := 0;
    while i < |mounts|
      invariant 0 <= i <= |mounts|
      invariant mtab == Concat(MntLines(m, mounts)[..i])
      invariant forall j :: 0 <= j < i ==> reallocOk(j)
    {
      var line := MntLine(m, mounts[i]);
      if !reallocOk(i) {
        return NoStream(Some(ENOMEM));
      }
      ConcatSnoc(MntLines(m, mounts)[..i], line);
      assert MntLines(m, mounts)[..i + 1] == MntLines(m, mounts)[..i] + [line];
      mtab := mtab + line;
      i := i + 1;
    }
    assert MntLines(m, mounts)[..i] == MntLines(m, mounts);
    if !iodataOk {
      return NoStream(None);
    }
    var io := new MtabIo(mtab);
    if !funopenOk {
      return NoStream(None);
    }
    return MtabStream(io);
  }

  // ---------------------------------------------------------------------
  // getmntent (macelf/mactrampolines.c:1530-1569)
  // ---------------------------------------------------------------------

  /** The characters fgets stores, with room for at most `room`: up to and
      including the first newline. */
  function FgetsLine(s: string, room: nat): (line: string)
    ensures line <= s && |line| <= room
    ensures room > 0 && s != [] ==> line != []
    decreases room
  {
    if s == [] || room == 0 then []
    else if s[0] == '\n' then [s[0]]
    else [s[0]] + FgetsLine(s[1..], room - 1)
  }

  /** fgets into the 512-byte buffer of getmntent: NULL at end of file,
      otherwise the next line (at most 511 characters) and what follows. */
  function Fgets(s: string): (r: Option<(string, string)>)
    ensures r.None? <==> s == []
    ensures r.Some? ==> r.value.0 + r.value.1 == s && 0 < |r.value.0| <= 511
  {
    if s == [] then None
    else
      var line := FgetsLine(s, 511);
      assert s == line + s[|line|..];
      Some((line, s[|line|..]))
  }

  /** The entry getmntent reads from a line: the first six space-separated
      tokens of the C string in the buffer, the last two through atoi;
      none when there are fewer than six. */
  function ParseMntEnt(line: string): Option<MntEnt>
  {
    ParseTokens(Tokens(UpToNul(line), ' '))
  }

  function ParseTokens(ts: seq<string>): Option<MntEnt>
  {
    if |ts| < 6 then None else Some(MntEnt(ts[0], ts[1], ts[2], ts[3], Atoi(ts[4]), Atoi(ts[5])))
  }

  /** The tokens strtok finds in what fgets returned; none at end of file. */
  function LineTokens(line: Option<string>): seq<string>
  {
    if line.Some? then Tokens(UpToNul(line.value), ' ') else []
  }

  /** The 512-byte buffer after fgets stored a line in it: the line, its
      NUL, and the rest of the buffer as it was. */
  function FgetsInto(b: string, line: string): (nb: string)
    requires |line| < |b|
    ensures |nb| == |b| && nb[..|line|] == line && nb[|line|] == '\0'
  {
    line + ['\0'] + b[|line| + 1..]
  }

  /** The C string fgets leaves in the buffer is the line up to its first
      NUL. */
  lemma FgetsText(b: string, line: string)
    requires |line| < |b|
    ensures CStringAt(FgetsInto(b, line), 0) == UpToNul(line)
  {
    var nb := FgetsInto(b, line);
    CStringUpToNul(nb, 0);
    assert nb[0..] == line + (['\0'] + b[|line| + 1..]);
    WordBefore(line, '\0', b[|line| + 1..]);
  }

  /** The string a char pointer into the buffer designates; NULL reads as
      the empty string. */
  function Text(b: string, p: Option<nat>): string
  {
    if p.Some? && p.value <= |b| then CStringAt(b, p.value) else []
  }

  /** Appending token j to the first j tokens gives the first j + 1. */
  lemma Took(ts: seq<string>, texts: seq<string>, j: nat)
    requires j < |ts| && |texts| == j + 1 && texts[..j] == ts[..j] && texts[j] == ts[j]
    ensures texts == ts[..j + 1]
  {
  }

  /** The statics of getmntent: the LinuxMntEnt, whose four string fields
      are pointers (indices, or NULL) into the 512-byte line buffer, and
      that buffer. Both keep their contents between calls, so a pointer a
      later call does not reset reads whatever the buffer now holds at
      its index. */
  class MntEntSlot {
    const buf: array<char>
    var fsname: Option<nat>
    var dir: Option<nat>
    var fsType: Option<nat>
    var opts: Option<nat>
    var freq: int
    var passno: int

    predicate Valid()
      reads this
    {
      buf.Length == 512
    }

    /** Static storage starts zeroed: NULL pointers, a buffer of NULs. */
    constructor ()
      ensures Valid() && fresh(buf) && buf[..] == seq(512, _ => '\0')
      ensures fsname.None? && dir.None? && fsType.None? && opts.None? && freq == 0 && passno == 0
    {
      buf := new char[512](_ => '\0');
      fsname, dir, fsType, opts, freq, passno := None, None, None, None, 0, 0;
    }

    /** The entry a caller reads through the returned pointer. */
    function Entry(): MntEnt
      reads this, buf
    {
      MntEnt(Text(buf[..], fsname), Text(buf[..], dir), Text(buf[..], fsType), Text(buf[..], opts), freq, passno)
    }

    /** getmntent on the stream text s: fgets stores the next line in the
        buffer (NULL at end of file); then up to six strtok calls over the
        buffer, NULL (false) at the first missing token, and the fields of
        the calls that found one are set. The tokens are those of the
        line's C string; each pointer set reads its token in the buffer
        the calls leave, a field not reached keeps its old index into the
        rewritten buffer, and in a full entry every field is the parsed
        field. */
    method Getmntent(s: string) returns (ok: bool, rest: string)
      requires Valid()
      modifies this, buf
      ensures Valid()
      ensures Fgets(s).None? ==> !ok && rest == s && buf[..] == old(buf[..]) && unchanged(this)
      ensures Fgets(s).Some? ==>
        var line := Fgets(s).value.0;
        var ts := LineTokens(Some(line));
        var p := StrtokScan(FgetsInto(old(buf[..]), line), ' ', 6);
        && rest == Fgets(s).value.1
        && (ok <==> |ts| >= 6)
        && |p.starts| == (if |ts| < 6 then |ts| else 6)
        && buf[..] == p.buf
        && fsname == (if |p.starts| > 0 then Some(p.starts[0]) else old(fsname))
        && dir == (if |p.starts| > 1 then Some(p.starts[1]) else old(dir))
        && fsType == (if |p.starts| > 2 then Some(p.starts[2]) else old(fsType))
        && opts == (if |p.starts| > 3 then Some(p.starts[3]) else old(opts))
        && freq == (if |ts| > 4 then Atoi(ts[4]) else old(freq))
        && passno == (if |ts| > 5 then Atoi(ts[5]) else old(passno))
        && (forall k :: 0 <= k < |p.starts| ==> Text(buf[..], Some(p.starts[k])) == ts[k])
        && (ok ==> Entry() == ParseMntEnt(line).value)
    {
      var f := Fgets(s);
      if f.None? {
        return false, s;
      }
      var line := f.value.0;
      rest := f.value.1;
      Store(line);
      ghost var b0 := FgetsInto(old(buf[..]), line);
      FgetsText(old(buf[..]), line);
      ghost var ts := LineTokens(Some(line));
      assert ts == Tokens(CStringAt(b0, 0), ' ');
      var starts, texts := Tokenize(b0);
      ScanCount(b0, ' ', 6);
      ScanTexts(b0, ' ', 6);
      ok := SetFields(starts, texts);
      assert Entry() == MntEnt(Text(buf[..], fsname), Text(buf[..], dir), Text(buf[..], fsType),
                               Text(buf[..], opts), freq, passno);
    }

    /** The field assignments of the calls that found a token, in order;
        true when all six did. */
    method SetFields(starts: seq<nat>, texts: seq<string>) returns (ok: bool)
      requires |texts| == |starts| <= 6
      modifies this
      ensures ok <==> |starts| == 6
      ensures fsname == (if |starts| > 0 then Some(starts[0]) else old(fsname))
      ensures dir == (if |starts| > 1 then Some(starts[1]) else old(dir))
      ensures fsType == (if |starts| > 2 then Some(starts[2]) else old(fsType))
      ensures opts == (if |starts| > 3 then Some(starts[3]) else old(opts))
      ensures freq == (if |starts| > 4 then Atoi(texts[4]) else old(freq))
      ensures passno == (if |starts| > 5 then Atoi(texts[5]) else old(passno))
    {
      if |starts| > 0 {
        fsname := Some(starts[0]);
      }
      if |starts| > 1 {
        dir := Some(starts[1]);
      }
      if |starts| > 2 {
        fsType := Some(starts[2]);
      }
      if |starts| > 3 {
        opts := Some(starts[3]);
      }
      if |starts| > 4 {
        freq := Atoi(texts[4]);
      }
      if |starts| > 5 {
        passno := Atoi(texts[5]);
      }
      ok := |starts| == 6;
    }

    /** What fgets writes: the line and its NUL. */
    method Store(line: string)
      requires Valid() && |line| < 512
      modifies buf
      ensures buf[..] == FgetsInto(old(buf[..]), line)
    {
      forall i | 0 <= i < |line| {
        buf[i] := line[i];
      }
      buf[|line|] := '\0';
      assert buf[..] == FgetsInto(old(buf[..]), line);
    }

    /** The six strtok calls of getmntent, up to the first NULL: the
        pointers they return and the strings those read when returned. */
    method Tokenize(ghost b0: string) returns (starts: seq<nat>, texts: seq<string>)
      requires Valid() && buf[..] == b0
      modifies buf
      ensures var p := StrtokScan(b0, ' ', 6); var ts := Tokens(CStringAt(b0, 0), ' ');
        && buf[..] == p.buf && starts == p.starts
        && |texts| == |starts| <= |ts| && texts == ts[..|texts|]
    {
      ghost var ts := Tokens(CStringAt(b0, 0), ' ');
      ghost var j: nat := 0;
      starts, texts := [], [];
      var tok, next, text := StrtokCall(b0, j, 0);
      if tok.None? {
        StrtokScanStays(b0, ' ', j + 1, 6);
        return;
      }
      starts, texts := starts + [tok.value], texts + [text];
      Took(ts, texts, j);
      j := j + 1;
      tok, next, text := StrtokCall(b0, j, next);
      if tok.None? {
        StrtokScanStays(b0, ' ', j + 1, 6);
        return;
      }
      starts, texts := starts + [tok.value], texts + [text];
      Took(ts, texts, j);
      j := j + 1;
      tok, next, text := StrtokCall(b0, j, next);
      if tok.None? {
        StrtokScanStays(b0, ' ', j + 1, 6);
        return;
      }
      starts, texts := starts + [tok.value], texts + [text];
      Took(ts, texts, j);
      j := j + 1;
      tok, next, text := StrtokCall(b0, j, next);
      if tok.None? {
        StrtokScanStays(b0, ' ', j + 1, 6);
        return;
      }
      starts, texts := starts + [tok.value], texts + [text];
      Took(ts, texts, j);
      j := j + 1;
      tok, next, text := StrtokCall(b0, j, next);
      if tok.None? {
        StrtokScanStays(b0, ' ', j + 1, 6);
        return;
      }
      starts, texts := starts + [tok.value], texts + [text];
      Took(ts, texts, j);
      j := j + 1;
      tok, next, text := StrtokCall(b0, j, next);
      if tok.None? {
        return;
      }
      starts, texts := starts + [tok.value], texts + [text];
      Took(ts, texts, j);
    }

    /** Call j + 1 of the six, strtok(NULL, " ") from the saved pointer i:
        the buffer and the result follow the scan of the buffer fgets
        left, and the returned pointer reads token j of its C string. */
    method StrtokCall(ghost b0: string, ghost j: nat, i: nat) returns (tok: Option<nat>, next: nat, text: string)
      requires Valid() && |b0| == 512
      requires !StrtokScan(b0, ' ', j).stopped
      requires buf[..] == StrtokScan(b0, ' ', j).buf && i == StrtokScan(b0, ' ', j).next
      modifies buf
      ensures var q := StrtokScan(b0, ' ', j + 1);
        && buf[..] == q.buf && (tok.None? <==> q.stopped)
        && (tok.Some? ==> |q.starts| == j + 1 && tok == Some(q.starts[j]) && next == q.next)
      ensures StrtokScan(b0, ' ', j + 1).starts ==
                StrtokScan(b0, ' ', j).starts + (if tok.Some? then [tok.value] else [])
      ensures tok.Some? ==> var ts := Tokens(CStringAt(b0, 0), ' ');
        j < |ts| && text == ts[j] && text == CStringAt(buf[..], tok.value)
    {
      ScanCount(b0, ' ', j);
      tok, next := StrtokAt(buf, i, ' ');
      text := [];
      if tok.Some? {
        ScanTexts(b0, ' ', j + 1);
        text := CStringAt(buf[..], tok.value);
      }
    }
  }

  /** On the line "a b c d 0 0\n" the second token, the dir field, starts
      at index 2. */
  lemma FullLineDir(b: string)
    requires |b| == 512
    ensures var p := StrtokScan(FgetsInto(b, "a b c d 0 0\n"), ' ', 6);
      |p.starts| > 1 && p.starts[1] == 2
  {
    var b1 := FgetsInto(b, "a b c d 0 0\n");
    assert b1[0] == 'a' && b1[1] == ' ' && b1[2] == 'b' && b1[3] == ' ';
    assert SkipFrom(b1, 0, ' ') == 0;
    assert WordEnd(b1, 1, ' ') == 1;
    assert WordEnd(b1, 0, ' ') == 1;
    var b2 := b1[1 := '\0'];
    assert StrtokScan(b1, ' ', 1) == Scan(b2, 2, [0], false);
    assert b2[2] == 'b' && b2[3] == ' ';
    assert SkipFrom(b2, 2, ' ') == 2;
    assert WordEnd(b2, 3, ' ') == 3;
    assert WordEnd(b2, 2, ' ') == 3;
    assert StrtokScan(b1, ' ', 2).starts == [0, 2];
    StrtokScanGrows(b1, ' ', 2, 6);
  }

  /** After a full line such as "a b c d 0 0\n", the dir pointer is index
      2. A following line "xyz\n" has one token, so getmntent returns NULL
      with dir left at index 2, where the buffer now reads "z\n". */
  lemma ShortLineStaleDir(b: string)
    requires |b| == 512
    ensures var p := StrtokScan(FgetsInto(b, "xyz\n"), ' ', 6);
      p.starts == [0] && Text(p.buf, Some(2)) == "z\n"
  {
    var b1 := FgetsInto(b, "xyz\n");
    assert b1[0] == 'x' && b1[1] == 'y' && b1[2] == 'z' && b1[3] == '\n' && b1[4] == '\0';
    assert SkipFrom(b1, 0, ' ') == 0;
    assert WordEnd(b1, 4, ' ') == 4;
    assert WordEnd(b1, 3, ' ') == 4;
    assert WordEnd(b1, 2, ' ') == 4;
    assert WordEnd(b1, 1, ' ') == 4;
    assert WordEnd(b1, 0, ' ') == 4;
    assert StrtokScan(b1, ' ', 1) == Scan(b1, 4, [0], false);
    assert SkipFrom(b1, 4, ' ') == 4;
    assert StrtokScan(b1, ' ', 2) == Scan(b1, 4, [0], true);
    StrtokScanStays(b1, ' ', 2, 6);
    assert CStringAt(b1, 4) == [];
    assert CStringAt(b1, 2) == "z\n";
  }

  // ---------------------------------------------------------------------
  // Reading back what setmntent wrote
  // ---------------------------------------------------------------------

  /** A name getmntent can read back: non-empty, without space or newline. */
  predicate Plain(s: string)
  {
    s != [] && ' ' !in s && '\n' !in s
  }

  /** The entry a mount's line stands for. */
  function MountEntry(m: MacMntFlags, e: Mount): MntEnt
  {
    MntEnt(e.fromName, e.onName, e.fsType, MountOpts(m, e.flags), 0, 0)
  }

  /** A mount whose names are plain and whose line fits the 512-byte
      buffer of getmntent. */
  predicate Readable(m: MacMntFlags, e: Mount)
  {
    Plain(e.fromName) && Plain(e.onName) && Plain(e.fsType) && |FullLine(m, e)| <= 511
  }

  /** The option string holds no space, newline or NUL. */
  lemma OptsPlain(m: MacMntFlags, flags: Mask)
    ensures Plain(MountOpts(m, flags)) && '\0' !in MountOpts(m, flags)
  {
    MountOptsTokens(m, flags);
    assert MountOpts(m, flags)[0] == 'r';
  }

  /** fgets returns a short newline-terminated line whole. */
  lemma {:induction false} FgetsWholeLine(line: string, rest: string, room: nat)
    requires line != [] && |line| <= room && line[|line| - 1] == '\n' && '\n' !in line[..|line| - 1]
    ensures FgetsLine(line + rest, room) == line
    decreases room
  {
    assert (line + rest)[0] == line[0];
    if line[0] != '\n' {
      assert (line + rest)[1..] == line[1..] + rest;
      assert line[1..][..|line| - 2] == line[1..|line| - 1];
      FgetsWholeLine(line[1..], rest, room - 1);
    }
  }

  /** The six words of a mount line. */
  function LineWords(m: MacMntFlags, e: Mount): seq<string>
  {
    [e.fromName, e.onName, e.fsType, MountOpts(m, e.flags), "0", "0"]
  }

  /** fgets returns a readable mount's full line whole. */
  lemma LineFgets(m: MacMntFlags, e: Mount, rest: string)
    requires Readable(m, e)
    ensures Fgets(FullLine(m, e) + rest) == Some((FullLine(m, e), rest))
  {
    var ws := LineWords(m, e);
    var body := Join(ws, ' ');
    var full := body + "\n";
    OptsPlain(m, e.flags);
    JoinAvoids(ws, ' ', '\n');
    assert full[..|full| - 1] == body;
    FgetsWholeLine(full, rest, 511);
    assert (full + rest)[|full|..] == rest;
  }

  /** strtok finds the six fields in a mount line with plain names. */
  lemma LineFields(m: MacMntFlags, e: Mount)
    requires Plain(e.fromName) && Plain(e.onName) && Plain(e.fsType)
    ensures Tokens(UpToNul(FullLine(m, e)), ' ') == [e.fromName, e.onName, e.fsType, MountOpts(m, e.flags), "0", "0\n"]
  {
    var ws := LineWords(m, e);
    var full := Join(ws, ' ') + "\n";
    OptsPlain(m, e.flags);
    JoinAvoids(ws, ' ', '\0');
    WordFirst(full, [], '\0');
    assert full + [] == full;
    assert Words(ws, ' ');
    TokensJoin(ws, ' ', "\n");
    assert ws[5] + "\n" == "0\n";
    assert ws[..5] == [e.fromName, e.onName, e.fsType, MountOpts(m, e.flags), "0"];
    assert ws[..5] + [ws[5] + "\n"] == [e.fromName, e.onName, e.fsType, MountOpts(m, e.flags), "0", "0\n"];
  }

  lemma AtoiZero()
    ensures Atoi("0") == 0 && Atoi("0\n") == 0
  {
  }

  /** Reading a readable mount's line back: fgets returns the line whole and
      getmntent recovers the mount's names and options, with freq and passno
      0. */
  lemma MountLineRoundTrip(m: MacMntFlags, e: Mount, rest: string)
    requires Readable(m, e)
    ensures Fgets(MntLine(m, e) + rest) == Some((MntLine(m, e), rest))
    ensures ParseMntEnt(MntLine(m, e)) == Some(MountEntry(m, e))
  {
    assert MntLine(m, e) == FullLine(m, e);
    LineFgets(m, e, rest);
    LineFields(m, e);
    AtoiZero();
  }

  /** The entries getmntent returns for the successive lines of a stream. */
  function Entries(s: string): seq<Option<MntEnt>>
    decreases |s|
  {
    match Fgets(s)
    case None => []
    case Some((line, rest)) => [ParseMntEnt(line)] + Entries(rest)
  }

  /** Reading the whole mtab of readable mounts back yields each mount's
      entry, in getmntinfo order. */
  lemma {:induction false} MtabEntries(m: MacMntFlags, mounts: seq<Mount>)
    requires forall i :: 0 <= i < |mounts| ==> Readable(m, mounts[i])
    ensures |Entries(MtabText(m, mounts))| == |mounts|
    ensures forall i :: 0 <= i < |mounts| ==> Entries(MtabText(m, mounts))[i] == Some(MountEntry(m, mounts[i]))
    decreases |mounts|
  {
    if |mounts| > 0 {
      var rest := MtabText(m, mounts[1..]);
      assert MntLines(m, mounts)[1..] == MntLines(m, mounts[1..]);
      assert MtabText(m, mounts) == MntLine(m, mounts[0]) + rest;
      MountLineRoundTrip(m, mounts[0], rest);
      MtabEntries(m, mounts[1..]);
    }
  }
}
