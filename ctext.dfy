/** C string handling the mount-table trampolines of
    macelf/mactrampolines.c rely on: a string as the C library sees it ends
    at its first NUL, strtok splits it at a delimiter, and atoi reads a
    leading decimal number. */
module CText {
  import opened Bytes

  /** A string that holds no NUL, as the contents of a C string. */
  type CStr = s: string | '\0' !in s

  /** The longest prefix of s without the delimiter d. */
  function Word(s: string, d: char): (w: string)
    ensures w <= s && d !in w
    ensures |w| == |s| || s[|w|] == d
    decreases |s|
  {
    if s == [] || s[0] == d then [] else [s[0]] + Word(s[1..], d)
  }

  /** A C string: the characters before the first NUL. */
  function UpToNul(s: string): (c: CStr)
    ensures c <= s && (|c| == |s| || s[|c|] == '\0')
  {
    Word(s, '\0')
  }

  /** The tokens strtok finds: the maximal non-empty runs of characters
      other than d, in order. */
  function Tokens(s: string, d: char): seq<string>
    decreases |s|
  {
    if s == [] then []
    else if s[0] == d then Tokens(s[1..], d)
    else
      var w := Word(s, d);
      [w] + Tokens(s[|w|..], d)
  }

  /** Every token is non-empty and free of the delimiter. */
  lemma {:induction false} TokensPlain(s: string, d: char)
    ensures Words(Tokens(s, d), d)
    decreases |s|
  {
    if s != [] {
      if s[0] == d {
        TokensPlain(s[1..], d);
      } else {
        var w := Word(s, d);
        TokensPlain(s[|w|..], d);
        var ts := Tokens(s, d);
        forall i | 0 <= i < |ts| ensures ts[i] != [] && d !in ts[i] {
          if i > 0 {
            assert ts[i] == Tokens(s[|w|..], d)[i - 1];
          }
        }
      }
    }
  }

  /** s without its leading delimiters. */
  function SkipDelims(s: string, d: char): string
    decreases |s|
  {
    if s != [] && s[0] == d then SkipDelims(s[1..], d) else s
  }

  /** One strtok call on the text it has not consumed yet: leading
      delimiters are skipped; with nothing left there is no token (NULL);
      otherwise the token ends at the next delimiter, which strtok
      overwrites with NUL, and scanning resumes after it. */
  function Strtok(s: string, d: char): Option<(string, string)>
  {
    var t := SkipDelims(s, d);
    if t == [] then None
    else
      var w := Word(t, d);
      Some((w, if |w| < |t| then t[|w| + 1..] else []))
  }

  /** A word followed by end of text or a delimiter is the first token. */
  lemma {:induction false} WordFirst(w: string, rest: string, d: char)
    requires d !in w && (rest == [] || rest[0] == d)
    ensures Word(w + rest, d) == w
    decreases |w|
  {
    if w != [] {
      assert (w + rest)[0] == w[0] && (w + rest)[1..] == w[1..] + rest;
      WordFirst(w[1..], rest, d);
    } else {
      assert w + rest == rest;
    }
  }

  /** Tokens of a non-empty word joined to text that is empty or starts
      with a delimiter. */
  lemma TokensCons(w: string, rest: string, d: char)
    requires w != [] && d !in w && (rest == [] || rest[0] == d)
    ensures Tokens(w + rest, d) == [w] + Tokens(rest, d)
  {
    WordFirst(w, rest, d);
    assert (w + rest)[0] == w[0];
    assert (w + rest)[|w|..] == rest;
  }

  /** Repeated strtok calls return exactly the tokens of the string, in
      order, and NULL once none are left. */
  lemma {:induction false} StrtokTokens(s: string, d: char)
    ensures Strtok(s, d).None? <==> Tokens(s, d) == []
    ensures Strtok(s, d).Some? ==>
              Tokens(s, d) == [Strtok(s, d).value.0] + Tokens(Strtok(s, d).value.1, d)
    decreases |s|
  {
    if s != [] && s[0] == d {
      StrtokTokens(s[1..], d);
    } else if s != [] {
      var w := Word(s, d);
      if |w| < |s| {
        assert s[|w|..][0] == d && s[|w|..][1..] == s[|w| + 1..];
      }
    }
  }

  /** One strtok call in a sequence over a string with tokens ts, when the
      unconsumed text holds tokens k onwards: NULL exactly when all are
      consumed, and otherwise token k, leaving tokens k + 1 onwards. */
  lemma StrtokStep(rest: string, d: char, ts: seq<string>, k: nat)
    requires k <= |ts| && Tokens(rest, d) == ts[k..]
    ensures Strtok(rest, d).None? <==> k == |ts|
    ensures Strtok(rest, d).Some? ==>
              Strtok(rest, d).value.0 == ts[k] && Tokens(Strtok(rest, d).value.1, d) == ts[k + 1..]
  {
    StrtokTokens(rest, d);
    if k < |ts| {
      assert ts[k..][0] == ts[k] && ts[k..][1..] == ts[k + 1..];
    }
  }

  // ---------------------------------------------------------------------
  // strtok on a char buffer: NULs are written into the buffer itself
  // ---------------------------------------------------------------------

  /** The characters from index i up to the first NUL (or the end of b):
      the C string a pointer to b[i] designates. */
  function CStringAt(b: string, i: nat): string
    requires i <= |b|
    decreases |b| - i
  {
    if i == |b| || b[i] == '\0' then [] else [b[i]] + CStringAt(b, i + 1)
  }

  /** The first index from i whose character is not d (the start of the
      token strtok looks for). */
  function SkipFrom(b: string, i: nat, d: char): (j: nat)
    requires i <= |b|
    ensures i <= j <= |b| && (j == |b| || b[j] != d)
    decreases |b| - i
  {
    if i < |b| && b[i] == d then SkipFrom(b, i + 1, d) else i
  }

  /** The first index from i holding d or NUL (the end of the token). */
  function WordEnd(b: string, i: nat, d: char): (j: nat)
    requires i <= |b|
    ensures i <= j <= |b| && (j == |b| || b[j] == d || b[j] == '\0')
    decreases |b| - i
  {
    if i < |b| && b[i] != d && b[i] != '\0' then WordEnd(b, i + 1, d) else i
  }

  /** What one strtok call finds in a buffer whose saved pointer is i:
      NULL, or the token's index, the buffer after the call and the new
      saved pointer. */
  datatype StrtokResult = NoToken | Token(start: nat, buf: string, next: nat)

  function StrtokIn(b: string, i: nat, d: char): (r: StrtokResult)
    requires i <= |b| && d != '\0'
    ensures r.Token? ==> i <= r.start < r.next <= |b| && |r.buf| == |b|
  {
    var s := SkipFrom(b, i, d);
    if s == |b| || b[s] == '\0' then NoToken
    else
      var e := WordEnd(b, s, d);
      if e < |b| && b[e] == d then Token(s, b[e := '\0'], e + 1)
      else Token(s, b, e)
  }

  /** The C string at i is the run of b from i to its first NUL. */
  lemma {:induction false} CStringEnds(b: string, i: nat)
    requires i <= |b|
    ensures var n := |CStringAt(b, i)|;
      && i + n <= |b| && (i + n == |b| || b[i + n] == '\0')
      && CStringAt(b, i) == b[i..i + n]
    decreases |b| - i
  {
    if i < |b| && b[i] != '\0' {
      CStringEnds(b, i + 1);
      var n := |CStringAt(b, i + 1)|;
      assert b[i..i + 1 + n] == [b[i]] + b[i + 1..i + 1 + n];
    }
  }

  /** The C string at index 0 is UpToNul of the buffer. */
  lemma {:induction false} CStringUpToNul(b: string, i: nat)
    requires i <= |b|
    ensures CStringAt(b, i) == UpToNul(b[i..])
    decreases |b| - i
  {
    if i < |b| {
      assert b[i..][0] == b[i] && b[i..][1..] == b[i + 1..];
      CStringUpToNul(b, i + 1);
    } else {
      assert b[i..] == [];
    }
  }

  /** A NUL-free run from s that ends at a NUL or at the end of b is the C
      string at s. */
  lemma {:induction false} CStringRun(b: string, s: nat, e: nat)
    requires s <= e <= |b| && (e == |b| || b[e] == '\0')
    requires forall k :: s <= k < e ==> b[k] != '\0'
    ensures CStringAt(b, s) == b[s..e]
    decreases e - s
  {
    if s < e {
      CStringRun(b, s + 1, e);
      assert b[s..e] == [b[s]] + b[s + 1..e];
    }
  }

  /** Writing past the NUL that ends the C string at s leaves it alone. */
  lemma CStringStable(b: string, s: nat, j: nat, x: char)
    requires s <= |b| && s + |CStringAt(b, s)| < j < |b|
    ensures CStringAt(b[j := x], s) == CStringAt(b, s)
  {
    var t := s + |CStringAt(b, s)|;
    CStringEnds(b, s);
    forall k | s <= k < t ensures b[k] != '\0' {
      assert b[k] == b[s..t][k - s];
      CStringEnds(b, s);
      NulFree(b, s, k);
    }
    CStringRun(b[j := x], s, t);
  }

  /** The C string at s holds no NUL. */
  lemma {:induction false} NulFree(b: string, s: nat, k: nat)
    requires s <= |b| && s <= k < s + |CStringAt(b, s)| <= |b|
    ensures b[k] != '\0'
    decreases k - s
  {
    if s < k {
      NulFree(b, s + 1, k);
    }
  }

  lemma {:induction false} SkipFromText(b: string, i: nat, d: char)
    requires i <= |b| && d != '\0'
    ensures SkipDelims(CStringAt(b, i), d) == CStringAt(b, SkipFrom(b, i, d))
    decreases |b| - i
  {
    if i < |b| && b[i] == d {
      SkipFromText(b, i + 1, d);
      assert ([d] + CStringAt(b, i + 1))[1..] == CStringAt(b, i + 1);
    }
  }

  /** No d and no NUL lies before WordEnd. */
  lemma {:induction false} WordEndPlain(b: string, i: nat, d: char)
    requires i <= |b|
    ensures forall k :: i <= k < WordEnd(b, i, d) ==> b[k] != d && b[k] != '\0'
    decreases |b| - i
  {
    if i < |b| && b[i] != d && b[i] != '\0' {
      WordEndPlain(b, i + 1, d);
    }
  }

  /** A NUL-free run from s to e starts the C string at s. */
  lemma {:induction false} CStringSplit(b: string, s: nat, e: nat)
    requires s <= e <= |b|
    requires forall k :: s <= k < e ==> b[k] != '\0'
    ensures CStringAt(b, s) == b[s..e] + CStringAt(b, e)
    decreases e - s
  {
    if s < e {
      CStringSplit(b, s + 1, e);
      assert b[s..e] == [b[s]] + b[s + 1..e];
    }
  }

  /** The C string at s is the token up to WordEnd, followed by what
      starts there. */
  lemma WordEndText(b: string, s: nat, d: char)
    requires s <= |b| && d != '\0'
    ensures var e := WordEnd(b, s, d);
            Word(CStringAt(b, s), d) == b[s..e] && CStringAt(b, s) == b[s..e] + CStringAt(b, e)
  {
    var e := WordEnd(b, s, d);
    WordEndPlain(b, s, d);
    CStringSplit(b, s, e);
    var rest := CStringAt(b, e);
    assert rest == [] || rest[0] == d;
    assert d !in b[s..e] by {
      forall k | 0 <= k < e - s ensures b[s..e][k] != d {
        assert b[s..e][k] == b[s + k];
      }
    }
    WordFirst(b[s..e], rest, d);
  }

  /** One strtok call on a buffer does what Strtok does on the C string
      at the saved pointer: NULL exactly when Strtok finds nothing, and
      otherwise the returned pointer reads Strtok's token and the saved
      pointer reads the rest. The token ends at WordEnd, where a
      delimiter is overwritten with NUL. */
  lemma StrtokInText(b: string, i: nat, d: char)
    requires i <= |b| && d != '\0'
    ensures StrtokIn(b, i, d).NoToken? <==> Strtok(CStringAt(b, i), d).None?
    ensures StrtokIn(b, i, d).Token? ==>
      var r := StrtokIn(b, i, d);
      var t := r.start + |CStringAt(r.buf, r.start)|;
      && Strtok(CStringAt(b, i), d) == Some((CStringAt(r.buf, r.start), CStringAt(r.buf, r.next)))
      && t == WordEnd(b, r.start, d)
      && (if t < |b| && b[t] == d then r.buf == b[t := '\0'] && r.next == t + 1
          else r.buf == b && r.next == t && (t == |b| || b[t] == '\0'))
  {
    var s := SkipFrom(b, i, d);
    SkipFromText(b, i, d);
    if s < |b| && b[s] != '\0' {
      var e := WordEnd(b, s, d);
      var c := CStringAt(b, i);
      var t := CStringAt(b, s);
      assert t != [];
      WordEndText(b, s, d);
      if e < |b| && b[e] == d {
        var nb := b[e := '\0'];
        assert StrtokIn(b, i, d) == Token(s, nb, e + 1);
        var tok, after := StrtokDelimEnd(b, s, d);
        StrtokOfDelim(c, d, t, tok, after);
      } else {
        assert StrtokIn(b, i, d) == Token(s, b, e);
        StrtokNulEnd(b, s, d);
        StrtokOfEnd(c, d, t);
      }
    }
  }

  lemma StrtokOfDelim(c: string, d: char, t: string, w: string, after: string)
    requires SkipDelims(c, d) == t && t != [] && Word(t, d) == w && |w| < |t| && t[|w| + 1..] == after
    ensures Strtok(c, d) == Some((w, after))
  {
  }

  lemma StrtokOfEnd(c: string, d: char, t: string)
    requires SkipDelims(c, d) == t && t != [] && Word(t, d) == t
    ensures Strtok(c, d) == Some((t, []))
  {
  }

  /** A token ended by a delimiter: the NUL goes over it. */
  lemma StrtokDelimEnd(b: string, s: nat, d: char) returns (tok: string, after: string)
    requires s < |b| && d != '\0' && b[s] != d && b[s] != '\0'
    requires WordEnd(b, s, d) < |b| && b[WordEnd(b, s, d)] == d
    ensures var e := WordEnd(b, s, d); var nb := b[e := '\0']; var c := CStringAt(b, s);
      && tok == CStringAt(nb, s) && after == CStringAt(nb, e + 1) && s + |tok| == e
      && Word(c, d) == tok && |tok| < |c| && c[|tok| + 1..] == after
  {
    var e := WordEnd(b, s, d);
    var nb := b[e := '\0'];
    WordEndText(b, s, d);
    WordEndPlain(b, s, d);
    CStringRun(nb, s, e);
    assert nb[s..e] == b[s..e];
    tok := CStringAt(nb, s);
    after := CStringAt(b, e + 1);
    assert CStringAt(nb, e + 1) == after by {
      CStringSame(nb, b, e + 1);
    }
    var c := CStringAt(b, s);
    assert c == b[s..e] + ([d] + after);
    assert c[e - s + 1..] == after;
  }

  /** Buffers that agree from i on have the same C string at i. */
  lemma {:induction false} CStringSame(x: string, y: string, i: nat)
    requires i <= |x| == |y| && forall k :: i <= k < |x| ==> x[k] == y[k]
    ensures CStringAt(x, i) == CStringAt(y, i)
    decreases |x| - i
  {
    if i < |x| {
      CStringSame(x, y, i + 1);
    }
  }

  /** A token ended by the NUL or the end of the buffer: nothing is written. */
  lemma StrtokNulEnd(b: string, s: nat, d: char)
    requires s <= |b| && d != '\0'
    requires WordEnd(b, s, d) == |b| || b[WordEnd(b, s, d)] != d
    ensures var e := WordEnd(b, s, d); var c := CStringAt(b, s);
      && Word(c, d) == c && |c| == e - s && CStringAt(b, e) == []
  {
    var e := WordEnd(b, s, d);
    WordEndText(b, s, d);
    WordEndPlain(b, s, d);
    CStringRun(b, s, e);
  }

  /** strtok(p, d) on a char array, p being index i: the library call,
      writing into the array. */
  method StrtokAt(b: array<char>, i: nat, d: char) returns (tok: Option<nat>, next: nat)
    requires i <= b.Length && d != '\0'
    modifies b
    ensures StrtokIn(old(b[..]), i, d).NoToken? ==> tok.None? && b[..] == old(b[..])
    ensures StrtokIn(old(b[..]), i, d).Token? ==>
              var r := StrtokIn(old(b[..]), i, d);
              tok == Some(r.start) && next == r.next && b[..] == r.buf
  {
    var s := SkipFrom(b[..], i, d);
    if s == b.Length || b[s] == '\0' {
      return None, i;
    }
    var e := WordEnd(b[..], s, d);
    if e < b.Length && b[e] == d {
      b[e] := '\0';
      return Some(s), e + 1;
    }
    return Some(s), e;
  }

  /** n strtok calls over a buffer, the first from index 0 and each later
      one from the saved pointer, stopping at the first NULL: the buffer,
      the saved pointer, the tokens' indices and whether a NULL came. */
  datatype Scan = Scan(buf: string, next: nat, starts: seq<nat>, stopped: bool)

  /** One more call, unless an earlier one returned NULL. */
  function ScanStep(p: Scan, d: char): (q: Scan)
    requires d != '\0' && p.next <= |p.buf|
    ensures |q.buf| == |p.buf| && q.next <= |q.buf| && |p.starts| <= |q.starts| <= |p.starts| + 1
    ensures q.starts[..|p.starts|] == p.starts
  {
    if p.stopped then p
    else match StrtokIn(p.buf, p.next, d)
      case NoToken => p.(stopped := true)
      case Token(s, nb, nx) => Scan(nb, nx, p.starts + [s], false)
  }

  function StrtokScan(b: string, d: char, n: nat): (p: Scan)
    requires d != '\0'
    ensures |p.buf| == |b| && p.next <= |b| && |p.starts| <= n
  {
    if n == 0 then Scan(b, 0, [], false) else ScanStep(StrtokScan(b, d, n - 1), d)
  }

  /** What a scan over a string with tokens ts keeps true: each returned
      pointer reads its token in the current buffer, and that token's NUL
      (or the end of the buffer) lies before the saved pointer, or at it;
      the saved pointer reads the tokens not yet found; and a NULL came
      only once all were found. */
  predicate ScanInv(p: Scan, d: char, ts: seq<string>)
  {
    && p.next <= |p.buf| && |p.starts| <= |ts|
    && (forall j :: 0 <= j < |p.starts| ==>
          p.starts[j] <= |p.buf| && CStringAt(p.buf, p.starts[j]) == ts[j])
    && (forall j :: 0 <= j < |p.starts| ==> Ends(p, p.starts[j]))
    && (p.stopped ==> |p.starts| == |ts|)
    && (!p.stopped ==> Tokens(CStringAt(p.buf, p.next), d) == ts[|p.starts|..])
  }

  /** The C string at s ends before the saved pointer, or at it on a NUL
      or the end of the buffer. */
  predicate Ends(p: Scan, s: nat)
    requires s <= |p.buf| && p.next <= |p.buf|
  {
    var t := s + |CStringAt(p.buf, s)|;
    t < p.next || (t == p.next && (t == |p.buf| || p.buf[t] == '\0'))
  }

  /** What the calls find: with ts the tokens of the C string in b, they
      stop with a NULL iff there are fewer than n tokens, find
      min(n, |ts|) of them, and each returned pointer still reads its
      token in the final buffer. */
  lemma {:induction false} StrtokScanTokens(b: string, d: char, n: nat)
    requires d != '\0'
    ensures var p := StrtokScan(b, d, n); var ts := Tokens(CStringAt(b, 0), d);
      && ScanInv(p, d, ts)
      && (p.stopped <==> |ts| < n)
      && |p.starts| == (if |ts| < n then |ts| else n)
  {
    var ts := Tokens(CStringAt(b, 0), d);
    if n == 0 {
      assert ts[0..] == ts;
    } else {
      StrtokScanTokens(b, d, n - 1);
      var p := StrtokScan(b, d, n - 1);
      if !p.stopped {
        StrtokScanStep(p, d, ts);
      }
    }
  }

  /** One more call keeps the invariant, and finds a token iff some are
      left. */
  lemma StrtokScanStep(p: Scan, d: char, ts: seq<string>)
    requires d != '\0' && ScanInv(p, d, ts) && !p.stopped
    ensures var q := ScanStep(p, d);
      && ScanInv(q, d, ts)
      && (q.stopped <==> |p.starts| == |ts|)
      && (!q.stopped ==> |q.starts| == |p.starts| + 1)
  {
    StrtokInText(p.buf, p.next, d);
    StrtokStep(CStringAt(p.buf, p.next), d, ts, |p.starts|);
    if StrtokIn(p.buf, p.next, d).Token? {
      StrtokScanFinds(p, d, ts);
    }
  }

  /** A call that finds a token: it is the next of ts, and the earlier
      ones survive. */
  lemma StrtokScanFinds(p: Scan, d: char, ts: seq<string>)
    requires d != '\0' && ScanInv(p, d, ts) && !p.stopped
    requires StrtokIn(p.buf, p.next, d).Token?
    ensures var q := ScanStep(p, d); ScanInv(q, d, ts) && |q.starts| == |p.starts| + 1
  {
    var k := |p.starts|;
    var r := StrtokIn(p.buf, p.next, d);
    StrtokInText(p.buf, p.next, d);
    StrtokStep(CStringAt(p.buf, p.next), d, ts, k);
    var q := ScanStep(p, d);
    assert q == Scan(r.buf, r.next, p.starts + [r.start], false);
    forall j | 0 <= j < k
      ensures p.starts[j] <= |q.buf| && CStringAt(q.buf, p.starts[j]) == ts[j]
      ensures Ends(q, p.starts[j])
    {
      StrtokKeeps(p, d, r, p.starts[j]);
    }
    assert CStringAt(q.buf, r.start) == ts[k];
    assert Ends(q, r.start);
    ScanAppend(q, p.starts, r.start, d, ts);
  }

  /** ScanInv for a scan whose starts grew by one, from the facts about
      each start. */
  lemma ScanAppend(q: Scan, starts: seq<nat>, s: nat, d: char, ts: seq<string>)
    requires q.starts == starts + [s] && !q.stopped && q.next <= |q.buf| && |starts| < |ts|
    requires forall j :: 0 <= j < |starts| ==>
      starts[j] <= |q.buf| && CStringAt(q.buf, starts[j]) == ts[j] && Ends(q, starts[j])
    requires s <= |q.buf| && CStringAt(q.buf, s) == ts[|starts|] && Ends(q, s)
    requires Tokens(CStringAt(q.buf, q.next), d) == ts[|starts| + 1..]
    ensures ScanInv(q, d, ts)
  {
  }

  /** A token found earlier survives the call: its NUL lies before the
      saved pointer, so before anything the call writes. */
  lemma StrtokKeeps(p: Scan, d: char, r: StrtokResult, s: nat)
    requires d != '\0' && p.next <= |p.buf| && r == StrtokIn(p.buf, p.next, d) && r.Token?
    requires s <= |p.buf| && Ends(p, s)
    ensures CStringAt(r.buf, s) == CStringAt(p.buf, s)
    ensures s + |CStringAt(p.buf, s)| < r.next
  {
    StrtokInText(p.buf, p.next, d);
    assert p.next < |p.buf| && p.buf[p.next] != '\0';
    if r.buf != p.buf {
      var w := r.start + |CStringAt(r.buf, r.start)|;
      CStringStable(p.buf, s, w, '\0');
    }
  }

  /** How many tokens n calls find, and whether one returned NULL. */
  lemma ScanCount(b: string, d: char, n: nat)
    requires d != '\0'
    ensures var p := StrtokScan(b, d, n); var ts := Tokens(CStringAt(b, 0), d);
      && (p.stopped <==> |ts| < n) && |p.starts| == (if |ts| < n then |ts| else n)
  {
    StrtokScanTokens(b, d, n);
  }

  /** Each pointer n calls returned reads its token in the buffer they
      leave. */
  lemma ScanTexts(b: string, d: char, n: nat)
    requires d != '\0'
    ensures var p := StrtokScan(b, d, n); var ts := Tokens(CStringAt(b, 0), d);
      forall k :: 0 <= k < |p.starts| ==> k < |ts| && p.starts[k] <= |p.buf| && CStringAt(p.buf, p.starts[k]) == ts[k]
  {
    StrtokScanTokens(b, d, n);
  }

  /** Once a call has returned NULL, further calls change nothing. */
  lemma {:induction false} StrtokScanStays(b: string, d: char, m: nat, n: nat)
    requires d != '\0' && m <= n && StrtokScan(b, d, m).stopped
    ensures StrtokScan(b, d, n) == StrtokScan(b, d, m)
    decreases n - m
  {
    if m < n {
      StrtokScanStays(b, d, m, n - 1);
    }
  }

  /** Later calls keep the pointers earlier ones returned. */
  lemma {:induction false} StrtokScanGrows(b: string, d: char, m: nat, n: nat)
    requires d != '\0' && m <= n
    ensures var p, q := StrtokScan(b, d, m), StrtokScan(b, d, n);
      |p.starts| <= |q.starts| && q.starts[..|p.starts|] == p.starts
    decreases n - m
  {
    if m < n {
      StrtokScanGrows(b, d, m, n - 1);
      var p, r, q := StrtokScan(b, d, m), StrtokScan(b, d, n - 1), StrtokScan(b, d, n);
      assert q.starts[..|p.starts|] == q.starts[..|r.starts|][..|p.starts|];
    }
  }

  /** The first word of a text ending at a delimiter is the first word of
      what comes before it. */
  lemma {:induction false} WordBefore(a: string, d: char, r: string)
    ensures Word(a + ([d] + r), d) == Word(a, d)
    decreases |a|
  {
    if a == [] {
      assert a + ([d] + r) == [d] + r;
    } else {
      assert (a + ([d] + r))[0] == a[0] && (a + ([d] + r))[1..] == a[1..] + ([d] + r);
      WordBefore(a[1..], d, r);
    }
  }

  /** The words separated by single delimiters, as printf writes "%s %s". */
  function Join(ws: seq<string>, d: char): string
    decreases |ws|
  {
    if |ws| == 0 then [] else if |ws| == 1 then ws[0] else ws[0] + ([d] + Join(ws[1..], d))
  }

  /** Every word is non-empty and free of the delimiter. */
  predicate Words(ws: seq<string>, d: char)
  {
    forall i :: 0 <= i < |ws| ==> ws[i] != [] && d !in ws[i]
  }

  /** A character in no word and other than the delimiter is not in the
      joined text. */
  lemma {:induction false} JoinAvoids(ws: seq<string>, d: char, c: char)
    requires c != d && forall i :: 0 <= i < |ws| ==> c !in ws[i]
    ensures c !in Join(ws, d)
    decreases |ws|
  {
    if |ws| > 1 {
      JoinAvoids(ws[1..], d, c) by {
        forall i | 0 <= i < |ws[1..]| ensures c !in ws[1..][i] {
          assert ws[1..][i] == ws[i + 1];
        }
      }
    }
  }

  /** A leading delimiter does not start a token. */
  lemma TokensSkip(x: string, d: char)
    ensures Tokens([d] + x, d) == Tokens(x, d)
  {
    assert ([d] + x)[0] == d && ([d] + x)[1..] == x;
  }

  /** Joining two or more words, then the tail: the first word, a
      delimiter, the rest joined, then the tail. */
  lemma JoinSplit(ws: seq<string>, d: char, tail: string)
    requires |ws| > 1
    ensures Join(ws, d) + tail == ws[0] + ([d] + (Join(ws[1..], d) + tail))
  {
  }

  /** strtok splits joined words, followed by a delimiter-free tail, back
      into the words, the tail staying on the last one. */
  lemma {:induction false} TokensJoin(ws: seq<string>, d: char, tail: string)
    requires |ws| > 0 && Words(ws, d) && d !in tail
    ensures Tokens(Join(ws, d) + tail, d) == ws[..|ws| - 1] + [ws[|ws| - 1] + tail]
    decreases |ws|
  {
    var w := ws[0];
    if |ws| == 1 {
      TokensCons(w + tail, [], d);
      assert (w + tail) + [] == Join(ws, d) + tail;
    } else {
      var more := ws[1..];
      assert Words(more, d) by {
        forall i | 0 <= i < |more| ensures more[i] != [] && d !in more[i] {
          assert more[i] == ws[i + 1];
        }
      }
      TokensJoin(more, d, tail);
      var rest := Join(more, d) + tail;
      JoinSplit(ws, d, tail);
      TokensCons(w, [d] + rest, d);
      TokensSkip(rest, d);
      var front := more[..|more| - 1];
      var last := more[|more| - 1];
      assert ws[..|ws| - 1] == [w] + front && ws[|ws| - 1] == last;
      assert [w] + (front + [last + tail]) == ([w] + front) + [last + tail];
    }
  }

  /** The strings one after another. */
  function Concat(ss: seq<string>): string
    decreases |ss|
  {
    if |ss| == 0 then [] else ss[0] + Concat(ss[1..])
  }

  lemma {:induction false} ConcatSnoc(ss: seq<string>, s: string)
    ensures Concat(ss + [s]) == Concat(ss) + s
    decreases |ss|
  {
    if |ss| > 0 {
      assert (ss + [s])[1..] == ss[1..] + [s];
      ConcatSnoc(ss[1..], s);
    } else {
      assert ss + [s] == [s];
    }
  }

  /** What isspace accepts in the C locale. */
  predicate IsSpace(c: char)
  {
    c == ' ' || c == '\t' || c == '\n' || c == '\U{B}' || c == '\U{C}' || c == '\r'
  }

  predicate IsDigit(c: char)
  {
    '0' <= c <= '9'
  }

  /** The value of the leading decimal digits of s. */
  function DigitsValue(s: string, acc: int): int
    decreases |s|
  {
    if s != [] && IsDigit(s[0]) then DigitsValue(s[1..], acc * 10 + (s[0] as int - '0' as int)) else acc
  }

  function SkipSpaces(s: string): string
    decreases |s|
  {
    if s != [] && IsSpace(s[0]) then SkipSpaces(s[1..]) else s
  }

  /** atoi: leading white space, an optional sign, then decimal digits;
      0 when there are none. */
  function Atoi(s: string): int
  {
    var t := SkipSpaces(s);
    if t != [] && t[0] == '-' then -DigitsValue(t[1..], 0)
    else if t != [] && t[0] == '+' then DigitsValue(t[1..], 0)
    else DigitsValue(t, 0)
  }
}
