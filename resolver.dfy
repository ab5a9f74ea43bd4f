/** The symbol registry of macelf/macelf.c: the global resolver_symbols hash
    table from symbol names to addresses, filled by build_trampolines and
    read by macosx_resolver. The names build_trampolines inserts come from a
    header generated elsewhere, so they are a parameter here, as are the
    outcomes of the allocations (malloc) the table makes. */
module Resolver {
  import opened Bytes
  import opened HashTables
  import opened StringHash

  /** hash_hash_string on a name: the hash of its bytes. */
  function NameHash(signedChar: bool): CString -> bv32
  {
    (k: CString) => DjbHash(signedChar, k)
  }

  /** What inserting the first n names in order builds: None once an insert
      fails (a repeated name, or malloc failing for entry i when allocOk(i) is
      false), and otherwise the map of the names inserted so far. */
  function Built(ts: seq<(CString, nat)>, allocOk: nat -> bool, n: nat): Option<map<CString, nat>>
    requires n <= |ts|
  {
    if n == 0 then Some(map[])
    else match Built(ts, allocOk, n - 1)
      case None => None
      case Some(m) =>
        if ts[n - 1].0 in m || !allocOk(n - 1) then None
        else Some(m[ts[n - 1].0 := ts[n - 1].1])
  }

  /** The names of the first n entries are distinct. */
  predicate DistinctNames(ts: seq<(CString, nat)>, n: nat)
    requires n <= |ts|
  {
    forall i, j :: 0 <= i < j < n ==> ts[i].0 != ts[j].0
  }

  /** Building succeeds exactly when the names are distinct and every malloc
      succeeds, and then maps each name to its address. */
  lemma {:induction false} BuiltSucceeds(ts: seq<(CString, nat)>, allocOk: nat -> bool, n: nat)
    requires n <= |ts|
    ensures Built(ts, allocOk, n).Some? <==> DistinctNames(ts, n) && forall i :: 0 <= i < n ==> allocOk(i)
    ensures Built(ts, allocOk, n).Some? ==>
              var m := Built(ts, allocOk, n).value;
              (forall i :: 0 <= i < n ==> ts[i].0 in m && m[ts[i].0] == ts[i].1)
              && forall k :: k in m ==> exists i :: 0 <= i < n && ts[i].0 == k
  {
    if n > 0 {
      BuiltSucceeds(ts, allocOk, n - 1);
      var prev := Built(ts, allocOk, n - 1);
      if prev.Some? && ts[n - 1].0 in prev.value {
        var i :| 0 <= i < n - 1 && ts[i].0 == ts[n - 1].0;
        assert !DistinctNames(ts, n);
      }
    }
  }

  /** The registry: the resolver_symbols global. */
  class MacResolver {
    var symbols: HashTable?<CString, nat>
    const signedChar: bool

    ghost predicate Valid()
      reads this, symbols, if symbols != null then {symbols.buckets} else {}
    {
      symbols != null ==> symbols.Valid() && symbols.hash == NameHash(signedChar)
    }

    /** The program starts with resolver_symbols NULL. */
    constructor (signedChar: bool)
      ensures Valid() && symbols == null && this.signedChar == signedChar
    {
      symbols := null;
      this.signedChar := signedChar;
    }

    /** macosx_resolver (macelf/macelf.c:10-16): the address stored for sym,
        or 0 (NULL) when the table has none. The lookup moves the name to
        the head of its chain and changes nothing else. */
    method Resolve(sym: CString) returns (addr: nat)
      requires Valid() && symbols != null
      modifies symbols.buckets
      ensures Valid()
      ensures addr == (if sym in symbols.contents then symbols.contents[sym] else 0)
      ensures symbols.contents == old(symbols.contents)
    {
      var found, value := symbols.Find(sym);
      if !found {
        return 0;
      }
      return value.value;
    }

    /** insert_symbol (macelf/macelf.c:24-27): true only when hash_insert
        returned 1, so false both for a name already present and for a
        failed malloc. */
    method InsertSymbol(sym: CString, addr: nat, allocOk: bool) returns (ok: bool)
      requires Valid() && symbols != null
      modifies symbols, symbols.buckets
      ensures Valid()
      ensures ok <==> sym !in old(symbols.contents) && allocOk
      ensures symbols.contents == if ok then old(symbols.contents)[sym := addr] else old(symbols.contents)
    {
      var r := symbols.Insert(sym, addr, allocOk);
      ok := r == 1;
    }

    /** build_trampolines (macelf/mactrampolines.c:2748-2767): insert_symbol
        for each entry in order, stopping at the first that fails. */
    method BuildTrampolines(ts: seq<(CString, nat)>, allocOk: nat -> bool) returns (ok: bool)
      requires Valid() && symbols != null && symbols.contents == map[]
      modifies symbols, symbols.buckets
      ensures Valid()
      ensures ok <==> Built(ts, allocOk, |ts|).Some?
      ensures ok ==> symbols.contents == Built(ts, allocOk, |ts|).value
    {
      var i := 0;
      while i < |ts|
        invariant 0 <= i <= |ts|
        invariant Valid() && symbols == old(symbols)
        invariant Built(ts, allocOk, i) == Some(symbols.contents)
      {
        ghost var before := symbols.contents;
        var inserted := InsertSymbol(ts[i].0, ts[i].1, allocOk(i));
        BuiltStep(ts, allocOk, i, before);
        if !inserted {
          FailedBuildPersists(ts, allocOk, i + 1, |ts|);
          return false;
        }
        i := i + 1;
      }
      return true;
    }

    /** macosx_resolver_init (macelf/macelf.c:30-44): 0 when hash_create
        fails; 0 with the table destroyed and resolver_symbols NULL when
        build_trampolines fails; 1 with every name registered otherwise. */
    method Init(tableAllocOk: bool, arrayAllocOk: bool, ts: seq<(CString, nat)>, allocOk: nat -> bool)
      returns (r: int)
      modifies this
      ensures Valid()
      ensures r == 1 <==> tableAllocOk && arrayAllocOk && Built(ts, allocOk, |ts|).Some?
      ensures r == 0 || r == 1
      ensures r == 0 ==> symbols == null
      ensures r == 1 ==> symbols != null && symbols.contents == Built(ts, allocOk, |ts|).value
    {
      symbols := HashTable<CString, nat>.Create(NameHash(signedChar), tableAllocOk, arrayAllocOk);
      if symbols == null {
        return 0;
      }
      var ok := BuildTrampolines(ts, allocOk);
      if ok {
        return 1;
      }
      symbols.Destroy();
      symbols := null;
      return 0;
    }

    /** macosx_resolver_deinit (macelf/macelf.c:47-51): destroy the table and
        reset the global. nuke_resolver_hash (macelf/macelf.c:19-22) does
        nothing, so each item is nuked once and nothing is freed by it. */
    method Deinit()
      requires Valid() && symbols != null
      modifies this, symbols
      ensures symbols == null && Valid()
      ensures old(symbols).nuked == old(symbols.nuked) + Flatten(old(symbols.buckets[..]))
    {
      symbols.Destroy();
      symbols := null;
    }
  }

  /** One more insert: it fails exactly when the name is already there or
      its malloc fails, and otherwise adds the name. */
  lemma BuiltStep(ts: seq<(CString, nat)>, allocOk: nat -> bool, i: nat, m: map<CString, nat>)
    requires i < |ts| && Built(ts, allocOk, i) == Some(m)
    ensures Built(ts, allocOk, i + 1) == if ts[i].0 in m || !allocOk(i) then None else Some(m[ts[i].0 := ts[i].1])
  {
  }

  /** Once an insert has failed, building further entries stays failed. */
  lemma {:induction false} FailedBuildPersists(ts: seq<(CString, nat)>, allocOk: nat -> bool, m: nat, n: nat)
    requires m <= n <= |ts| && Built(ts, allocOk, m).None?
    ensures Built(ts, allocOk, n).None?
    decreases n - m
  {
    if m < n {
      FailedBuildPersists(ts, allocOk, m, n - 1);
    }
  }
}
