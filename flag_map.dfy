/** The "translate known bits, fail on leftovers" pattern that
    macelf/mactrampolines.c uses for open, mmap and send/recv flags: for each
    (Linux mask, Mac mask) pair in a fixed order, when the remaining Linux
    flags meet the Linux mask, the Mac mask is OR-ed into the result and the
    Linux mask is cleared from the remaining flags. Whatever is left at the
    end is a flag the trampoline does not know.

    A flags word is modelled as the set of its bit positions: `&` is `*`,
    `|` is `+`, `x & ~m` is `x - m` and a zero word is the empty set. */
module FlagMap {
  /** The bit positions set in a flags word. */
  type Mask = set<nat>

  /** One CVTFLAG / MAPFLAG line: a Linux mask and the Mac mask it becomes. */
  datatype FlagPair = FlagPair(linux: Mask, mac: Mask)

  /** The translated Mac flags and the Linux flags left over. */
  datatype Mapped = Mapped(mac: Mask, rest: Mask)

  /** `a & b` is not zero. */
  predicate Meets(a: Mask, b: Mask)
  {
    a * b != {}
  }

  /** The pairs applied in order to the remaining flags, starting from the
      Mac flags accumulated so far. */
  function Convert(table: seq<FlagPair>, flags: Mask, mac: Mask): Mapped
    decreases |table|
  {
    if |table| == 0 then Mapped(mac, flags)
    else if Meets(flags, table[0].linux) then Convert(table[1..], flags - table[0].linux, mac + table[0].mac)
    else Convert(table[1..], flags, mac)
  }

  /** Every Linux bit the table knows. */
  function Known(table: seq<FlagPair>): Mask
    decreases |table|
  {
    if |table| == 0 then {} else table[0].linux + Known(table[1..])
  }

  /** Every Mac bit the table can produce. */
  function MacKnown(table: seq<FlagPair>): Mask
    decreases |table|
  {
    if |table| == 0 then {} else table[0].mac + MacKnown(table[1..])
  }

  /** The Mac mask a pair contributes for the given flags. */
  function Contribution(p: FlagPair, flags: Mask): Mask
  {
    if Meets(flags, p.linux) then p.mac else {}
  }

  /** The reference meaning of a translation: the union of the Mac masks of
      exactly those pairs whose Linux mask meets the given flags. */
  function Selected(table: seq<FlagPair>, flags: Mask): Mask
    decreases |table|
  {
    if |table| == 0 then {} else Contribution(table[0], flags) + Selected(table[1..], flags)
  }

  /** No two Linux masks share a bit. */
  predicate LinuxDisjoint(table: seq<FlagPair>)
  {
    forall i, j :: 0 <= i < |table| && 0 <= j < |table| && i != j ==> table[i].linux !! table[j].linux
  }

  /** Every Mac mask is non-empty and no two share a bit, as distinct
      single-bit Mac constants are. */
  predicate MacDisjoint(table: seq<FlagPair>)
  {
    (forall i :: 0 <= i < |table| ==> table[i].mac != {})
    && forall i, j :: 0 <= i < |table| && 0 <= j < |table| && i != j ==> table[i].mac !! table[j].mac
  }

  /** Every Linux mask of the table is within Known. */
  lemma {:induction false} KnownHas(table: seq<FlagPair>, j: nat)
    requires j < |table|
    ensures table[j].linux <= Known(table)
    decreases |table|
  {
    if j > 0 {
      KnownHas(table[1..], j - 1);
      assert table[1..][j - 1] == table[j];
    }
  }

  /** A bit of Known is in some Linux mask of the table. */
  lemma {:induction false} KnownFrom(table: seq<FlagPair>, b: nat)
    requires b in Known(table)
    ensures exists i :: 0 <= i < |table| && b in table[i].linux
    decreases |table|
  {
    if b !in table[0].linux {
      KnownFrom(table[1..], b);
      var i :| 0 <= i < |table[1..]| && b in table[1..][i].linux;
      assert table[1..][i] == table[i + 1];
    }
  }

  /** The owner map names, for each Linux bit a table knows, the index of
      the one pair whose Linux mask holds it: a witness that no two Linux
      masks share a bit. */
  predicate OwnedBy(table: seq<FlagPair>, owner: map<nat, nat>)
  {
    forall i :: 0 <= i < |table| ==> forall b :: b in table[i].linux ==> b in owner && owner[b] == i
  }

  /** OwnedBy restricted to the pairs with index in [lo, hi). */
  predicate OwnedRange(table: seq<FlagPair>, owner: map<nat, nat>, lo: nat, hi: nat)
  {
    forall i :: lo <= i < hi && i < |table| ==> forall b :: b in table[i].linux ==> b in owner && owner[b] == i
  }

  lemma OwnedJoin(table: seq<FlagPair>, owner: map<nat, nat>, k: nat)
    requires OwnedRange(table, owner, 0, k) && OwnedRange(table, owner, k, |table|)
    ensures OwnedBy(table, owner)
  {
  }

  /** Every bit of the owner map is in the mask of the pair it names. */
  predicate Covers(table: seq<FlagPair>, owner: map<nat, nat>)
  {
    forall b :: b in owner ==> owner[b] < |table| && b in table[owner[b]].linux
  }

  lemma OwnedDisjoint(table: seq<FlagPair>, owner: map<nat, nat>)
    requires OwnedBy(table, owner)
    ensures LinuxDisjoint(table)
  {
    forall i, j | 0 <= i < |table| && 0 <= j < |table| && i != j
      ensures table[i].linux !! table[j].linux
    {
      forall b | b in table[i].linux ensures b !in table[j].linux {
        assert owner[b] == i;
      }
    }
  }

  /** With an exact owner map, the known bits are its keys. */
  lemma KnownOwned(table: seq<FlagPair>, owner: map<nat, nat>)
    requires OwnedBy(table, owner) && Covers(table, owner)
    ensures Known(table) == owner.Keys
  {
    forall b | b in Known(table) ensures b in owner {
      KnownFrom(table, b);
    }
    forall b | b in owner ensures b in Known(table) {
      KnownHas(table, owner[b]);
    }
  }

  /** The leftover flags are exactly the input flags outside the known
      mask, whatever the masks' order and overlap. */
  lemma {:induction false} ConvertRest(table: seq<FlagPair>, flags: Mask, mac: Mask)
    ensures Convert(table, flags, mac).rest == flags - Known(table)
    decreases |table|
  {
    if |table| > 0 {
      var l := table[0].linux;
      var t := table[1..];
      if Meets(flags, l) {
        ConvertRest(t, flags - l, mac + table[0].mac);
        assert (flags - l) - Known(t) == flags - (l + Known(t));
      } else {
        ConvertRest(t, flags, mac);
        forall x | x in flags ensures x !in l {
          assert x !in flags * l;
        }
        assert flags - Known(t) == flags - (l + Known(t));
      }
    }
  }

  /** Clearing a mask that no pair's Linux mask meets does not change which
      pairs are selected. */
  lemma {:induction false} SelectedIgnores(table: seq<FlagPair>, flags: Mask, l: Mask)
    requires forall i :: 0 <= i < |table| ==> table[i].linux !! l
    ensures Selected(table, flags - l) == Selected(table, flags)
    decreases |table|
  {
    if |table| > 0 {
      assert (flags - l) * table[0].linux == flags * table[0].linux by {
        assert table[0].linux !! l;
      }
      var t := table[1..];
      SelectedIgnores(t, flags, l) by {
        forall i | 0 <= i < |t| ensures t[i].linux !! l {
          assert t[i] == table[i + 1];
        }
      }
    }
  }

  /** With disjoint Linux masks, the step-by-step translation adds exactly
      the reference selection to the Mac flags it started from. */
  lemma {:induction false} ConvertMac(table: seq<FlagPair>, flags: Mask, mac: Mask)
    requires LinuxDisjoint(table)
    ensures Convert(table, flags, mac).mac == mac + Selected(table, flags)
    decreases |table|
  {
    if |table| > 0 {
      var t := table[1..];
      assert LinuxDisjoint(t) by {
        forall i, j | 0 <= i < |t| && 0 <= j < |t| && i != j
          ensures t[i].linux !! t[j].linux
        {
          assert t[i] == table[i + 1] && t[j] == table[j + 1];
        }
      }
      if Meets(flags, table[0].linux) {
        ConvertMac(t, flags - table[0].linux, mac + table[0].mac);
        SelectedIgnores(t, flags, table[0].linux) by {
          forall i | 0 <= i < |t| ensures t[i].linux !! table[0].linux {
            assert t[i] == table[i + 1];
          }
        }
      } else {
        ConvertMac(t, flags, mac);
      }
    }
  }

  /** The selection holds no bit outside the Mac masks of the table. */
  lemma {:induction false} SelectedWithin(table: seq<FlagPair>, flags: Mask)
    ensures Selected(table, flags) <= MacKnown(table)
    decreases |table|
  {
    if |table| > 0 {
      SelectedWithin(table[1..], flags);
    }
  }

  /** A bit in no Mac mask of the table is not in the selection. */
  lemma {:induction false} SelectedMisses(table: seq<FlagPair>, flags: Mask, b: nat)
    requires forall i :: 0 <= i < |table| ==> b !in table[i].mac
    ensures b !in Selected(table, flags)
    decreases |table|
  {
    if |table| > 0 {
      var t := table[1..];
      SelectedMisses(t, flags, b) by {
        forall i | 0 <= i < |t| ensures b !in t[i].mac {
          assert t[i] == table[i + 1];
        }
      }
    }
  }

  /** With disjoint Mac masks, a bit of the k-th Mac mask is in the
      selection exactly when the flags meet the k-th Linux mask. */
  lemma {:induction false} SelectedBit(table: seq<FlagPair>, flags: Mask, k: nat, b: nat)
    requires MacDisjoint(table) && k < |table| && b in table[k].mac
    ensures b in Selected(table, flags) <==> Meets(flags, table[k].linux)
    decreases |table|
  {
    var t := table[1..];
    if k > 0 {
      assert MacDisjoint(t) by {
        forall i | 0 <= i < |t| ensures t[i].mac != {} {
          assert t[i] == table[i + 1];
        }
        forall i, j | 0 <= i < |t| && 0 <= j < |t| && i != j
          ensures t[i].mac !! t[j].mac
        {
          assert t[i] == table[i + 1] && t[j] == table[j + 1];
        }
      }
      assert t[k - 1] == table[k];
      assert table[0].mac !! table[k].mac;
      SelectedBit(t, flags, k - 1, b);
    } else {
      SelectedMisses(t, flags, b) by {
        forall i | 0 <= i < |t| ensures b !in t[i].mac {
          assert t[i] == table[i + 1];
          assert table[0].mac !! table[i + 1].mac;
        }
      }
    }
  }

  /** The CVTFLAG / MAPFLAG sequence itself: the table applied in order to
      a working copy of the flags, each known mask translated and cleared. */
  method MapFlags(table: seq<FlagPair>, flags: Mask) returns (mac: Mask, rest: Mask)
    ensures Mapped(mac, rest) == Convert(table, flags, {})
    ensures rest == flags - Known(table)
    ensures LinuxDisjoint(table) ==> mac == Selected(table, flags)
  {
    mac, rest := {}, flags;
    var i := 0;
    while i < |table|
      invariant 0 <= i <= |table|
      invariant Convert(table[i..], rest, mac) == Convert(table, flags, {})
    {
      assert table[i..][1..] == table[i + 1..];
      if Meets(rest, table[i].linux) {
        rest := rest - table[i].linux;
        mac := mac + table[i].mac;
      }
      i := i + 1;
    }
    ConvertRest(table, flags, {});
    if LinuxDisjoint(table) {
      ConvertMac(table, flags, {});
    }
  }
}
