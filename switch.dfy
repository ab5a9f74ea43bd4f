/** A C `switch` over integer case labels that returns a value per case and
    a fixed value after the switch: the shape of gai_strerror,
    mac_addrinfoerror_to_linux, linux_sockopt_to_mac and the category switch
    of setlocale in macelf/mactrampolines.c. A C compiler refuses two equal
    case labels, so the tables used here have distinct labels. */
module Switch {
  /** One `case label: return value;` line. */
  datatype Case<V> = Case(key: int, value: V)

  /** The value of the first case whose label is x, or dflt when there is
      none. With distinct labels the first case is the only one. */
  function Lookup<V>(cases: seq<Case<V>>, x: int, dflt: V): V
    decreases |cases|
  {
    if |cases| == 0 then dflt
    else if cases[0].key == x then cases[0].value
    else Lookup(cases[1..], x, dflt)
  }

  /** Some case of the switch has label x. */
  predicate Labelled<V>(cases: seq<Case<V>>, x: int)
  {
    exists i :: 0 <= i < |cases| && cases[i].key == x
  }

  function Labels<V>(cases: seq<Case<V>>): (ls: seq<int>)
    ensures |ls| == |cases| && forall i :: 0 <= i < |cases| ==> ls[i] == cases[i].key
  {
    seq(|cases|, i requires 0 <= i < |cases| => cases[i].key)
  }

  function Values<V>(cases: seq<Case<V>>): (vs: seq<V>)
    ensures |vs| == |cases| && forall i :: 0 <= i < |cases| ==> vs[i] == cases[i].value
  {
    seq(|cases|, i requires 0 <= i < |cases| => cases[i].value)
  }

  /** The cases of a switch written as parallel lists of labels and values. */
  function Zip<V>(keys: seq<int>, vals: seq<V>): (cases: seq<Case<V>>)
    requires |keys| == |vals|
    ensures |cases| == |keys| && forall i :: 0 <= i < |keys| ==> cases[i] == Case(keys[i], vals[i])
  {
    seq(|keys|, i requires 0 <= i < |keys| => Case(keys[i], vals[i]))
  }

  lemma ZipParts<V>(keys: seq<int>, vals: seq<V>)
    requires |keys| == |vals|
    ensures Labels(Zip(keys, vals)) == keys && Values(Zip(keys, vals)) == vals
  {
  }

  /** No element of s occurs twice. */
  predicate Distinct<T(==)>(s: seq<T>)
  {
    forall i, j :: 0 <= i < |s| && 0 <= j < |s| && i != j ==> s[i] != s[j]
  }

  /** Each element of s is above (up) or below (not up) the one before. */
  predicate Strict(s: seq<int>, up: bool)
  {
    forall i :: 0 < i < |s| ==> if up then s[i - 1] < s[i] else s[i - 1] > s[i]
  }

  lemma {:induction false} StrictOrder(s: seq<int>, up: bool, i: nat, j: nat)
    requires Strict(s, up) && i < j < |s|
    ensures if up then s[i] < s[j] else s[i] > s[j]
    decreases j - i
  {
    if i + 1 < j {
      StrictOrder(s, up, i + 1, j);
    }
  }

  /** A strictly ordered sequence has no repeated element: how the tables
      with fixed Linux labels are shown to have distinct labels. */
  lemma StrictDistinct(s: seq<int>, up: bool)
    requires Strict(s, up)
    ensures Distinct(s)
  {
    forall i, j | 0 <= i < |s| && 0 <= j < |s| && i != j ensures s[i] != s[j] {
      if i < j {
        StrictOrder(s, up, i, j);
      } else {
        StrictOrder(s, up, j, i);
      }
    }
  }

  /** The switch returns the value of a case labelled x, or the default
      exactly when no case is labelled x. */
  lemma {:induction false} LookupFrom<V>(cases: seq<Case<V>>, x: int, dflt: V)
    ensures Labelled(cases, x) ==> exists i :: 0 <= i < |cases| && cases[i].key == x && Lookup(cases, x, dflt) == cases[i].value
    ensures !Labelled(cases, x) ==> Lookup(cases, x, dflt) == dflt
    decreases |cases|
  {
    if |cases| > 0 && cases[0].key != x {
      var t := cases[1..];
      LookupFrom(t, x, dflt);
      if Labelled(cases, x) {
        var i :| 0 <= i < |cases| && cases[i].key == x;
        assert t[i - 1] == cases[i];
        var j :| 0 <= j < |t| && t[j].key == x && Lookup(t, x, dflt) == t[j].value;
        assert cases[j + 1] == t[j];
      } else {
        forall i | 0 <= i < |t| ensures t[i].key != x {
          assert t[i] == cases[i + 1];
        }
      }
    }
  }

  /** A label of the switch gives one of its values, any other number the
      default. */
  lemma LookupIn<V>(cases: seq<Case<V>>, x: int, dflt: V)
    ensures x in Labels(cases) ==> Lookup(cases, x, dflt) in Values(cases)
    ensures x !in Labels(cases) ==> Lookup(cases, x, dflt) == dflt
  {
    LookupFrom(cases, x, dflt);
    if x in Labels(cases) {
      var k :| 0 <= k < |cases| && Labels(cases)[k] == x;
      var i :| 0 <= i < |cases| && cases[i].key == x && Lookup(cases, x, dflt) == cases[i].value;
      assert Values(cases)[i] == cases[i].value;
    } else {
      forall i | 0 <= i < |cases| ensures cases[i].key != x {
        assert Labels(cases)[i] == cases[i].key;
      }
    }
  }

  /** With distinct labels, the k-th case's label selects the k-th value. */
  lemma LookupHit<V>(cases: seq<Case<V>>, k: nat, dflt: V)
    requires Distinct(Labels(cases)) && k < |cases|
    ensures Lookup(cases, cases[k].key, dflt) == cases[k].value
  {
    LookupFrom(cases, cases[k].key, dflt);
    var i :| 0 <= i < |cases| && cases[i].key == cases[k].key && Lookup(cases, cases[k].key, dflt) == cases[i].value;
    assert Labels(cases)[i] == Labels(cases)[k];
  }

  /** With distinct values none of which is the default, the switch is
      one-to-one on the labels it knows. */
  lemma LookupInjective<V>(cases: seq<Case<V>>, x: int, y: int, dflt: V)
    requires Distinct(Values(cases))
    requires Lookup(cases, x, dflt) == Lookup(cases, y, dflt) != dflt
    ensures x == y
  {
    LookupFrom(cases, x, dflt);
    LookupFrom(cases, y, dflt);
    var i :| 0 <= i < |cases| && cases[i].key == x && Lookup(cases, x, dflt) == cases[i].value;
    var j :| 0 <= j < |cases| && cases[j].key == y && Lookup(cases, y, dflt) == cases[j].value;
    assert Values(cases)[i] == Values(cases)[j];
  }
}
