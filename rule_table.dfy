/**
 * The plugin's rule table, a TreeMap<Integer, String> from a tenure threshold in days
 * to a target rank.  It is kept as a list of entries in strictly ascending key order,
 * which is the order a TreeMap iterates in; ToMap gives the map it stands for.
 */
module RuleTable {
  import opened Wrappers

  datatype Rule = Rule(days: int, rank: string)

  /** Keys strictly ascending, hence also unique. */
  predicate Sorted(t: seq<Rule>)
  {
    forall i, j :: 0 <= i < j < |t| ==> t[i].days < t[j].days
  }

  function Keys(t: seq<Rule>): set<int>
  {
    if t == [] then {} else {t[0].days} + Keys(t[1..])
  }

  /** The map a table stands for. */
  function ToMap(t: seq<Rule>): (m: map<int, string>)
    requires Sorted(t)
    ensures m.Keys == Keys(t)
  {
    if t == [] then map[] else ToMap(t[1..])[t[0].days := t[0].rank]
  }

  lemma KeysCons(x: Rule, t: seq<Rule>)
    ensures Keys([x] + t) == {x.days} + Keys(t)
  {
    assert ([x] + t)[1..] == t;
  }

  /** A bound on every entry is a bound on every key. */
  lemma {:induction false} KeysAbove(t: seq<Rule>, lo: int)
    requires forall y :: y in t ==> lo < y.days
    ensures forall x :: x in Keys(t) ==> lo < x
  {
    if t != [] {
      KeysAbove(t[1..], lo);
    }
  }

  /** ... and a bound on every key is a bound on every entry. */
  lemma EntriesAbove(t: seq<Rule>, lo: int)
    requires forall x :: x in Keys(t) ==> lo < x
    ensures forall y :: y in t ==> lo < y.days
  {
    forall y | y in t ensures lo < y.days {
      var i :| 0 <= i < |t| && t[i] == y;
      KeyOfEntry(t, i);
    }
  }

  lemma {:induction false} KeyOfEntry(t: seq<Rule>, i: int)
    requires 0 <= i < |t|
    ensures t[i].days in Keys(t)
  {
    if i > 0 {
      KeyOfEntry(t[1..], i - 1);
    }
  }

  /** A sorted table with one more entry in front. */
  lemma ToMapCons(x: Rule, t: seq<Rule>)
    requires Sorted([x] + t)
    ensures Sorted(t)
    ensures ToMap([x] + t) == ToMap(t)[x.days := x.rank]
  {
    var xt := [x] + t;
    assert xt[1..] == t;
    forall i, j | 0 <= i < j < |t| ensures t[i].days < t[j].days {
      assert t[i] == xt[i + 1] && t[j] == xt[j + 1];
    }
  }

  /** A sorted table stays sorted without its first entry, whose key is below the rest. */
  lemma SortedTail(t: seq<Rule>)
    requires Sorted(t) && t != []
    ensures Sorted(t[1..])
    ensures forall y :: y in t[1..] ==> t[0].days < y.days
  {
    forall i, j | 0 <= i < j < |t[1..]| ensures t[1..][i].days < t[1..][j].days {
      assert t[1..][i] == t[i + 1] && t[1..][j] == t[j + 1];
    }
  }

  /** An entry below every entry of a sorted table can go in front. */
  lemma SortedPrepend(x: Rule, t: seq<Rule>)
    requires Sorted(t)
    requires forall y :: y in t ==> x.days < y.days
    ensures Sorted([x] + t)
  {
    forall i, j | 0 <= i < j < |[x] + t| ensures ([x] + t)[i].days < ([x] + t)[j].days {
      assert ([x] + t)[j] == t[j - 1];
      if i > 0 {
        assert ([x] + t)[i] == t[i - 1];
      }
    }
  }

  /** TreeMap.put: the key gets the value, replacing an earlier value for the same key. */
  function Put(t: seq<Rule>, k: int, v: string): (r: seq<Rule>)
    requires Sorted(t)
    ensures Sorted(r)
    ensures forall x :: x in r ==> x in t || x == Rule(k, v)
  {
    if t == [] then [Rule(k, v)]
    else
      SortedTail(t);
      if k < t[0].days then
        SortedPrepend(Rule(k, v), t);
        [Rule(k, v)] + t
      else if k == t[0].days then
        SortedPrepend(Rule(k, v), t[1..]);
        [Rule(k, v)] + t[1..]
      else
        var rest := Put(t[1..], k, v);
        SortedPrepend(t[0], rest);
        [t[0]] + rest
  }

  /** What put does to the map the table stands for. */
  lemma {:induction false} PutSpec(t: seq<Rule>, k: int, v: string)
    requires Sorted(t)
    ensures Keys(Put(t, k, v)) == Keys(t) + {k}
    ensures ToMap(Put(t, k, v)) == ToMap(t)[k := v]
  {
    if t != [] {
      assert t == [t[0]] + t[1..];
      ToMapCons(t[0], t[1..]);
      KeysCons(t[0], t[1..]);
      if k < t[0].days {
        PutInFront(t, k, v);
      } else if k == t[0].days {
        KeysCons(Rule(k, v), t[1..]);
        SortedTail(t);
        SortedPrepend(Rule(k, v), t[1..]);
        ToMapCons(Rule(k, v), t[1..]);
      } else {
        PutSpec(t[1..], k, v);
        PutBehind(t, k, v, Put(t[1..], k, v));
      }
    }
  }

  lemma PutInFront(t: seq<Rule>, k: int, v: string)
    requires Sorted(t) && t != [] && k < t[0].days
    ensures Sorted([Rule(k, v)] + t)
    ensures Keys([Rule(k, v)] + t) == Keys(t) + {k}
    ensures ToMap([Rule(k, v)] + t) == ToMap(t)[k := v]
  {
    KeysCons(Rule(k, v), t);
    forall y | y in t ensures k < y.days {
      var i :| 0 <= i < |t| && t[i] == y;
      assert i == 0 || t[0].days < t[i].days;
    }
    SortedPrepend(Rule(k, v), t);
    ToMapCons(Rule(k, v), t);
  }

  lemma PutBehind(t: seq<Rule>, k: int, v: string, rest: seq<Rule>)
    requires Sorted(t) && t != [] && t[0].days < k
    requires Sorted(rest) && Keys(rest) == Keys(t[1..]) + {k}
    requires ToMap(rest) == ToMap(t[1..])[k := v]
    ensures Sorted([t[0]] + rest)
    ensures Keys([t[0]] + rest) == Keys(t) + {k}
    ensures ToMap([t[0]] + rest) == ToMap(t)[k := v]
  {
    assert t == [t[0]] + t[1..];
    assert Sorted([t[0]] + rest) by {
      SortedTail(t);
      KeysAbove(t[1..], t[0].days);
      EntriesAbove(rest, t[0].days);
      SortedPrepend(t[0], rest);
    }
    KeysCons(t[0], t[1..]);
    KeysCons(t[0], rest);
    ToMapCons(t[0], t[1..]);
    ToMapCons(t[0], rest);
    UpdateSwap(ToMap(t[1..]), k, v, t[0].days, t[0].rank);
  }

  lemma UpdateSwap(m: map<int, string>, a: int, x: string, b: int, y: string)
    requires a != b
    ensures m[a := x][b := y] == m[b := y][a := x]
  {
  }

  /** TreeMap.floorEntry: the entry whose key is the greatest key not above d, if any. */
  function FloorEntry(t: seq<Rule>, d: int): (e: Option<Rule>)
    requires Sorted(t)
    ensures e.Some? ==> e.value in t && e.value.days <= d
  {
    if t == [] || t[0].days > d then None
    else
      assert Sorted(t[1..]) by {
        forall i, j | 0 <= i < j < |t[1..]| ensures t[1..][i] == t[i + 1] && t[1..][j] == t[j + 1] { }
      }
      match FloorEntry(t[1..], d)
      case None => Some(t[0])
      case Some(e) => Some(e)
  }

  /** What floorEntry finds, stated on the map the table stands for. */
  lemma {:induction false} FloorEntrySpec(t: seq<Rule>, d: int)
    requires Sorted(t)
    ensures var e := FloorEntry(t, d);
      && (e.None? <==> forall k :: k in ToMap(t) ==> k > d)
      && (e.Some? ==> e.value.days in ToMap(t) && ToMap(t)[e.value.days] == e.value.rank)
      && (e.Some? ==> e.value.days <= d && forall k :: k in ToMap(t) && k <= d ==> k <= e.value.days)
  {
    if t != [] {
      assert t == [t[0]] + t[1..];
      ToMapCons(t[0], t[1..]);
      SortedTail(t);
      KeysAbove(t[1..], t[0].days);
      FloorEntrySpec(t[1..], d);
    }
  }

  /** The entry with the greatest key at or below d is the one floorEntry(d) finds. */
  lemma FloorUnique(t: seq<Rule>, d: int, r: Rule)
    requires Sorted(t)
    requires r.days in ToMap(t) && ToMap(t)[r.days] == r.rank && r.days <= d
    requires forall k :: k in ToMap(t) && k <= d ==> k <= r.days
    ensures FloorEntry(t, d) == Some(r)
  {
    FloorEntrySpec(t, d);
    var e := FloorEntry(t, d);
    assert e.Some? && e.value.days == r.days;
  }

  /** A floor lookup of a key that is present finds that key's own entry. */
  lemma FloorOfKey(t: seq<Rule>, r: Rule)
    requires Sorted(t)
    requires r.days in ToMap(t) && ToMap(t)[r.days] == r.rank
    ensures FloorEntry(t, r.days) == Some(r)
  {
    FloorUnique(t, r.days, r);
  }
}
