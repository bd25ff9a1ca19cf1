/**
 * The two comma-separated filter lists: csvToLowerSet, which turns the eligible-rank
 * list and the ignore list into sets of lower-case names, and the ignore-list merge
 * run when a member is ignored from the side panel.
 */
module FilterSets {
  import opened Wrappers
  import opened JavaStrings

  // ---------------------------------------------------------------------------
  // csvToLowerSet

  /** The lower-cased, trimmed, non-empty tokens of the pieces. */
  function TokenSet(parts: seq<string>): (tokens: set<string>)
    ensures forall t :: t in tokens ==> t != "" && IsTrimmed(t) && Lower(t) == t
  {
    LowerOfTrimmed();
    set p | p in parts && Lower(Trim(p)) != "" :: Lower(Trim(p))
  }

  /** A lower-cased trimmed string is still trimmed, and lower-casing it again changes
      nothing. */
  lemma LowerOfTrimmed()
    ensures forall s :: IsTrimmed(Lower(Trim(s))) && Lower(Lower(Trim(s))) == Lower(Trim(s))
  {
    forall s ensures IsTrimmed(Lower(Trim(s))) && Lower(Lower(Trim(s))) == Lower(Trim(s)) {
      var t := Trim(s);
      assert Lower(Lower(t)) == Lower(t);
    }
  }

  /** One more piece adds its token, if it has one. */
  lemma TokenSetSnoc(parts: seq<string>, p: string)
    ensures TokenSet(parts + [p]) == TokenSet(parts) + (if Lower(Trim(p)) != "" then {Lower(Trim(p))} else {})
  {
    assert forall q :: q in parts + [p] <==> q in parts || q == p;
  }

  /** csvToLowerSet: no set for a null text, else the tokens of its comma split; a text
      without a comma is a single token, if it is not blank after trimming. */
  function LowerTokenSet(s: Option<string>): (tokens: set<string>)
    ensures s.Some? && ',' !in s.value ==> tokens == (if Lower(Trim(s.value)) != "" then {Lower(Trim(s.value))} else {})
  {
    if s.None? then {} else TokenSet(Split(s.value, ','))
  }

  /** The trailing empty pieces Java's split drops never held a token. */
  lemma TokenSetIgnoresTrailingEmpty(s: string, sep: char)
    ensures TokenSet(Split(s, sep)) == TokenSet(SplitAll(s, sep))
  {
    if sep !in s {
      SplitAllNoSep(s, sep);
    } else {
      var all := SplitAll(s, sep);
      var kept := DropTrailingEmpty(all);
      forall t | t in TokenSet(all) ensures t in TokenSet(kept) {
        var i := TokenIndex(all, t);
        assert i < |kept| && kept[i] == all[i];
      }
    }
  }

  // ---------------------------------------------------------------------------
  // The ignore-list merge

  /** The entries of an insertion-ordered set after adding the trimmed, non-empty pieces in
      order (LinkedHashSet.add keeps the first occurrence and its position). */
  function CollectEntries(parts: seq<string>): (es: seq<string>)
    ensures forall e :: e in es ==> e != "" && IsTrimmed(e)
  {
    if parts == [] then []
    else
      var es := CollectEntries(parts[..|parts| - 1]);
      var t := Trim(parts[|parts| - 1]);
      if t == "" || t in es then es else es + [t]
  }

  /** The entries of the current ignore list, as the merge reads them. */
  function ExistingEntries(current: Option<string>): (es: seq<string>)
    ensures forall e :: e in es ==> e != "" && IsTrimmed(e)
  {
    if current.None? || IsBlank(current.value) then [] else CollectEntries(Split(current.value, ','))
  }

  /** The name is added at the end unless an entry already equals it ignoring case. */
  function WithName(es: seq<string>, n: string): (ws: seq<string>)
    ensures (exists e :: e in es && EqualsIgnoreCase(e, n)) ==> ws == es
    ensures !(exists e :: e in es && EqualsIgnoreCase(e, n)) ==> ws == es + [n]
    ensures |es| <= |ws| <= |es| + 1 && ws[..|es|] == es
    ensures exists e :: e in ws && EqualsIgnoreCase(e, n)
  {
    if exists e :: e in es && EqualsIgnoreCase(e, n) then es
    else
      assert (es + [n])[|es|] == n && EqualsIgnoreCase(n, n);
      es + [n]
  }

  /** The text the merge writes back for the (already trimmed) name n. */
  function MergedIgnoreList(current: Option<string>, n: string): string
  {
    Join(", ", WithName(ExistingEntries(current), n))
  }

  // ---------------------------------------------------------------------------
  // Properties of the insertion-ordered set

  predicate Distinct(es: seq<string>)
  {
    forall i, j :: 0 <= i < j < |es| ==> es[i] != es[j]
  }

  /** Some piece trims to t. */
  predicate Occurs(parts: seq<string>, t: string)
  {
    exists i :: 0 <= i < |parts| && Trim(parts[i]) == t
  }

  /** The position of the first piece that trims to t, or |parts| when there is none. */
  function FirstIndex(parts: seq<string>, t: string): (i: nat)
    ensures i <= |parts|
    ensures i < |parts| ==> Trim(parts[i]) == t
    ensures forall j :: 0 <= j < i ==> Trim(parts[j]) != t
  {
    if parts == [] then 0
    else if Trim(parts[0]) == t then 0
    else 1 + FirstIndex(parts[1..], t)
  }

  lemma OccursFirstIndex(parts: seq<string>, t: string)
    ensures Occurs(parts, t) <==> FirstIndex(parts, t) < |parts|
  {
  }

  lemma {:induction false} FirstIndexAppend(parts: seq<string>, last: string, t: string)
    ensures FirstIndex(parts + [last], t) ==
              if FirstIndex(parts, t) < |parts| then FirstIndex(parts, t)
              else if Trim(last) == t then |parts| else |parts| + 1
  {
    if parts != [] {
      assert (parts + [last])[0] == parts[0];
      assert (parts + [last])[1..] == parts[1..] + [last];
      FirstIndexAppend(parts[1..], last, t);
    }
  }

  /** No entry is kept twice. */
  lemma {:induction false} CollectDistinct(parts: seq<string>)
    ensures Distinct(CollectEntries(parts))
  {
    if parts != [] {
      CollectDistinct(parts[..|parts| - 1]);
    }
  }

  /** The entries are exactly the trimmed pieces that are not empty. */
  lemma {:induction false} CollectMembers(parts: seq<string>, t: string)
    ensures t in CollectEntries(parts) <==> t != "" && Occurs(parts, t)
  {
    if parts != [] {
      var init := parts[..|parts| - 1];
      CollectMembers(init, t);
      if Occurs(parts, t) && !Occurs(init, t) {
        var i :| 0 <= i < |parts| && Trim(parts[i]) == t;
        assert i == |parts| - 1;
      }
      if Occurs(init, t) {
        var i :| 0 <= i < |init| && Trim(init[i]) == t;
        assert parts[i] == init[i];
      }
    }
  }

  /** The entries keep the order in which each first appears. */
  lemma {:induction false} CollectOrder(parts: seq<string>)
    ensures forall i, j :: 0 <= i < j < |CollectEntries(parts)| ==>
              FirstIndex(parts, CollectEntries(parts)[i]) < FirstIndex(parts, CollectEntries(parts)[j])
  {
    if parts != [] {
      var init := parts[..|parts| - 1];
      var last := parts[|parts| - 1];
      assert parts == init + [last];
      CollectOrder(init);
      var es := CollectEntries(init);
      forall k | 0 <= k < |es| ensures FirstIndex(parts, es[k]) == FirstIndex(init, es[k]) < |init| {
        CollectMembers(init, es[k]);
        OccursFirstIndex(init, es[k]);
        FirstIndexAppend(init, last, es[k]);
      }
      var t := Trim(last);
      if t != "" && t !in es {
        CollectMembers(init, t);
        OccursFirstIndex(init, t);
        FirstIndexAppend(init, last, t);
      }
    }
  }

  // ---------------------------------------------------------------------------
  // Reading back a list the merge wrote

  /** The pieces that splitting "e0, e1, ..., ek" on ',' gives: e0, " e1", ..., " ek". */
  function Spaced(es: seq<string>): (ps: seq<string>)
    requires es != []
    ensures |ps| == |es|
  {
    [es[0]] + Prefixed(es[1..])
  }

  /** Each entry with the space the join put before it. */
  function Prefixed(es: seq<string>): (ps: seq<string>)
    ensures |ps| == |es|
  {
    if es == [] then [] else [" " + es[0]] + Prefixed(es[1..])
  }

  lemma {:induction false} PrefixedIndex(es: seq<string>, i: int)
    requires 0 <= i < |es|
    ensures Prefixed(es)[i] == " " + es[i]
  {
    if i > 0 {
      PrefixedIndex(es[1..], i - 1);
    }
  }

  lemma SpacedIndex(es: seq<string>, i: int)
    requires 0 <= i < |es|
    ensures Spaced(es)[i] == if i == 0 then es[0] else " " + es[i]
  {
    if i > 0 {
      PrefixedIndex(es[1..], i - 1);
    }
  }

  predicate NoComma(es: seq<string>) { forall e :: e in es ==> ',' !in e }

  lemma {:induction false} SplitAllOfJoin(es: seq<string>)
    requires es != [] && NoComma(es)
    ensures SplitAll(Join(", ", es), ',') == Spaced(es)
  {
    if |es| == 1 {
      SplitAllNoSep(es[0], ',');
    } else {
      var rest := Join(", ", es[1..]);
      assert Join(", ", es) == es[0] + [','] + (" " + rest);
      assert es[0] in es;
      SplitAllCons(es[0], " " + rest, ',');
      assert NoComma(es[1..]) by {
        forall e | e in es[1..] ensures e in es { }
      }
      SplitAllOfJoin(es[1..]);
      SplitAllSpace(rest);
      SpacedCons(es);
    }
  }

  /** A leading space joins the first piece. */
  lemma SplitAllSpace(rest: string)
    ensures SplitAll(" " + rest, ',') == [" " + SplitAll(rest, ',')[0]] + SplitAll(rest, ',')[1..]
  {
    assert (" " + rest)[1..] == rest;
  }

  lemma SpacedCons(es: seq<string>)
    requires |es| >= 2
    ensures Spaced(es) == [es[0]] + [" " + Spaced(es[1..])[0]] + Spaced(es[1..])[1..]
  {
    assert es[1..][1..] == es[2..];
  }

  /** Split of a joined list gives the spaced pieces: the last piece is never empty. */
  lemma SplitOfJoin(es: seq<string>)
    requires es != [] && NoComma(es) && es[|es| - 1] != ""
    ensures Split(Join(", ", es), ',') == Spaced(es)
  {
    if |es| == 1 {
      assert Join(", ", es) == es[0];
      assert es[0] in es;
    } else {
      SplitOfLongerJoin(es);
    }
  }

  lemma SplitOfLongerJoin(es: seq<string>)
    requires |es| >= 2 && NoComma(es) && es[|es| - 1] != ""
    ensures Split(Join(", ", es), ',') == Spaced(es)
  {
    var j := Join(", ", es);
    assert j[|es[0]|] == ',';
    SplitAllOfJoin(es);
    var ps := Spaced(es);
    SpacedIndex(es, |es| - 1);
    assert ps[|ps| - 1][0] == ' ';
    KeepsLastPiece(ps);
  }

  /** Nothing is dropped when the last piece is not empty. */
  lemma KeepsLastPiece(ps: seq<string>)
    requires ps != [] && ps[|ps| - 1] != ""
    ensures DropTrailingEmpty(ps) == ps
  {
  }

  /** Collecting pieces that already trim to distinct non-empty entries gives those entries. */
  lemma {:induction false} CollectOfTrimmed(ps: seq<string>, es: seq<string>)
    requires |ps| == |es| && Distinct(es)
    requires forall e :: e in es ==> e != ""
    requires forall i :: 0 <= i < |es| ==> Trim(ps[i]) == es[i]
    ensures CollectEntries(ps) == es
  {
    if ps != [] {
      var n := |ps| - 1;
      var ps', es' := ps[..n], es[..n];
      TrimmedPrefix(ps, es, ps', es');
      CollectOfTrimmed(ps', es');
      var t := Trim(ps[n]);
      assert t == es[n];
      assert CollectEntries(ps) == CollectEntries(ps') + [t];
      assert es' + [es[n]] == es;
    }
  }

  /** The prefixes keep the premises of CollectOfTrimmed, and the last entry is new. */
  lemma TrimmedPrefix(ps: seq<string>, es: seq<string>, ps': seq<string>, es': seq<string>)
    requires |ps| == |es| && Distinct(es) && ps != []
    requires forall e :: e in es ==> e != ""
    requires forall i :: 0 <= i < |es| ==> Trim(ps[i]) == es[i]
    requires ps' == ps[..|ps| - 1] && es' == es[..|es| - 1]
    ensures |ps'| == |es'| && Distinct(es')
    ensures forall e :: e in es' ==> e != ""
    ensures forall i :: 0 <= i < |es'| ==> Trim(ps'[i]) == es'[i]
    ensures es[|es| - 1] !in es' && es[|es| - 1] != ""
  {
    var n := |ps| - 1;
    forall i, j | 0 <= i < j < |es'| ensures es'[i] != es'[j] {
      assert es'[i] == es[i] && es'[j] == es[j];
    }
    forall e | e in es' ensures e in es { }
    forall i | 0 <= i < |es'| ensures Trim(ps'[i]) == es'[i] {
      assert ps'[i] == ps[i] && es'[i] == es[i];
    }
    forall i | 0 <= i < n ensures es'[i] != es[n] {
      assert es'[i] == es[i];
    }
    assert es[n] in es;
  }

  lemma {:induction false} JoinNotBlank(es: seq<string>, k: int)
    requires 0 <= k < |es| && !IsBlank(es[k])
    ensures !IsBlank(Join(", ", es))
  {
    var j := Join(", ", es);
    if |es| == 1 {
    } else if k == 0 {
      var i :| 0 <= i < |es[0]| && !IsWhitespace(es[0][i]);
      assert j[i] == es[0][i];
    } else {
      JoinNotBlank(es[1..], k - 1);
      var rest := Join(", ", es[1..]);
      var i :| 0 <= i < |rest| && !IsWhitespace(rest[i]);
      assert j[|es[0]| + 2 + i] == rest[i];
    }
  }

  /** The entries that are trimmed, non-empty, comma-free and distinct are what the merge
      reads back from their joined text (when that text is not blank). */
  lemma EntriesOfJoin(es: seq<string>)
    requires Distinct(es) && NoComma(es)
    requires forall e :: e in es ==> e != "" && IsTrimmed(e)
    requires exists e :: e in es && !IsBlank(e)
    ensures ExistingEntries(Some(Join(", ", es))) == es
  {
    var e :| e in es && !IsBlank(e);
    var k :| 0 <= k < |es| && es[k] == e;
    JoinNotBlank(es, k);
    assert es[|es| - 1] in es;
    SplitOfJoin(es);
    SpacedTrims(es);
    CollectOfTrimmed(Spaced(es), es);
  }

  lemma SpacedTrims(es: seq<string>)
    requires es != []
    requires forall e :: e in es ==> IsTrimmed(e)
    ensures forall i :: 0 <= i < |es| ==> Trim(Spaced(es)[i]) == es[i]
  {
    var ps := Spaced(es);
    forall i | 0 <= i < |es| ensures Trim(ps[i]) == es[i] {
      assert es[i] in es;
      SpacedIndex(es, i);
      if i == 0 { TrimOfTrimmed(es[0]); } else { TrimLeadingSpace(es[i]); }
    }
  }

  // ---------------------------------------------------------------------------
  // The merge

  /** The entries read from the current list are distinct, trimmed, non-empty and
      free of commas. */
  lemma ExistingEntriesShape(current: Option<string>)
    ensures Distinct(ExistingEntries(current)) && NoComma(ExistingEntries(current))
    ensures forall e :: e in ExistingEntries(current) ==> e != "" && IsTrimmed(e)
  {
    if current.Some? && !IsBlank(current.value) {
      var parts := Split(current.value, ',');
      CollectDistinct(parts);
      forall e | e in CollectEntries(parts) ensures ',' !in e {
        CollectMembers(parts, e);
        var i :| 0 <= i < |parts| && Trim(parts[i]) == e;
        assert parts[i] in parts;
        TrimChars(parts[i], ',');
      }
    }
  }

  lemma LowerCharWhitespace(c: char)
    ensures IsWhitespace(LowerChar(c)) <==> IsWhitespace(c)
  {
  }

  /** Two names equal ignoring case are blank together. */
  lemma EqualsIgnoreCaseBlank(a: string, b: string)
    requires EqualsIgnoreCase(a, b) && !IsBlank(b)
    ensures !IsBlank(a)
  {
    var i :| 0 <= i < |b| && !IsWhitespace(b[i]);
    assert |a| == |Lower(a)| == |Lower(b)| == |b|;
    assert Lower(a)[i] == Lower(b)[i];
    LowerCharWhitespace(a[i]);
    LowerCharWhitespace(b[i]);
  }

  /** A name as a member row shows it: trimmed, not blank, without a comma. */
  predicate PlainName(n: string)
  {
    n != "" && IsTrimmed(n) && !IsBlank(n) && ',' !in n
  }

  /** The merged entries keep the shape the merge reads back. */
  lemma WithNameShape(current: Option<string>, n: string)
    requires PlainName(n)
    ensures var ws := WithName(ExistingEntries(current), n);
      && Distinct(ws) && NoComma(ws)
      && (forall e :: e in ws ==> e != "" && IsTrimmed(e))
      && (exists e :: e in ws && !IsBlank(e))
      && (exists e :: e in ws && EqualsIgnoreCase(e, n))
  {
    var es := ExistingEntries(current);
    ExistingEntriesShape(current);
    var ws := WithName(es, n);
    if exists e :: e in es && EqualsIgnoreCase(e, n) {
      var e :| e in es && EqualsIgnoreCase(e, n);
      EqualsIgnoreCaseBlank(e, n);
    } else {
      assert n in ws && EqualsIgnoreCase(n, n);
      forall i, j | 0 <= i < j < |ws| ensures ws[i] != ws[j] {
        if j == |es| {
          assert ws[i] in es;
        }
      }
    }
  }

  /** Ignoring the same name twice writes the same list as ignoring it once. */
  lemma MergeIdempotent(current: Option<string>, n: string)
    requires PlainName(n)
    ensures MergedIgnoreList(Some(MergedIgnoreList(current, n)), n) == MergedIgnoreList(current, n)
  {
    var ws := WithName(ExistingEntries(current), n);
    WithNameShape(current, n);
    EntriesOfJoin(ws);
  }

  /** The lower-cased entries. */
  function LowerSet(es: seq<string>): set<string>
  {
    set e | e in es :: Lower(e)
  }

  /** csvToLowerSet reads back the lower-cased entries of a joined list. */
  lemma TokensOfJoin(ws: seq<string>)
    requires ws != [] && NoComma(ws)
    requires forall e :: e in ws ==> e != "" && IsTrimmed(e)
    ensures LowerTokenSet(Some(Join(", ", ws))) == LowerSet(ws)
  {
    assert ws[|ws| - 1] in ws;
    SplitOfJoin(ws);
    SpacedTrims(ws);
    var ps := Spaced(ws);
    assert LowerTokenSet(Some(Join(", ", ws))) == TokenSet(ps);
    forall t | t in TokenSet(ps) ensures t in LowerSet(ws) {
      var i := TokenIndex(ps, t);
      assert ws[i] in ws;
    }
    forall t | t in LowerSet(ws) ensures t in TokenSet(ps) {
      var e :| e in ws && Lower(e) == t;
      var i :| 0 <= i < |ws| && ws[i] == e;
      assert ps[i] in ps && Trim(ps[i]) == e;
    }
  }

  /** What csvToLowerSet makes of the merged list: the lower-cased entries it read, plus
      the lower-cased name; so the member is ignored from then on. */
  lemma MergeThenParse(current: Option<string>, n: string)
    requires PlainName(n)
    ensures LowerTokenSet(Some(MergedIgnoreList(current, n))) == LowerSet(ExistingEntries(current)) + {Lower(n)}
  {
    var es := ExistingEntries(current);
    var ws := WithName(es, n);
    WithNameShape(current, n);
    TokensOfJoin(ws);
    WithNameLowerSet(es, n);
  }

  /** Adding the name adds its lower-cased form, whether or not it was already there. */
  lemma WithNameLowerSet(es: seq<string>, n: string)
    ensures LowerSet(WithName(es, n)) == LowerSet(es) + {Lower(n)}
  {
    if exists e :: e in es && EqualsIgnoreCase(e, n) {
      var e :| e in es && EqualsIgnoreCase(e, n);
      assert Lower(n) == Lower(e) && Lower(e) in LowerSet(es);
      Absorb(LowerSet(es), Lower(n));
    } else {
      assert LowerSet(es + [n]) == LowerSet(es) + {Lower(n)};
    }
  }

  lemma Absorb(a: set<string>, x: string)
    requires x in a
    ensures a + {x} == a
  {
  }

  /** For a list that is not blank, the lower-cased entries the merge reads are exactly the
      set csvToLowerSet builds from the same text. */
  lemma ExistingEntriesTokens(s: string)
    requires !IsBlank(s)
    ensures LowerSet(ExistingEntries(Some(s))) == LowerTokenSet(Some(s))
  {
    var parts := Split(s, ',');
    var es := CollectEntries(parts);
    assert ExistingEntries(Some(s)) == es && LowerTokenSet(Some(s)) == TokenSet(parts);
    forall t | t in LowerSet(es) ensures t in TokenSet(parts) {
      var e :| e in es && Lower(e) == t;
      CollectMembers(parts, e);
      var i :| 0 <= i < |parts| && Trim(parts[i]) == e;
      assert parts[i] in parts;
    }
    forall t | t in TokenSet(parts) ensures t in LowerSet(es) {
      var i := TokenIndex(parts, t);
      CollectMembers(parts, Trim(parts[i]));
    }
  }

  /** A position of a piece whose token is t. */
  lemma TokenIndex(parts: seq<string>, t: string) returns (i: int)
    requires t in TokenSet(parts)
    ensures 0 <= i < |parts| && Lower(Trim(parts[i])) == t && t != ""
  {
    var p :| p in parts && Lower(Trim(p)) != "" && Lower(Trim(p)) == t;
    i :| 0 <= i < |parts| && parts[i] == p;
  }
}
