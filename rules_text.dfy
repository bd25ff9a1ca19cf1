/**
 * parseRules: the rule text is split into lines; each line that is not blank and not a
 * '#' comment, that splits on '=' into exactly two parts and whose left part is an int,
 * is put into the table; every other line is skipped.
 */
module RulesText {
  import opened Wrappers
  import opened JavaStrings
  import opened RuleTable

  /** What one line contributes to the table, or None when the loop skips it. */
  function ParseRuleLine(line: string): (r: Option<Rule>)
    ensures r.Some? ==> Trim(line) != [] && Trim(line)[0] != '#'
    ensures r.Some? ==> InInt32(r.value.days) && IsTrimmed(r.value.rank) && '=' !in r.value.rank
  {
    var s := Trim(line);
    if s == [] || s[0] == '#' then None
    else
      var parts := Split(s, '=');
      if |parts| != 2 then None
      else
        match ParseInt(Trim(parts[0]))
        case None => None
        case Some(days) =>
          TrimChars(parts[1], '=');
          Some(Rule(days, Trim(parts[1])))
  }

  /** The table after putting the accepted entries in order, skipping the None ones. */
  function BuildTable(entries: seq<Option<Rule>>): (t: seq<Rule>)
    ensures Sorted(t)
  {
    if entries == [] then [] else AddEntry(BuildTable(entries[..|entries| - 1]), entries[|entries| - 1])
  }

  /** What each line contributes. */
  function ParsedLines(lines: seq<string>): (es: seq<Option<Rule>>)
    ensures |es| == |lines|
  {
    MapSeq(ParseRuleLine, lines)
  }

  /** f applied to every element, in order. */
  function MapSeq<A, B>(f: A -> B, xs: seq<A>): (ys: seq<B>)
    ensures |ys| == |xs|
  {
    if xs == [] then [] else MapSeq(f, xs[..|xs| - 1]) + [f(xs[|xs| - 1])]
  }

  lemma {:induction false} MapSeqIndex<A, B>(f: A -> B, xs: seq<A>)
    ensures forall i :: 0 <= i < |xs| ==> MapSeq(f, xs)[i] == f(xs[i])
  {
    if xs != [] {
      var init := xs[..|xs| - 1];
      MapSeqIndex(f, init);
      forall i | 0 <= i < |xs| - 1 ensures MapSeq(f, xs)[i] == f(xs[i]) {
        assert init[i] == xs[i];
      }
    }
  }

  lemma {:induction false} MapSeqAppend<A, B>(f: A -> B, a: seq<A>, b: seq<A>)
    ensures MapSeq(f, a + b) == MapSeq(f, a) + MapSeq(f, b)
  {
    if b == [] {
      assert a + b == a;
    } else {
      var init, x := b[..|b| - 1], b[|b| - 1];
      assert b == init + [x];
      assert a + b == (a + init) + [x];
      MapSeqAppend(f, a, init);
      MapSeqPush(f, a + init, x);
      MapSeqPush(f, init, x);
    }
  }

  lemma MapSeqPush<A, B>(f: A -> B, xs: seq<A>, x: A)
    ensures MapSeq(f, xs + [x]) == MapSeq(f, xs) + [f(x)]
  {
    assert (xs + [x])[..|xs|] == xs;
  }

  /** One more element at the end. */
  lemma MapSeqSnoc<A, B>(f: A -> B, xs: seq<A>, i: int)
    requires 0 <= i < |xs|
    ensures MapSeq(f, xs[..i + 1]) == MapSeq(f, xs[..i]) + [f(xs[i])]
  {
    assert xs[..i + 1][..i] == xs[..i];
  }

  // ---------------------------------------------------------------------------
  // Which lines are accepted

  /** k separators in a row. */
  function Seps(k: nat): string
  {
    if k == 0 then "" else Seps(k - 1) + "="
  }

  lemma {:induction false} SplitAllSeps(k: nat)
    ensures SplitAll(Seps(k), '=') == seq(k + 1, i => "")
  {
    if k > 0 {
      SplitAllSeps(k - 1);
      SplitAllAppendSep(Seps(k - 1), '=');
    }
  }

  /** Appending a separator adds one empty piece at the end. */
  lemma {:induction false} SplitAllAppendSep(s: string, sep: char)
    ensures SplitAll(s + [sep], sep) == SplitAll(s, sep) + [""]
  {
    if s == [] {
      assert [] + [sep] == [sep];
    } else {
      SplitAllAppendSep(s[1..], sep);
      assert (s + [sep])[1..] == s[1..] + [sep];
    }
  }

  /** What joining with '=' gives back for two pieces followed by k empty ones. */
  lemma {:induction false} JoinTwoThenEmpty(a: string, b: string, k: nat)
    ensures Join("=", [a, b] + seq(k, i => "")) == a + "=" + b + Seps(k)
  {
    if k == 0 {
      assert [a, b] + seq(0, i => "") == [a, b];
      assert [a, b][1..] == [b];
    } else {
      JoinTwoThenEmpty(a, b, k - 1);
      JoinAppendEmpty([a, b] + seq(k - 1, i => ""));
      assert [a, b] + seq(k, i => "") == ([a, b] + seq(k - 1, i => "")) + [""];
    }
  }

  lemma {:induction false} JoinAppendEmpty(parts: seq<string>)
    requires parts != []
    ensures Join("=", parts + [""]) == Join("=", parts) + "="
  {
    if |parts| == 1 {
      assert (parts + [""])[1..] == [""];
    } else {
      JoinAppendEmpty(parts[1..]);
      assert (parts + [""])[1..] == parts[1..] + [""];
    }
  }

  /** Splitting `a=b` followed by k separators. */
  lemma SplitTwo(s: string, a: string, b: string, k: nat)
    requires s == a + "=" + b + Seps(k)
    requires '=' !in a && '=' !in b && b != ""
    ensures Split(s, '=') == [a, b]
  {
    assert s == a + ['='] + (b + Seps(k));
    SplitAllCons(a, b + Seps(k), '=');
    SplitAllConcatSeps(b, k);
    var all := SplitAll(s, '=');
    assert all == [a, b] + seq(k, i => "");
    assert s[|a|] == '=';
    var parts := DropTrailingEmpty(all);
    assert all[1] == b;
    assert parts == all[..2] == [a, b];
  }

  /**
   * Java's split drops trailing empty strings, so a line is accepted exactly when its
   * trimmed form is `a=b` followed by any number of further '=', where neither a nor b
   * holds a '=', b is not empty, and a trims to an int; the rule is then (a, trim(b)).
   * So "7=Recruit=" is accepted, "7=" and "7=2=3" are not.
   */
  lemma AcceptedLine(line: string, a: string, b: string, k: nat)
    requires Trim(line) == a + "=" + b + Seps(k)
    requires '=' !in a && '=' !in b && b != ""
    requires a == [] || a[0] != '#'
    ensures ParseRuleLine(line) ==
              match ParseInt(Trim(a))
              case None => None
              case Some(d) => Some(Rule(d, Trim(b)))
  {
    var s := Trim(line);
    SplitTwo(s, a, b, k);
    assert s[0] != '#' by {
      if a == [] { assert s[0] == '='; } else { assert s[0] == a[0]; }
    }
  }

  lemma {:induction false} SplitAllConcatSeps(b: string, k: nat)
    requires '=' !in b
    ensures SplitAll(b + Seps(k), '=') == [b] + seq(k, i => "")
  {
    if k == 0 {
      assert b + Seps(0) == b;
      SplitAllNoSep(b, '=');
    } else {
      SplitAllConcatSeps(b, k - 1);
      assert b + Seps(k) == (b + Seps(k - 1)) + ['='];
      SplitAllAppendSep(b + Seps(k - 1), '=');
      assert [b] + seq(k - 1, i => "") + [""] == [b] + seq(k, i => "");
    }
  }

  /** Conversely, a split into exactly two parts has that shape. */
  lemma SplitTwoShape(s: string)
    requires |Split(s, '=')| == 2
    ensures var parts := Split(s, '=');
      && '=' !in parts[0] && '=' !in parts[1] && parts[1] != ""
      && s == parts[0] + "=" + parts[1] + Seps(|SplitAll(s, '=')| - 2)
  {
    var all := SplitAll(s, '=');
    if '=' in s {
      TwoThenEmpty(all);
      SplitAllJoin(s, '=');
      JoinTwoThenEmpty(all[0], all[1], |all| - 2);
    }
  }

  /** Pieces that keep two once the trailing empty ones go: two pieces, then empty ones. */
  lemma TwoThenEmpty(all: seq<string>)
    requires |DropTrailingEmpty(all)| == 2
    ensures |all| >= 2 && DropTrailingEmpty(all) == all[..2] && all[1] != ""
    ensures all == [all[0], all[1]] + seq(|all| - 2, i => "")
  {
    var parts := DropTrailingEmpty(all);
    var rest := seq(|all| - 2, i => "");
    forall i | 0 <= i < |all| ensures all[i] == ([all[0], all[1]] + rest)[i] {
      if i >= 2 {
        assert all[i] == "";
      }
    }
  }

  /** Conversely, every accepted line has that shape. */
  lemma AcceptedLineShape(line: string)
    requires ParseRuleLine(line).Some?
    ensures exists a, b, k: nat :: Trim(line) == a + "=" + b + Seps(k) && '=' !in a && '=' !in b && b != ""
  {
    var s := Trim(line);
    SplitTwoShape(s);
  }

  // ---------------------------------------------------------------------------
  // The table built from several lines

  /** A line the loop skips leaves the table exactly as the other lines make it. */
  lemma {:induction false} SkippedEntryChangesNothing(before: seq<Option<Rule>>, after: seq<Option<Rule>>)
    ensures BuildTable(before + [None] + after) == BuildTable(before + after)
  {
    var x, y := before + [None] + after, before + after;
    if after == [] {
      assert x[..|x| - 1] == before && y == before;
    } else {
      var init := after[..|after| - 1];
      SkippedEntryChangesNothing(before, init);
      assert x[..|x| - 1] == before + [None] + init;
      assert y[..|y| - 1] == before + init;
      assert x[|x| - 1] == y[|y| - 1];
      BuildTableStep(x);
      BuildTableStep(y);
    }
  }

  /** One unfolding of BuildTable, by its last entry. */
  lemma BuildTableStep(es: seq<Option<Rule>>)
    requires es != []
    ensures BuildTable(es) == AddEntry(BuildTable(es[..|es| - 1]), es[|es| - 1])
  {
  }

  function AddEntry(t: seq<Rule>, e: Option<Rule>): (r: seq<Rule>)
    requires Sorted(t)
    ensures Sorted(r)
  {
    match e
    case None => t
    case Some(r) => Put(t, r.days, r.rank)
  }

  lemma ParsedLinesAppend(a: seq<string>, b: seq<string>)
    ensures ParsedLines(a + b) == ParsedLines(a) + ParsedLines(b)
  {
    MapSeqAppend(ParseRuleLine, a, b);
  }

  lemma SkippedLineChangesNothing(before: seq<string>, bad: string, after: seq<string>)
    requires ParseRuleLine(bad).None?
    ensures ParseRulesFromLines(before + [bad] + after) == ParseRulesFromLines(before + after)
  {
    ParsedLinesAppend(before + [bad], after);
    ParsedLinesAppend(before, [bad]);
    ParsedLinesAppend(before, after);
    assert ParsedLines([bad]) == [None];
    SkippedEntryChangesNothing(ParsedLines(before), ParsedLines(after));
  }

  /** A threshold is in the table exactly when some accepted entry names it. */
  lemma {:induction false} BuildTableKeys(es: seq<Option<Rule>>, k: int)
    ensures k in ToMap(BuildTable(es)) <==> exists i :: 0 <= i < |es| && es[i].Some? && es[i].value.days == k
  {
    if es != [] {
      var init := es[..|es| - 1];
      BuildTableKeys(init, k);
      assert forall i :: 0 <= i < |init| ==> init[i] == es[i];
      var last := es[|es| - 1];
      if last.Some? {
        PutSpec(BuildTable(init), last.value.days, last.value.rank);
      }
    }
  }

  /** Later entries overwrite earlier ones for the same threshold. */
  lemma {:induction false} BuildTableLastWins(es: seq<Option<Rule>>, i: int)
    requires 0 <= i < |es| && es[i].Some?
    requires forall j :: i < j < |es| && es[j].Some? ==> es[j].value.days != es[i].value.days
    ensures es[i].value.days in ToMap(BuildTable(es)) && ToMap(BuildTable(es))[es[i].value.days] == es[i].value.rank
  {
    var init := es[..|es| - 1];
    var last := es[|es| - 1];
    if last.Some? {
      PutSpec(BuildTable(init), last.value.days, last.value.rank);
    }
    if i < |es| - 1 {
      assert init[i] == es[i];
      BuildTableLastWins(init, i);
    }
  }

  function ParseRulesFromLines(lines: seq<string>): (t: seq<Rule>)
    ensures Sorted(t)
  {
    BuildTable(ParsedLines(lines))
  }

  /** A threshold is in the table exactly when some accepted line names it. */
  lemma TableKeys(lines: seq<string>, k: int)
    ensures k in ToMap(ParseRulesFromLines(lines)) <==>
              exists i :: 0 <= i < |lines| && ParseRuleLine(lines[i]).Some? && ParseRuleLine(lines[i]).value.days == k
  {
    BuildTableKeys(ParsedLines(lines), k);
    MapSeqIndex(ParseRuleLine, lines);
  }

  /**
   * The rank stored for a threshold is the one on the last accepted line that names it,
   * and a floor lookup of exactly that threshold finds it.
   */
  lemma LastLineWins(lines: seq<string>, i: int, r: Rule)
    requires 0 <= i < |lines| && ParseRuleLine(lines[i]) == Some(r)
    requires forall j :: i < j < |lines| ==> ParseRuleLine(lines[j]).None? || ParseRuleLine(lines[j]).value.days != r.days
    ensures r.days in ToMap(ParseRulesFromLines(lines))
    ensures ToMap(ParseRulesFromLines(lines))[r.days] == r.rank
    ensures FloorEntry(ParseRulesFromLines(lines), r.days) == Some(r)
  {
    var es := ParsedLines(lines);
    MapSeqIndex(ParseRuleLine, lines);
    forall j | i < j < |es| && es[j].Some? ensures es[j].value.days != r.days {
      assert es[j] == ParseRuleLine(lines[j]);
    }
    BuildTableLastWins(es, i);
    FloorOfKey(ParseRulesFromLines(lines), r);
  }

  /** The table parseRules builds from the configured rule text. */
  function ParseRulesText(text: string): (t: seq<Rule>)
    ensures Sorted(t)
  {
    ParseRulesFromLines(Lines(text))
  }
}
