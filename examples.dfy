/**
 * Worked instances of the properties above, on concrete rule lines, ignore lists and
 * due rows.
 */
module Examples {
  import opened Wrappers
  import opened JavaStrings
  import opened RuleTable
  import opened RulesText
  import opened FilterSets
  import opened Evaluation

  /** A trailing '=' is dropped by the split, so "7=Recruit=" is still a rule. */
  lemma TrailingSeparatorAccepted()
    ensures ParseRuleLine("7=Recruit=") == Some(Rule(7, "Recruit"))
  {
    ParseSeven();
    PlainRank("Recruit");
    RuleLineShape("7=Recruit=", "Recruit", 1);
    AcceptedLine("7=Recruit=", "7", "Recruit", 1);
  }

  /** When two lines name the same threshold, the later one's rank is kept. */
  lemma RepeatedThresholdLastWins()
    ensures var m := ToMap(ParseRulesFromLines(["7=Recruit", "7=Corporal"]));
      7 in m && m[7] == "Corporal"
  {
    ParseSeven();
    PlainRank("Corporal");
    RuleLineShape("7=Corporal", "Corporal", 0);
    AcceptedLine("7=Corporal", "7", "Corporal", 0);
    LastLineWins(["7=Recruit", "7=Corporal"], 1, Rule(7, "Corporal"));
  }

  lemma ParseSeven()
    ensures Trim("7") == "7" && ParseInt("7") == Some(7)
  {
    TrimOfTrimmed("7");
    assert DigitsValue("7") == 7 by {
      assert "7"[..0] == "";
    }
  }

  lemma PlainRank(rank: string)
    requires rank == "Recruit" || rank == "Corporal"
    ensures Trim(rank) == rank && '=' !in rank && rank != ""
  {
    TrimOfTrimmed(rank);
  }

  lemma RuleLineShape(line: string, rank: string, k: nat)
    requires (line == "7=Corporal" && rank == "Corporal" && k == 0) || (line == "7=Recruit=" && rank == "Recruit" && k == 1)
    ensures Trim(line) == line && line == "7" + "=" + rank + Seps(k)
  {
    assert Seps(0) == "";
    assert Seps(1) == "=";
    TrimOfTrimmed(line);
  }

  /** A name already on the list in another case is not added again. */
  lemma MergeKnownName()
    ensures MergedIgnoreList(Some("Alice, Bob"), "alice") == "Alice, Bob"
  {
    var es := ["Alice", "Bob"];
    assert es[1..] == ["Bob"];
    assert Join(", ", es) == "Alice" + ", " + "Bob";
    AliceCommaBob();
    ListShape(es);
    EntriesOfJoin(es);
    AliceIgnoringCase();
  }

  /** A new name goes at the end, after ", ". */
  lemma MergeNewName()
    ensures MergedIgnoreList(Some("Alice"), "Carol") == "Alice, Carol"
  {
    var es := ["Alice"];
    ListShape(es);
    EntriesOfJoin(es);
    assert !EqualsIgnoreCase("Alice", "Carol") by {
      assert Lower("Alice")[0] != Lower("Carol")[0];
    }
    var ws := ["Alice", "Carol"];
    assert ws[1..] == ["Carol"];
  }

  lemma AliceIgnoringCase()
    ensures EqualsIgnoreCase("Alice", "alice")
  {
    var x, y := Lower("Alice"), Lower("alice");
    forall i | 0 <= i < 5 ensures x[i] == y[i] {
    }
  }

  lemma AliceCommaBob()
    ensures "Alice" + ", " + "Bob" == "Alice, Bob"
  {
  }

  /** Two short lists of plain names, in the shape the merge writes. */
  lemma ListShape(es: seq<string>)
    requires es == ["Alice", "Bob"] || es == ["Alice"]
    ensures Distinct(es) && NoComma(es)
    ensures forall e :: e in es ==> e != "" && IsTrimmed(e)
    ensures exists e :: e in es && !IsBlank(e)
  {
    assert !IsWhitespace("Alice"[0]);
    assert !IsBlank("Alice");
    assert "Alice"[0] != "Bob"[0];
  }

  /** The record keeps one target per name, so within one day a target that changes and
      changes back is notified again: three passes send Corporal, Sergeant, Corporal. */
  lemma TargetChangedBackRenotified()
    ensures var c, s := DueRow("Al", 10, "Corporal", "Recruit"), DueRow("Al", 10, "Sergeant", "Recruit");
      var d1 := NotifyAll(map[], [c], false);
      var d2 := NotifyAll(d1.notified, [s], false);
      var d3 := NotifyAll(d2.notified, [c], false);
      d1.sent == [c] && d2.sent == [s] && d3.sent == [c]
  {
    var c, s := DueRow("Al", 10, "Corporal", "Recruit"), DueRow("Al", 10, "Sergeant", "Recruit");
    assert [c][..0] == [] && [s][..0] == [];
    assert "Corporal"[0] != "Sergeant"[0];
  }

  /** Sorting by days, most first, keeps members with equal days in roster order. */
  lemma SortExample()
    ensures var a, b, c, d := DueRow("A", 10, "Corporal", "Recruit"), DueRow("B", 45, "Sergeant", "Recruit"),
                              DueRow("C", 45, "Sergeant", "Corporal"), DueRow("D", 3, "Recruit", "Not ranked");
      SortByDaysDesc([a, b, c, d]) == [b, c, a, d]
  {
    var a, b, c, d := DueRow("A", 10, "Corporal", "Recruit"), DueRow("B", 45, "Sergeant", "Recruit"),
                      DueRow("C", 45, "Sergeant", "Corporal"), DueRow("D", 3, "Recruit", "Not ranked");
    var rows := [a, b, c, d];
    assert [a, b][..1] == [a];
    assert [a, b, c][..2] == [a, b];
    assert rows[..3] == [a, b, c];
    assert SortByDaysDesc([a]) == [a];
    assert InsertByDays([a], b) == [b, a];
    assert SortByDaysDesc([a, b]) == [b, a];
    assert InsertByDays([a], c) == [c, a];
    assert InsertByDays([b, a], c) == [b] + InsertByDays([a], c);
    assert SortByDaysDesc([a, b, c]) == [b, c, a];
    assert InsertByDays([a], d) == [a, d] by {
      assert [a][1..] == [];
    }
    assert InsertByDays([c, a], d) == [c, a, d] by {
      assert [c, a][1..] == [a];
    }
    assert InsertByDays([b, c, a], d) == [b, c, a, d] by {
      assert [b, c, a][1..] == [c, a];
    }
  }
}
