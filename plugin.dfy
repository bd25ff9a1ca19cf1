/**
 * The plugin object: the rule table, the two filter sets, the mute flag and the per-day
 * notification record it keeps in fields, and the operations that rebuild them from the
 * configuration, merge a name into the ignore list, and check the clan roster.
 */
module RankUpNotifier {
  import opened Wrappers
  import opened JavaStrings
  import opened RuleTable
  import opened RulesText
  import opened FilterSets
  import opened Evaluation

  /** The configuration values the plugin reads; None stands for a null text. */
  datatype Config = Config(rules: string, eligibleRanks: Option<string>, ignoredUsers: Option<string>,
                           muteNotifications: bool)

  class Plugin {
    var rules: seq<Rule>
    var eligibleRanksSet: set<string>
    var ignoredUsersSet: set<string>
    var muteNotifications: bool
    var notifiedToday: map<string, string>
    var lastNotificationDate: Option<int>

    ghost predicate Valid()
      reads this
    {
      Sorted(rules)
    }

    /** The field values before the first configuration is read. */
    constructor ()
      ensures Valid()
      ensures rules == [] && eligibleRanksSet == {} && ignoredUsersSet == {}
      ensures muteNotifications && notifiedToday == map[] && lastNotificationDate == None
    {
      rules := [];
      eligibleRanksSet := {};
      ignoredUsersSet := {};
      muteNotifications := true;
      notifiedToday := map[];
      lastNotificationDate := None;
    }

    /** The day state the fields hold. */
    function State(): DayState
      reads this
    {
      DayState(notifiedToday, lastNotificationDate)
    }

    /**
     * csvToLowerSet: the trimmed, lower-cased, non-empty pieces of the comma split; a
     * null text gives the empty set.
     */
    static method CsvToLowerSet(s: Option<string>) returns (out: set<string>)
      ensures out == LowerTokenSet(s)
    {
      if s.None? {
        return {};
      }
      var parts := Split(s.value, ',');
      out := {};
      for i := 0 to |parts|
        invariant out == TokenSet(parts[..i])
      {
        assert parts[..i + 1] == parts[..i] + [parts[i]];
        TokenSetSnoc(parts[..i], parts[i]);
        var t := Lower(Trim(parts[i]));
        if t != "" {
          out := out + {t};
        }
      }
      assert parts[..|parts|] == parts;
    }

    /**
     * parseRules: rebuilds the rule table from the rules text, and the two filter sets
     * and the mute flag from the other settings.  The day state is untouched.
     */
    method ParseRules(cfg: Config)
      modifies this
      ensures rules == ParseRulesText(cfg.rules)
      ensures Valid()
      ensures eligibleRanksSet == LowerTokenSet(cfg.eligibleRanks)
      ensures ignoredUsersSet == LowerTokenSet(cfg.ignoredUsers)
      ensures muteNotifications == cfg.muteNotifications
      ensures notifiedToday == old(notifiedToday) && lastNotificationDate == old(lastNotificationDate)
    {
      var tmp := ReadRuleLines(cfg.rules);
      var eligible := CsvToLowerSet(cfg.eligibleRanks);
      var ignored := CsvToLowerSet(cfg.ignoredUsers);
      rules, eligibleRanksSet, ignoredUsersSet := tmp, eligible, ignored;
      muteNotifications := cfg.muteNotifications;
    }

    /**
     * The loop of parseRules: each line is trimmed; empty lines and '#' comments are
     * skipped; the rest must split on '=' into exactly two pieces whose first, trimmed,
     * is an int; the trimmed second piece is put under that key.
     */
    static method ReadRuleLines(text: string) returns (tmp: seq<Rule>)
      ensures Sorted(tmp)
      ensures tmp == ParseRulesText(text)
    {
      tmp := [];
      var lines := Lines(text);
      for i := 0 to |lines|
        invariant tmp == BuildTable(ParsedLines(lines[..i]))
      {
        MapSeqSnoc(ParseRuleLine, lines, i);
        ghost var entries := ParsedLines(lines[..i + 1]);
        BuildTableStep(entries);
        assert entries[..i] == ParsedLines(lines[..i]);
        var s := Trim(lines[i]);
        if s == [] || s[0] == '#' {
          continue;
        }
        var parts := Split(s, '=');
        if |parts| != 2 {
          continue;
        }
        var days := ParseInt(Trim(parts[0]));
        if days.None? {
          continue;
        }
        var rank := Trim(parts[1]);
        tmp := Put(tmp, days.value, rank);
      }
      assert lines[..|lines|] == lines;
    }

    /**
     * ignoreUserFromPanel: a missing or blank name does nothing.  Otherwise the trimmed
     * name is merged into the ignore list, the merged text becomes the new ignore-list
     * setting, and the rules are re-read and the roster checked again.  The login state,
     * roster and day of that deferred check are parameters.
     */
    method IgnoreUserFromPanel(cfg: Config, name: Option<string>, loggedIn: bool, clan: Option<seq<Member>>, today: int)
      returns (newCfg: Config, panel: PanelUpdate, sent: seq<DueRow>)
      requires Valid()
      modifies this
      ensures name.None? || IsBlank(name.value) ==>
        && newCfg == cfg && panel == Untouched && sent == []
        && rules == old(rules) && eligibleRanksSet == old(eligibleRanksSet)
        && ignoredUsersSet == old(ignoredUsersSet) && muteNotifications == old(muteNotifications)
        && State() == old(State())
      ensures name.Some? && !IsBlank(name.value) ==>
        && newCfg == cfg.(ignoredUsers := Some(MergedIgnoreList(cfg.ignoredUsers, Trim(name.value))))
        && rules == ParseRulesText(cfg.rules)
        && eligibleRanksSet == LowerTokenSet(cfg.eligibleRanks)
        && ignoredUsersSet == LowerTokenSet(newCfg.ignoredUsers)
        && muteNotifications == cfg.muteNotifications
        && CheckResult(panel, sent, State()) ==
           Check(rules, eligibleRanksSet, ignoredUsersSet, muteNotifications, old(State()), loggedIn, clan, today)
      ensures name.Some? && !IsBlank(name.value) && PlainName(Trim(name.value)) ==>
        && ignoredUsersSet == LowerSet(ExistingEntries(cfg.ignoredUsers)) + {Lower(Trim(name.value))}
        && (forall r :: r in sent ==> Lower(r.name) != Lower(Trim(name.value)))
        && (panel.Rows? ==> forall r :: r in panel.rows ==> Lower(r.name) != Lower(Trim(name.value)))
      ensures Valid()
    {
      if name.None? || IsBlank(name.value) {
        return cfg, Untouched, [];
      }
      newCfg, panel, sent := IgnoreName(cfg, Trim(name.value), loggedIn, clan, today);
    }

    /** The deferred part of ignoreUserFromPanel, for the trimmed name n. */
    method IgnoreName(cfg: Config, n: string, loggedIn: bool, clan: Option<seq<Member>>, today: int)
      returns (newCfg: Config, panel: PanelUpdate, sent: seq<DueRow>)
      requires Valid()
      modifies this
      ensures newCfg == cfg.(ignoredUsers := Some(MergedIgnoreList(cfg.ignoredUsers, n)))
      ensures rules == ParseRulesText(cfg.rules) && eligibleRanksSet == LowerTokenSet(cfg.eligibleRanks)
      ensures ignoredUsersSet == LowerTokenSet(newCfg.ignoredUsers) && muteNotifications == cfg.muteNotifications
      ensures CheckResult(panel, sent, State()) ==
              Check(rules, eligibleRanksSet, ignoredUsersSet, muteNotifications, old(State()), loggedIn, clan, today)
      ensures PlainName(n) ==>
        && ignoredUsersSet == LowerSet(ExistingEntries(cfg.ignoredUsers)) + {Lower(n)}
        && (forall r :: r in sent ==> Lower(r.name) != Lower(n))
        && (panel.Rows? ==> forall r :: r in panel.rows ==> Lower(r.name) != Lower(n))
      ensures Valid()
    {
      var updated := MergeIgnoreList(cfg.ignoredUsers, n);
      newCfg := cfg.(ignoredUsers := Some(updated));
      ParseRules(newCfg);
      ghost var before := State();
      panel, sent := CheckRosterAndNotify(loggedIn, clan, today);
      IgnoredNeverShown(rules, eligibleRanksSet, ignoredUsersSet, muteNotifications, before, loggedIn, clan, today);
      if PlainName(n) {
        MergeThenParse(cfg.ignoredUsers, n);
      }
    }

    /**
     * The merge inside ignoreUserFromPanel: the entries of the current list in first-seen
     * order without repeats, then the name unless an entry equals it ignoring case,
     * joined with ", ".
     */
    static method MergeIgnoreList(current: Option<string>, n: string) returns (updated: string)
      ensures updated == MergedIgnoreList(current, n)
    {
      var entries: seq<string> := [];
      if current.Some? && !IsBlank(current.value) {
        var parts := Split(current.value, ',');
        for i := 0 to |parts|
          invariant entries == CollectEntries(parts[..i])
        {
          assert parts[..i + 1][..i] == parts[..i];
          var t := Trim(parts[i]);
          if t != "" && t !in entries {
            entries := entries + [t];
          }
        }
        assert parts[..|parts|] == parts;
      }
      assert entries == ExistingEntries(current);
      var found := AnyMatch(entries, n);
      if !found {
        entries := entries + [n];
      }
      updated := Join(", ", entries);
    }

    /** Whether some entry equals the name ignoring case; the search stops at the first match. */
    static method AnyMatch(entries: seq<string>, n: string) returns (found: bool)
      ensures found <==> exists e :: e in entries && EqualsIgnoreCase(e, n)
    {
      found := false;
      var j := 0;
      while j < |entries| && !found
        invariant 0 <= j <= |entries|
        invariant found <==> exists k :: 0 <= k < j && EqualsIgnoreCase(entries[k], n)
      {
        found := EqualsIgnoreCase(entries[j], n);
        j := j + 1;
      }
    }

    /**
     * checkRosterAndNotify: nothing happens when not logged in; without a clan or without
     * rules the panel is emptied; otherwise the record is cleared on a new day, each member
     * that is due gets a row and, unless muted or already notified today for the same
     * target, a notification, and the panel shows the rows sorted by days, most first.
     */
    method CheckRosterAndNotify(loggedIn: bool, clan: Option<seq<Member>>, today: int)
      returns (panel: PanelUpdate, sent: seq<DueRow>)
      requires Valid()
      modifies this
      ensures rules == old(rules) && eligibleRanksSet == old(eligibleRanksSet)
      ensures ignoredUsersSet == old(ignoredUsersSet) && muteNotifications == old(muteNotifications)
      ensures CheckResult(panel, sent, State()) ==
              Check(rules, eligibleRanksSet, ignoredUsersSet, muteNotifications, old(State()), loggedIn, clan, today)
      ensures Valid()
    {
      if !loggedIn {
        return Untouched, [];
      }
      if clan.None? || rules == [] {
        return Rows([]), [];
      }
      if lastNotificationDate != Some(today) {
        notifiedToday := map[];
        lastNotificationDate := Some(today);
      }
      var due, record;
      due, sent, record := RosterPass(rules, eligibleRanksSet, ignoredUsersSet, muteNotifications, notifiedToday,
                                      clan.value, today);
      notifiedToday := record;
      panel := Rows(SortByDaysDesc(due));
    }

    /**
     * The roster loop: every member's row in roster order, and each row notified and
     * recorded unless muted or the record already holds its target.
     */
    static method RosterPass(rules: seq<Rule>, eligible: set<string>, ignored: set<string>, muted: bool,
                             start: map<string, string>, members: seq<Member>, today: int)
      returns (due: seq<DueRow>, sent: seq<DueRow>, record: map<string, string>)
      requires Sorted(rules)
      ensures due == DueRows(rules, eligible, ignored, today, members)
      ensures Delivery(sent, record) == NotifyAll(start, due, muted)
    {
      record := start;
      due := [];
      sent := [];
      for i := 0 to |members|
        invariant due == DueRows(rules, eligible, ignored, today, members[..i])
        invariant Delivery(sent, record) == NotifyAll(start, due, muted)
      {
        assert members[..i + 1][..i] == members[..i];
        var found := DueCheck(rules, eligible, ignored, today, members[i]);
        if found.None? {
          continue;
        }
        var row := found.value;
        NotifyAllSnoc(start, due, row, muted);
        due := due + [row];
        if (row.name !in record || record[row.name] != row.target) && !muted {
          sent := sent + [row];
          record := record[row.name := row.target];
        }
      }
      assert members[..|members|] == members;
    }

    /**
     * The body of the roster loop up to the row: members without a name, a join date, a
     * threshold at or below their tenure, or a rank title are skipped, and so are those
     * whose rank is not eligible, already the target, or who are ignored.
     */
    static method DueCheck(rules: seq<Rule>, eligible: set<string>, ignored: set<string>, today: int, m: Member)
      returns (row: Option<DueRow>)
      requires Sorted(rules)
      ensures row == MemberRow(rules, eligible, ignored, today, m)
    {
      if m.name.None? || IsBlank(m.name.value) || m.joinDay.None? {
        MemberWithoutDataSkipped(rules, eligible, ignored, today, m);
        return None;
      }
      var name := m.name.value;
      var days := today - m.joinDay.value;
      var rule := FloorEntry(rules, IntCast(days));
      if rule.None? {
        FloorEntrySpec(rules, IntCast(days));
        MemberBelowThresholdsSkipped(rules, eligible, ignored, today, m);
        return None;
      }
      if m.rankTitle.None? {
        MemberWithoutDataSkipped(rules, eligible, ignored, today, m);
      } else {
        MemberRowOfRule(rules, eligible, ignored, today, m, rule.value);
      }
      var target := rule.value.rank;
      var noRank := m.rankTitle.None?;
      var current := if noRank then NotRanked else m.rankTitle.value;
      var eligibleRank := Lower(current) in eligible;
      var correctRank := EqualsIgnoreCase(Trim(target), Trim(current));
      var inIgnoreList := Lower(name) in ignored;
      if !eligibleRank || correctRank || noRank || inIgnoreList {
        return None;
      }
      return Some(DueRow(name, days, target, current));
    }
  }
}
