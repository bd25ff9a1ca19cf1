/**
 * One pass of checkRosterAndNotify, as functions: which members are due, which
 * notifications go out and what the per-day record becomes, and the order the due
 * rows are shown in.
 */
module Evaluation {
  import opened Wrappers
  import opened JavaStrings
  import opened RuleTable

  /** A roster entry: the name, the join date as an epoch day, and the title of the
      member's rank in the clan settings (None when the clan has no title for it). */
  datatype Member = Member(name: Option<string>, joinDay: Option<int>, rankTitle: Option<string>)

  /** A due row: name, days in clan, target rank, current rank. */
  datatype DueRow = DueRow(name: string, days: int, target: string, current: string)

  /** What the side panel is left showing. */
  datatype PanelUpdate = Untouched | Rows(rows: seq<DueRow>)

  /** The per-day notification record: member name to the last target notified, and the
      day it belongs to. */
  datatype DayState = DayState(notifiedToday: map<string, string>, lastNotificationDate: Option<int>)

  const NotRanked: string := "Not ranked"

  /** Java's (int) cast of a long: the low 32 bits, read as two's complement. */
  function IntCast(x: int): (r: int)
    ensures InInt32(r)
    ensures InInt32(x) ==> r == x
  {
    (x + 0x8000_0000) % 0x1_0000_0000 - 0x8000_0000
  }

  /** The cast keeps the value modulo 2^32. */
  lemma IntCastCongruent(x: int)
    ensures (IntCast(x) - x) % 0x1_0000_0000 == 0
  {
  }

  /** The row a member produces, or None when the loop skips it. */
  function MemberRow(rules: seq<Rule>, eligible: set<string>, ignored: set<string>, today: int, m: Member): (row: Option<DueRow>)
    requires Sorted(rules)
    ensures row.Some? ==> m.name == Some(row.value.name) && !IsBlank(row.value.name) && m.rankTitle == Some(row.value.current)
    ensures row.Some? ==> Wanted(eligible, ignored, row.value.name, row.value.target, row.value.current)
  {
    if m.name.None? || IsBlank(m.name.value) then None
    else if m.joinDay.None? then None
    else
      var days := today - m.joinDay.value;
      match FloorEntry(rules, IntCast(days))
      case None => None
      case Some(rule) =>
        var noRank := m.rankTitle.None?;
        var current := if noRank then NotRanked else m.rankTitle.value;
        if noRank || !Wanted(eligible, ignored, m.name.value, rule.rank, current) then None
        else Some(DueRow(m.name.value, days, rule.rank, current))
  }

  /** The rank is eligible, differs from the target, and the member is not ignored. */
  predicate Wanted(eligible: set<string>, ignored: set<string>, name: string, target: string, current: string)
  {
    var eligibleRank := Lower(current) in eligible;
    var correctRank := EqualsIgnoreCase(Trim(target), Trim(current));
    var inIgnoreList := Lower(name) in ignored;
    eligibleRank && !correctRank && !inIgnoreList
  }

  /** The due rows of a roster, in roster order. */
  function DueRows(rules: seq<Rule>, eligible: set<string>, ignored: set<string>, today: int, ms: seq<Member>): (rows: seq<DueRow>)
    requires Sorted(rules)
    ensures |rows| <= |ms|
  {
    if ms == [] then []
    else
      var rows := DueRows(rules, eligible, ignored, today, ms[..|ms| - 1]);
      match MemberRow(rules, eligible, ignored, today, ms[|ms| - 1])
      case None => rows
      case Some(r) => rows + [r]
  }

  /** The notifications sent so far and the record, after some due rows. */
  datatype Delivery = Delivery(sent: seq<DueRow>, notified: map<string, string>)

  /** A due row is notified when notifications are not muted and the record does not
      already hold its target for that name; only then is the record updated. */
  function NotifyStep(d: Delivery, r: DueRow, muted: bool): (e: Delivery)
    ensures muted ==> e == d
    ensures !muted ==> r.name in e.notified && e.notified[r.name] == r.target
    ensures e.sent == d.sent || e.sent == d.sent + [r]
  {
    if !muted && (r.name !in d.notified || d.notified[r.name] != r.target)
    then Delivery(d.sent + [r], d.notified[r.name := r.target])
    else d
  }

  /** The due rows notified in order, starting from the given record. */
  function NotifyAll(notified: map<string, string>, rows: seq<DueRow>, muted: bool): (d: Delivery)
    ensures |d.sent| <= |rows|
  {
    if rows == [] then Delivery([], notified)
    else NotifyStep(NotifyAll(notified, rows[..|rows| - 1], muted), rows[|rows| - 1], muted)
  }

  /** One more due row is one more step. */
  lemma NotifyAllSnoc(notified: map<string, string>, rows: seq<DueRow>, r: DueRow, muted: bool)
    ensures NotifyAll(notified, rows + [r], muted) == NotifyStep(NotifyAll(notified, rows, muted), r, muted)
  {
    assert (rows + [r])[..|rows|] == rows;
  }

  // ---------------------------------------------------------------------------
  // Sorting by days, descending, stable

  predicate DaysDescending(rows: seq<DueRow>)
  {
    forall i, j :: 0 <= i < j < |rows| ==> rows[i].days >= rows[j].days
  }

  /** Puts r after every row with at least as many days. */
  function InsertByDays(rows: seq<DueRow>, r: DueRow): (res: seq<DueRow>)
    ensures |res| == |rows| + 1
  {
    if rows == [] then [r]
    else if rows[0].days < r.days then [r] + rows
    else [rows[0]] + InsertByDays(rows[1..], r)
  }

  /** The panel's sort: stable, most days first. */
  function SortByDaysDesc(rows: seq<DueRow>): (res: seq<DueRow>)
    ensures |res| == |rows|
  {
    if rows == [] then []
    else InsertByDays(SortByDaysDesc(rows[..|rows| - 1]), rows[|rows| - 1])
  }

  /** The rows with exactly d days, in their order. */
  function WithDays(rows: seq<DueRow>, d: int): seq<DueRow>
  {
    if rows == [] then []
    else (if rows[0].days == d then [rows[0]] else []) + WithDays(rows[1..], d)
  }

  // ---------------------------------------------------------------------------
  // One call of checkRosterAndNotify

  /** The result of one call: the panel, the notifications sent, and the day state after. */
  datatype CheckResult = CheckResult(panel: PanelUpdate, sent: seq<DueRow>, state: DayState)

  /**
   * Not logged in: nothing happens.  No clan or no rules: the panel is emptied.
   * Otherwise the record is reset on a new day, every due row is notified at most once
   * against the record, and the panel shows the rows sorted by days, most first.
   */
  function Check(rules: seq<Rule>, eligible: set<string>, ignored: set<string>, muted: bool,
                 st: DayState, loggedIn: bool, clan: Option<seq<Member>>, today: int): (res: CheckResult)
    requires Sorted(rules)
    ensures !loggedIn || clan.None? || rules == [] ==> res.sent == [] && res.state == st
    ensures loggedIn ==> res.panel.Rows?
    ensures loggedIn && clan.Some? && rules != [] ==> res.state.lastNotificationDate == Some(today)
  {
    if !loggedIn then CheckResult(Untouched, [], st)
    else if clan.None? || rules == [] then CheckResult(Rows([]), [], st)
    else
      var start := if st.lastNotificationDate == Some(today) then st.notifiedToday else map[];
      var due := DueRows(rules, eligible, ignored, today, clan.value);
      var d := NotifyAll(start, due, muted);
      CheckResult(Rows(SortByDaysDesc(due)), d.sent, DayState(d.notified, Some(today)))
  }

  // ---------------------------------------------------------------------------
  // Which members are due

  /** A member without a usable name, join date or rank title is skipped. */
  lemma MemberWithoutDataSkipped(rules: seq<Rule>, eligible: set<string>, ignored: set<string>, today: int, m: Member)
    requires Sorted(rules)
    requires m.name.None? || IsBlank(m.name.value) || m.joinDay.None? || m.rankTitle.None?
    ensures MemberRow(rules, eligible, ignored, today, m) == None
  {
  }

  /** A member whose tenure is below every threshold is skipped. */
  lemma MemberBelowThresholdsSkipped(rules: seq<Rule>, eligible: set<string>, ignored: set<string>, today: int, m: Member)
    requires Sorted(rules)
    requires m.joinDay.Some? && forall k :: k in ToMap(rules) ==> k > IntCast(today - m.joinDay.value)
    ensures MemberRow(rules, eligible, ignored, today, m) == None
  {
    FloorEntrySpec(rules, IntCast(today - m.joinDay.value));
  }

  /**
   * For a member with a name, a join date and a rank title, and the rule with the greatest
   * threshold at or below the tenure: the member is due exactly when the name is not blank,
   * the title lower-cased is an eligible rank, the trimmed target and title differ ignoring
   * case, and the lower-cased name is not ignored; the row then holds the name, the tenure,
   * that rule's rank and the title.
   */
  lemma MemberDueIff(rules: seq<Rule>, eligible: set<string>, ignored: set<string>, today: int,
                     name: string, join: int, title: string, rule: Rule)
    requires Sorted(rules)
    requires rule.days in ToMap(rules) && ToMap(rules)[rule.days] == rule.rank
    requires rule.days <= IntCast(today - join)
    requires forall k :: k in ToMap(rules) && k <= IntCast(today - join) ==> k <= rule.days
    ensures MemberRow(rules, eligible, ignored, today, Member(Some(name), Some(join), Some(title))) ==
      if !IsBlank(name) && Lower(title) in eligible && !EqualsIgnoreCase(Trim(rule.rank), Trim(title))
         && Lower(name) !in ignored
      then Some(DueRow(name, today - join, rule.rank, title))
      else None
  {
    FloorUnique(rules, IntCast(today - join), rule);
    MemberRowOfRule(rules, eligible, ignored, today, Member(Some(name), Some(join), Some(title)), rule);
  }

  /** Once the floor lookup has found a rule, the row depends only on the three tests. */
  lemma MemberRowOfRule(rules: seq<Rule>, eligible: set<string>, ignored: set<string>, today: int,
                        m: Member, rule: Rule)
    requires Sorted(rules)
    requires m.name.Some? && m.joinDay.Some? && m.rankTitle.Some?
    requires FloorEntry(rules, IntCast(today - m.joinDay.value)) == Some(rule)
    ensures MemberRow(rules, eligible, ignored, today, m) ==
      if !IsBlank(m.name.value) && Wanted(eligible, ignored, m.name.value, rule.rank, m.rankTitle.value)
      then Some(DueRow(m.name.value, today - m.joinDay.value, rule.rank, m.rankTitle.value))
      else None
  {
  }

  /** As written, an empty eligible-rank set lets no member through. */
  lemma {:induction false} EmptyEligibleSetYieldsNoRows(rules: seq<Rule>, ignored: set<string>, today: int, ms: seq<Member>)
    requires Sorted(rules)
    ensures DueRows(rules, {}, ignored, today, ms) == []
  {
    if ms != [] {
      EmptyEligibleSetYieldsNoRows(rules, ignored, today, ms[..|ms| - 1]);
    }
  }

  /** There are no more due rows than members, and each due row is the row of a member
      at or after its own position in the roster. */
  lemma {:induction false} DueRowsFromMembers(rules: seq<Rule>, eligible: set<string>, ignored: set<string>, today: int, ms: seq<Member>)
    requires Sorted(rules)
    ensures var rows := DueRows(rules, eligible, ignored, today, ms);
      |rows| <= |ms| &&
      forall i :: 0 <= i < |rows| ==> exists j :: i <= j < |ms| && MemberRow(rules, eligible, ignored, today, ms[j]) == Some(rows[i])
  {
    var rows := DueRows(rules, eligible, ignored, today, ms);
    forall i | 0 <= i < |rows| ensures exists j :: i <= j < |ms| && MemberRow(rules, eligible, ignored, today, ms[j]) == Some(rows[i]) {
      var j := DueRowSource(rules, eligible, ignored, today, ms, i);
    }
  }

  /** The position, at or after i, of the member whose row is due row i. */
  lemma {:induction false} DueRowSource(rules: seq<Rule>, eligible: set<string>, ignored: set<string>, today: int, ms: seq<Member>, i: int)
    returns (j: int)
    requires Sorted(rules) && 0 <= i < |DueRows(rules, eligible, ignored, today, ms)|
    ensures i <= j < |ms| && MemberRow(rules, eligible, ignored, today, ms[j]) == Some(DueRows(rules, eligible, ignored, today, ms)[i])
  {
    var init := ms[..|ms| - 1];
    var rows := DueRows(rules, eligible, ignored, today, init);
    var last := MemberRow(rules, eligible, ignored, today, ms[|ms| - 1]);
    var all := DueRows(rules, eligible, ignored, today, ms);
    DueRowsLast(rules, eligible, ignored, today, ms);
    if i < |rows| {
      j := DueRowSource(rules, eligible, ignored, today, init, i);
      assert all[i] == rows[i] && ms[j] == init[j];
    } else {
      assert last.Some? && all[i] == last.value && |rows| <= |init|;
      j := |ms| - 1;
    }
  }

  /** The due rows of a roster are those of all but its last member, then that member's
      row if it has one. */
  lemma DueRowsLast(rules: seq<Rule>, eligible: set<string>, ignored: set<string>, today: int, ms: seq<Member>)
    requires Sorted(rules) && ms != []
    ensures var last := MemberRow(rules, eligible, ignored, today, ms[|ms| - 1]);
      DueRows(rules, eligible, ignored, today, ms) ==
        DueRows(rules, eligible, ignored, today, ms[..|ms| - 1]) + (if last.Some? then [last.value] else [])
  {
  }

  /** The due rows of two rosters one after the other are those of the first, then those
      of the second: the pass keeps roster order. */
  lemma {:induction false} DueRowsAppend(rules: seq<Rule>, eligible: set<string>, ignored: set<string>, today: int,
                                         a: seq<Member>, b: seq<Member>)
    requires Sorted(rules)
    ensures DueRows(rules, eligible, ignored, today, a + b) ==
      DueRows(rules, eligible, ignored, today, a) + DueRows(rules, eligible, ignored, today, b)
  {
    if b == [] {
      assert a + b == a;
    } else {
      var init := b[..|b| - 1];
      DueRowsAppend(rules, eligible, ignored, today, a, init);
      assert (a + b)[..|a + b| - 1] == a + init;
      assert (a + b)[|a + b| - 1] == b[|b| - 1];
      DueRowsLast(rules, eligible, ignored, today, a + b);
      DueRowsLast(rules, eligible, ignored, today, b);
    }
  }

  /** Every member that has a row contributes it: its row is among the due rows, after
      the rows of the members before it and before those of the members after it. */
  lemma DueRowsComplete(rules: seq<Rule>, eligible: set<string>, ignored: set<string>, today: int,
                        ms: seq<Member>, j: int)
    requires Sorted(rules) && 0 <= j < |ms|
    requires MemberRow(rules, eligible, ignored, today, ms[j]).Some?
    ensures DueRows(rules, eligible, ignored, today, ms) ==
      DueRows(rules, eligible, ignored, today, ms[..j])
      + [MemberRow(rules, eligible, ignored, today, ms[j]).value]
      + DueRows(rules, eligible, ignored, today, ms[j + 1..])
    ensures MemberRow(rules, eligible, ignored, today, ms[j]).value in DueRows(rules, eligible, ignored, today, ms)
  {
    var r := MemberRow(rules, eligible, ignored, today, ms[j]).value;
    assert ms == ms[..j] + [ms[j]] + ms[j + 1..];
    DueRowsAppend(rules, eligible, ignored, today, ms[..j] + [ms[j]], ms[j + 1..]);
    DueRowsAppend(rules, eligible, ignored, today, ms[..j], [ms[j]]);
    DueRowsLast(rules, eligible, ignored, today, [ms[j]]);
    assert [ms[j]][..0] == [];
    assert DueRows(rules, eligible, ignored, today, [ms[j]]) == [r];
  }

  /** No due row belongs to an ignored name, has an ineligible current rank, or already
      has its target rank. */
  lemma DueRowsWanted(rules: seq<Rule>, eligible: set<string>, ignored: set<string>, today: int, ms: seq<Member>)
    requires Sorted(rules)
    ensures forall r :: r in DueRows(rules, eligible, ignored, today, ms) ==>
      && Lower(r.name) !in ignored
      && Lower(r.current) in eligible
      && !EqualsIgnoreCase(Trim(r.target), Trim(r.current))
  {
    var rows := DueRows(rules, eligible, ignored, today, ms);
    DueRowsFromMembers(rules, eligible, ignored, today, ms);
    forall r | r in rows ensures Wanted(eligible, ignored, r.name, r.target, r.current) {
      var i :| 0 <= i < |rows| && rows[i] == r;
      var j :| i <= j < |ms| && MemberRow(rules, eligible, ignored, today, ms[j]) == Some(rows[i]);
    }
  }

  /** Names that are unique on the roster are unique among the due rows. */
  predicate DistinctNames(ms: seq<Member>)
  {
    forall i, j :: 0 <= i < j < |ms| && ms[i].name.Some? && ms[j].name.Some? ==> ms[i].name != ms[j].name
  }

  predicate DistinctRowNames(rows: seq<DueRow>)
  {
    forall i, j :: 0 <= i < j < |rows| ==> rows[i].name != rows[j].name
  }

  lemma {:induction false} DueRowsDistinct(rules: seq<Rule>, eligible: set<string>, ignored: set<string>, today: int, ms: seq<Member>)
    requires Sorted(rules) && DistinctNames(ms)
    ensures DistinctRowNames(DueRows(rules, eligible, ignored, today, ms))
  {
    if ms != [] {
      var init := ms[..|ms| - 1];
      var last := ms[|ms| - 1];
      assert DistinctNames(init) by {
        forall i, j | 0 <= i < j < |init| ensures init[i] == ms[i] && init[j] == ms[j] { }
      }
      DueRowsDistinct(rules, eligible, ignored, today, init);
      var rows := DueRows(rules, eligible, ignored, today, init);
      var r := MemberRow(rules, eligible, ignored, today, last);
      if r.Some? {
        DueRowsFromMembers(rules, eligible, ignored, today, init);
        forall i | 0 <= i < |rows| ensures rows[i].name != r.value.name {
          var j :| i <= j < |init| && MemberRow(rules, eligible, ignored, today, init[j]) == Some(rows[i]);
          assert init[j] == ms[j];
        }
        DistinctSnoc(rows, r.value);
      }
    }
  }

  lemma DistinctSnoc(rows: seq<DueRow>, r: DueRow)
    requires DistinctRowNames(rows)
    requires forall i :: 0 <= i < |rows| ==> rows[i].name != r.name
    ensures DistinctRowNames(rows + [r])
  {
    var res := rows + [r];
    forall i, j | 0 <= i < j < |res| ensures res[i].name != res[j].name {
      assert res[i] == rows[i];
      if j < |rows| {
        assert res[j] == rows[j];
      }
    }
  }

  // ---------------------------------------------------------------------------
  // Notifications

  /** While muted nothing is sent and the record is not touched. */
  lemma {:induction false} MutedSendsNothing(notified: map<string, string>, rows: seq<DueRow>)
    ensures NotifyAll(notified, rows, true) == Delivery([], notified)
  {
    if rows != [] {
      MutedSendsNothing(notified, rows[..|rows| - 1]);
    }
  }

  /** The rows name one target per member. */
  predicate ConsistentTargets(rows: seq<DueRow>)
  {
    forall i, j :: 0 <= i < |rows| && 0 <= j < |rows| && rows[i].name == rows[j].name ==> rows[i].target == rows[j].target
  }

  /** A record that already holds every row's target: nothing is sent, nothing changes. */
  predicate Covers(notified: map<string, string>, rows: seq<DueRow>)
  {
    forall i :: 0 <= i < |rows| ==> rows[i].name in notified && notified[rows[i].name] == rows[i].target
  }

  lemma {:induction false} CoveredSendsNothing(notified: map<string, string>, rows: seq<DueRow>, muted: bool)
    requires Covers(notified, rows)
    ensures NotifyAll(notified, rows, muted) == Delivery([], notified)
  {
    if rows != [] {
      var init := rows[..|rows| - 1];
      assert Covers(notified, init) by {
        forall i | 0 <= i < |init| ensures init[i] == rows[i] { }
      }
      CoveredSendsNothing(notified, init, muted);
    }
  }

  /** Unmuted, a pass leaves the record holding every row's target. */
  lemma {:induction false} PassCovers(notified: map<string, string>, rows: seq<DueRow>)
    requires ConsistentTargets(rows)
    ensures Covers(NotifyAll(notified, rows, false).notified, rows)
  {
    if rows != [] {
      var init := rows[..|rows| - 1];
      var last := rows[|rows| - 1];
      assert ConsistentTargets(init) by {
        forall i, j | 0 <= i < |init| && 0 <= j < |init| ensures init[i] == rows[i] && init[j] == rows[j] { }
      }
      PassCovers(notified, init);
      var before := NotifyAll(notified, init, false).notified;
      var after := NotifyAll(notified, rows, false).notified;
      forall i | 0 <= i < |rows| ensures rows[i].name in after && after[rows[i].name] == rows[i].target {
        if i < |init| && rows[i].name != last.name {
          assert init[i] == rows[i];
        }
      }
    }
  }

  /** Only due rows are ever sent. */
  lemma {:induction false} SentAreRows(notified: map<string, string>, rows: seq<DueRow>, muted: bool)
    ensures forall r :: r in NotifyAll(notified, rows, muted).sent ==> r in rows
  {
    if rows != [] {
      var init := rows[..|rows| - 1];
      SentAreRows(notified, init, muted);
      assert forall r :: r in init ==> r in rows;
    }
  }

  /** Running the same rows again against the record the first run left sends nothing and
      changes nothing. */
  lemma SecondPassSilent(notified: map<string, string>, rows: seq<DueRow>, muted: bool)
    requires ConsistentTargets(rows)
    ensures var first := NotifyAll(notified, rows, muted);
      NotifyAll(first.notified, rows, muted) == Delivery([], first.notified)
  {
    if muted {
      MutedSendsNothing(notified, rows);
      MutedSendsNothing(notified, rows);
    } else {
      PassCovers(notified, rows);
      CoveredSendsNothing(NotifyAll(notified, rows, false).notified, rows, false);
    }
  }

  /** The rows whose target the record does not hold yet. */
  function Stale(notified: map<string, string>, rows: seq<DueRow>): seq<DueRow>
  {
    if rows == [] then []
    else
      var r := rows[|rows| - 1];
      Stale(notified, rows[..|rows| - 1]) + (if r.name !in notified || notified[r.name] != r.target then [r] else [])
  }

  /** The record with every row's name set to its target, in row order. */
  function Recorded(notified: map<string, string>, rows: seq<DueRow>): map<string, string>
  {
    if rows == [] then notified
    else Recorded(notified, rows[..|rows| - 1])[rows[|rows| - 1].name := rows[|rows| - 1].target]
  }

  /** Unmuted, a pass leaves each due name mapped to its target, whether or not it was sent. */
  lemma {:induction false} NotifiedIsRecorded(notified: map<string, string>, rows: seq<DueRow>)
    ensures NotifyAll(notified, rows, false).notified == Recorded(notified, rows)
  {
    if rows != [] {
      var init := rows[..|rows| - 1];
      var last := rows[|rows| - 1];
      NotifiedIsRecorded(notified, init);
      var m := Recorded(notified, init);
      if last.name in m && m[last.name] == last.target {
        assert m[last.name := last.target] == m;
      }
    }
  }

  /** A name no row carries keeps its entry, or its absence. */
  lemma {:induction false} RecordedElsewhere(notified: map<string, string>, rows: seq<DueRow>, k: string)
    requires forall i :: 0 <= i < |rows| ==> rows[i].name != k
    ensures k in Recorded(notified, rows) <==> k in notified
    ensures k in notified ==> Recorded(notified, rows)[k] == notified[k]
  {
    if rows != [] {
      var init := rows[..|rows| - 1];
      assert forall i :: 0 <= i < |init| ==> init[i] == rows[i];
      RecordedElsewhere(notified, init, k);
    }
  }

  /** The first rows of a list with unique names have unique names, none of them the last's. */
  lemma DistinctInit(rows: seq<DueRow>, init: seq<DueRow>)
    requires DistinctRowNames(rows) && rows != [] && init == rows[..|rows| - 1]
    ensures DistinctRowNames(init)
    ensures forall i :: 0 <= i < |init| ==> init[i].name != rows[|rows| - 1].name
  {
    forall i, j | 0 <= i < j < |init| ensures init[i].name != init[j].name {
      assert init[i] == rows[i] && init[j] == rows[j];
    }
    forall i | 0 <= i < |init| ensures init[i].name != rows[|rows| - 1].name {
      assert init[i] == rows[i];
    }
  }

  /** With unique names and notifications on, a pass sends exactly the rows whose target
      the record did not hold, in order. */
  lemma {:induction false} SentIsStale(notified: map<string, string>, rows: seq<DueRow>)
    requires DistinctRowNames(rows)
    ensures NotifyAll(notified, rows, false).sent == Stale(notified, rows)
  {
    if rows != [] {
      var init := rows[..|rows| - 1];
      var last := rows[|rows| - 1];
      DistinctInit(rows, init);
      SentIsStale(notified, init);
      NotifiedIsRecorded(notified, init);
      RecordedElsewhere(notified, init, last.name);
    }
  }

  /** With unique names, the record maps every row's name to that row's target. */
  lemma {:induction false} RecordedHolds(notified: map<string, string>, rows: seq<DueRow>)
    requires DistinctRowNames(rows)
    ensures forall i :: 0 <= i < |rows| ==> rows[i].name in Recorded(notified, rows) && Recorded(notified, rows)[rows[i].name] == rows[i].target
  {
    if rows != [] {
      var init := rows[..|rows| - 1];
      DistinctInit(rows, init);
      RecordedHolds(notified, init);
      forall i | 0 <= i < |init| ensures init[i] == rows[i] { }
    }
  }

  /** The record's names are the old ones and the rows' names. */
  lemma {:induction false} RecordedKeys(notified: map<string, string>, rows: seq<DueRow>)
    ensures Recorded(notified, rows).Keys == notified.Keys + (set r | r in rows :: r.name)
  {
    if rows != [] {
      var init := rows[..|rows| - 1];
      RecordedKeys(notified, init);
      assert rows == init + [rows[|rows| - 1]];
      assert (set r | r in rows :: r.name) == (set r | r in init :: r.name) + {rows[|rows| - 1].name};
    }
  }

  // ---------------------------------------------------------------------------
  // Sorting

  lemma {:induction false} InsertByDaysPerm(rows: seq<DueRow>, r: DueRow)
    ensures multiset(InsertByDays(rows, r)) == multiset(rows) + multiset{r}
  {
    if rows == [] {
      assert InsertByDays(rows, r) == [r];
    } else if rows[0].days < r.days {
      assert InsertByDays(rows, r) == [r] + rows;
    } else {
      var tail := rows[1..];
      InsertByDaysPerm(tail, r);
      assert rows == [rows[0]] + tail;
      assert multiset(rows) == multiset{rows[0]} + multiset(tail);
      assert InsertByDays(rows, r) == [rows[0]] + InsertByDays(tail, r);
    }
  }

  /** Descending by days after dropping the first row. */
  lemma DescendingTail(rows: seq<DueRow>)
    requires DaysDescending(rows) && rows != []
    ensures DaysDescending(rows[1..])
  {
    var tail := rows[1..];
    forall i, j | 0 <= i < j < |tail| ensures tail[i].days >= tail[j].days {
      assert tail[i] == rows[i + 1] && tail[j] == rows[j + 1];
    }
  }

  /** A row with at least the days of the first row of a descending list can go in front. */
  lemma DescendingPrepend(x: DueRow, rows: seq<DueRow>)
    requires DaysDescending(rows) && (rows != [] ==> x.days >= rows[0].days)
    ensures DaysDescending([x] + rows)
  {
    var res := [x] + rows;
    forall i, j | 0 <= i < j < |res| ensures res[i].days >= res[j].days {
      assert res[j] == rows[j - 1];
      if i > 0 {
        assert res[i] == rows[i - 1];
      } else {
        assert rows[0].days >= rows[j - 1].days;
      }
    }
  }

  lemma {:induction false} InsertByDaysSorted(rows: seq<DueRow>, r: DueRow)
    requires DaysDescending(rows)
    ensures DaysDescending(InsertByDays(rows, r))
  {
    if rows == [] {
    } else if rows[0].days < r.days {
      DescendingPrepend(r, rows);
    } else {
      var tail := rows[1..];
      DescendingTail(rows);
      InsertByDaysSorted(tail, r);
      var ins := InsertByDays(tail, r);
      assert ins[0] == r || ins[0] == tail[0];
      DescendingPrepend(rows[0], ins);
    }
  }

  lemma {:induction false} InsertByDaysStable(rows: seq<DueRow>, r: DueRow, d: int)
    requires DaysDescending(rows)
    ensures WithDays(InsertByDays(rows, r), d) == WithDays(rows, d) + (if r.days == d then [r] else [])
  {
    var mine := if r.days == d then [r] else [];
    if rows == [] {
      assert WithDays([r], d) == mine + WithDays([], d);
    } else if rows[0].days < r.days {
      assert InsertByDays(rows, r) == [r] + rows;
      assert ([r] + rows)[1..] == rows;
      if r.days == d {
        NoneWithDays(rows, d);
      }
    } else {
      var tail := rows[1..];
      var first := if rows[0].days == d then [rows[0]] else [];
      DescendingTail(rows);
      InsertByDaysStable(tail, r, d);
      var ins := InsertByDays(tail, r);
      calc {
        WithDays(InsertByDays(rows, r), d);
        WithDays([rows[0]] + ins, d);
        { assert ([rows[0]] + ins)[1..] == ins; }
        first + WithDays(ins, d);
        first + (WithDays(tail, d) + mine);
        first + WithDays(tail, d) + mine;
        WithDays(rows, d) + mine;
      }
    }
  }

  /** A sorted list whose first row has fewer than d days has none with d days. */
  lemma {:induction false} NoneWithDays(rows: seq<DueRow>, d: int)
    requires DaysDescending(rows) && (rows != [] ==> rows[0].days < d)
    ensures WithDays(rows, d) == []
  {
    if rows != [] {
      DescendingTail(rows);
      NoneWithDays(rows[1..], d);
    }
  }

  lemma {:induction false} WithDaysAppend(rows: seq<DueRow>, r: DueRow, d: int)
    ensures WithDays(rows + [r], d) == WithDays(rows, d) + (if r.days == d then [r] else [])
  {
    if rows != [] {
      assert (rows + [r])[1..] == rows[1..] + [r];
      WithDaysAppend(rows[1..], r, d);
    } else {
      assert [] + [r] == [r];
    }
  }

  /**
   * The due list is sorted by days, most first; it is a permutation of the rows; and the
   * rows with the same number of days stay in roster order.
   */
  lemma {:induction false} SortByDaysDescSpec(rows: seq<DueRow>)
    ensures DaysDescending(SortByDaysDesc(rows))
    ensures multiset(SortByDaysDesc(rows)) == multiset(rows)
    ensures forall d :: WithDays(SortByDaysDesc(rows), d) == WithDays(rows, d)
  {
    SortByDaysDescSorted(rows);
    SortByDaysDescPerm(rows);
    forall d ensures WithDays(SortByDaysDesc(rows), d) == WithDays(rows, d) {
      SortByDaysDescStable(rows, d);
    }
  }

  lemma {:induction false} SortByDaysDescSorted(rows: seq<DueRow>)
    ensures DaysDescending(SortByDaysDesc(rows))
  {
    if rows != [] {
      var init := rows[..|rows| - 1];
      SortByDaysDescSorted(init);
      InsertByDaysSorted(SortByDaysDesc(init), rows[|rows| - 1]);
    }
  }

  lemma {:induction false} SortByDaysDescPerm(rows: seq<DueRow>)
    ensures multiset(SortByDaysDesc(rows)) == multiset(rows)
  {
    if rows != [] {
      var init := rows[..|rows| - 1];
      var last := rows[|rows| - 1];
      SortByDaysDescPerm(init);
      InsertByDaysPerm(SortByDaysDesc(init), last);
      assert rows == init + [last];
    }
  }

  lemma {:induction false} SortByDaysDescStable(rows: seq<DueRow>, d: int)
    ensures WithDays(SortByDaysDesc(rows), d) == WithDays(rows, d)
  {
    if rows != [] {
      var init := rows[..|rows| - 1];
      var last := rows[|rows| - 1];
      SortByDaysDescStable(init, d);
      SortByDaysDescSorted(init);
      InsertByDaysStable(SortByDaysDesc(init), last, d);
      WithDaysAppend(init, last, d);
      assert rows == init + [last];
    }
  }

  // ---------------------------------------------------------------------------
  // The due rows as text, and the sort key read back from it

  /** The panel row text: name, days, target rank and current rank, separated by commas. */
  function FormatRow(r: DueRow): string
  {
    r.name + "," + ShowInt(r.days) + "," + r.target + "," + r.current
  }

  /** The comparator's key: the second comma-separated field, trimmed and parsed as an
      int; None where the comparator would throw (no second field, or not an int). */
  function SortKey(row: string): (key: Option<int>)
    ensures key.Some? ==> InInt32(key.value)
  {
    var parts := Split(row, ',');
    if |parts| < 2 then None else ParseInt(Trim(parts[1]))
  }

  lemma ShowIntShape(n: int)
    ensures ',' !in ShowInt(n) && IsTrimmed(ShowInt(n))
  {
    var s := ShowInt(n);
    var digits := if n < 0 then ShowNat(-n) else ShowNat(n);
    assert forall i :: 0 <= i < |s| ==> s[i] == '-' || IsDigit(s[i]);
    assert IsDigit(s[|s| - 1]) by {
      assert s[|s| - 1] == digits[|digits| - 1];
    }
  }

  /** Sorting the text rows by their parsed key orders them by days, as long as the name
      holds no comma and the days fit an int. */
  lemma RowSortKey(r: DueRow)
    requires ',' !in r.name && InInt32(r.days)
    ensures SortKey(FormatRow(r)) == Some(r.days)
  {
    var num := ShowInt(r.days);
    var rest := r.target + "," + r.current;
    ShowIntShape(r.days);
    var row := FormatRow(r);
    assert row == r.name + [','] + (num + [','] + rest);
    SplitAllCons(r.name, num + [','] + rest, ',');
    SplitAllCons(num, rest, ',');
    var all := SplitAll(row, ',');
    assert all[1] == num;
    assert ',' in row by { assert row[|r.name|] == ','; }
    var parts := Split(row, ',');
    assert |parts| >= 2 && parts[1] == num;
    TrimOfTrimmed(num);
    ParseShowInt(r.days);
  }

  // ---------------------------------------------------------------------------
  // Whole calls

  /** Against a record that holds none of the rows' names, every row is stale. */
  lemma {:induction false} StaleOfUnrecorded(notified: map<string, string>, rows: seq<DueRow>)
    requires forall i :: 0 <= i < |rows| ==> rows[i].name !in notified
    ensures Stale(notified, rows) == rows
  {
    if rows != [] {
      var init := rows[..|rows| - 1];
      var last := rows[|rows| - 1];
      assert forall i :: 0 <= i < |init| ==> init[i] == rows[i];
      StaleOfUnrecorded(notified, init);
      assert last.name !in notified;
      assert Stale(notified, rows) == init + [last];
      assert rows == init + [last];
    }
  }

  /**
   * With unique member names, a second call on the same day shows the same rows, sends
   * nothing and leaves the day state as the first call left it.
   */
  lemma SameDayRecheckSilent(rules: seq<Rule>, eligible: set<string>, ignored: set<string>, muted: bool,
                             st: DayState, clan: Option<seq<Member>>, today: int)
    requires Sorted(rules)
    requires clan.Some? ==> DistinctNames(clan.value)
    ensures var first := Check(rules, eligible, ignored, muted, st, true, clan, today);
      var second := Check(rules, eligible, ignored, muted, first.state, true, clan, today);
      second.sent == [] && second.state == first.state && second.panel == first.panel
  {
    if clan.Some? && rules != [] {
      var due := DueRows(rules, eligible, ignored, today, clan.value);
      DueRowsDistinct(rules, eligible, ignored, today, clan.value);
      var start := if st.lastNotificationDate == Some(today) then st.notifiedToday else map[];
      SecondPassSilent(start, due, muted);
    }
  }

  /**
   * On a new day the record starts empty: with notifications on and unique member names,
   * every due member is notified once, in roster order, and the record holds exactly the
   * due members' targets.
   */
  lemma NewDayNotifiesEveryDueMember(rules: seq<Rule>, eligible: set<string>, ignored: set<string>,
                                     st: DayState, members: seq<Member>, today: int)
    requires Sorted(rules) && rules != []
    requires st.lastNotificationDate != Some(today)
    requires DistinctNames(members)
    ensures var res := Check(rules, eligible, ignored, false, st, true, Some(members), today);
      var due := DueRows(rules, eligible, ignored, today, members);
      && res.sent == due
      && res.state.lastNotificationDate == Some(today)
      && res.state.notifiedToday.Keys == (set r | r in due :: r.name)
      && (forall r :: r in due ==> res.state.notifiedToday[r.name] == r.target)
  {
    var due := DueRows(rules, eligible, ignored, today, members);
    DueRowsDistinct(rules, eligible, ignored, today, members);
    FreshPass(due);
  }

  /** From an empty record, rows with unique names are all sent, and the record then maps
      exactly their names to their targets. */
  lemma FreshPass(rows: seq<DueRow>)
    requires DistinctRowNames(rows)
    ensures var d := NotifyAll(map[], rows, false);
      && d.sent == rows
      && d.notified.Keys == (set r | r in rows :: r.name)
      && (forall r :: r in rows ==> d.notified[r.name] == r.target)
  {
    FreshSent(rows);
    FreshRecord(rows);
  }

  lemma FreshSent(rows: seq<DueRow>)
    requires DistinctRowNames(rows)
    ensures NotifyAll(map[], rows, false).sent == rows
  {
    SentIsStale(map[], rows);
    StaleOfUnrecorded(map[], rows);
  }

  lemma FreshRecord(rows: seq<DueRow>)
    requires DistinctRowNames(rows)
    ensures var m := NotifyAll(map[], rows, false).notified;
      && m.Keys == (set r | r in rows :: r.name)
      && (forall r :: r in rows ==> m[r.name] == r.target)
  {
    NotifiedIsRecorded(map[], rows);
    RecordedKeys(map[], rows);
    RecordedHolds(map[], rows);
    var m := Recorded(map[], rows);
    forall r | r in rows ensures r.name in m && m[r.name] == r.target {
      var i :| 0 <= i < |rows| && rows[i] == r;
    }
  }

  /** A member whose lower-cased name is on the ignore list is neither notified nor shown. */
  lemma IgnoredNeverShown(rules: seq<Rule>, eligible: set<string>, ignored: set<string>, muted: bool,
                          st: DayState, loggedIn: bool, clan: Option<seq<Member>>, today: int)
    requires Sorted(rules)
    ensures var res := Check(rules, eligible, ignored, muted, st, loggedIn, clan, today);
      && (forall r :: r in res.sent ==> Lower(r.name) !in ignored)
      && (res.panel.Rows? ==> forall r :: r in res.panel.rows ==> Lower(r.name) !in ignored)
  {
    if loggedIn && clan.Some? && rules != [] {
      var start := if st.lastNotificationDate == Some(today) then st.notifiedToday else map[];
      var due := DueRows(rules, eligible, ignored, today, clan.value);
      DueRowsWanted(rules, eligible, ignored, today, clan.value);
      SentAreRows(start, due, muted);
      SortByDaysDescSpec(due);
      forall r | r in SortByDaysDesc(due) ensures r in due {
        assert r in multiset(SortByDaysDesc(due));
      }
    }
  }

  /**
   * While muted nothing is sent, and the record is only cleared at the start of a new day,
   * never written.
   */
  lemma MutedCheckRecordsNothing(rules: seq<Rule>, eligible: set<string>, ignored: set<string>,
                                 st: DayState, loggedIn: bool, clan: Option<seq<Member>>, today: int)
    requires Sorted(rules)
    ensures var res := Check(rules, eligible, ignored, true, st, loggedIn, clan, today);
      && res.sent == []
      && (res.state.notifiedToday == st.notifiedToday || res.state.notifiedToday == map[])
      && (st.lastNotificationDate == Some(today) ==> res.state.notifiedToday == st.notifiedToday)
  {
    if loggedIn && clan.Some? && rules != [] {
      var start := if st.lastNotificationDate == Some(today) then st.notifiedToday else map[];
      MutedSendsNothing(start, DueRows(rules, eligible, ignored, today, clan.value));
    }
  }
}
