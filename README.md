# Clan Rank Up Notifier: the promotion rule engine in Dafny

This project models the promotion rules of the Clan Rank Up Notifier RuneLite plugin and
proves properties of them. The plugin reads three settings:

- a rules text, with one `days=rank` threshold per line;
- a comma-separated list of eligible current ranks;
- a comma-separated ignore list.

From these it builds a rule table, which is a `TreeMap` from days to rank. Whenever the
roster is checked, each clan member's time in the clan is looked up in the table with a
floor lookup. A member is due for promotion when all of these hold:

- the threshold's rank differs from the member's current rank title, ignoring case;
- that title is eligible;
- the member is not ignored.

The plugin keeps a per-day record that maps each notified name to the last target it was
notified for. A due member is not notified again on the same day while that record holds
its current target. The record keeps only the last target per name, so a target that
changes and then changes back within one day is notified again
(`Examples.TargetChangedBackRenotified`). The panel lists the due members sorted by days
in the clan, most first.

The model follows the plugin's own shape. The class `RankUpNotifier.Plugin` holds the
plugin's six fields:

- the rule table;
- the two filter sets;
- the mute flag;
- the per-day record of notifications;
- the day of the last check.

Its methods are the plugin's `parseRules`, `csvToLowerSet`, `ignoreUserFromPanel` and
`checkRosterAndNotify`, written with the same loops. Each method is proved against a pure
specification in the modules below it:

- `JavaStrings` holds the Java string operations the plugin relies on: `trim`, `isBlank`,
  `split` (which drops trailing empty pieces), `split("\\R")`, `toLowerCase`,
  `equalsIgnoreCase`, `Integer.parseInt`, `%d` and `String.join`. The line splitter also
  records the breaks it cut at, so the text can be rebuilt from its lines.
- `RuleTable` models the `TreeMap` as a strictly ascending list of entries, with `put` and
  `floorEntry`.
- `RulesText` covers which rule lines are accepted, and how the table depends on the lines.
- `FilterSets` covers the lower-cased token sets and the ignore-list merge.
- `Evaluation` models one roster check as functions. This covers the row of each member,
  the notifications and the record, the stable sort by days, and the whole call.
- `Examples` works through concrete instances.

The code and the settings' own comments disagree about an empty eligible-rank list. The
comment on the default value of the `eligibleRanks` setting (`ClanRankUpNotifierConfig.java:20`)
says an empty list means "no filtering". The code keeps only members whose lower-cased title is in
the set, so an empty list lets nobody through. The model follows the code, and
`Evaluation.EmptyEligibleSetYieldsNoRows` states that behaviour.

## Model

| member | source | states |
|---|---|---|
| RankUpNotifier.Plugin.constructor | src/main/java/clanrankupnotifier/ClanRankUpNotifierPlugin.java:52-57 | At start the table and both sets are empty, notifications are muted, and there is no record and no last day. |
| RankUpNotifier.Plugin.ParseRules | src/main/java/clanrankupnotifier/ClanRankUpNotifierPlugin.java:95-116 | Each field becomes the rule table of the rules text, the token set of each list, or the mute setting. The table stays sorted. The per-day record and the last day are not touched. |
| RankUpNotifier.Plugin.ReadRuleLines | src/main/java/clanrankupnotifier/ClanRankUpNotifierPlugin.java:97-112 | The line loop builds exactly `ParseRulesText` of the text: each accepted line is put into the table in order, and every other line is skipped. |
| RankUpNotifier.Plugin.CsvToLowerSet | src/main/java/clanrankupnotifier/ClanRankUpNotifierPlugin.java:151-160 | A null text gives the empty set. Otherwise the result is the set of non-empty trimmed, lower-cased pieces of the comma split. |
| RankUpNotifier.Plugin.IgnoreUserFromPanel | src/main/java/clanrankupnotifier/ClanRankUpNotifierPlugin.java:118-148 | A null or blank name changes nothing. Otherwise the setting becomes the merged list, the rules and sets are re-read from it, and the roster check runs. When the trimmed name is plain, the new ignore set is the old entries' lower-cased forms plus the name's. That name then appears in neither the notifications nor the panel. |
| RankUpNotifier.Plugin.IgnoreName | src/main/java/clanrankupnotifier/ClanRankUpNotifierPlugin.java:124-146 | The deferred body for a trimmed name. It covers the new setting, the re-read fields and the check result. For a plain name it also gives the new ignore set and shows the name is neither notified nor listed. |
| RankUpNotifier.Plugin.MergeIgnoreList | src/main/java/clanrankupnotifier/ClanRankUpNotifierPlugin.java:126-141 | The loop and the match search produce `MergedIgnoreList`: the distinct trimmed entries in first-seen order, then the name unless an entry equals it ignoring case, joined with ", ". |
| RankUpNotifier.Plugin.AnyMatch | src/main/java/clanrankupnotifier/ClanRankUpNotifierPlugin.java:138 | True exactly when some entry equals the name ignoring case. |
| RankUpNotifier.Plugin.CheckRosterAndNotify | src/main/java/clanrankupnotifier/ClanRankUpNotifierPlugin.java:198-264 | The panel, the notifications and the new day state are exactly those of `Check` on the old state. The rules, the sets and the mute flag are unchanged. |
| RankUpNotifier.Plugin.RosterPass | src/main/java/clanrankupnotifier/ClanRankUpNotifierPlugin.java:220-254 | The member loop collects the due rows in roster order. The notifications and the record equal `NotifyAll` over those rows. |
| RankUpNotifier.Plugin.DueCheck | src/main/java/clanrankupnotifier/ClanRankUpNotifierPlugin.java:224-246 | The loop body's skips and its row are exactly `MemberRow`. |
| JavaStrings.Trim | src/main/java/clanrankupnotifier/ClanRankUpNotifierPlugin.java:100 | The trimmed text neither starts nor ends with a character at or below U+0020. `JavaStrings.TrimIsSlice` states what it is. |
| JavaStrings.TrimIsSlice | src/main/java/clanrankupnotifier/ClanRankUpNotifierPlugin.java:100 | `trim` returns the slice of s between a prefix and a suffix made only of characters at or below U+0020. With `JavaStrings.Trim`'s ends, this fixes the result. |
| JavaStrings.Lower | src/main/java/clanrankupnotifier/ClanRankUpNotifierPlugin.java:156 | Lower-casing keeps the length and maps each character on its own: 'A' to 'Z' move to 'a' to 'z', every other character stays. |
| JavaStrings.EqualsIgnoreCase | src/main/java/clanrankupnotifier/ClanRankUpNotifierPlugin.java:138 | Two strings that are equal ignoring case have the same length. The comparison is character by character through `JavaStrings.Lower`. |
| JavaStrings.Split | src/main/java/clanrankupnotifier/ClanRankUpNotifierPlugin.java:102 | No piece of `split(sep)` contains the separator. |
| JavaStrings.Lines | src/main/java/clanrankupnotifier/ClanRankUpNotifierPlugin.java:98 | No line of `split("\\R")` contains a line-break character. |
| JavaStrings.SplitLinesNoBreak | src/main/java/clanrankupnotifier/ClanRankUpNotifierPlugin.java:98 | No piece of the full line split contains a line-break character. |
| JavaStrings.SplitLinesJoin | src/main/java/clanrankupnotifier/ClanRankUpNotifierPlugin.java:98 | The lines rejoined with the breaks they were cut at give the text back. |
| JavaStrings.SplitLinesCrLf | src/main/java/clanrankupnotifier/ClanRankUpNotifierPlugin.java:98 | CR LF after a line without breaks is one break: the line, then the lines of the rest. |
| JavaStrings.ShowInt | src/main/java/clanrankupnotifier/ClanRankUpNotifierPlugin.java:246 | The `%d` form of a number is never empty. `JavaStrings.ParseShowInt` reads it back. |
| JavaStrings.Join | src/main/java/clanrankupnotifier/ClanRankUpNotifierPlugin.java:141 | A non-empty join starts with its first part. `JavaStrings.SplitAllJoin` and `FilterSets.SplitOfJoin` make splitting its inverse. |
| JavaStrings.TrimOfTrimmed | src/main/java/clanrankupnotifier/ClanRankUpNotifierPlugin.java:100 | `trim` leaves a string alone when it neither starts nor ends with a character at or below U+0020. |
| JavaStrings.SplitAllJoin | src/main/java/clanrankupnotifier/ClanRankUpNotifierPlugin.java:102 | Joining the split pieces with the separator gives the input back. |
| JavaStrings.ParseInt | src/main/java/clanrankupnotifier/ClanRankUpNotifierPlugin.java:106 | `Integer.parseInt` fails on the empty string and on a lone sign, and any value it returns fits in 32 bits. |
| JavaStrings.ParseIntSignDigits | src/main/java/clanrankupnotifier/ClanRankUpNotifierPlugin.java:106 | An optional '+' or '-' followed by one or more ASCII digits parses to its signed value when that value fits in 32 bits, and fails otherwise. Leading zeros are accepted. |
| JavaStrings.ParseIntShape | src/main/java/clanrankupnotifier/ClanRankUpNotifierPlugin.java:106 | Conversely, any string that parses is an optional sign followed by one or more digits, and the result is their signed value. |
| JavaStrings.ParseShowInt | src/main/java/clanrankupnotifier/ClanRankUpNotifierPlugin.java:246-258 | Parsing the `%d` form of any 32-bit value gives that value back. |
| RuleTable.Put | src/main/java/clanrankupnotifier/ClanRankUpNotifierPlugin.java:108 | `put` keeps the table sorted and adds no entry other than the new one. |
| RuleTable.PutSpec | src/main/java/clanrankupnotifier/ClanRankUpNotifierPlugin.java:108 | After `put`, the keys are the old keys plus k, and the map is the old map with k set to v. |
| RuleTable.FloorEntry | src/main/java/clanrankupnotifier/ClanRankUpNotifierPlugin.java:231 | `floorEntry` returns an entry of the table whose key is at most d, if it returns one. |
| RuleTable.FloorEntrySpec | src/main/java/clanrankupnotifier/ClanRankUpNotifierPlugin.java:231-232 | The lookup finds nothing exactly when every key is above d. A found entry is in the map with its rank, and its key is the greatest key at most d. |
| RuleTable.FloorUnique | src/main/java/clanrankupnotifier/ClanRankUpNotifierPlugin.java:231 | The entry with the greatest key at most d is the one `floorEntry(d)` returns. |
| RuleTable.FloorOfKey | src/main/java/clanrankupnotifier/ClanRankUpNotifierPlugin.java:231 | Looking up a key that is present finds that key's own entry. |
| RulesText.ParseRuleLine | src/main/java/clanrankupnotifier/ClanRankUpNotifierPlugin.java:100-109 | A line gives a rule only when its trimmed form is non-empty and does not start with '#'. The rule's threshold fits in 32 bits, and its rank is trimmed and holds no '='. |
| RulesText.BuildTable | src/main/java/clanrankupnotifier/ClanRankUpNotifierPlugin.java:97-111 | Putting the accepted entries in order yields a sorted table. |
| RulesText.ParseRulesText | src/main/java/clanrankupnotifier/ClanRankUpNotifierPlugin.java:95-111 | The table built from the rules text is sorted. |
| RulesText.SplitTwo | src/main/java/clanrankupnotifier/ClanRankUpNotifierPlugin.java:102-103 | `a=b` followed by any number of '=' splits into exactly [a, b] when a and b contain no '=' and b is not empty. |
| RulesText.AcceptedLine | src/main/java/clanrankupnotifier/ClanRankUpNotifierPlugin.java:98-110 | A line whose trimmed form is `a=b` plus trailing '=', and which does not start with '#', gives the rule (parseInt(trim a), trim b) when a parses. If a does not parse, the line is skipped. |
| RulesText.SplitTwoShape | src/main/java/clanrankupnotifier/ClanRankUpNotifierPlugin.java:102-103 | Conversely, a split into two pieces means the text is piece0 '=' piece1 followed only by '='. Neither piece contains '=', and piece1 is not empty. |
| RulesText.AcceptedLineShape | src/main/java/clanrankupnotifier/ClanRankUpNotifierPlugin.java:98-110 | Every accepted line has that shape. |
| RulesText.SkippedEntryChangesNothing | src/main/java/clanrankupnotifier/ClanRankUpNotifierPlugin.java:101-106 | A skipped entry anywhere in the sequence leaves the built table as the other entries make it. |
| RulesText.SkippedLineChangesNothing | src/main/java/clanrankupnotifier/ClanRankUpNotifierPlugin.java:98-110 | A rejected line anywhere in the text leaves the table as the other lines make it. |
| RulesText.ParsedLinesAppend | src/main/java/clanrankupnotifier/ClanRankUpNotifierPlugin.java:98 | Lines are parsed one by one, independently. |
| RulesText.BuildTableKeys | src/main/java/clanrankupnotifier/ClanRankUpNotifierPlugin.java:97-112 | A key is in the built table exactly when some entry names it. |
| RulesText.BuildTableLastWins | src/main/java/clanrankupnotifier/ClanRankUpNotifierPlugin.java:108 | A key holds the rank of the last entry that names it. |
| RulesText.TableKeys | src/main/java/clanrankupnotifier/ClanRankUpNotifierPlugin.java:95-112 | A threshold is in the table exactly when some accepted line names it. |
| RulesText.LastLineWins | src/main/java/clanrankupnotifier/ClanRankUpNotifierPlugin.java:95-112 | A threshold holds the rank of the last accepted line that names it, and a floor lookup of that threshold returns that rule. |
| FilterSets.TokenSet | src/main/java/clanrankupnotifier/ClanRankUpNotifierPlugin.java:151-160 | Every token is non-empty, trimmed and already lower case. |
| FilterSets.LowerTokenSet | src/main/java/clanrankupnotifier/ClanRankUpNotifierPlugin.java:151-160 | A text without a comma gives the single token of its trimmed, lower-cased form, or no token when that is empty. |
| FilterSets.CollectEntries | src/main/java/clanrankupnotifier/ClanRankUpNotifierPlugin.java:126-135 | Every collected entry is non-empty and trimmed. |
| FilterSets.ExistingEntries | src/main/java/clanrankupnotifier/ClanRankUpNotifierPlugin.java:126-135 | Every entry read from the current list is non-empty and trimmed. |
| FilterSets.WithName | src/main/java/clanrankupnotifier/ClanRankUpNotifierPlugin.java:138-139 | When some entry equals the name ignoring case, the entries are unchanged. Otherwise the name is appended at the end. Either way, some entry then equals the name ignoring case. |
| FilterSets.TokenSetSnoc | src/main/java/clanrankupnotifier/ClanRankUpNotifierPlugin.java:155-158 | One more piece adds its lower-cased trimmed form, unless that form is empty. |
| FilterSets.TokenSetIgnoresTrailingEmpty | src/main/java/clanrankupnotifier/ClanRankUpNotifierPlugin.java:153 | The trailing pieces dropped by `split` never hold a token. |
| FilterSets.CollectDistinct | src/main/java/clanrankupnotifier/ClanRankUpNotifierPlugin.java:127-135 | The insertion-ordered set holds no repeats. |
| FilterSets.CollectMembers | src/main/java/clanrankupnotifier/ClanRankUpNotifierPlugin.java:131-135 | An entry is present exactly when it is non-empty and some piece trims to it. |
| FilterSets.CollectOrder | src/main/java/clanrankupnotifier/ClanRankUpNotifierPlugin.java:127 | Entries appear in the order of their first occurrence among the pieces. |
| FilterSets.SplitOfJoin | src/main/java/clanrankupnotifier/ClanRankUpNotifierPlugin.java:131-141 | For a non-empty list of comma-free entries whose last entry is not empty, splitting their ", " join on ',' gives the entries, each after the first with its leading space. |
| FilterSets.CollectOfTrimmed | src/main/java/clanrankupnotifier/ClanRankUpNotifierPlugin.java:131-135 | Pieces that trim to distinct non-empty entries are collected as exactly those entries. |
| FilterSets.EntriesOfJoin | src/main/java/clanrankupnotifier/ClanRankUpNotifierPlugin.java:126-141 | For distinct, comma-free, non-empty, trimmed entries of which at least one is not blank, reading back the written list gives the entries that were written. |
| FilterSets.ExistingEntriesShape | src/main/java/clanrankupnotifier/ClanRankUpNotifierPlugin.java:126-135 | The entries read from the current list are distinct, comma-free, non-empty and trimmed. |
| FilterSets.WithNameShape | src/main/java/clanrankupnotifier/ClanRankUpNotifierPlugin.java:138-139 | For a plain name (non-empty, trimmed, not blank, without a comma), the merged list holds an entry that equals the name ignoring case. Its entries are distinct, comma-free, non-empty and trimmed, and one is not blank. |
| FilterSets.MergeIdempotent | src/main/java/clanrankupnotifier/ClanRankUpNotifierPlugin.java:124-141 | For a plain name (non-empty, trimmed, not blank, without a comma), ignoring the same name twice writes the same list as ignoring it once. A name with a comma would be split on the second read. |
| FilterSets.TokensOfJoin | src/main/java/clanrankupnotifier/ClanRankUpNotifierPlugin.java:151-160 | For a non-empty list of comma-free, non-empty, trimmed entries, `csvToLowerSet` of their ", " join is the set of the entries' lower-cased forms. |
| FilterSets.MergeThenParse | src/main/java/clanrankupnotifier/ClanRankUpNotifierPlugin.java:141-145 | For a plain name (non-empty, trimmed, not blank, without a comma), the re-read ignore set after the merge is the old entries' lower-cased forms plus the name's. |
| FilterSets.WithNameLowerSet | src/main/java/clanrankupnotifier/ClanRankUpNotifierPlugin.java:138-145 | The lower-cased forms after the merge are the old ones plus the name's. |
| FilterSets.ExistingEntriesTokens | src/main/java/clanrankupnotifier/ClanRankUpNotifierPlugin.java:129-135 | The merge and `csvToLowerSet` read the same names from a non-blank list, up to case. |
| Evaluation.IntCast | src/main/java/clanrankupnotifier/ClanRankUpNotifierPlugin.java:231 | `(int) days` gives a 32-bit value and is the identity on 32-bit values. |
| Evaluation.IntCastCongruent | src/main/java/clanrankupnotifier/ClanRankUpNotifierPlugin.java:231 | The cast keeps the value modulo 2^32. |
| Evaluation.MemberRow | src/main/java/clanrankupnotifier/ClanRankUpNotifierPlugin.java:224-246 | A member's row holds the member's non-blank name and its rank title, and passes the eligibility, target and ignore tests. |
| Evaluation.DueRows | src/main/java/clanrankupnotifier/ClanRankUpNotifierPlugin.java:220-246 | There are no more due rows than members. `Evaluation.DueRowsAppend` and `Evaluation.DueRowsComplete` state that every member with a row contributes it, in roster order; `Evaluation.DueRowsFromMembers` and `Evaluation.DueRowsWanted` state where the rows come from and what they satisfy. |
| Evaluation.NotifyStep | src/main/java/clanrankupnotifier/ClanRankUpNotifierPlugin.java:247-253 | Muted, nothing changes. Unmuted, the record maps the row's name to its target. At most this row is sent. |
| Evaluation.NotifyAll | src/main/java/clanrankupnotifier/ClanRankUpNotifierPlugin.java:247-253 | At most one notification is sent per due row. `Evaluation.SentIsStale` and `Evaluation.NotifiedIsRecorded` state which rows are sent and what the record becomes. |
| Evaluation.Check | src/main/java/clanrankupnotifier/ClanRankUpNotifierPlugin.java:198-263 | Logged out, with no clan or with no rules, nothing is sent and the day state is kept. Logged in, the panel gets a list of rows. A full check stamps today as the last notification day. |
| Evaluation.MemberWithoutDataSkipped | src/main/java/clanrankupnotifier/ClanRankUpNotifierPlugin.java:224-244 | A member with no name, a blank name, no join date or no rank title is skipped. |
| Evaluation.MemberBelowThresholdsSkipped | src/main/java/clanrankupnotifier/ClanRankUpNotifierPlugin.java:230-232 | A member whose tenure is below every threshold is skipped. |
| Evaluation.MemberDueIff | src/main/java/clanrankupnotifier/ClanRankUpNotifierPlugin.java:224-246 | Given the rule with the greatest threshold at or below the cast tenure, a member is due exactly when all four tests pass: the name is not blank, the title is eligible, target and title differ ignoring case after trimming, and the name is not ignored. The row then holds the name, the tenure, the rule's rank and the title. |
| Evaluation.MemberRowOfRule | src/main/java/clanrankupnotifier/ClanRankUpNotifierPlugin.java:230-246 | For a member with a name, a join day and a title, whose cast tenure has the floor rule r, the row is (name, tenure, r's rank, title) exactly when the name is not blank and the tests at line 244 pass. Otherwise there is no row. |
| Evaluation.EmptyEligibleSetYieldsNoRows | src/main/java/clanrankupnotifier/ClanRankUpNotifierPlugin.java:240-244 | With an empty eligible set, no member is due. |
| Evaluation.DueRowsFromMembers | src/main/java/clanrankupnotifier/ClanRankUpNotifierPlugin.java:222-246 | Every due row comes from a member at or after its own position in the roster. |
| Evaluation.DueRowsAppend | src/main/java/clanrankupnotifier/ClanRankUpNotifierPlugin.java:220-246 | The due rows of one roster followed by another are the first roster's rows followed by the second's, so the pass keeps roster order. |
| Evaluation.DueRowsComplete | src/main/java/clanrankupnotifier/ClanRankUpNotifierPlugin.java:220-246 | A member with a row contributes it: the due rows are those of the members before it, then its row, then those of the members after it. |
| Evaluation.DueRowsWanted | src/main/java/clanrankupnotifier/ClanRankUpNotifierPlugin.java:240-244 | No due row is ignored, has an ineligible title, or already has its target rank. |
| Evaluation.DueRowsDistinct | src/main/java/clanrankupnotifier/ClanRankUpNotifierPlugin.java:222-246 | When roster names are unique, due-row names are unique. |
| Evaluation.MutedSendsNothing | src/main/java/clanrankupnotifier/ClanRankUpNotifierPlugin.java:248 | While muted, nothing is sent and the record is not written. |
| Evaluation.SentAreRows | src/main/java/clanrankupnotifier/ClanRankUpNotifierPlugin.java:246-253 | Only due rows are notified. |
| Evaluation.CoveredSendsNothing | src/main/java/clanrankupnotifier/ClanRankUpNotifierPlugin.java:247-253 | A record that already holds every row's target sends nothing and changes nothing. |
| Evaluation.PassCovers | src/main/java/clanrankupnotifier/ClanRankUpNotifierPlugin.java:247-253 | When rows with the same name have the same target, an unmuted pass leaves the record holding every row's target. |
| Evaluation.SecondPassSilent | src/main/java/clanrankupnotifier/ClanRankUpNotifierPlugin.java:247-253 | When rows with the same name have the same target, passing the same rows again against the resulting record sends nothing and changes nothing. |
| Evaluation.NotifiedIsRecorded | src/main/java/clanrankupnotifier/ClanRankUpNotifierPlugin.java:247-253 | After an unmuted pass, the record is the old record with each due name set to its target, later rows overriding earlier ones. |
| Evaluation.SentIsStale | src/main/java/clanrankupnotifier/ClanRankUpNotifierPlugin.java:247-253 | With unique names, a pass sends exactly the rows whose target the record did not hold, in order. |
| Evaluation.RecordedHolds | src/main/java/clanrankupnotifier/ClanRankUpNotifierPlugin.java:252 | With unique names, the record maps every row's name to its target. |
| Evaluation.RecordedKeys | src/main/java/clanrankupnotifier/ClanRankUpNotifierPlugin.java:252 | The record's names are the old names plus the rows' names. |
| Evaluation.InsertByDaysPerm | src/main/java/clanrankupnotifier/ClanRankUpNotifierPlugin.java:256-260 | Inserting a row adds exactly that row. |
| Evaluation.InsertByDaysSorted | src/main/java/clanrankupnotifier/ClanRankUpNotifierPlugin.java:256-260 | Inserting into a list sorted by days, most first, keeps it sorted. |
| Evaluation.InsertByDaysStable | src/main/java/clanrankupnotifier/ClanRankUpNotifierPlugin.java:256-260 | The inserted row goes after every row with the same days. |
| Evaluation.InsertByDays | src/main/java/clanrankupnotifier/ClanRankUpNotifierPlugin.java:256-260 | Inserting adds exactly one row. `Evaluation.InsertByDaysPerm`, `Evaluation.InsertByDaysSorted` and `Evaluation.InsertByDaysStable` state which row, where, and in what order. |
| Evaluation.SortByDaysDesc | src/main/java/clanrankupnotifier/ClanRankUpNotifierPlugin.java:256-260 | Sorting keeps the number of rows. `Evaluation.SortByDaysDescSpec` states that the result is sorted, a permutation and stable. |
| Evaluation.SortByDaysDescSpec | src/main/java/clanrankupnotifier/ClanRankUpNotifierPlugin.java:256-260 | The panel list is sorted by days, most first. It is a permutation of the due rows, and rows with equal days keep roster order. |
| Evaluation.SortKey | src/main/java/clanrankupnotifier/ClanRankUpNotifierPlugin.java:257-258 | A key read back by the comparator fits in 32 bits. |
| Evaluation.RowSortKey | src/main/java/clanrankupnotifier/ClanRankUpNotifierPlugin.java:246-260 | The comparator's key read from a formatted row is the row's days, provided the name has no comma and the days fit in 32 bits. |
| Evaluation.StaleOfUnrecorded | src/main/java/clanrankupnotifier/ClanRankUpNotifierPlugin.java:247-248 | Against a record holding none of the names, every row is stale. |
| Evaluation.SameDayRecheckSilent | src/main/java/clanrankupnotifier/ClanRankUpNotifierPlugin.java:213-263 | With unique roster names, a second check on the same day shows the same panel and sends nothing. It also leaves the day state unchanged. |
| Evaluation.NewDayNotifiesEveryDueMember | src/main/java/clanrankupnotifier/ClanRankUpNotifierPlugin.java:213-253 | On a new day, unmuted, with unique names, every due member is notified once in roster order. The record then holds exactly the due names with their targets. |
| Evaluation.FreshPass | src/main/java/clanrankupnotifier/ClanRankUpNotifierPlugin.java:247-253 | From an empty record, rows with unique names are all sent, and the record maps exactly their names to their targets. |
| Evaluation.IgnoredNeverShown | src/main/java/clanrankupnotifier/ClanRankUpNotifierPlugin.java:242-263 | A member whose lower-cased name is in the ignore set is neither notified nor listed. |
| Evaluation.MutedCheckRecordsNothing | src/main/java/clanrankupnotifier/ClanRankUpNotifierPlugin.java:213-253 | While muted, a check sends nothing. The record is only ever cleared at the start of a new day, never written. |
| Examples.TrailingSeparatorAccepted | src/main/java/clanrankupnotifier/ClanRankUpNotifierPlugin.java:102-108 | "7=Recruit=" is accepted as (7, "Recruit"), because `split` drops the trailing empty piece. |
| Examples.RepeatedThresholdLastWins | src/main/java/clanrankupnotifier/ClanRankUpNotifierPlugin.java:108 | For the lines "7=Recruit" and "7=Corporal", threshold 7 maps to "Corporal". |
| Examples.MergeKnownName | src/main/java/clanrankupnotifier/ClanRankUpNotifierPlugin.java:138-141 | Ignoring "alice" leaves "Alice, Bob" as it is. |
| Examples.MergeNewName | src/main/java/clanrankupnotifier/ClanRankUpNotifierPlugin.java:138-141 | Ignoring "Carol" turns "Alice" into "Alice, Carol". |
| Examples.TargetChangedBackRenotified | src/main/java/clanrankupnotifier/ClanRankUpNotifierPlugin.java:247-253 | Within one day, a member whose target goes Corporal, Sergeant, Corporal over three passes is notified all three times, because the record keeps only the last target. |
| Examples.SortExample | src/main/java/clanrankupnotifier/ClanRankUpNotifierPlugin.java:256-260 | Rows with 10, 45, 45 and 3 days are listed as 45, 45, 10, 3, with the two 45s in roster order. |

## Left out

- The panel, the navigation button, the icon, the plugin descriptor, start-up and shut-down, the `@Provides` config binding and the three event subscribers are not part of this model. They only schedule the modelled operations or draw their results.
- `clientThread.invokeLater` is not modelled. A deferred call is modelled as a call made at once, with the login state, roster and day it will see passed in as parameters.
- `getClan` and `getJoinDate` read the game client and are not part of this model. A clan is an optional list of members, each with an optional name, join day and rank title. `titleForRank` is folded into that title.
- `LocalDate.now()` is the parameter `today`, and dates are whole days since an epoch. `ChronoUnit.DAYS.between` is then a subtraction.
- `configManager.setConfiguration` is modelled by returning the updated `Config`. It writes the key "ignorelist", which is the key of the ignore-list setting.
- The notifier's message text and the `LOG` lines are left out. A notification is the due row it is sent for.
- `runManualCheck` and its busy indicator are left out.
- Thread safety (`volatile`, `HashMap` under concurrent access) is not modelled.
- RankUpNotifier.Plugin.RosterPass: the record is updated in a local map and stored back into the field once after the loop, rather than one `put` at a time. Nothing else reads the field while the loop runs.
- Evaluation.SortByDaysDesc: `List.sort` on the formatted rows is modelled as a stable insertion sort of the rows by days, most first. `Evaluation.RowSortKey` connects the two when the name has no comma and the days fit in 32 bits. A name containing a comma, or a tenure beyond 32 bits, would make the comparator read the wrong field or throw. Clan member names cannot contain commas.
- JavaStrings.Lower: `toLowerCase` and `equalsIgnoreCase` are modelled for ASCII letters only. Other letters are left as they are.
- JavaStrings.IsWhitespace: `isBlank` uses `Character.isWhitespace`. This is modelled as the ASCII whitespace, the separators U+001C to U+001F, and the Unicode space characters except the no-break spaces.
- JavaStrings.ParseInt: only the ASCII digits '0' to '9' are accepted. Java also accepts digits from other scripts.
- Lines: the line terminators of `\R` are modelled (CRLF, LF, VT, FF, CR, NEL, U+2028, U+2029).
- Strings are sequences of Unicode scalar values. Java's UTF-16 view is not modelled: a supplementary character is one character here and two in Java, and there are no lone surrogates. The plugin never uses a string length or a character index, so no modelled result depends on this. Every character the model tests (whitespace, line breaks, digits, ',', '=', '#', 'A' to 'Z') is in the Basic Multilingual Plane, so each test sees the same characters either way.
