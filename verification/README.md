# Verified models of cc-router

cc-router is a desktop proxy that routes AI requests over a user's subscriptions. This project
models the parts of it whose correctness is hardest to see from one function at a time, and proves
what they promise for all inputs, all runs and all reachable states. One Dafny module stands for one
component:

* **Schedule, Week, RuleLint, SlotNow**: weekly time rules of a model slot. The first matching rule
  with a model wins; windows may cross midnight and the Sunday-to-Monday border; 336 half-hour cells
  stand in for 10080 minutes; hints name rules that never take effect; the host's clock is carried
  forward between readings. The page and the server each have an evaluator of the same rules.
* **Scheduler**: the order in which a request tries its subscriptions, and the rotation that spreads
  requests over them, in list, round-robin and sticky mode.
* **Quoting, PrivilegedScript**: the privileged macOS installer prints a shell command, quotes it
  into an AppleScript string, and the command looks at the link again before it touches it. The
  readers on the other side (AppleScript literal, POSIX shell tokens, AND-OR lists) are modelled, so
  that printing can be proved to be undone.
* **PathList**: editing one's own entry of the Windows user PATH.
* **CopyInstall**: a copied executable and the marker that records its length and time, as a state
  machine over installs, uninstalls, app updates, failures and the user's own writes.
* **MarkdownLists, Markdown, MarkdownPieces**: a line-by-line reader whose nested lists are built
  through an indent stack of aliased arrays, refined against a reference that has neither stack nor
  aliases; and what the blocks hold, told from the lines alone.
* **ModelSearch**: greedy fuzzy matching and its score, ranking, and showing the best 200.
* **Receipts, ReceiptViews**: three aggregated views of a usage receipt and its filters.
* **RouteFlash**: flashes with tokens, and timers that fire late and in any order.
* **Quota, Doubles, ShorthandRounding**: printing and parsing token limits such as 2.5B, in exact
  arithmetic and in double precision.
* **SseFraming**: cutting a chunked event stream into frames.

`Wrappers`, `Sequences`, `Text`, `Arithmetic` and `StableSort` hold what several of them share.

Where the source changes state or loops, the model is a class or a method with a loop, proved against
a function of the old state; the lemmas are about that function.

`dafny verify dfyconfig.toml` checks the whole project.

## Where the code and its own words differ

The code is modelled as it is. Each difference has an exact condition and an input that shows it.

* The header of `src/lib/slotSchedule.ts` says that its evaluation is the same as the server's. It is
  not for names that begin or end with U+FEFF or U+0085: JavaScript's trim removes the first and
  Rust's the second. `Schedule.EvaluatorsAgreeIff` and `Schedule.PortableIff` say exactly when the
  two agree. A rule whose model is U+FEFF alone is not blank to the server's validation; the server
  then asks for that model and the page shows none (`Schedule.EvaluatorsDisagree`).
* `src/lib/modelSearch.ts` says that a contiguous hit always ranks above a scattered one and that 0
  means no match. The first fails for hits that start after the first 9001 characters, the second for
  hits 10000 characters in: `ModelSearch.ContiguousOutranksScatteredIff` and
  `ModelSearch.ScoreIsPositiveIff` are exact, `ModelSearch.DeepHitIsLost` shows both.
* `src-tauri/src/tui_install.rs` says of the PATH list that only one's own entry is touched. That
  holds entry by entry; the text is kept exactly when no part between semicolons is blank
  (`PathList.UninstallIsNoOpIff`, `PathList.UninstallUndoesInstall`), and removing an absent
  directory from `a;;b` leaves `a;b` (`PathList.UninstallTidiesUp`).

## What the promises rest on

Some promises hold because of an assumption that other code, or the user, keeps. The exact assumption
is proved; the inputs that break it are not ones that the running system normally produces.

* The hints about rules speak of the 336 cells, and a cell speaks for its half hour exactly if the
  rule has half-hour times (`Schedule.GridSpeaksIffAligned`, `RuleLint.PruningIsSafeIffAligned`).
  Likewise the mark "never called" is right exactly if there are no rules, the default has a model,
  or some rule can serve (`SlotNow.NeverCalledIsRightIff`). The editor offers half-hour times only,
  and saved and imported rules are validated, so a counterexample
  (`RuleLint.PruningNeedsAlignment`, `SlotNow.NeverCalledNeedsValidRules`) needs validation to be
  bypassed.
* The copied installer is safe from some state on, over all runs, exactly if its marker vouches for
  nothing but its own file there, and a write of the user's keeps it so exactly if the file does not
  match the record (`CopyInstall.SafeFromIffHonest`, `CopyInstall.UserWriteIsSafeIff`). The source
  accepts that risk, and the risk that a failed marker write makes it refuse its own copy
  (`CopyInstall.RefusedAfterMarkerFailureIff`).
* A flash key gives its subscription back exactly when the virtual model's name has no double colon
  and no colon at its end, and no virtual model's name has a colon (`RouteFlash.KeyRoundTripIff`).
* An event's data is the join of its data lines exactly when there is at most one of them or the first
  is not empty; line feeds after empty first lines are lost (`SseFraming.DataIsJoinOfAllIff`).
* Token limits are printed without loss whatever the rounding. The short form is the one of exact
  arithmetic up to a quadrillion in double precision
  (`ShorthandRounding.ShortFormSurvivesRounding`); `ShorthandRounding.RoundingSpoilsShortForm` has a larger
  limit that two decimals say precisely and that is printed in digits.

## Model

| member | source | states |
|---|---|---|
| Schedule.TimesHaveOneSpelling | src/lib/slotSchedule.ts:32-39 | a string parses to minute m exactly when it is the printed form of m and m is at most 24:00, so parsing and printing undo each other |
| Schedule.TimeIsWritten | src/lib/slotSchedule.ts:85-90 | a printed time is two digits of the hour, a colon and two digits of the minute |
| Schedule.WinnerIsFirstLive | src/lib/slotSchedule.ts:66-71 | the winner matches and has a model, and no earlier rule does both; without a winner no rule does |
| Schedule.WinningRule | src/lib/slotSchedule.ts:66-71 | the scanning loop finds that winner |
| Schedule.WinnerOfPrefix | src/lib/slotSchedule.ts:66-71 | rules further down never change who wins among the first n |
| Schedule.ModelIsFirstName | src/lib/slotSchedule.ts:73-83 | the model is the trimmed name of the first rule that matches and has one, else the trimmed default, if that is not blank |
| Schedule.RuleCoversCircularIntervals | src/lib/slotSchedule.ts:44-55 | a rule covers a moment exactly when the moment lies, modulo the 10080 minutes of a week, in the window of one of its listed days, midnight and Sunday-to-Monday crossings included |
| Schedule.AlignedRuleIsConstantOnCell | src/lib/slotSchedule.ts:93-98 | a rule with half-hour times matches at all minutes of a cell or at none |
| Schedule.GridIsExact | src/lib/slotSchedule.ts:100-105 | for such rules the model at any minute is the model of its grid cell, whatever the default |
| Schedule.CanServeIff | src/lib/slotSchedule.ts:44-71 | a rule is live at some moment exactly if its times and one of its days are usable and its model is not blank |
| Schedule.GridSpeaksIffAligned | src/lib/slotSchedule.ts:44-55 | a rule that covers something is matched alike at every minute and at the start of its cell exactly if its times are half-hour times |
| Schedule.EvaluatorsAgreeIff | src-tauri/src/subscription/schedule.rs:150-164 | the server's filter-and-find evaluator and the page's index-based one give the same model at a moment exactly when the deciding name is trimmed alike by both languages |
| Schedule.PortableIff | src/lib/slotSchedule.ts:57-60 | a name is trimmed alike exactly when it is blank, or, once the shared blanks are gone, neither end is U+FEFF or U+0085 |
| Text.BlanksAre | src/lib/slotSchedule.ts:57-60 | which characters each language's trim removes: 24 shared ones and one more each |
| Schedule.EvaluatorsDisagree | src-tauri/src/subscription/schedule.rs:155-158 | a rule whose model is U+FEFF: the server answers with that model wherever the rule matches, the page with none |
| Schedule.ServerChoiceIsFirstName | src-tauri/src/subscription/schedule.rs:148-164 | the server's choice is the trimmed name of the first matching rule that has one, with that rule's own trimmed effort, else the default and no effort |
| Week.WeekCells | src/lib/slotSchedule.ts:101-105 | the 336 cells hold the function's value at each half hour, in order |
| Week.CellsByClock | src/lib/slotSchedule.ts:92-105 | entry 48 * (d - 1) + k is the value at half hour k of day d |
| Week.GridHoldsEveryMinute | src/lib/slotSchedule.ts:100-105 | for half-hour rules the grid's entry of a minute's half hour is the model at that minute |
| Week.WeeklyHours | src/lib/slotSchedule.ts:149-154 | half the number of cells that have a model; for half-hour rules sixty times that is the number of minutes of the week that have one |
| Week.WeeklyHoursAreExact | src/lib/slotSchedule.ts:149-154 | for half-hour rules sixty times the hours is the number of the 10080 minutes that have a model |
| Week.WeeklyHoursCountMinutes | src/lib/slotSchedule.ts:148-154 | that number is the size of the set of minutes of the week that have a model |
| Week.Runs | src/lib/slotSchedule.ts:132-146 | the runs are non-empty, lie end to end over all cells, have one key each, differ from their neighbours, and carry their first cell |
| Week.ExpandUndoesRuns | src/lib/slotSchedule.ts:131-146 | expanding such runs gives back the key of every cell |
| Week.DifferingRunsAreFewest | src/lib/slotSchedule.ts:131-146 | no tiling by runs of one key each is shorter than one whose neighbours differ |
| Week.GroupDayTypes | src/lib/slotSchedule.ts:111-129 | each group lists, ascending, exactly the days that look like its first one and carries that day's cells; groups are in order of their first day; every day has a group |
| Week.GroupsPartitionByKeys | src/lib/slotSchedule.ts:107-129 | two days share a group exactly when their cells have the same keys, no day is in two groups, and a group's cells reproduce each of its days |
| Week.GroupsByClock | src/lib/slotSchedule.ts:107-129 | told by the clock: a group holds the 48 half hours of its first day and looks like each of its days, and two days share a group exactly when all their half hours look alike |
| RuleLint.WeeksEqualIffDead | src/lib/slotSchedule.ts:166-174 | comparing the week with and without the last rule finds exactly whether it wins in some cell |
| RuleLint.RuleIssues | src/lib/slotSchedule.ts:161-177 | a rule is reported exactly when it wins in no cell; reports ascend and their kind tells equal start and end from being shadowed |
| RuleLint.PruningPreservesMeaning | src/lib/slotSchedule.ts:156-177 | deleting all reported rules at once changes the model at no minute of the week for no default |
| RuleLint.PrunedListHasNoIssues | src/lib/slotSchedule.ts:156-177 | after that every rule left wins in some cell, so nothing is reported |
| RuleLint.WithoutTakes | src/lib/slotSchedule.ts:156-177 | deleting keeps exactly the rules not reported, in order |
| RuleLint.PruningIsSafeIffAligned | src/lib/slotSchedule.ts:156-177 | for a rule that can serve: deleting the reported rules is safe in every list that it forms with half-hour rules exactly if it has half-hour times itself |
| RuleLint.PruningNeedsAlignment | src/lib/slotSchedule.ts:166-173 | the witness, which validation rejects: a window of a quarter of an hour is reported although it decides those minutes |
| RuleLint.CheckDays | src/lib/slotSchedule.ts:188-194 | passes exactly distinct days from 1 to 7, else gives the fault of the first bad day |
| RuleLint.CheckRule | src/lib/slotSchedule.ts:187-203 | passes exactly valid rules, else gives the earliest failing check |
| RuleLint.ValidateRules | src/lib/slotSchedule.ts:185-205 | passes exactly at most 16 valid rules, else gives the fault of the first invalid one |
| RuleLint.ValidRulesAreAligned | src/lib/slotSchedule.ts:179-200 | validated rules have half-hour times, so the grid results apply to them |
| RuleLint.ValidRuleIsLive | src/lib/slotSchedule.ts:185-205 | a validated rule has a moment at which it matches and has a model |
| SlotNow.ViewShows | src/lib/slotNow.ts:24-33 | the model at the host's time, the reported one until that is known, and whether there are rules; missing parts count as a blank default and no rules |
| SlotNow.NeverCalledIsExact | src/lib/slotNow.ts:24-33 | for validated rules a slot is marked as never called exactly when it has no model at any minute of the week |
| SlotNow.NeverCalledIsRightIff | src/lib/slotNow.ts:24-33 | for any rules the mark is right exactly if there are none, or the default has a model, or some rule can serve |
| SlotNow.NeverCalledNeedsValidRules | src/lib/slotNow.ts:24-33 | the witness, which validation rejects: a malformed rule leaves a slot without any model unmarked |
| SlotNow.ExtrapolationIsCircular | src/hooks/useHostClock.ts:34-40 | carrying the clock forward by k minutes stays in range and is addition on the circular week |
| SlotNow.ExtrapolationComposes | src/hooks/useHostClock.ts:34-40 | carrying forward by j and then by k is carrying forward by j + k |
| SlotNow.ModelIsWeekly | src/lib/slotNow.ts:7-9 | the model a slot has at the extrapolated clock repeats every week |
| SlotNow.HostClock.Render | src/hooks/useHostClock.ts:22-40 | a reading with a new stamp replaces the noted one, nothing else does; the clock shown is the noted one moved on, around the week, by the whole minutes of 60000 milliseconds since it was noted |
| Scheduler.BuildCandidateOrder | src-tauri/src/virtual_model/scheduler.rs:45-118 | candidates and chosen place are those of the reference scan, in every mode, with a usable pin or without |
| Scheduler.CandidatesAreTheSchedulable | src-tauri/src/virtual_model/scheduler.rs:33-40 | exactly the listed subscriptions that exist, are dispatchable and have a model for the slot at this clock are tried |
| Scheduler.CandidatesAreInOrder | src-tauri/src/virtual_model/scheduler.rs:60-112 | nothing is tried twice; a usable pin comes first, all others in the order of the scan |
| Scheduler.ScanVisitsOnce | src-tauri/src/virtual_model/scheduler.rs:91-97 | every place is visited at exactly one step of the rotation |
| Scheduler.StepsGoRound | src-tauri/src/virtual_model/scheduler.rs:91-97 | step i visits place i in list order, else the place i + 1 after the one used last, around the list |
| Scheduler.PinMattersIff | src-tauri/src/virtual_model/scheduler.rs:60-88 | a pin matters exactly in sticky mode if it is listed and usable: it is tried first, the others as without it, and the rotation rests |
| Scheduler.ChosenIsNearest | src-tauri/src/virtual_model/scheduler.rs:99-117 | without a usable pin the rotation moves to the first usable place of the scan, which is the first candidate, and stays only if there is none |
| Scheduler.NothingIsChosenTwice | src-tauri/src/proxy/pipeline.rs:254-260 | over every run of round-robin and sticky requests nothing is chosen twice while a usable subscription waits, however the others come and go |
| Scheduler.WaitIsBounded | src-tauri/src/proxy/pipeline.rs:254-260 | a usable subscription is chosen before the rotation has moved as often as there are subscriptions |
| Scheduler.ListOrderStarves | src-tauri/src/virtual_model/scheduler.rs:91-92 | in list order the first subscription is chosen for as long as it is usable |
| Quoting.LiteralRoundTrip | src-tauri/src/tui_install.rs:161-163 | reading an AppleScript literal gives back the quoted string and stops at its end |
| Quoting.AdminScriptRoundTrip | src-tauri/src/tui_install.rs:166-168 | the statement for osascript carries exactly the shell command, whatever it contains |
| Quoting.ShQuoteReadsBack | src-tauri/src/tui_install.rs:156-158 | shell tokenising reads a quoted string back into the word under way, whatever the string and what follows |
| Quoting.ScriptReadsBack | src-tauri/src/tui_install.rs:176-188 | any script of bare and quoted arguments and control operators is tokenised into exactly those |
| Quoting.NestedQuotingUndoesItself | src-tauri/src/tui_install.rs:176-182 | for all paths, decoding the statement and tokenising it gives one fixed command skeleton with each path as a single word |
| Quoting.NestedUnlinkUndoesItself | src-tauri/src/tui_install.rs:185-188 | the same for the uninstall command |
| Quoting.InstallTokensAre | src-tauri/src/tui_install.rs:176-182 | that skeleton, word by word, with `ln -sfn` receiving the sidecar and the link |
| Quoting.UninstallTokensAre | src-tauri/src/tui_install.rs:185-188 | the skeleton of the uninstall command, word by word |
| PrivilegedScript.RunGuard | src-tauri/src/tui_install.rs:172-175 | the tests at the start stop the script exactly when something other than a symbolic link is in the link's place, dangling links included |
| PrivilegedScript.MakeDirsIff | src-tauri/src/tui_install.rs:176-182 | making a directory and those above it works exactly if each is missing, a directory, or a link to one; then all are there and nothing else has changed |
| PrivilegedScript.InstallScriptRechecks | src-tauri/src/tui_install.rs:170-182 | whatever is there when the text finally runs: a file or directory is left alone with status 1, else the link points to the sidecar unless a directory above it cannot be made; nothing but the link and those directories changes |
| PrivilegedScript.UninstallScriptRechecks | src-tauri/src/tui_install.rs:184-188 | the uninstall text removes a symbolic link and nothing else |
| PrivilegedScript.UninstallUndoesInstall | src-tauri/src/tui_install.rs:176-188 | uninstalling right after installing gives back the files as they were, where the directories above it were there before |
| PrivilegedScript.LevelsIff | src-tauri/src/tui_install.rs:176-182 | the directories above a path are exactly its beginnings that end before a slash or with the path |
| PrivilegedScript.InstalledDirectoriesAreThere | src-tauri/src/tui_install.rs:176-182 | after a working install the link's directory and every directory it lies in are there, and the link leads to the sidecar |
| PrivilegedScript.AsksForPrivileges | src-tauri/src/tui_install.rs:165-168 | the command is asked for with administrator privileges, as one AppleScript string |
| PathList.SpellingDoesNotMatter | src-tauri/src/tui_install.rs:199-202 | blanks around, then quotes around, then slashes of either kind at the end, and letter case do not matter to the comparison |
| PathList.EntriesAreThePartsWithText | src-tauri/src/tui_install.rs:204-206 | the entries are the parts between semicolons that hold anything but blanks, in order |
| PathList.PathWithAppendsOnce | src-tauri/src/tui_install.rs:214-222 | for a directory that is not blank and has no semicolon at most one entry is appended, only if no equal one is there, and then the directory counts as present |
| PathList.PathWithText | src-tauri/src/tui_install.rs:213-222 | the text written: the old one if the directory is there, the directory alone if there is no entry, else the old one less semicolons at its end, a semicolon and the directory |
| PathList.PathWithIsIdempotent | src-tauri/src/tui_install.rs:214-222 | adding the directory again in another spelling changes nothing |
| PathList.AddedIsFoundIff | src-tauri/src/tui_install.rs:208-222 | after adding, the directory counts as present exactly when it did before or can be one entry |
| PathList.PathWithoutRemovesExactly | src-tauri/src/tui_install.rs:225-228 | every equal entry goes, all others stay verbatim and in order, and the directory no longer counts as present |
| PathList.JoinOfEntriesIff | src-tauri/src/tui_install.rs:204-228 | rewriting the list from its entries reproduces the text exactly when no part is blank |
| PathList.UninstallUndoesInstall | src-tauri/src/tui_install.rs:214-228 | uninstalling after installing gives back every original entry in order, and the whole text exactly when it was tidy |
| PathList.UninstallIsNoOpIff | src-tauri/src/tui_install.rs:225-228 | uninstalling what is not there leaves the text alone exactly when it is tidy |
| PathList.UninstallTidiesUp | src-tauri/src/tui_install.rs:225-228 | removing an absent directory from a list with an empty part drops that part |
| PathList.UserPath.Install | src-tauri/src/tui_install.rs:622-633 | the stored value becomes the extended one and is written only if it differs, which for a proper directory is when no equal entry was there |
| PathList.UserPath.Uninstall | src-tauri/src/tui_install.rs:635-644 | the stored value becomes the reduced one and is written only if it differs |
| CopyInstall.MarkerRoundTrip | src-tauri/src/tui_install.rs:372-386 | reading a marker gives back the length and time recorded, for all 64-bit numbers |
| CopyInstall.ParseMarkerIff | src-tauri/src/tui_install.rs:375-386 | exactly texts of two 64-bit numerals, blanks between and maybe around, are markers, for those numbers |
| CopyInstall.Installer.CopyInstall | src-tauri/src/tui_install.rs:441-459 | files, marker and result after installing, for every way in which each file operation can fail |
| CopyInstall.Installer.CopyUninstall | src-tauri/src/tui_install.rs:463-474 | the same for uninstalling |
| CopyInstall.InstallAnswersIff | src-tauri/src/tui_install.rs:439-459 | install is refused exactly if the target is a link, a directory, or a file that has other bytes than the sidecar and is not recorded; it is done exactly if it is not refused and directory, copy and mode work; it fails otherwise |
| CopyInstall.InstallLeaves | src-tauri/src/tui_install.rs:441-459 | what is at the target and in the marker after each answer: a fresh copy and its record, everything as it was, or what the failure left |
| CopyInstall.UninstallAnswersIff | src-tauri/src/tui_install.rs:461-474 | uninstall fails exactly if cc-router's own file cannot be removed, and then changes nothing; another's file stays; its own goes, with the marker |
| CopyInstall.StepIsSafe | src-tauri/src/tui_install.rs:389-415 | one step keeps the marker from vouching for a user's file, and destroys only what cc-router wrote or what equals the sidecar |
| CopyInstall.RunIsHonest | src-tauri/src/tui_install.rs:350-358 | after every run of installs, uninstalls, updates, failures and user writes that do not match the record, the marker vouches only for a file that cc-router wrote |
| CopyInstall.RunIsSafe | src-tauri/src/tui_install.rs:336-347 | over every such run, whatever a step destroys was written by cc-router or equals the sidecar |
| CopyInstall.UninstallIsSafeIff | src-tauri/src/tui_install.rs:463-474 | an uninstall destroys a file that is not cc-router's to dispose of exactly if the marker vouches for it and removing works |
| CopyInstall.InstallIsSafeIff | src-tauri/src/tui_install.rs:441-459 | an install does exactly if the marker vouches for it, the directory can be made, and what is there afterwards differs |
| CopyInstall.UserFileIsSafeIff | src-tauri/src/tui_install.rs:350-354 | a file put there by the user survives a working uninstall exactly if it does not match the record or has the sidecar's bytes; an install, also if it ends with that very file |
| CopyInstall.SafeFromIffHonest | src-tauri/src/tui_install.rs:336-358 | every allowed run from a state on is safe exactly if the marker vouches for nothing but cc-router's own file in it |
| CopyInstall.UserWriteIsSafeIff | src-tauri/src/tui_install.rs:350-354 | after a write of the user's, to the target or the marker, that is so exactly if the write makes no user's file match the record |
| CopyInstall.CoincidenceIsFatal | src-tauri/src/tui_install.rs:350-354 | the witness: a user's file with the recorded length and second is deleted |
| CopyInstall.SmoothStep | src-tauri/src/tui_install.rs:441-474 | without failures and user writes each install and uninstall succeeds and leaves its own copy, or nothing, in place |
| CopyInstall.SmoothRunIsNeverRefused | src-tauri/src/tui_install.rs:343-347 | over every such run, updates included, the target is never taken for someone else's |
| CopyInstall.RefusedAfterMarkerFailureIff | src-tauri/src/tui_install.rs:355-358 | after a failed marker write the next update makes cc-router refuse its own copy exactly when it changes the bytes and what was left does not vouch for the copy |
| MarkdownLists.ParentIffNearest | src/lib/updateNotesMarkdown.ts:112-119 | an item's parent is the nearest earlier item that is indented less, and nothing else is |
| MarkdownLists.AddItemKeepsSpine | src/lib/updateNotesMarkdown.ts:112-119 | popping, pushing and appending through the aliased arrays gives the nesting of the reference; the stack keeps the path to the last item, with ascending indents, each level holding the children of the last item one level below and no array empty |
| MarkdownLists.FirstItemOnSpine | src/lib/updateNotesMarkdown.ts:108-111 | the same holds for the first item of a list |
| MarkdownLists.ChildrenCoverStretch | src/lib/updateNotesMarkdown.ts:112-119 | what lies below an item is the stretch of items that follows it, up to the next one not indented more |
| MarkdownLists.PreorderIsSourceOrder | src/lib/updateNotesMarkdown.ts:112-119 | reading a nested list from top to bottom visits every item once, in the order of the lines |
| Markdown.Reader.FlushPara | src/lib/updateNotesMarkdown.ts:65-68 | ends a pending paragraph |
| Markdown.Reader.CloseList | src/lib/updateNotesMarkdown.ts:69-73 | ends a list under way with the nesting of the reference |
| Markdown.Reader.Place | src/lib/updateNotesMarkdown.ts:112-119 | the loop over the stack and the append do what one reference step does |
| Markdown.Reader.ListItem | src/lib/updateNotesMarkdown.ts:104-120 | a list line adds exactly one item to the list under way or begins a list |
| Markdown.Reader.ContinueItem | src/lib/updateNotesMarkdown.ts:123-128 | an indented line extends the item that came last; the stack and its top array are not empty |
| Markdown.Reader.TakeLine | src/lib/updateNotesMarkdown.ts:76-130 | one line that opens no fence does what the reference says, in the order of the patterns |
| Markdown.FencedBody | src/lib/updateNotesMarkdown.ts:84-88 | the body up to the closing fence, or to the end, and where reading goes on |
| Markdown.BodyEndsAtFence | src/lib/updateNotesMarkdown.ts:86-86 | no line of a fenced body, once trimmed, starts with the fence, and the line after it, if any, does |
| Markdown.ParseMarkdown | src/lib/updateNotesMarkdown.ts:57-135 | for every input the reader ends, never reads an empty stack or array, and gives the reference's blocks |
| MarkdownPieces.WalkIsInOrder | src/lib/updateNotesMarkdown.ts:112-119 | walking a nested list gives the items in pre-order, each below the parent that the indents give it |
| MarkdownPieces.ListInSourceOrder | src/lib/updateNotesMarkdown.ts:69-73 | a closed list holds the items of its lines in their order, each below its parent |
| MarkdownPieces.BlocksKeepEveryPiece | src/lib/updateNotesMarkdown.ts:57-135 | reading the blocks from top to bottom gives what every line contributes, once and in order, with the beginning, kind and end of every list, the end of every paragraph, and the parent of every item, all told from the lines |
| MarkdownPieces.EveryParagraphIsAStretch | src/lib/updateNotesMarkdown.ts:77-80 | every paragraph is the trimmed texts of consecutive plain lines, none of them blank |
| ModelSearch.NormalizeKeeps | src/lib/modelSearch.ts:6-9 | normalising keeps exactly the characters of the lower-cased text that are neither blank nor one of six separators, in order |
| ModelSearch.GreedyIsEarliest | src/lib/modelSearch.ts:23-28 | the greedy walk succeeds whenever any embedding exists and ends no later than any |
| ModelSearch.GreedyIsOptimal | src/lib/modelSearch.ts:21-29 | greedy matching succeeds exactly on subsequences and skips the fewest characters possible |
| ModelSearch.ModelMatchScore | src/lib/modelSearch.ts:15-30 | the loop computes the score, its gaps being the end of the walk less the length of the query |
| ModelSearch.ScatteredScore | src/lib/modelSearch.ts:21-29 | a scattered hit scores 1000 less the fewest characters that any embedding skips, but at least 1 |
| ModelSearch.ContiguousScore | src/lib/modelSearch.ts:19-20 | a contiguous hit scores 10000 less the least position at which it occurs |
| ModelSearch.OtherScores | src/lib/modelSearch.ts:17-25 | an empty query scores 1, and what is no subsequence 0 |
| ModelSearch.ScoreIsPositiveIff | src/lib/modelSearch.ts:11-29 | the score is positive exactly when the query is empty, or a subsequence whose contiguous hit, if any, starts within 10000 characters |
| ModelSearch.DeepHitIsLost | src/lib/modelSearch.ts:19-20 | a contiguous hit 10000 characters in scores 0, below a scattered one |
| ModelSearch.ScoreDecidesSubsequence | src/lib/modelSearch.ts:11-29 | so for candidates of fewer than 10000 characters a positive score means a subsequence |
| ModelSearch.ScatteredScoresLow | src/lib/modelSearch.ts:11-29 | a scattered hit scores from 1 to 999 |
| ModelSearch.ContiguousOutranksScatteredIff | src/lib/modelSearch.ts:11-29 | a contiguous hit outranks every scattered one exactly when it starts within the first 9001 characters or the query is one character |
| ModelSearch.ScoresAre | src/lib/modelSearch.ts:41-47 | a model is ranked exactly if its id or display name matches or it is the one to keep, by the larger of the two scores |
| ModelSearch.RankingRanksExactly | src/lib/modelSearch.ts:41-48 | the ranking lists exactly the relevant models, without duplicates, by score and then by place |
| ModelSearch.RankingIsUnique | src/lib/modelSearch.ts:48-48 | there is only one such list |
| ModelSearch.SearchModels | src/lib/modelSearch.ts:36-53 | what is shown, and the total, come from that ranking |
| ModelSearch.ShownIsTopAndKept | src/lib/modelSearch.ts:49-51 | the first entries are the best 200, none is shown twice, and at most one follows, which is the model to keep |
| ModelSearch.ShownAreTheBest | src/lib/modelSearch.ts:48-49 | no model left out of the first entries is better than one among them |
| ModelSearch.KeptIsShown | src/lib/modelSearch.ts:32-35 | a model to keep that is in the list is shown, whatever the query |
| StableSort.SortSorts | src/lib/receipt-aggregations.ts:104-104 | sorting permutes and puts larger weights first |
| StableSort.FilterSort | src/lib/receipt-aggregations.ts:104-104 | sorting keeps ties in order, so that filtering before or after it is the same |
| StableSort.TiesKeepOrder | src/lib/receipt-aggregations.ts:104-104 | elements of equal weight stay in the order in which they came |
| StableSort.FilterTakes | src/routes/Receipts.tsx:36-41 | filtering keeps exactly the elements that satisfy the predicate, in order |
| Receipts.FillBuckets | src/lib/receipt-aggregations.ts:69-87 | the loop leaves one bucket per subscription in order of first appearance, with the names of its first sub-item, every model's sum and the subtotal |
| Receipts.GroupBySubscription | src/lib/receipt-aggregations.ts:60-106 | the groups are those of the sub-items: per subscription and model the sum over exactly its sub-items, sorted stably by tokens |
| Receipts.TotalsBySubscription | src/lib/receipt-aggregations.ts:108-127 | the rows are the sums over each subscription's sub-items, sorted stably by tokens |
| Receipts.TotalsByRealModel | src/lib/receipt-aggregations.ts:129-146 | the same per real model |
| Receipts.EverySubscriptionOnce | src/lib/receipt-aggregations.ts:56-106 | every subscription has exactly one group, most tokens first |
| Receipts.GroupLinesAreExact | src/lib/receipt-aggregations.ts:90-94 | a group lists each of its models once, most tokens first, and its subtotal is the sum of its lines |
| Receipts.GroupsMatchRows | src/lib/receipt-aggregations.ts:60-127 | the grouped view and the table list the same subscriptions with the same totals in the same order |
| Receipts.PartsSumToWhole | src/lib/receipt-aggregations.ts:11-19 | splitting by any key and summing each part loses nothing and counts nothing twice |
| Receipts.ViewsConserve | src/lib/receipt-aggregations.ts:60-146 | all three views add up, field by field, to the sum of the sub-items |
| ReceiptViews.SumIsFieldwise | src/lib/receipt-aggregations.ts:11-19 | a sum of totals is the sum of each of its five fields |
| ReceiptViews.FlattenIs | src/lib/receipt-aggregations.ts:52-54 | the sub-items of a receipt are those of its virtual models one after the other |
| ReceiptViews.FlattenHasNothingElse | src/lib/receipt-aggregations.ts:52-54 | and there are no others |
| ReceiptViews.KeysInOrder | src/lib/receipt-aggregations.ts:71-83 | keys come in the order of their first appearance |
| ReceiptViews.EveryGroupIsExact | src/lib/receipt-aggregations.ts:71-103 | a group's subtotal counts exactly its subscription's sub-items, its lines those of each model, and its names are those of the first |
| ReceiptViews.EverySubscriptionRowIsExact | src/lib/receipt-aggregations.ts:110-123 | a row counts exactly its subscription's sub-items and carries the names of the first |
| ReceiptViews.EveryModelRowIsExact | src/lib/receipt-aggregations.ts:131-142 | a model's row counts exactly the model's sub-items and shows its name |
| ReceiptViews.EveryModelOnce | src/lib/receipt-aggregations.ts:129-146 | the model table lists each model once |
| ReceiptViews.GroupsAreInOrder | src/lib/receipt-aggregations.ts:21-25 | groups come in descending order of input, output and both kinds of cache tokens |
| ReceiptViews.ModelRowsAreInOrder | src/lib/receipt-aggregations.ts:143-145 | so do the rows of the model table |
| ReceiptViews.LinesAreInOrder | src/lib/receipt-aggregations.ts:94-94 | so do the lines of a group |
| ReceiptViews.TiedGroupsKeepOrder | src/lib/receipt-aggregations.ts:104-104 | of groups with equally many tokens the one that appeared first comes first |
| Receipts.FilterItems | src/routes/Receipts.tsx:34-49 | each virtual model keeps its passing sub-items and their sum, and the running total is the sum over all that is kept |
| Receipts.ApplyFilters | src/routes/Receipts.tsx:24-56 | in the receipt and in each virtual model, sub-items stay, as often as they were there and in order, exactly if their subscription and provider are chosen, where any are, and they have a name, where deleted ones are excluded; subtotals and grand total are exact; without a filter it is the receipt itself |
| Receipts.GroupingCommutesWithFiltering | src/lib/receipt-aggregations.ts:60-106 | a filter that keeps or drops whole subscriptions can be applied before or after grouping: same groups, lines, totals and order |
| Receipts.SubscriptionFilterCommutes | src/routes/Receipts.tsx:36-41 | in particular the page's subscription filter |
| RouteFlash.FlashStore.SetFlash | src/hooks/useRouteFlash.ts:26-37 | a new token, the entry, and a timer that remembers both key and token |
| RouteFlash.FlashStore.Fire | src/hooks/useRouteFlash.ts:31-37 | a timer removes the entry only if it still has the timer's token |
| RouteFlash.FlashStore.Latest | src/hooks/useRouteFlash.ts:95-107 | the wanted entry with the largest token, in whatever order the map is visited |
| RouteFlash.WantedSubsAreTheIds | src/hooks/useRouteFlash.ts:96-99 | joining the ids with bars and splitting again gives the same ids if none has a bar and the list is not one empty id |
| RouteFlash.KeyRoundTripIff | src/hooks/useRouteFlash.ts:18-20 | a key gives back its subscription exactly when the virtual model has no double colon and does not end with a colon |
| RouteFlash.PlainModelNamesRoundTrip | src/hooks/useRouteFlash.ts:102-103 | so for every virtual model without a colon |
| RouteFlash.RunIsSound | src/hooks/useRouteFlash.ts:26-38 | over every interleaving tokens stay at most the counter, timers have distinct tokens, and every live entry has its own timer outstanding |
| RouteFlash.RunsStayTidy | src/hooks/useRouteFlash.ts:26-38 | so live tokens are distinct, and the store is dark once no timer is outstanding |
| RouteFlash.LastSetIsLast | src/hooks/useRouteFlash.ts:29-29 | the history's last flash for a key is followed by no other for that key |
| RouteFlash.StoreIsHistory | src/hooks/useRouteFlash.ts:26-38 | a key shows the last flash set for it until that flash's own timer has fired; nothing else lights it or puts it out |
| RouteFlash.StaleTimerIsHarmless | src/hooks/useRouteFlash.ts:31-37 | a late timer leaves a newer flash alone |
| RouteFlash.LatestIsMostRecent | src/hooks/useRouteFlash.ts:95-109 | over every run the aggregate query answers with the most recently set wanted flash that is still lit, and with nothing only if there is none |
| RouteFlash.TimersAreExactly | src/hooks/useRouteFlash.ts:26-38 | the timers outstanding are exactly those that were set and have not fired |
| RouteFlash.KeysDiffer | src/hooks/useRouteFlash.ts:18-20 | different pairs of a virtual model without a colon and a subscription have different keys |
| Quota.CleanedKeeps | src/lib/quota.ts:3-3 | what is parsed is the text's characters other than commas, underscores and blanks, in order |
| Quota.UnitsMean | src/lib/quota.ts:8-8 | k, m and b in either case stand for 10^3, 10^6 and 10^9 |
| Quota.DecimalReads | src/lib/quota.ts:5-10 | in exact arithmetic digits with a point and a unit read as the digits over a power of ten, times the unit, rounded |
| Quota.RoundedIsNearest | src/lib/quota.ts:9-9 | rounding is to the nearest whole number, half up |
| Quota.OnlyDecimalsAreRead | src/lib/quota.ts:5-6 | nothing but digits, or digits, a point and digits, is read as a number |
| Quota.UnlimitedIff | src/lib/quota.ts:3-4 | no limit is read exactly from a text without other characters, and is printed as nothing |
| Quota.ParsedIsSafe | src/lib/quota.ts:2-11 | a parsed number is between 1 and the largest safe integer |
| Quota.FormatIsLosslessIff | src/lib/quota.ts:13-29 | parsing what was printed gives the number back for exactly the numbers from 1 to the largest safe integer |
| Quota.ShortFormIff | src/lib/quota.ts:20-27 | in exact arithmetic the short form is printed exactly when the largest unit not exceeding the number divides a hundred times the number, else all digits are |
| Quota.PrintedText | src/lib/quota.ts:20-26 | in exact arithmetic q units and d hundredths of one are printed as both, without needless zeros, and the unit's letter |
| Quota.PrintedDigits | src/lib/quota.ts:25-28 | in exact arithmetic small numbers and those with more decimals are printed with all digits |
| Text.NoLeadingZero | src/lib/quota.ts:28-28 | a number printed in digits has no needless zero in front |
| Quota.ParseStripped | src/lib/quota.ts:24-24 | stripping trailing zeros never changes the value that is read back |
| Quota.ParseFixedCandidate | src/lib/quota.ts:24-25 | in exact arithmetic the two-decimal form, stripped of zeros, reads back as its hundredths times a hundredth of the unit |
| Quota.ParseWholeCandidate | src/lib/quota.ts:24-25 | a whole number of units reads back as the number |
| Doubles.RoundsTo | src/lib/quota.ts:7-9 | rounding to double precision has one result wherever a double is less than half a unit away |
| Doubles.WholeNumbersStay | src/lib/quota.ts:7-10 | whole numbers below 2^53 are not changed by rounding |
| ShorthandRounding.ShortFormSurvivesRounding | src/lib/quota.ts:20-27 | in double precision and up to a quadrillion, what is printed with two decimals reads back as the number exactly when the unit divides a hundred times the number, and then the decimals are those of exact arithmetic |
| ShorthandRounding.DigitsReadExactly | src/lib/quota.ts:7-10 | all digits of a safe number are read exactly in double precision |
| ShorthandRounding.LosslessWhateverTheRounding | src/lib/quota.ts:13-29 | whatever the short form is and however it reads back, printing and parsing keep exactly the safe numbers |
| ShorthandRounding.RoundingSpoilsShortForm | src/lib/quota.ts:7-9 | 4194304.65B, which says its number precisely, reads back as one token more in double precision |
| SseFraming.FramesAndLeftoverAreTheText | src-tauri/examples/chatgpt_smoke.rs:111-113 | the frames, each followed by a blank line, and the leftover are the text |
| SseFraming.FramesHaveNoSeparator | src-tauri/examples/chatgpt_smoke.rs:111-113 | no frame contains a blank line |
| SseFraming.LeftoverHasNoSeparator | src-tauri/examples/chatgpt_smoke.rs:111-113 | nor does the leftover |
| SseFraming.FramesOfMore | src-tauri/examples/chatgpt_smoke.rs:108-134 | framing what arrived and then the leftover with what arrives next is framing everything, even if a blank line is cut in two |
| SseFraming.ParseFrame | src-tauri/examples/chatgpt_smoke.rs:114-125 | the loop gives the name on the last event line, or none, and the data lines joined by line feeds from the first one on that is not empty |
| SseFraming.LinesAre | src-tauri/examples/chatgpt_smoke.rs:116-116 | lines end at line feeds, of which a carriage return before is part; an empty rest is no line |
| SseFraming.DataIsJoinOfAllIff | src-tauri/examples/chatgpt_smoke.rs:118-124 | that is the join of all data lines exactly when there is at most one of them or the first is not empty |
| SseFraming.LeadingEmptyDataIsLost | src-tauri/examples/chatgpt_smoke.rs:120-122 | the witness: an empty data line and then one with x give x without the line feed |
| SseFraming.StreamReader.Count | src-tauri/examples/chatgpt_smoke.rs:126-132 | counts and first samples stay those of the frames seen |
| SseFraming.StreamReader.Feed | src-tauri/examples/chatgpt_smoke.rs:109-133 | one chunk yields the frames that are complete and leaves the rest |
| SseFraming.ReadStream | src-tauri/examples/chatgpt_smoke.rs:102-134 | for every way of chunking, the frames, the tally and the leftover are those of the whole text |
| SseFraming.TallyIsUnique | src-tauri/examples/chatgpt_smoke.rs:126-132 | a list of frames has one tally only |
| SseFraming.CountIsSize | src-tauri/examples/chatgpt_smoke.rs:129-129 | a count is the number of frames whose event has that name |
| SseFraming.SampleIsOfFirst | src-tauri/examples/chatgpt_smoke.rs:130-132 | a sample is the first characters, up to the limit, of the data of the first such frame |
| SseFraming.ChunkingDoesNotMatter | src-tauri/examples/chatgpt_smoke.rs:102-134 | two readers fed the same text in different chunks, and the same chunks since, have the same frames, leftover, counts and samples |

## Left out

- User interface, dialogs, styles, translations, and the wrappers around the Tauri runtime.
- HTTP, OAuth, the database, the tray, quota counters and provider adapters: input and output, or plain bookkeeping.
- The affinity table behind a sticky pin: the pin is an argument of `Scheduler.BuildCandidateOrder`; cooldown, state and quota of a subscription are one flag.
- Concurrent requests that read the same rotation position before either writes it back: the runs in `Scheduler` take requests one after the other.
- `normalizeSchedules`, day presets and effort labels in the schedule code: straight-line.
- The strings of validation messages: faults are named values.
- Link states, install plans and the blocked-volume checks of the macOS installer: small finite case splits.
- PowerShell and osascript processes, base64, registry value types, and file permissions beyond success or failure.
- `link_direct` removes what is there after a separate check; no absence of races is claimed for it.
- Converting a path to text and taking its parent: the text is an argument, and so is the parent directory of `Quoting.SymlinkShell`.
- Commands other than those the two privileged scripts contain: `PrivilegedScript.Execute` gives no result for them, nor for `ln` onto a directory, which the guard excludes. Paths are texts: two texts for one place are not recognised.
- PrivilegedScript.InstallScriptRechecks: asks that the parent directory's text is shorter than the link's, because a parent's is, save for the root directory, which cannot be a link.
- Unicode lower-casing: a function argument of PathList and ModelSearch.
- Characters are single units: surrogate pairs are not modelled, and neither is normalisation.
- The regular expressions that classify a Markdown line: the class of each line is part of the input; inline markup stays text, and the pieces of a paragraph or item are listed instead of being joined by spaces. `pickNotesLang` is not part of this model.
- Aliased item arrays of the Markdown reader are named by their owner instead of being heap references.
- Maps with insertion order are a map and a list of keys; `Array.prototype.sort` is a stable insertion sort, whose result is the only one possible.
- Model identity in the search is the place in the list.
- Receipt filters by provider or by deletion can split a subscription; commuting with grouping is stated for filters that do not.
- Token counts in receipts are integers of any size.
- Quota.ShortFormIff: states the choice of the short form in exact arithmetic; in double precision it is stated up to a quadrillion by `ShorthandRounding.ShortFormSurvivesRounding`, because rounding spoils it beyond.
- Quota.ParseFixedCandidate: states in exact arithmetic what is read back, for the same reason.
- Subnormal and overflowing doubles: no limit comes near them. Ties may be rounded either way.
- Timers fire at any time after they were set: the 600 milliseconds and subscribers' notifications are not modelled.
- A chunk of the event stream that is not valid UTF-8 counts as empty, as in the code; transport errors and the 32-bit width of the counters are not modelled.
