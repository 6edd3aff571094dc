# Chronos life dashboard — a Dafny model of its core

Chronos is a personal "life clock": a React front end over a local service
layer (`backend.ts`) that keeps every record in browser storage, plus a small
Python authentication API (`backend/api/login.py`). This project models the
core of that system as pure Dafny functions over an explicit store and proves
what the code promises about it.

What is modelled:

- **The record store** (`RecordStore`): `apiRequest` reads a record or its
  per-endpoint seed on GET, replaces it on POST/PUT, and fails on any other
  verb.
- **The six core attributes** (`AttributeEngine`):
  - time-based decay at 0.002 per hour, floored at 0.1;
  - growth capped at 1.0;
  - the read-and-persist step of `getActiveAttributes` and `applyGrowth`.
- **The service operations** (`Backend`, `DailyTasks`, `LogStore`,
  `LetterVault`, `Notifications`, `BlobStore`, `LocalAccounts`):
  - settings and milestone saves, with their growth rewards;
  - daily tasks with the day-boundary rollover, check-in toggles, archiving
    and history;
  - the paginated journal, with entry growth and voice-note clean-up on
    delete;
  - the sealed "future letter", with its morse key;
  - the notification history of at most 50 entries;
  - the blob store;
  - local login and registration.
- **The application handlers** (`App`): sleep and work hours within one day,
  the life expectancy, the three most urgent milestones on the dashboard,
  milestone updates and journal updates.
- **The views**:
  - the milestone card and timeline (`MilestoneCard`, `MilestoneTimeline`,
    `MilestoneOrder`);
  - the journal (`LogsView`);
  - the month groups of the self tab (`SelfLogsTab`);
  - the charts, countdown and letter screen (`SelfView`);
  - the sleep/work dial (`CycleCard`);
  - the yearly and temporal grids (`YearlyGrid`, `TemporalGrid`,
    `GridCells`, `Calendar`);
  - the soul tab (`SelfSoulTab`).
- **The Python register and login routes** (`AuthApi`). They run over three
  tables held in a `Database` value. The request schema is checked before the
  route body runs.

The clock, generated ids, coin flips and the bcrypt hash and check are
parameters of the operations that use them.

Where the code and its design notes differ, the model follows the code:

- `getFutureLetter` shows a letter opened with the right key as open, but
  does not store that promotion. A later read without a key still sees it
  sealed.
- Under the future-letter endpoint, a record of another shape is reported as
  `MALFORMED_RECORD`.
- In `login_user`, a user row whose settings or attributes row is missing
  ends in the 500 answer. The LEFT JOIN yields NULLs, and the numeric
  conversions raise on them.
- In `register_user`, the empty-field 400 can never be reached. The schema
  already requires a non-empty name, an email and a password of at least
  6 characters.

## Model

| member | source | states |
|---|---|---|
| RecordStore.Read | backend.ts:174-185 | a GET returns the last record written under the endpoint, and the endpoint's seed value when nothing was ever written |
| RecordStore.Write | backend.ts:186-189 | a POST/PUT adds exactly its endpoint to the stored keys and changes nothing but the records |
| RecordStore.ApiRequest | backend.ts:167-192 | GET succeeds and leaves the store alone; POST/PUT succeed, echo the body and make it what the endpoint reads; any other verb fails |
| RecordStore.WriteThenRead | backend.ts:167-192 | a record written under an endpoint reads back unchanged |
| RecordStore.WriteLeavesOthers | backend.ts:167-192 | a write under one endpoint never changes what another endpoint reads |
| RecordStore.FreshDefaults | backend.ts:176-184 | a store nothing was written to reads as empty task lists, the pioneer profile, the initial settings and null for an unknown endpoint |
| AttributeEngine.Decay | backend.ts:130-138 | each score becomes the larger of 0.1 and the score less d, so none falls below 0.1 and a score at or above the floor never rises |
| AttributeEngine.DecayBetween | backend.ts:128-129 | the decay amount is the hours elapsed since the last sync times 0.002: non-negative for a later read and zero for a read at the same instant |
| AttributeEngine.DecayPerHour | backend.ts:128-129 | k whole hours after the last sync the decay amount is exactly 0.002 k |
| AttributeEngine.DecayComposes | backend.ts:126-138 | two decays in a row are one decay by their sum |
| AttributeEngine.DecayBetweenAdds | backend.ts:128-129 | the decay over a span is the sum of the decays over its two halves |
| AttributeEngine.DecayZero | backend.ts:126-138 | no elapsed time leaves scores already above the floor unchanged |
| AttributeEngine.GetActiveAttributes | backend.ts:116-144 | the read stores what it returns with the current time as last sync; a first read returns the stored or seed scores; a later read returns the stored scores decayed by the amount for the time since the last sync, which stays at or above the floor, never rises and keeps in-range scores in range |
| AttributeEngine.ReadAfterHours | backend.ts:116-144 | a read k whole hours after the last sync lowers every score by 0.002 k, or to 0.1 when that would take it lower |
| AttributeEngine.FreshStoreReadsSeed | backend.ts:121-124 | a fresh store reads as the seed scores, which lie in the documented range |
| AttributeEngine.ReadsArePathIndependent | backend.ts:116-144 | reading at t1 and then at t2 gives the same scores and store as reading once at t2 |
| AttributeEngine.ReadSeriesNonIncreasing | backend.ts:116-144 | along any series of reads at non-decreasing times, every score stays at or above the floor and never rises from one read to the next |
| AttributeEngine.Grow | backend.ts:152-159 | growth never exceeds 1.0, never lowers a score for a non-negative request, and each score becomes its old value plus its delta (an absent delta counting as 0), capped at 1.0 |
| AttributeEngine.GrowPreservesRange | backend.ts:152-159 | non-negative growth keeps in-range scores in range and never lowers them |
| AttributeEngine.GrowNothing | backend.ts:153-158 | an empty growth request changes no score |
| AttributeEngine.ApplyGrowth | backend.ts:150-161 | growth persists the decayed scores grown by the request, capped, with the current time as last sync, and touches nothing else; it keeps in-range scores in range |
| AttributeEngine.ReadAfterGrowthSameInstant | backend.ts:150-161 | a read at the instant of the last growth returns exactly the grown scores |
| AttributeEngine.RereadSameInstant | backend.ts:116-144 | once the scores are read at an instant, any number of further reads at that instant see the same scores and leave the same store |
| AttributeEngine.UnawaitedGrowths | backend.ts:150-161 | growth requests issued together without waiting, each reading before any writes back, leave the store as one growth does; none leaves it unchanged |
| Backend.UpdateSettings | backend.ts:254-259 | the settings are stored and returned; when today's sleep is 7 to 9 hours the decayed health score rises by 0.05 (capped) and the others stay, otherwise the attributes are untouched; no other endpoint changes |
| Backend.CountCompletedCounts | backend.ts:274-276 | the completed count is the number of milestones marked completed: zero exactly when none is and the whole length exactly when all are |
| Backend.SaveMilestones | backend.ts:272-280 | the list is stored; when the new list has more completed milestones than the stored one the decayed skill and adventure scores rise by 0.15 (capped) and the others stay, otherwise the attributes are untouched; no other endpoint changes |
| Backend.ResaveGrantsNothing | backend.ts:272-280 | saving the stored list again leaves the attributes alone |
| Backend.CompletionGrantsOnce | backend.ts:272-280 | a save that completes one more milestone grants the milestone growth to the decayed scores, and saving the same list again grants nothing more |
| Backend.GetUserAnalytics | backend.ts:482-489 | the analytics carry the decayed attributes and the fixed book count 12; the mood stability is 85 plus ten times the spirit score and the focus score is a hundred times the mind score rounded; both stay in their bands for in-range scores |
| Notifications.SetNotifyCallback | backend.ts:65-67 | after registration a callback is present and nothing else changes |
| Notifications.Notify | backend.ts:73-95 | the new entry heads the history, the older entries follow in order, the history is cut at 50, and the message is delivered exactly when a callback is registered |
| Notifications.ClearNotificationHistory | backend.ts:108-110 | the history is empty afterwards and nothing else changes |
| Notifications.NotifyAllKeepsNewest | backend.ts:84-95 | after any series of notifications the history is the 50 newest entries, newest first |
| Notifications.NotifyAllFrame | backend.ts:73-95 | notifications change nothing but the history |
| LocalAccounts.UpdateUserProfile | backend.ts:237-241 | the stored profile is the old one with the present patch fields replaced; no other endpoint and no user changes |
| LocalAccounts.FindUser | backend.ts:201 | the user found matches the credentials (morse code when given, else password), and none is found exactly when no stored user matches |
| LocalAccounts.Login | backend.ts:198-210 | login succeeds exactly for a matching stored user or the test account, and fails with the identity-mismatch error otherwise; a success stores the profile name and syncs the attributes at the current time |
| LocalAccounts.Register | backend.ts:215-225 | registration fails exactly when the email is taken; otherwise the new user is appended |
| LocalAccounts.RegisterThenLogin | backend.ts:198-225 | a new user can sign in at once with the registered password, under the registered name |
| LocalAccounts.RegisterThenMorseLogin | backend.ts:198-225 | a new user can sign in at once with the registered morse code |
| LocalAccounts.RegisterTwiceCollides | backend.ts:215-219 | a second registration with the same email is refused |
| LocalAccounts.TestAccountWithoutUsers | backend.ts:203-204 | the test account signs in on a store with no users, under the default name |
| DailyTasks.Rollover | backend.ts:290-296 | a task stays done exactly when it was checked in today; the rest of each task and the list order are kept |
| DailyTasks.RolloverIdempotent | backend.ts:290-296 | rolling over twice on the same day is rolling over once |
| DailyTasks.GetDailyTasks | backend.ts:286-302 | the read returns the rolled-over list, persists it, writes nothing when nothing changed and touches no other endpoint |
| DailyTasks.GetDailyTasksIdempotent | backend.ts:286-302 | two reads on the same day give what one read gives, store included |
| DailyTasks.ToggleOne | backend.ts:318-324 | a toggle flips the done flag; a check-in raises the streak and stamps the time; an undo lowers the streak but not below 0 and keeps the stamp |
| DailyTasks.ToggleTasks | backend.ts:318-326 | every task with the id is toggled and every other task is kept |
| DailyTasks.ToggleDailyTask | backend.ts:315-329 | the toggled rolled-over list is stored and returned; when at least one task is checked in, the decayed spirit and mind scores rise once by 0.02 and 0.01 (capped) however many tasks share the id, otherwise the attributes are untouched; no other endpoint changes |
| DailyTasks.ToggledListIsStable | backend.ts:315-329 | a toggled list survives the next same-day rollover unchanged |
| DailyTasks.ToggleTwice | backend.ts:315-329 | toggling the same task twice on one day restores its done flag, and its streak unless it started done with a zero streak; other tasks are untouched |
| DailyTasks.AddDailyTask | backend.ts:334-345 | the new task is appended to the rolled-over list, not done and with no streak; no other endpoint changes |
| DailyTasks.ArchiveDailyTask | backend.ts:351-372 | an unknown id only rolls the list over; a known one leaves the active list and its history entry heads the history; no other endpoint and neither the attributes nor the sync time change |
| DailyTasks.DeleteDailyHistoryEntry | backend.ts:384-389 | the history becomes the stored one without the entries carrying the id, in order: none with the id is left and every other one is kept; no other endpoint changes |
| DailyTasks.AddThenArchive | backend.ts:334-372 | archiving a just-added task gives back the active list and records the task in the history |
| DailyTasks.AddedTaskReadsBack | backend.ts:334-345 | the next same-day read returns the list the add stored |
| DailyTasks.ArchiveThenDeleteEntry | backend.ts:351-389 | deleting the history entry an archive just wrote restores the history |
| LogStore.Paginate | backend.ts:402-407 | a page holds the entries from page times size onwards, in order, at most size of them, full when enough remain, and says more remain exactly when entries lie beyond it |
| LogStore.FirstPagesArePrefix | backend.ts:402-407 | reading pages 0, 1, … in turn yields the log in order, with no gap and no repeat |
| LogStore.SaveLogs | backend.ts:412-414 | the whole log is replaced; nothing else in the store changes (attributes, last sync, notifications, blobs and users included) |
| LogStore.LogGrowth | backend.ts:425-434 | an entry grows spirit by 0.08 when highlighted and by 0.04 otherwise, and mind by 0.03; adventure grows exactly when images are attached, skill exactly when a voice note is attached, and health and social never |
| LogStore.AddLog | backend.ts:420-437 | the entry heads the log; the decayed scores grow by mind 0.03, spirit 0.08 for a highlight else 0.04, adventure 0.05 with images and skill 0.05 with a voice note, capped; they stay in range and are synced now; notifications, blobs, users and every other endpoint are unchanged |
| LogStore.DeleteLog | backend.ts:443-451 | every entry with the id is removed, and the first one's stored voice note is removed from the blob store; attributes, last sync, notifications, users and every other endpoint are unchanged |
| LogStore.DeleteLogDropsVoice | backend.ts:443-451 | after the delete the entry's voice note can no longer be fetched |
| LogStore.AddThenDelete | backend.ts:420-451 | deleting an entry just added under a fresh id restores the log |
| BlobStore.UploadFile | backend.ts:495-505 | the returned path carries the scheme and the generated id, and the blob is stored under that id |
| BlobStore.GetFileBlob | backend.ts:510-521 | a path outside the scheme reads nothing; a path in the scheme whose id is stored reads exactly that blob, and a found blob is always the one stored under the path's id |
| BlobStore.RemoveFile | backend.ts:526-537 | a scheme path removes exactly its blob; any other path changes nothing |
| BlobStore.UploadThenGet | backend.ts:495-521 | an uploaded blob reads back through the returned path |
| BlobStore.RemoveThenGet | backend.ts:510-537 | a removed path reads as absent and other blobs are kept |
| LetterVault.KeyFromFlips | backend.ts:473 | the generated key has one dot or dash per coin flip, a dot exactly for a head |
| LetterVault.EveryKeyIsGenerated | backend.ts:473 | every dot/dash string of the right length is the key of some flip sequence |
| LetterVault.ChooseKey | backend.ts:472-474 | a given non-empty key is used; otherwise the key is six dots and dashes |
| LetterVault.SaveFutureLetter | backend.ts:472-476 | the letter is stored sealed with its content, dates and the chosen key; no other endpoint changes |
| LetterVault.GetFutureLetter | backend.ts:457-466 | nothing stored reads as no letter; a letter stored open is shown as stored; a sealed letter read without a key (or an empty one) shows the placeholder, no key and the sealed status; read with its own key it is shown open with its content; a wrong non-empty key is refused |
| LetterVault.SaveThenOpen | backend.ts:457-476 | a sealed letter opens with its own key and shows its content |
| LetterVault.SaveThenPeek | backend.ts:457-476 | without a key a sealed letter shows only the placeholder |
| LetterVault.SaveThenWrongKey | backend.ts:457-476 | any key other than the sealing key is refused |
| Clock.DayKey | backend.ts:288-291 | the day key is the part of the timestamp before its first 'T' (the whole timestamp when there is none) |
| App.HandleSleepChange | App.tsx:78-83 | sleep is set, and work is cut back so that the two never exceed 24 hours |
| App.HandleWorkChange | App.tsx:85-90 | work is set, and sleep is cut back so that the two never exceed 24 hours |
| App.SleepWorkChangesKeepDay | App.tsx:78-90 | setting the same sleep twice is setting it once, and a work change after a sleep change still fits in the day |
| App.HealthySleepChangeGrows | App.tsx:78-83 | a sleep change into 7 to 9 hours earns the health growth on the decayed scores once saved |
| App.CurrentExpectancy | App.tsx:310-314 | the average preset gives 73 years, the healthy one 95, and the custom one the user's figure |
| App.ExpectanciesAgree | App.tsx:282-284 | the displayed expectancy and the one the life progress uses agree exactly unless the preset is custom with a custom figure of 0 |
| App.OpenMilestones | App.tsx:317 | the open list holds exactly the pending and long-term milestones, and all of a list that is all open |
| App.OpenMilestonesAppend | App.tsx:317 | the open list of two lists joined is the open list of the first followed by that of the second, and a single milestone is kept exactly when open: the filter keeps the original order |
| App.DashboardCompareIsAgeOrder | App.tsx:318-326 | the urgency-first comparator orders exactly as ascending planned age |
| App.DashboardMilestones | App.tsx:316-327 | the dashboard shows at most three open milestones, urgent ones first, in age order, and as many as there are open ones up to three |
| App.DashboardShowsMostUrgent | App.tsx:316-327 | an open milestone younger than one shown is shown as well |
| App.AddMilestone | App.tsx:160-164 | the new milestone is appended after the existing ones |
| App.ApplyPatch | App.tsx:166-170 | the patch's status and date replace the milestone's and every other field is kept |
| App.UpdateMilestone | App.tsx:166-170 | every milestone with the id gets the patch and every other one is kept |
| App.UpdateMilestoneIdempotent | App.tsx:166-170 | applying the same update twice is applying it once, and an unknown id changes nothing |
| App.CompletingRaisesCount | App.tsx:166-170 | completing never lowers the completed count, and raises it when a milestone with the id was not completed |
| App.CompletingEarnsGrowth | App.tsx:166-170 | completing an open milestone through the handler earns the milestone growth on the decayed scores once saved |
| App.HandleUpdateLogs | App.tsx:204-212 | a longer list adds its first entry through the service, with that entry's growth on the decayed scores; any other list is saved as given, without growth |
| App.UpdateLogsKeepsStoreInStep | App.tsx:204-212 | when the view's list is the stored one, the stored log follows both an addition and an edit |
| MilestoneOrder.SortByAge | components/MilestoneTimeline.tsx:155 | the sort is a permutation ordered by planned age |
| MilestoneOrder.SortByAgeStable | components/MilestoneTimeline.tsx:155 | the sort keeps the input order of the milestones of each age |
| MilestoneCard.CardHighlight | components/MilestoneCard.tsx:14-15 | a card is active exactly when it is not completed and its age has come; it is overdue exactly when it is not completed and its age has passed |
| MilestoneCard.ActiveAndOverdueExclusive | components/MilestoneCard.tsx:14-15 | no card is both active and overdue |
| MilestoneTimeline.ActiveMilestones | components/MilestoneTimeline.tsx:154 | the active list holds exactly the milestones that are not missed |
| MilestoneTimeline.MissedOnes | components/MilestoneTimeline.tsx:155 | the missed list holds exactly the missed milestones |
| MilestoneTimeline.SplitIsPartition | components/MilestoneTimeline.tsx:154-155 | every milestone is in exactly one of the active and missed lists |
| MilestoneTimeline.MissedMilestones | components/MilestoneTimeline.tsx:155 | the lost-signal list is the missed milestones ordered by planned age |
| MilestoneTimeline.AgeGroups | components/MilestoneTimeline.tsx:157-167 | groups come in strictly increasing age, none is empty, each holds only its age, and together they hold exactly the active milestones |
| MilestoneTimeline.AgeGroupsAreExact | components/MilestoneTimeline.tsx:157-167 | each group lists the active milestones of its age in their original order |
| MilestoneTimeline.AgeGroupsCover | components/MilestoneTimeline.tsx:157-167 | every active milestone sits in the group of its age |
| MilestoneTimeline.StatsPartition | components/MilestoneTimeline.tsx:169-174 | completed, remaining and missed counts add up to all milestones, and the overdue ones are among the remaining |
| MilestoneTimeline.ComputeStats | components/MilestoneTimeline.tsx:169-174 | the counters partition the milestones; the completed count is the one the service rewards, the remaining count is the open milestones and the overdue count the open ones (pending or long-term) below the current age, at most the remaining one |
| MilestoneTimeline.OverdueCounterMatchesCards | components/MilestoneTimeline.tsx:319-321 | the overdue counter equals the number of active cards shown as overdue |
| MilestoneTimeline.TitleInput | components/MilestoneTimeline.tsx:102 | the field keeps the longest prefix of what was typed that fits in 40 UTF-16 code units, and all of a short entry |
| MilestoneTimeline.HandleSave | components/MilestoneTimeline.tsx:73-83 | a title that is all white space saves nothing; otherwise a pending milestone with the trimmed, non-empty title is created, no longer in UTF-16 code units than the typed one |
| MilestoneTimeline.SavedTitleFits | components/MilestoneTimeline.tsx:71-102 | whatever is typed, a saved title is at most 40 UTF-16 code units |
| MilestoneTimeline.ToggleSelection | components/MilestoneTimeline.tsx:176-179 | while docking nothing changes; otherwise the card is selected exactly when it was not, and only the selection changes |
| MilestoneTimeline.ToggleSelectionTwice | components/MilestoneTimeline.tsx:176-179 | selecting the same card twice is a round trip |
| MilestoneTimeline.StartDocking | components/MilestoneTimeline.tsx:181-184 | the card starts docking and the selection and feedback are kept |
| MilestoneTimeline.FinishDocking | components/MilestoneTimeline.tsx:185-191 | after docking the milestone is completed in the current year, the selection is cleared and the success feedback shows |
| MilestoneTimeline.HandleFail | components/MilestoneTimeline.tsx:194-199 | the milestone is marked missed with its date kept, the selection is cleared and the regret feedback shows |
| MilestoneTimeline.DockAndFailMoveMilestones | components/MilestoneTimeline.tsx:181-199 | docking an open milestone raises the completed count, and failing it moves it to the missed list |
| LogsView.FormatSeconds | components/LogsView.tsx:345-349 | a duration is written as digits, a colon and exactly two digits |
| LogsView.FormatSecondsRoundTrip | components/LogsView.tsx:345-349 | a formatted duration reads back as the same number of seconds |
| LogsView.DropKind | components/LogsView.tsx:353 | no tag of the kind is left, the other kinds are untouched, and a selection without the kind is unchanged |
| LogsView.ToggleTag | components/LogsView.tsx:351-357 | a selected kind is cleared and an unselected tag is appended; other kinds keep their counts and at most one tag per kind stays selected |
| LogsView.ToggleTagTwice | components/LogsView.tsx:351-357 | toggling an unselected tag twice gives the selection back |
| LogsView.AddImages | components/LogsView.tsx:359-379 | at most two images of a batch are added after the existing ones, and never more than four in all |
| LogsView.TwoBatchesFit | components/LogsView.tsx:359-379 | two batches of at most two images are both kept, and a third batch after two full ones adds nothing |
| LogsView.RemoveImage | components/LogsView.tsx:501 | removing image i keeps the others in order, and an index past the end changes nothing |
| LogsView.ComposeEntry | components/LogsView.tsx:434-460 | nothing is saved while uploading or for blank text; a saved entry carries the text, the chosen tags or a default one, the images when any, and a voice duration that reads back as the recorded seconds |
| LogsView.SavedEntryLeadsJournal | components/LogsView.tsx:434-460 | a saved entry heads the journal, and it earns adventure growth exactly when images were attached |
| LogsView.SaveComposedAsWritten | components/LogsView.tsx:452-456 | as wired, saving a composed entry stores it twice at the head of the journal and syncs the attributes now |
| LogsView.AddLogTwice | App.tsx:204-207 | the service add followed by the handler's add leaves the entry twice in front and grows the scores a second time from those the first add left |
| LogsView.SaveAsWrittenGrowsTwice | components/LogsView.tsx:452-456 | as wired, one save grants the entry's growth twice in a row at the same instant |
| LogsView.SaveAsWrittenExample | components/LogsView.tsx:675 | on a fresh store one plain entry is journaled twice and mind reads 0.56 instead of 0.53 |
| LogsView.SaveComposed | components/LogsView.tsx:434-460 | a save stores the composed entry once at the head of the journal and grants its growth once; nothing is stored for a draft the composer refuses; no other endpoint changes |
| LogsView.SaveAsWrittenAddsOneCopy | App.tsx:204-207 | the wiring as written differs from the single save by exactly one more copy of the entry and one more grant of its growth |
| LogsView.GetMonthYear | components/LogsView.tsx:580-584 | the header is never longer than the date |
| LogsView.MonthYearOfFormattedDate | components/LogsView.tsx:580-584 | a date written "Mon DD, YYYY" gets the header "MON YYYY" |
| LogsView.LoadMoreMatchesNextPage | components/LogsView.tsx:586-600 | loading more appends exactly the next service page to what is shown, and the service's more-flag agrees with the view's |
| LogsView.MonthHeaders | components/LogsView.tsx:643-645 | there is one header slot per entry and the first entry always opens a header |
| LogsView.MonthHeadersStable | components/LogsView.tsx:643-645 | loading more never moves a header already shown, and every entry sits under a header of its own month |
| LogsView.ConfirmDelete | components/LogsView.tsx:602-616 | without a pending id, or while a delete is running, nothing happens; otherwise the journal loses the entry, an erased notice heads the history and the dialog closes |
| LogsView.DeleteAndHandOver | components/LogsView.tsx:606-608 | the journal stored afterwards is the view's list without the id |
| LogsView.ConfirmDeleteRemovesEntry | components/LogsView.tsx:602-616 | after a confirmed delete no entry has the id and every other entry is kept |
| SelfLogsTab.MonthKeyIgnoresYear | components/SelfLogsTab.tsx:51-55 | the group key of a "Mon DD, YYYY" date is the upper-cased month, whatever the year |
| SelfLogsTab.BuildGroups | components/SelfLogsTab.tsx:49-66 | the loop builds one group per month in order of first appearance, each holding that month's first eight entries |
| SelfLogsTab.SumEntries | components/SelfLogsTab.tsx:68 | the displayed total is the sum of the group sizes |
| SelfLogsTab.MonthGroups | components/SelfLogsTab.tsx:44-70 | the tab shows at most 5 groups with distinct months, of 1 to 8 entries each, equal to the reference grouping of the first 100 entries, and a total of at most 40 |
| SelfLogsTab.OfMonthFromInput | components/SelfLogsTab.tsx:49-66 | every entry in a month group comes from the journal under that month's key |
| SelfView.NormaliseChart | components/SelfView.tsx:30-32 | a chart with a positive total is scaled to 24 hours, keeping its proportions; any other chart is left alone |
| SelfView.TargetAllocation | components/SelfView.tsx:426 | the target day has 8 hours of work, the sleep target as rest, no negative hobby time, and fills 24 hours when the sleep target allows |
| SelfView.TodayAllocation | components/SelfView.tsx:427 | today's chart has the day's sleep and work, no negative hobby time, and fills 24 hours when they fit in the day |
| SelfView.TodayChartNeedsNoScaling | components/SelfView.tsx:427 | after a dashboard sleep change, today's chart already sums to 24 hours |
| SelfView.Countdown | components/SelfView.tsx:205-214 | a past target counts zero; otherwise hours, minutes and seconds lie in their ranges and add up to the remaining time, short by less than a second |
| SelfView.CountdownSums | components/SelfView.tsx:210-213 | the day, hour, minute and second split of a positive time adds back up to it, short by less than a second |
| SelfView.StateOf | components/SelfView.tsx:181-183 | the screen state is no letter, sealed or open exactly as the loaded letter is |
| SelfView.DisplayTime | components/SelfView.tsx:200-222 | with no letter, an open letter or a past target, the countdown reads zero; for a loaded letter that is not open and a target still ahead, it counts down the time left to the target |
| SelfView.LoadedLetter | components/SelfView.tsx:190-197 | no letter on the service shows no letter, and a loaded letter always has a status |
| SelfView.ToggleMorseBit | components/SelfView.tsx:249-264 | one position flips between dot and dash and the rest of the pad is kept |
| SelfView.ToggleMorseBitTwice | components/SelfView.tsx:249-264 | flipping the same position twice restores the pad |
| SelfView.HandleSaveLetter | components/SelfView.tsx:266-306 | missing content or date does nothing; a target day not in the future is refused with a warning and stores nothing; otherwise the letter is sealed with its content, under the typed pad in manual mode |
| SelfView.HandleManualUnlock | components/SelfView.tsx:308-326 | the unlock fails exactly when the service refuses the pad, and then the screen keeps the letter it had; a letter the service shows (other than "none") replaces the screen's, and "no letter" keeps it |
| SelfView.ManualSealThenUnlock | components/SelfView.tsx:266-326 | a letter sealed by hand opens with the same pad, shows its content and counts down zero |
| SelfView.SealedLetterLoadsEncrypted | components/SelfView.tsx:190-197 | a sealed letter loaded without a key shows in the sealed state |
| CycleCard.AngleToHours | components/InteractiveCycleCard.tsx:59-66 | the dial gives 0 to 24 hours in half-hour steps, within a quarter hour of the pointer's reading |
| CycleCard.AngleOfHours | components/InteractiveCycleCard.tsx:59-66 | pointing at a half-hour mark reads back that mark |
| CycleCard.Percentage | components/InteractiveCycleCard.tsx:24-26 | the ring is under 100% exactly below the 8-hour target, and full exactly at it |
| CycleCard.FeedbackFor | components/InteractiveCycleCard.tsx:38-44 | sleep gets sleep feedback and work gets work feedback; the warning feedback shows exactly when the card warns |
| CycleCard.SleepWarningIsUnfilledRing | components/InteractiveCycleCard.tsx:130 | the sleep warning shows exactly when the ring is not full |
| CycleCard.ConfirmSettings | components/InteractiveCycleCard.tsx:103-118 | the picked hours are stored, the other value is cut back to fit the day, and nothing else changes |
| CycleCard.ConfirmMatchesDashboard | components/InteractiveCycleCard.tsx:103-118 | confirming on the dial gives the settings the dashboard handlers give |
| CycleCard.HandleConfirm | components/InteractiveCycleCard.tsx:103-128 | the adjusted settings are stored, the picked hours are handed on, and no other endpoint changes |
| CycleCard.ConfirmTwiceSettles | components/InteractiveCycleCard.tsx:103-128 | confirming the same hours twice stores what confirming once does |
| CycleCard.ConfirmAsWritten | components/InteractiveCycleCard.tsx:103-121 | as wired, the card stores the settings and the dashboard's handler then stores its own adjusted copy again, granting the healthy-sleep growth a second time |
| CycleCard.ConfirmAsWrittenGrowsTwice | App.tsx:78-90 | with healthy sleep in both writes at the same instant, the health growth is granted twice in a row |
| CycleCard.ConfirmAsWrittenExample | App.tsx:432-433 | confirming 8 hours of sleep on a fresh store leaves health at 0.80 where one grant gives 0.75 |
| CycleCard.ConfirmOnce | components/InteractiveCycleCard.tsx:103-121 | corrected, the card's write is the only one: the settings are stored once, the health growth is granted once under healthy sleep and not otherwise, and the dashboard adopts the hours with the same 24-hour guard |
| CycleCard.ConfirmAsWrittenGrowsOnceMore | components/InteractiveCycleCard.tsx:120-121 | the wiring as written differs from the single write by exactly one more grant of the sleep growth |
| GridCells.Classify | components/TemporalGrid.tsx:79-90 | a cell is gone exactly below the count, current exactly at it and to come above it |
| GridCells.PassedCells | components/TemporalGrid.tsx:79-90 | the number of lit cells is the count clamped to the row |
| GridCells.CurrentCells | components/TemporalGrid.tsx:79-90 | there is exactly one current cell when the count lies inside the row, and none otherwise |
| GridCells.ClassesPartition | components/TemporalGrid.tsx:79-90 | the gone, current and future cells add up to the row |
| GridCells.Progress | components/TemporalGrid.tsx:101 | the footer percentage lies between 0 and 100 when no more cells are gone than the row holds; it is 100 when all are gone and 0 when none is |
| GridCells.ProgressMonotone | components/TemporalGrid.tsx:101 | a larger count never shows a smaller percentage |
| Calendar.DaysInYear | components/YearlyGrid.tsx:18-20 | a year has 366 days exactly when it is a Gregorian leap year, and 365 otherwise |
| Calendar.MonthsFillYear | components/YearlyGrid.tsx:18-20 | the twelve month lengths add up to the year's length |
| Calendar.DayOfYear | components/YearlyGrid.tsx:11-15 | a valid date's day of the year lies between 1 and the year's length, and counts the days since January 1 plus one |
| Calendar.DayOfYearEnds | components/YearlyGrid.tsx:11-15 | January 1 is day 1 and December 31 is the year's last day |
| Calendar.AnniversaryStep | components/TemporalGrid.tsx:20-26 | from one anniversary of a date to the next is the length of the year whose February lies between them |
| YearlyGrid.YearViewAsWritten | components/YearlyGrid.tsx:10-26 | as written, the days-gone count is the 1-based day of the year |
| YearlyGrid.AsWrittenLosesToday | components/YearlyGrid.tsx:55-71 | as written, December 31 has no current cell, and on January 1 today's cell is lit as gone |
| YearlyGrid.YearViewOf | components/YearlyGrid.tsx:10-26 | corrected, the days-gone count is the days before today, inside the row |
| YearlyGrid.TodayCellIsToday | components/YearlyGrid.tsx:55-71 | corrected, every date has exactly one current cell, the one of its own day, and exactly the days before it are lit |
| YearlyGrid.YearProgress | components/YearlyGrid.tsx:86 | the year's progress lies between 0% and 100%, and is 0% on January 1 |
| YearlyGrid.YearProgressMonotone | components/YearlyGrid.tsx:86 | a later date in the same year never shows less progress |
| TemporalGrid.BirthDateOrDefault | components/TemporalGrid.tsx:18 | a missing birth date falls back to 1999-01-01, and a given one is kept |
| TemporalGrid.ParseIsoDate | components/TemporalGrid.tsx:19 | a parsed birth date is a valid calendar date made of three dash-separated groups |
| TemporalGrid.ParseFormatIsoDate | components/TemporalGrid.tsx:18-19 | a valid date written as YYYY-MM-DD parses back to the same date |
| TemporalGrid.DefaultBirthDateParses | components/TemporalGrid.tsx:18 | the fallback birth date reads as January 1, 1999 |
| TemporalGrid.LastBirthdayYear | components/TemporalGrid.tsx:20-23 | the last birthday is this year's or last year's, on or before today, with the next one after today |
| TemporalGrid.BirthdayYear | components/TemporalGrid.tsx:17-36 | the birthday year has one blank cell per day from the last birthday to the next (365 or 366), and the days gone are the days from the last birthday to today, so today's cell lies inside it |
| TemporalGrid.BirthdayStartsYear | components/TemporalGrid.tsx:20-27 | on the birthday itself no day has gone |
| TemporalGrid.HourLabel | components/TemporalGrid.tsx:49 | an hour label ends in "h" |
| TemporalGrid.HourLabelReadsBack | components/TemporalGrid.tsx:49 | hour cell i is labelled with the hour it ends at, i + 1 |
| TemporalGrid.MonthlyGrid | components/TemporalGrid.tsx:37-46 | the month grid has twelve cells, and the current one is named for the current month |
| TemporalGrid.TodayGrid | components/TemporalGrid.tsx:47-55 | the hour grid has 24 cells labelled with the hour they end at, and the hours gone are the current hour |
| TemporalGrid.YearlyView | components/TemporalGrid.tsx:17-36 | a yearly grid is drawn exactly when the birth date parses, with 365 or 366 cells and one current cell; a missing birth date counts from January 1 |
| TemporalGrid.View | components/TemporalGrid.tsx:17-56 | the month and hour grids are always drawn, and every drawn grid has its count inside the row |
| TemporalGrid.ShownGridHasOneCurrentCell | components/TemporalGrid.tsx:79-101 | every drawn grid has exactly one current cell, exactly the count of lit cells, and a footer between 0% and 100% |
| SelfSoulTab.SoulLevel | components/SelfSoulTab.tsx:15-22 | the level lies between 1 and 10: the rounded inner mean on a scale of ten, clamped at both ends |
| SelfSoulTab.SoulIgnoresHealthAndSkill | components/SelfSoulTab.tsx:16-17 | health and skill do not affect the level |
| SelfSoulTab.SoulLevelMonotone | components/SelfSoulTab.tsx:15-22 | higher scores never give a lower level |
| SelfSoulTab.InRangeNeedsNoClamp | components/SelfSoulTab.tsx:18-20 | for in-range scores the clamp never applies |
| SelfSoulTab.SoulViewOf | components/SelfSoulTab.tsx:15-65 | the view draws one planet per level, passes the mood stability through, and draws a core of 11.5 to 25 |
| SelfSoulTab.CoreGrowsWithPlanets | components/SelfSoulTab.tsx:52-65 | one view's core is bigger than another's exactly when it has more planets |
| AuthApi.FindUser | backend/api/login.py:37-39 | the row found has the email, and none is found exactly when no row has it |
| AuthApi.RegisterHandler | backend/api/login.py:26-94 | missing fields and over-long names or passwords get a 400; a taken email never succeeds; a success appends the user under the next id with its hash, and seeds the settings and the 0.5 attributes |
| AuthApi.Register | backend/api/login.py:15-19 | a request the schema rejects never reaches the route body |
| AuthApi.EmptyFieldsStopAtSchema | backend/api/login.py:15-32 | an empty field is stopped by the schema, so the route's 400 comes exactly from over-long names or passwords |
| AuthApi.RegisterKeepsInvariant | backend/api/login.py:34-88 | a registration keeps emails unique and gives every user a settings row and an attributes row |
| AuthApi.RegisterTwiceCollides | backend/api/login.py:36-39 | a second registration with the same email gets the 409 collision |
| AuthApi.LoginHandler | backend/api/login.py:140-245 | a missing email gets a 400 and an unknown one a 401; a success answers for the row found, with its creation time, its attributes and its settings except that the work hours are always 09:00 to 18:00, the birth time is rendered as text, the bar style is linear and the anniversaries are empty |
| AuthApi.BirthTimeText | backend/api/login.py:211 | a NULL or zero birth time answers as "00:00:00", any other as Python shows the duration |
| AuthApi.ClockTextReadsBack | backend/api/login.py:211 | a time of day shown as a duration splits at its colons into hours, two-digit minutes and two-digit seconds that read back as the time |
| AuthApi.DurationText | backend/api/login.py:211 | a duration under a day shows as its clock text, and a longer one ends with the clock text of the part past whole days |
| AuthApi.BirthTimeHourDigits | backend/api/login.py:211 | midnight answers as "00:00:00" but 08:30 as "8:30:00" |
| AuthApi.WorkHoursNotReturned | backend/api/login.py:148-223 | the stored work hours never reach a sign-in answer: changing them changes no answer |
| AuthApi.Login | backend/api/login.py:96-99 | a request the login schema rejects never reaches the route body |
| AuthApi.TestAccountNeedsRow | backend/api/login.py:162-190 | the test credentials open nothing when no user holds the test email |
| AuthApi.MorseTakesPrecedence | backend/api/login.py:173-184 | when a morse code is given, the password has no effect on the answer |
| AuthApi.RegisterThenLogin | backend/api/login.py:26-234 | a registered user signs in with the same password and gets the seeded settings (birth time "00:00:00", with the fixed reply fields), the seeded attributes and the registration time |

## Left out

- The 600 ms simulated latency, IndexedDB and the JSON round trip through
  `localStorage` are not modelled. Each record is kept as a typed value.
- `Date.now()`, `new Date().toISOString()`, `Math.random()`, generated ids
  and `bcrypt` are parameters of the operations that use them.
- Floating-point scores, hours and percentages are modelled as exact reals.
  `Math.round` is rounding half up on reals.
- The dial's `atan2` is not modelled. The model starts from the pointer angle.
- Rendering, animation, sound, layout and the random colours, orbits and
  stars of the soul tab are not modelled.
- Time zones and daylight saving are not modelled. The grids take a calendar
  date as their clock reading.
- The yearly grid of the temporal view parses the birth date as UTC, which
  can shift it by a day. This is not modelled.
- Birth dates that are not `YYYY-MM-DD` are treated as not a date. The
  browser's lenient date parsing is not modelled.
- A February 29 birthday rolls over as `Date` does, through the day-number
  arithmetic. The source's exact day-boundary rounding is not modelled.
- In `SelfLogsTab`, the 'RECENT' fallback for a date without a first word
  cannot be reached, so it is not modelled.
- The pydantic field-by-field error details are not modelled. The email check
  is reduced to a single '@' with a non-empty local part before it and a
  non-empty domain after it.
- MySQL transactions are modelled as all-or-nothing. Connection pooling,
  collation and the `print` debug call are not modelled.
- The coach (`askTARS`), `initDB` and the map, coach and auth views are not
  part of this model.
- AttributeEngine.GetActiveAttributes: it promises scores that never rise only
  when the clock has not gone backwards since the last sync, since the source
  itself does not guard against that.
- Notifications.NotifyAllKeepsNewest: it assumes a stored history of at most
  50 entries, which every history written by `notify` is.
- LogsView.GetMonthYear: its contract bounds only the header's length; its
  value on the dates the journal writes is stated by
  LogsView.MonthYearOfFormattedDate.
- AuthApi.LoginHandler: the date and datetime columns are held as their ISO
  text, so `isoformat` is the identity here. The settings columns other than
  the birth date and birth time are never NULL in the model, so the 500 that
  `float(None)` or `int(None)` would raise for such a row is not modelled.
- YearlyGrid.YearProgress: it states the corrected footer, the share of whole
  days before today. The footer as written uses the 1-based count.

## Findings

| source | as written | input that shows it | evidently intended | confidence | as-written member | corrected member |
|---|---|---|---|---|---|---|
| components/YearlyGrid.tsx:15 | the days-gone count is the 1-based day of the year, but cell i is taken as today when i equals that count, so the cell after today is lit white | December 31 of any year: no cell is white. January 1: cell 0, which is today, is lit as gone | the days gone are the days before today (day of year minus one), so cell i stands for day i + 1 | not executed | YearlyGrid.AsWrittenLosesToday | YearlyGrid.TodayCellIsToday |
| components/LogsView.tsx:454 | the composer stores the new entry with `addLog` and then passes the list with that entry in front to the application's handler (LogsView.tsx:675), which finds it longer than the list it shows and calls `addLog` with the same entry again (App.tsx:204-207) | any entry saved from the composer, e.g. the text "a" on a fresh store: the journal holds it twice and mind goes from 0.5 to 0.56 | the entry is stored once and its growth granted once (mind 0.53) | not executed | LogsView.SaveComposedAsWritten | LogsView.SaveComposed |
| components/InteractiveCycleCard.tsx:120-121 | the card stores the confirmed settings with `updateSettings` and then calls `onChange`, which is the dashboard's sleep or work handler (App.tsx:432-433); that handler stores its own copy of the settings with `updateSettings` again (App.tsx:82, 89), and each call grants the healthy-sleep growth | confirming 8 hours of sleep on a fresh store: health goes from 0.7 to 0.80; the work dial does the same whenever today's sleep is 7 to 9 hours | the settings are stored once and the health growth granted once (health 0.75) | not executed | CycleCard.ConfirmAsWritten | CycleCard.ConfirmOnce |
