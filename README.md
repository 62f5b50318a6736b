# ConfIQ moderation core in Dafny

ConfIQ is a Telegram bot for finding IT events. Events come from two places: a scan of web sources, classified by the GigaChat model, and admins typing them in by hand. Moderators approve or reject each event. Approved employees browse the approved events, search them and ask to register. The request goes to their manager, or is approved at once. This project models the core of that bot.

It covers:

- the SQLite store `FDataBase`;
- the admin handlers: the access check, callback data, the registration and event moderation queues, the scan and the manual event form, the page arithmetic and admin management;
- the user handlers: sign-up, keyword search, the event card, the registration request and "my events";
- the rules the classifier wrapper applies to the model's reply.

Modules, one per file:

- `Wrappers`: `Option`.
- `Strings`: the Python string operations the handlers use, on `seq<char>`:
  - `strip`, `split`, `isdigit`, `int()` and `str()`;
  - `in` on strings;
  - slices;
  - SQLite's `LIKE '%q%'`.
- `Records`: the rows of the tables and the cancel button.
- `Ordering`: `ORDER BY score DESC, created_at DESC` as an insertion sort, proved to give an ordered permutation.
- `Database`: the store.
  - Its reads are functions of the table contents.
  - `class FDataBase` owns the four tables (`events`, `admins`, `users`, `registrations`) as `seq` fields plus the next auto-increment id.
  - Its writes are methods that state the whole new state.
- `GigaChat`: code-fence removal, the capped score bumps, the fallback record and the list check of `analyze_file_content`.
- `AdminHandlers`: the admin panel's handlers, pure step functions beside the methods that run them on the store.
  - The scan's loop is a method with a `for` loop.
- `AdminManagement`: the add / remove / change-role conversations.
- `UserHandlers`: the employee-side handlers.
  - The registration search loop with `break` is a method with a `while` loop.
- `Signup`: the four-step sign-up form.

What the handlers take from outside becomes a parameter of the model:

- the Telegram chat id of the caller;
- the message text (`None` for a message without text);
- the callback data;
- the classifier's reply;
- `json.loads` and `json.dumps`;
- the date parser and the clock;
- the user's rank and manager;
- whether a notification to the manager fails.

## Model

| member | source | states |
|---|---|---|
| Strings.Strip | bot/handlers/user_handlers.py:56 | `s.strip()` is a slice of `s` that neither starts nor ends with whitespace and only whitespace was removed around it; whitespace is the set Python's `str.isspace()` accepts, the Unicode spaces and separators included |
| Strings.StripKeepsNonSpace | bot/handlers/user_handlers.py:381 | a character that is not whitespace lies inside the stripped slice |
| Strings.StripUnique | bot/handlers/user_handlers.py:382 | a slice with only whitespace around it and none at its own ends is the strip: `strip()` is determined by the text |
| Strings.StripDropFront | bot/handlers/user_handlers.py:381-382 | cutting leading whitespace off a text leaves its strip unchanged |
| Strings.StripDropBack | bot/handlers/user_handlers.py:381-382 | cutting trailing whitespace off a text leaves its strip unchanged |
| Strings.StripIdempotent | bot/handlers/user_handlers.py:382 | stripping twice is stripping once, so `k.strip()` of a kept keyword is itself |
| Strings.StripUnpadded | bot/handlers/user_handlers.py:382 | text without whitespace at either end is left unchanged by `strip()` |
| Strings.Contains | bot/services/gigachat_service.py:57 | Python's `t in s`: true exactly when `t` occurs at some position of `s` |
| Strings.ContainsChar | bot/handlers/user_handlers.py:77 | `'@' in email` on a string holds exactly when the character occurs in it |
| Strings.Split | bot/handlers/admin_handlers.py:130 | `s.split("_")` yields at least one piece, no piece holds the separator, and joining the pieces with it gives `s` back |
| Strings.SplitJoin | bot/handlers/admin_handlers.py:130 | splitting the join of separator-free pieces gives back exactly those pieces |
| Strings.JoinSnoc | bot/handlers/user_handlers.py:381 | the join of two or more pieces ends with the separator and the last piece |
| Strings.JoinDropFront | bot/handlers/user_handlers.py:381 | cutting characters off the front of a joined text cuts them off its first piece |
| Strings.JoinDropBack | bot/handlers/user_handlers.py:381 | cutting characters off the end of a joined text cuts them off its last piece |
| Strings.JoinTrimmed | bot/handlers/user_handlers.py:381 | cutting both ends of a text of two or more pieces cuts its first and last piece and keeps every separator |
| Strings.SliceKeepsOut | bot/handlers/user_handlers.py:381 | a slice holds no character its text does not hold |
| Strings.TrimmedKeepsOut | bot/handlers/user_handlers.py:381 | cutting the first and the last piece brings no separator into any piece |
| Strings.CutFront | bot/handlers/user_handlers.py:381-382 | a piece cut of leading whitespace keeps its strip and gains no character |
| Strings.CutBack | bot/handlers/user_handlers.py:381-382 | a piece cut of trailing whitespace keeps its strip and gains no character |
| Strings.NatToString | bot/handlers/admin_handlers.py:121 | the decimal digits of an id as it is written into callback data: non-empty, all digits, no leading zero |
| Strings.NatToStringValue | bot/handlers/admin_handlers.py:470 | the digits of `str(n)` read back as `n` |
| Strings.ParseIntShape | bot/handlers/admin_handlers.py:134-135 | `int(s)` (`None` for the raised `ValueError`) succeeds only when the stripped text is non-blank, ends in a digit and starts with a digit or a sign; the value it reads is stated by `IntRoundTrip` |
| Strings.IntRoundTrip | bot/handlers/admin_handlers.py:134-135 | `int(str(n)) == n` for every integer |
| Strings.IntToStringHasNoUnderscore | bot/handlers/admin_handlers.py:130 | `str(n)` never contains `_`, so an id adds exactly one piece to the split callback data |
| Strings.PySlice | bot/handlers/admin_handlers.py:1038 | `s[i:j]` with Python's out-of-range bounds: no longer than `s`, and for `0 <= i <= j` the slice cut at the end |
| Strings.SliceIndex | bot/handlers/admin_handlers.py:1038 | a slice bound becomes an index in `[0, n]`, counted from the end when negative |
| Ordering.PrependOrdered | bot/database.py:112 | an ordered listing stays ordered when a row that may precede all of it is put first |
| Ordering.Insert | bot/database.py:112 | inserting a row into an ordered listing keeps it ordered and adds exactly that row |
| Ordering.Sort | bot/database.py:120 | `ORDER BY score DESC, created_at DESC` yields an ordered permutation of the rows |
| Database.Filter | bot/database.py:112 | `WHERE p`: in table order, exactly the rows that satisfy `p`, no longer than the table |
| Database.FilterMultiset | bot/database.py:112 | a qualifying row is selected as often as it occurs and no other row is selected |
| Database.FilterAll | bot/database.py:144 | a `WHERE` every row satisfies selects the whole table unchanged |
| Database.FilterSamePredicate | bot/database.py:167 | two `WHERE` clauses that agree on every row select the same rows |
| Database.FilterHead | bot/handlers/admin_handlers.py:106 | the first selected row is the first qualifying row of the table |
| Database.FilterCons | bot/database.py:112 | a row at the front is selected before the rest exactly when it qualifies |
| Database.FilterCommute | bot/database.py:144 | applying two `WHERE` clauses in either order selects the same rows |
| Database.DistinctAt | bot/database.py:191 | in a sequence without repeats two positions hold different rows |
| Database.Limit | bot/database.py:120 | SQLite `LIMIT n`: a prefix of length `min(n, count)`, or everything when `n` is negative |
| Database.Clamp | bot/database.py:191 | a position cut into `[0, n]`, unchanged when already inside |
| Database.TopRows | bot/database.py:120 | `ORDER BY … LIMIT`: ordered, drawn from the rows, of length `min(limit, count)`, a permutation of them when the limit does not bite, and every selected row precedes every left-out one |
| Database.SortedPrefix | bot/database.py:120 | a prefix of a sorted permutation is ordered, drawn from the rows, and precedes every row it leaves out |
| Database.TailIncreasing | bot/database.py:128 | with auto-increment ids, the rows after the first have increasing ids larger than the first's |
| Database.PrependIncreasing | bot/database.py:128 | a row with a smaller id than all others may be put first and ids still increase |
| Database.IncreasingDistinct | bot/database.py:128 | a table with increasing ids has no duplicate row |
| Database.FilterIncreasing | bot/database.py:144 | a `WHERE` keeps ids increasing |
| Database.SameIdSameRow | bot/database.py:128 | two rows with the same id are the same row |
| Database.GetEventById | bot/database.py:126-133 | `get_event_by_id` returns a row of the table with that id, and `None` exactly when no row has it |
| Database.GetEventByIdUnique | bot/database.py:126-133 | with auto-increment ids, `get_event_by_id(e.id)` finds exactly `e` |
| Database.GetPendingEvents | bot/database.py:110-116 | exactly the rows with status 'pending' and `is_it_related = 1`, each as often as stored, by score then creation time descending |
| Database.ApprovedOrder | bot/database.py:120 | the approved-event listing holds exactly the approved rows |
| Database.ApprovedOrderSorted | bot/database.py:120 | that listing is ordered by score then creation time descending and is a permutation of the approved rows |
| Database.ApprovedOrderDistinct | bot/database.py:191 | with distinct ids the approved listing repeats no row |
| Database.GetApprovedEvents | bot/database.py:118-124 | `get_approved_events(limit)`: a prefix of the approved order of length exactly `min(limit, count)`, all of it when the limit is negative or does not bite |
| Database.GetTotalApprovedEvents | bot/database.py:197-203 | the count is the length of the approved listing |
| Database.LimitOffsetSlice | bot/database.py:191 | `LIMIT l OFFSET o` is the slice `[o, o + l)` cut at the end |
| Database.TimesIsProduct | bot/database.py:190 | the repeated-addition offset equals `page * limit` |
| Database.PageStartIsProduct | bot/database.py:190 | the offset of a page is `page * limit` |
| Database.PageStartNonNegative | bot/database.py:190 | a non-negative page has a non-negative offset |
| Database.PageStartStep | bot/database.py:190 | the next page starts `limit` rows later |
| Database.PageStartMonotone | bot/database.py:190 | a later page starts at or after the end of an earlier one |
| Database.Page | bot/database.py:190-191 | page `p` holds at most `limit` rows and is the slice `[p*limit, p*limit + limit)` cut at the end |
| Database.ConsecutivePagesOf | bot/database.py:190-191 | two consecutive pages together are the slice spanning both: nothing is skipped |
| Database.PagesDisjointOf | bot/database.py:190-191 | different pages of a sequence without repeats share no element |
| Database.DistinctSlicesApart | bot/database.py:190-191 | in a sequence without repeats, an element of one slice is in no later slice |
| Database.PageNonEmptyOf | bot/database.py:190-191 | a page holds rows exactly when it starts before the end |
| Database.RowOnItsPage | bot/database.py:190-191 | row `i` is on page `i / limit` |
| Database.GetEventsPaginated | bot/database.py:188-195 | at most `limit` rows, the slice `[page*limit, page*limit + limit)` of the approved order |
| Database.ConsecutivePages | bot/database.py:188-195 | consecutive pages of approved events are adjacent slices of the approved order |
| Database.PagesDisjoint | bot/database.py:188-195 | with auto-increment ids, two different pages of approved events share no row |
| Database.PageNonEmpty | bot/database.py:188-203 | a page of approved events is non-empty exactly when its offset is below `get_total_approved_events()` |
| Database.BestMatches | bot/database.py:157-158 | exactly `min(limit, count)` of the rows satisfying the filter, ordered score-descending, each scoring at least every matching row left out, and a permutation of all of them when the limit is negative or does not bite |
| Database.SearchEvents | bot/database.py:151-163 | approved rows matching the query in title, description or analysis, score-descending, exactly `min(limit, count)` of them, the best-scored ones when the limit bites and all of them otherwise |
| Database.SearchEventsByKeywords | bot/database.py:165-186 | approved rows matching at least one keyword, score-descending, exactly `min(limit, count)` of them, the best-scored ones when it bites and all of them otherwise; no keyword gives the empty result of the failed `WHERE ()` |
| Database.SingleKeywordIsSearch | bot/database.py:151-186 | a search by one keyword returns what `search_events` with that query returns |
| Database.WithStatus | bot/database.py:137 | `UPDATE … SET status WHERE id` keeps the number of rows; its effect is stated by `UpdateStatusEffect` |
| Database.UpdateStatusEffect | bot/database.py:135-140 | after `update_status(id, s)` the row with that id has status `s` whatever it was, every other id reads as before, and an unknown id changes nothing |
| Database.OtherIdsUnchanged | bot/database.py:137 | a status update leaves the lookup of every other id unchanged |
| Database.DeleteEventEffect | bot/database.py:142-149 | after `delete_event(id)` no row has that id and every other id is still found |
| Database.DeleteKeepsOthers | bot/database.py:144 | deleting one id leaves the lookup of every other id unchanged |
| Database.ModerationQueue | bot/handlers/admin_handlers.py:659-660 | the queue holds exactly the events with status 'new' or 'pending', with ids increasing |
| Database.GetPendingEventsPaginated | bot/handlers/admin_handlers.py:659 | page `page` of the moderation queue, at most `limit` events |
| Database.GetTotalPendingEventsCount | bot/handlers/admin_handlers.py:660 | the length of the moderation queue, so zero exactly when no event awaits moderation |
| Database.DecisionLeavesQueue | bot/handlers/admin_handlers.py:729-747 | approving or rejecting an event removes it from the queue and keeps the rest, in order |
| Database.WithStatusCons | bot/database.py:137 | a status update acts on the first row, then on the rest |
| Database.DeletionLeavesQueue | bot/handlers/admin_handlers.py:767 | deleting an event removes it from the queue and keeps the rest, in order |
| Database.GetAllEventsPaginated | bot/handlers/admin_handlers.py:811 | page `page` of the whole events table, at most `limit` rows |
| Database.GetAdmin | bot/database.py:39-49 | `get_admin(t)` returns a row of `t`, and `None` exactly when `t` has no admin row |
| Database.RemoveAdminEffect | bot/database.py:30-49 | after `remove_admin(t)`, `get_admin(t)` is `None` and every other admin is still found |
| Database.RemoveAdminKeepsOthers | bot/database.py:32 | removing `t` leaves every other admin's lookup unchanged |
| Database.WithRole | bot/handlers/admin_handlers.py:624 | a role change keeps the number of admin rows; its effect is stated by `AdminHandlers.GetAdminWithRole` |
| Database.GetUser | bot/handlers/user_handlers.py:507 | `get_user(t)` returns a user with that chat id, and `None` exactly when there is none |
| Database.GetUserById | bot/handlers/admin_handlers.py:137 | `get_user_by_id(id)` returns a user with that id, and `None` exactly when there is none |
| Database.GetUserEvents | bot/handlers/user_handlers.py:519 | exactly the user's registration rows |
| Database.GetPendingRegistrations | bot/handlers/admin_handlers.py:102 | exactly the pending registration rows |
| Database.GetEventRegistrations | bot/handlers/admin_handlers.py:1030 | exactly the event's registration rows |
| Database.ApprovePair | bot/handlers/admin_handlers.py:136 | approval keeps the number of rows; its effect is stated by `ApprovePairEffect` |
| Database.ApprovePairEffect | bot/handlers/admin_handlers.py:136 | after approval the pair has no pending row left, it is still registered, and the rows of other pairs are as before |
| Database.FDataBase.constructor | bot/database.py:6-9 | a store with the given users and empty event, admin and registration tables, ids valid |
| Database.FDataBase.AddEvent | bot/database.py:93-108 | returns True exactly when the URL is "invite", "file_upload" or not yet stored; then exactly one row with the given fields and a fresh id is appended; otherwise nothing changes; no other table changes |
| Database.FDataBase.AddNewEvent | bot/handlers/admin_handlers.py:242-254 | appends exactly one row with a fresh id and returns True; no other table changes |
| Database.FDataBase.UpdateStatus | bot/database.py:135-140 | the events table becomes the status update of the old one, ids stay valid, nothing else changes |
| Database.FDataBase.DeleteEvent | bot/database.py:142-149 | every row with the id is removed, others kept in order, True returned even when none matched |
| Database.FDataBase.AddAdmin | bot/database.py:20-28 | appends one admin row with the given fields and returns True; nothing else changes |
| Database.FDataBase.RemoveAdmin | bot/database.py:30-37 | every admin row of the id is removed, others kept, True returned even when none matched |
| Database.FDataBase.UpdateAdminRole | bot/handlers/admin_handlers.py:624 | every admin row of the id gets the role; nothing else changes |
| Database.FDataBase.AddUserEvent | bot/handlers/user_handlers.py:590 | True exactly when the pair has no row; then one pending row is appended, otherwise nothing changes |
| Database.FDataBase.ApproveRegistration | bot/handlers/admin_handlers.py:136 | True exactly when the pair had a pending row; then those become approved, otherwise nothing changes |
| Database.FDataBase.RejectRegistration | bot/handlers/admin_handlers.py:181 | True exactly when the pair had a pending row; then the pair's rows are removed, otherwise nothing changes |
| Database.FDataBase.RemoveUserEvent | bot/handlers/user_handlers.py:638 | the pair's rows are removed whatever their status; nothing else changes |
| GigaChat.RemoveFences | bot/services/gigachat_service.py:53 | the substitution of the pattern for `json` fences and bare fences by nothing: the leftmost match is removed, `json` fences in preference to bare ones, and every other character is kept in order |
| GigaChat.AfterKeptTick | bot/services/gigachat_service.py:53 | a backtick that survives is never followed by two more |
| GigaChat.RemovedFencesNoFence | bot/services/gigachat_service.py:53 | no three backticks survive the substitution |
| GigaChat.SliceNoFence | bot/services/gigachat_service.py:53 | a slice of fence-free text is fence-free, so the `strip()` after it keeps it so |
| GigaChat.NoFenceNotContains | bot/services/gigachat_service.py:53 | fence-free text fails the substring test for three backticks |
| GigaChat.CleanedHasNoFence | bot/services/gigachat_service.py:53-55 | the text `json.loads` receives never contains a code fence |
| GigaChat.RemoveFencesNoTicks | bot/services/gigachat_service.py:53 | text without backticks passes through the substitution unchanged |
| GigaChat.FencedReplyRoundTrip | bot/services/gigachat_service.py:53 | a reply wrapped in a `json` code block is unwrapped to its stripped content |
| GigaChat.UnfencedReply | bot/services/gigachat_service.py:53 | a reply without backticks is only stripped |
| GigaChat.CappedAdd | bot/services/gigachat_service.py:58-61 | `min(score + bonus, 100)`: at most 100, the sum when that is at most 100 |
| GigaChat.BoostedSingleCap | bot/services/gigachat_service.py:57-61 | no bump leaves the score unchanged; otherwise the result is the sum of the applied bonuses capped once at 100 |
| GigaChat.BoostedBounds | bot/services/gigachat_service.py:57-63 | for a score of at most 100, the boosted score lies in `[score, min(score + 25, 100)]` |
| GigaChat.BoostedMonotone | bot/services/gigachat_service.py:57-61 | a higher parsed score never yields a lower boosted score |
| GigaChat.ThemeMatchesInsideWords | bot/services/gigachat_service.py:57 | the theme test is a raw substring test: any "a" or "A" followed by "i" or "I", anywhere in the text, counts as "AI" |
| GigaChat.EmailMentionsTheme | bot/services/gigachat_service.py:57 | so "Send your email" earns the theme bonus |
| GigaChat.WithScore | bot/services/gigachat_service.py:58 | `result['score'] = n`: the score reads `n`, the keys are the old ones plus `score`, and every other key keeps its value |
| GigaChat.Fallback | bot/services/gigachat_service.py:65-79 | the fixed record: an object with score 0, `is_it_related` false, recommendation "пропустить" and no themes; its title, date and location are read by `AdminHandlers.FailedCallRow` |
| GigaChat.AnalyzeEvent | bot/services/gigachat_service.py:11-79 | a failed call or decoding, or a bump on a decoded value without an integer score, yields the fallback; otherwise the decoded value with the score boosted by the theme and then the organiser bump |
| GigaChat.AnalyzedScoreCapped | bot/services/gigachat_service.py:57-63 | whenever a bump applies, the returned score is at most 100, and a parsed score at most 100 is not lowered |
| GigaChat.AnalyzeFileContent | bot/services/gigachat_service.py:81-114 | the decoded value when it is a list, and the empty list otherwise, also when the call or decoding fails |
| AdminHandlers.CheckAccessById | bot/handlers/admin_handlers.py:24-33 | the caller's admin row exactly when the id is present, `get_admin` finds a row and its role is GreatAdmin, Owner, Admin or Moderator; `None` otherwise |
| AdminHandlers.GetAdminAppend | bot/database.py:20-49 | appending an admin row changes `get_admin` only for an id that had no row |
| AdminHandlers.AddedAdminHasAccess | bot/handlers/admin_handlers.py:24-33 | an id without a row, added with a staff role, passes the access check as that row |
| AdminHandlers.RemovedAdminHasNoAccess | bot/handlers/admin_handlers.py:24-33 | after `remove_admin(t)` the check refuses `t` |
| AdminHandlers.GetAdminWithRole | bot/handlers/admin_handlers.py:624 | after a role change, `get_admin(t)` is the old row with the new role, and `None` when there was none |
| AdminHandlers.RoleChangeDecidesAccess | bot/handlers/admin_handlers.py:24-33 | after `update_admin_role(t, role)` an admin passes the check exactly when `role` is a staff role |
| AdminHandlers.IntsAtSpec | bot/handlers/admin_handlers.py:134-135 | the listed pieces are read exactly when every one is an integer (otherwise the raised `ValueError`), and then as those integers, one per position, in order |
| AdminHandlers.ReadCallback | bot/handlers/admin_handlers.py:130-135 | data with fewer than the required `_`-separated pieces is refused; otherwise the listed pieces are read with `int()`, and a bad piece raises |
| AdminHandlers.JoinStep | bot/handlers/admin_handlers.py:130 | joining a first piece with the rest puts exactly one `_` between them |
| AdminHandlers.TwoIdsRoundTrip | bot/handlers/admin_handlers.py:130-135 | data `w1_w2_a_b` reads back as user `a` and event `b` |
| AdminHandlers.IntsAtTwo | bot/handlers/admin_handlers.py:134-135 | with four pieces whose third and fourth are integers, `int(parts[2])`, `int(parts[3])` reads exactly those two |
| AdminHandlers.IntsAtOne | bot/handlers/admin_handlers.py:990 | a single piece that is an integer, counted from the front or from the back, is read as that integer |
| AdminHandlers.OneIdRoundTrip | bot/handlers/admin_handlers.py:724-728 | data `w1_w2_n` reads back as `n` through `parts[2]` and through `parts[-1]` |
| AdminHandlers.ThreeWordsOneIdRoundTrip | bot/handlers/admin_handlers.py:952-956 | data `w1_w2_w3_n` reads back as `n` through `parts[3]` and through `parts[-1]` |
| AdminHandlers.NextRegScreen | bot/handlers/admin_handlers.py:101-106 | "no requests" exactly when no registration is pending; otherwise the first pending row in table order |
| AdminHandlers.DecidedHasNoPending | bot/handlers/admin_handlers.py:136-181 | after approval or rejection the pair has no pending row |
| AdminHandlers.DecideRequest | bot/handlers/admin_handlers.py:136-204 | done exactly when the pair had a pending row, which the decision then clears; the employee is notified only when both the user and the event still exist; otherwise "already processed" and nothing changes; the queue head is shown again either way |
| AdminHandlers.RegDecision | bot/handlers/admin_handlers.py:126-204 | refused without access; refused with no change for data with fewer than 4 pieces; otherwise the decision on `parts[2]`, `parts[3]` |
| AdminHandlers.SecondDecisionIsNoOp | bot/handlers/admin_handlers.py:136-199 | a second approve or reject of the same request finds it processed, changes nothing and notifies no one |
| AdminHandlers.DecisionMovesQueue | bot/handlers/admin_handlers.py:106-204 | deciding the head request is followed by a screen that is never a request of the same pair |
| AdminHandlers.RegSkip | bot/handlers/admin_handlers.py:207-216 | skip changes nothing and notifies no one; with access it shows the same queue head again, without it nothing |
| AdminHandlers.RegDecisionHandler | bot/handlers/admin_handlers.py:126-204 | on the store, the registrations become the decision's result and the answer, notices and screen are the decision's |
| AdminHandlers.ShowModerationPage | bot/handlers/admin_handlers.py:658-683 | the event at position `page` of the queue with `total_pages = max(1, count)`, or "all reviewed" past the end |
| AdminHandlers.ModerationHeadIsOldest | bot/handlers/admin_handlers.py:659 | with auto-increment ids, the head of the queue has the smallest id in it |
| AdminHandlers.RemovingHeadShowsNext | bot/handlers/admin_handlers.py:729-773 | after the head is decided or deleted, page 0 shows the event that was second, or "all reviewed" |
| AdminHandlers.HeadRemoved | bot/handlers/admin_handlers.py:767 | dropping the head's id from an id-increasing queue drops exactly the head |
| AdminHandlers.QueueShownFromStart | bot/handlers/admin_handlers.py:656 | page 0 shows the head of the queue, or "all reviewed" when it is empty |
| AdminHandlers.ModerationStep | bot/handlers/admin_handlers.py:686-787 | no access changes nothing; too few pieces answers "bad data" and a non-integer `parts[2]` the raised error, both with no change; prev/next show the page in `parts[2]`; approve and reject update the status without checking it; delete acts only on an existing event; every decision, deletion and skip is followed by page 0 |
| AdminHandlers.ModerationHandler | bot/handlers/admin_handlers.py:686-787 | on the store, the events table becomes the step's result and the answer and screen are the step's |
| AdminHandlers.TotalPages | bot/handlers/admin_handlers.py:813 | `max(1, ceil(n / per))`, the same formula as at line 1035: at least 1, 1 for no rows, otherwise the last page starts before row `n` and the pages cover all `n` rows |
| AdminHandlers.ParticipantsPage | bot/handlers/admin_handlers.py:1036-1038 | `registrations[page*5 : page*5 + 5]`: at most five rows, the slice for a non-negative page |
| AdminHandlers.ParticipantOnItsPage | bot/handlers/admin_handlers.py:1035-1038 | registration `i` is on page `i / 5`, which is below the page count |
| AdminHandlers.ParticipantPagesNonEmpty | bot/handlers/admin_handlers.py:1035-1038 | every page the count admits holds a participant when there is one |
| AdminHandlers.ShowParticipantsPage | bot/handlers/admin_handlers.py:1029-1053 | refused exactly when the event is missing; otherwise the rows are page `page` of the event's registrations (at most five, the slice `[page*5, page*5 + 5)`), with the page count |
| AdminHandlers.ShowEventsListPage | bot/handlers/admin_handlers.py:810-824 | "no events" exactly when the page starts past the table; otherwise the rows are page `page` of the whole table (at most ten, the slice `[page*10, page*10 + 10)`) and `max(1, ceil(n / 10))` pages |
| AdminHandlers.ListedOnItsPage | bot/handlers/admin_handlers.py:811-813 | event `i` is on page `i / 10`, which is below the page count |
| AdminHandlers.ScanPriority | bot/handlers/admin_handlers.py:236 | 'high' exactly when the score is at least 80, 'medium' otherwise |
| AdminHandlers.ScanRow | bot/handlers/admin_handlers.py:233-257 | the row of one candidate: status 'new', rank 1, the analysis's score (default 0), 'high' exactly from 80, the defaults "Неизвестно", "СПб", "Не указана", the parsed date or now; `None`, a skipped candidate, when the body raises |
| AdminHandlers.ScanRows | bot/handlers/admin_handlers.py:232-257 | the rows the loop inserts, in order, at most one per candidate, every one with status 'new', rank 1 and priority 'high' exactly from score 80 |
| AdminHandlers.CandidateRowIsScanned | bot/handlers/admin_handlers.py:236-253 | the row one candidate yields, if any, has status 'new', rank 1 and priority 'high' exactly from score 80 |
| AdminHandlers.FailedCallRow | bot/handlers/admin_handlers.py:234-254 | a candidate whose classifier call failed is still stored: "Не удалось распознать", "СПб", "Не указана", score 0, 'medium' |
| AdminHandlers.BoostedRowScoreCapped | bot/handlers/admin_handlers.py:234-249 | a stored row whose text triggered a bump has a score of at most 100 |
| AdminHandlers.StoredRows | bot/handlers/admin_handlers.py:242-254 | the rows as stored, with consecutive ids from the next free one |
| AdminHandlers.ScanSources | bot/handlers/admin_handlers.py:219-260 | no access or no candidates changes nothing; otherwise every row that does not raise is appended in order under consecutive ids and counted |
| AdminHandlers.InsertScanned | bot/handlers/admin_handlers.py:231-257 | the loop appends exactly the scanned rows under consecutive ids and `processed_count` is their number |
| AdminHandlers.ScanRowsStep | bot/handlers/admin_handlers.py:232-257 | one more candidate adds its row, if any, at the end |
| AdminHandlers.StoredRowsAppend | bot/handlers/admin_handlers.py:242-255 | inserting one more row extends the stored rows by it under the next id |
| AdminHandlers.OrDefault | bot/handlers/admin_handlers.py:938-941 | `value or default`: the value when present and non-empty, else the default |
| AdminHandlers.ManualEvent | bot/handlers/admin_handlers.py:937-943 | the manual row: status 'pending', score 0, 'medium', rank 1, "{}" analysis, title default "Без названия", empty other defaults |
| AdminHandlers.OpenEventForm | bot/handlers/admin_handlers.py:838-849 | staff get the form's first question; anyone else is refused and the open form is kept |
| AdminHandlers.AddedAdminOpensForm | bot/handlers/admin_handlers.py:838-849 | a new admin added with a staff role may open the form |
| AdminHandlers.FormStep | bot/handlers/admin_handlers.py:892-945 | the cancel button closes the form at every step; otherwise the text is kept and the next question asked; only the last step yields a row, the manual row of what was typed |
| AdminHandlers.FormFillsInOrder | bot/handlers/admin_handlers.py:892-945 | five answers that are not the cancel button yield the manual row of exactly those answers |
| AdminHandlers.SubmitEventForm | bot/handlers/admin_handlers.py:932-945 | the store gains exactly the row the step yields, if any; nothing else changes |
| AdminManagement.ButtonsGrantStaffRoles | bot/handlers/admin_handlers.py:487-491 | every role button grants a staff role and never "Owner"; the cancel button is not a role button |
| AdminManagement.ManagerGate | bot/handlers/admin_handlers.py:413-419 | no access exactly when the access check fails; allowed exactly when it passes with role GreatAdmin or Owner |
| AdminManagement.StartFlow | bot/handlers/admin_handlers.py:445-589 | the add, remove and change entry points (445-459, 524-537, 580-589): a manager is asked for an id; anyone else stays where they were |
| AdminManagement.ReadId | bot/handlers/admin_handlers.py:463-470 | cancel exactly for the cancel button, a raise exactly for a message without text, an id only for all-digit text |
| AdminManagement.ReadIdOfDecimal | bot/handlers/admin_handlers.py:467-470 | an id typed in decimal is read as that id |
| AdminManagement.AddIdStep | bot/handlers/admin_handlers.py:462-483 | an id with an admin row ends the conversation unchanged; a new id moves on to the role |
| AdminManagement.AddRoleStep | bot/handlers/admin_handlers.py:486-521 | a role button appends `(t, "Неизвестно", role)` and tells `t`; anything else asks again and changes nothing |
| AdminManagement.RemoveStep | bot/handlers/admin_handlers.py:540-577 | the caller's own id is refused before any lookup; an unknown id ends the conversation; otherwise every row of the id goes |
| AdminManagement.ChangeIdStep | bot/handlers/admin_handlers.py:592-612 | an unknown id is refused before the caller's own id; a known other admin's role is kept for the next step |
| AdminManagement.ChangeRoleStep | bot/handlers/admin_handlers.py:615-644 | a role button gives every row of the id that role and tells them; anything else asks again |
| AdminManagement.StepsSpareTheCaller | bot/handlers/admin_handlers.py:549-609 | no step removes the caller's rows or changes the caller's role |
| AdminManagement.GetAdminWithRoleOther | bot/handlers/admin_handlers.py:624 | a role change for one id leaves every other id's lookup unchanged |
| AdminManagement.AddConversationGrantsAccess | bot/handlers/admin_handlers.py:462-521 | the add conversation run to the end lets the new admin pass the access check with the chosen role |
| AdminManagement.RemoveConversationRevokesAccess | bot/handlers/admin_handlers.py:540-577 | an admin the remove conversation removes no longer passes the access check |
| AdminManagement.ChangeConversationKeepsAccess | bot/handlers/admin_handlers.py:592-644 | the re-roled admin keeps access, now under the chosen role |
| AdminManagement.HandleMessage | bot/handlers/admin_handlers.py:462-644 | on the store, the admin table changes exactly as the step says and no other table changes |
| UserHandlers.ApprovedUser | bot/handlers/user_handlers.py:564-567 | the caller's user row exactly when it exists and has status 'approved' |
| UserHandlers.Clear | bot/handlers/user_handlers.py:564-579 | in order: not approved, a bad `parts[2]` (raises), a missing event, a required rank (99 when absent) above the user's; cleared otherwise |
| UserHandlers.FirstRegistration | bot/handlers/user_handlers.py:521-525 | the status of the first row for the event, and `None` ("none") exactly when there is none |
| UserHandlers.FirstRegistrationOfUser | bot/handlers/user_handlers.py:519-525 | the user's rows report no status exactly when the user has no row for the event |
| UserHandlers.FirstRegistrationFrom | bot/handlers/user_handlers.py:582-587 | the first registration from row `i` on is row `i`'s own when it is for the event, else the first one after it |
| UserHandlers.FindRegistration | bot/handlers/user_handlers.py:521-525 | the search loop with `break` returns the status of the first matching row |
| UserHandlers.EventDetails | bot/handlers/user_handlers.py:506-560 | the card of a cleared event with the user's registration status, refused on the same checks |
| UserHandlers.RequestRegistration | bot/handlers/user_handlers.py:563-624 | after the checks, any row for the pair stops the request with no change, "already requested" exactly when the first such row is pending and "already registered" otherwise; otherwise one pending row is added and sent to a manager other than the user, or approved at once when there is none or the send fails; the add never fails |
| UserHandlers.RequestRegisters | bot/handlers/user_handlers.py:590-613 | a request that goes ahead leaves the pair registered, pending with the manager or approved |
| UserHandlers.SecondRequestIsRefused | bot/handlers/user_handlers.py:581-588 | asking twice changes nothing the second time |
| UserHandlers.RequestRegistrationHandler | bot/handlers/user_handlers.py:563-624 | on the store, the registrations and the answer are those of the decision |
| UserHandlers.KeepKeywords | bot/handlers/user_handlers.py:382 | at most one keyword per piece, each non-empty, without surrounding whitespace, and the strip of a piece; that none is dropped and order is kept is `KeepKeywordsAppend` |
| UserHandlers.Keywords | bot/handlers/user_handlers.py:381-382 | every keyword is non-empty, without surrounding whitespace and without a comma; which ones and in what order is `KeywordsOfPieces` |
| UserHandlers.KeywordsRoundTrip | bot/handlers/user_handlers.py:381-382 | clean keywords joined with commas are read back as exactly those keywords |
| UserHandlers.JoinUnpadded | bot/handlers/user_handlers.py:381 | text joined from unpadded pieces is itself unpadded |
| UserHandlers.KeepCleanKeywords | bot/handlers/user_handlers.py:382 | clean pieces are all kept unchanged |
| UserHandlers.KeepKeywordsAppend | bot/handlers/user_handlers.py:382 | one more piece adds its strip at the end exactly when that strip is non-empty: nothing is dropped and order is kept |
| UserHandlers.KeepKeywordsUpdate | bot/handlers/user_handlers.py:382 | replacing a piece by one with the same strip gives the same keywords |
| UserHandlers.KeepKeywordsTrimmed | bot/handlers/user_handlers.py:382 | cutting the first and last piece without changing their strips gives the same keywords |
| UserHandlers.StripFrontInFirst | bot/handlers/user_handlers.py:381 | the leading whitespace of a text of several pieces lies inside its first piece |
| UserHandlers.StripBackInLast | bot/handlers/user_handlers.py:381 | the trailing whitespace of a text lies after its last comma |
| UserHandlers.KeywordsOfOnePiece | bot/handlers/user_handlers.py:381-382 | a text without a comma yields its own strip, if non-empty |
| UserHandlers.StripIsTrimmed | bot/handlers/user_handlers.py:381 | the strip of a text of several pieces is the join of its pieces with the first and last cut |
| UserHandlers.StripOfPieces | bot/handlers/user_handlers.py:381 | stripping a text of several pieces cuts only whitespace, off its first and last piece |
| UserHandlers.KeywordsOfManyPieces | bot/handlers/user_handlers.py:381-382 | for a text of several comma-free pieces, the keywords are those of its pieces |
| UserHandlers.KeywordsOfPieces | bot/handlers/user_handlers.py:381-382 | the keywords are exactly the non-empty strips of the pieces of `text.split(',')`, in order, padded pieces included: stripping the whole text first changes nothing |
| UserHandlers.KeywordsOfJoin | bot/handlers/user_handlers.py:381-382 | keywords typed between commas, padded or not, are read back as their non-empty strips, in order |
| UserHandlers.SearchText | bot/handlers/user_handlers.py:375-397 | cancel closes; no text raises; no keyword asks again with the prompt open; a non-approved user closes; an approved user's keywords reach the search call, which raises `TypeError` before `state.clear()`, so the prompt stays open |
| UserHandlers.Take | bot/handlers/user_handlers.py:452-459 | `s[:n]`: the prefix of `s` of length `n`, or all of `s` when it is shorter |
| UserHandlers.MyEvents | bot/handlers/user_handlers.py:424-466 | not approved, empty calendar exactly when the user has no rows, or the first five approved and first five pending rows in order with the total |
| UserHandlers.CalendarPartitions | bot/handlers/user_handlers.py:445-446 | the approved and pending lists together are the user's rows and share none |
| Signup.Advance | bot/handlers/user_handlers.py:49-141 | the cancel button closes the first three steps; no text raises; name needs `len(strip) >= 2`, email needs '@' and '.'; each stores the stripped value; the position must be a button and is stored as its mapped value; the cancel button is a wrong answer at that step |
| Signup.AdvanceKeepsChecked | bot/handlers/user_handlers.py:56-123 | every step keeps each stored value checked and stripped |
| Signup.StoredValuesRecheck | bot/handlers/user_handlers.py:56-79 | a stored name or email passes its check again and stripping it changes nothing |
| Signup.FillsInOrder | bot/handlers/user_handlers.py:40-141 | four good answers in order lead to the summary of the stripped values and the mapped position |
| Signup.CancelClosesEarlySteps | bot/handlers/user_handlers.py:51-121 | the cancel button closes the form at the first three steps and is a wrong answer at the fourth |

## Left out

- Telegram I/O is not modelled: sending, deleting and editing messages, callback answers and keyboards. A notice to a user appears only as an emitted intent.
- The SQL text, the `sq_db.sql` schema and sqlite error paths are not modelled. Every write succeeds; the tables are sequences in insertion order.
- Ties in `ORDER BY score DESC, created_at DESC` are broken by table order, which SQLite does not promise.
- The searches (bot/database.py:157, 178) order by `score DESC` alone, so SQLite leaves rows of equal score in any order. `BestMatches`, `SearchEvents` and `SearchEventsByKeywords` pick one such order, `created_at` then table order; their length, multiset and best-scored-prefix clauses hold for every order.
- Concurrency is not modelled: two moderators racing on one item appear only as two decisions in a row.
- Integer widths are not modelled: ids, scores and pages are unbounded integers.
- Floats are out: `json.loads` of a float score, and the average score of `get_stats`.
- The GigaChat client call, `json.loads`, `json.dumps`, `strptime` and the clock are parameters of the model. The parser's `get_events()` is a parameter too.
- The store methods the handlers call that `bot/database.py` does not define are given the bodies their callers rely on:
  - `add_new_event` is a plain append;
  - `get_pending_events_paginated` and `get_total_pending_events_count` read the events with status 'new' or 'pending' in id order;
  - `approve_registration` and `reject_registration` succeed only when the pair has a pending row; approval makes the pair's pending rows approved and rejection deletes all the pair's rows;
  - `add_user_event` succeeds only when the pair has no row, and then appends one pending row;
  - `remove_user_event` deletes the pair's rows whatever their status;
  - `get_user_events`, `get_user`, `get_user_by_id`, `get_event_registrations` and `get_all_events_paginated` are lookups.
- The job-title-to-rank table and `get_user_manager` have no source here, so the user's rank and manager are inputs.
- UserHandlers.Clear: assumes the schema gives `events.required_rank` the default 99 and never stores NULL. `event.get('required_rank', 99)` (bot/handlers/user_handlers.py:528, 577) falls back to 99 only for an absent key, but a `SELECT *` row always holds the key. A row from `add_event`, whose INSERT names no `required_rank`, holds the column's default. `RequiredRank` reads a missing value as 99, where a NULL would make `None > user_rank` raise `TypeError`. `RequestRegistration` and `EventDetails` inherit this through `Clear`.
- UserHandlers.EventDetails: assumes the event row has a readable, non-null `analysis` column holding JSON. Line 532 reads `event['analysis']`, while `add_event` writes the column `ai_analysis` (bot/database.py:101). Under that schema the lookup raises `KeyError`, a NULL makes `json.loads` raise `TypeError`, and bad JSON raises too. The model always shows the card of a cleared event.
- `db.update_user_activity` is called before each user screen (bot/handlers/user_handlers.py:29, 239, 265, 325, 360, 431, 475). It has no source here and only writes a timestamp, so it is not modelled.
- Registration rows have only the statuses 'pending' and 'approved': a rejection deletes the row.
- The registration request's calls do not agree with the store's signatures, so the handlers that use them are left out or cut short:
  - `show_events_page` calls `get_events_paginated` with an extra user id (bot/handlers/user_handlers.py:274), which raises `TypeError`, so that handler and `pagination_handler` are left out;
  - `process_search_text` calls `search_events_by_keywords` the same way (line 394): `limit` is given twice, the call raises `TypeError` before `state.clear()`, and `SearchText` ends in `SearchRaised` with the prompt still open; the result screen `show_search_results` is therefore never reached and is left out;
  - `Database.SearchEventsByKeywords` models the method as `bot/database.py` defines it.
- Scans store status 'new' (bot/handlers/admin_handlers.py:253) while `get_pending_events` reads only 'pending' (bot/database.py:112). The model keeps both as written, so a scanned event never appears in `get_pending_events`.
- `AdminHandlers.ScanRow` expects the title, location and date of an analysis to be strings and the score a number; any other JSON value is a skipped candidate, whereas sqlite would store some of them.
- Strings.ParseIntShape: states only the outline of text `int()` accepts (non-blank, a digit last, a digit or sign first), not that every character between is a digit; its value on the ids the handlers read is given by `IntRoundTrip` and `NatToStringValue`.
- `Strings.IsDigit` is ASCII only; Python's `isdigit` also accepts other Unicode digits.
- `Strings.Lower` folds ASCII and basic Cyrillic only; `LIKE` folds ASCII only, as SQLite does.
- `LIKE` wildcards typed into a search keyword are not modelled.
- `update_admin_role` may give an Owner a new role; no rule in the handlers stops it, and the model does not add one.
- `confirm_registration_handler`, `add_user`, `update_user_profile`, the profile, the priority list, the calendar export and `remove_from_calendar_handler`'s card are left out: they print or call store methods with no source here. Only `remove_user_event` is modelled, as `FDataBase.RemoveUserEvent`.
- The user approval screens (bot/handlers/admin_handlers.py:263-410), `show_stats`, `get_stats`, `get_all_admins`, `list_admins`, the admin event details card and `_dict_factory` are left out: they only format rows for display.
- `bot/services/parser_service.py`, `bot/services/calendar_service.py`, `bot/utils/keyboards.py`, `bot/main.py` and `bot/utils/states.py` are not part of this model.
