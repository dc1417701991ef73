# Bambu Lab MFA inbox watcher: the notification lifecycle

This project models the part of the watcher that decides which
verification-code notifications exist and what they look like. It has two
paths.

The Gmail path gets a Pub/Sub push and follows the mailbox history from a
saved cursor. It turns each inbound message into a `Notification`, keeps the
five newest in a bounded queue with no duplicate ids, and re-colours or
expires them in a background pass. Each change is published as a snapshot
for the UI.

The IMAP path waits in IDLE, fetches and parses the newest "Bambu Lab" mail,
and pushes a fresh code onto a five-slot stack. After every wake it ages the
stack.

The device controller also has a small helper: it reads the centre of a
uiautomator `bounds` attribute and picks the two endpoints of a scroll
swipe.

Modules:

- `PyLists` (`py_lists.dfy`) and `PyText` (`py_text.dfy`): the Python
  semantics the code relies on.
  - Truthiness of `None` and `""`, negative indexing, `xs[-k:]` and
    `list.remove`, which drops the first equal element or raises
    ValueError.
  - `list.reverse`, and the "collect, then remove each" idiom.
  - Decimal digits and `str(int)`.
- `NotificationStore` (`notification_store.dfy`):
  - the `Notification` dataclass;
  - `from_gmail`, which covers the header lookup, the `\b\d{6}\b` code
    scan, the id fallback and the expiry;
  - the `FixedQueue` class, with push, pop and length.
- `MfaImapMail` (`mfa_imap_mail.dfy`):
  - the `FixedStack` class;
  - the aging block of `Idler.idle`, as two loops over the stack;
  - `dosync2` and its freshness gate;
  - `dosync_wrapper`;
  - the `connect_imap` retry loop;
  - the stop/needsync skeleton of the idle loop.
- `EmailService` (`email_service.dfy`):
  - `NotificationController` with `add_notification`;
  - one pass of the `start_watcher` loop;
  - `fetch_latest_email_from_history` with its cursor;
  - the status decision of `receive_push`.
- `Controller` (`controller.dfy`): `get_bounds_center`,
  `swipe_by_bounds`, and how `scroll_up`/`scroll_down` pick their
  endpoints.

Times are whole seconds. The source divides floats: minutes over
`CODE_DURATION` on the IMAP path, and elapsed over lifetime in the Gmail
watcher. The model compares the same ratios by cross-multiplication, so
`3 * elapsed < lifetime` stands for `ratio < 1/3`. In the Gmail watcher the
lifetime's sign is honoured, and a zero lifetime is the ZeroDivisionError
that ends the thread.

Three behaviours of the code that a reader might not expect, all modelled
as the code has them:

- `FixedStack.push` does no id check, so the IMAP path can hold the same
  mail twice (`StackKeepsDuplicates`).
- `receive_push` decodes base64 and UTF-8 outside its `try`. Data that does
  not decode is an uncaught exception, which Flask answers with 500. It is
  not a 200 (`PushDecision`, `Status`).
- `dosync_wrapper` catches only connection errors. A search reply holding no
  ids makes `dat[-1]` raise IndexError, which leaves the wrapper
  (`Synced(EmptyIdList)`).

## Model

| member | source | states |
|---|---|---|
| PyLists.PyIndex | MFA_imap_Mail.py:199-200 | Python indexing: defined exactly for `-len <= i < len`; negative indices count from the end |
| PyLists.LastN | MFA_imap_Mail.py:199 | `xs[-k:]` is the last `min(k, len)` elements, a suffix of xs |
| PyLists.IndexOf | email_service.py:183 | the position found holds x and no earlier element equals x; None exactly when x is absent |
| PyLists.Remove | MFA_imap_Mail.py:85-86 | `list.remove` raises exactly when x is absent (list unchanged), and otherwise shortens the list by one |
| PyLists.RemoveAt | email_service.py:183 | removing an element known to sit first at k drops exactly position k |
| PyLists.RemoveEachFiltered | MFA_imap_Mail.py:144-168 | removing, one `remove` at a time, every element that satisfies p leaves exactly the others, in order |
| PyLists.Reverse | MFA_imap_Mail.py:81-83 | `list.reverse` puts element len-1-k at position k |
| NotificationStore.FirstHeader | notification_store.py:20-22 | the value of the first header with that name; None exactly when no header has it |
| NotificationStore.FindCodeFrom | notification_store.py:37 | the leftmost position at or after i where `\b\d{6}\b` matches; None when no later position matches |
| NotificationStore.SixDigitCode | notification_store.py:36-42 | the code lies in 0..999999 |
| NotificationStore.SixDigitCodeIsFirstMatch | notification_store.py:36-42 | the code is the value of the leftmost word-bounded six-digit run; None exactly when there is none |
| NotificationStore.BoundedRunIsCode | notification_store.py:36-42 | six digits between non-word characters, with no earlier match, are the code |
| NotificationStore.SevenDigitsAreNoCode | notification_store.py:36-42 | wherever a run of seven digits sits in the text, neither of its six-digit windows matches `\b\d{6}\b` |
| NotificationStore.SevenDigitSnippetHasNoCode | notification_store.py:36-42 | a snippet that is just seven digits has no code |
| NotificationStore.SentTime | notification_store.py:22-31 | the parsed Date header when it is present, non-empty and parses; the clock reading when it is absent, empty or unparsable |
| NotificationStore.FallbackId | notification_store.py:44 | the time/subject-derived id is never empty |
| NotificationStore.Subject | notification_store.py:21 | the first Subject header's value; "(no subject)" when no header has that name |
| NotificationStore.FromGmail | notification_store.py:17-54 | id truthy: msg_id when truthy, otherwise the fallback id; time is SentTime; `expires_at - time == lifetime`; body "(no snippet)" when the snippet is absent; colour green |
| NotificationStore.FromGmailCode | notification_store.py:33-42 | the notification's code is the first six-digit run of its body, and the body is the snippet when there is one |
| NotificationStore.PushIgnored | notification_store.py:62-65 | pushing None, a falsy id or an id already queued leaves the queue exactly as it was |
| NotificationStore.PushAppends | notification_store.py:66-68 | a push that is not ignored raises only when max_size <= 0; otherwise it ends with the new notification after the old contents, minus exactly the element at index 0 when the queue was full |
| NotificationStore.PushKeepsInvariant | notification_store.py:61-68 | every push keeps length <= max_size, ids unique and truthy |
| NotificationStore.PushAllKeepsInvariant | notification_store.py:61-68 | over any sequence of pushes the queue stays bounded with unique ids |
| NotificationStore.SixIntoFive | notification_store.py:57-68 | six distinct notifications into a five-slot queue leave the last five, in order |
| NotificationStore.PoppedAt | notification_store.py:70-73 | `pop` on an empty queue returns None and changes nothing; otherwise it removes and returns the element at the (Python) index, or raises IndexError out of range |
| NotificationStore.PopKeepsInvariant | notification_store.py:70-73 | popping keeps the invariant and the popped id is gone |
| NotificationStore.FixedQueue.constructor | notification_store.py:57-59 | an empty queue with the given max_size |
| NotificationStore.FixedQueue.HasId | notification_store.py:64 | the `any(...)` scan is true exactly when some queued note has the id |
| NotificationStore.FixedQueue.Push | notification_store.py:61-68 | the new queue and the raise are those of Pushed on the old queue; the invariant is kept |
| NotificationStore.FixedQueue.Pop | notification_store.py:70-73 | the new queue, the returned note and the raise are those of PoppedAt on the old queue |
| NotificationStore.FixedQueue.Len | notification_store.py:75-76 | the length of the queue |
| MfaImapMail.AgeColor | MFA_imap_Mail.py:155-161 | green exactly below a third of CODE_DURATION, blue exactly from two thirds, yellow between |
| MfaImapMail.AgeScenario | MFA_imap_Mail.py:150-161 | 99 s green, 100 s yellow, 199 s yellow, 200 s blue; 299 s alive, 300 s expired |
| MfaImapMail.Aged | MFA_imap_Mail.py:146-168 | aging never lengthens the stack (its meaning is stated by AgedSurvivors and AgedIsFilterThenRecolor) |
| MfaImapMail.AgedSurvivors | MFA_imap_Mail.py:146-168 | after aging nothing expired remains; each survivor has its age's colour and is an input note up to colour |
| MfaImapMail.AgedIsFilterThenRecolor | MFA_imap_Mail.py:146-168 | aging keeps exactly the unexpired notes, in their order, recoloured |
| MfaImapMail.AgedIdempotent | MFA_imap_Mail.py:146-168 | aging twice at the same instant is aging once |
| MfaImapMail.TwoPassAging | MFA_imap_Mail.py:144-168 | the two loops, "recolour and collect" then "remove each", end in Aged |
| MfaImapMail.RecolorCommutesWithFilter | MFA_imap_Mail.py:146-161 | recolouring does not change which notes are fresh |
| MfaImapMail.RecolorKeepsExpired | MFA_imap_Mail.py:150-152 | recolouring leaves the expired notes as they were |
| MfaImapMail.StackPushed | MFA_imap_Mail.py:78-83 | the pushed note is last; the length grows by one unless that would pass STACK_SIZE, when it stays the same |
| MfaImapMail.StackPushProperties | MFA_imap_Mail.py:78-83 | a push keeps length <= STACK_SIZE, ends with the new note, and drops at most the first note while the rest keep their order |
| MfaImapMail.StackKeepsDuplicates | MFA_imap_Mail.py:78-83 | no id check: pushing a note twice keeps both |
| MfaImapMail.ReversePopReverse | MFA_imap_Mail.py:81-83 | reverse, pop, reverse drops exactly the first element |
| MfaImapMail.FixedStack.constructor | MFA_imap_Mail.py:75-76 | an empty stack |
| MfaImapMail.FixedStack.Push | MFA_imap_Mail.py:78-83 | the new stack is StackPushed of the old one; the bound is kept |
| MfaImapMail.FixedStack.Remove | MFA_imap_Mail.py:85-86 | the new stack and the ValueError are those of `list.remove` |
| MfaImapMail.RecolorPass | MFA_imap_Mail.py:143-161 | the first loop recolours every unexpired note in place and collects the expired ones, in stack order |
| MfaImapMail.RemoveCollected | MFA_imap_Mail.py:163-168 | the second loop removes each collected note, ignoring ValueError |
| MfaImapMail.AgeNotes | MFA_imap_Mail.py:143-168 | the aging block leaves exactly Aged of the old stack, within STACK_SIZE |
| MfaImapMail.Words | MFA_imap_Mail.py:199 | `str.split()` yields only non-empty words |
| MfaImapMail.WordLengthIsMaximalRun | MFA_imap_Mail.py:199 | each word `str.split()` takes is a maximal run: no space inside it, and a space or the end right after it |
| MfaImapMail.WordsHaveNoSpaces | MFA_imap_Mail.py:199 | no word of `str.split()` holds a space character |
| MfaImapMail.NewestId | MFA_imap_Mail.py:198-200 | an id exists exactly when the reply holds a word (which word is stated by NewestIdIsLastSearchResult) |
| MfaImapMail.AttemptStep | MFA_imap_Mail.py:196-250 | one attempt retries exactly when its search found an id and its fetch failed; otherwise, after a non-empty reply, a reply with no id gives EmptyIdList, an unmatched mail gives NoCodes, and a matched mail gives Stale when CODE_DURATION old and otherwise pushes the newest id's note with the mail's time, code and body, its age's colour, and this attempt's number |
| MfaImapMail.NewestIdIsLastSearchResult | MFA_imap_Mail.py:198-200 | the 800-id window still fetches the last id of the search reply; none for a reply without ids |
| MfaImapMail.Sync | MFA_imap_Mail.py:194-253 | a push happens at one of the supplied attempts |
| MfaImapMail.SyncPushedAt | MFA_imap_Mail.py:196-208 | every attempt before the pushing one had a search reply with a newest id and a failed fetch; starting over at the pushing attempt gives the same outcome |
| MfaImapMail.SyncPushesFreshMatch | MFA_imap_Mail.py:198-250 | after any number of failed fetches, an attempt that fetches a mail whose code is younger than CODE_DURATION pushes that mail's note, numbered by that attempt |
| MfaImapMail.SyncPushesFreshFirst | MFA_imap_Mail.py:198-250 | a first attempt that fetches a fresh match pushes, as that attempt, the note it carries |
| MfaImapMail.SyncStaleOrNoCodes | MFA_imap_Mail.py:210-253 | after a found id, an unmatched mail ends the run with NoCodes and a stale code with Stale |
| MfaImapMail.SyncEmptySearch | MFA_imap_Mail.py:196-198 | an empty search reply ends the run with nothing pushed; a search that raised is a connection error for the caller |
| MfaImapMail.SyncPushesFromFirst | MFA_imap_Mail.py:210-250 | a push from a successful fetch carries the newest id, the mail's time, code and body, is fresher than CODE_DURATION and has its age's colour |
| MfaImapMail.PushingAttempt | MFA_imap_Mail.py:210-250 | an attempt that finishes with a push is where the note comes from: its newest id, the mail's time, code and body, unexpired, coloured by its age |
| MfaImapMail.FreshNoteSurvivesAging | MFA_imap_Mail.py:146-168 | an unexpired note that already has its age's colour comes out of the aging pass unchanged |
| MfaImapMail.SyncPushesFreshNewest | MFA_imap_Mail.py:196-250 | whatever the retries, a pushed note is the newest id's, unexpired and coloured by the aging thresholds |
| MfaImapMail.PushedNoteSurvivesAging | MFA_imap_Mail.py:232-250 | a fresh note survives an aging pass at the same instant unchanged: the initial colour uses the aging thresholds |
| MfaImapMail.Dosync2 | MFA_imap_Mail.py:194-253 | the outcome is Sync of the replies; the stack gains the note only on a push, and is unchanged on any other outcome, an empty search included |
| MfaImapMail.ConnectTraceShape | MFA_imap_Mail.py:261-272 | attempt k is step 2k, with a RETRY_DELAY_SECONDS sleep between consecutive attempts |
| MfaImapMail.ConnectTraceCounts | MFA_imap_Mail.py:261-272 | n attempts sleep n - 1 times; the last step is an attempt |
| MfaImapMail.ConnectImap | MFA_imap_Mail.py:259-274 | returns at the first success; fewer than MAX_RETRIES attempts precede it, all failed; after MAX_RETRIES failures it re-raises the last error; it never sleeps after the last attempt |
| MfaImapMail.ConnectBudget | MFA_imap_Mail.py:261-274 | at most MAX_RETRIES attempts and (MAX_RETRIES - 1) * RETRY_DELAY_SECONDS of sleep |
| MfaImapMail.DosyncWrapper | MFA_imap_Mail.py:173-189 | only a connection error triggers a reconnect; the second sync runs exactly when `connect_imap` logged in, at its first successful attempt, and the reconnect fails only when all MAX_RETRIES attempts failed, with the last error; the stack gains exactly the notes those syncs push |
| MfaImapMail.WakeSteps | MFA_imap_Mail.py:119-143 | one wake as written: a sync exactly when the callback set needsync (the wait was not ended by stop() alone), always followed by the aging pass at that wake's clock reading |
| MfaImapMail.IdleLoopAsWritten | MFA_imap_Mail.py:115-143 | an event set at the top check returns at once with nothing run; at most a sync and an aging pass per wake |
| MfaImapMail.IdleAsWrittenReturns | MFA_imap_Mail.py:115-133 | as written, the loop returns exactly when the event is set at a top check; a stop during the wait is cleared |
| MfaImapMail.IdleAsWrittenAgesEveryWake | MFA_imap_Mail.py:119-143 | every wake is followed by one aging pass, and by a sync exactly when the callback set needsync |
| MfaImapMail.StopDuringWaitIsLost | MFA_imap_Mail.py:104-133 | a stop during the wait does not end the loop, which syncs again on the next wake |
| MfaImapMail.IdleLoop | MFA_imap_Mail.py:115-143 | the corrected loop: a pending stop returns at once with nothing run; at most a sync and an aging pass per wake |
| MfaImapMail.IdleLoopReturns | MFA_imap_Mail.py:115-143 | with the stop kept apart from the wake flag, the loop returns exactly when some stop is requested, after one sync and one aging pass per wake |
| MfaImapMail.StopDuringWaitEndsLoop | MFA_imap_Mail.py:104-133 | with the stop kept apart, the same schedule ends the loop at once |
| MfaImapMail.Idler.constructor | MFA_imap_Mail.py:96-99 | the event is clear |
| MfaImapMail.Idler.Stop | MFA_imap_Mail.py:104-105 | sets the event (and, for the corrected loop, the stop request) and nothing else |
| MfaImapMail.Idler.WakeAsWritten | MFA_imap_Mail.py:119-143 | one wake as written: a sync exactly when the callback set needsync, then the aging pass; the event is left set only by a stop after the clear |
| MfaImapMail.Idler.WakeCorrected | MFA_imap_Mail.py:119-135 | one wake of the corrected loop: a stop during the wait is recorded in `stopping`, the event is cleared, and without a stop the wake runs a sync then the aging pass |
| MfaImapMail.Idler.IdleAsWritten | MFA_imap_Mail.py:115-168 | the loop as written runs IdleLoopAsWritten from the current event |
| MfaImapMail.Idler.Idle | MFA_imap_Mail.py:115-168 | the corrected loop runs IdleLoop from the current stop request |
| EmailService.Classify | email_service.py:176-191 | skip exactly when time or expiry is missing; fail exactly on a zero lifetime |
| EmailService.ClassifyPositiveLifetime | email_service.py:178-191 | for a positive lifetime: removed exactly when elapsed >= lifetime; green below a third, yellow below two thirds, red after |
| EmailService.GmailNoteAges | email_service.py:25 | with the 300 s lifetime: green below 100 s, yellow below 200 s, red below 300 s, removed from 300 s |
| EmailService.Sweep | email_service.py:174-194 | the loop as written never lengthens the queue; once `changed` is set it stays set; a pass that reports no change leaves the queue exactly as it was |
| EmailService.WatcherPass | email_service.py:174-194 | one pass from `changed = False`: never lengthens the queue, and "no change" means the queue is untouched |
| EmailService.Swept | email_service.py:175-191 | the intended effect never lengthens the queue (its meaning is stated by WatcherPassMeaning, SweptIsCurrent and SweptFromInput) |
| EmailService.ClassifyIgnoresColor | email_service.py:176-191 | the verdict does not depend on the current colour |
| EmailService.WatcherPassMeaning | email_service.py:174-194 | on a queue with unique ids and no zero lifetime, a pass never fails, leaves Swept (due notes removed, the rest recoloured in place) and reports a change exactly when the queue changed |
| EmailService.SweptIsCurrent | email_service.py:175-191 | after a pass nothing is due and every timed note has its age's colour |
| EmailService.SweptIdempotent | email_service.py:175-194 | a second pass at the same instant changes nothing |
| EmailService.SweptFromInput | email_service.py:175-191 | every note after a pass is an input note up to colour |
| EmailService.SweptKeepsInvariant | email_service.py:175-191 | a pass keeps the queue bounded with unique, truthy ids |
| EmailService.SweepKeepsInvariant | email_service.py:175-194 | the invariant holds after a pass even when it fails part way |
| EmailService.GmailQueueNeverFails | email_service.py:175-194 | a queue of from_gmail notes never makes the watcher fail, and it still holds only such notes afterwards |
| EmailService.AddedOnlyAppends | email_service.py:152-154 | add_notification only appends snapshots, at most one, and the one it appends is the queue after the push |
| EmailService.AddedPublishesQueue | email_service.py:152-154 | add_notification publishes exactly the queue after the push, even for an ignored push; the newest note is last |
| EmailService.NotificationController.constructor | email_service.py:147-149 | an empty FixedQueue of five slots, sharing the UI's queue |
| EmailService.NotificationController.AddNotification | email_service.py:152-154 | push into the local queue, then put a copy of it unless the push raised |
| EmailService.NotificationController.WatcherRun | email_service.py:171-198 | the queue and failure are those of the as-written pass; a snapshot is put exactly when the pass changed something and did not fail |
| EmailService.DeliverOnlyInbound | email_service.py:118-129 | delivery keeps the queue invariant; every new note was built from a fetched message that is neither SENT nor DRAFT |
| EmailService.SentOrDraftIsAnyLabel | email_service.py:126 | true exactly when SENT or DRAFT is among the message's labels |
| EmailService.DeliverOnlyAppends | email_service.py:118-129 | the nested loops only append snapshots, at most one per message id |
| EmailService.DeliverIgnoresOutbound | email_service.py:126-127 | when every message is sent mail or a draft, nothing is added and nothing published |
| EmailService.StartId | email_service.py:102-104 | the saved cursor when it is truthy, otherwise the incoming id |
| EmailService.FetchHistory | email_service.py:101-132 | a raise leaves the cursor as it was; a completed fetch saves a cursor |
| EmailService.FetchHistoryCursor | email_service.py:104-132 | an empty delta adds nothing and saves the incoming id; a completed batch saves the response's historyId, falling back to the incoming id |
| EmailService.FetchHistoryKeepsInvariant | email_service.py:101-132 | whatever the responses, the queue stays bounded with unique ids and holds only from_gmail notes |
| EmailService.CursorStore.Load | email_service.py:134-138 | returns the saved cursor |
| EmailService.CursorStore.Save | email_service.py:140-142 | the saved cursor becomes the id |
| EmailService.AddNotificationFromGmail | email_service.py:156-167 | builds the notification with LIFETIME and adds it |
| EmailService.FetchLatestEmailFromHistory | email_service.py:101-132 | the queue, the published snapshots and the saved cursor end as FetchHistory says |
| EmailService.PushDecision | email_service.py:48-65 | rejects exactly a body that is not JSON or has no message |
| EmailService.PushStatusCases | email_service.py:48-69 | 400 exactly for a missing envelope or message; a fetch exactly for decoded data with a truthy historyId; 500 exactly when the data does not decode; otherwise 200 |
| EmailService.Status | email_service.py:48-69 | the status is 400, 500 or 200: 400 exactly for a rejected envelope, 500 exactly for data that does not decode |
| EmailService.ReceivePush | email_service.py:46-69 | answers with that status; fetches only on FetchThenAck, and otherwise changes no state |
| Controller.LeadingDigits | controller.py:91 | the length of the maximal run of digits at the start |
| Controller.DigitRuns | controller.py:91 | no more runs than characters; none in text without digits; a string of digits alone is one run with its decimal value |
| Controller.GetBoundsCenter | controller.py:87-94 | fails exactly when there are fewer than four digit runs; otherwise the floor midpoints of runs 0 and 2, and of runs 1 and 3 |
| Controller.CenterInside | controller.py:87-94 | for a well-ordered rectangle the centre lies inside it |
| Controller.DigitRunsOfBounds | controller.py:91 | reading `[x0,y0][x1,y1]` gives back its four numbers, in order |
| Controller.CenterOfFormattedBounds | controller.py:87-94 | the centre of `[x0,y0][x1,y1]` is `((x0+x1)//2, (y0+y1)//2)` |
| Controller.LaterRunsIgnored | controller.py:91-94 | text after the fourth run does not change the result |
| Controller.ScrollUpEndpoints | controller.py:69-70 | defined exactly for two or more screen entries: entries 1 and len-2 |
| Controller.ScrollDownEndpoints | controller.py:72-73 | defined exactly for two or more screen entries: entries len-2 and 1 |
| Controller.ScrollDownReversesScrollUp | controller.py:69-73 | scroll_down swipes between the same two entries as scroll_up, reversed; both fail on the same screens |
| Controller.SwipeByBounds | controller.py:76-84 | defined exactly when both bounds have a centre, and then the swipe runs from the centre of `from` to the centre of `to` |

## Left out

- EmailService.GmailQueueNeverFails, NotificationStore.SentTime: a Date header
  whose zone is `-0000` or missing makes `parsedate_to_datetime` return a
  naive datetime (notification_store.py:27). The watcher then subtracts it
  from the aware `datetime.now(timezone.utc)` (email_service.py:173, :179),
  which raises TypeError and ends the watcher thread. The model's dates are
  plain integer seconds, so it has no naive time, and
  `GmailQueueNeverFails` holds only for mail whose Date header carries a
  real zone offset or is absent, empty or unparsable.
- Threads, `Event` signalling and multiprocessing queues. The watcher thread,
  the IDLE thread, `pump_notifications` and the UI processes are not
  modelled. Each loop is one sequential pass; the idle loop is driven by a
  supplied sequence of wakes. No push arrives while a watcher pass runs.
- The network and providers: imaplib2, the Gmail API, OAuth and
  `register_watch`. Their replies are supplied as inputs: search and fetch
  replies, connection outcomes, `history.list` and `messages.get`, where
  None stands for a call that raised.
- Flask routing, base64, UTF-8 and JSON are library calls, supplied as
  decoders. A JSON body that is not an object, or a `message` that is not
  one, is not modelled.
- Clocks and dates (`datetime.now`, `parsedate_to_datetime`,
  `time.strptime`, pytz) are integer seconds or functions supplied by the
  caller. Python's `hash` of the subject is a supplied function too.
- Floating point: ratios and minutes are exact rationals compared by
  cross-multiplication, so rounding at 1/3 and 2/3 is not modelled.
  `FallbackId` writes the timestamp as whole seconds followed by `.0`.
- HTML stripping and the envelope, code and Delivery-date patterns of
  `dosync2` are abstracted to a supplied match or no match, followed by
  `strptime`. So is the `time.sleep` before each search or retry.
- `dosync2` retries a failed fetch without bound. In the model it retries
  through the supplied attempts only and reports `OutOfAttempts` when they
  run out.
- Cursor file I/O: the saved cursor is a field, and `strip` on load and
  `str` on save are not modelled. The model treats `historyId` as a string,
  where the Pub/Sub payload carries an integer.
- `added["message"]["id"]` is taken to exist; the `KeyError` it could raise
  is not modelled.
- Object identity: notifications are values. Recolouring changes the first
  queued note equal to the snapshot's one, which is that note when ids are
  unique (`WatcherPassMeaning`). `WatcherRun` writes the queue back at the
  end of the pass or when it fails. With no concurrent writer, that is the
  same state.
- `\d`, `\w` and whitespace are ASCII only; the source's Unicode-aware
  patterns and `str.split` accept more characters.
- The IMAP path's credentials and configuration, the UI pages, the
  spreadsheet poller, the supervisor, and the adb, uiautomator and lxml
  calls in controller.py are outside this model.
- MfaImapMail.WakeSteps, MfaImapMail.IdleLoopAsWritten, MfaImapMail.IdleLoop:
  a sync in the idle loop always returns. In the source, `idle` has no
  `try` around `dosync_wrapper()` or `M.idle(...)`, and `dosync_wrapper`
  catches only connection errors from its first `dosync2`. An IndexError
  from `dat[-1]` (`EmptyIdList`), a RecursionError from endless fetch
  retries, any other error from `dosync2`, or a dropped connection in
  `M.idle` ends `idle` and its thread. These runs are not modelled, so
  `IdleAsWrittenAgesEveryWake` and `IdleLoopReturns` speak only of runs
  whose syncs return.
- MfaImapMail.Sync: its `ensures` says only where a push happens. What a
  push carries is stated by `SyncPushesFreshNewest`, and that a fresh match
  is pushed by `SyncPushesFreshMatch`; the other outcomes are stated by
  `SyncEmptySearch`, `SyncStaleOrNoCodes` and `AttemptStep`.

## Findings

| source | as written | input that shows it | evidently intended | confidence | as-written member | corrected member |
|---|---|---|---|---|---|---|
| MFA_imap_Mail.py:104-133 | `stop()` and the IDLE callback share one event, and `event.clear()` after the wait discards a stop that ended the wait. The loop then idles again, so `stop(); join()` in `start_imap_loop` can wait forever. | the wait ends by `stop()` (Wake(StopRequested, false, 0)); the next wait ends by the server (Wake(ServerWake, false, 1)); the loop syncs again and does not return | a stop request ends the loop at the next point it is checked | not executed | MfaImapMail.StopDuringWaitIsLost | MfaImapMail.StopDuringWaitEndsLoop |
