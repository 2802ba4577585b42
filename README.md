# Google Meet note-taker bot, caption core

This project models how the meeting bot turns Google Meet's live captions into
stored transcript segments. It covers these parts:

- **The TypeScript bot's caption session** (`scrapeCaptions` in `src/playwright/runBot.ts`):
  - a caption counter `index`, one active segment per speaker, and an `exitRequested` latch;
  - `onCaption`, which trims each caption, detects exit phrases, then opens, grows or keeps the speaker's segment;
  - the one-second flush and the no-op flush after leaving;
  - the tail that runs after the termination race: stop the timer, filter system messages, force a final save, notify the backend.

  The browser-side `send` decision (speaker badge, fallback speaker, text without badges) is modelled over abstract caption nodes.
- **The legacy JavaScript bot** (`src/playwright/runBot.js`):
  - append-only capture;
  - the `handleNode` observer with its `seenCaptions` dedup and `lastKnownSpeaker` fallback;
  - the idle/total stop test and the interval tick that saves and posts.
- **The two storage paths**:
  - `saveTranscriptBatch` (`src/storage.ts`) upserts segment by segment, so the last write wins, and it swallows errors;
  - the legacy `saveTranscript` (`src/storage.js`) inserts with `skipDuplicates`, so the first write wins.
- **The backend's request checks** (`src/backend/server.ts`): `validateMeetLink` and the field guards of `/submit-link` and `/bot-done`.

## Modules

- `Wrappers`: `Option` and `Result`.
- `Text`: the JavaScript string operations the code relies on. `trim` strips the ECMAScript white-space and line-terminator set. `toLowerCase` is modelled on ASCII. `startsWith` and `includes` are sequence prefix and infix tests. `length` counts UTF-16 code units.
- `Models`: the records of `src/models.ts`. A segment carries `Some(meetingId)` when the TypeScript bot made it.
- `Db`: the transcript and segment tables, with segments under the key `(meetingId, start)`. This is a class, because both storage paths update it in place.
- `Dom`: a caption node, seen as a sequence of fragments, each with a CSS class and its text.
- `Storage`, `LegacyStorage`: the two save paths. The pure functions give the tables afterwards, and an imperative method per path is proved against them.
- `Bridge`: the page-side `getSpeaker`, `getText` and `send` of the TypeScript bot. A `CaptionObserver` class holds `lastSpeaker`.
- `Session`:
  - the pure caption step, its invariant (one segment per speaker; `start < end <= index`; distinct starts), the final filter, and what a flush stores;
  - the class `CaptionSession`, whose methods update `index`, `exitRequested`, the active-segment map and the timer flag, and record the calls made (saves, `clearInterval`, the completion post) in a ghost trace.
- `LegacyBot`: the pure observer step and capture, plus two classes: the observer, and the capture session with its interval tick.
- `Server`: the pure request checks.

Several things outside the model become parameters:

- A database write that throws is an injected failure position: `failAt` for the batch save, `Failure` for the legacy save.
- Failure of the completion post is `postFails`.
- `process.env.JOB_ID` is `jobId`.
- Clock readings are integer arguments (`now`).
- The race's outcome is `RaceWinner`.

## Model

| member | source | states |
|---|---|---|
| Text.Trim | src/playwright/runBot.ts:109 | `trim` gives a result no longer than its input, with no white space at either end |
| Text.TrimShape | src/playwright/runBot.ts:109-110 | the trimmed caption is a contiguous piece of the input, and it is empty exactly when the input is all white space |
| Text.TrimStartDropsSpaces | src/playwright/runBot.ts:109 | what the leading trim removes is all white space |
| Text.TrimEndDropsSpaces | src/playwright/runBot.ts:109 | what the trailing trim removes is all white space |
| Text.TrimIdempotent | src/playwright/runBot.js:85 | trimming an already trimmed caption changes nothing |
| Text.TrimOfSolid | src/playwright/runBot.ts:109 | a text with no white space at either end is its own trim |
| Text.Lower | src/playwright/runBot.ts:112 | lower-casing keeps the length |
| Text.LowerCases | src/playwright/runBot.ts:112 | after lower-casing no capital A-Z is left, each capital becomes its small letter, and every other character is unchanged |
| Text.LowerIdempotent | src/playwright/runBot.ts:112 | lower-casing an already lower-cased text changes nothing |
| Text.IncludesIff | src/playwright/runBot.ts:113 | `includes(p)` holds exactly when `p` occurs at some position |
| Text.Utf16Length | src/playwright/runBot.ts:135 | `length` in UTF-16 code units lies between the code-point count and twice it, and equals the code-point count when every character is in the Basic Multilingual Plane |
| Text.Utf16LengthAppend | src/playwright/runBot.ts:135 | the code-unit length of a concatenation is the sum of the lengths |
| Text.Utf16LengthOfChar | src/playwright/runBot.ts:135 | a character beyond U+FFFF counts as two code units and any other as one; with the additivity lemma this fixes `length` on every string |
| Text.StartsWith | src/playwright/runBot.ts:134 | `startsWith(p)`: `p` is a prefix; also the link test of src/backend/server.ts:32 (`GrowthRule` and `ValidateMeetLinkIff` state its effect) |
| Dom.FirstBadge | src/playwright/runBot.ts:168-169 | `querySelector` finds nothing exactly when no fragment matches; otherwise it returns the text of the first matching fragment in document order |
| Dom.FirstMatch | src/playwright/runBot.ts:168-169 | the position of the first matching fragment: none before it matches, and it matches unless it is the end of the node |
| Dom.TextContent | src/playwright/runBot.ts:179 | `textContent`: the fragments' texts joined in document order, also read at src/playwright/runBot.js:85 (`TextContentAppend` states it) |
| Dom.TextContentAppend | src/playwright/runBot.ts:179 | the text of a node is the text of its parts, in order |
| Dom.RemoveBadges | src/playwright/runBot.ts:175-178 | after removal no badge is left, exactly the other fragments are kept, and a node without a badge is returned unchanged |
| Dom.RemoveBadgesAppend | src/playwright/runBot.ts:175-178 | removal works fragment by fragment: it distributes over concatenation, so it keeps the order of the other fragments |
| Dom.RemoveFirstBadge | src/playwright/runBot.js:82-84 | removing the first badge leaves a node without a badge unchanged, and otherwise splices out exactly the first matching fragment, keeping the fragments before and after it in order |
| Dom.SameMatchesSameReads | src/playwright/runBot.js:77-84 | two selectors that match the same fragments find the same badge and remove the same fragments |
| Dom.SingleMatchRemoval | src/playwright/runBot.js:82-84 | on a node with at most one match, removing the first match is removing all of them |
| Storage.RowOf | src/storage.ts:41-59 | the stored row is keyed by the `meetingId` argument and the segment's `start`, whatever the segment itself carries |
| Storage.Upsert | src/storage.ts:41-60 | one `prisma.segment.upsert` (`UpsertWritesOneKey` states it) |
| Storage.UpsertWritesOneKey | src/storage.ts:41-60 | one upsert writes the segment's row under `(meetingId, start)`, whether it creates or updates, and leaves every other key as it was |
| Storage.LastWithStart | src/storage.ts:40-61 | the batch segment with a given start that no later segment shares, or none exactly when no segment has it |
| Storage.UpsertAll | src/storage.ts:40-61 | the table after upserting the segments one after another, in batch order (its properties are the lemmas below) |
| Storage.UpsertAllLastWriteWins | src/storage.ts:40-61 | after the upserts, a key the batch names holds the row of its last segment with that start; every other key is untouched |
| Storage.UpsertAllIdempotent | src/storage.ts:40-61 | replaying the upserts leaves the table as one pass did |
| Storage.CompletedUpserts | src/storage.ts:32-61 | a write that throws stops the loop: only the segments before it are upserted, and all of them when nothing throws |
| Storage.SavedTranscripts | src/storage.ts:29-38 | an empty, unforced batch, or a failing transcript upsert, leaves the transcripts as they were; otherwise the meeting's row holds `createdAt`; other meetings are untouched |
| Storage.SavedSegments | src/storage.ts:29-38 | an empty, unforced batch writes no segment row |
| Storage.SavedSegmentsPerKey | src/storage.ts:29-61 | otherwise, key by key, a key of this meeting named by the completed upserts holds the row of the last of them with that start, and every other key keeps what it held |
| Storage.SaveTranscriptBatch | src/storage.ts:22-67 | the call returns normally on every failure and leaves both tables as `SavedTranscripts` and `SavedSegments` say |
| Storage.SaveTranscriptBatchIdempotent | src/storage.ts:34-61 | a successful save, repeated, changes neither table |
| LegacyStorage.ParseSegments | src/storage.js:23-29 | one row per segment, in order, stamped with the transcript's `meetingId` and carrying the segment's fields |
| LegacyStorage.FirstWithKey | src/storage.js:30-33 | the row with a given key that no earlier row shares, or none exactly when no row has it |
| LegacyStorage.InsertMissing | src/storage.js:30-33 | `createMany` with `skipDuplicates`: rows are inserted in order, each only when its key is free (its properties are the lemmas below) |
| LegacyStorage.InsertMissingFirstWriteWins | src/storage.js:30-33 | a taken key keeps its row; a free key gets the first row to insert that carries it, and stays free if none does |
| LegacyStorage.InsertMissingKeepsRows | src/storage.js:30-33 | no existing row is changed or removed |
| LegacyStorage.InsertMissingAllPresent | src/storage.js:30-33 | when every key is already taken, the insert changes nothing |
| LegacyStorage.InsertMissingCovers | src/storage.js:30-33 | afterwards every key of the inserted rows is present |
| LegacyStorage.SavedTranscripts | src/storage.js:16-20 | the meeting's transcript row holds `createdAt` unless its upsert throws, for any segment list; other meetings are untouched |
| LegacyStorage.SavedSegments | src/storage.js:22-34 | no segments, or a failing call, writes no row; existing rows are never overwritten |
| LegacyStorage.SaveTranscript | src/storage.js:11-36 | the promise resolves exactly when no statement it executes throws; the transcript table is `SavedTranscripts` and the segment table `SavedSegments` |
| LegacyStorage.SaveTranscriptIdempotent | src/storage.js:16-34 | a successful call, repeated, leaves both the transcript table and the segment table unchanged |
| LegacyStorage.SavedRowsCarryMeetingId | src/storage.js:23-29 | a row the call creates carries, and is keyed by, the transcript's `meetingId` |
| LegacyStorage.UpsertOverwritesWhereInsertKeeps | src/storage.js:30-33 | on a key already holding a different row, the batch upsert overwrites it and the legacy insert keeps it, so the two paths leave different tables |
| Bridge.GetSpeaker | src/playwright/runBot.ts:167-171 | with no badge the speaker is `lastSpeaker`; with a badge whose trimmed text is non-empty it is that trimmed text; with a blank badge it is `lastSpeaker`; it is never empty while `lastSpeaker` is not |
| Bridge.GetText | src/playwright/runBot.ts:174-180 | the text is already trimmed, occurs in the badge-free `textContent`, and is empty exactly when that text is all white space |
| Bridge.SendDecision | src/playwright/runBot.ts:183-191 | a caption is delivered exactly when its text is non-empty and differs from the speaker after lower-casing; `lastSpeaker` becomes the delivered speaker, and stays put otherwise |
| Bridge.CaptionObserver.constructor | src/playwright/runBot.ts:164 | `lastSpeaker` starts as "Unknown Speaker" |
| Bridge.CaptionObserver.Send | src/playwright/runBot.ts:183-191 | one `send(node)`: the delivery and the new `lastSpeaker` are those of `SendDecision` |
| Bridge.ObserveDeliversWellFormed | src/playwright/runBot.ts:183-191 | over any run of nodes from a non-empty `lastSpeaker`, every delivery has a trimmed non-empty text, a non-empty speaker, and text and speaker that differ after lower-casing |
| Session.CaptionStep | src/playwright/runBot.ts:108-142 | `index` grows by one exactly for a caption that is non-empty after trimming; `exitRequested` is never reset, is set by an exit phrase, and is set by nothing else |
| Session.CaptionStepLeavesOthers | src/playwright/runBot.ts:119-140 | no other speaker's entry appears, disappears or changes |
| Session.BlankCaptionIgnored | src/playwright/runBot.ts:109-110 | an all-white-space caption leaves the whole state unchanged |
| Session.FirstCaptionOpensSegment | src/playwright/runBot.ts:121-130 | a new speaker gets `{text = caption, start = index, end = index + 1, meetingId}` and joins the end of the insertion order |
| Session.GrowthRule | src/playwright/runBot.ts:131-140 | `start`, `speaker` and the order never change; text and `end` are replaced exactly when the caption starts with the old text or is more than five code units longer; otherwise the segment stays as it was |
| Session.SameTextIsGrowth | src/playwright/runBot.ts:133-135 | repeating the same text counts as growth |
| Session.IsGrowth | src/playwright/runBot.ts:133-135 | the growth test: the caption starts with the old text, or is more than five UTF-16 code units longer (`GrowthRule` states its effect) |
| Session.Reconcile | src/playwright/runBot.ts:119-140 | the active-segment map after one caption: a new speaker gets a fresh entry, a growing caption replaces text and `end`, anything else keeps the entry (`GrowthRule`, `FirstCaptionOpensSegment` and `CaptionStepLeavesOthers` state its effect) |
| Session.InitialInv | src/playwright/runBot.ts:93-97 | the empty starting state satisfies the invariant |
| Session.CaptionStepPreservesInv | src/playwright/runBot.ts:119-142 | every caption keeps the invariant: order and map agree, one segment per speaker, `start < end <= index`, and starts are pairwise distinct |
| Session.NewSpeakerStepKeepsInv | src/playwright/runBot.ts:121-130 | opening a segment keeps the invariant |
| Session.GrowthStepKeepsInv | src/playwright/runBot.ts:131-140 | growing a segment keeps the invariant |
| Session.NewSpeakerKeepsInv | src/playwright/runBot.ts:121-130 | a fresh segment at `index`, set into the map and appended to the order, keeps the invariant |
| Session.UpdateKeepsInv | src/playwright/runBot.ts:131-140 | replacing an entry while keeping its `start` and speaker keeps the invariant |
| Session.RunInvariant | src/playwright/runBot.ts:108-142 | over any run of captions the invariant holds, `index` counts the non-blank captions, and the exit latch stays set |
| Session.Conversation | src/playwright/runBot.ts:119-142 | "Hi", "Hi there" from Alice, then "ok" from Bob: Alice's one segment grows to "Hi there" with `end = 2`, Bob opens one at `start = 2`, and `index` is 3 |
| Session.ShortNeverExits | src/playwright/runBot.ts:8-13 | a caption shorter than every exit phrase never counts as an exit request |
| Session.IsExitPhrase | src/playwright/runBot.ts:112-113 | the exit test on the lower-cased caption (`IsExitPhraseIff` states it) |
| Session.MentionsAnyIff | src/playwright/runBot.ts:113 | `phrases.some(p => s.includes(p))` holds exactly when some phrase occurs at some position of the text |
| Session.IsExitPhraseIff | src/playwright/runBot.ts:112-113 | a caption is an exit request exactly when one of the four exit phrases occurs in its lower-cased text |
| Session.ExitPhraseExample | src/playwright/runBot.ts:112-113 | "Notetaker, Please Leave" counts as an exit request: the match ignores case |
| Session.IsNotRealCaption | src/playwright/runBot.ts:100-103 | the system-message test: the lower-cased text contains one of the six deny phrases (`FinalSegments` states its effect) |
| Session.ValuesListsActive | src/playwright/runBot.ts:145 | `Array.from(activeSegments.values())` lists each segment once, in insertion order |
| Session.ValuesUniqueStarts | src/playwright/runBot.ts:145 | the flushed list has pairwise distinct starts and contains every active segment |
| Session.UniqueStartsSurvive | src/storage.ts:40-61 | a batch with distinct starts leaves each of its segments' rows under its key |
| Session.FlushStoresEveryActiveSegment | src/playwright/runBot.ts:144-147 | a flush of the active segments stores each one under its own `(meetingId, start)` key; none overwrites another |
| Session.FinalSegments | src/playwright/runBot.ts:263-265 | a segment is kept exactly when its lower-cased text has none of the six deny phrases or its `end < index - 2` |
| Session.KeepAtEnd | src/playwright/runBot.ts:264 | the filter test: not a system message, or `end < index - 2` (`FinalSegments` states its effect) |
| Session.FinalSegmentsAppend | src/playwright/runBot.ts:263-265 | the filter works segment by segment, so the kept segments stay in batch order |
| Session.FinalFlushStoresKept | src/playwright/runBot.ts:263-267 | the forced final save stores every kept segment under its own key |
| Session.TakeCaption | src/playwright/runBot.ts:108-142 | the closure body computes `CaptionStep`; its exit flag is true exactly for a non-blank caption holding an exit phrase |
| Session.CaptionSession.constructor | src/playwright/runBot.ts:93-97 | the session starts at `index = 0`, with no segments, no exit request and no timer |
| Session.CaptionSession.Save | src/playwright/runBot.ts:146 | one `saveTranscriptBatch` call: it is recorded and changes the tables as `Storage` says |
| Session.CaptionSession.Take | src/playwright/runBot.ts:108-142 | the fields move to `CaptionStep` of the old state |
| Session.CaptionSession.OnCaption | src/playwright/runBot.ts:108-148 | the state moves by `CaptionStep` and keeps the invariant; an exit phrase then triggers exactly one forced save of all active segments, taken after the update; any other caption saves nothing |
| Session.CaptionSession.StartFlushTimer | src/playwright/runBot.ts:216 | the flush timer runs |
| Session.CaptionSession.FlushTick | src/playwright/runBot.ts:216-221 | a tick saves the active segments unforced, or does nothing when there are none |
| Session.CaptionSession.LeaveCall | src/playwright/runBot.ts:235-243 | the after-leave flush saves an empty, unforced batch, so no table changes |
| Session.CaptionSession.CloseOut | src/playwright/runBot.ts:262-284 | the timer is cleared, then the filtered segments are saved forced, then the completion notice is posted when `JOB_ID` is set |
| Session.NotifyEffects | src/playwright/runBot.ts:268-284 | the completion post, made exactly when `JOB_ID` is set and non-empty (`CloseOut` and `Finish` state where it happens) |
| Session.CaptionSession.Finish | src/playwright/runBot.ts:247-287 | a hard timeout returns the rewrapped error with no final save, no notice and the timer left as it was; the other winners run the tail and return `meetingId` |
| Session.RunBotError | src/playwright/runBot.ts:81-82 | the rethrown error: "Run Bot error: " followed by the error text (`Finish` states it for the hard timeout) |
| LegacyBot.NodeSpeaker | src/playwright/runBot.js:77-78 | with no badge the speaker is `lastKnownSpeaker`; with a badge whose trimmed text is non-empty it is that trimmed text; with a blank badge it is `lastKnownSpeaker`; it is never empty while `lastKnownSpeaker` is not |
| LegacyBot.NodeCaption | src/playwright/runBot.js:82-85 | the caption is already trimmed, occurs in the `textContent` left after removing the first badge, and is empty exactly when that text is all white space |
| LegacyBot.SpeakerReadsAgree | src/playwright/runBot.js:77-78 | on a node without a second-class badge, the legacy speaker read agrees with the TypeScript bot's |
| LegacyBot.CaptionReadsAgree | src/playwright/runBot.js:82-85 | on a node with at most one badge, all of the first class, the legacy caption read agrees with the TypeScript bot's |
| LegacyBot.RepeatedBadgeLegacyText | src/playwright/runBot.js:82-84 | when the speaker badge appears twice, removing only the first leaves the second badge's text in the caption |
| LegacyBot.RepeatedBadgeLegacyCaption | src/playwright/runBot.js:82-85 | for such a node the legacy caption is "hiAnn" |
| LegacyBot.RepeatedBadgeBridgeText | src/playwright/runBot.ts:174-180 | for the same node the TypeScript bot, which removes every badge, reads "hi" |
| LegacyBot.HandleStep | src/playwright/runBot.js:76-95 | delivery happens exactly when the caption is non-empty, differs from the speaker after lower-casing and is unseen; it adds the caption to the seen set, which is otherwise unchanged; `lastKnownSpeaker` follows every resolved speaker except "Unknown Speaker", delivered or not |
| LegacyBot.UnknownBadgeKeepsLastSpeaker | src/playwright/runBot.js:78-81 | a badge reading "Unknown Speaker" leaves `lastKnownSpeaker` as it was |
| LegacyBot.LegacyObserver.constructor | src/playwright/runBot.js:74-75 | the observer starts with "Unknown Speaker" and nothing seen |
| LegacyBot.LegacyObserver.HandleNode | src/playwright/runBot.js:76-95 | one `handleNode(node)`: the delivery and the new fields are those of `HandleStep` |
| LegacyBot.DeliveriesUnseen | src/playwright/runBot.js:86-94 | over any run of nodes, every delivered text is non-empty and was not seen before the run |
| LegacyBot.DeliveriesDistinct | src/playwright/runBot.js:86-94 | no caption text is delivered twice in a run |
| LegacyBot.SeenGrowsBySent | src/playwright/runBot.js:89-91 | after a run the seen set is the old one plus exactly the delivered texts |
| LegacyBot.CapturedIsNumbered | src/playwright/runBot.js:51-64 | the captured segments have starts 0, 1, 2, … in delivery order, each with `end = start + 1` and a non-empty text, and there are no more of them than captions |
| LegacyBot.CapturedFollowsSpoken | src/playwright/runBot.js:51-64 | there is one segment per caption that is non-blank after trimming, and the k-th segment carries the k-th such caption's speaker and trimmed text |
| LegacyBot.AppendKeepsNumbered | src/playwright/runBot.js:54-63 | a caption keeps the capture numbered, leaves the earlier segments untouched, and adds one segment exactly when it is non-blank after trimming |
| LegacyBot.Append | src/playwright/runBot.js:54-63 | a blank caption leaves the segments as they were; any other appends one segment at the end with the speaker, the trimmed text, `start = index`, `end = index + 1`, and keeps the earlier ones |
| LegacyBot.IdleBoundary | src/playwright/runBot.js:131-133 | exactly `MAX_IDLE_TIME` of silence does not stop the capture on its own; one more millisecond does |
| LegacyBot.ShouldStop | src/playwright/runBot.js:131-133 | the stop test: more than `MAX_IDLE_TIME` since the last caption, or more than `MAX_TOTAL_TIME` since the start (its properties are the lemmas around it) |
| LegacyBot.ShouldStopMonotone | src/playwright/runBot.js:133 | once the stop test holds, it holds at every later time |
| LegacyBot.FreshCaptionOnlyTotalStops | src/playwright/runBot.js:131-133 | right after a caption only the total-time limit can stop the capture |
| LegacyBot.LegacyCaptureSession.constructor | src/playwright/runBot.js:46-49 | the capture starts empty at `index = 0`, with `captionsLastSeenAt` set to the current time |
| LegacyBot.LegacyCaptureSession.OnCaption | src/playwright/runBot.js:51-64 | `segments` grows by the appended caption, if any, and `captionsLastSeenAt` is reset even for a blank caption |
| LegacyBot.LegacyCaptureSession.Tick | src/playwright/runBot.js:128-154 | a tick stops the capture exactly when it was running and the stop test holds; a stopping tick records `clearInterval` before the `saveTranscript` call and the post after it; it leaves the tables as `LegacyStorage.SavedTranscripts` and `LegacyStorage.SavedSegments` say; the capture resolves with `meetingId` only when the save and the post both succeed |
| Server.ValidateMeetLinkIff | src/backend/server.ts:31-34 | a link is valid exactly when it begins with `https://meet.google.com` |
| Server.ValidateMeetLink | src/backend/server.ts:31-34 | the link check (`ValidateMeetLinkIff` states it) |
| Server.ValidateMeetLinkExamples | src/backend/server.ts:31-34 | `https://meet.google.com.x` and a meeting path are accepted; `http://meet.google.com` is rejected |
| Server.SubmitLink | src/backend/server.ts:37-51 | a missing URL gives 400 "Missing the URL" and an invalid one 400 "Invalid link", both before any job is created; a job is created first; 200 comes exactly for a valid link whose job creation and launch succeed |
| Server.MissingUrlBeforeValidation | src/backend/server.ts:38-40 | absent and empty URLs both get "Missing the URL", never "Invalid link" |
| Server.LaunchOnlyForValidLinks | src/backend/server.ts:40-44 | a bot is launched only for a present, valid link, right after its job was created |
| Server.BotDoneGuard | src/backend/server.ts:67-68 | the request passes exactly when both `jobId` and `meetingId` are present and non-empty; otherwise the reply is 400 "Missing fields" |
| Server.Present | src/backend/server.ts:68 | a field passes the truthiness guard exactly when it is given and non-empty; the same guard checks the URL at src/backend/server.ts:39 (`BotDoneGuard` and `MissingUrlBeforeValidation` state its effect) |
| Server.BotDoneFirstStep | src/backend/server.ts:66-76 | a rejected request touches nothing; an accepted one first marks the job "transcript_saved" |
| Server.SessionNoticePassesGuard | src/backend/server.ts:67-68 | every completion notice the TypeScript bot posts passes the guard |
| Server.LegacyNoticeWithoutJobRejected | src/backend/server.ts:67-68 | a legacy notice sent without `JOB_ID` is rejected with 400 |

## Left out

- Browser launch, navigation, joining, overlay dismissal and the caption-enabling retries: this is UI driving.
- The MutationObserver wiring and DOM cloning. A caption node is a sequence of `(class, text)` fragments, and the observers are fed nodes one at a time.
- Real time. `setInterval`, `setTimeout`, the 500 ms polling loop and `Promise.race` are concurrency. The model takes the race's winner and the clock readings as inputs, and treats each callback as running to completion without interleaving with another.
- Network calls. The `fetch` to `/bot-done` is recorded as an effect and its failure is the parameter `postFails`. The legacy bot posts to `backend:3000` while the backend listens on 3001; the model does not tell an unreachable port from any other failed post.
- `src/bot/index.ts`: its process exit and duplicate notice.
- `src/summarize.ts` and `src/summarize.js` (the OpenAI call), `src/backend/launchBot.ts` (Docker), `src/frontend/main.ts` and `scripts/generate-auth.js`.
- The ORM, beyond the two tables. The remaining CRUD helpers of both storage files are left out, as are the `/meeting-summary` endpoint and everything in `/bot-done` after its first status write. That includes the 202 branch, which `findUniqueOrThrow` makes unreachable.
- `Date` values and uuids: they are opaque (`Timestamp` is an integer and `meetingId` a string the caller supplies).
- Text.Lower: it models `toLowerCase` on ASCII letters only. Non-ASCII case mappings, including ones that change length, are not modelled.
- Server.Present: it treats a JSON field as a string or absent. Truthy non-string values, such as a number, are not modelled.
- Session.CaptionSession: `existing.text = caption` and `existing.end = index + 1` edit the segment object in place. The map is a value here, so the edit is modelled as replacing the speaker's entry. The batches built with `Array.from(activeSegments.values())` (src/playwright/runBot.ts:145, 217 and 263) share those objects with `saveTranscriptBatch`, which reads `seg.text` and `seg.end` after its awaits (src/storage.ts:40-60). The model treats each batch as a snapshot taken when the save starts. That is exact only when no caption callback runs while a save is in progress, which is the no-interleaving assumption above.
- Session.CaptionSession.Finish: after a hard timeout the flush interval is never cleared. The model records that, but does not go on to model the ticks that keep firing while the rejection propagates. The model lists only three winners of `Promise.race`. Its steps `page.$(hangUpSel)` and `page.keyboard.press("Ctrl+Alt+Q")` (src/playwright/runBot.ts:227-231) and the banner wait with no timeout (src/playwright/runBot.ts:252) have no `catch`. A rejection from one of them, such as on a closed page, rejects the race like the hard timeout: no final save, no notice, and the error rethrown at src/playwright/runBot.ts:81-82. That outcome is not modelled.
- LegacyBot.LegacyCaptureSession.Tick: when the save or the post rejects, the interval is already cleared and the promise never settles. The model reports this as `resolved == None` with `running` false.
- The model follows the code on two points where a reader might expect otherwise:
  - a new or grown segment gets `end = index + 1`, one past the caption's position;
  - the final filter keeps a system-message segment only when `end < index - 2`, strictly.
- The `segments` array in `scrapeCaptions` is never appended to. So `flushedCount` stays 0 and the after-leave save is always an empty, unforced batch that writes nothing; `LeaveCall` states exactly this.
