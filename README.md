# slack-bot in Dafny

A model of the decision logic of the slack-bot tools, with proofs about it. The tools are three CI reporters and a coffee-break rota. The CI reporters read a Prow console log, pick out the job state, the failure summary and the run time, and post a message to Slack. The rota draws a group of three colleagues each week, avoids last week's group and keeps a short history file.

The project models:

- **The fixed patterns the reporters use.**
  - `Reporting job state '(\w+)'`, `(?s)(Summarizing.*?Test Suite Failed)`, `Ran for ([\dhms]+)` and the ANSI pattern `\x1b\[[0-9;]*[a-zA-Z]`.
  - Each is a hand-written matcher: `Matching`, `LogPatterns`, `Ansi`. There is no general regular-expression engine.
  - Each matcher is proved against a declarative description of what Go's leftmost-first matcher returns:
    - `FirstMatchAt`: the leftmost marker, with its greedy capture.
    - `FirstRegionAt`: the leftmost `Summarizing` and the nearest `Test Suite Failed` after it.
- **The `strings` functions they rely on**: `Split`, `Join` and `TrimSpace` (`Text`, `Trim`), with `unicode.IsSpace`'s white-space set.
- **`ConstructMessage`, in its two forms.**
  - `ProwCiSummary` models prow-ci/prow_summary.go. It notifies on failure only, strips escape sequences, and has an optional duration line.
  - `ProwSummary` models prow_summary.go. It also reports success, copies the summary verbatim, and panics without a duration marker.
  - prow_thread_summary.go:110-132 is a character-for-character copy of prow_summary.go:61-83, so `ProwSummary.ConstructMessage` models both. Every row below for `ProwSummary` holds equally for the thread tool's copy.
- **How a reply to `chat.postMessage` is judged** (`Notify`): the status check of the form posts, and the status, decoding and `ok` checks of the thread post.
- **Today's-thread selection and posting** (`ProwThreadSummary`): a loop that stops at the first history entry whose thread timestamp starts with `today`.
- **The rota** (`CoffeeBreak`):
  - parsing participants, the six-line history window and the eligibility filter;
  - the in-place Fisher–Yates shuffle, taking three, and appending the group to the history;
  - rewriting each user in place to a mention, and the announcement.

Design points:

- **Inputs instead of I/O.** Log text, file contents, the conversation history, `today`, the month, the random draws (`roll`) and the HTTP reply are all parameters.
- **Errors are values.** Go errors and fatal exits become `Result`/`Outcome` values. A failed send, which comes after the history file is written, is the `delivery` outcome of a successful round. A run-time panic (a missing duration match, too few eligible participants) becomes an explicit error constructor.
- **ANSI stripping is not idempotent.** One pass of the replacement can join an escape character with the text after a deleted sequence into a new sequence. `Ansi.StripNotIdempotent` shows `"\x1b\x1b[m[m"` stripping to `"\x1b[m"`, and a second pass to `""`.
- **A history file that ends in a line break excludes nobody.** The program splits the file on `"\n"`, so its last line is then empty. That empty line names no participant, and every participant is eligible again. This is the program's own behaviour (coffee-break/coffee.go:87-93), not a simplification in the model. `CoffeeBreak.TrailingBreakExcludesNobody` proves it.

## Model

| member | source | states |
|---|---|---|
| Trim.TrimSpace | coffee-break/coffee.go:72 | The trimmed text is no longer than the input and, when non-empty, neither begins nor ends with white space. |
| Trim.TrimSpaceRemovesSpace | coffee-break/coffee.go:72 | Everything trimming removes, before and after the kept slice, is white space. |
| Trim.TrimSpaceIsSlice | coffee-break/coffee.go:72 | The trimmed text is the contiguous slice of the input that starts right after the leading white space. |
| Trim.TrimSpaceAvoids | coffee-break/coffee.go:72 | Trimming introduces no character that was not in the input. |
| Trim.TrimSpaceKeeps | prow-ci/prow_summary.go:91 | A text with no white space at either end is its own trim. |
| Text.Split | coffee-break/coffee.go:69 | `strings.Split` always yields at least one piece. |
| Text.Join | coffee-break/coffee.go:116 | `strings.Join`: the parts with the separator between each two. It has no contract of its own. `Text.JoinSplit`, `Text.SplitJoin` and `Text.JoinAvoids` state its behaviour. |
| Text.JoinSplit | coffee-break/coffee.go:87 | Joining the pieces of a split with the separator gives back the text. |
| Text.SplitPiecesFree | coffee-break/coffee.go:69 | No piece of a split contains the separator. |
| Text.SplitAtLeftmost | coffee-break/coffee.go:69 | The first piece ends at the leftmost occurrence of the separator, and the rest of the text after it is split the same way. |
| Text.SplitFree | coffee-break/coffee.go:69 | A text in which the separator does not occur splits into itself alone. |
| Text.SplitJoin | coffee-break/coffee.go:121 | Splitting a join gives back the parts, when no part creates a separator with the one after it. |
| Text.JoinAvoids | coffee-break/coffee.go:116 | A character in neither the parts nor the separator is not in their join. |
| Ansi.SequenceLength | prow-ci/prow_summary.go:18 | The length matched at a position is 0 or at least 3 and stays inside the text. |
| Ansi.SequenceLengthSound | prow-ci/prow_summary.go:18 | A non-zero match is an escape sequence: ESC, `[`, digits and semicolons, one letter. |
| Ansi.SequenceLengthComplete | prow-ci/prow_summary.go:18 | Every escape sequence starting at a position is the one matched there, so the match is unique. |
| Ansi.Strip | prow-ci/prow_summary.go:17-20 | The stripped text is never longer than the input. |
| Ansi.StripDeletesOnlySequences | prow-ci/prow_summary.go:18-19 | The scan covers the whole input in order, every span it deletes is an escape sequence, and what it keeps, in order, is the result. |
| Ansi.StripDropsLeadingSequence | prow-ci/prow_summary.go:18-19 | A text that begins with an escape sequence loses exactly that sequence, and the rest is stripped. |
| Ansi.StripKeepsNonSequenceStart | prow-ci/prow_summary.go:18-19 | A non-empty text that begins with no escape sequence keeps its first character, and the rest is stripped. With `Strip("") == ""` these two fix the result: every leftmost escape sequence is deleted and every other character kept. |
| Ansi.StripWithoutEsc | prow-ci/prow_summary.go:17-19 | A text without ESC is returned unchanged. |
| Ansi.StripNotIdempotent | prow-ci/prow_summary.go:18-19 | Stripping `"\x1b\x1b[m[m"` leaves `"\x1b[m"`, and stripping that leaves `""`: stripping twice differs from once. |
| LogPatterns.CaptureAtSound | prow-ci/prow_summary.go:68-70 | A capture found at a position is a match of the marker, its class run, and the closing quote or a maximal run. |
| LogPatterns.CaptureAtComplete | prow-ci/prow_summary.go:68-70 | Every match at a position is the capture found there. |
| LogPatterns.FirstFromLeftmost | prow-ci/prow_summary.go:73 | No match starts between the search start and the position the search returns. |
| LogPatterns.Find | prow-ci/prow_summary.go:73 | `FindStringSubmatch` of a capture pattern: the capture of the first match, if any. It has no contract of its own. `LogPatterns.FindSpec` and `LogPatterns.FindFirst` state its behaviour. |
| LogPatterns.FindSpec | prow-ci/prow_summary.go:72-73 | The search fails exactly when the log has no match at all; otherwise it returns the capture of the leftmost match. |
| LogPatterns.FindFirst | prow-ci/prow_summary.go:72-73 | The capture of the leftmost match is what the search returns. |
| LogPatterns.FindIgnoresSuffix | prow_summary.go:63-64 | For a quoted capture, text appended after a log that already matches leaves the result unchanged. |
| LogPatterns.JobState | prow-ci/prow_summary.go:72-73 | The captured word of the first `Reporting job state '<word>'` marker. It has no contract of its own. `ReportLines.JobStateIs`, `ReportLines.JobStateIsNot` and `ReportLines.JobStateIgnoresLaterText` state its behaviour. |
| LogPatterns.DurationToken | prow-ci/prow_summary.go:93-94 | The token of the first `Ran for <token>` marker. It has no contract of its own. `ReportLines.DurationIs` and `ReportLines.DurationAbsent` state its behaviour. |
| LogPatterns.RegionSpanSpec | prow-ci/prow_summary.go:80-81 | The region search fails exactly when no `Summarizing … Test Suite Failed` region exists; otherwise it returns the leftmost start with the nearest end. |
| LogPatterns.FailureRegion | prow-ci/prow_summary.go:80-81 | `matches[1]` of the failure pattern: the first region, end marker included, if any. It has no contract of its own. `LogPatterns.FailureRegionFirst` and `LogPatterns.FailureRegionNone` state its behaviour. |
| LogPatterns.FailureRegionFirst | prow-ci/prow_summary.go:80-81 | The leftmost region, end marker included, is the captured summary. |
| LogPatterns.FailureRegionNone | prow-ci/prow_summary.go:84 | No summary is captured exactly when no region exists. |
| ReportLines.StateLine | prow-ci/prow_summary.go:91 | The `Reporting job state: <state>\n` line, with the state trimmed. It has no contract of its own. `ReportLines.StateLineOfWord` states that a captured word is printed unchanged. |
| ReportLines.StateLineOfWord | prow-ci/prow_summary.go:91 | A state without surrounding white space is printed as it was captured. |
| ReportLines.JobStateIs | prow-ci/prow_summary.go:72-75 | The reported state is the capture of the leftmost job-state marker. |
| ReportLines.JobStateIsNot | prow-ci/prow_summary.go:72-75 | When no leftmost marker captures a word, that word is not the reported state. |
| ReportLines.DurationIs | prow-ci/prow_summary.go:93-94 | The reported duration is the token of the leftmost duration marker. |
| ReportLines.DurationAbsent | prow-ci/prow_summary.go:96 | No duration is reported exactly when the log has no duration marker. |
| ReportLines.JobStateIgnoresLaterText | prow_summary.go:63-64 | Only the first job-state marker decides: appending any text, further markers included, leaves the state unchanged. |
| ProwCiSummary.ConstructMessage | prow-ci/prow_summary.go:66-101 | The message and the notify flag of the failure-only reporter. It has no contract of its own. `ProwCiSummary.NotifiesOnFailure`, `SilentUnlessFailed`, `FailedWithSummary` and `FailedWithoutSummary` state its behaviour. |
| ProwCiSummary.OptionalDurationLine | prow-ci/prow_summary.go:93-98 | The `Ran for <token>\n` line, or nothing without a marker. It has no contract of its own. `ProwCiSummary.DurationLineFound` and `DurationLineMissing` state its behaviour. |
| ProwCiSummary.NotifiesOnFailure | prow-ci/prow_summary.go:75-77 | The send flag is true exactly when the leftmost job-state marker captures `failed`. |
| ProwCiSummary.SilentUnlessFailed | prow-ci/prow_summary.go:72-78 | A log whose first state is not `failed`, `succeeded` included, or that has no state yields `("", false)`. |
| ProwCiSummary.FailedWithSummary | prow-ci/prow_summary.go:86-91 | With a region, the message starts with the region, escape sequences stripped, and `\n`. |
| ProwCiSummary.FailedWithoutSummary | prow-ci/prow_summary.go:83-85 | Without a region, the message starts with the fixed infrastructure notice. |
| ProwCiSummary.DurationLineFound | prow-ci/prow_summary.go:93-98 | With a duration marker, the message ends with `Ran for <token>\n`, the token of the leftmost marker. |
| ProwCiSummary.DurationLineMissing | prow-ci/prow_summary.go:96-98 | Without a duration marker, the line is left out and no error arises. |
| ProwSummary.ConstructMessage | prow_summary.go:61-83 | The report of the success-and-failure reporter, or the index panic without a duration marker. prow_thread_summary.go:110-132 is the same code. It has no contract of its own. `ProwSummary.PanicsWithoutDuration`, `SucceededReport`, `FailedWithSummary`, `FailedWithoutSummary` and `OtherStateReport` state its behaviour. |
| ProwSummary.Head | prow_summary.go:62-76 | The part of the report before the duration line: the state report for `succeeded`, the summary and state report for `failed`, and nothing otherwise. It has no contract of its own. The `ProwSummary` report lemmas state its behaviour. |
| ProwSummary.PanicsWithoutDuration | prow_summary.go:78-80 | The function panics exactly on logs that have no duration marker. |
| ProwSummary.SucceededReport | prow_summary.go:65-66 | A succeeded log gives `Reporting job state: succeeded\n` + `Ran for <token>\n`, with no summary line. |
| ProwSummary.FailedWithSummary | prow_summary.go:68-75 | A failed log with a region gives the region verbatim, unstripped, with `\n`, then the state line, then the duration line. |
| ProwSummary.FailedWithoutSummary | prow_summary.go:70-75 | A failed log without a region gives `No Failure Summary found\n`, the state line, then the duration line. |
| ProwSummary.OtherStateReport | prow_summary.go:62-80 | A log whose state is neither, or that has none, gives only `Ran for <token>\n`. |
| Notify.CheckFormReply | prow_summary.go:47-58 | A form post succeeds exactly on status 200. A transport error or any other status fails, carrying the status and the body. |
| Notify.CheckJsonReply | prow_thread_summary.go:84-102 | A thread post succeeds exactly on status 200 with a decodable body saying `ok`. Otherwise it fails with the transport error, the body, a decoding error, or the API's error text. |
| Notify.JsonCheckIsStricter | prow_thread_summary.go:90-101 | Every reply the thread post accepts, the form check accepts too. |
| ProwThreadSummary.LatestThreadForToday | prow_thread_summary.go:61-67 | The scan returns the timestamp of the first entry that starts with `today`, looking no further, or `""` when no entry does. |
| ProwThreadSummary.SendMessageToLatestThread | prow_thread_summary.go:46-108 | A failed history fetch posts nothing. The first hit for today, when non-empty, is posted to, and the reply decides the outcome. Otherwise nothing is posted and the result is "no thread found for today". |
| ProwThreadSummary.ThreadFound | prow_thread_summary.go:63-69 | A non-empty scan result starts with `today`. |
| CoffeeBreak.ParseParticipants | coffee-break/coffee.go:69-76 | The loop collects exactly the non-empty trimmed lines of the file, in file order. |
| CoffeeBreak.NonBlank | coffee-break/coffee.go:71-76 | The non-empty trims of the lines, in order. Its own contract bounds the length and excludes empty entries. `CoffeeBreak.ParseParticipants`, `NonBlankMembers` and `ParticipantsClean` state the rest. |
| CoffeeBreak.NonBlankMembers | coffee-break/coffee.go:69-76 | A name is a participant exactly when it is the non-empty trim of some line. |
| CoffeeBreak.ParticipantsClean | coffee-break/coffee.go:69-76 | Every participant is non-empty, already trimmed and free of line breaks. |
| CoffeeBreak.Window | coffee-break/coffee.go:89-91 | The window has min(n, 6) lines. |
| CoffeeBreak.WindowIsSuffix | coffee-break/coffee.go:89-91 | The window is the last lines of the history, in order. |
| CoffeeBreak.LastGroup | coffee-break/coffee.go:87-93 | The last line of the six-line history window, split on `", "`. It has no contract of its own. `CoffeeBreak.EligibleThisRound`, `HistoryReadsBack` and `TrailingBreakExcludesNobody` state its behaviour. |
| CoffeeBreak.NextHistory | coffee-break/coffee.go:116-119 | The new history has from 1 to 6 lines, and its last line is the new group joined with `", "`. |
| CoffeeBreak.Eligible | coffee-break/coffee.go:93-106 | The nested loop keeps exactly the participants, in order, equal to no name of the last group. |
| CoffeeBreak.Without | coffee-break/coffee.go:95-106 | The participants not in the excluded list, in order. Its own contract bounds the length. `CoffeeBreak.Eligible`, `WithoutMembers` and `WithoutNothing` state the rest. |
| CoffeeBreak.WithoutMembers | coffee-break/coffee.go:94-106 | A name is eligible exactly when it is a participant and not in the last group. |
| CoffeeBreak.WithoutNothing | coffee-break/coffee.go:95-105 | When nobody is excluded, the filter keeps everyone. |
| CoffeeBreak.Shuffle | coffee-break/coffee.go:108-112 | The in-place swaps leave a permutation of the array: the same multiset. |
| CoffeeBreak.DrawGroup | coffee-break/coffee.go:108-114 | With at least three eligible, the group has three members drawn from the eligible list. With fewer, the slice fails. |
| CoffeeBreak.Mention | coffee-break/coffee.go:23 | A user written as `<@user>`. It has no contract of its own. `CoffeeBreak.Mentions` and `AnnouncementListsGroup` state its behaviour. |
| CoffeeBreak.Mentions | coffee-break/coffee.go:22-24 | Each user `u` becomes `<@u>`, in order. |
| CoffeeBreak.Announcement | coffee-break/coffee.go:26 | `Coffee break group for <month> is: ` and the mentions joined by `", "`. It has no contract of its own. `CoffeeBreak.AnnounceGroup` and `AnnouncementListsGroup` state its behaviour. |
| CoffeeBreak.AnnounceGroup | coffee-break/coffee.go:22-26 | The array is rewritten in place to mentions, and the message is `Coffee break group for <month> is: ` followed by the mentions joined with `", "`. |
| CoffeeBreak.AnnouncementListsGroup | coffee-break/coffee.go:26 | After its fixed opening, the announcement splits on `", "` back into the group's mentions, in order. |
| CoffeeBreak.EligibleThisRound | coffee-break/coffee.go:87-106 | Eligibility is the filter by the last line of the history window, split on `", "`. |
| CoffeeBreak.RecordAndAnnounce | coffee-break/coffee.go:116-126 | The history file written is the joined new history, the message is the announcement, and delivery is the form-post check. |
| CoffeeBreak.RunCoffeeBreak | coffee-break/coffee.go:64-129 | Fewer than 3 participants fails with NotEnoughParticipants, and fewer than 3 eligible with NotEnoughEligible; otherwise every output below holds. |
| CoffeeBreak.GroupMembersEligible | coffee-break/coffee.go:93-114 | Every drawn member is a participant who was not in last week's group. |
| CoffeeBreak.HistoryReadsBack | coffee-break/coffee.go:87-121 | The written history file reads back with the new group as its last group, when no name contains `", "`. |
| CoffeeBreak.NextRoundExcludesGroup | coffee-break/coffee.go:87-121 | Nobody drawn this round is eligible next round, when no drawn name contains `", "`. |
| CoffeeBreak.TrailingBreakExcludesNobody | coffee-break/coffee.go:87-106 | A history file ending in a line break names an empty last group, so everyone is eligible. |

`CoffeeBreak.RunCoffeeBreak` on success returns:

- a group of three drawn from the eligible participants;
- the history file `Join(NextHistory(...), "\n")`;
- the announcement of the group;
- the form-post check of the reply.

## Left out

- **Network I/O.** `FetchTextContent`, `http.NewRequest`, `client.Do`, `GetConversationHistory` (with its limit of 100 messages), and reading response bodies are left out. The log text, the history's thread timestamps and the HTTP reply are inputs. A decoded JSON body is an `Option<Ack>`.
- **Encodings.** JSON and `url.Values` encoding of the posted payloads, headers and the token are library serialisation. Only the posted channel, text and thread are kept, as `ThreadPost`.
- **Request construction.** The "error creating the request" branches are left out: `http.NewRequest` with a constant URL and method does not fail.
- **Environment, disk and process.** `os.Getenv`, `os.Getwd`, the printing and exit behaviour of the `main` functions, and reading and writing the coffee-break files are left out. File contents are inputs, and the new history file is an output string. `log.Fatalf` for too few participants becomes `Failure(NotEnoughParticipants)`, and a panic for too few eligible becomes `Failure(NotEnoughEligible)`. A failed send is different. Go reports it with `log.Fatalf` after the history file is already written, so the model returns `Success` with the failure in the round's `delivery` field. Read and write errors of the files are not modelled.
- **The clock.** `time.Now()` is left out, and `today` and the month are inputs. The layout at prow_thread_summary.go:60, `"2022-01-02"`, is not Go's reference layout (`2006-01-02`): it prints day, zero-padded day, day, `-MM-DD`. The scan takes whatever string it is given.
- **Randomness.** `rand.NewSource(time.Now().UnixNano())` is left out. The random draws are the function `roll`, and `Shuffle` exchanges entry `i` with entry `roll(i) % (i + 1)`. Go's separate 63-bit path for more than 2^31 entries is left out.
- **Error texts.** Error message texts are modelled as the constructors of `DeliveryError` and `CoffeeError`, not as formatted strings.
- **The unused parameter.** The `content` parameter of every `ConstructMessage` is never read and is dropped.
- **Characters, not bytes.** Logs and files are sequences of characters. Go's handling of invalid UTF-8 (each bad byte read as U+FFFD) is not modelled.
- **Aliasing.** In coffee.go, `newGroup` shares its backing array with `eligibleParticipants`, so rewriting users to mentions also rewrites the first three eligible entries. `RecordAndAnnounce` rewrites a copy instead, because nothing reads those entries afterwards.
- **Slice bounds.** `eligibleParticipants[:3]` is bounds-checked against the slice's capacity, not its length. For fewer than three names appended one at a time the capacity equals the length. `DrawGroup` therefore tests the length.
