# Founder OS calendar and mail tools, modelled in Dafny

Founder OS ships two command-line tools. `_tools/gcal.py` talks to Google
Calendar and `_tools/gmail.py` talks to Gmail. Most of what they do is OAuth,
API calls, printing and JSON files. This project models the logic in between
and proves what it promises.

- **Free slots** (`check_availability`, module `Availability`). The busy slots
  are collected from the timed events and sorted stably by start. A cursor
  then sweeps the working-hours window, emitting each gap it has to jump and
  a final gap up to the window's end. Instants are whole minutes.
- **Events** (module `Events`). This covers the all-day and timed branches of
  `format_event` and its defaults. It also covers the end time and request
  body that `create_event` builds.
- **Fetched mail** (module `FetchEmails`). This covers the header dictionary
  (the last duplicate wins) and the choice of body: the top-level data, else
  the first `text/plain` part with data, else "". It also covers the stored
  record, whose body is cut to 5000 characters.
- **Draft body** (module `HtmlBody`). `text_to_html` is modelled in full: it
  calls `html.escape`, splits at "\n\n", turns each newline into `<br>`, and
  wraps each chunk in a styled `<p>` joined by "\n".
- **Raw draft** (module `DraftMessage`). This is the CRLF header block that
  `create_draft` writes: To, an optional Cc, Subject and an HTML Content-Type.
  An empty line and the HTML body follow. A reader for the layout of section
  2.1 of RFC 5322 shows that the draft reads back as the fields it was built
  from.
- **Attachment walk** (module `Attachments`). `process_parts` is modelled over
  a tree of MIME parts (module `MessageParts`). The walk is a pre-order
  traversal that collects each part with both a file name and an attachment
  id.

The source's library calls are passed in as function parameters:
`fromisoformat`, `strftime`, `parse_datetime`, and base64 followed by UTF-8
decoding. Python truthiness is written out explicitly. Where the source
tests `if x` or reads `.get(k, '')` or `.get(k, [])`, an empty string or list
stands for a missing key. Where it reads a key with any other default, such
as `event.get('summary', '(No title)')` or `.get('dateTime', ...)`, the key's
presence is kept as an `Option`, and a present "" is not replaced.

Three behaviours of `check_availability` worth knowing:

- The busy slots are sorted by start only, and the sort is stable.
- `check_availability` returns the busy list in received order.
- A zero-length event inside the window still stops the sweep, so the free
  stretch around it comes out as two touching free slots.

## Model

| member | source | states |
|---|---|---|
| `Events.FormatEvent` | _tools/gcal.py:90-113 | Formatting fails in exactly two cases: the start has no moment, or a timed start has an end with no moment. A start without 'T' gives time "All day" and the raw start as the date. Otherwise the time is the two clock readings joined by " - " and the date is the start's day. A missing summary becomes "(No title)". Location, description and link are copied. The attendee list holds one email per attendee, in order. |
| `Events.EventEnd` | _tools/gcal.py:196-199 | With no end, or an empty one, the event lasts exactly `duration` minutes. Otherwise the end is the parsed end. |
| `Events.DefaultEventLastsAnHour` | _tools/gcal.py:173-199 | With the default duration and no end, the event ends 60 minutes after it starts. |
| `Events.BuildEventBody` | _tools/gcal.py:192-221 | Both ends use the given zone, or the default zone when none is given. The start is the parsed start and the end is `EventEnd`. Description, location and attendees are set exactly when their argument is non-empty. Attendees are listed one per address in order. `sendUpdates` is "all" exactly when there are attendees. |
| `Availability.BusySlotsAreTheTimedEvents` | _tools/gcal.py:268-277 | The busy list has one slot per event that has both a start and an end `dateTime`, and it keeps the received order. Slot k comes from the k-th such event, and every such event is used. A missing summary becomes "(busy)". |
| `Availability.SortByStart` | _tools/gcal.py:282 | The result is sorted by start and is a permutation of its input. |
| `Availability.SortIsStable` | _tools/gcal.py:282 | Slots with equal starts keep their relative input order, as Python's stable `sorted` does. |
| `Availability.SweepFreeSlots` | _tools/gcal.py:279-294 | The cursor loop emits exactly the free list of the sweep over the sorted busy slots. |
| `Availability.CheckAvailability` | _tools/gcal.py:268-309 | The returned busy list is the timed events' slots in received order. The free list is the sweep over those slots sorted by start. |
| `Availability.SweepSlotsAreNonEmpty` | _tools/gcal.py:283-294 | Every emitted slot starts at the cursor's start or later and has start < end. No zero-length gap is ever emitted. |
| `Availability.SweepAvoidsBusy` | _tools/gcal.py:282-288 | Over busy slots sorted by start, no emitted slot overlaps any busy slot. |
| `Availability.SweepCoversIdleTime` | _tools/gcal.py:280-294 | Every instant from the cursor up to the window's end that is in no busy slot lies in some emitted slot. |
| `Availability.SweepIsAscending` | _tools/gcal.py:280-288 | When every busy slot has start <= end, each emitted slot ends no later than the next one starts. |
| `Availability.SweepStaysInWindow` | _tools/gcal.py:283-294 | When every busy slot starts no later than the window's end, every emitted slot ends within the window. |
| `Availability.FreeSlotsCorrect` | _tools/gcal.py:279-294 | For busy slots in any order, overlapping or nested, the free slots have these properties. They are non-empty and lie in the window from its start. They overlap no busy slot. They cover every idle instant of the window. They are ascending and disjoint when the busy slots are well formed. They end within the window when the busy slots start within it. |
| `Availability.FreeIsComplementOfBusy` | _tools/gcal.py:279-294 | When the busy slots start no later than the window's end, an instant is free exactly when it is in the window and in no busy slot. |
| `Availability.NoBusyMeansWholeWindow` | _tools/gcal.py:279-294 | With no busy slots and a non-empty window, the free list is exactly the whole window. |
| `Availability.CoveredWindowHasNoFreeTime` | _tools/gcal.py:279-294 | When every busy slot starts no later than the window's end, a busy slot that spans the whole window leaves the free list empty. |
| `Availability.DuplicateBusySlotIsHarmless` | _tools/gcal.py:268-294 | A well-formed busy slot received twice in a row, anywhere in the received list, gives the same free list as receiving it once. |
| `Availability.FreeSlotsAreMaximal` | _tools/gcal.py:279-294 | When every busy slot starts before it ends, each free slot ends strictly before the next one starts, so no two free slots touch. |
| `Availability.ZeroLengthEventSplitsFreeTime` | _tools/gcal.py:279-294 | A zero-length busy slot strictly inside the window splits the free window into two touching slots, one ending and one starting at it. |
| `FetchEmails.HeaderMap` | _tools/gmail.py:101 | The dictionary's keys are exactly the names of the message's headers. |
| `FetchEmails.LastHeaderWins` | _tools/gmail.py:101 | For a repeated header name, the dictionary keeps the value of the last header with that name. |
| `FetchEmails.HeaderLookup` | _tools/gmail.py:101-120 | A header read by name gives the last header's value. When no header has that name it gives "", which is how From, To, Subject and Date default. |
| `FetchEmails.FirstPlainText` | _tools/gmail.py:108-112 | The result is the first `text/plain` part with data, with none before it. It is `None` exactly when there is no such part. |
| `FetchEmails.SelectBody` | _tools/gmail.py:104-112 | The loop with early exit gives the payload's own data when it has any. Otherwise it gives the first plain-text part's data, or "" when there is none. |
| `FetchEmails.Truncate` | _tools/gmail.py:122 | The result is a prefix of the text of length min(length, n). |
| `FetchEmails.ShapeEmail` | _tools/gmail.py:101-124 | From, To, Subject and Date come from the header dictionary and default to "". Snippet and labels are copied. The body is the selected body cut to its first 5000 characters, which by `Truncate` is the whole body when it is shorter. |
| `HtmlBody.Escape` | _tools/gmail.py:143 | The escaped text contains no raw '<', '>', '"' or '\''. Every '&' in it begins one of the five entities. |
| `HtmlBody.EscapeRoundTrip` | _tools/gmail.py:143 | Unescaping the escaped text gives back the original text. |
| `HtmlBody.SplitParagraphs` | _tools/gmail.py:144 | Splitting always yields at least one piece. The first piece is a prefix of the text. |
| `HtmlBody.SplitJoinRoundTrip` | _tools/gmail.py:144 | Joining the pieces with "\n\n" gives back the text they were cut from. |
| `HtmlBody.PiecesHaveNoBlankLine` | _tools/gmail.py:144 | No piece contains "\n\n". |
| `HtmlBody.PiecesEndCleanly` | _tools/gmail.py:144 | Every piece but the last is empty or does not end with a newline: the cut is always the leftmost "\n\n". |
| `HtmlBody.StrayNewlineOpensNextPiece` | _tools/gmail.py:144 | "\n\n\n" splits into "" and "\n": the third newline opens the next piece. |
| `HtmlBody.PiecesHaveNoRawMarkup` | _tools/gmail.py:143-144 | Pieces of escaped text contain no raw '<', '>', '"' or '\''. |
| `HtmlBody.PiecesKeepEntities` | _tools/gmail.py:143-144 | In the pieces of escaped text, every '&' still begins an entity. |
| `HtmlBody.BreaksRoundTrip` | _tools/gmail.py:147 | Turning newlines into `<br>` newlines can be undone for text with no '<'. |
| `HtmlBody.BreaksNeverStartWithNewline` | _tools/gmail.py:147 | A chunk with its line breaks marked never begins with a newline. |
| `HtmlBody.BreaksMarkEveryNewline` | _tools/gmail.py:147 | After marking, the text has no "\n\n", and every newline directly follows "<br>". |
| `HtmlBody.TextToHtml` | _tools/gmail.py:140-149 | The loop gives one styled `<p>` element per chunk of the escaped text, joined by "\n". Empty input gives exactly one empty paragraph element. |
| `HtmlBody.ParagraphContentIsSafe` | _tools/gmail.py:143-148 | Each paragraph's content has no "\n\n", and each newline in it ends a "<br>\n". Undoing the breaks gives back its chunk. The chunk has no raw markup character, and every '&' in it begins an entity. |
| `HtmlBody.HtmlKeepsText` | _tools/gmail.py:143-149 | Removing the breaks, joining the chunks with "\n\n" and unescaping gives back the input text. |
| `DraftMessage.BuildRawMessage` | _tools/gmail.py:167-174 | The header text built with `+=` is the CRLF-terminated lines To, Cc (only when cc is given and non-empty), Subject and Content-Type. An empty line and the HTML of the body follow. |
| `DraftMessage.ParseLines` | _tools/gmail.py:168-174 | Non-empty header lines without CR, each ended by CRLF, then an empty line and a body, parse back to those lines and that body. |
| `DraftMessage.DraftReadsBack` | _tools/gmail.py:168-174 | When To, Subject and Cc hold no CR, the raw draft parses into its parts. The first header line is `To:`. A `Cc:` line comes second exactly when cc is given and non-empty. `Subject:` and `Content-Type: text/html; charset=UTF-8` come last. What follows the empty line is exactly the HTML body. |
| `Attachments.ProcessParts` | _tools/gmail.py:252-272 | The recursive loop appends exactly the walk of its parts to what was collected before. |
| `Attachments.GetAttachments` | _tools/gmail.py:274-276 | The downloads are the walk of the payload's parts, and nothing when it has none. |
| `Attachments.WalkSelectsPreOrder` | _tools/gmail.py:252-272 | The walk equals the attachments of the depth-first, parent-first listing of all parts, taken in order. |
| `Attachments.WalkSelectsExactlyAttachments` | _tools/gmail.py:252-276 | A (filename, attachmentId) pair is downloaded exactly when some part below the payload has a non-empty file name and attachment id carrying it. |
| `Attachments.SubtreeFollowsPart` | _tools/gmail.py:252-272 | In the listing, each part is immediately followed by the listing of its own subtree, so a parent always comes before its descendants. |
| `Attachments.PayloadIsNeverVisited` | _tools/gmail.py:274-276 | The top-level payload is not among the parts the walk visits, so it is never selected itself. |

## Left out

- OAuth and token handling (`get_calendar_service`, `get_gmail_service`) are not modelled. They are library flows, a browser and token files.
- The remote calls are not modelled: listing, inserting and deleting events, listing, fetching and modifying messages, creating drafts, fetching attachments, and `archive_emails`. They only pass arguments to the network. The reply thread id that `create_draft` copies from the original message is left out with them.
- `parse_datetime`, `fromisoformat`, `strftime`, `ZoneInfo` and the mutable default time zone are library date and zone handling. Instants are whole minutes, and the parsing and rendering functions are parameters. The window `[dayStart, dayEnd)` is an input, not computed from a date and working hours.
- Base64url encoding and decoding and UTF-8 decoding are library calls. `FetchEmails` takes them as one `decode` parameter. The draft's encoding of the raw message is not modelled.
- Printing, the free-slot duration display, JSON dumps, file writes and the attachment download and save are output only and are not modelled.
- The per-message loop of `fetch_emails` is not modelled as a loop: `ShapeEmail` models one iteration.
- `main` (argparse dispatch), `setup.py` (an interactive credential wizard) and the Homebrew formula hold no logic to model.
- `Availability.SweepIsAscending`, `Availability.FreeSlotsCorrect`: ascending order is claimed only for busy slots whose start is not after their end. The Calendar API does not return such malformed slots.
- `Availability.SweepStaysInWindow`, `Availability.FreeIsComplementOfBusy`: containment in the window needs every busy slot to start no later than the window's end, which the query's `timeMax` ensures. The code does not clip, so a busy slot starting after the window would yield a free slot running past it.
- `DraftMessage.DraftReadsBack`: the read-back is claimed only for To, Subject and Cc without CR. A CR LF inside one of them would be read as an extra header line.
