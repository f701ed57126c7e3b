# Handwriting stream overlay: verified model of its core

The overlay shows a live stream's chat on a virtual tablet. A message is
typed onto the page one code unit at a time, and the page keeps the twelve
most recent completed lines. This project models in Dafny the three pieces
of logic that decide what ends up on that page and what the server accepts.

- **JavaScript text** (`js_text.dfy`). A JavaScript string is a sequence of
  UTF-16 code units: `.length`, `slice` and regular expressions without the
  `u` flag count code units, so a character above U+FFFF counts as two.
  Message texts and URLs are therefore modelled as sequences of code units
  (`JsString`). `Utf16` encodes a text into them, and `DecodeUtf16` undoes
  it.
- **The typewriter engine of the tablet screen** (`tablet_screen.dfy`). The
  engine holds:
  - an arrival-ordered queue of pending messages;
  - a watermark with the id of the message queued most recently;
  - the one message currently being typed, its code-unit counter and the
    line typed so far;
  - the completed lines, capped at twelve, where the oldest line is dropped
    first.

  The component's effects and its interval callback become three serialized
  steps: ingest, dispatch and tick. `Engine` holds the state as a value.
  `IngestStep`, `DispatchStep` and `TickStep` say what each step does, and
  lemmas state what happens over several ticks. The class `Screen` keeps the
  same state in fields that its methods update in place. Each method is
  proved to perform its step and to keep an invariant with two parts:
  - every message ever queued is finished, being typed or still waiting,
    in arrival order;
  - the page holds the texts of the newest twelve finished messages, in
    the order they finished.
- **The message window of the App component** (`app.dfy`). It covers:
  - the `new_message` updater: dedup by id, append, keep the newest twelve;
  - the debug injector, which appends with neither dedup nor cap;
  - the `stats_update`, `connect` and `disconnect` handlers, as methods of
    the class `AppState`.
- **Two helpers of the server** (`server.dfy`, `server_examples.dfy`):
  - `extractVideoId`. Its regular expression reads the URL one code unit at
    a time. Group 1 is found at the rightmost reachable position. That
    position is limited by JavaScript's `.`, which matches no line
    terminator. Then come the optional `?`, `v` and `=`, the maximal run
    without `#`, `&` or `?`, and the length-11 check. `RegexMatch` states
    the match declaratively: a reachable marker with none further right,
    the longest gap `\??v?=?` can match, and the maximal run after it. It
    shares with the function only `MarkerLength`, whose alternatives
    `MarkerAlternatives` spells out literal by literal. Two lemmas tie the
    function to it, one for a URL the pattern matches and one for a URL it
    does not match, and `MatchOrNoMarker` shows that every URL is one of
    the two.
  - The `/api/music` listing: filter `.mp3`/`.wav` names and prefix them
    with `/public/music/`. A failed directory read gives the empty list.

Shared pieces:
- `common.dfy` holds `Option`, JavaScript's `slice(0, n)` and the
  keep-the-newest-`n` cap that both client components use.
- `messages.dfy` holds the chat message record.

Facts about the code that the model makes explicit:
- The engine compares a new message's id only with the id it queued most
  recently, so an id seen earlier is queued again
  (`WatermarkRemembersOnlyLatest`).
- A full page drops its oldest line; it is never wiped
  (`Common.AppendUnderCap`).
- A URL may contain line terminators. The pattern's `.` stops at the first
  one, so a marker after it is not found (`ExtractVideoIdWithoutMatch`).

## Model

| member | source | states |
|---|---|---|
| JsText.Utf16 | client/src/components/TabletScreen.jsx:49-58 | a text becomes between `n` and `2n` code units for `n` characters: the unit that `.length` and `slice` count |
| JsText.DecodeUtf16OfUtf16 | client/src/components/TabletScreen.jsx:49-58 | decoding the code units gives the text back, so distinct texts are distinct strings and comparing code units compares texts |
| JsText.Utf16Append | client/src/components/TabletScreen.jsx:49-58 | encoding a concatenation is concatenating the encodings |
| JsText.BmpUnitsIsUtf16 | client/src/components/TabletScreen.jsx:49-58 | for a text with every character below U+10000 the code units are the characters themselves, one each |
| JsText.BmpUnitsThenChar | client/src/components/TabletScreen.jsx:49-58 | a text below U+10000 followed by any one character encodes as its units followed by that character's one or two units |
| JsText.BmpUnitsAroundChar | server/index.js:71 | one character between two texts below U+10000 encodes as the three encodings in order |
| JsText.AstralCharIsTwoUnits | client/src/components/TabletScreen.jsx:58 | U+1F600 has `.length` 2, and `hi` followed by it has `.length` 4 |
| Messages.TextOf | client/src/components/TabletScreen.jsx:49 | `currentMessage.message \|\| ""`: an absent text is typed as the empty string, a present one as itself |
| Common.SliceTo | client/src/components/TabletScreen.jsx:54 | `slice(0, n)` is a prefix of the text of length `min(n, len)` |
| Common.KeepLast | client/src/components/TabletScreen.jsx:61-65 | the cap returns the whole list when it has at most `n` elements, otherwise exactly its last `n` elements |
| Common.KeepLastAppend | client/src/components/TabletScreen.jsx:61-65 | capping after every append equals capping the whole history once: the capped list is always the newest `n` elements ever appended |
| Common.AppendUnderCap | client/src/components/TabletScreen.jsx:61-65 | below the cap an append keeps everything; at the cap exactly the oldest element is dropped and the order of the rest is kept |
| TabletScreen.InitTextIsUtf16 | client/src/components/TabletScreen.jsx:20-25 | the startup message's text is the UTF-16 encoding of `SYSTEM ONLINE... WAITING FOR INPUT...` |
| TabletScreen.IngestStep | client/src/components/TabletScreen.jsx:28-34 | the queue grows by one exactly when `messages` is present, non-empty and its last element's id differs from the watermark; the new tail is that element and becomes the watermark; otherwise the state is unchanged; the rest of the state is untouched and well-formedness is kept |
| TabletScreen.IngestIdempotent | client/src/components/TabletScreen.jsx:31-32 | ingesting the same `messages` twice is the same as once |
| TabletScreen.IngestSeesOnlyLast | client/src/components/TabletScreen.jsx:30 | two arrays ending in the same message are ingested alike, whatever precedes it |
| TabletScreen.WatermarkRemembersOnlyLatest | client/src/components/TabletScreen.jsx:31 | a message whose id differs from the latest queued id is queued again, even if that id was queued earlier |
| TabletScreen.DispatchStep | client/src/components/TabletScreen.jsx:37-43 | dispatch fires only when nothing is being typed and the queue is non-empty; the head becomes current and the tail remains; current-then-queue is the same sequence before and after (FIFO, nothing lost); a message being typed is never displaced |
| TabletScreen.TickStep | client/src/components/TabletScreen.jsx:53-69 | while typing, the shown line grows by one code unit and stays a prefix of the text; on the tick after the last code unit, the full text joins the page under the twelve-line cap, the typing line becomes empty and the current message null; queue and watermark are untouched |
| TabletScreen.TicksRevealPrefix | client/src/components/TabletScreen.jsx:53-56 | before completion, `k` more ticks show exactly the first `charIndex + k` code units of the text |
| TabletScreen.TicksComplete | client/src/components/TabletScreen.jsx:49-68 | from any point of typing, `len - charIndex + 1` ticks complete the message with its full text on the page, where `len` counts code units |
| TabletScreen.TicksSplit | client/src/components/TabletScreen.jsx:53 | `a` ticks followed by `b` ticks are `a + b` ticks |
| TabletScreen.DispatchThenType | client/src/components/TabletScreen.jsx:37-68 | a message dispatched to an idle engine is on the page after exactly `len + 1` ticks, `len` in code units (one tick for an empty or absent text), and the queue has lost just its head |
| TabletScreen.SurrogatesTypedOneByOne | client/src/components/TabletScreen.jsx:53-68 | typing counts code units: `hi` followed by a character above U+FFFF is on the page after five ticks, and after three the typing line ends in an unpaired high surrogate |
| TabletScreen.CompletionKeepsPage | client/src/components/TabletScreen.jsx:61-65 | completing a message keeps the page equal to the newest twelve texts of all finished messages, in finishing order |
| TabletScreen.Screen.constructor | client/src/components/TabletScreen.jsx:20-25 | the queue holds only the `init` message with text `SYSTEM ONLINE... WAITING FOR INPUT...`; nothing is typed and the page is empty |
| TabletScreen.Screen.Ingest | client/src/components/TabletScreen.jsx:28-34 | performs `IngestStep` in place, keeps the invariant and records any queued message in the arrival history |
| TabletScreen.Screen.Dispatch | client/src/components/TabletScreen.jsx:37-43 | performs `DispatchStep` in place and keeps the invariant |
| TabletScreen.Screen.Tick | client/src/components/TabletScreen.jsx:53-69 | performs `TickStep` in place, keeps the invariant, and appends the current message to the finished history exactly when it completes, so the page follows dispatch order |
| App.HasId | client/src/App.jsx:28 | `prev.some(m => m.id === msg.id)` holds exactly when some message in the window carries the id |
| App.AddMessage | client/src/App.jsx:26-33 | a message whose id is in the window leaves it unchanged; otherwise the result ends with the message, preceded by the newest `min(12, n + 1) - 1` messages of the old window |
| App.AddMessageKeepsWindowGood | client/src/App.jsx:26-33 | a window of at most twelve messages with distinct ids stays so after `new_message` |
| App.Replay | client/src/App.jsx:26-33 | a sequence of `new_message` events never leaves the window longer than twelve, or than its starting length if that was longer |
| App.ReplayKeepsWindowGood | client/src/App.jsx:26-33 | any sequence of `new_message` events keeps the window at most twelve long with distinct ids |
| App.FakeMessage | client/src/App.jsx:50-55 | the debug message has id `debug-` followed by the clock reading, author `System`, the given timestamp and the debug text |
| App.FakeTextIsUtf16 | client/src/App.jsx:53 | the debug text is the UTF-16 encoding of `Debug Message check 123...` |
| App.InjectFake | client/src/App.jsx:56 | the debug injector grows the window by exactly one element, the fake message, and keeps the old window as a prefix |
| App.InjectFakeIgnoresCapAndIds | client/src/App.jsx:49-57 | on a full window the injector breaks the twelve cap, and with a repeated id it breaks id distinctness |
| App.AddMessageRestoresCap | client/src/App.jsx:30-32 | a `new_message` with a fresh id cuts any window, even one past twelve, back to at most twelve |
| App.AppState.constructor | client/src/App.jsx:10-12 | initially no messages, statistics `{0, 0}` and disconnected |
| App.AppState.OnConnect | client/src/App.jsx:15-18 | the connected flag becomes true and nothing else changes |
| App.AppState.OnDisconnect | client/src/App.jsx:20-22 | the connected flag becomes false and nothing else changes |
| App.AppState.OnNewMessage | client/src/App.jsx:24-34 | the window becomes `AddMessage` of the old one, and a window built this way stays capped with distinct ids |
| App.AppState.OnStatsUpdate | client/src/App.jsx:36-38 | the statistics are replaced wholesale and nothing else changes |
| App.AppState.TriggerFakeMessage | client/src/App.jsx:49-57 | the window becomes the old one plus the `debug-` message, with no dedup and no cap |
| Server.MarkerLength | server/index.js:71 | group 1 matches at a position only with one of its five lengths in code units, within the URL; length 9 starts with `y`, 2 with `v`, 5 with `/`, and 6 with `e` or `w` |
| Server.MarkerAlternatives | server/index.js:71 | group 1 matches with length 9 exactly at `youtu`, a code unit other than a line terminator, then `be/`; 2 exactly at `v/`; 5 exactly at `/u/`, a word character and `/`; 6 exactly at `embed/` or `watch?` |
| Server.LineEnd | server/index.js:71 | `^.*` reaches up to the first line terminator or the end of the URL, and no further |
| Server.LastMarker | server/index.js:71 | the found position is where group 1 matches and no later position up to the bound matches; when nothing is found, no position matches |
| Server.SkipOptional | server/index.js:71 | each of `\??`, `v?` and `=?` consumes its code unit exactly when it is next, and nothing otherwise |
| Server.GroupStart | server/index.js:71 | group 7 starts after the marker and the longest gap `\??v?=?` matches: the gap is one of its eight texts and adding the next code unit gives none of them, so each of `?`, `v` and `=` is taken when it comes next |
| Server.OptionalGap | server/index.js:71 | three greedy optional steps over `?`, `v` and `=` leave one of the eight texts `\??v?=?` matches |
| Server.GreedyGapMaximal | server/index.js:71 | three steps that each take `?`, `v` or `=` exactly when it is next leave a gap that the next code unit cannot extend to another text `\??v?=?` matches |
| Server.OptionalPrefixesClosed | server/index.js:71 | every prefix of a text `\??v?=?` matches is one too |
| Server.GreedyGapUnique | server/index.js:71 | only one gap after the marker is both matched by `\??v?=?` and not extendable by the next code unit |
| Server.RunEnd | server/index.js:71 | `[^#&?]*` takes the maximal run: no separator inside and a separator or the end right after |
| Server.ExtractVideoId | server/index.js:70-74 | a non-null result is eleven code units long, holds no `#`, `&` or `?`, occurs in the URL and is followed there by a separator or by the end of the URL |
| Server.ExtractVideoIdFollowsMatch | server/index.js:71-73 | when the pattern matches with group 7 at `[s, e)`, the result is that group when it is eleven code units long and null otherwise |
| Server.ExtractVideoIdWithoutMatch | server/index.js:71-73 | when no marker occurs before the first line terminator, the result is null |
| Server.MatchIsLastMarker | server/index.js:71 | in a match, the marker position is the rightmost marker up to the end of the first line |
| Server.MatchOrNoMarker | server/index.js:71-73 | every URL either has a match with some group 1 and group 7, or has no marker at any reachable position |
| Server.EndsWithIffSplit | server/index.js:52 | `endsWith` holds exactly when the name is some text followed by the suffix |
| Server.IsAudioFileIffExtension | server/index.js:52 | a name passes the filter exactly when it is some text followed by `.mp3` or `.wav` |
| Server.AudioFiles | server/index.js:52 | the filter keeps exactly the names ending in `.mp3` or `.wav` and never lengthens the list |
| Server.AudioFilesAppend | server/index.js:52 | the filter works piece by piece, so it keeps the directory order |
| Server.WebPaths | server/index.js:53 | each name becomes `/public/music/` followed by the name, position by position |
| Server.MusicListing | server/index.js:45-56 | a failed read gives the empty list; otherwise every entry is `/public/music/` plus an audio name from the directory, every audio name appears, and the list is no longer than the directory |
| Server.MusicListingAppend | server/index.js:51-53 | the listing of a directory is the listings of its two halves concatenated: directory order is kept |
| ServerExamples.WatchUrlExample | server/index.js:70-74 | `https://www.youtube.com/watch?v=dQw4w9WgXcQ` yields `dQw4w9WgXcQ` |
| ServerExamples.ShortUrlExample | server/index.js:70-74 | `https://youtu.be/dQw4w9WgXcQ?t=42` yields `dQw4w9WgXcQ`: the run stops at the query's `?` |
| ServerExamples.BadLengthUrlExample | server/index.js:73 | `https://youtu.be/short` matches, but its group 7 of five code units yields null |
| ServerExamples.EmojiDotUrlIsUtf16 | server/index.js:71 | the URL `youtu` + U+1F600 + `be/` is encoded as its code units |
| ServerExamples.EmojiDotIsNoMarker | server/index.js:71 | in `youtu` + U+1F600 + `be/` the `.` of `youtu.be` cannot match the two code units of the emoji, and no other alternative occurs, so group 1 matches at no position |
| ServerExamples.EmojiDotUrlExample | server/index.js:70-74 | `youtu` + U+1F600 + `be/` yields null |
| ServerExamples.EmojiIdUrlIsUtf16 | server/index.js:70-74 | the URL `v/dQw4w9WgX` + U+1F600 is encoded as its code units |
| ServerExamples.EmojiIdUrlMatch | server/index.js:71 | the pattern matches `v/dQw4w9WgX` + U+1F600 with group 7 running to the end of the URL |
| ServerExamples.EmojiIdUrlExample | server/index.js:70-74 | an id of ten characters ending in U+1F600 is eleven code units and is returned |

## Left out

- Timing and React scheduling are not modelled: the 75 ms interval,
  effect batching and cleanup on unmount. Each effect and each interval
  callback is one serialized step. Dispatch restarts the code-unit counter
  at zero, as the animator effect does when the current message changes.
- A tick with no current message is a no-op, because no interval runs then.
- Pen tracking and auto-scroll (client/src/components/TabletScreen.jsx:75-90)
  are not modelled. They depend on DOM geometry, floating-point pixel
  offsets and `scrollIntoView`.
- Messages carry no thumbnail field. The engine reads only `id` and
  `message`, and the App only `id`.
- `Date.now()` and `new Date().toISOString()` are clock readings. They are
  parameters of `TriggerFakeMessage`, given as text.
- Statistics are unbounded integers, so the `NaN` that the server's
  `parseInt` can produce is not modelled.
- All I/O in server/index.js is out of scope: the Express routes and their
  HTTP responses, Socket.IO emits, the `youtube-chat` client, the stats
  poller, `config.json` loading and the mutable globals. The model keeps
  only the pure helpers.
- `fs.readdir` is a parameter: its outcome is either the file names or an
  error.
- `extractVideoId` on a value that is not a string (where `url.match`
  throws) is not modelled. URLs are strings.
- The following are not part of this model: electron/main.js (window, tray
  and process lifecycle) and the presentation files Pen.jsx,
  TabletContainer.jsx, StatsPanel.jsx and tailwind.config.js.
- Page wipes, ellipsis truncation on overflow and pen travel or parking
  poses are not modelled, because the code does not implement them.
- Message ids, authors, timestamps and music file names are Dafny strings
  of characters, not code units. The code only compares, copies and
  concatenates them, and only with ASCII literals (`endsWith('.mp3')`, the
  `/public/music/` prefix, `debug-`), so counting characters or code units
  gives the same results. An id holding an unpaired surrogate cannot be
  written in this model.
