# GlassFlow desktop dashboard: a Dafny model of its core

GlassFlow is an Electron/React desktop dashboard. It has a to-do list, a
calendar, sticky notes, a focus (pomodoro) timer and a weather panel. This
project models the logic behind those panels, plus a companion Python
rebase helper, as pure Dafny functions with proved contracts:

- **Store** (`src/store/useAppStore.ts`): the persisted state, which is to-dos,
  calendar events, notes, opacity and weather city. Every store action is a
  pure `AppState -> AppState` update. `Date.now()` becomes an explicit stamp
  parameter.
- **Nlp** (`src/utils/nlp.ts`): date detection. The Chinese grammar is tried
  first and the English grammar only as a fallback. The clean text is the
  input with the first occurrence of the matched phrase removed, then trimmed
  and whitespace-collapsed. The two chrono grammars are function parameters.
- **TodoWidget**: the date detected while typing, what a submit hands to
  the store, and the active/completed split of the list.
- **App** (`src/App.tsx`): the drag-end decision that converts a dropped
  to-do into an event, the collapse/expand window sizes, and the backup-file
  import path, where a failed parse leaves the store untouched.
- **Calendar** (`CalendarWidget.tsx`): the agenda, which is upcoming events
  sorted stably by date, at most ten. Also the month-cell contents (four
  events plus a "+N" label), clicking a day, and the prev/next shift.
- **Focus** (`FocusWidget.tsx`): the timer state machine (toggle, reset,
  switch mode, one-second tick) and the `mm:ss` formatting.
- **Weather** (`src/services/weather.ts`, `WeatherWidget.tsx`): WMO code to
  description and to icon, and the reshaping of the forecast response.
- **RebaseTodo** (`edit_todo.py`): the rewrite of a `git rebase` to-do list.
  Pick lines whose message starts with one of thirteen type words (功能,
  feat, 配置, chore, …, design) and is not yet in `type: message` form get an
  exec line after them that amends the commit to that form. The script's own output, which
  escapes only double quotes, is modelled next to a corrected output whose
  exec line sh reads back exactly (see Findings).

Supporting modules: **Wrappers** (`Option`) and **Seqs** (filter, count,
first index, subsequence). **Text** covers JavaScript and Python whitespace,
`indexOf`, first-occurrence removal, trim and the
`trim().replace(/\s+/g, ' ')` idiom, together with its characterisation as
the words of the string joined by single spaces. **Decimal** covers decimal
digit strings and `padStart`.

Persistence and UI: the store's persistence layer and the UI rendering are
not modelled.

## Model

| member | source | states |
|---|---|---|
| Store.Initial | src/store/useAppStore.ts:56-66 | the start state has three to-dos with distinct ids, no events, one note, opacity 0.6 and city 厦门市 |
| Store.SetOpacity | src/store/useAppStore.ts:68 | only the opacity changes, to the given value |
| Store.SetWeatherCity | src/store/useAppStore.ts:69 | only the city changes, to the given value |
| Store.AddTodo | src/store/useAppStore.ts:71-88 | exactly one to-do is appended (not done, with the given text and due date); an event paired with it is appended exactly when a date is supplied; notes and settings are untouched |
| Store.ToggleTodo | src/store/useAppStore.ts:90-92 | every to-do keeps its id, text and due date; `done` flips exactly on the to-dos carrying the id |
| Store.RemoveTodo | src/store/useAppStore.ts:94-96 | the result holds no to-do with the id, only to-dos of the input, and every to-do of the input with another id; events are untouched |
| Store.AddEvent | src/store/useAppStore.ts:98-100 | exactly the given event, with a stamp id, is appended; nothing else changes |
| Store.ConvertTodoToEvent | src/store/useAppStore.ts:102-115 | an unknown id changes nothing; otherwise one 'todo' event titled with the first matching to-do's text is appended, and exactly the matching to-dos get the new due date |
| Store.AddNote | src/store/useAppStore.ts:117-119 | one note is appended with the given content and the default colour only when none is passed |
| Store.UpdateNote | src/store/useAppStore.ts:121-123 | exactly the notes with the id get the new content; everything else is equal |
| Store.StampId | src/store/useAppStore.ts:72 | an id is a non-empty digit string that reads back as the stamp it was made from |
| Store.StampIdInjective | src/store/useAppStore.ts:72 | two stamps give the same id exactly when they are equal |
| Store.RemoveNote | src/store/useAppStore.ts:125-127 | no note with the id remains; every other note is kept; nothing else changes |
| Store.RemoveNoteCount | src/store/useAppStore.ts:125-127 | removal keeps the remaining notes in order (a subsequence) and drops exactly as many as carry the id |
| Store.ImportData | src/store/useAppStore.ts:149-155 | each collection is replaced when present; opacity and city are replaced only when truthy; otherwise the current value is kept |
| Store.ExportData | src/store/useAppStore.ts:129-139 | the document carries the five persisted fields unchanged, version "1.0.0" and the export time |
| Store.ToggleTwice | src/store/useAppStore.ts:90-92 | toggling the same id twice restores the state |
| Store.ToggleUnknownId | src/store/useAppStore.ts:90-92 | toggling an id no to-do has is a no-op |
| Store.RemoveTodoCount | src/store/useAppStore.ts:94-96 | removal keeps the remaining to-dos in order (a subsequence) and drops exactly as many as carry the id |
| Store.RemoveUnknownTodo | src/store/useAppStore.ts:94-96 | removing an absent id is a no-op |
| Store.ConvertKeepsFirstMatch | src/store/useAppStore.ts:102-115 | conversion changes no id or text, so which to-do matches first is unchanged |
| Store.ConvertTwiceAccumulates | src/store/useAppStore.ts:102-115 | converting the same to-do twice appends two events (no deduplication), and the to-do keeps the later date |
| Store.ApplyAllKeepsEvents | src/store/useAppStore.ts:71-127 | over any run of actions without an import, the old event list stays a prefix of the new one (events are append-only) |
| Store.UnknownTodoIdIsNoop | src/store/useAppStore.ts:90-115 | toggle, remove and convert on an absent to-do id leave the state unchanged |
| Store.UnknownNoteIdIsNoop | src/store/useAppStore.ts:121-127 | update and remove on an absent note id leave the state unchanged |
| Store.ExportImportRoundTrip | src/store/useAppStore.ts:129-155 | importing an exported document restores the exported state, whatever the importing state, when opacity is non-zero and the city non-empty |
| Store.EmptyCityNotRestored | src/store/useAppStore.ts:154 | an empty city is not restored by the round trip; the importing store's city survives |
| Text.IndexOf | src/utils/nlp.ts:29 | the result is the least position where the phrase occurs, or None when it occurs nowhere |
| Text.RemoveFirst | src/utils/nlp.ts:29 | with no occurrence the text is unchanged; otherwise exactly the first occurrence is cut out |
| Text.Trim | src/modules/todo/TodoWidget.tsx:101 | the result is the input with only whitespace cut from before and after it; it neither starts nor ends with whitespace, and it is empty iff the input is all whitespace |
| Text.TrimUnique | src/modules/todo/TodoWidget.tsx:101 | any slice of the input that only whitespace surrounds and that neither starts nor ends with whitespace is the trimmed text, so the contract of Trim determines its result |
| Text.TrimVisible | src/modules/todo/TodoWidget.tsx:101 | trimming drops only whitespace: the visible characters are all kept, in order |
| Text.Collapse | src/utils/nlp.ts:29 | collapsing never lengthens the text, is empty only for empty text, and starts with whitespace exactly when the input does |
| Text.Normalize | src/utils/nlp.ts:29 | the result is trimmed with single spaces and keeps every visible character in order; it is empty iff the input is all whitespace |
| Text.CollapseLast | src/utils/nlp.ts:29 | collapsing keeps the last character, turning it into a single space when it is whitespace |
| Text.NormalizeIdempotent | src/utils/nlp.ts:29 | normalizing twice equals normalizing once |
| Text.NormalizeIsJoinedWords | src/utils/nlp.ts:29 | the normalized string is the input's whitespace-separated words joined with single spaces |
| Nlp.CleanText | src/utils/nlp.ts:29 | the clean text is normalized, no longer than the input, and the normalized input when the phrase does not occur |
| Nlp.FromFirst | src/utils/nlp.ts:26-31 | the first result supplies the date and the phrase to remove; the original text is kept |
| Nlp.ParseDateFromText | src/utils/nlp.ts:19-40 | None iff both grammars find nothing; the Chinese result wins whenever it exists; English is used only as the fallback |
| Nlp.EnglishOnlyAsFallback | src/utils/nlp.ts:19-24 | when the Chinese grammar matches, the English grammar has no influence on the result |
| Nlp.CleanTextIsRemainingWords | src/utils/nlp.ts:36-38 | the clean text is the words around the matched phrase joined by single spaces, and is free of other whitespace |
| Nlp.WholeTextMatched | src/utils/nlp.ts:29 | a phrase spanning the whole input leaves an empty clean text |
| Nlp.CleanTextNormalizeFixed | src/utils/nlp.ts:38 | the clean text is already normalized |
| TodoWidget.DetectDate | src/modules/todo/TodoWidget.tsx:90-97 | an empty input detects nothing without asking the grammars; any other input gets the parser's answer |
| TodoWidget.Submit | src/modules/todo/TodoWidget.tsx:99-112 | a blank input makes no call and keeps the form; otherwise one call is made with the detected date and clean text (or the raw input), and the form is cleared |
| TodoWidget.SubmitToStore | src/modules/todo/TodoWidget.tsx:99-112 | a blank submit leaves the store alone; any other appends exactly one to-do |
| TodoWidget.SubmittedTitleNotBlank | src/modules/todo/TodoWidget.tsx:103-105 | a non-blank input never produces a to-do with an empty title |
| TodoWidget.DetectedDateReachesStore | src/modules/todo/TodoWidget.tsx:103-105 | a detected date becomes the new to-do's due date, with exactly one paired event |
| TodoWidget.ActiveCompletedPartition | src/modules/todo/TodoWidget.tsx:86-87 | the active and completed lists keep store order, hold only undone and only done to-dos respectively, and together are a permutation of the list |
| App.DragEndCall | src/App.tsx:92-103 | a convert call happens iff there is a drop target, the dragged item is a to-do, the target id starts with "day-" and it carries a date |
| App.HandleDragEnd | src/App.tsx:92-103 | an ignored drag changes nothing; any drag keeps notes, settings and the number of to-dos, and only appends events |
| App.DropOnDayAddsEvent | src/App.tsx:92-103 | dropping a known to-do on a day appends one event for that date, titled with the to-do's text |
| App.DragOfUnknownTodoIsNoop | src/App.tsx:92-103 | a drop naming an unknown to-do changes nothing |
| App.ToggleCollapse | src/App.tsx:41-58 | the flag flips; a resize is requested iff the IPC bridge exists, 60x60 when collapsing and 900x700 when expanding |
| App.ToggleCollapseTwice | src/App.tsx:41-58 | two toggles restore the flag and request the two different sizes in turn |
| App.HandleFileLoad | src/App.tsx:78-86 | the import fails iff the file does not parse or parses to null, and then the store is unchanged; otherwise the document is imported |
| App.NonObjectImportIsNoop | src/App.tsx:78-86 | a parsed value that is not an object is reported as imported but changes nothing |
| App.ExportedFileRestores | src/App.tsx:78-86 | loading an exported file restores the exported state when its settings are truthy |
| Calendar.SortByDate | src/modules/calendar/CalendarWidget.tsx:214 | the result is a permutation of the input, sorted by date |
| Calendar.InsertSorted | src/modules/calendar/CalendarWidget.tsx:214 | inserting into a sorted list keeps it sorted |
| Calendar.InsertStable | src/modules/calendar/CalendarWidget.tsx:214 | the inserted event goes after every event with the same date |
| Calendar.SortStable | src/modules/calendar/CalendarWidget.tsx:214 | sorting keeps the store order among events with the same date |
| Calendar.Agenda | src/modules/calendar/CalendarWidget.tsx:211-216 | empty outside agenda view; at most ten events, all from the store, all on or after the start of the day, sorted by date |
| Calendar.AgendaEarliest | src/modules/calendar/CalendarWidget.tsx:211-216 | the agenda and what it leaves out are exactly the upcoming events; nothing left out is earlier than anything shown; something is left out only when ten are shown |
| Calendar.AgendaKeepsStoreOrder | src/modules/calendar/CalendarWidget.tsx:211-216 | when at most ten events are upcoming, the agenda lists each upcoming date's events in store order |
| Calendar.AgendaDayPrefix | src/modules/calendar/CalendarWidget.tsx:211-216 | however many events are upcoming, the agenda's events on any date are the first of that date's events in store order |
| Calendar.MonthCell | src/modules/calendar/CalendarWidget.tsx:68-108 | a cell shows the first four of the day's events in store order, and a "+N" label iff there are more, with N the number not shown |
| Calendar.ClickDay | src/modules/calendar/CalendarWidget.tsx:80-84 | clicking a day opens nothing iff no event falls on it; otherwise it opens the first such event in store order |
| Calendar.DroppedTodoJoinsDay | src/modules/calendar/CalendarWidget.tsx:68 | after a to-do is dropped on a day, that day's events are the old ones followed by the new event |
| Calendar.PrevShift | src/modules/calendar/CalendarWidget.tsx:179-183 | back one week in week view, back one month in the month and agenda views |
| Calendar.NextShift | src/modules/calendar/CalendarWidget.tsx:185-189 | forward one week in week view, forward one month in the month and agenda views |
| Calendar.PrevOpposesNext | src/modules/calendar/CalendarWidget.tsx:179-189 | prev and next step by the same unit with opposite signs in every view (the step only: a clamped month step is not undone) |
| Focus.Initial | src/modules/focus/FocusWidget.tsx:7-9 | the timer starts stopped in focus mode with 25 minutes |
| Focus.Settle | src/modules/focus/FocusWidget.tsx:20-23 | a timer that reached zero is stopped; nothing else changes |
| Focus.ToggleTimer | src/modules/focus/FocusWidget.tsx:27 | running and stopped swap while time remains; a finished timer stays stopped; validity is kept |
| Focus.ResetTimer | src/modules/focus/FocusWidget.tsx:28-31 | the timer is stopped with the full time of its current mode |
| Focus.SwitchMode | src/modules/focus/FocusWidget.tsx:33-37 | the new mode is set, stopped, with 25 minutes for focus and 5 for a break |
| Focus.Tick | src/modules/focus/FocusWidget.tsx:14-25 | a running timer with time left loses one second and stops on reaching zero; any other timer is unchanged |
| Focus.RunPreservesValid | src/modules/focus/FocusWidget.tsx:7-37 | no sequence of actions takes the time left outside zero to the mode's full time, or leaves a finished timer running |
| Focus.CountDown | src/modules/focus/FocusWidget.tsx:14-25 | k ticks of a running timer take k seconds off, and it stops exactly when it reaches zero |
| Focus.StoppedStaysStopped | src/modules/focus/FocusWidget.tsx:14-25 | ticks do not change a stopped timer |
| Focus.FormatTime | src/modules/focus/FocusWidget.tsx:39-43 | the display is five characters exactly when the minutes fit in two digits |
| Focus.FormatTimeRoundTrip | src/modules/focus/FocusWidget.tsx:39-43 | reading the minutes and seconds back from the display gives the original number of seconds |
| Decimal.NatToString | src/modules/focus/FocusWidget.tsx:42 | the text is non-empty, all decimal digits, and starts with 0 only for zero itself |
| Decimal.PadStart | src/modules/focus/FocusWidget.tsx:42 | the string is left-padded with the fill character up to the width and keeps its text at the end |
| Decimal.ValueOfNatToString | src/modules/focus/FocusWidget.tsx:42 | the decimal text of a number reads back as that number |
| Weather.Description | src/services/weather.ts:18-28 | each label is returned exactly on its WMO code range, and 未知 exactly outside all of them |
| Weather.IconFor | src/modules/weather/WeatherWidget.tsx:11-19 | each icon is drawn exactly on its code range; the sun is drawn for 0, 1 and every code no rule claims |
| Weather.ShowersDrawnAsSun | src/modules/weather/WeatherWidget.tsx:11-19 | shower codes 80 to 82 are described as showers but drawn as a sun |
| Weather.Reshape | src/services/weather.ts:63-76 | the current fields are copied; there is one day per date, and each reads the other arrays at its own index |
| Weather.ReshapeAlignedArrays | src/services/weather.ts:70-75 | when the daily arrays have equal lengths, every day's code and temperatures are defined |
| RebaseTodo.Strip | edit_todo.py:22 | the stripped line is the line with only Python whitespace cut from its two ends, has no such whitespace at either end, and is empty iff the line is all whitespace |
| RebaseTodo.SplitSpace2 | edit_todo.py:22 | at most three fields; joining them with single spaces rebuilds the line; only the last of three fields may contain a space |
| RebaseTodo.CommitType | edit_todo.py:31-39 | a chosen type is one of feat, chore, build, fix, refactor or style |
| RebaseTodo.CommitTypeExactly | edit_todo.py:31-39 | a message gets a type iff it starts with one of the thirteen type words |
| RebaseTodo.CommitTypeOfWord | edit_todo.py:31-39 | a message that starts with a type word gets the type that word stands for (功能, feat and 新特性 give feat; 配置, chore and 清理 give chore; 构建 and build give build; 修复 and fix give fix; 优化 and refactor give refactor; design gives style) |
| RebaseTodo.OldPrefixWord | edit_todo.py:45 | the alternative the pattern matches is a prefix of the message |
| RebaseTodo.OldPrefixWordMatches | edit_todo.py:45 | the removed word is one of the fourteen alternatives of the pattern, and none is found only when no alternative starts the message |
| RebaseTodo.StripOldPrefix | edit_todo.py:45 | a message without an old prefix is kept; otherwise the message is the matched word, an optional colon taken whenever present, whitespace, and the result, which starts with no whitespace |
| RebaseTodo.StrippedAsUnique | edit_todo.py:45 | that description fixes the result: two rests that both fit it are equal |
| RebaseTodo.StripWord | edit_todo.py:45 | cutting a word the message starts with leaves exactly the rest the greedy `[:：]?\s*` match leaves |
| RebaseTodo.DropColon | edit_todo.py:45 | one ASCII or full-width colon is dropped exactly when the text starts with one; otherwise the text is unchanged |
| RebaseTodo.MatchesConventional | edit_todo.py:43 | the check holds exactly for a lower-case initial followed, on the same line, by a colon and then whitespace |
| RebaseTodo.NewMessage | edit_todo.py:16-46 | only pick lines with a message field, a type word and no conventional form are rewritten, as type, ": " and the message without its old prefix |
| RebaseTodo.NewMessageExactly | edit_todo.py:17-43 | a pick line is rewritten iff its stripped text has three fields and the message field starts with one of the thirteen type words and is not conventional |
| RebaseTodo.NewMessageOfWord | edit_todo.py:17-46 | a rewritten pick line whose message starts with type word w gets the type w stands for, ": " and the message without its old prefix |
| RebaseTodo.RewrittenIsConventional | edit_todo.py:41-46 | every rewritten message passes the conventional check, so a second run leaves it alone |
| RebaseTodo.StrippedWordChoseType | edit_todo.py:31-45 | whenever a type is chosen, the word the pattern strips maps to that same type |
| RebaseTodo.EscapeQuotes | edit_todo.py:51 | the result is one character longer per double quote, and every double quote in it is preceded by a backslash |
| RebaseTodo.UnescapeEscapeQuotes | edit_todo.py:51 | turning each backslash-quote pair of the escaped message back into a quote gives the message, so the escape keeps every other character in order |
| RebaseTodo.EscapeQuotesKeepsQuoteless | edit_todo.py:51 | a message without double quotes is left unchanged by the escape |
| RebaseTodo.TrailingBackslashBreaksLine | edit_todo.py:51-55 | any message of characters not special to sh that ends in a backslash passes the escape unchanged, and its exec line's quoted argument is never closed |
| RebaseTodo.ShEscape | edit_todo.py:51 | the corrected escape adds exactly one backslash per character special inside sh double quotes |
| RebaseTodo.ShEscapeReadsBack | edit_todo.py:51-55 | sh reads the corrected escape of any message back as that message, up to the closing quote |
| RebaseTodo.EscapingsAgree | edit_todo.py:51 | on messages without backslash, dollar or backquote the corrected and the original escape agree |
| RebaseTodo.ExecLine | edit_todo.py:55 | the exec line starts with the amend command, and its quoted argument reads back as exactly the new message |
| RebaseTodo.RewriteLine | edit_todo.py:16-58 | each line is kept, and is followed by one exec line exactly when it is rewritten |
| RebaseTodo.Rewrite | edit_todo.py:15-58 | the output has one extra line per rewritten input line |
| RebaseTodo.RewriteKeepsLines | edit_todo.py:15-58 | every input line survives, in order |
| RebaseTodo.ScriptExecLine | edit_todo.py:51-55 | the script's exec line is the amend command, the escaped message, a closing quote and a newline: its length is the message's plus one per double quote plus the command, and unescaping the part between the command and the closing quote gives the message |
| RebaseTodo.ScriptExecLineAgrees | edit_todo.py:51-55 | on messages without backslash, `$` or backquote the script's exec line is the corrected one |
| RebaseTodo.ScriptExecLineUnclosed | edit_todo.py:51-55 | for a message of ordinary characters ending in a backslash, sh never finds the end of the script's quoted argument |
| RebaseTodo.ScriptRewriteLine | edit_todo.py:16-58 | as the script writes it: each line is kept, followed by its exec line exactly when it is rewritten |
| RebaseTodo.ScriptRewrite | edit_todo.py:15-58 | as the script writes it: one extra line per rewritten input line |
| RebaseTodo.ScriptRewriteAgrees | edit_todo.py:15-58 | when no new message holds a backslash, `$` or backquote, the script's output equals the corrected output |
| RebaseTodo.ScriptRewriteKeepsLines | edit_todo.py:15-58 | the script keeps every input line, in order |

## Left out

- Date parsing grammars: the chrono Chinese and English grammars are not modelled. They are function parameters returning the matches found, leftmost first.
- Clocks: `Date.now()` and `new Date()` are explicit parameters (stamps, export time, start of day).
- Calendar arithmetic: date-fns (start of day, `isSameDay`, add or subtract months and weeks, the day grid) is not modelled. Same-day is a `dayOf` parameter and a shift is named rather than computed.
- Agenda side effect: `setHours(0,0,0,0)` mutates the current date in place. It is not modelled.
- Persistence and files: zustand persistence, the Blob download, `FileReader` and `JSON.parse` are I/O. Parsing is an `Option` of the parsed value.
- JSON dates: the round trip of `Date` values through JSON strings is not modelled. Dates are integers throughout.
- Import truthiness: import fields holding non-array truthy values, or the falsy values `false`, `0` and `""` in place of a collection, are not modelled. A collection field is either an array or absent/null.
- Floating point: opacity is a `real`, and temperatures, wind and humidity are opaque values.
- External services: the Electron main process, the IPC bridge beyond whether it exists, the auto-start setting, geocoding and the weather fetch itself (network, errors) are not modelled.
- Timer scheduling: `setInterval` is not modelled. A tick is one step of the effect.
- Presentation: rendering, animations, the lunar calendar, the notes panel's UI and the event detail modal are not modelled.
- Script I/O: `edit_todo.py` reading and writing the file and the GBK fallback are not modelled. The script works on a list of lines, each still carrying its newline.
- Focus.FormatTime: only non-negative seconds are modelled. The timer never goes below zero, so negative values do not arise.
- Store.StampId: JavaScript's exponent notation for numbers of 1e21 and above is not modelled.
- RebaseTodo.ReadDoubleQuoted: every unescaped `$` or backquote counts as an expansion that changes the text. This is stronger than sh, which leaves a lone `$` before a space alone.
- RebaseTodo.ExecLine: uses the corrected escape described under Findings, not the escape as written. The script's line is RebaseTodo.ScriptExecLine.
- RebaseTodo.RewriteLine: emits the corrected exec line, so it differs from the script on new messages holding a backslash, `$` or backquote. The script's behaviour is RebaseTodo.ScriptRewriteLine.
- RebaseTodo.Rewrite: built on RewriteLine, with the same difference. The script's behaviour is RebaseTodo.ScriptRewrite, and RebaseTodo.ScriptRewriteAgrees says when the two coincide.

## Findings

| source | as written | input that shows it | evidently intended | confidence | as-written member | corrected member |
|---|---|---|---|---|---|---|
| edit_todo.py:51 | only `"` is escaped before the message is put between double quotes in an sh `exec` line; `\`, `$` and backquote pass through | a pick line whose message is `fix a\` is rewritten to `fix: a\` and gets `exec git commit --amend -m "fix: a\"`; sh reads `\"` as a quote character, so the argument never closes. A `$HOME` in a message would be expanded | the amended message equals the rewritten message, so every character special inside sh double quotes is escaped | medium, not executed | RebaseTodo.ScriptExecLine, RebaseTodo.ScriptExecLineUnclosed, RebaseTodo.TrailingBackslashBreaksLine | RebaseTodo.ExecLine, RebaseTodo.ShEscapeReadsBack |
