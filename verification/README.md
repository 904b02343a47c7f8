# HR utility: name list, lucky draw and grouping, in Dafny

This project models the list logic of a browser-based HR utility. The
utility has three screens, each a React component. The logic behind them
is lifted out of the components' hooks and event handlers and proved
correct here.

- **Name list** (`components/NameListInput.tsx`, module `NameList`):
  - pasted text is split at line feeds and commas, each token is trimmed and
    blank tokens are dropped;
  - duplicate names are found in one scan with a `seen` set;
  - "remove duplicates" rewrites the text with each name once, first
    occurrences in order.
- **Participants** (`App.tsx`, module `App`): `handleUpdateParticipants` turns
  the names into `{id, name}` records, trims them and drops blank ones. The id
  is `${Date.now()}-${index}`.
- **Lucky draw** (`components/LuckyDraw.tsx`, module `Draw`):
  - a class holds the component's state: participants, winners, candidates,
    the drawing flag, the repeat switch, the draw count and the displayed names;
  - its methods are the effect that resyncs the pool, `startDraw` with its
    guards, one animation frame, `finishDraw` and `resetDraw`;
  - `finishDraw`'s loop, which picks and `splice`s, is a method proved against
    the function `DrawAfter`. `DrawAfter` describes the loop after any number
    of iterations.
- **Grouping** (`components/AutoGrouping.tsx`, module `Grouping`):
  - `performGrouping` cuts a shuffled list into consecutive groups of
    `peoplePerGroup` and labels them;
  - `downloadCSV` builds the rows with a nested loop and renders the text:
    a byte-order mark, then cells joined by commas and rows by line feeds,
    with no quoting.

Two shared modules support these:

- `Text` gives the JavaScript built-ins the source relies on:
  - `String.prototype.trim` over the full ECMAScript whitespace and
    line-terminator set;
  - `split` on single separator characters;
  - `join`;
  - the decimal rendering of a number inside a template literal.
- `Types` holds the records `Participant` and `Group`.

Nondeterminism becomes input:

- Every `Math.random()` the draw reads is a caller-supplied real in [0, 1),
  scaled with `Math.floor(r * n)` as the source does.
- The shuffle of the grouping screen is a caller-supplied permutation of the
  participants.
- The `Date.now()` reading of each mapped entry is a caller-supplied number.

Behaviours of the code that the model keeps:

- The group-size input's `min="2"` is not enforced: `parseInt(value) || 2`
  keeps 1 and negative numbers, and a negative size gives no groups.
- The preview frames and the committed draw use separate random values, so
  the last frame shown need not match the winners.

## Model

| member | source | states |
|---|---|---|
| Text.Trim | components/NameListInput.tsx:15 | The result has no whitespace at either end. It is a contiguous piece of the input. It is empty exactly when the input is all whitespace. Text that is already trimmed is returned unchanged. |
| Text.TrimDropsOnlyWhitespace | components/NameListInput.tsx:15 | Only whitespace is removed, and only at the ends: the result sits in the input at some offset, with an all-whitespace prefix before it and an all-whitespace suffix after it. |
| Text.TrimAvoids | components/NameListInput.tsx:15 | Trimming never introduces a character the input did not contain, such as a separator. |
| Text.Split | components/NameListInput.tsx:15 | Splitting yields at least one piece and no piece contains a separator. Text with no separator yields itself. |
| Text.SplitAt | components/NameListInput.tsx:15 | Splitting at a separator splits the two sides independently and in order. |
| Text.SplitJoin | components/NameListInput.tsx:67 | Joining separator-free pieces and splitting again gives the pieces back. |
| Text.Join | components/NameListInput.tsx:67 | `join` of a non-empty list is as long as its pieces plus one separator between each pair; the empty list joins to the empty text. |
| Text.JoinSplit | components/NameListInput.tsx:67 | The inverse law of `Split` and `join`: splitting at a character and joining with it again gives the text back. |
| Text.JoinAvoids | components/AutoGrouping.tsx:50 | A join of pieces that avoid a set of characters, using a separator outside that set, avoids the set. |
| Text.Dec | App.tsx:15 | The decimal rendering is non-empty, all digits, and a single digit exactly for numbers below ten. |
| Text.DecValue | App.tsx:15 | The rendering spells the number itself: its digits read back as the number, and it starts with `0` only for zero, so there are no leading zeros. |
| Text.DecInjective | App.tsx:15 | Distinct numbers render differently. |
| NameList.Clean | components/NameListInput.tsx:15 | Every surviving token is non-empty and equal to its own trim, and there are no more survivors than tokens. |
| NameList.ParseNames | components/NameListInput.tsx:15 | Every parsed name is non-empty, trimmed and free of line feeds and commas. |
| NameList.CleanAppend | components/NameListInput.tsx:15 | Cleaning a concatenation cleans each part in turn, so tokens keep their relative order. |
| NameList.CleanKeepsNames | components/NameListInput.tsx:15 | Tokens that are already non-empty and trimmed pass through unchanged. |
| NameList.ParseAt | components/NameListInput.tsx:15 | The names before a separator come first, followed by the names after it. |
| NameList.ParseJoin | components/NameListInput.tsx:15 | Parsing the line-feed join of valid names gives exactly those names back. |
| NameList.SetAdd | components/NameListInput.tsx:24 | Adding to an insertion-ordered set: the element is then present, membership otherwise is unchanged, and no element repeats. The old elements keep their places; a new element adds exactly one slot, at the end, and a present one adds none. |
| NameList.Duplicates | components/NameListInput.tsx:19-29 | The reported names never repeat. |
| NameList.FindDuplicates | components/NameListInput.tsx:19-29 | The one-pass `seen`/`dupes` loop reports exactly the names occurring at least twice, each once, in the order the scan reaches them. |
| NameList.DuplicatesIff | components/NameListInput.tsx:19-29 | A name is reported if and only if it occurs at least twice. |
| NameList.DuplicatesPrefix | components/NameListInput.tsx:22-27 | The report for a prefix of the list is a prefix of the report for the whole list. Names are listed in the order they are first seen for the second time. |
| NameList.NoDuplicatesIff | components/NameListInput.tsx:19-29 | The report is empty if and only if no name repeats. |
| NameList.Dedup | components/NameListInput.tsx:66 | `Array.from(new Set(names))` has no repetitions, has exactly the same set of names and is no longer than the input. |
| NameList.DedupKeepsFirstOrder | components/NameListInput.tsx:66 | Two names are in the same order after de-duplication as their first occurrences in the input, in both directions. |
| NameList.DedupOfDistinct | components/NameListInput.tsx:66 | A list without repetitions is its own de-duplication. |
| NameList.DedupIdempotent | components/NameListInput.tsx:66 | De-duplicating twice equals de-duplicating once. |
| NameList.DedupRepeat | components/NameListInput.tsx:66 | A name appended to a list that already holds it leaves the de-duplication unchanged. |
| NameList.DedupAbsorbs | components/NameListInput.tsx:66 | Appending names that already occur does not change the de-duplication. |
| NameList.RemoveDuplicates | components/NameListInput.tsx:65-68 | The rewritten text parses to exactly the de-duplicated list. That list has the same names, reports no duplicates, and keeps first occurrences in order. |
| NameList.RemoveDuplicatesReparses | components/NameListInput.tsx:65-68 | Parsing the rewritten text gives the de-duplicated names, and they have no duplicates to report. |
| NameList.PastedTwice | components/NameListInput.tsx:65-68 | A text pasted twice, with a line break between the copies, de-duplicates to the same list as the text pasted once. |
| App.ParticipantId | App.tsx:15 | The id splits at its hyphen into exactly two parts: the clock reading and the position, each in decimal. |
| App.ParticipantIdInjective | App.tsx:15 | An id determines both its clock reading and its index. |
| App.Mapped | App.tsx:14-16 | One record per entry. Record `i` has the trimmed entry as its name, and its id splits into the clock reading of that entry and the position `i`. |
| App.NonBlankFrom | App.tsx:17 | Every record the filter keeps has a non-empty name, and the filter never lengthens the list. |
| App.KeptFrom | App.tsx:17 | The kept positions lie within the list, and there is one for each record kept. |
| App.KeptPicks | App.tsx:14-17 | The filter keeps, in order, exactly the records at the kept positions. |
| App.KeptIncreasing | App.tsx:14-17 | The kept positions are strictly increasing, so output order follows input order. |
| App.KeptIff | App.tsx:17 | A position is kept if and only if the record there has a non-empty name. |
| App.FormatParticipants | App.tsx:13-19 | The output is no longer than the input. Every name is non-empty and trimmed. The output's names are exactly the parse's cleaning of the input: trimmed, blanks dropped, order kept. |
| App.FormattedFrom | App.tsx:14-17 | Record `j` is the entry at the `j`-th kept position, with id `${clock}-${position}` and the trimmed name. Positions increase. An entry is dropped if and only if its trim is empty, so id suffixes skip the dropped blanks. |
| App.IdsDistinct | App.tsx:15 | Ids within one call are pairwise distinct, whatever the clock reads. |
| Draw.Pick | components/LuckyDraw.tsx:58 | `Math.floor(Math.random() * n)` is a valid index into a non-empty list. |
| Draw.Remove | components/LuckyDraw.tsx:63 | `splice(idx, 1)` shortens the list by one. |
| Draw.RemoveMultiset | components/LuckyDraw.tsx:63 | `splice(idx, 1)` removes exactly one occurrence of the picked element. |
| Draw.Step | components/LuckyDraw.tsx:57-64 | With an empty copy the iteration changes nothing. Otherwise it appends one winner, taken from the copy, after the earlier winners. With repeat the copy is kept; without repeat it loses one element. |
| Draw.DrawAfter | components/LuckyDraw.tsx:56-65 | After `steps` iterations there are at most `steps` winners, and fewer only when the copy has run out. |
| Draw.StepMultiset | components/LuckyDraw.tsx:56-65 | Without repeat, one iteration moves its pick from the working copy to the winners, keeping the two together equal to the pool. |
| Draw.DrawSizes | components/LuckyDraw.tsx:56-65 | Without repeat, the loop yields `min(drawCount, |candidates|)` winners, and winners plus leftovers number `|candidates|`. |
| Draw.DrawMultiset | components/LuckyDraw.tsx:56-65 | Without repeat, the winners and the leftover copy together are a permutation of the old candidates. |
| Draw.DrawWithRepeat | components/LuckyDraw.tsx:56-65 | With repeat, the copy stays equal to the candidates, every winner is a candidate, and a non-empty pool yields exactly `drawCount` winners. |
| Draw.DrawStaysEmpty | components/LuckyDraw.tsx:57 | Once the copy is empty, further iterations change nothing, so breaking out of the loop there gives the same result. |
| Draw.WinnersDistinct | components/LuckyDraw.tsx:56-65 | Without repeat, a pool of distinct participants yields distinct winners. |
| Draw.LeftoverWithin | components/LuckyDraw.tsx:68-69 | The pool left after a draw without repeat is still drawn from the current participants. |
| Draw.DrawWinners | components/LuckyDraw.tsx:53-65 | The loop over a copy of the pool, with its `break` and `splice`, computes exactly the winners and leftovers `DrawAfter` describes. |
| Types.NamesOf | components/LuckyDraw.tsx:72 | `newWinners.map(w => w.name)`: one name per participant, the `i`-th name being the `i`-th participant's. |
| Draw.PreviewNames | components/LuckyDraw.tsx:36-39 | A preview frame has one name per random value, and each is a candidate's name. |
| Draw.ClampDrawCount | components/LuckyDraw.tsx:99 | The stored draw count is at least 1. A readable count of at least 1 is kept, and anything else becomes 1. |
| Draw.LuckyDraw.constructor | components/LuckyDraw.tsx:10-21 | The initial state once the participants effect has run: no winners, not drawing, no repeat, draw count 1, empty display, and a pool equal to the participants. |
| Draw.LuckyDraw.SyncParticipants | components/LuckyDraw.tsx:19-21 | A new participant list replaces the pool, and the invariant is kept. |
| Draw.LuckyDraw.SetDrawCount | components/LuckyDraw.tsx:99 | The draw count becomes the clamped input and stays at least 1. |
| Draw.LuckyDraw.ToggleRepeat | components/LuckyDraw.tsx:107 | The repeat switch flips, and nothing else changes. |
| Draw.LuckyDraw.StartDraw | components/LuckyDraw.tsx:23-30 | The click is ignored while drawing or with an empty pool. Without repeat and with too small a pool it is refused, with no state change. Otherwise the draw starts, and starting is exactly those conditions. |
| Draw.LuckyDraw.PreviewFrame | components/LuckyDraw.tsx:36-40 | One frame shows `drawCount` candidates' names and changes nothing but the display. |
| Draw.LuckyDraw.FinishDraw | components/LuckyDraw.tsx:52-73 | The history becomes the new winners followed by the old history. Without repeat the pool becomes the leftovers; with repeat it is kept. The drawing ends, the display shows the new winners' names, and the pool stays within the participants. |
| Draw.LuckyDraw.Commit | components/LuckyDraw.tsx:67-72 | The four closing state updates of `finishDraw`, keeping the invariant. |
| Draw.LuckyDraw.ResetDraw | components/LuckyDraw.tsx:75-79 | The winners and the display are empty, and the pool equals the participants. Resetting a reset state changes nothing, so two resets equal one. |
| Grouping.GroupIdParts | components/AutoGrouping.tsx:28 | The id `group-${i}` splits at its hyphen into the word `group` and the position in decimal. |
| Grouping.GroupNameParts | components/AutoGrouping.tsx:29 | The name `第 ${i + 1} 組` holds the number `i + 1` in decimal between its fixed two-character prefix and suffix, and has no comma and no line feed. |
| Grouping.Slice | components/AutoGrouping.tsx:30 | `slice(start, end)`: the members from `start` up to `end`, stopping at the end of the list; empty when `end` does not exceed `start` or `start` is past the list. |
| Grouping.GroupLabelsInjective | components/AutoGrouping.tsx:28-29 | Different group positions get different ids and different names. |
| Grouping.NumGroups | components/AutoGrouping.tsx:22 | `Math.ceil(n / k)` is non-negative for a positive `k` and non-positive for a negative one. It is zero exactly when nobody is to be grouped, or when `k` is negative and larger in size than `n`. |
| Grouping.NumGroupsIsCeiling | components/AutoGrouping.tsx:22 | For a positive size, the group count is the ceiling of `n / k`. |
| Grouping.GroupStartsInside | components/AutoGrouping.tsx:24-26 | Every group's slice starts inside the shuffled list. |
| Grouping.Grouped | components/AutoGrouping.tsx:24-32 | There are `ceil(n / k)` groups for a positive size and none for a negative one. |
| Grouping.ChunkIntoGroups | components/AutoGrouping.tsx:21-32 | The loop pushing one slice per iteration produces exactly the groups `Grouped` describes. |
| Grouping.GroupedMembers | components/AutoGrouping.tsx:24-31 | Concatenating the groups' members gives back the shuffled list. |
| Grouping.GroupedMembersUpTo | components/AutoGrouping.tsx:24-31 | The first `i` groups hold the first `min(i * k, n)` people of the shuffled list. |
| Grouping.LastGroup | components/AutoGrouping.tsx:30 | Each slice continues the list exactly where the previous groups stopped. |
| Grouping.GroupSizes | components/AutoGrouping.tsx:25-30 | Every group but the last has exactly `k` members, and the last has between 1 and `k`. |
| Grouping.GroupSize | components/AutoGrouping.tsx:25-30 | A single group has between 1 and `k` members, and exactly `k` unless it is the last. |
| Grouping.GroupingIsPartition | components/AutoGrouping.tsx:20-31 | When the shuffle is a permutation of the participants, the groups hold every participant exactly as often as they are listed. |
| Grouping.GroupLabels | components/AutoGrouping.tsx:28-29 | Group `i` has id `group-i` and name `第 i+1 組`, and no id or name repeats. |
| Grouping.MemberRows | components/AutoGrouping.tsx:44-45 | One row per member of the group. Row `j` has two cells: the group's name and the `j`-th member's name. |
| Grouping.GroupRows | components/AutoGrouping.tsx:43-47 | There is one data row per member. |
| Grouping.BuildRows | components/AutoGrouping.tsx:42-47 | The nested loop produces the header followed by one `[group name, member name]` row per member, in group-then-member order. |
| Grouping.RowsListMembers | components/AutoGrouping.tsx:43-47 | Data row `j` has two cells. The second is the `j`-th member's name and the first is the name of the group holding that member. |
| Grouping.Lines | components/AutoGrouping.tsx:50 | One line per row. |
| Grouping.LinesReadBack | components/AutoGrouping.tsx:50 | A line of plain cells holds no line feed and splits at its commas into exactly its row. |
| Grouping.CsvText | components/AutoGrouping.tsx:50 | The text starts with the byte-order mark U+FEFF. |
| Grouping.CsvRoundTrip | components/AutoGrouping.tsx:50 | Removing the mark, splitting at line feeds and then at commas gives the rows back, provided no cell holds a comma or a line feed. |
| Grouping.CommaSplitsCell | components/AutoGrouping.tsx:50 | Without quoting, a name holding a comma reads back as two cells. |
| Grouping.DataRowsPlain | components/AutoGrouping.tsx:43-47 | The data rows are plain when the group and member names are. |
| Grouping.WithHeaderPlain | components/AutoGrouping.tsx:42 | The header row is plain. |
| Grouping.ExportListsEveryone | components/AutoGrouping.tsx:42-47 | The data rows of a grouping number exactly the participants, and row `j` names the `j`-th person of the shuffled order. |
| Grouping.ExportReadsBack | components/AutoGrouping.tsx:42-50 | The export of a grouping reads back as its rows when no participant name holds a comma or a line feed. |
| Grouping.PeoplePerGroupInput | components/AutoGrouping.tsx:85 | `parseInt(value) || 2` is never zero. An unreadable or zero entry becomes 2, and any other number, negative ones included, is kept. |
| Grouping.NegativeSizeGivesNoGroups | components/AutoGrouping.tsx:22-24 | A negative group size gives no groups. |
| Grouping.AutoGrouping.constructor | components/AutoGrouping.tsx:10-11 | No groups, and a group size of 3. |
| Grouping.AutoGrouping.SetParticipants | components/AutoGrouping.tsx:9 | New participants replace the old ones. The groups already formed are kept. |
| Grouping.AutoGrouping.SetPeoplePerGroup | components/AutoGrouping.tsx:85 | The group size becomes the parsed input and is never zero. |
| Grouping.AutoGrouping.PerformGrouping | components/AutoGrouping.tsx:14-37 | With no participants nothing changes. Otherwise the groups are the slices of the shuffled order. For a positive size they are non-empty, and every participant is in them exactly as often as listed. |
| Grouping.AutoGrouping.DownloadCsv | components/AutoGrouping.tsx:39-50 | There is no file exactly when there are no groups. Otherwise the text is the mark followed by the header and one row per member, unquoted, joined by commas and line feeds. |

## Left out

- Timers and scheduling are not modelled:
  - the 500 ms debounce of the name editor;
  - the 600 ms grouping delay and the `isGrouping` flag;
  - the `requestAnimationFrame` loop of the draw.

  One animation frame (`PreviewFrame`) and the final commit (`FinishDraw`)
  are modelled, and the caller sequences them.
- Draw.LuckyDraw.FinishDraw: the animation closure sees the candidates, the
  draw count and the repeat switch of the render that started the draw. The
  model reads the current fields instead, so a change made while a draw
  animates is not captured.
- Draw.LuckyDraw.constructor: the first render, when the candidates are still
  empty before the participants effect runs, is not modelled. The constructor
  is the state after that effect.
- The HTML `min`/`max` attributes of the two number inputs are not
  modelled. Browsers do not enforce them on typed values, and the handlers
  above show what is stored.
- The spreading of a draw by `Math.random()` and the bias of the
  comparator-based shuffle are not modelled, because the random values and
  the permutation are parameters.
- The rule that the history repeats a participant only after a draw with
  repeat is not stated as an invariant of the class: the repeat switch can
  change between draws.
- Grouping.PeoplePerGroupInput: sizes are unbounded integers. In the source,
  `parseInt` of an entry with 309 or more digits is `Infinity`, which `|| 2`
  keeps; `Math.ceil(n / Infinity)` is then 0, so no groups form, while the
  model forms one group of everybody.
- Draw.ClampDrawCount: counts are unbounded integers. In the source, an entry
  of 309 or more digits becomes `Infinity`, and entries beyond 2^53 are
  rounded.
- Draw.LuckyDraw.PreviewFrame: in the source, with repeat on and a draw count
  of 2^32 or more, `Array.from({ length: drawCount })` (components/LuckyDraw.tsx:36)
  throws a `RangeError` inside the first animation frame. The animation then
  stops, `finishDraw` never runs and `drawing` stays true for good. The model
  has no array-length limit, so its frame succeeds and the draw can finish.
- Draw.LuckyDraw.FinishDraw: for the same reason, the model completes draws
  of any size; the source never reaches `finishDraw` for counts of 2^32 or
  more.
- Grouping.NumGroups: `Math.ceil(n / k)` is computed on floating point in the
  source. The model uses exact integers, which agree for list sizes far
  below 2^53.
- Browser input and output are not modelled:
  - file upload and drag-and-drop (`FileReader`);
  - the `Blob` download, the link element and the filename's locale date;
  - `alert`, which becomes the `InsufficientCandidates` outcome.
- The mock-data generators (`loadMockData`, `loadLargeMockData`) are random
  fixtures and are not modelled.
- The navigation sidebar and all rendering are not modelled. The
  `Math.ceil(n / k) || 0` group-count estimate on screen is covered by
  `NumGroups`.
- `types.ts` is not part of this model. Its records are restated in the
  module `Types`.
