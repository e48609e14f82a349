# auto_flashcards scheduler and text helpers, in Dafny

This project models the computational core of the auto_flashcards
flash-card site. It also models the deck converter that feeds the site.
The model has these parts:

- **Scheduler.** The SM-2-like `replay` of one card's review logs into a
  `CardAggregate`. The default scheduler's `pickNext` does four things:
  - groups the history by card;
  - replays every card of the catalog;
  - splits the cards into due, new and upcoming buckets, with a stable sort
    by due;
  - takes the first `count` ids.
- **Registry.** The scheduler registry and its `listAlgorithms` and
  `getAlgorithm` functions.
- **Aggregates.** The generic aggregate builder `buildAggregates` and the
  grade table `gradeToDelta`.
- **Shared types.** Cards, grades, review logs, aggregates, scheduler
  contexts and schedulers.
- **Markdown string helpers.**
  - `extractSection`, the "## Header" section parser;
  - `escapeRegex`;
  - `replaceImagePaths`;
  - `extractImageReferences`.
- **Converter helpers.**
  - `clean_html_tags`;
  - `sanitize_filename`;
  - the per-card file name rule of `xml_to_markdown.py`.

Modules follow the source files:

| module | file | models |
|---|---|---|
| `Wrappers` | wrappers.dfy | `Option` |
| `Text` | text.dfy | the JavaScript and Python whitespace classes and `trim`/`strip` |
| `Seqs` | seqs.dfy | filter, take, a stable insertion sort with its partner lemmas, map |
| `Types` | types.dfy | website/src/lib/types.ts |
| `Sm2` | replay.dfy | `replay` in website/src/algorithms/default.ts |
| `DefaultAlgorithm` | default_algorithm.dfy | `byDue` and `pickNext` in the same file |
| `Registry` | registry.dfy | website/src/algorithms/index.ts |
| `History` | history.dfy | `gradeToDelta` and `buildAggregates` in website/src/lib/db/history.ts |
| `Storage` | storage.dfy | the three pure helpers of website/src/lib/storage.ts |
| `Cards` | cards.dfy | `extractSection` in website/src/lib/cards.ts |
| `XmlToMarkdown` | xml_to_markdown.dfy | the string helpers of xml_to_markdown.py |

Numbers follow the code.

- **Ease** is held in integer hundredths:
  - it starts at 250 and is clamped to [130, 350];
  - `again` subtracts 20, `hard` subtracts 5 and `easy` adds 5;
  - the `easy` growth factor is ease + 15.
- **`Math.ceil` of a product** is an exact integer ceiling division, `CeilDiv`.
- **Times** are unbounded integers in milliseconds. A day is 86 400 000 ms and
  the `again` delay is 600 000 ms.
- **Regular expressions** are modelled as explicit scanners, with a lemma
  that states what each one matches. This covers the section regex
  (multiline `^`, greedy `\s*`, lazy body, look-ahead), the image regex
  (`.` excludes line terminators) and the tag regex `<[^>]+>`.

Where the code and its documentation differ, the model follows the code:

- `replay` folds the logs in the order given and does not sort them.
  `Sm2.ReplayOrderMatters` shows that order changes the result.
- `replay` counts every log in `reviews`, `view` logs included.
  `buildAggregates` counts only non-view logs. `History.BuildAgreesWithReplay`
  relates the two counts.
- A card is "seen" as soon as it has any log, even a `view`. A card with only
  `view` logs is therefore due now (`DefaultAlgorithm.ViewOnlyCardIsDue`).
- `gradeToDelta` is a table that `replay` never consults. The model keeps it
  separate and proves it agrees in sign and order with the grades.

## Model

| member | source | states |
|---|---|---|
| Types.ParseGrade | website/src/lib/types.ts:12 | a string is a grade exactly when it is one of the five spellings again, hard, good, easy, view |
| Types.GradeName | website/src/lib/types.ts:12 | each grade's spelling parses back to that grade |
| Types.ParseGradeSpelling | website/src/lib/types.ts:12 | the inverse direction: a parsed spelling is the grade's own name, so spellings and grades are in one-to-one correspondence |
| Sm2.CeilDiv | website/src/algorithms/default.ts:24 | the result is the least q with q·b ≥ a, i.e. `Math.ceil(a / b)` |
| Sm2.Initial | website/src/algorithms/default.ts:4-10 | the starting aggregate satisfies the replay invariant: ease in [1.3, 3.5], interval ≥ 0, a due time set |
| Sm2.Step | website/src/algorithms/default.ts:11-42 | one log preserves the invariant and keeps the card id. It adds one review, `view` included, and records ts as lastReviewed. `view` leaves ease, interval and due unchanged. `again` sets ease to max(1.3, ease − 0.2), interval 0 and due ts + 10 min. `hard` sets ease to max(1.3, ease − 0.05) and interval to the ceiling of 1.2 × interval, at least 1. `good` keeps ease, and interval is the ceiling of interval × ease, or 1 from 0. `easy` sets ease to min(3.5, ease + 0.05) and interval to the ceiling of interval × (new ease + 0.15), or 3 from 0. For hard, good and easy the interval never shrinks and due = ts + interval days |
| Sm2.GrowBy | website/src/algorithms/default.ts:30-37 | the ceiling of i·f/100 for a factor f ≥ 1.00, which never shrinks the interval |
| Sm2.Replay | website/src/algorithms/default.ts:3-45 | for any log list: ease stays in [1.3, 3.5], the card id is kept, `reviews` is the number of logs, view included, and lastReviewed is the ts of the last log in list order |
| Sm2.ReplayEmpty | website/src/algorithms/default.ts:4-10 | no logs: 0 reviews, ease 2.5, interval 0, due now, lastReviewed unset |
| Sm2.StepSchedule | website/src/algorithms/default.ts:15-42 | a step's ease, interval and due depend only on the previous ease, interval and due |
| Sm2.ViewNeutral | website/src/algorithms/default.ts:15-42 | removing every `view` log from a card's list leaves its ease, interval and due unchanged |
| Sm2.ViewOnlyReplay | website/src/algorithms/default.ts:4-42 | a card whose logs are all views keeps due = now, ease 2.5 and interval 0, yet counts every view as a review |
| Sm2.ScenarioSingleGood | website/src/algorithms/default.ts:29-34 | one `good` on a fresh card: interval 1 day, due one day after the log, ease 2.5 |
| Sm2.ScenarioTwoGoods | website/src/algorithms/default.ts:29-34 | a second `good` a day later grows the interval to ceil(1 × 2.5) = 3 days |
| Sm2.ReplayOrderMatters | website/src/algorithms/default.ts:11 | replay does not sort: again-then-good and good-then-again give different intervals |
| DefaultAlgorithm.LogsOfSnocAt | website/src/algorithms/default.ts:58-60 | a card's log list grows by the new log exactly when the log is for that card |
| DefaultAlgorithm.GroupByCard | website/src/algorithms/default.ts:57-60 | the grouping holds, for every id, that card's logs in history order, and has a key exactly for the ids that have logs |
| DefaultAlgorithm.GroupStep | website/src/algorithms/default.ts:58-60 | one `push` keeps the grouping equal to the per-card filter of the history read so far |
| DefaultAlgorithm.ByDue | website/src/algorithms/default.ts:47-51 | the comparator is negative exactly when a's due (missing = 0) is below b's, and zero exactly when they are equal |
| DefaultAlgorithm.ByDueAntisymmetric | website/src/algorithms/default.ts:47-51 | swapping the arguments negates the comparator, as `Array.prototype.sort` expects |
| DefaultAlgorithm.ByDueIsDueKey | website/src/algorithms/default.ts:71 | for two cards with aggregates the comparator is the difference of their sort keys, so sorting by the key orders the cards as `byDue` does |
| DefaultAlgorithm.AggregateOfCatalogCard | website/src/algorithms/default.ts:62-69 | every catalog card's aggregate is the replay of its own logs at now, and a card is seen exactly when it has a log |
| DefaultAlgorithm.BucketsOf | website/src/algorithms/default.ts:62-74 | the due and upcoming buckets are each sorted by the cards' aggregate due |
| DefaultAlgorithm.BucketsPartition | website/src/algorithms/default.ts:69-74 | due ++ new ++ upcoming is a permutation of the catalog |
| DefaultAlgorithm.BucketMembers | website/src/algorithms/default.ts:69-74 | a card is in due iff it is in the catalog, has logs and its replayed due ≤ now. It is in new iff it is in the catalog with no logs. It is in upcoming iff it has logs and its replayed due > now |
| DefaultAlgorithm.BucketsShape | website/src/algorithms/default.ts:71-74 | due and upcoming are the sorted seen cards filtered by due ≤ now and > now. Within each due value their order is the catalog order, so the sort is stable |
| DefaultAlgorithm.BucketsAscending | website/src/algorithms/default.ts:71-74 | due and upcoming are each ascending by replayed due |
| DefaultAlgorithm.ViewOnlyCardIsDue | website/src/algorithms/default.ts:11-73 | a catalog card with only `view` logs lands in the due bucket |
| DefaultAlgorithm.PickNext | website/src/algorithms/default.ts:76-84 | the pick has length min(max(count, 0), number of cards), every id comes from the catalog, and there are no repeats when catalog ids are distinct |
| DefaultAlgorithm.PickedFromCatalog | website/src/algorithms/default.ts:76-84 | a prefix of the ids of any permutation of the catalog has catalog ids only, and no repeats when the catalog has none |
| DefaultAlgorithm.PickNextIgnoresAggregates | website/src/algorithms/default.ts:56-85 | the result does not depend on `ctx.aggregates` |
| DefaultAlgorithm.PickNextByLoop | website/src/algorithms/default.ts:76-84 | the nested loop with its two `break`s computes the same list as the take-of-concatenation definition |
| DefaultAlgorithm.PickFromGroups | website/src/algorithms/default.ts:77-83 | the outer loop over groups yields the first `count` ids of the groups' concatenation |
| DefaultAlgorithm.PushGroup | website/src/algorithms/default.ts:78-82 | the inner loop extends the pick to the take of the longer prefix, and reports full exactly when the pick reached `count` |
| DefaultAlgorithm.TakeSaturated | website/src/algorithms/default.ts:79-82 | once `count` ids are picked, later cards change nothing |
| DefaultAlgorithm.TakeOneMore | website/src/algorithms/default.ts:79-80 | below `count`, the next card's id is appended |
| DefaultAlgorithm.ScenarioBucketOrder | website/src/algorithms/default.ts:68-84 | with A due, B new and C upcoming, pickNext(3) is [A, B, C] |
| DefaultAlgorithm.SampleBuckets | website/src/algorithms/default.ts:69-74 | in the same sample the buckets are exactly [A], [B], [C] |
| DefaultAlgorithm.ScenarioZeroCount | website/src/algorithms/default.ts:79 | a count of 0 picks nothing |
| DefaultAlgorithm.DefaultSchedulerPicks | website/src/algorithms/default.ts:53-86 | the exported scheduler is named `default`, and its `pickNext` returns min(max(count, 0), number of cards) catalog ids, without repeats when the catalog ids are distinct |
| Registry.Find | website/src/algorithms/index.ts:14 | lookup is None exactly when no entry has the key, and a found value is stored under that key |
| Registry.FindEntry | website/src/algorithms/index.ts:4-14 | in a registry without repeated keys, every entry is what its key finds |
| Registry.PutFindSame | website/src/algorithms/index.ts:4-6 | after storing under a key, that key finds the new scheduler |
| Registry.PutFindOther | website/src/algorithms/index.ts:4-6 | storing under one key leaves every other key's lookup unchanged |
| Registry.PutDistinct | website/src/algorithms/index.ts:4-6 | storing keeps the keys distinct |
| Registry.BuildDistinct | website/src/algorithms/index.ts:4-6 | a registry built from an object literal never repeats a key |
| Registry.BuildFind | website/src/algorithms/index.ts:4-6 | each scheduler is stored under its own name; a later one with the same name overwrites it |
| Registry.Algorithms | website/src/algorithms/index.ts:4-6 | the application registry has distinct keys, finds the default scheduler under `default`, and finds nothing under any other key |
| Registry.ListAlgorithms | website/src/algorithms/index.ts:8-10 | one row per entry, in entry order, with key, name and description copied unchanged |
| Registry.GetAlgorithm | website/src/algorithms/index.ts:12-15 | an absent or empty key gives the default scheduler, a key the registry lacks gives the default, and any other key gives what it finds |
| Registry.GetRegistered | website/src/algorithms/index.ts:4-14 | getAlgorithm of a registered scheduler's non-empty name returns that scheduler |
| Registry.ListedKeysResolve | website/src/algorithms/index.ts:8-14 | every listed key leads back through getAlgorithm to the scheduler the row describes |
| Registry.ListingOfApplication | website/src/algorithms/index.ts:4-10 | the application lists exactly one algorithm: key and name `default` with its description |
| Registry.ApplicationAlwaysDefault | website/src/algorithms/index.ts:4-15 | in the application every key, present or not, yields the default scheduler |
| History.GradeToDelta | website/src/lib/db/history.ts:41-54 | the table is total over the five grades. It is negative exactly for again and hard, positive exactly for easy, and lies within −0.30..0.15 |
| History.DeltaFollowsRank | website/src/lib/db/history.ts:41-54 | over the four scored grades the delta is strictly monotone in the grade's rank (again < hard < good < easy) |
| History.BuildAggregates | website/src/lib/db/history.ts:56-71 | the keys are exactly the card ids in the history. Each entry has ease 2.5, interval 0 and no due. `reviews` is that card's number of non-view logs, and lastReviewed is the ts of its last log of any grade |
| History.BuildStep | website/src/lib/db/history.ts:58-69 | one loop iteration carries the invariant "the map summarises the history read so far" over one more log |
| History.BuildStepAt | website/src/lib/db/history.ts:59-68 | the same, for one card id |
| History.Record | website/src/lib/db/history.ts:59-68 | one log creates its card's entry if missing, adds one review unless it is a view, sets lastReviewed to its ts, and leaves every other card's entry as it was |
| History.ScoredSnoc | website/src/lib/db/history.ts:65-67 | the count of non-view logs grows by one exactly for a non-view log |
| History.BuildAgreesWithReplay | website/src/lib/db/history.ts:56-71 | the builder and `replay` agree on lastReviewed, and replay's review count is the builder's plus the card's views |
| History.ViewsOnlyCountNothing | website/src/lib/db/history.ts:59-67 | a card whose logs are all views is present with 0 reviews |
| Storage.EscapeRegex | website/src/lib/storage.ts:78-80 | the output is as long as the input plus one per special character |
| Storage.LiteralOf | website/src/lib/storage.ts:72 | reading a pattern as literal text never makes it longer |
| Storage.EscapeIsLiteral | website/src/lib/storage.ts:78-80 | the escaped string, read as a regex, is the literal input. Dropping the inserted backslashes gives back the input |
| Storage.LiteralConcat | website/src/lib/storage.ts:72 | the literal reading of a concatenation is the concatenation of the readings |
| Storage.LiteralEscaped | website/src/lib/storage.ts:79 | a backslash before a special character reads as that character |
| Storage.ImagePatternLiteral | website/src/lib/storage.ts:72 | the pattern `\(` + escape(path) + `\)` matches exactly the text `(` + path + `)` |
| Storage.Split | website/src/lib/storage.ts:72 | splitting yields at least one piece, the first a prefix of the text |
| Storage.JoinSplit | website/src/lib/storage.ts:72 | joining the pieces with the pattern gives back the text |
| Storage.ReplaceIsJoin | website/src/lib/storage.ts:72 | global replace equals split-then-join with the replacement |
| Storage.SplitPiecesFree | website/src/lib/storage.ts:72 | no piece contains the pattern, so the occurrences are non-overlapping and all replaced |
| Storage.ReplaceAbsent | website/src/lib/storage.ts:72 | replacing an absent pattern changes nothing |
| Storage.NoOccurrenceOnePiece | website/src/lib/storage.ts:72 | text without the pattern splits into itself alone |
| Storage.ReplaceOne | website/src/lib/storage.ts:72 | one map entry's escaped regex replaces every literal `(`localPath`)` by `(`url`)` and nothing else |
| Storage.ReplaceImagePaths | website/src/lib/storage.ts:68-76 | when no entry's `(`localPath`)` occurs in the markdown, the markdown comes back unchanged |
| Storage.ReplaceNoEntries | website/src/lib/storage.ts:68-76 | an empty map returns the markdown unchanged |
| Storage.ReplaceSingleEntry | website/src/lib/storage.ts:71-73 | for one entry, the text splits at each `(`localPath`)`. The pieces rejoin to the input, and the result joins the same pieces with `(`url`)`, so nothing else changes |
| Storage.ReplaceSequential | website/src/lib/storage.ts:71-73 | entries apply in map order: later entries act on the result of earlier ones |
| Storage.ReplaceMissingPath | website/src/lib/storage.ts:72 | an entry whose path does not occur changes nothing |
| Storage.FindLinkMiddle | website/src/lib/storage.ts:56 | the lazy `.*?\]\(` finds the first `](` reachable without crossing a line terminator, and reports none when there is no such one |
| Storage.FindClose | website/src/lib/storage.ts:56 | the lazy `(.*?)\)` stops at the first `)`, and no `)` is reachable on the line when none is found |
| Storage.MatchAt | website/src/lib/storage.ts:56-61 | a match at i captures a target free of `)` and line terminators and moves past i |
| Storage.MatchAtLink | website/src/lib/storage.ts:56 | a match at i exists exactly when an image link starts at i, and captures that link's target |
| Storage.LinkDeterministic | website/src/lib/storage.ts:56 | an image link starting at i has one extent only |
| Storage.NoCloseAfter | website/src/lib/storage.ts:56 | if the first `](` has no closing `)` on its line, no link starts at i |
| Storage.ExtractImageReferences | website/src/lib/storage.ts:55-65 | no returned reference contains `)` or a line terminator |
| Storage.NoImageNoReferences | website/src/lib/storage.ts:55-65 | markdown without `![` yields no references |
| Storage.ScanSkips | website/src/lib/storage.ts:60 | positions where no match starts are skipped one at a time |
| Storage.Scan | website/src/lib/storage.ts:58-62 | every target the `exec` loop collects from a position on is free of `)` and line terminators |
| Storage.LinkUnique | website/src/lib/storage.ts:56 | an image link at i is what the matcher reports at i |
| Storage.FirstLinkFirst | website/src/lib/storage.ts:60-62 | the leftmost image link is the first reference, and the scan resumes after its `)` |
| Storage.NoLinkNoMatch | website/src/lib/storage.ts:56 | where no image link starts, the matcher reports none |
| Storage.ImageLinkFirst | website/src/lib/storage.ts:55-65 | markdown that starts with `![alt](target)` yields target first |
| Cards.SpaceRunEnd | website/src/lib/cards.ts:17 | greedy `\s*` stops at the first non-space or at the end |
| Cards.BodyStart | website/src/lib/cards.ts:17 | a match at i puts the body start after the `##` and within the text |
| Cards.LastNewline | website/src/lib/cards.ts:17 | the back-off of `\s*` before `\r?\n` lands on the last newline inside the run |
| Cards.BodyStartMatches | website/src/lib/cards.ts:17 | the header matcher at i returns the body start of a header line and the largest one. It returns none exactly when no header line starts at i |
| Cards.BodyStartFound | website/src/lib/cards.ts:17 | when the run after the header holds a newline, the body starts after the last one |
| Cards.BodyStartNoNewline | website/src/lib/cards.ts:17 | when it holds none, no header line starts at i |
| Cards.HeaderLineAt | website/src/lib/cards.ts:17 | a `##`, blanks, the header, blanks and a newline at a line start form a header line |
| Cards.HeaderAt | website/src/lib/cards.ts:17 | the header text can only begin where the greedy `\s*` after `##` stops |
| Cards.HeaderLineBounds | website/src/lib/cards.ts:17 | every header line at i ends at or before the last newline in the run after the header |
| Cards.BodyEnd | website/src/lib/cards.ts:17 | the lazy body stops at the first `\r?\n##\s` boundary or at the end of input |
| Cards.FindHeader | website/src/lib/cards.ts:20 | the search reports the leftmost position with a header match, and reports none only when no position has one |
| Cards.FirstSome | website/src/lib/cards.ts:20 | leftmost-first search over the positions of the input |
| Cards.FirstSomeLeftmost | website/src/lib/cards.ts:20 | when the first success is at i, the search returns i |
| Cards.Attempts | website/src/lib/cards.ts:17-20 | the attempt at every position is the header matcher at that position |
| Cards.ExtractSection | website/src/lib/cards.ts:15-22 | the result is undefined exactly when no line start is followed by `##`, whitespace that may include line breaks, the header, and then whitespace that contains a `\n`. A result is trimmed |
| Cards.FindLeftmost | website/src/lib/cards.ts:20 | only the leftmost matching header is used |
| Cards.SectionOfFirstHeader | website/src/lib/cards.ts:15-22 | the section of the first header line is the trimmed text from its body start to the next `\n##` plus whitespace, or to the end |
| Cards.BodyEndAt | website/src/lib/cards.ts:17 | a boundary with none before it is where the body ends |
| Cards.LayoutHeader | website/src/lib/cards.ts:17 | in `## H\nbody\n## …` the header line of H ends at the first newline |
| Cards.LayoutEnd | website/src/lib/cards.ts:17 | in that layout a one-line body ends just before `\n##` |
| Cards.SectionBeforeNextHeading | website/src/lib/cards.ts:15-22 | a one-line section followed by another heading yields the trimmed body |
| Cards.SectionOfLayout | website/src/lib/cards.ts:15-22 | the same, for a named document |
| Cards.SectionAtStart | website/src/lib/cards.ts:15-22 | a header line at the start of the document determines the section |
| Cards.EmptySectionAsWritten | website/src/lib/cards.ts:17 | with an empty section before the next heading, the code returns the next heading line itself (see Findings) |
| Cards.ExtractSectionFixed | website/src/lib/cards.ts:15-22 | the corrected parser, whose blanks after the header stay on the header line; any result is trimmed |
| Cards.FixedBodyStart | website/src/lib/cards.ts:17 | the corrected header match ends with its own line's newline |
| Cards.FixedSectionOfLayout | xml_to_markdown.py:216-223 | with the corrected parser, the converter's layout `## H\nbody\n\n## …` yields the trimmed body, including an empty body |
| XmlToMarkdown.TagEnd | xml_to_markdown.py:19 | `<[^>]+>` at the start matches up to the first `>`, and needs at least one other character inside |
| XmlToMarkdown.StripTags | xml_to_markdown.py:19 | removing tags never lengthens the text and leaves text without `>` unchanged |
| XmlToMarkdown.StripTagsTagFree | xml_to_markdown.py:19 | the single pass leaves no `<…>` span with a non-`>` inside |
| XmlToMarkdown.StripTagFree | xml_to_markdown.py:19 | text with no tag is unchanged |
| XmlToMarkdown.StripLeadingTag | xml_to_markdown.py:19 | a leading tag is removed and the rest is processed on |
| XmlToMarkdown.StripTagsSplice | xml_to_markdown.py:19 | a tag after tag-free text is cut out, keeping the text before it |
| XmlToMarkdown.Collapse | xml_to_markdown.py:22 | no two adjacent whitespace characters remain, every whitespace character left is the separator, the result is never longer, and it is empty exactly when the input is |
| XmlToMarkdown.CollapseWord | xml_to_markdown.py:22 | a stretch without whitespace passes through the collapse unchanged |
| XmlToMarkdown.CollapseRun | xml_to_markdown.py:22 | a whitespace run of any length, followed by a non-whitespace character or the end, becomes exactly one separator |
| XmlToMarkdown.CollapseAppend | xml_to_markdown.py:22 | a piece that does not end in whitespace collapses independently of what follows it |
| XmlToMarkdown.CollapseSplice | xml_to_markdown.py:22 | a whitespace run spliced between a piece not ending and a piece not starting in whitespace becomes exactly one separator between the two pieces' own collapses |
| XmlToMarkdown.CollapseKeepsWords | xml_to_markdown.py:22 | every character that is neither whitespace nor the separator survives the collapse, all of them and in order |
| XmlToMarkdown.TrimKeepsWords | xml_to_markdown.py:23 | stripping keeps every non-whitespace character, in order |
| XmlToMarkdown.CollapseCollapsed | xml_to_markdown.py:22 | collapsing already collapsed text changes nothing |
| XmlToMarkdown.CollapseTagFree | xml_to_markdown.py:19-22 | collapsing keeps text tag-free |
| XmlToMarkdown.TrimCollapsed | xml_to_markdown.py:22-23 | stripping keeps text collapsed |
| XmlToMarkdown.TrimTagFree | xml_to_markdown.py:19-23 | stripping keeps text tag-free |
| XmlToMarkdown.CleanHtmlTags | xml_to_markdown.py:13-25 | empty or missing input gives "". The result is stripped, has no two adjacent whitespace characters and holds no tag |
| XmlToMarkdown.CleanKeepsWords | xml_to_markdown.py:19-23 | after the tags are removed, collapsing and stripping lose no non-space character and keep their order |
| XmlToMarkdown.CleanKeepsCleanText | xml_to_markdown.py:13-25 | text that is already clean is returned unchanged |
| XmlToMarkdown.CleanIdempotent | xml_to_markdown.py:13-25 | cleaning twice is cleaning once |
| XmlToMarkdown.CleanDropsLeadingTag | xml_to_markdown.py:19 | a leading tag before clean text disappears |
| XmlToMarkdown.ReplaceForbidden | xml_to_markdown.py:30 | each of `<>:"/\|?*` becomes `_` and every other character is kept in place |
| XmlToMarkdown.SanitizeFilename | xml_to_markdown.py:27-34 | the result has at most 100 characters, none of `<>:"/\|?*` and no whitespace |
| XmlToMarkdown.SanitizeKeepsWords | xml_to_markdown.py:27-34 | the characters other than whitespace and `_` that survive are a prefix of the name's own, with forbidden ones read as `_`, and all of them when the name has at most 100 characters |
| XmlToMarkdown.SanitizeJoinsWords | xml_to_markdown.py:27-34 | two safe words around a whitespace run of any length come out joined by exactly one `_` |
| XmlToMarkdown.SanitizeIdempotent | xml_to_markdown.py:27-34 | sanitising a sanitised name changes nothing |
| XmlToMarkdown.SanitizeKeepsSafeNames | xml_to_markdown.py:27-34 | a short name without forbidden characters or whitespace is kept |
| XmlToMarkdown.Digits | xml_to_markdown.py:211 | decimal digits of n, at least one |
| XmlToMarkdown.DigitsValue | xml_to_markdown.py:211 | reading the digits back gives n |
| XmlToMarkdown.Pad3 | xml_to_markdown.py:211 | `{i:03d}` has at least three digits and reads back as i |
| XmlToMarkdown.CardStem | xml_to_markdown.py:208-213 | the stem is at most 50 characters (sanitising the first 50 characters never lengthens them) and, for a non-empty front, holds no forbidden character or whitespace |
| XmlToMarkdown.CardFilename | xml_to_markdown.py:208-213 | the name is the padded index, `_`, a stem and `.md` |
| XmlToMarkdown.CardFilenameFront | xml_to_markdown.py:208-213 | the part between the index's `_` and `.md` is the sanitised first 50 characters of the front, or `card` |
| XmlToMarkdown.CardFilenameIndex | xml_to_markdown.py:211-213 | the leading digits of a card's file name read back as its index |
| XmlToMarkdown.CardFilenamesDistinct | xml_to_markdown.py:203-213 | cards with different indexes get different file names, whatever their fronts |
| XmlToMarkdown.LeadingDigits | xml_to_markdown.py:211 | the longest digit prefix of a name |
| Text.TrimStart | website/src/lib/cards.ts:21 | drops exactly the leading whitespace |
| Text.TrimEnd | website/src/lib/cards.ts:21 | drops exactly the trailing whitespace |
| Text.Trim | website/src/lib/cards.ts:21 | the result is trimmed and no longer than the input |
| Text.TrimOffset | website/src/lib/cards.ts:21 | the trimmed text is a slice of the input with only whitespace outside it |
| Text.TrimTrimmed | xml_to_markdown.py:23 | trimming trimmed text changes nothing |
| Text.TrimSpaceSuffix | website/src/lib/cards.ts:21 | a trailing whitespace character does not change the trim |
| Seqs.SortBy | website/src/algorithms/default.ts:71 | sorting permutes its input |
| Seqs.SortBySorted | website/src/algorithms/default.ts:71 | the sorted list is ascending by the key |
| Seqs.SortByStable | website/src/algorithms/default.ts:71 | elements with equal keys keep their relative order |
| Seqs.FilterSortBy | website/src/algorithms/default.ts:71-74 | filtering a stable sort is sorting the filtered list |
| Seqs.FilterPartition | website/src/algorithms/default.ts:69-70 | filters by a predicate and its negation together are a permutation of the input |
| Seqs.FilterMembers | website/src/algorithms/default.ts:69-74 | an element survives a filter iff it is in the input and satisfies the predicate |
| Seqs.Take | website/src/algorithms/default.ts:76-84 | take(n) is a prefix of length min(max(n, 0), length) |

## Left out

- Floating-point ease. Ease is held in integer hundredths, and `Math.ceil` of
  `interval × 1.2` or `interval × ease` is an exact rational ceiling. A double
  product that rounds across an integer could differ from the exact value.
- Integer precision of JavaScript numbers. Times, intervals and due dates are
  unbounded integers. In the code they are doubles, exact only up to 2^53.
  Starting from a fresh card, 17 consecutive `easy` answers push
  `ts + interval × 86 400 000` past that bound. Beyond it, `byDue` can see two
  different due times as equal, so upcoming cards may come out in a different
  order than the model gives.
- `readHistory`, `appendHistory`, `uploadImage`, `deleteImage`, the Supabase
  client, authentication, API routes and React pages. These are I/O or UI.
  The clock (`ctx.now`) is a parameter.
- `walk`, `listCardFiles`, `parseCardFromFile` and the `CARDS_DIR` choice in
  website/src/lib/cards.ts. These are filesystem code. website/src/lib/history.ts
  only re-exports and is not part of this model.
- The rest of xml_to_markdown.py: XML parsing, blob moves, globbing and file
  writes. Only the file name rule and the markdown layout it writes (lines
  216-223) are modelled.
- The Scheduler's optional `onReview` hook. No scheduler defines one.
- `durationMs` is carried in `ReviewLog` but nothing reads it.
- `count` is an integer. A NaN count from a caller cannot be expressed.
- Replacement strings are inserted verbatim. JavaScript's `$&`, `$1` and `$$`
  in a url would be expanded by `String.replace`, so urls are assumed free of
  `$`.
- The registry is a sequence of entries in insertion order.
  `Object.entries` lists integer-like keys first. That ordering is not
  modelled.
- Card ids that name built-in properties of a plain object, such as
  `constructor`, `hasOwnProperty` or `__proto__`, are treated as ordinary ids.
  The code behaves differently for them in three places. These are the
  registry object (website/src/algorithms/index.ts:4-6) and the `byId` and
  `aggregates` objects of `pickNext`
  (website/src/algorithms/default.ts:57-66). They are also the map of
  `buildAggregates` (website/src/lib/db/history.ts:57-69). There, `||=`
  finds the inherited value, so `pickNext` can throw a `TypeError` and
  `buildAggregates` drops the card and writes its counts onto a shared
  built-in object.
- Characters are Dafny `char`s. JavaScript strings are UTF-16 code units, and
  Python's `\s` and `strip` follow Unicode. The model uses the JavaScript
  whitespace set and the `str.isspace` set over single characters.
- `clean_html_tags` of a falsy non-string (`None`, `0`, `[]`) is modelled as
  the missing input `None`.
- Cards.ExtractSection: requires a literal header that:
  - is non-empty;
  - does not begin with whitespace;
  - contains no regex metacharacter.

  Both callers pass `Front` and `Back`. A header with metacharacters is
  interpolated into the regex unescaped, so it would be a different pattern.
- Cards.SectionBeforeNextHeading: covers one-line bodies only. A multi-line
  body with blank lines and display math, as in the fixture of
  website/scripts/test_extract_section.js:21-66, is covered only by the general
  `SectionOfFirstHeader`, not by a lemma about the fixture text.
- Storage.ExtractImageReferences: states the form of each reference, and the
  left-to-right order through `FirstLinkFirst` and `ScanSkips`, but not one
  closed formula for the whole list.

## Findings

| source | as written | input that shows it | evidently intended | confidence | as-written member | corrected member |
|---|---|---|---|---|---|---|
| website/src/lib/cards.ts:17 | the `\s*` after the header also matches line breaks. Before an empty section it runs on to the last newline before the next heading, so the lazy body starts at that heading | `"## Front\n\n\n## Back"` with header `Front`, which is the layout xml_to_markdown.py:216-223 writes for a card with an empty front, gives `"## Back"` | an empty section gives `""` | not executed | Cards.EmptySectionAsWritten | Cards.FixedSectionOfLayout (with Cards.ExtractSectionFixed) |
