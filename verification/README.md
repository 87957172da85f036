# 100 web apps: a verified model of four mini-apps

This project models the sequential logic of four browser mini-apps in Dafny and proves
properties about that model. Nothing in it reads the DOM, storage, the clock or the network.
Each of those becomes a parameter or is left out.

- **Spreadsheet** (`apps/day04-sheets/app.js`). A session holds the workbook, the pointer
  state and the undo snapshots. The model covers:
  - cell addresses (`colName`, `parseCell`);
  - commits from a cell and from the formula bar (`commitEdit`, `updateFormula`);
  - reference substitution in `evaluateExpr`, with the evaluator as an abstract partial
    function whose failure gives `#ERR`;
  - the mousedown selection handler and the focus handler;
  - the bounding rectangle of a table insert and the edge test of the border action;
  - the three style actions (`toggleStyle`, `cycleAlign`, `applyFill`);
  - column filters: the dialog's values, the checkbox handler, Clear, and the row test;
  - the CSV export;
  - the 20-entry undo history;
  - the sheet list;
  - the grid-size inputs;
  - the size clamps of the drag and auto-fit handlers.
- **Notes** (`apps/day03-notes/app.js`):
  - per-note undo and redo stacks with a 60-snapshot cap;
  - create, delete and select;
  - block insert, delete and drag reorder;
  - the slash commands and the block menu;
  - the import merge by id with its newest-first sort;
  - `timeAgo`.
- **Audio playlist** (`apps/day02-audio-equalizer/app.js`):
  - the depth-first `.mp3` link search over a JSON tree;
  - `decodeEntities` and `escapeHtml`;
  - the YouTube URL guard;
  - `removeTrack`;
  - the `.eqpl` export mapping and the import merge.
- **Text case** (`apps/day01-textcase/app.js`):
  - `toSnake`, `toKebab`, and the `upper` and `lower` actions;
  - the failing `toTitleCase`, `toSentenceCase` and `toCamel`, modelled with an explicit
    thrown outcome.

Line 3 of that file calls `doccument.getElementById`, which throws on load, so no button is
ever wired. The transforms are modelled as the functions they are.

Layout, one module per file:
- `common.dfy` (`Common`): options, ASCII character classes, decimal text, trim.
- `seqs.dfy` (`Seqs`): filter, subsequences, splice, distinctness.
- `textcase.dfy` (`TextCase`).
- `playlist_json.dfy` (`Mp3Search`), `entities.dfy` (`Entities`), `playlist.dfy` (`Playlist`).
- `notes_blocks.dfy` (`NoteBlocks`), `notes.dfy` (`Notes`).
- Spreadsheet:
  - `sheet_address.dfy`, `sheet_model.dfy`, `sheet_formula.dfy`;
  - `js_number.dfy` (the NaN behaviour of `Math.min`/`Math.max`);
  - `sheet_selection.dfy`, `sheet_region.dfy`, `sheet_style.dfy`, `sheet_filter.dfy`;
  - `sheet_csv.dfy`, `sheet_session.dfy`, `sheet_layout.dfy`.

Three facts about the spreadsheet code shape the model:
- A formula's value is computed once, at commit; nothing is recalculated later.
- An undo snapshot is the whole workbook, taken after the edit.
- Shrinking the grid keeps every cell.

`parseCell` returns the column as its letter string. Three callers use it as a number:
- the shift rectangle of the mousedown handler;
- the table bounds;
- the border edge test (`getMinCol` and the others).

There `Math.min`/`Math.max` give NaN. `SheetSelection.Mousedown`, `SheetRegion.InsertTable` and
`SheetRegion.FullBorderAsWritten` follow the letter as written. `SheetSelection.MousedownIntended`,
`SheetRegion.InsertTableIntended` and `SheetRegion.FullBorder` decode it with the inverse of
`colName`, as evidently intended; "## Findings" relates each pair.

Strings are sequences of Unicode code points. The pattern of `toCamel` has no `u` flag and runs
over UTF-16 code units, where a character from U+10000 on is a surrogate pair; that function is
modelled over code units (`TextCase.Utf16`). The other patterns match the same text either way.

## Model

| member | source | states |
|---|---|---|
| Common.Lower | apps/day01-textcase/app.js:19 | toLowerCase maps every ASCII capital to its small letter and leaves every other character alone, keeping the length |
| Common.Upper | apps/day01-textcase/app.js:29 | toUpperCase maps every small ASCII letter to its capital and leaves every other character alone, keeping the length |
| Common.Trim | apps/day03-notes/app.js:371-372 | trim gives a slice with no white space at either end, surrounded in the input only by white space |
| Common.DigitsRoundTrip | apps/day04-sheets/app.js:22 | a digit string with no leading zero is the decimal text of the number parseInt reads from it |
| Common.IntToString | apps/day04-sheets/app.js:505 | the text of an integer is its decimal digits, with a minus sign exactly when it is negative |
| Seqs.Filter | apps/day03-notes/app.js:322 | filter keeps exactly the elements that pass, each taken from the input, never more elements than the input |
| Seqs.FilterCounts | apps/day03-notes/app.js:322 | filtering keeps each element that passes exactly as often as it occurs in the input, and no element that fails |
| Seqs.FilterIsSubseq | apps/day03-notes/app.js:322 | the filtered list is a subsequence of the input, so its elements keep their order |
| Seqs.FilterSnoc | apps/day02-audio-equalizer/app.js:430-437 | filtering one more element of a prefix appends it exactly when it passes |
| Seqs.Splice | apps/day03-notes/app.js:375 | the result's length is the input's, less the elements removed from the clamped start (at most deleteCount), plus the inserted items |
| TextCase.CollapseSpaces | apps/day01-textcase/app.js:20 | replacing each whitespace run by a non-space separator leaves no whitespace, never lengthens the text, and adds only the separator |
| TextCase.CollapseKeepsText | apps/day01-textcase/app.js:20 | the collapse keeps every character that is neither whitespace nor the separator, in order, and adds none |
| TextCase.CollapseWithoutSpaces | apps/day01-textcase/app.js:20 | text without whitespace passes through the collapse unchanged |
| TextCase.CollapseScan | apps/day01-textcase/app.js:20 | the left-to-right scan of the global pattern computes exactly the recursive collapse |
| TextCase.DropSpacesRun | apps/day01-textcase/app.js:20 | a whitespace run ahead of a non-space is dropped whole |
| TextCase.CollapseRun | apps/day01-textcase/app.js:20 | a whitespace run between a space-free prefix and a non-space is replaced by exactly one separator, and the collapse goes on after it |
| TextCase.LowerRunParts | apps/day01-textcase/app.js:19 | lower-casing works piece by piece and keeps white space white space |
| TextCase.ToSnake | apps/day01-textcase/app.js:17-21 | toSnake output has no whitespace, is no longer than its input, holds only `_` and characters of the lower-cased input, and keeps every lower-cased character other than whitespace and `_` in order |
| TextCase.ToKebab | apps/day01-textcase/app.js:22-26 | toKebab output has no whitespace, is no longer than its input, holds only `-` and characters of the lower-cased input, and keeps every lower-cased character other than whitespace and `-` in order |
| TextCase.SnakeRun | apps/day01-textcase/app.js:17-21 | in toSnake a whitespace run after a space-free prefix becomes one `_`, the prefix is lower-cased and the rest goes on the same way |
| TextCase.KebabRun | apps/day01-textcase/app.js:22-26 | in toKebab a whitespace run after a space-free prefix becomes one `-`, the prefix is lower-cased and the rest goes on the same way |
| TextCase.CaseWithoutSpaces | apps/day01-textcase/app.js:17-26 | text without whitespace comes out of toSnake and toKebab just lower-cased |
| TextCase.LowerWithoutUpper | apps/day01-textcase/app.js:19 | text with no capital letter is its own lower case |
| TextCase.SnakeIdempotent | apps/day01-textcase/app.js:17-21 | toSnake applied to its own output changes nothing |
| TextCase.KebabIdempotent | apps/day01-textcase/app.js:22-26 | toKebab applied to its own output changes nothing |
| TextCase.UpperAction | apps/day01-textcase/app.js:29 | the upper action succeeds, keeps the length and leaves no small letter |
| TextCase.UpperKeepsLetters | apps/day01-textcase/app.js:29 | upper-casing loses only case: lower-casing its result equals lower-casing the input |
| TextCase.LowerActionAsWritten | apps/day01-textcase/app.js:30 | the lower action returns the method itself, so whatever the input, the output box shows the method's source text |
| TextCase.LowerActionIntended | apps/day01-textcase/app.js:30 | the intended lower action keeps the length, leaves no capital, and keeps every character that is not a capital |
| TextCase.LowerActionDiverges | apps/day01-textcase/app.js:30 | on "A" the lower action as written differs from the intended one, which gives "a" |
| TextCase.WordStartAtOrBefore | apps/day01-textcase/app.js:6 | every word character has a `\b\w` match at or before it |
| TextCase.TitleCaseFailsIffWordChar | apps/day01-textcase/app.js:5-8 | toTitleCase throws exactly when the input holds a word character, and otherwise returns the lower-cased input |
| TextCase.ToTitleCase | apps/day01-textcase/app.js:5-8 | toTitleCase either returns the lower-cased input or throws the TypeError of the misspelt callback; TextCase.TitleCaseFailsIffWordChar says which |
| TextCase.ToCamel | apps/day01-textcase/app.js:12-16 | toCamel either returns the lower-cased input or throws the TypeError of the misspelt callback; TextCase.CamelFailsIff says which |
| TextCase.TitleCaseIntended | apps/day01-textcase/app.js:5-8 | the intended title case keeps the length |
| TextCase.TitleCaseIntendedProperties | apps/day01-textcase/app.js:5-8 | the intended title case changes only case, is idempotent, and leaves no small letter where a word starts |
| TextCase.TitleCaseDiverges | apps/day01-textcase/app.js:6 | "ab" throws as written but gives "Ab" as intended |
| TextCase.ToSentenceCase | apps/day01-textcase/app.js:9-11 | toSentenceCase throws on every input, the empty one included |
| TextCase.SentenceCaseIntended | apps/day01-textcase/app.js:9-11 | the intended sentence case keeps the length and starts with no small letter |
| TextCase.SentenceCaseIntendedProperties | apps/day01-textcase/app.js:9-11 | the intended sentence case changes only case and is idempotent |
| TextCase.SentenceCaseDiverges | apps/day01-textcase/app.js:10 | "ab" throws as written but gives "Ab" as intended |
| TextCase.CamelFailsIff | apps/day01-textcase/app.js:12-16 | toCamel throws exactly when the text holds a character from U+10000 on or a non-alphanumeric character followed by one that is not a line terminator, and otherwise returns the lower-cased input |
| TextCase.CodeUnits | apps/day01-textcase/app.js:15 | a character below U+10000 is one code unit, a later one a high then a low surrogate |
| TextCase.Utf16 | apps/day01-textcase/app.js:15 | a string has at least one code unit per character |
| TextCase.MatchIffPair | apps/day01-textcase/app.js:15 | the pattern `[^a-zA-Z0-9]+(.)` matches somewhere exactly when a non-alphanumeric unit is followed by a unit other than a line terminator |
| TextCase.PairInUtf16 | apps/day01-textcase/app.js:15 | such a pair of units occurs exactly when the text has a character from U+10000 on or a non-alphanumeric character followed by one that is not a line terminator |
| TextCase.TriggerIffExists | apps/day01-textcase/app.js:15 | that condition, stated recursively, holds exactly when some position shows it |
| TextCase.CamelThrowsOnEmoji | apps/day01-textcase/app.js:15 | a lone emoji makes toCamel throw |
| Mp3Search.LazyBodyEnd | apps/day02-audio-equalizer/app.js:257 | the lazy body of the link pattern stops at the first `.mp3` (any case), and every character before it is in the body class |
| Mp3Search.QueryEnd | apps/day02-audio-equalizer/app.js:257 | the optional query part runs over query-class characters only, within the text |
| Mp3Search.MatchAt | apps/day02-audio-equalizer/app.js:257 | a match starts with `http` (any case) and holds `.mp3` after the scheme and a host character |
| Mp3Search.FindFrom | apps/day02-audio-equalizer/app.js:257-258 | a link found in a string is a substring of it that starts with `http` and holds `.mp3` after the scheme |
| Mp3Search.FindMp3 | apps/day02-audio-equalizer/app.js:254-272 | the search gives null for null, booleans and numbers |
| Mp3Search.ArrayFirstChildWins | apps/day02-audio-equalizer/app.js:260-264 | an array's search returns the result of its first child whose search succeeds, and null exactly when none does |
| Mp3Search.ObjectFirstMemberWins | apps/day02-audio-equalizer/app.js:265-269 | an object's search returns the result of its first member, in key order, whose search succeeds, and null exactly when none does |
| Mp3Search.FindMp3IsFirstLeafLink | apps/day02-audio-equalizer/app.js:254-272 | the depth-first search finds exactly the first link among the tree's string leaves, read left to right |
| Mp3Search.ItemsFirstLeafLink | apps/day02-audio-equalizer/app.js:260-264 | over an array's children, the search is the first link among their leaves |
| Mp3Search.MembersFirstLeafLink | apps/day02-audio-equalizer/app.js:265-269 | over an object's members, the search is the first link among their leaves |
| Mp3Search.FoundLinkIsInALeaf | apps/day02-audio-equalizer/app.js:256-258 | a link the search returns is a substring of one of the tree's string leaves |
| Entities.ReplaceAll | apps/day02-audio-equalizer/app.js:194 | a global replacement with a text no longer than the pattern never lengthens the input |
| Entities.ReplaceAllMissingHead | apps/day02-audio-equalizer/app.js:194 | text that never contains the pattern's first character is left alone |
| Entities.DecodeEntities | apps/day02-audio-equalizer/app.js:194 | decoding never lengthens the text |
| Entities.DecodeWithoutAmpersand | apps/day02-audio-equalizer/app.js:194 | text without an ampersand is returned unchanged |
| Entities.DoubleDecoding | apps/day02-audio-equalizer/app.js:194 | because `&amp;` is decoded first, "&amp;lt;" comes out as "<" |
| Entities.EscapeChar | apps/day02-audio-equalizer/app.js:449 | a character other than `&`, `<`, `>` escapes to itself |
| Entities.EscapeHtml | apps/day02-audio-equalizer/app.js:449 | escaped text is no shorter than its input and holds no `<` or `>` |
| Entities.ReplaceCharIsSubChar | apps/day02-audio-equalizer/app.js:449 | replaceAll of a one-character pattern is a character-by-character substitution |
| Entities.EscapeHtmlPasses | apps/day02-audio-equalizer/app.js:449 | with `&` escaped first, the three replaceAll passes amount to escaping each character once |
| Entities.EscapeInPasses | apps/day02-audio-equalizer/app.js:449 | the three single-character passes compose to the per-character escape |
| Entities.EntityAt | apps/day02-audio-equalizer/app.js:194 | a recognised entity is one of the five and is a prefix of the text |
| Entities.DecodeOnce | apps/day02-audio-equalizer/app.js:194 | the single-pass decoder never lengthens the text |
| Entities.DecodeOnceEscapeRoundTrip | apps/day02-audio-equalizer/app.js:194 | the single-pass decoder inverts escapeHtml for every text |
| Entities.DecodeEntitiesEscapeMismatch | apps/day02-audio-equalizer/app.js:194 | "&lt;" escapes to "&amp;lt;", which the written decoder turns into "<" and the single-pass one back into "&lt;" |
| Entities.ReplaceAllSkip | apps/day02-audio-equalizer/app.js:194 | where no occurrence starts, the first character is kept and the scan moves on one character |
| Entities.ReplaceAllShort | apps/day02-audio-equalizer/app.js:194 | text shorter than the pattern is left alone |
| Entities.ReplaceAllOneChar | apps/day02-audio-equalizer/app.js:194 | a character that cannot start the pattern is kept in front of the replaced rest |
| Entities.ReplaceAllPlain | apps/day02-audio-equalizer/app.js:194 | text none of whose characters can start the pattern is kept in front of the replaced rest |
| Entities.ReplaceAllSecondDiffers | apps/day02-audio-equalizer/app.js:194 | a character followed by one that cannot continue the pattern is kept |
| Entities.ReplaceAllOtherEntity | apps/day02-audio-equalizer/app.js:194 | an entity other than the pattern, sharing only its leading `&`, is kept whole |
| Entities.ReplaceAllFront | apps/day02-audio-equalizer/app.js:194 | an occurrence at the front is replaced and the scan resumes after it |
| Entities.DecodePlainChar | apps/day02-audio-equalizer/app.js:194 | a character other than `&` passes through all five passes in front of the decoded rest |
| Entities.DecodeLt | apps/day02-audio-equalizer/app.js:194 | `&lt;` in front of more text decodes to `<` in front of the decoded rest |
| Entities.DecodeAfterLt | apps/day02-audio-equalizer/app.js:194 | the last three passes keep a leading `<` |
| Entities.DecodeGt | apps/day02-audio-equalizer/app.js:194 | `&gt;` in front of more text decodes to `>` in front of the decoded rest |
| Entities.DecodeEntitiesEscapeWithoutAmpersand | apps/day02-audio-equalizer/app.js:194 | on text without `&`, decodeEntities as written turns the escaped text back into the text itself |
| Entities.DecodeOnceEscapedChar | apps/day02-audio-equalizer/app.js:194 | the single-pass decoder turns one escaped character back into the character, in front of the decoded rest |
| Playlist.AfterSchemeIffPrefix | apps/day02-audio-equalizer/app.js:309 | after the scheme, the host part of the guard matches exactly when one of the four host prefixes follows |
| Playlist.GuardHasPrefix | apps/day02-audio-equalizer/app.js:309 | a URL the guard accepts starts with one of the eight accepted prefixes |
| Playlist.PrefixPassesGuard | apps/day02-audio-equalizer/app.js:309 | a URL starting with one of the eight prefixes passes the guard |
| Playlist.YouTubeGuardIffPrefix | apps/day02-audio-equalizer/app.js:309 | the guard accepts a URL exactly when it starts with one of the eight prefixes |
| Playlist.AddYouTubeMetadata | apps/day02-audio-equalizer/app.js:308-318 | a valid URL puts one metadata-only youtube entry in front of the unchanged playlist; any other text leaves the playlist as it was |
| Playlist.RemoveTrack | apps/day02-audio-equalizer/app.js:369-371 | no track with the id survives, every other track survives exactly as often as it occurred, and the survivors keep their order |
| Playlist.OrNull | apps/day02-audio-equalizer/app.js:412 | `x \|\| null` turns an empty text into null and keeps anything else |
| Playlist.ExportTracks | apps/day02-audio-equalizer/app.js:409-412 | export is refused exactly for an empty playlist; otherwise each track is exported in order with its id, type, title and date, and its filename, url and fetchedFrom are `x || null` of the track's, so never empty text |
| Playlist.ImportEqpl | apps/day02-audio-equalizer/app.js:423-437 | import is rejected exactly without the day02-eqpl format tag; otherwise the merge of the tracks (none when they are not an array) is the result, and `added` counts the appended tracks |
| Playlist.Merge | apps/day02-audio-equalizer/app.js:430-437 | the merge keeps the playlist at the front and appends the incoming tracks whose id was absent before, in file order and each exactly as often as the file lists it, and no other track |
| Playlist.MergeKeepsPlaylist | apps/day02-audio-equalizer/app.js:430-437 | the tracks already present come through untouched at the front, and every appended track is incoming with an id absent before |
| Playlist.ImportExportIntoEmpty | apps/day02-audio-equalizer/app.js:412-437 | importing a playlist's export into an empty playlist yields the exported records |
| Playlist.ReimportAddsNothing | apps/day02-audio-equalizer/app.js:412-437 | re-importing a playlist's own export adds nothing |
| NoteBlocks.FindIndex | apps/day03-notes/app.js:347-348 | findIndex gives the first block with the id, or -1 exactly when there is none |
| NoteBlocks.InsertBelow | apps/day03-notes/app.js:303-305 | the new block lands right after the index, and the blocks before and after it keep their order |
| NoteBlocks.DeleteBlock | apps/day03-notes/app.js:322 | delete removes every block with the id, keeps every other one exactly as often as it occurred, and preserves their order |
| NoteBlocks.DeleteUndoesInsert | apps/day03-notes/app.js:303-323 | deleting a freshly inserted block gives back the list it was inserted into |
| NoteBlocks.MoveIndex | apps/day03-notes/app.js:350-351 | the moved block lands at the target index, and taking it out again leaves the list with the source taken out |
| NoteBlocks.MoveIndexPermutes | apps/day03-notes/app.js:350-351 | a move only reorders the blocks |
| NoteBlocks.MoveBack | apps/day03-notes/app.js:350-351 | moving a block back to its old index restores the list |
| NoteBlocks.Move | apps/day03-notes/app.js:345-351 | a drop permutes the blocks; it does nothing with no dragged id, a drop on itself, or a missing id; otherwise the dragged block takes the target's old index |
| NoteBlocks.UpdateBlock | apps/day03-notes/app.js:373-374 | only the first block with the id changes; a missing id changes nothing |
| NoteBlocks.SlashCommand | apps/day03-notes/app.js:371-377 | the space key changes something only when the trimmed text names a command; NoteBlocks.SlashCommandKinds states the kind each command leaves |
| NoteBlocks.ReplaceWithDivider | apps/day03-notes/app.js:375 | on a present block, the divider takes its place and every other block stays; with no such block the divider replaces the last block, or is the only block of an empty list |
| NoteBlocks.InsertImage | apps/day03-notes/app.js:376 | the image block lands right after the found index (first when none is found), and the blocks before and after it keep their order |
| NoteBlocks.SlashCommandKinds | apps/day03-notes/app.js:371-377 | a slash command acts exactly when the trimmed text names one (and an image has a non-empty URL); the block in its place, or the one after it for an image, then has the named kind, and apart from a divider its text is emptied; a to-do starts unticked; an image is inserted with the blocks around it in place, and every other command leaves every other block as it was |
| NoteBlocks.MenuChange | apps/day03-notes/app.js:397-412 | the menu gives a present block the chosen kind and leaves every other block alone; a code block keeps its text (empty when it had none), the other kinds keep their content; a divider takes the block's place, or the last block's when it is gone; an image with a URL is inserted after the block (first when it is gone) and one without changes nothing; other kinds on a missing block change nothing |
| NoteBlocks.SlashDivider | apps/day03-notes/app.js:371-377 | `/hr` replaces the block with a divider |
| NoteBlocks.SlashImage | apps/day03-notes/app.js:371-377 | `/img` with a URL inserts the image block after the block |
| NoteBlocks.SlashCode | apps/day03-notes/app.js:371-377 | `/code` makes the block an empty code block |
| NoteBlocks.SlashHeading | apps/day03-notes/app.js:371-377 | `/h` makes the block an empty heading |
| NoteBlocks.MenuDividerMatchesSlash | apps/day03-notes/app.js:375-401 | the menu's divider does exactly what `/hr` does |
| NoteBlocks.MenuImageMatchesSlash | apps/day03-notes/app.js:376-406 | with a URL, the menu's image does exactly what `/img` does |
| NoteBlocks.MenuCodeMatchesSlashOnEmpty | apps/day03-notes/app.js:371-409 | on a block without text, the menu's code does exactly what `/code` does |
| NoteBlocks.MenuHeadingMatchesSlashOnEmpty | apps/day03-notes/app.js:371-410 | on a block without text, the menu's heading does exactly what `/h` does |
| Notes.NoteIndex | apps/day03-notes/app.js:70 | find gives the first note with the id, or -1 exactly when there is none |
| Notes.PushHistory | apps/day03-notes/app.js:55-65 | pushHistory appends the snapshot, keeps at most 60 by dropping the oldest, empties redo, and leaves other notes' stacks alone |
| Notes.ApplySnapshot | apps/day03-notes/app.js:93-99 | applying a snapshot sets the title and blocks to it, stamps the time, and keeps id and creation date |
| Notes.Undo | apps/day03-notes/app.js:66-78 | undo is a no-op without a selected note or undo snapshot; otherwise the undo stack loses exactly its top, the current state goes onto redo, the popped snapshot is applied to that note only, and every other note's stacks stay |
| Notes.Redo | apps/day03-notes/app.js:79-92 | redo mirrors undo: the redo stack loses exactly its top and the current state goes onto undo, other stacks stay; with a redo snapshot but no note, the pop happens and then the lookup throws, leaving only the popped stack changed |
| Notes.RedoAfterUndo | apps/day03-notes/app.js:66-92 | redo right after undo restores the note's title, blocks and both stacks; only the modification time differs |
| Notes.UndoAfterRedo | apps/day03-notes/app.js:66-92 | undo right after redo likewise restores everything but the modification time |
| Notes.RedoStep | apps/day03-notes/app.js:79-92 | a redo that acts applies the top redo snapshot to the selected note, stamped now, and moves the note's current snapshot onto the undo stack |
| Notes.UndoStep | apps/day03-notes/app.js:66-78 | an undo that acts applies the top undo snapshot to the selected note, stamped now, and moves the note's current snapshot onto the redo stack |
| Notes.CommitBlocks | apps/day03-notes/app.js:322-323 | a block edit gives the note its new blocks, keeps its title and the other notes, and pushes a snapshot of the edited note |
| Notes.UndoAfterEditShowsEdit | apps/day03-notes/app.js:55-78 | because the snapshot is taken after the edit, the first undo after an edit gives back the edited title and blocks |
| Notes.CommitBlocksSnapshotFirst | apps/day03-notes/app.js:55-65 | the snapshot-first edit leaves the editor alone for a missing note and keeps the selection |
| Notes.UndoRevertsEdit | apps/day03-notes/app.js:66-78 | with the snapshot taken first, undo right after an edit restores the note's previous title and blocks |
| Notes.CreateNote | apps/day03-notes/app.js:165-172 | a new Untitled note with one empty paragraph goes first, its initial snapshot is recorded, it is selected, and other histories are kept |
| Notes.DeleteNote | apps/day03-notes/app.js:173-182 | after confirmation every note with the id and its history go, every other note stays exactly as often as it occurred and in order, every other history is kept, and a deleted selection moves to the first note or none |
| Notes.SelectNote | apps/day03-notes/app.js:183-194 | the selection becomes the id exactly when a note has it and is cleared otherwise; notes and histories stay as they were |
| Notes.IncomingOf | apps/day03-notes/app.js:501-503 | a payload is rejected exactly when it is falsy or an object with neither `note` nor an array `notes` |
| Notes.Complete | apps/day03-notes/app.js:506-508 | an incoming note keeps its id, or gets a fresh one when it has none, keeps its title and blocks, and keeps each time stamp it has or gets the import time for a missing one |
| Notes.Upsert | apps/day03-notes/app.js:509 | Map.set keeps every other note, adds the id, and keeps ids distinct |
| Notes.UpsertAll | apps/day03-notes/app.js:504-511 | the merge holds exactly the old and incoming ids, each note from one side, ids distinct |
| Notes.LastIncomingWins | apps/day03-notes/app.js:505-511 | an incoming note no later incoming note shares an id with ends up in the merge |
| Notes.KeptThroughUpserts | apps/day03-notes/app.js:504-511 | an existing note no incoming note shares an id with survives the merge |
| Notes.InsertByDate | apps/day03-notes/app.js:512 | inserting into the sorted list adds exactly the note |
| Notes.InsertByDateSorted | apps/day03-notes/app.js:512 | inserting keeps the list newest first |
| Notes.SortByDate | apps/day03-notes/app.js:512 | the sort is a permutation that puts the most recently updated note first |
| Notes.InsertByDateStable | apps/day03-notes/app.js:512 | inserting a note puts it after every note with the same time stamp and keeps those in their order |
| Notes.SortByDateStable | apps/day03-notes/app.js:512 | the sort is stable: notes with equal time stamps keep their input order |
| Notes.StampedOne | apps/day03-notes/app.js:512 | a single note is among the notes stamped `t` exactly when its time stamp is `t` |
| Notes.StampedConcat | apps/day03-notes/app.js:512 | the notes stamped `t` of two lists joined are those of each, in order |
| Notes.Completed | apps/day03-notes/app.js:505-508 | each incoming note is completed in order |
| Notes.PushAll | apps/day03-notes/app.js:504-511 | pushing a snapshot per incoming note adds their ids to the history, keeps the stacks of every id not incoming, and keeps the 60 cap |
| Notes.PushAllTops | apps/day03-notes/app.js:504-511 | every incoming id ends with an empty redo stack and a snapshot of the last incoming note with that id on top of its undo stack |
| Notes.ImportNotes | apps/day03-notes/app.js:497-515 | import is rejected exactly without notes; otherwise the notes hold the old and incoming ids once each, sorted newest first, each from one side, and the history is the old one with a snapshot pushed per completed incoming note, in order |
| Notes.ImportSnapshotsIncoming | apps/day03-notes/app.js:504-511 | after an import each incoming id has the last incoming note with that id on top of its undo stack and an empty redo stack |
| Notes.SortKeepsIds | apps/day03-notes/app.js:512 | sorting keeps the same notes and ids |
| Notes.SortKeepsDistinct | apps/day03-notes/app.js:512 | a permutation of notes with distinct ids has distinct ids |
| Notes.TwiceCounted | apps/day03-notes/app.js:512 | a note found at two positions is counted at least twice |
| Notes.ImportIncomingWins | apps/day03-notes/app.js:504-512 | every incoming note that no later one shares an id with is in the imported notes |
| Notes.TimeAgo | apps/day03-notes/app.js:110 | below a minute the text is the whole seconds and `s`, below an hour the whole minutes and `m`, below a day the whole hours and `h`, and otherwise the whole days and `d`, each rounded down |
| Notes.AgoOf | apps/day03-notes/app.js:110 | the unit is one of s, m, h, d, and a difference that is not negative gives an amount that is not negative; Notes.TimeAgoBuckets gives the thresholds and amounts |
| Notes.TimeAgoBuckets | apps/day03-notes/app.js:110 | the unit is chosen by the one-minute, one-hour and one-day thresholds, and the amount is the difference floor-divided by the unit |
| SheetAddress.ColName | apps/day04-sheets/app.js:18 | colName of a column below 26 is the capital that many letters after A |
| SheetAddress.UpperRun | apps/day04-sheets/app.js:21 | the leading capitals are counted up to the first non-capital |
| SheetAddress.SplitIsUpperRun | apps/day04-sheets/app.js:21 | the pattern can split an id only after all its leading capitals |
| SheetAddress.ParseCell | apps/day04-sheets/app.js:20-23 | parseCell succeeds exactly on ids matching `^[A-Z]+\d+$`, giving the letters and the parseInt of the digits |
| SheetAddress.PatternIsUpperRun | apps/day04-sheets/app.js:21 | an id matches exactly when capitals are followed by a non-empty run of digits and nothing else |
| SheetAddress.ParseCellId | apps/day04-sheets/app.js:18-23 | parseCell reads back the column letter and row of every grid cell's id |
| SheetAddress.ColumnIndex | apps/day04-sheets/app.js:18 | decoding a single capital inverts colName; anything else is refused |
| SheetAddress.Coord | apps/day04-sheets/app.js:20-23 | a decoded column is a grid column |
| SheetAddress.CoordOfCellId | apps/day04-sheets/app.js:18-23 | decoding a cell's id gives back its column and row |
| SheetAddress.CellIdInjective | apps/day04-sheets/app.js:144 | different cells have different ids |
| SheetAddress.CoordInverse | apps/day04-sheets/app.js:20-23 | a decoded id is its cell's own id exactly when its row has no leading zero |
| SheetModel.CreateSheet | apps/day04-sheets/app.js:40-53 | a new sheet has 10 columns, 40 rows, no cells, tables or filters, and sizes in range |
| SheetModel.CreateWorkbook | apps/day04-sheets/app.js:54 | a new workbook has one active sheet called Sheet1 |
| SheetModel.WithActiveData | apps/day04-sheets/app.js:489-496 | writing the active sheet's cells changes no other sheet and keeps the active index |
| SheetFormula.TokenizeJoin | apps/day04-sheets/app.js:503 | the pieces the replacement visits spell the formula |
| SheetFormula.TokenizeLeftmostLongest | apps/day04-sheets/app.js:503 | the pieces are the leftmost, longest `[A-Z]+\d+` tokens and the characters between them |
| SheetFormula.Tokenize | apps/day04-sheets/app.js:503 | the pieces are never more than the characters of the formula; SheetFormula.TokenizeJoin and SheetFormula.TokenizeLeftmostLongest state what they are |
| SheetFormula.JoinFront | apps/day04-sheets/app.js:503 | the text of a list of pieces is the first piece's text followed by the rest's |
| SheetFormula.LeftmostLongestUnique | apps/day04-sheets/app.js:503 | the leftmost-longest cut of a formula is unique |
| SheetFormula.TokenIsCellPattern | apps/day04-sheets/app.js:503 | every token matches the cell pattern of parseCell |
| SheetFormula.RefStartsToken | apps/day04-sheets/app.js:503 | a cell id followed by a non-digit is matched whole |
| SheetFormula.SubstituteReplacesTokens | apps/day04-sheets/app.js:503-506 | substitution replaces exactly the leftmost-longest tokens, each by its cell's text, and keeps every other character |
| SheetFormula.Substitute | apps/day04-sheets/app.js:503-506 | the text handed to the evaluator is the leftmost-longest tokenization of the formula with every reference replaced by its cell's text |
| SheetFormula.TokenizationUnique | apps/day04-sheets/app.js:503 | a formula has one leftmost-longest tokenization, the one Tokenize finds |
| SheetFormula.RenderOwnNames | apps/day04-sheets/app.js:503-506 | when each reference renders as itself, the formula is unchanged, so substitution touches nothing else |
| SheetFormula.SubstituteWithoutCapitals | apps/day04-sheets/app.js:503 | a formula without capitals is evaluated as written |
| SheetFormula.SubstituteOneRef | apps/day04-sheets/app.js:504-505 | a reference becomes its cell's value when present and not null or undefined, and 0 otherwise |
| SheetFormula.Evaluate | apps/day04-sheets/app.js:501-512 | evaluation gives the evaluator's result on the substituted text, or `#ERR` when it fails |
| SheetFormula.CommitData | apps/day04-sheets/app.js:488-496 | empty text deletes the cell; other text replaces the whole record, style dropped, with the formula kept exactly for a formula and the value evaluated against the old cells; other cells do not change |
| SheetFormula.ClearAfterCommit | apps/day04-sheets/app.js:491-492 | committing empty text after any commit leaves the cells as if the cell had never been written |
| SheetFormula.FormulaText | apps/day04-sheets/app.js:477-486 | the bar is empty without focus, and otherwise starts with `=`; a missing cell shows just `=` |
| SheetFormula.FormulaEnterAsWritten | apps/day04-sheets/app.js:706-707 | as written, Enter marks a formula exactly when the text starts with `=`, and always drops the first character |
| SheetFormula.FormulaEnterDropsFirstChar | apps/day04-sheets/app.js:707 | "42" typed over the bar is committed as the text "2" |
| SheetFormula.FormulaEnter | apps/day04-sheets/app.js:707 | as intended, a leading `=` marks a formula and is removed, and other text is committed whole |
| SheetFormula.FormulaEnterAgreesOnShownText | apps/day04-sheets/app.js:707 | on text the bar itself shows, the written and intended Enter agree |
| SheetFormula.FormulaBarRoundTrip | apps/day04-sheets/app.js:477-499 | Enter on an unedited bar makes what the cell showed into the cell's formula |
| JsNumbers.JsMin | apps/day04-sheets/app.js:697 | Math.min is NaN exactly when an argument is, and otherwise the smaller argument |
| JsNumbers.JsMax | apps/day04-sheets/app.js:698 | Math.max is NaN exactly when an argument is, and otherwise the larger argument |
| JsNumbers.JsMinAll | apps/day04-sheets/app.js:635 | Math.min over a list is NaN exactly when some argument is NaN, and otherwise the smallest argument |
| JsNumbers.JsMaxAll | apps/day04-sheets/app.js:636 | Math.max over a list is NaN exactly when some argument is NaN, and otherwise the largest argument |
| SheetSelection.RowCellsSpec | apps/day04-sheets/app.js:725-727 | one row of the rectangle loop visits exactly that row's cells in range, each once |
| SheetSelection.BoxCellsSpec | apps/day04-sheets/app.js:724-727 | the two loops visit exactly the cells of the box, each once |
| SheetSelection.IdsOf | apps/day04-sheets/app.js:726 | each visited cell is named by its id |
| SheetSelection.RectSpec | apps/day04-sheets/app.js:721-727 | the rectangle holds exactly the cells between the two corners, in either order, each once |
| SheetSelection.Mousedown | apps/day04-sheets/app.js:714-741 | as written, a shift click from a parsable anchor leaves the selection empty with its anchor and focuses the cell, and one from an unparsable anchor throws before changing anything; ctrl toggles the id and anchors it; a plain click selects only the id and anchors it; the clicked cell takes the focus |
| SheetSelection.MousedownIntended | apps/day04-sheets/app.js:714-741 | as intended, with the column letters decoded, a shift click selects the rectangle between the anchor and the clicked cell and keeps the anchor |
| SheetSelection.MousedownVersions | apps/day04-sheets/app.js:718-728 | the written and intended handlers agree except on a shift click with an anchor, where the written one empties the selection and the intended one holds the clicked cell |
| SheetSelection.MousedownKeepsDistinct | apps/day04-sheets/app.js:723-736 | in either version the selection never holds an id twice |
| SheetSelection.FilterKeepsDistinct | apps/day04-sheets/app.js:730 | removing ids keeps a selection free of repeats |
| SheetSelection.ShiftRectSpansBoth | apps/day04-sheets/app.js:718-728 | as intended, a shift click selects a rectangle holding both the anchor and the clicked cell, whichever comes first |
| SheetSelection.Focus | apps/day04-sheets/app.js:183-189 | a cell taking focus becomes the focused cell and the whole selection, and the anchor stays |
| SheetSelection.FocusAfterMousedown | apps/day04-sheets/app.js:183-189 | when focus follows a mousedown, only the clicked cell stays selected, with the anchor the mousedown set |
| SheetSelection.PageClick | apps/day04-sheets/app.js:183-189 | a whole click as written: on a cell without the keyboard focus only the clicked cell ends up selected and focused; on the focused cell no focus event fires, so a shift click from a parsable anchor leaves the selection empty |
| SheetSelection.PageClickIntended | apps/day04-sheets/app.js:714-741 | a whole click as intended: on a cell without the focus only that cell ends up selected; on the focused cell a shift click selects the rectangle from the anchor |
| SheetSelection.PageClickVersionsAgreeUnfocused | apps/day04-sheets/app.js:183-189 | on a cell without the focus the focus handler overrides the mousedown, so both versions of a click give the same state |
| SheetSelection.ShiftClickOnFocusedCell | apps/day04-sheets/app.js:718-728 | a shift click on the focused cell leaves the selection empty as written, while as intended the selection holds the clicked cell |
| SheetSelection.ClickThenShiftClickSameCell | apps/day04-sheets/app.js:718-736 | click A1, then shift click A1 while it keeps the focus: nothing is selected as written, A1 alone as intended |
| SheetSelection.PageClickKeepsFocusedOnly | apps/day04-sheets/app.js:183-189 | as written, clicks never select any cell but the focused one, so mouse selections hold at most one cell |
| SheetSelection.ShiftClickAsWrittenClears | apps/day04-sheets/app.js:719-727 | as written, every shift click between grid cells empties the selection, though the rectangle is never empty |
| SheetSelection.ShiftCellsAsWritten | apps/day04-sheets/app.js:719-727 | with column letters for bounds the column loop never runs, so the shift branch adds no cell |
| SheetRegion.Bounds | apps/day04-sheets/app.js:631-636 | the bounds are ordered, within the grid's columns, and hold every selected cell |
| SheetRegion.BoundsAttained | apps/day04-sheets/app.js:635-636 | each bound is reached by a selected cell, so the box is the smallest holding the selection |
| SheetRegion.Headed | apps/day04-sheets/app.js:651-654 | a header cell gets the header fill and bold, keeps its value, formula and other style keys, and a missing one is created empty |
| SheetRegion.InsertTable | apps/day04-sheets/app.js:627-659 | as written, insertion is rejected exactly on an empty selection; otherwise one zebra table is appended with NaN column bounds and the selection's row bounds, and no cell changes |
| SheetRegion.InsertTableIntended | apps/day04-sheets/app.js:627-659 | as intended, with the column letters decoded, the appended table spans the bounding rectangle and only the cells change besides |
| SheetRegion.InsertTableVersions | apps/day04-sheets/app.js:632-655 | both versions append the same table but for its column bounds; only the intended one styles the top row, whose first cell then exists |
| SheetRegion.InsertTableStylesHeaderRow | apps/day04-sheets/app.js:648-655 | as intended, every top-row cell of the rectangle exists with fill and bold and keeps its value and formula; every other cell is as it was |
| SheetRegion.HeaderIdsAreTopRow | apps/day04-sheets/app.js:649-650 | the header ids are exactly the rectangle's top-row cells |
| SheetRegion.LetterNumbers | apps/day04-sheets/app.js:632-635 | every column letter converts to NaN |
| SheetRegion.TableHeaderAsWrittenStylesNothing | apps/day04-sheets/app.js:635-655 | as written, the header loop styles no cell for any selection |
| SheetRegion.StyleHeader | apps/day04-sheets/app.js:648-655 | every cell of the rectangle's top row exists afterwards with the header fill and bold and its old value and formula, and every other cell is as it was |
| SheetRegion.TableHeaderAsWritten | apps/day04-sheets/app.js:635-655 | the header loop as written touches no cell outside the top row of the selection's rectangle |
| SheetRegion.FullBorder | apps/day04-sheets/app.js:680-689 | all draws the whole border on every cell; none and the one-sided types draw no whole border; inside draws it exactly on the cells strictly within the rectangle and outside exactly on the others |
| SheetRegion.FullBorderAsWritten | apps/day04-sheets/app.js:680-700 | the edge test as written agrees with the intended one on the top and bottom rows, never gives an outside border to a cell between them, draws the whole border on every cell for all, and nothing for none and the one-sided types |
| SheetRegion.OneCellBounds | apps/day04-sheets/app.js:697-700 | a selection of one cell, however often listed, bounds the box of that cell alone |
| SheetRegion.OneCellBordersAgree | apps/day04-sheets/app.js:684-689 | on a one-cell selection the written and the intended edge tests agree for every border type |
| SheetRegion.TableOverA1 | apps/day04-sheets/app.js:649-655 | a table over A1 should style A1 but, as written, leaves the cells unchanged |
| SheetRegion.OutsideInsideSplit | apps/day04-sheets/app.js:682-689 | outside and inside give each selected cell exactly one of them, and inside picks exactly the strictly interior cells |
| SheetRegion.BorderAsWrittenIgnoresColumns | apps/day04-sheets/app.js:683-700 | over A1:C3, A2 gets the outside border only as intended and the inside one only as written |
| SheetRegion.BorderAsWrittenAgreesOnEdgeRows | apps/day04-sheets/app.js:684-700 | on the top and bottom rows the written and intended edge tests agree |
| SheetStyle.UpdateEachSpec | apps/day04-sheets/app.js:746-751 | visiting distinct ids makes each selected cell the update of its old self and leaves every other cell, present or absent, alone |
| SheetStyle.Restyle | apps/day04-sheets/app.js:748-749 | a restyled cell keeps its value and formula, a missing one starts empty, and the style record starts empty when absent |
| SheetStyle.SetProp | apps/day04-sheets/app.js:750 | setting one style key leaves the other keys alone |
| SheetStyle.Toggle | apps/day04-sheets/app.js:750 | negation turns an absent key on and an on key off |
| SheetStyle.ToggleStyleSpec | apps/day04-sheets/app.js:745-753 | toggleStyle flips the key on every selected cell, creating it when missing, keeps value, formula and other keys, and leaves other cells alone |
| SheetStyle.ToggleStyle | apps/day04-sheets/app.js:745-753 | toggleStyle leaves every selected cell present and every other cell as it was; SheetStyle.ToggleStyleSpec states the flip |
| SheetStyle.ToggleTwice | apps/day04-sheets/app.js:745-753 | toggling twice leaves the key on exactly where it was on before |
| SheetStyle.NextAlign | apps/day04-sheets/app.js:756-763 | left goes to center, center to right, right to left; unset or empty counts as left; an unknown one goes to left |
| SheetStyle.NextAlignCycles | apps/day04-sheets/app.js:756-763 | three presses restore a known alignment, and an unset one becomes left |
| SheetStyle.CycleAlignSpec | apps/day04-sheets/app.js:755-766 | cycleAlign advances each selected cell's alignment one step and leaves the other keys and other cells alone |
| SheetStyle.CycleAlign | apps/day04-sheets/app.js:755-766 | cycleAlign leaves every selected cell present and every other cell as it was; SheetStyle.CycleAlignSpec states the step |
| SheetStyle.ApplyFillSpec | apps/day04-sheets/app.js:768-776 | applyFill gives each selected cell the colour, keeps everything else, leaves other cells alone, and is idempotent |
| SheetStyle.ApplyFill | apps/day04-sheets/app.js:768-776 | applyFill leaves every selected cell present and every other cell as it was; SheetStyle.ApplyFillSpec states the colour |
| SheetStyle.ApplyFillTwice | apps/day04-sheets/app.js:768-776 | filling a selection twice with one colour is filling it once |
| SheetStyle.TouchStylesSpec | apps/day04-sheets/app.js:666-667 | the border action leaves each selected cell present with a style record and otherwise as it was, and a missing one empty |
| SheetStyle.TouchStyles | apps/day04-sheets/app.js:666-667 | a border action leaves every selected cell present and every other cell as it was |
| SheetFilter.ColumnValues | apps/day04-sheets/app.js:247-254 | the dialog lists exactly the texts of the truthy cells of the column's rows, so never the empty text |
| SheetFilter.TruthyText | apps/day04-sheets/app.js:253 | a truthy value never prints as the empty text |
| SheetFilter.SetChecked | apps/day04-sheets/app.js:284-289 | the checkbox handler touches no other column's filter |
| SheetFilter.ClearFilter | apps/day04-sheets/app.js:309-312 | Clear removes the column's filter and touches no other |
| SheetFilter.NoFilterShowsAll | apps/day04-sheets/app.js:324-328 | without filters every row shows |
| SheetFilter.RowShown | apps/day04-sheets/app.js:322-343 | with no filter every row shows, and a filter on a column with no letter hides every row |
| SheetFilter.FilteredColumnHidesBlankRows | apps/day04-sheets/app.js:336-339 | a filtered column hides every row whose cell in it is missing, unless the empty text was put in its set |
| SheetFilter.ClearShowsMore | apps/day04-sheets/app.js:322-343 | clearing a column's filter never hides a row that was shown |
| SheetFilter.CheckWidensUncheckNarrows | apps/day04-sheets/app.js:284-289 | on a filtered column ticking never hides a row, and unticking never shows one unless it drops the filter |
| SheetFilter.SetCheckedOnFilteredColumn | apps/day04-sheets/app.js:282-289 | on a filtered column the clicked box becomes what was clicked and every other box stays, or unticking the last value drops the filter |
| SheetFilter.UncheckUnfilteredIsLost | apps/day04-sheets/app.js:282-289 | as written, unticking a value of an unfiltered column leaves the filters unchanged; the box stays unticked until the list is drawn again (a search input or reopening the dialog), which ticks it again |
| SheetFilter.SetCheckedIntended | apps/day04-sheets/app.js:282-289 | the intended handler touches no other column's filter |
| SheetFilter.SetCheckedIntendedSpec | apps/day04-sheets/app.js:282-289 | the intended handler agrees with the written one on a filtered column, and on any column turns exactly the clicked box into what was clicked, or drops the filter when the last listed value is unticked |
| SheetFilter.UncheckFreshColumn | apps/day04-sheets/app.js:282-289 | unticking "x" in a fresh dialog of "x" and "y" hides "x" as intended and nothing as written |
| SheetCsv.Escape | apps/day04-sheets/app.js:542 | doubling quotes never shortens a field |
| SheetCsv.Texts | apps/day04-sheets/app.js:536-541 | the grid has ROWS rows of COLS fields, each the text the cell shows |
| SheetCsv.ExportCsv | apps/day04-sheets/app.js:533-545 | no rows give empty text, and with a column the export reads back, per section 2 of RFC 4180, as the grid of shown texts |
| SheetCsv.ExportReadsBack | apps/day04-sheets/app.js:533-545 | with at least one column the export reads back as the grid of shown texts |
| SheetCsv.ReadEscaped | apps/day04-sheets/app.js:542 | an escaped field followed by its closing quote reads back as the field |
| SheetCsv.ReadRecordText | apps/day04-sheets/app.js:542-544 | one exported record reads back as its fields |
| SheetCsv.ReadCsvText | apps/day04-sheets/app.js:536-545 | a whole export of non-empty records reads back as its records |
| SheetCsv.QuoteInjective | apps/day04-sheets/app.js:542 | different texts never export as the same field |
| SheetCsv.Quote | apps/day04-sheets/app.js:542 | a quoted field starts and ends with a double quote and is at least two characters longer than the text |
| SheetCsv.CsvText | apps/day04-sheets/app.js:536-545 | the export is empty exactly without records, and otherwise ends with a newline; SheetCsv.ReadCsvText reads it back |
| SheetSession.Start | apps/day04-sheets/app.js:27-30 | the page starts on a valid one-sheet workbook with nothing selected or focused and no history |
| SheetSession.PushUndo | apps/day04-sheets/app.js:781-784 | the snapshot goes on top, below the limit nothing is lost, and past 20 the oldest is dropped |
| SheetSession.Undo | apps/day04-sheets/app.js:839-844 | undo does nothing without history, and otherwise pops the newest snapshot into the workbook, keeping selection and focus |
| SheetSession.ClickCell | apps/day04-sheets/app.js:714-741 | a mousedown changes the selection and focus only: a plain click selects just the cell, and a shift click from a parsable anchor leaves the selection empty and focuses the cell |
| SheetSession.Commit | apps/day04-sheets/app.js:488-499 | commitEdit changes only the active sheet's cells, and pushes the new workbook exactly when the cell existed before or exists after |
| SheetSession.FormulaBarCommit | apps/day04-sheets/app.js:704-709 | as written, Enter drops the bar's first character whatever it is: text of two or more characters starting with `=` becomes the formula after it, other such text is stored without its first character, and shorter text deletes the focused cell (or the key "null") |
| SheetSession.FormulaBarDeletesOnOneChar | apps/day04-sheets/app.js:707 | typing "4" over the bar and pressing Enter deletes the focused cell |
| SheetSession.FormulaBarCommitIntended | apps/day04-sheets/app.js:704-709 | as intended, a `=` text becomes the formula after the `=` and other non-empty text is stored whole |
| SheetSession.FormulaBarCommitsAgreeOnFormulas | apps/day04-sheets/app.js:707 | on text starting with `=`, which is all the bar shows by itself, the written and intended Enter agree |
| SheetSession.UndoAfterCommitShowsCommit | apps/day04-sheets/app.js:498 | because the snapshot is pushed after the edit, the first undo after a commit gives back the committed workbook |
| SheetSession.TypeThenUndoKeepsText | apps/day04-sheets/app.js:488-499 | typing "1" into an empty A1 and pressing undo leaves "1" in A1 |
| SheetSession.CommitSnapshotFirst | apps/day04-sheets/app.js:488-499 | the snapshot-first commit makes the same workbook and pushes the old one when the written code pushes |
| SheetSession.UndoRevertsCommit | apps/day04-sheets/app.js:839-844 | with the snapshot first, undo right after a commit restores the workbook, and below the limit the history too |
| SheetSession.RenameSheet | apps/day04-sheets/app.js:85-88 | a non-empty name replaces that sheet's name only, and an empty answer changes nothing |
| SheetSession.SelectSheet | apps/day04-sheets/app.js:92-94 | a click on a sheet makes it active and changes no sheet |
| SheetSession.DeleteSheet | apps/day04-sheets/app.js:89-91 | the last sheet and an unconfirmed delete are refused; otherwise the sheet goes and the active index steps back by one, whichever sheet went |
| SheetSession.DeleteBeforeActiveKeepsView | apps/day04-sheets/app.js:91 | deleting a sheet before the active one keeps the same sheet in view |
| SheetSession.DeleteAfterActiveMovesView | apps/day04-sheets/app.js:91 | as written, deleting a sheet after the active one shows the sheet before the active one |
| SheetSession.DeleteSheetIntended | apps/day04-sheets/app.js:89-91 | the intended delete refuses the same cases and removes exactly that sheet |
| SheetSession.DeleteIntendedKeepsView | apps/day04-sheets/app.js:91 | as intended, removing another sheet keeps the active one in view and removing the active one shows its neighbour |
| SheetSession.AddSheet | apps/day04-sheets/app.js:789-795 | an empty or cancelled name does nothing; otherwise a fresh sheet is appended and becomes active |
| SheetSession.SetColCount | apps/day04-sheets/app.js:796-802 | a column count in 1..26 is stored and any other is ignored |
| SheetSession.SetRowCount | apps/day04-sheets/app.js:803-809 | a row count in 1..1000 is stored and any other is ignored |
| SheetSession.SetCountsKeepSizes | apps/day04-sheets/app.js:796-809 | the two inputs keep a sheet's size in range |
| SheetSession.ResizeGridAsWrittenLeavesRange | apps/day04-sheets/app.js:810-816 | as written, answering 100 columns or 0 rows leaves the sheet's size out of range |
| SheetSession.ResizeGridAsWritten | apps/day04-sheets/app.js:810-816 | as written, each answer given is stored as the size whatever it is, an absent one keeps the size, and the cells stay |
| SheetSession.ResizeGrid | apps/day04-sheets/app.js:810-816 | the corrected button keeps sizes in range, stores answers in range, and keeps the cells, tables and filters |
| SheetSession.ResizeGridAgreesInRange | apps/day04-sheets/app.js:810-816 | for answers in range the corrected and written buttons agree |
| SheetLayout.DragWidth | apps/day04-sheets/app.js:374-377 | a column drag stores the start width plus the travel, but never below 36 |
| SheetLayout.DragStartHeight | apps/day04-sheets/app.js:396 | a row drag starts from the stored height, or 24 when it is missing or 0 |
| SheetLayout.DragHeight | apps/day04-sheets/app.js:405-407 | a row drag stores the start height plus the travel, but never below 18 |
| SheetLayout.DragWithoutTravel | apps/day04-sheets/app.js:374-407 | a drag without travel keeps a size at or above the minimum, and a row with no stored height gets 24 |
| SheetLayout.MaxFrom | apps/day04-sheets/app.js:425-435 | the running maximum is at least the start and every measurement, and is one of them |
| SheetLayout.Fit | apps/day04-sheets/app.js:438 | the clamp lies between the minimum and 2000 and keeps a size already in range |
| SheetLayout.FitIdempotent | apps/day04-sheets/app.js:438 | clamping a clamped size changes nothing |
| SheetLayout.TextWidthsCover | apps/day04-sheets/app.js:429-436 | every non-empty text of the sampled rows is measured |
| SheetLayout.TextWidthsFrom | apps/day04-sheets/app.js:429-436 | every measured width belongs to a non-empty sampled text |
| SheetLayout.ColumnFitWidth | apps/day04-sheets/app.js:421-440 | the fitted width is the widest of 36, the letter's width plus 22 and each non-empty text of the first 200 rows plus 18, capped at 2000: at least each of them (up to 2000) and equal to one of them |
| SheetLayout.ColumnFitIsLeast | apps/day04-sheets/app.js:424-438 | no width of at least 36 that covers the letter and every sampled text (up to 2000) is narrower than the fitted one |
| SheetLayout.FitCovers | apps/day04-sheets/app.js:429-436 | the widest measurement covers every non-empty sampled text |
| SheetLayout.TextHeights | apps/day04-sheets/app.js:447-455 | each of the row's columns is measured in its stored width (120 when unset) less 12, plus 8 |
| SheetLayout.RowFitHeight | apps/day04-sheets/app.js:442-459 | the fitted height is the tallest of 18 and each column's height, capped at 2000: at least each of them (up to 2000) and equal to one of them |
| SheetLayout.RowFitIsLeast | apps/day04-sheets/app.js:445-457 | no height of at least 18 that covers every column (up to 2000) is lower than the fitted one |
| SheetLayout.AutoFitColumn | apps/day04-sheets/app.js:421-440 | the double click stores the fitted width for that column and changes nothing else |
| SheetLayout.AutoFitRow | apps/day04-sheets/app.js:442-459 | the double click stores the fitted height for that row and changes nothing else |

## Left out

- DOM rendering, event wiring, dropdowns, guides, the toolbar and the theme toggles: these are presentation only.
- Storage, file import and export, Blob downloads and JSON (de)serialisation in all four apps are I/O. An undo snapshot is modelled as the workbook itself rather than its JSON text.
- Spreadsheet workbook JSON import (`apps/day04-sheets/app.js:826-838`): this is file I/O with an arbitrary parsed value.
- `eval` semantics: the evaluator is a parameter that may fail. Number formatting, doubles and NaN from non-numeric inputs are not modelled; sizes and counts are integers.
- Pixel measurement: the measured width or height of a text is a parameter (`measure`), in whole pixels. `Math.round`/`Math.ceil` of fractional pixels is not modelled.
- Ids from `uid` and time stamps from the clock are parameters. `prompt` and `confirm` answers are parameters; a cancelled prompt is the empty text or `None`.
- The Enter key in a cell (`apps/day04-sheets/app.js:847-865`) commits like a blur, which is modelled. Its move to the next row builds `colName` from a letter and finds no cell, so it does nothing. That move is not modelled.
- The border styles themselves are set on the page only and are wiped by the immediate `renderGrid`. Only the cells the action creates are modelled, through SheetStyle.TouchStylesSpec.
- Seqs.Splice: the contract states the length only. The contents of each splice the editor makes are stated by NoteBlocks.InsertBelow, NoteBlocks.ReplaceWithDivider and NoteBlocks.InsertImage.
- Seqs.Filter: its own contract states membership, and the order is stated through Seqs.FilterIsSubseq. Multiplicities are stated by Seqs.FilterCounts, which the callers use, because a multiset clause on Filter itself makes every proof that unfolds it far more expensive.
- TextCase.CollapseSpaces: its own contract states which characters remain. That each maximal whitespace run becomes exactly one separator is stated by TextCase.CollapseRun, with TextCase.CollapseWithoutSpaces for text without whitespace.
- TextCase.ToSnake: its own contract states which characters remain. Where the `_` separators go, one per whitespace run, is stated by TextCase.SnakeRun and TextCase.CaseWithoutSpaces.
- TextCase.ToKebab: its own contract states which characters remain. Where the `-` separators go, one per whitespace run, is stated by TextCase.KebabRun and TextCase.CaseWithoutSpaces.
- Entities.DecodeEntities: its own contract bounds the length only. Its content is stated by Entities.DecodeEntitiesEscapeWithoutAmpersand, Entities.DecodeWithoutAmpersand and Entities.DoubleDecoding. Escaped text that holds `&` is covered only by the example in Entities.DecodeEntitiesEscapeMismatch.
- SheetFilter.RowShown: a filter on a column past the 26th hides every row in the model. Such a filter can exist only after the as-written Resize. The page looks up the cell named with `[`, the character after Z, and keeps a row when that cell's text, normally empty, is among the ticked values.
- SheetFormula.Tokenize: its own contract bounds the number of pieces. What the pieces are is stated by SheetFormula.TokenizeJoin and SheetFormula.TokenizeLeftmostLongest, because a proof inside the function makes every caller's proof more expensive.
- Columns past Z: from the 27th column on, `colName` gives characters that are not letters, and such ids never parse back to a column. Those columns exist only after the as-written Resize (`apps/day04-sheets/app.js:813`). The model states nothing about their cells. SheetSelection.Mousedown, SheetSelection.PageClick, SheetSession.ClickCell, SheetFilter.ColumnValues, SheetLayout.AutoFitColumn and SheetLayout.ColumnFitWidth take a column below 26. SheetRegion.InsertTable, SheetRegion.Bounds and the other region members take selections that decode. SheetCsv.ExportCsv, SheetLayout.RowFitHeight and SheetLayout.AutoFitRow take at most 26 columns.
- SheetCsv.ExportCsv: requires at most 26 columns; see the line on columns past Z.
- SheetSelection.Mousedown: a shift click whose anchor does not parse throws in the page before changing anything; the model returns the state unchanged and does not model the exception. SheetSelection.MousedownIntended likewise leaves the state unchanged for an anchor that does not decode.
- Which element holds the keyboard focus is DOM state. SheetSelection.PageClick and SheetSelection.PageClickIntended take it as a parameter, and SheetSelection.PageClickKeepsFocusedOnly assumes the element with the focus is the cell the focus handler last recorded.
- Column filters are JavaScript `Set`s, which JSON snapshots turn into empty objects. The model keeps them as sets in every snapshot.
- Notes.Undo: an undo on a selected id that has no note throws in the page after the stack check. The model treats it as a no-op.
- The note editor's title input, text input and formatting toolbar (`document.execCommand`) are DOM editing.
- The slash commands are modelled for the trimmed texts the code compares. The caret position and the `contentEditable` text are not.
- The audio graph, visualizer, converter scraping and network fetches of the playlist app are audio plumbing, floating point and the network.
- Unicode case mapping: the text transforms are modelled on ASCII letters only.

## Findings

| source | as written | input that shows it | evidently intended | confidence | as-written member | corrected member |
|---|---|---|---|---|---|---|
| apps/day01-textcase/app.js:30 | `(t) => t.toLowerCase` returns the method, not its result | any text, e.g. "A" | `t.toLowerCase()` | not executed | TextCase.LowerActionDiverges | TextCase.LowerActionIntended |
| apps/day01-textcase/app.js:6 | the callback calls `caches.ToUpperCase()`, which throws | "ab" | `c.toUpperCase()` | not executed | TextCase.TitleCaseDiverges | TextCase.TitleCaseIntendedProperties |
| apps/day01-textcase/app.js:10 | `charAt(0).ToUpperCase()` is not a method and throws | "ab" | `charAt(0).toUpperCase()` | not executed | TextCase.SentenceCaseDiverges | TextCase.SentenceCaseIntendedProperties |
| apps/day02-audio-equalizer/app.js:194 | `&amp;` is decoded first, so its output is decoded again | "&amp;lt;" gives "<" | a single pass, so the text "&lt;" comes back | not executed | Entities.DecodeEntitiesEscapeMismatch | Entities.DecodeOnceEscapeRoundTrip |
| apps/day03-notes/app.js:55-65 | the snapshot is pushed after each edit, so the first undo restores the edited state | any block edit followed by undo | snapshot before the edit | not executed | Notes.UndoAfterEditShowsEdit | Notes.UndoRevertsEdit |
| apps/day04-sheets/app.js:498 | pushUndo runs after the edit, so the first undo restores the committed workbook | type "1" in A1, then undo | snapshot before the edit | not executed | SheetSession.TypeThenUndoKeepsText | SheetSession.UndoRevertsCommit |
| apps/day04-sheets/app.js:707 | `expr.slice(1)` drops the first character even without `=` | "42" typed over the bar commits "2"; "4" deletes the cell | drop only a leading `=` | not executed | SheetSession.FormulaBarDeletesOnOneChar | SheetSession.FormulaBarCommitIntended |
| apps/day04-sheets/app.js:719-727 | Math.min/max of column letters is NaN, so the rectangle loop never runs and the selection is emptied | click A1, then shift click A1 while it keeps the focus, then Bold: no cell is bolded. On a cell without the focus, the focus handler at :183-189 resets the selection in both versions | select the rectangle | not executed | SheetSelection.ClickThenShiftClickSameCell | SheetSelection.ShiftRectSpansBoth |
| apps/day04-sheets/app.js:635-655 | table bounds from column letters are NaN, so no header cell is styled | a table over A1 | style the top row of the rectangle | not executed | SheetRegion.InsertTableVersions | SheetRegion.InsertTableStylesHeaderRow |
| apps/day04-sheets/app.js:684-700 | `c === getMinCol()` compares a letter with NaN, so only rows decide the edge | latent: A2 in a selection A1:C3 with the outside type, but the mouse handlers as written never select more than the focused cell (SheetSelection.PageClickKeepsFocusedOnly), on one cell the tests agree (SheetRegion.OneCellBordersAgree), and the `renderGrid` at :694 redraws from the cell styles, which hold no border | left and right columns count as edge | not executed; latent on the page | SheetRegion.BorderAsWrittenIgnoresColumns | SheetRegion.OutsideInsideSplit |
| apps/day04-sheets/app.js:285-288 | a missing set starts empty, so unticking on an unfiltered column is dropped | untick "x" in a fresh dialog listing "x" and "y" | start from the listed values | not executed | SheetFilter.UncheckFreshColumn | SheetFilter.SetCheckedIntendedSpec |
| apps/day04-sheets/app.js:91 | the active index steps back whichever sheet is deleted | three sheets, the second active, delete the third: the first shows | step back only when the deleted sheet is at or before the active one | not executed | SheetSession.DeleteAfterActiveMovesView | SheetSession.DeleteIntendedKeepsView |
| apps/day04-sheets/app.js:813-814 | the Resize prompts store any answer | 100 columns or 0 rows | the 1..26 and 1..1000 bounds of the count inputs | not executed | SheetSession.ResizeGridAsWrittenLeavesRange | SheetSession.ResizeGrid |
