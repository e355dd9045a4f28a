# irisnotes core, modelled in Dafny

irisnotes is a notes application. Notes are items in a SQLite tree of
books, sections and notes. This project models the parts of it that are
pure logic once the database, filesystem and desktop shell are set aside:

- the HTML-to-text normaliser (`strip_html`), in both of its variants. The
  quick-search window collapses every whitespace run. The command-line tool
  keeps newlines.
- the quick-search command (`search_notes` in the quick app). It covers
  building the full-text query, merging full-text hits with parent-title
  matches, and shaping each row into a search result: preview, book and
  section names, match type and word estimate. It also covers how rows that
  fail to decode are skipped.
- the command-line tool:
  - the full-text search with its LIKE fallback;
  - the breadcrumb path of an item;
  - byte truncation;
  - choosing one of several notes with the same title;
  - the indented tree listing;
  - the note list.
- configuration file handling:
  - the desktop app's base-name stripping, its TOML-first read and TOML
    write;
  - the legacy app's verbatim read and write;
  - both apps' debounced "config file changed" notification loop.

Modules:

| file | module | what it holds |
|---|---|---|
| wrappers.dfy | `Wrappers` | `Option` and `Result` |
| text.dfy | `Text` | Rust string operations: `is_whitespace`, `replace`, `split_whitespace`, `trim`, UTF-8 byte lengths and byte slicing |
| html.dfy | `Html` | `strip_html`: tag removal, entity decoding, run collapsing, trimming |
| quick_search.dfy | `QuickSearch` | the quick-search command |
| cli.dfy | `Cli` | the command-line helpers |
| config.dfy | `Config` | where `read_config`/`write_config` read and write |
| watcher.dfy | `Watcher` | the debounce loop of the configuration watcher |

A Rust panic is modelled as a `None` or `Panicked` result. The only panic
in the modelled code is slicing a string at a byte offset that is not a
character boundary. A computation that never finishes is also modelled as
`None`, and no output is modelled for it:

- `get_item_path` on a cycle of parent links loops forever;
- `print_tree` on an item whose id is already being printed recurses until
  the stack overflows, printing lines as it goes.

Each such case is stated in a contract.

Behaviour of the code that a reader might not expect, each stated in the
model:

- Entities are decoded after tags are stripped, so `&lt;` yields `<` in
  the output (`Html.DecodedBracketSurvives`).
- Each entity is replaced in one pass, in a fixed order. So `&amp;lt;`
  yields `<`, and `&amp;nbsp;` yields the raw `&nbsp;`
  (`Html.DecodeEscapedLt`, `Html.DecodeEscapedNbsp`).
- After decoding, none of `&lt;`, `&gt;`, `&quot;`, `&#39;` or `&apos;` is
  left, but `&nbsp;` and `&amp;` can be (`Html.DecodeEntities`).
- The collapse filter keeps the first character of each whitespace run
  unchanged, so a tab stays a tab (`Html.RunKeepsFirst`).
- A stray `>` outside any tag is dropped.
- Truncation counts UTF-8 bytes, and it panics when the cut falls inside
  a multi-byte character. In the command-line note list that panic ends
  the listing at the note whose preview panics (`Cli.NoteList`).
- The "Empty note" placeholder exists only in the quick-search preview. The
  command-line note list shows an empty preview.
- A full-text query that FTS5 cannot parse, such as `example.com`, fails
  when the statement first steps. The quick-search loop drops that error,
  so the command succeeds with no results
  (`QuickSearch.UnparsableQueryFindsNothing`).

## Model

| member | source | states |
|---|---|---|
| Html.StripTagsFrom | apps/quick/src-tauri/src/lib.rs:29-39 | tag removal leaves no `<` or `>`, only characters of the input, and never lengthens the text |
| Html.TagSpanRemoved | apps/main/src-tauri/src/cli.rs:84-95 | a complete `<...>` span is removed and the text on either side is kept |
| Html.UnterminatedTagDropsRest | apps/quick/src-tauri/src/lib.rs:32-39 | a `<` with no later `>` swallows the rest of the input |
| Html.PlainTextKept | apps/quick/src-tauri/src/lib.rs:32-39 | text without angle brackets passes tag removal unchanged |
| Html.DecodeEntities | apps/quick/src-tauri/src/lib.rs:42-49 | decoding never lengthens the text and introduces only the replacement characters; text with no `&` is unchanged; no `&lt;`, `&gt;`, `&quot;`, `&#39;` or `&apos;` is left in the result |
| Html.DecodeEscapedLt | apps/main/src-tauri/src/cli.rs:98-105 | the chained replacements decode `&amp;lt;` all the way to `<` |
| Html.DecodeEscapedNbsp | apps/main/src-tauri/src/cli.rs:98-105 | `&amp;nbsp;` decodes to a raw `&nbsp;`, because `&nbsp;` is replaced before `&amp;` |
| Html.CollapseFrom | apps/quick/src-tauri/src/lib.rs:52-66 | the filter leaves no two adjacent run characters and drops only run characters |
| Html.RunKeepsFirst | apps/main/src-tauri/src/cli.rs:108-122 | a whitespace run becomes its first character, not a space |
| Html.CollapseIdempotent | apps/quick/src-tauri/src/lib.rs:52-66 | collapsing an already collapsed text changes nothing |
| Html.CollapseKeepsNewlines | apps/main/src-tauri/src/cli.rs:112 | the command-line variant keeps every newline |
| Html.NewlineEndsRun | apps/main/src-tauri/src/cli.rs:108-122 | between two words, ` \n  ` keeps a space on each side of the newline in the command-line variant; the quick variant folds it into one space |
| Html.StripHtml | apps/quick/src-tauri/src/lib.rs:27-69 | apart from whitespace, the result is exactly the entity-decoded text outside the tags; it has no leading or trailing whitespace and no adjacent run characters; it holds `<` or `>` only when the input had an `&`; it is never longer than the input |
| Html.PlainTextFixed | apps/quick/src-tauri/src/lib.rs:27-69 | plain text already in normal form (no `<`, `>` or `&`, no two adjacent run characters, no whitespace at either end) comes back unchanged, so the single spaces between words are kept |
| Html.NbspExample | apps/main/src-tauri/src/cli.rs:82-125 | `<p>A&nbsp;&nbsp;B</p>` normalises to `A B` in both variants |
| Html.DecodedBracketSurvives | apps/quick/src-tauri/src/lib.rs:41-49 | an encoded `&lt;` survives as a literal `<` in the output |
| Text.ReplaceAll | apps/quick/src-tauri/src/lib.rs:42-49 | a left-to-right non-overlapping replace adds only characters of the replacement and leaves text without the pattern unchanged |
| Text.ReplaceRemoves | apps/quick/src-tauri/src/lib.rs:42-49 | with a non-empty replacement sharing no character with the pattern, no occurrence of the pattern is left |
| Text.ReplaceKeepsAbsent | apps/quick/src-tauri/src/lib.rs:42-49 | a replace with a non-empty replacement sharing no character with another text never creates an occurrence of that text |
| Text.ReplaceCharByNothing | apps/quick/src-tauri/src/lib.rs:147 | replacing one character by nothing is the filter that drops that character |
| Text.SplitWhitespace | apps/quick/src-tauri/src/lib.rs:146 | the words are non-empty and whitespace-free, and together they are exactly the non-whitespace characters of the input, in order |
| Text.SplitSkipsWhitespace | apps/quick/src-tauri/src/lib.rs:146 | leading whitespace produces no word |
| Text.SplitTakesWord | apps/quick/src-tauri/src/lib.rs:146 | a maximal whitespace-free word, followed by whitespace or the end, is split off whole as the first word |
| Text.ReplaceCharByChar | apps/main/src-tauri/src/cli.rs:318 | replacing one character by one character is the position-wise swap |
| Text.TrimTrimmed | apps/main/src-tauri/src/cli.rs:124 | text with no whitespace at either end is its own trim |
| Text.SplitJoin | apps/quick/src-tauri/src/lib.rs:146-149 | splitting whitespace-free words joined by single spaces gives the words back |
| Text.TrimKeepsText | apps/main/src-tauri/src/cli.rs:124 | trimming removes whitespace only |
| Text.SplitWhitespaceEmptyIff | apps/quick/src-tauri/src/lib.rs:145-146 | splitting on whitespace yields no words exactly when the text is all whitespace |
| Text.Trim | apps/main/src-tauri/src/cli.rs:124 | trimming leaves a contiguous slice with no whitespace at either end that keeps every non-whitespace character |
| Text.BytePrefix | apps/main/src-tauri/src/cli.rs:294 | a byte slice succeeds exactly at a character boundary, and then its byte length is the cut |
| QuickSearch.PrefixTerm | apps/quick/src-tauri/src/lib.rs:147 | a term is the word with every `"` dropped, then `*`; a whitespace-free word gives a whitespace-free term |
| QuickSearch.FtsQuery | apps/quick/src-tauri/src/lib.rs:145-149 | split on whitespace, the full-text query has one term per word of the query, in order, each the word without `"` followed by `*`; it is empty exactly when the query has no words; its only whitespace is single spaces, each following a `*` |
| QuickSearch.JoinSpacesOnly | apps/quick/src-tauri/src/lib.rs:149 | whitespace-free terms joined with `" "` contain no whitespace but the separating spaces |
| QuickSearch.TwoWordQuery | apps/quick/src-tauri/src/lib.rs:145-149 | surrounding and repeated whitespace vanish and quotes are stripped: ` a  "b" ` becomes `a* b*` |
| QuickSearch.ExcludeIds | apps/quick/src-tauri/src/lib.rs:203-204 | a parent-title match is kept exactly when its id is not among the full-text hits |
| QuickSearch.SortRows | apps/quick/src-tauri/src/lib.rs:211 | the rows are ordered by priority, then rank, and are a permutation of the input |
| QuickSearch.Merge | apps/quick/src-tauri/src/lib.rs:155-213 | the merged rows are the first 15 of the union in priority/rank order: sorted, drawn from the union, none left out that ranks before a kept row; no parent match repeats a full-text hit |
| QuickSearch.Preview | apps/quick/src-tauri/src/lib.rs:228-236 | an empty text becomes "Empty note"; a text of at most 80 bytes is kept; a longer one is cut at 80 bytes plus `...`, panicking off a character boundary |
| QuickSearch.AsciiPreview | apps/quick/src-tauri/src/lib.rs:230-231 | for ASCII text the cut is the first 80 characters plus `...` |
| QuickSearch.Hierarchy | apps/quick/src-tauri/src/lib.rs:238-243 | under a section the book is the grandparent; under a book there is no section; otherwise neither is named |
| QuickSearch.Classify | apps/quick/src-tauri/src/lib.rs:245-253 | parent for priority 2, else title exactly when the lowered title contains the lowered query, else content |
| QuickSearch.ClassifyExamples | apps/quick/src-tauri/src/lib.rs:245-253 | worked cases of each match type |
| QuickSearch.WordCount | apps/quick/src-tauri/src/lib.rs:256 | the estimate is the content length divided by 6, truncating toward zero, and 0 for a missing length |
| QuickSearch.MapRow | apps/quick/src-tauri/src/lib.rs:218-268 | a row that fails to decode is skipped; one whose preview cut panics panics; otherwise the result carries the row's id, title, snippet (empty for NULL), preview, hierarchy, the match type of its priority and title, and the word estimate of its length |
| QuickSearch.Collect | apps/quick/src-tauri/src/lib.rs:271-276 | the loop never fails and gives at most one result per row |
| QuickSearch.CollectPanics | apps/quick/src-tauri/src/lib.rs:217-278 | the command panics exactly when some row's mapping panics |
| QuickSearch.CollectResults | apps/quick/src-tauri/src/lib.rs:271-278 | otherwise the results are exactly the mapped rows in order; failed rows are dropped silently |
| QuickSearch.MappedResultsFromRows | apps/quick/src-tauri/src/lib.rs:271-278 | every result comes from one of the merged rows |
| QuickSearch.SearchNotes | apps/quick/src-tauri/src/lib.rs:138-279 | fails with "Database not initialized" without a connection; returns nothing for a query without words; fails with the error of preparing the statement; otherwise collects the mapped merged rows the statement yields before any failing step, at most 15 |
| QuickSearch.StepFailureTruncates | apps/quick/src-tauri/src/lib.rs:271-278 | a failing step does not fail the command; its results are a prefix of those with every step succeeding |
| QuickSearch.UnparsableQueryFindsNothing | apps/quick/src-tauri/src/lib.rs:271-278 | a query whose first step fails succeeds with no results |
| QuickSearch.CollectPrefix | apps/quick/src-tauri/src/lib.rs:271-276 | collecting the first rows collects a prefix of the results |
| QuickSearch.MergeParentsLast | apps/quick/src-tauri/src/lib.rs:206-212 | every full-text row precedes every parent-title row |
| QuickSearch.CollectedOrdering | apps/quick/src-tauri/src/lib.rs:206-278 | after the merge, mapping and collecting keep every parent match behind the other results and free of full-text ids |
| QuickSearch.SearchOrdering | apps/quick/src-tauri/src/lib.rs:138-279 | parent matches come after all other results and never name a note the full-text search found |
| Cli.SearchNotes | apps/main/src-tauri/src/cli.rs:224-245 | the full-text result stands when it is a non-empty list; an error or an empty list falls back to the LIKE search |
| Cli.SearchFallsBack | apps/main/src-tauri/src/cli.rs:224-226 | the LIKE search can change the outcome only when the full-text search failed or found nothing |
| Cli.Walk | apps/main/src-tauri/src/cli.rs:270-284 | a finished walk pushes at most one title per item in the table |
| Cli.WalkSound | apps/main/src-tauri/src/cli.rs:267-284 | a finished walk stopped after one step per title, and the titles are those the loop pushes |
| Cli.WalkNoneLoops | apps/main/src-tauri/src/cli.rs:271-284 | a walk that revisits an item never reaches a stop |
| Cli.ItemPathMatchesLoop | apps/main/src-tauri/src/cli.rs:267-288 | the breadcrumb exists exactly when the parent loop stops, and then it is the pushed titles reversed and joined with ` / ` |
| Cli.ItemPath | apps/main/src-tauri/src/cli.rs:277-287 | an unknown id gives an empty path |
| Cli.ItemPathExample | apps/main/src-tauri/src/cli.rs:267-288 | book, section, note gives `book / section / note` |
| Cli.ItemPathSelfParent | apps/main/src-tauri/src/cli.rs:271-284 | an item that is its own parent makes the loop run forever |
| Cli.Truncate | apps/main/src-tauri/src/cli.rs:290-296 | text within the byte limit is unchanged; longer text is cut at the limit minus 3, saturating at 0, plus `...`, panicking off a character boundary |
| Cli.TruncateBound | apps/main/src-tauri/src/cli.rs:290-296 | the truncated text is at most the limit in bytes, or 3 when the limit is below 3 |
| Cli.TruncateAscii | apps/main/src-tauri/src/cli.rs:290-296 | on ASCII text a long text keeps its first `max_len - 3` characters followed by `...` |
| Cli.TruncateTiny | apps/main/src-tauri/src/cli.rs:294 | with a limit under 3 any text over the limit becomes `...`, which can be longer than the text |
| Cli.SelectNote | apps/main/src-tauri/src/cli.rs:324-355 | no notes gives nothing; a single note is chosen whatever the number; with several, a number in 1..n picks the n-th, another number is rejected with the count, and no number lists every candidate numbered from 1 |
| Cli.SelectNoteChoice | apps/main/src-tauri/src/cli.rs:324-355 | a note is chosen exactly when there is one note, or several and a valid number |
| Cli.Level | apps/main/src-tauri/src/cli.rs:422-439 | every entry printed at a level is an item of the list at that depth or deeper, and those at that depth come from the current position on |
| Cli.LevelSiblings | apps/main/src-tauri/src/cli.rs:422-436 | the entries printed at a level's own depth are exactly the notes whose parent is that level's parent, in list order |
| Cli.LevelLinked | apps/main/src-tauri/src/cli.rs:422-436 | the nearest entry one level up before every deeper entry is an entry for its parent |
| Cli.LevelListed | apps/main/src-tauri/src/cli.rs:422-436 | directly under every entry, one level deeper and before the next entry no deeper, come exactly its item's children, in list order |
| Cli.TreeShape | apps/main/src-tauri/src/cli.rs:422-439 | the tree is printed in pre-order: the top level lists exactly the root items in list order, each line is followed by exactly its children in list order (each with its own block), and each deeper line's nearest line one level up is its parent |
| Cli.OrphansNotPrinted | apps/main/src-tauri/src/cli.rs:422-439 | an item whose parent is not in the list is never printed |
| Cli.TreeTerminates | apps/main/src-tauri/src/cli.rs:422-439 | with distinct ids the recursion always ends |
| Cli.TreeSharedId | apps/main/src-tauri/src/cli.rs:434 | a child that shares its parent's id recurses forever |
| Cli.RenderIndent | apps/main/src-tauri/src/cli.rs:426-433 | a printed line is indented by exactly two spaces per depth level (no icon starts with a space) and ends with a space and the item's title |
| Cli.TreeLines | apps/main/src-tauri/src/cli.rs:422-439 | one printed line per traversal entry, in traversal order, and no result exactly when the recursion never ends |
| Cli.NotesOnly | apps/main/src-tauri/src/cli.rs:309-312 | exactly the items of type `note` are listed |
| Cli.NotesOnlyAppend | apps/main/src-tauri/src/cli.rs:309-312 | the filter keeps list order |
| Cli.ListPreview | apps/main/src-tauri/src/cli.rs:314-319 | `--full` shows the whole plain text; otherwise it is the plain text with each newline turned into a space, truncated to 60 bytes (nothing where the cut panics); such a preview has no newline and at most 60 bytes, and short single-line text is shown unchanged |
| Cli.PrintLines | apps/main/src-tauri/src/cli.rs:309-320 | the lines printed are those of the items before the first panicking preview, in order; the listing panics exactly when it stops early |
| Cli.NoteList | apps/main/src-tauri/src/cli.rs:308-321 | one line per note-type item, in order, with its title and preview, up to the first note whose preview panics; no line follows a panic |
| Cli.PrintLinesAppend | apps/main/src-tauri/src/cli.rs:309-320 | printing two lists prints the first, then the second only if the first did not panic |
| Config.StripSuffix | apps/main/src-tauri/src/lib.rs:129-132 | a suffix is stripped exactly when the name ends with it, and the rest plus the suffix is the name |
| Config.BaseName | apps/main/src-tauri/src/lib.rs:163-166 | one trailing `.json` is removed, else one trailing `.toml`, else the name is kept |
| Config.BaseNameOfSuffixed | apps/main/src-tauri/src/lib.rs:129-132 | adding either suffix and taking the base name gives the name back |
| Config.BaseNameOneSuffix | apps/main/src-tauri/src/lib.rs:129-132 | only one suffix goes: `a.toml.json` becomes `a.toml` |
| Config.ReadConfig | apps/main/src-tauri/src/lib.rs:125-151 | the TOML file is read when present, else the JSON file; when neither exists the error names the TOML file |
| Config.WriteTarget | apps/main/src-tauri/src/lib.rs:163-168 | the write always goes to a `.toml` file with the same base name |
| Config.WriteThenRead | apps/main/src-tauri/src/lib.rs:134-168 | after a write, a read under any name with the same base finds the file just written, even beside an old JSON file |
| Config.LegacyReadConfig | src-tauri/src/lib.rs:113-122 | the name is read verbatim and only when it exists; otherwise "Config file does not exist" |
| Config.LegacyWriteThenRead | src-tauri/src/lib.rs:113-134 | a read finds what a write under the same name produced, and nothing under another name |
| Config.AppsDisagreeOnToml | src-tauri/src/lib.rs:115-119 | for a settings file kept only as TOML, the desktop app reads it under its JSON name and the legacy app reports it missing |
| Watcher.Run | apps/main/src-tauri/src/lib.rs:214-236 | notifications are no more than the events, and each one comes more than 100 ms after the previous one (the first after the start) |
| Watcher.EmitsAreCounted | apps/main/src-tauri/src/lib.rs:217-228 | every notification happens at the time of an event for a configuration file |
| Watcher.EmitsAtMostCounted | apps/main/src-tauri/src/lib.rs:222-228 | there are no more notifications than configuration-file events |
| Watcher.IgnoredTransparent | apps/main/src-tauri/src/lib.rs:218-222 | events for other files neither notify nor move the debounce window |
| Watcher.RunAppend | apps/main/src-tauri/src/lib.rs:217-236 | two batches of events behave like their concatenation |
| Watcher.LastIsLastEmit | apps/main/src-tauri/src/lib.rs:226-228 | the window start is the last notification, or the start time when there was none |
| Watcher.SpacedAllFire | src-tauri/src/lib.rs:177-178 | configuration events spaced more than 100 ms apart all notify |
| Watcher.SpacedCountedAllFire | apps/main/src-tauri/src/lib.rs:217-236 | the same holds when other files' events are interleaved |
| Watcher.VariantsAgreeWithoutToml | src-tauri/src/lib.rs:171-186 | without `config.toml` events the two apps notify at the same times |
| Watcher.TomlOnlyInDesktop | apps/main/src-tauri/src/lib.rs:219-220 | a `config.toml` event notifies in the desktop app and not in the legacy one |
| Watcher.OnlyFirstPathCounts | apps/main/src-tauri/src/lib.rs:218 | only an event's first path is examined |
| Watcher.BurstExample | apps/main/src-tauri/src/lib.rs:223-228 | saves at 200, 210, 220, 230, 250 and 350 ms notify at 200 and 350 |

## Left out

- SQL is not executed. The full-text index, its ranking, `snippet()`, the
  LIKE patterns and SQLite's `LENGTH` are inputs to the model: full-text
  hits with a rank, parent-title matches, and the LIKE result list.
- The connection mutex is left out, and so is lock poisoning.
- Quick search: an error from preparing the statement or binding its
  parameters is the single `statementError` field. A failing step is the
  `failsAfter` field: the number of rows yielded before it.
- The command-line tool's `?` on `prepare` is not modelled beyond the
  `Result` it feeds into the fallback.
- QuickSearch.SortRows: the FTS5 `rank` is a floating-point value. The model
  keeps it as an integer, so only its order is modelled.
- Text.Lower: lowers ASCII letters only, because Rust's `to_lowercase`
  applies full Unicode case mapping. Unicode case tables are not part of
  this model.
- QuickSearch.SortRows: ties in priority and rank are left in the order the
  model's insertion sort gives, because SQLite does not define the order of
  equal keys.
- Filesystem access is a predicate saying which names exist in the
  configuration directory. This covers `get_config_dir` and directory
  creation. Read and write I/O errors are left out.
- The TOML-to-JSON and JSON-to-TOML conversions in `read_config` and
  `write_config` are left out, because they are serde/toml library calls.
- Watcher registration, the channel and the spawned thread are left out,
  and so is the Tauri `emit` and its error message. The clock is the time
  stamp carried by each event.
- Terminal colours, `println!`/`eprintln!` formatting, process exit codes
  and the argument parsing and command dispatch in the command-line `main`
  are left out.
- Cli.ItemPath: a failure to prepare the lookup statement is left out. It
  is returned from `get_item_path` by `?` (cli.rs:272). Every error of the
  lookup itself, including a missing row, ends the walk (cli.rs:282), and
  the model treats an id absent from the table as that case.
- Cli.TreeLines: `print_tree` prints each line before it recurses, so a
  tree that recurses forever prints lines until the stack overflows. The
  model gives no result for it and does not model those lines.
- Config.LegacyWriteThenRead: distinct names are treated as distinct files.
  A case-insensitive filesystem, or a name like `./config.json`, can make
  two names reach the same file.
- Config.WriteThenRead: distinct names are treated as distinct files, as
  for the legacy app.
