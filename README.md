# editor.py — a verified model of the pseudocode editor's core

`editor.py` is a small tkinter editor for a teaching pseudocode. This project
models its non-GUI core in Dafny and proves what that core does:

- **The pattern table `MARKUP`** (`patterns.dfy`, module `Patterns`). Six
  categories with their colours. The parsed `editor_markup.json` is merged in:
  known keys extend their category, `package` entries become `name\.\w+` in
  `builtin`, and every list is then extended with an upper-cased copy of
  itself. `PatternTable` is the mutable table, updated in place by `Load` and
  `DuplicateUpper`.
- **Highlighting** (`tagging.dfy`, module `Tagging`; `code_text.dfy`, class
  `Editor.CodeText`):
  - `markup` clears every tag and runs `markup_one` for each pattern.
  - `markup_one` repeatedly searches `pattern + (\n|\W)` from the boundary
    character of the previous match.
  - A match is tagged, without its boundary character, when it starts the
    buffer or follows a character that is not an ASCII letter.
  - The Tk buffer is a flat string that always ends in Tk's final newline.
    Tags are per-category sets of offsets, and the `insert` mark is an offset.
  - Insertions and deletions move tags and the mark the way Tk does
    (`buffer.dfy`, module `Buffer`).
- **Editing helpers and the dirty flag** (`Editor.CodeText`):
  - `_tab`, `_enter` (auto-indent, plus one more tab after a colon) and
    `_undo_tab`.
  - `keypress` and the keys that trigger highlighting.
  - `reset`, `save_file`, `save_file_as` and `new_file`, with their effect on
    `had_edit`.
  - `set_title` and the title string.
  - The module globals `file` and the root window title are fields of the
    class.
- **HTML export** (`html.dfy`, module `HtmlExport`):
  - `to_html` wraps the text in NUL sentinels and escapes it like
    `html.escape`.
  - For each category, pattern and `\Wp\W` match of the raw text, it splices
    a colour span into the first occurrence of the escaped match.
  - The loop at line 141 re-searches a one-character string, so each match
    causes at most one splice. The model does exactly that.

Patterns are matched as literal strings, both by the Tk search and by
`re.findall`. The keywords, types and builtins are literal words; the other
patterns are treated like any literal (see "Left out").

Two things the code does not do:

- There is no debounce or cancellation. `markup` runs directly on every
  qualifying key.
- `to_html` has no string-literal exclusion.

Two behaviours of `to_html` follow from the code as written and are proved:

- `EntitySplit`: a match whose first character `html.escape` turns into an
  entity (`&`, `<`, `>`, `"` or `'`) gets its span opened right after the
  entity's `&`. The rest of the entity lies inside the span, so the entity is
  broken in the exported HTML.
- `SentinelsKept`: the NUL sentinels are never stripped.

## Model

| member | source | states |
|---|---|---|
| Patterns.CategoryNamed | editor.py:53-55 | `k in MARKUP`. The result names category `c` exactly when `k` is `c`'s key. |
| Patterns.PackagePatterns | editor.py:56-58 | One pattern per package name, in order. Each is the name followed by `\.\w+`. |
| Patterns.Color | editor.py:33-40 | Definition: the colour of each category, as in `COLORS`. |
| Patterns.BASE_MARKUP | editor.py:24-32 | Definition: the literal table. `BaseTotal` and `HeaderHasUpperDef` use it. |
| Patterns.Merged | editor.py:53-58 | The merged table has the same categories. `MergeKeepsOriginal`, `MergeUntouched`, `MergeAppendsOwnList`, `MergePackage`, `MergeIgnoresUnknown` and `MergeEmpty` describe its lists. |
| Patterns.MergeKeepsOriginal | editor.py:53-58 | After the merge, every category list still begins with its original entries. |
| Patterns.MergeUntouched | editor.py:53-58 | A category the configuration does not name keeps its list, unless it is `builtin` and there are packages. |
| Patterns.MergeAppendsOwnList | editor.py:53-55 | A named category's list begins with its original entries followed directly by the configured list. |
| Patterns.MergePackage | editor.py:56-58 | Every package `v` contributes `v + '\.\w+'` to `builtin`. `builtin` grows by exactly its own list plus one entry per package. |
| Patterns.MergeIgnoresUnknown | editor.py:53-55 | A configuration key that is neither a category nor `package` changes nothing. |
| Patterns.MergeEmpty | editor.py:42-52 | No file, or a file that failed to parse (`add = {}`), leaves the table as written. |
| Patterns.UpperAll | editor.py:62 | The upper-cased copy has the same length, and entry `i` is `Upper` of entry `i`. |
| Patterns.Duplicated | editor.py:61-62 | The duplicated table has the same categories. `DuplicatedShape` and `UpperCopyPresent` describe its lists. |
| Patterns.DuplicatedShape | editor.py:61-62 | After duplication, each list is twice as long, its front half is the old list, and its back half is the upper-cased old list in the same order. |
| Patterns.UpperCopyPresent | editor.py:61-62 | Every pattern and its upper-cased form end up in the same category. |
| Patterns.StartupTable | editor.py:24-62 | The start-up table has a list for every category. |
| Patterns.HeaderHasUpperDef | editor.py:28-62 | Whatever the configuration holds, `header` contains `DEF`. |
| Patterns.PatternTable.constructor | editor.py:24-32 | The table starts as the literal `MARKUP`. |
| Patterns.PatternTable.Load | editor.py:53-58 | The in-place merge loops over the configuration, then over the packages. They leave exactly `Merged(old table, config)` whatever order the keys are visited in. |
| Patterns.PatternTable.DuplicateUpper | editor.py:61-62 | The in-place `extend` of every list with its upper-cased copy leaves exactly `Duplicated(old table)`. |
| Chars.AsciiLetters | editor.py:119 | `string.ascii_letters` has 52 characters. |
| Chars.AsciiLettersExact | editor.py:119 | A character is in `string.ascii_letters` exactly when it is an ASCII letter. |
| Chars.PyInChar | editor.py:119 | Python's `in` on a one-character string is membership of that character. |
| Chars.PyInLetters | editor.py:119 | A string of at most one character is "in" `ascii_letters` exactly when it is empty or an ASCII letter. |
| Chars.UpperChar | editor.py:62 | ASCII `str.upper` on one character: the result is never a lower-case ASCII letter and is an ASCII letter exactly when the input is. ASCII capitals and every other character are left as they are. |
| Chars.LowerChar | editor.py:99 | ASCII `str.lower` on one character (Tk keysyms are ASCII names): the mirror image of `UpperChar`. |
| Chars.Upper | editor.py:62 | ASCII `str.upper` maps each character by `UpperChar` and keeps the length. |
| Chars.Lower | editor.py:99 | ASCII `str.lower` (Tk keysyms are ASCII names) maps each character by `LowerChar` and keeps the length. |
| Chars.AsciiCasePairs | editor.py:62 | Upper-casing the `i`-th lower-case letter of `string.ascii_letters` gives the `i`-th upper-case one, and lower-casing gives it back. Capitals stay capitals under `UpperChar`, and small letters stay under `LowerChar`. |
| Chars.UpperIdempotent | editor.py:62 | Upper-casing twice is upper-casing once. |
| Tagging.MatchAt | editor.py:115 | Definition: the pattern, then one character that is not a word character, inside the buffer. `SearchSpec` states the search in its terms. |
| Tagging.Search | editor.py:115 | A search result lies at or after `from` and leaves room for the pattern and its boundary character. |
| Tagging.SearchSpec | editor.py:115 | The search returns the first match at or after `from`, and returns nothing exactly when there is none. |
| Tagging.StartNeedsOwnClause | editor.py:119 | At the buffer start the preceding text is empty, and the empty string is "in" `ascii_letters`. Without the `start == '1.0'` clause, a match there would never be tagged. |
| Tagging.AcceptedAsWritten | editor.py:119 | Definition: the test of line 119 as written. `AcceptanceRule` proves it equal to `Accepted`. |
| Tagging.AcceptanceRule | editor.py:119 | The test as written holds exactly when the match starts the buffer or its preceding character is not an ASCII letter. |
| Tagging.Range | editor.py:120 | `tag_add(tag, a, b)` covers exactly the offsets `a <= k < b`. |
| Tagging.StepAsWritten | editor.py:115-118 | Definition: one turn of the loop with the guard `count.get() == 0`. `AsWrittenStopsOnlyAtEnd` and `EmptyPatternStalls` describe it. |
| Tagging.AsWrittenStopsOnlyAtEnd | editor.py:115-118 | The loop as written returns exactly when the search fails. |
| Tagging.EmptyPatternStalls | editor.py:116-118 | With the empty pattern, the loop as written finds the same match again and stays at the same offset. |
| Tagging.Step | editor.py:116-118 | With the corrected guard, the next search offset is strictly greater than the previous one and inside the buffer. |
| Tagging.StepAgrees | editor.py:116-118 | For every non-empty pattern the corrected turn equals the turn as written. |
| Tagging.ScanTags | editor.py:112-120 | Definition: the offsets the scan tags from `from`. `ScanTagsStep`, `ScanTagsExact` and `MarkupOne` describe it. |
| Tagging.ScanTagsStep | editor.py:112-120 | The offsets tagged from `from` are those of the first match (if accepted) plus those tagged from its boundary character on. |
| Tagging.MatchesDisjoint | editor.py:109-118 | Two matches of a word pattern never overlap. |
| Tagging.ScanTagsExact | editor.py:112-120 | For a word pattern, an offset is tagged exactly when it lies inside an accepted match. No match is skipped by restarting at the boundary character. |
| Tagging.PatternsTags | editor.py:106-109 | Definition: the union of the scans of a category's patterns. `PatternsTagsMember`, `PatternTagged` and `PatternsTagsExact` describe it. |
| Tagging.PatternsTagsMember | editor.py:106-109 | A category's tag holds an offset exactly when the scan of one of its patterns tags it. |
| Tagging.PatternTagged | editor.py:106-120 | Every accepted match of a word pattern of a category is tagged with that category, whatever the category's other patterns are. |
| Tagging.PatternsTagsExact | editor.py:106-109 | When all of a category's patterns are word patterns, its tagged offsets are exactly the union of the accepted matches of its patterns. |
| Editor.Characters | editor.py:99 | `list(s)` gives one one-character string per character, in order. |
| Editor.CharactersMember | editor.py:99 | A string is in `list(t)` exactly when it is one character of `t`. |
| Editor.LetterKey | editor.py:99 | A keysym's lower case is one of `list(ascii_letters)` exactly when it is a single ASCII letter. |
| Editor.Listed | editor.py:99 | Definition: the guard of `keypress` as written. `QualifyingKeys` characterises it. |
| Editor.QualifyingKeys | editor.py:99 | The guard of `keypress` accepts exactly: no event, a single letter of either case, or `tab`, `backspace`, `"`, `)`, `(` or `space` in any case. |
| Editor.AfterLast | editor.py:85 | `split(sep)[-1]` is never longer than the string. |
| Editor.AfterLastSpec | editor.py:85 | `split(sep)[-1]` is a suffix free of `sep`. It is either the whole string or preceded by `sep`. |
| Editor.IndentWidth | editor.py:86 | `len(line) - len(line.lstrip())` is at most the line length. |
| Editor.IndentWidthSpec | editor.py:86 | That many leading characters are whitespace in the sense of `str.isspace` (Unicode spaces such as U+00A0 included), and the next one is not. |
| Editor.NoBreakSpaceIndent | editor.py:85-88 | A line `"\u00a0if:"` counts one character of indentation, so `_enter` inserts a newline and 1 + 4 spaces. |
| Editor.Spaces | editor.py:86 | `' ' * n` has length `n`. |
| Editor.SpacesSpec | editor.py:86 | `' ' * n` is made of spaces only. |
| Editor.CurrentLine | editor.py:85 | Definition: the text of the cursor's line before the cursor, via `AfterLast`. `AfterLastSpec` describes it. |
| Editor.AutoIndent | editor.py:85-88 | Definition: everything `_enter` inserts. `AutoIndentShape` and `NoBreakSpaceIndent` describe it. |
| Editor.AutoIndentShape | editor.py:85-88 | What `_enter` inserts is a newline followed only by spaces. There are as many as the line's leading whitespace, plus four after a colon. |
| Editor.Title | editor.py:200-205 | Definition: the title `set_title` shows. `TitleMarksEdit` describes it. |
| Editor.TitleMarksEdit | editor.py:200-205 | An edit prefixes the title with `* `. A file's title ends in `' - '` plus the path. Without a file the title is `New File`. |
| Editor.AllTags | editor.py:105-109 | The highlighting gives every category of the table a tag. |
| Editor.WordTagged | editor.py:105-120 | After `markup`, every accepted match of a word pattern in a category's list carries that category's tag. |
| Editor.UpperDefTagged | editor.py:105-120 | Whatever the configuration (line 62 always adds `DEF` to `header`), after `markup` with the start-up table an accepted `DEF` carries the `header` tag. |
| Editor.CodeText.constructor | editor.py:68-70 | A fresh widget: an empty buffer, no tags, not edited, no file, and the title `New File` (lines 256-258). |
| Editor.CodeText.SetTitle | editor.py:200-205 | The window title becomes `Title(file, had_edit)`. |
| Editor.CodeText.MarkupOne | editor.py:112-120 | The scan loop adds to the category's tag exactly `ScanTags(text, p, 0)` and changes no other tag. The loop uses the corrected guard. |
| Editor.CodeText.Markup | editor.py:105-109 | Afterwards the tags are `AllTags(text, table)`, whatever they were before. So running `markup` twice on an unchanged buffer changes nothing. |
| Editor.CodeText.Keypress | editor.py:98-103 | A qualifying key marks the buffer edited and re-highlights it. The title changes only on the first edit. Any other key changes nothing. |
| Editor.CodeText.InsertAtCursor | editor.py:80 | `insert('insert', s)` puts `s` before the cursor and moves the cursor past it. Tags shift by Tk's insertion rule, and the final newline stays. |
| Editor.CodeText.Delete | editor.py:95 | `delete(from, to)` removes the range, moves the mark and the tags by Tk's deletion rule, and keeps the final newline. |
| Editor.CodeText.Tab | editor.py:78-81 | `_tab` re-highlights, then inserts four spaces at the cursor. The cursor moves by four and the buffer is marked edited. |
| Editor.CodeText.Enter | editor.py:83-90 | `_enter` inserts `AutoIndent` of the current line's text before the cursor. The new tags follow its one or two highlightings. |
| Editor.CodeText.UndoTab | editor.py:92-96 | When the four characters before the cursor are four spaces, they are deleted after a highlighting. Otherwise nothing at all changes. |
| Editor.CodeText.Reset | editor.py:122-125 | The buffer is emptied down to its final newline, the cursor goes to 0, the tags follow Tk's deletion rule, the flag is cleared and the title refreshed. |
| Editor.CodeText.SaveFile | editor.py:161-168 | With a file, the whole buffer is written and the flag cleared. Without one, nothing changes. |
| Editor.CodeText.SaveFileAs | editor.py:170-177 | An empty name changes nothing. Any other name becomes the file and is saved. |
| Editor.CodeText.NewFile | editor.py:195-198 | No file, an empty buffer, not edited, and the title `New File`. The tags are those `reset`'s deletion leaves. |
| Editor.TabRoundTrip | editor.py:78-96 | Right after `_tab`, the four characters before the cursor are four spaces. Deleting them, as `_undo_tab` does, restores the buffer. |
| Buffer.InsertAt | editor.py:80 | An insertion lengthens the buffer by the inserted text. |
| Buffer.InsertAtChars | editor.py:80 | After an insertion, every character is where Tk puts it. |
| Buffer.DeleteAt | editor.py:95 | A deletion shortens the buffer by the deleted range. |
| Buffer.DeleteAtChars | editor.py:95 | After a deletion, every remaining character is where Tk puts it. |
| Buffer.DeleteInserted | editor.py:93-95 | Deleting what was just inserted restores the buffer. |
| Buffer.InsertTwice | editor.py:86-88 | The indentation followed by the `_tab` insertion is one insertion of both. |
| Buffer.ShiftInsert | editor.py:80 | Definition: one tag's offsets after Tk inserts `n` characters. `ShiftInsertMembers` and `ShiftRoundTrip` describe it. |
| Buffer.ShiftInsertMembers | editor.py:80 | On an insertion, earlier offsets keep a tag and later ones move up. The new characters carry a tag only when both of their neighbours do. |
| Buffer.ShiftDelete | editor.py:95 | Definition: one tag's offsets after Tk deletes a range. `ShiftDeleteMembers` and `ShiftRoundTrip` describe it. |
| Buffer.ShiftDeleteMembers | editor.py:95 | On a deletion, the deleted offsets lose every tag and later ones move down. |
| Buffer.ShiftRoundTrip | editor.py:93-95 | Deleting inserted characters gives one tag its old offsets back. |
| Buffer.TagsRoundTrip | editor.py:93-95 | Deleting inserted characters gives every tag its old offsets back. |
| Buffer.MarkAfterDelete | editor.py:95 | A mark before the range stays, a mark inside it goes to its start, and a later mark moves down by the range length. |
| Buffer.TextBefore | editor.py:93 | `get('insert-4c', 'insert')` is the (at most) four characters before the cursor, fewer at the buffer start. |
| Buffer.InsertedIsBefore | editor.py:93 | Right after an insertion, the inserted text is what lies before the moved cursor. |
| HtmlExport.EscapeChar | editor.py:130 | Definition: `html.escape` of one character, with `quote=True`. `UnescapeChar`, `EscapeRoundTrip` and `EscapeNoMarkup` describe it. |
| HtmlExport.Escape | editor.py:130 | `html.escape` never shortens the text. |
| HtmlExport.EscapeRoundTrip | editor.py:130 | Unescaping the five entities restores the text, so escaping loses nothing. |
| HtmlExport.EscapeNoMarkup | editor.py:130 | Escaped text contains no `<`, `>`, `"` or `'`. |
| HtmlExport.EscapeConcat | editor.py:130 | Escaping distributes over concatenation. |
| HtmlExport.EscapeSentinel | editor.py:129-130 | Escaping the wrapped text is the escaped text between two NULs. |
| HtmlExport.FindFrom | editor.py:137 | `str.find` returns -1 or an offset where the needle occurs. |
| HtmlExport.FindFromFirst | editor.py:137 | `str.find` returns -1 exactly when there is no occurrence, and otherwise returns the first one. |
| HtmlExport.SingleCharFind | editor.py:141 | Searching a one-character string for an escaped match (two or more characters) always gives -1. |
| HtmlExport.FindAll | editor.py:134 | Every match of `\Wp\W` is two characters longer than the pattern. |
| HtmlExport.FindAllShape | editor.py:134 | Every match is the pattern between two non-word characters. |
| HtmlExport.FindAllNone | editor.py:134 | `findall` finds nothing exactly when the pattern has no bounded occurrence. |
| HtmlExport.Splice | editor.py:138-140 | Definition: the reassignment of `out` at one occurrence. `SpliceFrame` and `EntitySplit` describe it. |
| HtmlExport.SpliceOnce | editor.py:136-141 | Definition: one match's splice, or none when it does not occur. `SpliceOnceEnds` and `SpliceMatch` describe it. |
| HtmlExport.SpliceFrame | editor.py:138-140 | A splice keeps everything before and after the occurrence. It keeps the first and last characters of the match around the span, and grows the text by the span tags' length. |
| HtmlExport.EntitySplit | editor.py:135-140 | For every match whose first character `html.escape` turns into an entity, and every place the escaped match occurs: the splice writes `&`, then the span's opening tag, then the rest of the entity. |
| HtmlExport.SpliceOnceEnds | editor.py:137-141 | One splice, or none, never shortens the text and keeps its first and last character. |
| HtmlExport.Document | editor.py:128-142 | Definition: the result of `to_html`. `ToHtml`, `NoMatchExport` and `SentinelsKept` describe it. |
| HtmlExport.ToHtml | editor.py:128-142 | The nested loops produce exactly `Document(text, table)`. |
| HtmlExport.ExportCategory | editor.py:132-141 | The loop over one category's patterns applies `ExportFinds` for each pattern's matches in order. |
| HtmlExport.ExportMatches | editor.py:134-141 | The loop over one pattern's matches applies at most one splice per match, in order. |
| HtmlExport.SpliceMatch | editor.py:137-141 | The `while` loop splices the first occurrence, if any, and then stops, because its next search is in one character. |
| HtmlExport.NoMatchExport | editor.py:129-142 | Without any match, the export is the code shell around the escaped text between its two NULs. |
| HtmlExport.CategoriesKeepFrame | editor.py:132-141 | No number of splices removes the leading or trailing NUL. |
| HtmlExport.SentinelsKept | editor.py:129-142 | The exported code begins and ends with a NUL inside the code shell. |

## Left out

- The tkinter shell is not modelled: widget creation, `tag_config`, key
  bindings, menus, layout, `mainloop` and the `insert(char)` menu helper
  (lines 65-76, 221-265). The redirection of `stderr` (lines 21-22) is also
  out. These are GUI wiring and I/O.
- Reading `editor_markup.json` and the error box on bad JSON (lines 42-52) are
  out. `Load` takes the parsed object. A missing file, or one that is not
  valid JSON, is the empty configuration (`MergeEmpty`).
- Start-up failures are not modelled. Only `FileNotFoundError` (line 44) and
  `json.JSONDecodeError` (line 49) are caught. A file that is not valid UTF-8
  makes `json.load` raise `UnicodeDecodeError`, and an unreadable path raises
  `PermissionError` or `IsADirectoryError` at line 43. Both stop start-up.
- Patterns.PatternTable.Load: every configuration value is taken to be a list
  of strings. Other JSON shapes are not modelled. A string value is extended
  one character at a time (`{"keyword": "wenn"}` adds `w`, `e`, `n`, `n`), and
  `{"package": "math"}` adds one `\.\w+` pattern per character. A number,
  `null` or a top level that is not an object raises at start-up.
- Opening files, the save dialogs, writing files, `export_as_html` and
  `on_close` (lines 145-198, 207-217) are I/O and message boxes. `SaveFile`
  returns the text it would write. `SaveFileAs` takes the name the dialog
  returned. `open_file` and `export_as_html` are not part of this model.
- The thread started per pattern in `markup` (line 109) is not modelled: the
  scans run one after the other and finish before `markup` returns. In the
  program `markup` returns before its threads finish. So `_tab`, `_enter` and
  `_undo_tab` (lines 79-80, 84-88, 94-95) insert or delete while the scans
  still read the live widget. A thread of an earlier pass can also `tag_add`
  after a later pass's `tag_remove`. The tag `ensures` of `CodeText.Keypress`,
  `Tab`, `Enter` and `UndoTab` hold only if every pass completes before the
  next edit.
- Regular-expression semantics are out for both Tk's `search` and Python's
  `re`. Patterns are literal strings, the appended `(\n|\W)` is one non-word
  character, and the non-literal entries (`@[a-z]+`, the string and comment
  patterns, `\.\w+`) are compared literally. The group semantics of
  `re.findall` are out too.
- Word characters are ASCII letters, digits and `_`. Python's and Tk's `\w`
  also accept other Unicode letters.
- Chars.Upper: only ASCII case mapping is modelled. Python's `str.upper` also
  maps other letters (`"für"` gives `"FÜR"`, where the model gives `"FüR"`),
  and some of them to several characters (`"ß"` gives `"SS"`). So for
  non-ASCII patterns in the configuration, the upper-cased copies of line 62
  differ from the model's.
- Chars.UpperChar: leaves every non-ASCII character unchanged, as the line
  above says. Python maps non-ASCII lower-case letters too.
- Tagging.PatternsTagsExact: requires every pattern of the category to be a
  word pattern. The start-up `header`, `string` and `comment` lists always hold
  other patterns, and so does `builtin` once a package is configured. For
  those categories, `PatternsTagsMember` and `PatternTagged` state what is
  tagged. The offsets a non-word pattern tags are characterised only by its
  scan (`ScanTags`, `ScanTagsStep`), not as "exactly its accepted matches".
- Tk indices (`'1.0'`, `+Nc`, `-1c`) are offsets into a flat string. The
  `-1c` at the buffer start returns the empty string (`Preceding`).
- The basename in `set_title` splits at `/` only. The `os.path.sep`
  rewriting in `save_file_as` is not modelled.
- `see('insert')` in `_enter` (scrolling) and the foreground colours of tags
  are display state and are not modelled. The widget's undo stack
  (`undo=True`, line 69) is not modelled either.
- Patterns.PatternTable.Load: Python visits the configuration in key order;
  the model visits the keys in any order. The result is the same because
  distinct keys name distinct categories.
- HtmlExport.ExportCategory: the body of the loop over `COLORS.items()` is one
  method, and the two inner loops are split off as `ExportMatches` and
  `SpliceMatch`. It is the same computation written as three methods.

## Findings

| source | as written | input that shows it | evidently intended | confidence | as-written member | corrected member |
|---|---|---|---|---|---|---|
| editor.py:116-118 | `markup_one` returns when `count.get() == 0`. Every match of `pattern + '(\n\|\W)'` is at least one character long, so that guard is never taken. With the empty pattern, `end` never moves and the loop never returns. | A configuration `{"keyword": [""]}`. Every buffer ends in a newline, so every `markup` starts a scan that never stops. | Stop when the match is only the boundary character (`count.get() <= 1`), which ends the scan for the empty pattern. For every other pattern this is the loop as written. | not executed | Tagging.StepAsWritten | Tagging.Step |

`Tagging.EmptyPatternStalls` shows the stall of the as-written loop.
`Tagging.StepAgrees` proves that the corrected guard changes nothing for a
non-empty pattern. `Editor.CodeText.MarkupOne` uses the corrected guard.
