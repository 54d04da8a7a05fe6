# note_editor in Dafny

The note editor keeps a list of reading and viewing notes. Each note is a
record of nine text fields: title, author, year, subtitle, media type,
episode, link, a one-liner, and free-text notes. The editor writes the list
to a notes file after every change and keeps the previous file as a backup.
It can also lay the list out as a small PDF booklet: a table of contents
whose title column and author column are sorted independently, then one
page per note.

This model covers the logic behind those features:

- `notes.dfy` (module `Notes`) models the category schema.
  - The `NoteManager` class keeps the note list and the contents of the two
    files. It models `add_note`, `remove_note`, `update_note`, `dump`, `load`
    and `new_empty_note`.
  - It also lifts the logic of the note window out of the widgets: the
    emptiness scan and save decision of `save_note`, and `delete_note`.
  - It models the label truncation `set_char` of the selection window.
- `tabs.dfy` (module `TabExpansion`) models `format_str`. Each tab becomes the
  spaces that reach the next multiple of 8 columns, line by line.
- `pdf_maker.dfy` (module `PdfMaker`) models the booklet's content.
  - ReportLab flowables become a datatype: `Para`, `Rule`, `Space`, `Pre`,
    `Table` and `PageBreak`.
  - It models `add_page`, `make_first_page` and `make_pdf`.
- `strings.dfy` (module `Strings`) restates the Python string operations the
  code relies on, over `seq<char>`:
  - `str.find` and `str.replace(c, w, 1)`;
  - `splitlines` and `'\n'.join`;
  - `str(n)`;
  - ASCII `casefold` and `capitalize`;
  - the `<` order on strings.
- `sorting.dfy` (module `Sorting`) models `sorted(..., key=...)` as a stable
  insertion sort.
- `wrappers.dfy` holds an `Option` type.

The notes file and its backup are modelled by what they hold: `None` when
the file does not exist, otherwise the list of notes written to it. The CSV
text itself is not modelled.

## Model

| member | source | states |
|---|---|---|
| `Notes.SchemaShape` | note_editor/notes_class.py:8-21 | The title category comes first. The notes category comes last and is multi-line text. Category names are distinct. The media type is the only combo box, and only a combo box carries a list of values. |
| `Notes.ConformsFields` | note_editor/notes_class.py:11-21 | A note that has a value for every category has all nine fields that the PDF generator reads. |
| `Notes.IndexOf` | note_editor/notes_class.py:153 | `values.index(v)` gives `None` exactly when `v` is absent, where Python raises `ValueError`. Otherwise it gives the first position holding `v`. |
| `Notes.NonBlankCharMakesNonEmpty` | note_editor/notes_class.py:195-204 | One character other than space, newline or tab, in any field, makes the note non-empty. |
| `Notes.CheckEmpty` | note_editor/notes_class.py:195-204 | The flag scan, with its inner character loop and `break`. The result is true exactly when every character of every field is a space, a newline or a tab. |
| `Notes.Removed` | note_editor/notes_class.py:63 | `list.pop(i)` keeps the entries before `i` and shifts the entries after `i` down by one. Its length is one less. As a multiset, it loses exactly one copy of the removed note. |
| `Notes.Updated` | note_editor/notes_class.py:66-70 | Remove, then append: the length is unchanged. The edited note is last, and the other entries are those `Removed` leaves, in order. |
| `Notes.NoteManager.constructor` | note_editor/notes_class.py:28-33 | The manager starts from the files on disk and loads the notes file, if there is one. The list then equals what the file holds, and the file and the list agree. |
| `Notes.NoteManager.Load` | note_editor/notes_class.py:35-40 | Appends every row of an existing notes file to the list, in file order. With no file, it changes nothing. |
| `Notes.NoteManager.Dump` | note_editor/notes_class.py:42-54 | The notes file holds the list afterwards. An existing file becomes the backup. Without a previous file, the backup is untouched. |
| `Notes.NoteManager.AddNote` | note_editor/notes_class.py:56-59 | The note is appended after all earlier entries, which are unchanged, and then the list is written. The schema invariant is kept. |
| `Notes.NoteManager.RemoveNote` | note_editor/notes_class.py:61-64 | The list becomes `Removed(list, i)`, and then the list is written. The schema invariant is kept. |
| `Notes.NoteManager.UpdateNote` | note_editor/notes_class.py:66-70 | The list becomes `Updated(list, note, i)`. After the three writes, the notes file and the backup both hold the new list. |
| `Notes.NoteManager.NewEmptyNote` | note_editor/notes_class.py:72-74 | Every category of the schema and nothing else is mapped to `""`. The note conforms to the schema and counts as empty. |
| `Notes.EmptyNoteMediaSelectable` | note_editor/notes_class.py:8 | The media type of a new note, `""`, is found in the combo's values at the last position, so pre-selecting it succeeds. |
| `Notes.SaveNote` | note_editor/notes_class.py:192-218 | Four outcomes. An existing note that was emptied is removed, and an edited one is updated. A new non-empty note is added. A new empty note leaves the list and both files untouched. The schema invariant is kept. |
| `Notes.DeleteNote` | note_editor/notes_class.py:220-224 | An existing note is removed and the list is written. For a note that was never saved, nothing changes. |
| `Notes.SetChar` | note_editor/notes_class.py:356-361 | The result is the prefix of the field of length min(\|s\|, 15). A field of at most 15 characters is returned unchanged. |
| `Strings.Find` | note_editor/pdf_maker.py:117-118 | `line.find('\t')` gives -1 exactly when there is no tab. Otherwise it gives the position of the first tab. |
| `Strings.ReplaceFirst` | note_editor/pdf_maker.py:120 | `replace('\t', w, 1)` swaps the first tab for `w` and keeps everything else. A text without a tab is returned as it is. |
| `Strings.Spaces` | note_editor/pdf_maker.py:119 | The joined list holds exactly `n` characters, all of them spaces. |
| `Strings.SplitLines` | note_editor/pdf_maker.py:112 | `text.splitlines()`, breaking at `'\n'`: the pieces between newlines, with no empty piece after a final newline. Its properties are stated by the three lemmas below. |
| `Strings.Join` | note_editor/pdf_maker.py:123 | `'\n'.join(lines)`: the lines with one newline between each two. Its properties are stated by `JoinSplitLines`, `SplitLinesJoin` and `JoinContains`. |
| `Strings.SplitLinesNoNewline` | note_editor/pdf_maker.py:112 | No line produced by `splitlines` holds a newline. |
| `Strings.JoinSplitLines` | note_editor/pdf_maker.py:112-123 | Splitting into lines and joining them with `'\n'` gives the text back, less a final newline. |
| `Strings.SplitLinesJoin` | note_editor/pdf_maker.py:112-123 | Lines without newlines, the last one not empty, come back from `splitlines` after being joined. |
| `Strings.JoinContains` | note_editor/pdf_maker.py:123 | A character other than a newline is in the joined text exactly when it is in one of the lines. |
| `Strings.NatToString` | note_editor/pdf_maker.py:53 | `str(number)` is a non-empty string of decimal digits. |
| `Strings.ParseNatToString` | note_editor/pdf_maker.py:53 | Reading the digits of `str(n)` back gives `n`. |
| `Strings.NatToStringInjective` | note_editor/pdf_maker.py:143 | Different positions have different decimal names, so the anchors `anchor_0`, `anchor_1`, ... are all distinct. |
| `Strings.CaseFold` | note_editor/pdf_maker.py:146 | `casefold` keeps the length and lowers every ASCII capital letter. |
| `Strings.Capitalize` | note_editor/pdf_maker.py:146 | `capitalize` keeps the length, upper-cases the first character and lower-cases the rest. |
| `Strings.Less` | note_editor/pdf_maker.py:147 | Python's `<` on strings: code-point order, character by character, a proper prefix first. The four lemmas below show it is a strict total order. |
| `Strings.LessIrreflexive` | note_editor/pdf_maker.py:147 | No string sorts before itself. |
| `Strings.LessAsymmetric` | note_editor/pdf_maker.py:147 | Two strings never sort before each other. |
| `Strings.LessTransitive` | note_editor/pdf_maker.py:147 | The string order used as a sort key is transitive. |
| `Strings.LessTotal` | note_editor/pdf_maker.py:147 | Of two different strings, one sorts before the other. |
| `Sorting.SortByKey` | note_editor/pdf_maker.py:147 | `sorted` returns a permutation of its input. |
| `Sorting.SortOrdered` | note_editor/pdf_maker.py:147 | For a list given in position order, the sort is ordered by key, and equal keys keep their input order. |
| `Sorting.SortStable` | note_editor/pdf_maker.py:152 | Two entries with equal keys stay in their input order (stability). |
| `Sorting.OrderedUnique` | note_editor/pdf_maker.py:147 | Two strictly ordered arrangements of the same items are the same list. |
| `Sorting.SortByKeyIsTheStableSort` | note_editor/pdf_maker.py:147 | Any ordered permutation of the input is exactly `SortByKey`'s result, so the model fixes Python's output uniquely. |
| `TabExpansion.TabWidth` | note_editor/pdf_maker.py:119 | A tab at column `p` becomes `8 - p % 8` spaces. That is 1 to 8 spaces, and the text goes on at a multiple of 8. |
| `TabExpansion.ExpandFromNoTab` | note_editor/pdf_maker.py:117-120 | An expanded line holds no tab. |
| `TabExpansion.ExpandFromKeeps` | note_editor/pdf_maker.py:117-120 | A character other than a space or a tab is in the expansion exactly when it is in the line. |
| `TabExpansion.ExpandFromTabFree` | note_editor/pdf_maker.py:117-120 | A line without a tab is left as it is. |
| `TabExpansion.ExpandFromEmpty` | note_editor/pdf_maker.py:117-120 | Only the empty line expands to the empty line. |
| `TabExpansion.ExpandFromTab` | note_editor/pdf_maker.py:118-120 | The first tab, after the tab-free text `u`, is replaced by the spaces that reach the next tab stop. The rest is expanded from that stop. |
| `TabExpansion.ExpandExampleShort` | note_editor/pdf_maker.py:118-120 | `"a\tb"` becomes `"a"`, 7 spaces, then `"b"`. |
| `TabExpansion.ExpandExampleAtStop` | note_editor/pdf_maker.py:118-120 | `"abcdefgh\ti"` becomes `"abcdefgh"`, 8 spaces, then `"i"`. |
| `TabExpansion.ReplaceFirstTabCount` | note_editor/pdf_maker.py:117-120 | Replacing the first tab with spaces leaves exactly one tab fewer, so each round of the `while` loop consumes one tab of the line. |
| `TabExpansion.ExpandLine` | note_editor/pdf_maker.py:117-120 | The `find`/`replace` loop on one line gives the reference tab expansion of the line. |
| `TabExpansion.ExpandedLines` | note_editor/pdf_maker.py:112-121 | There is one expanded line per line of the text. |
| `TabExpansion.FormatStr` | note_editor/pdf_maker.py:109-123 | `format_str`, with its loop over the lines, returns the expanded lines joined by `'\n'`. |
| `TabExpansion.FormattedHasNoTab` | note_editor/pdf_maker.py:109-123 | The output of `format_str` holds no tab. |
| `TabExpansion.FormattedTabFree` | note_editor/pdf_maker.py:109-123 | A text without tabs comes back unchanged, apart from a final newline. |
| `TabExpansion.FormattedLines` | note_editor/pdf_maker.py:112-123 | Line structure is kept when the text's last line is not empty: splitting the output then gives one expanded line per input line. An empty last line, as in `"a\n\n"`, is dropped by `splitlines` after the join. |
| `TabExpansion.VisibleExpandFrom` | note_editor/pdf_maker.py:117-120 | Dropping spaces and tabs from a line and from its expansion gives the same text. |
| `TabExpansion.FormattedVisible` | note_editor/pdf_maker.py:109-123 | Removing the spaces and tabs from the output recovers every other character of the text, in order, apart from a final newline. |
| `PdfMaker.ConformingIsPrintable` | note_editor/pdf_maker.py:53-87 | Notes that follow the schema have every field that `add_page` and `make_first_page` read. |
| `PdfMaker.AnchorTag` | note_editor/pdf_maker.py:53 | The anchor `<a name="anchor_<i>"/>` set in front of the title of note `i`. `AnchorTagUnique` shows that it names one position only. |
| `PdfMaker.LinkOpen` | note_editor/pdf_maker.py:143 | The link opening `<link href="#anchor_<i>" color="blue">` of the table-of-contents cell for note `i`. `LinkMatchesAnchor` ties it to `AnchorTag`. |
| `PdfMaker.AnchorTagUnique` | note_editor/pdf_maker.py:53-54 | A title paragraph opens with the anchor of exactly one position: `anchor(i) + t == anchor(j) + u` forces `i == j`. |
| `PdfMaker.LinkMatchesAnchor` | note_editor/pdf_maker.py:143 | A table-of-contents link and a page anchor with the same number name the same target, `anchor_<number>`. |
| `PdfMaker.Label` | note_editor/pdf_maker.py:146 | With the modelled ASCII case mapping, `casefold().capitalize()` keeps the length of the field. |
| `PdfMaker.AddPage` | note_editor/pdf_maker.py:42-93 | The appends of `add_page` build exactly the page of the note: the anchored title, the optional subtitle, the byline, the media line, the one-liner between two rules, the formatted notes, and a page break. |
| `PdfMaker.Page` | note_editor/pdf_maker.py:42-93 | The page of a note: the anchored title, the optional subtitle, then the body. Its shape is stated by `PageShape`, and `AddPage` is proved to build it. |
| `PdfMaker.PageShape` | note_editor/pdf_maker.py:53-92 | A page has 9 flowables, or 10 with a subtitle. The anchored title comes first, and a subtitle paragraph appears exactly when there is a subtitle. The byline and the rest of the body follow. The page ends with its only page break. |
| `PdfMaker.PageBreakOnce` | note_editor/pdf_maker.py:92 | Each page holds exactly one page break. |
| `PdfMaker.PageNotesExpanded` | note_editor/pdf_maker.py:87-89 | The preformatted block of a page holds no tab. For notes without tabs, it is the notes text itself, less a final newline. |
| `PdfMaker.MediaLine` | note_editor/pdf_maker.py:69-74 | The media type, then the episode part, then the link part. `MediaLineParts` states what each part contributes. |
| `PdfMaker.MediaLineParts` | note_editor/pdf_maker.py:69-74 | The media line is the bare media type exactly when there is neither an episode nor a link. A given episode follows the media type as `" - episode: " + episode`. A given link closes the line as an "External Resource" link to it. An empty episode or an empty link contributes nothing to the line. |
| `PdfMaker.Labels` | note_editor/pdf_maker.py:146 | There is one label per note. The author column uses the same function (line 151). |
| `PdfMaker.TocEntry` | note_editor/pdf_maker.py:143-148 | The cell for note `i`: `''.join((anchor, label + '</link>'))` as a body paragraph. `LinksResolve` states where it leads. |
| `PdfMaker.SortKeys` | note_editor/pdf_maker.py:143-147 | The sort input has one entry per note, in increasing position order. Entry `i` carries position `i` and the label of note `i` followed by the key suffix. With `AsWrittenSuffix` (`</link>`) this is the source's key; with `LabelOnly` it is the corrected key. |
| `PdfMaker.PermutedPositions` | note_editor/pdf_maker.py:147 | A permutation of the numbered entries lists each position `0..n-1` exactly once, each with its own key. |
| `PdfMaker.TocOrder` | note_editor/pdf_maker.py:146-148 | A column's order sorts the positions on their keys. It has `n` entries, each a valid position carrying its own label followed by the key suffix. |
| `PdfMaker.TocOrderSorted` | note_editor/pdf_maker.py:146-148 | For either key, the column lists every note exactly once. It is in key order, and equal keys keep list order. With `AsWrittenSuffix` this is the order the source computes. |
| `PdfMaker.TocOrderByLabel` | note_editor/pdf_maker.py:146-148 | The corrected column lists every note exactly once. It is in label order, and equal labels keep list order. |
| `PdfMaker.AsWrittenKeyInverts` | note_editor/pdf_maker.py:146 | If a label continues another with a character below `<`, the label sorts before that prefix once `</link>` is appended, although it sorts after it bare. |
| `PdfMaker.AsWrittenTocMisorders` | note_editor/pdf_maker.py:146-148 | For the titles "Dune" and "Dune 2", the source's column lists "Dune 2" first. The corrected column lists "Dune" first. |
| `PdfMaker.TocColumn` | note_editor/pdf_maker.py:146-153 | A column, title or author, has one cell per note, in the column's order for the given key. |
| `PdfMaker.Zip` | note_editor/pdf_maker.py:156 | `zip` pairs equal positions and stops at the shorter list. |
| `PdfMaker.TocTable` | note_editor/pdf_maker.py:156-158 | For either key, the table has the header row first, then `n` rows. Row `j + 1` pairs the `j`-th title cell with the `j`-th author cell. |
| `PdfMaker.MakeFirstPage` | note_editor/pdf_maker.py:126-167 | The first page has two heading paragraphs, the table, and a page break. With `AsWrittenSuffix` it is the page the source builds. |
| `PdfMaker.TableRows` | note_editor/pdf_maker.py:147-158 | For either key, row `j + 1` holds the `j`-th title cell and the `j`-th author cell. Each cell links to some note of the list. |
| `PdfMaker.PageList` | note_editor/pdf_maker.py:35-36 | There is one page per note, in list order, and page `i` is built from note `i` with number `i`. |
| `PdfMaker.Document` | note_editor/pdf_maker.py:31-36 | The first page followed by the concatenation of the pages of the notes. Its layout is stated by `PageInDocument` and `PageBreakCount`. |
| `PdfMaker.AddPages` | note_editor/pdf_maker.py:35-36 | The `enumerate` loop that extends the element list produces the concatenation of the pages, in list order. |
| `PdfMaker.MakePdf` | note_editor/pdf_maker.py:23-39 | The elements handed to the document are the first page followed by the pages of the notes. With `AsWrittenSuffix` these are the elements the source builds. |
| `PdfMaker.ConcatCount` | note_editor/pdf_maker.py:35-36 | Concatenating parts that each hold one page break gives as many page breaks as there are parts. |
| `PdfMaker.PageInDocument` | note_editor/pdf_maker.py:31-36 | For either key, the page of note `i` sits in the document right after the first page and the pages of the notes before `i`. |
| `PdfMaker.PageBreakCount` | note_editor/pdf_maker.py:31-36 | For either key, the document holds exactly one page break per note, plus one. |
| `PdfMaker.LinksResolve` | note_editor/pdf_maker.py:143 | For the source's key and the corrected one alike, cell `j` of the title or author column links to a position `i` of the list with `LinkOpen(i)`. The page of note `i` opens with the anchor of `i`, and no other page opens with that anchor, so every link has exactly one target. |

## Left out

- The Tkinter windows are not modelled: widget construction, focus handling, selection and scrolling, and the main window. The only logic lifted from them is the save decision, the delete action and `set_char`. `SaveNote` takes the note read from the window as a parameter.
- File I/O is not modelled: `os.path.exists`, `os.rename`, `open`, and the `csv` module's quoting. The notes file and its backup are the manager's `persisted` and `backup` fields, and the rename is a copy of one into the other. The file path and its construction are not part of the model.
- `Notes.NoteManager.constructor`, `Notes.NoteManager.Load`: reading the file back gives exactly the list that was written. The source reads with `csv.DictReader(..., skipinitialspace=True)`, and `csv.DictWriter` does not quote a field that starts with a space. So a field such as `" Herbert"` comes back as `"Herbert"` after a reload. This loss of leading spaces is not modelled.
- `Notes.SaveNote`: the note is a value. In the source, the window edits the list entry itself: it keeps `list[note_number]` (notes_class.py line 107) and writes the widget values into it (line 197) before `remove_note` or `update_note` runs. The model matches the source only while that position still holds the note the window loaded. With two edit windows open, saving one can move the other's note, and the source then writes into a different entry. That aliasing is not modelled.
- `Notes.NoteManager.Dump`: the file always ends up holding the list. `csv.DictWriter` behaves otherwise in two cases, and neither is modelled. A key outside the schema makes `writerows` raise `ValueError` after the rename, which leaves a notes file holding only the header and the rows before that note. A missing schema key is written as `''`. Notes made by `NewEmptyNote` and read from the window have exactly the schema's keys.
- ReportLab rendering is not part of the model: `SimpleDocTemplate`, `multiBuild`, fonts, the `Drawing` line, the `Spacer` height, `TableStyle`, column widths and page size arithmetic. Flowables are plain values, and a style is reduced to its sample-sheet name and font size.
- `make_style` is not modelled. Its `bold` flag sets the same font on both branches, so it has no effect.
- The `maxLineLength=50` argument of `Preformatted` is not modelled. Wrapping is left to the renderer.
- The configuration file handling and the save-as dialog are not modelled.
- `Strings.CaseFold`, `Strings.Capitalize`, `PdfMaker.Label`: the case mapping covers ASCII letters only. Python's full Unicode case mapping, such as `ß` to `ss`, can change the length, and is not modelled.
- `Strings.SplitLines`: only `'\n'` ends a line. Python's `splitlines` also breaks at `\r`, `\v`, `\f`, `\x1c`-`\x1e`, `\x85`, `\u2028` and `\u2029`.
- `PdfMaker.AddPage`, `PdfMaker.MakeFirstPage`, `PdfMaker.MakePdf`: they require every field they read to be present in the note (`Printable`). A note missing one of them makes the source raise `KeyError`, and that path is not modelled. Notes that follow the schema always qualify (`PdfMaker.ConformingIsPrintable`).
- `PdfMaker.MakePdf`: the model computes the pages of the notes in `AddPages` and places the first page in front of them. The source starts from the first page and extends that list note by note. The resulting list is the same.
- `PdfMaker.MakePdf`: it takes the column key as a parameter. `AsWrittenSuffix` gives the source's document and `LabelOnly` the document with the corrected column order (see Findings). Every lemma about the first page and the document holds for both keys.
- `Notes.NoteManager.RemoveNote`, `Notes.NoteManager.UpdateNote`, `Notes.SaveNote`, `Notes.DeleteNote`: they require the position to be in range. `list.pop` raises `IndexError` otherwise, and that path is not modelled. The selection window only offers positions of the list.

## Findings

| source | as written | input that shows it | evidently intended | confidence | as-written member | corrected member |
|---|---|---|---|---|---|---|
| note_editor/pdf_maker.py:146-147 | The title column is sorted on `label + '</link>'`, and the author column (lines 151-152) the same way. Since `<` sorts after space, digits and most punctuation, a label that continues another with such a character is listed before it. | titles "Dune" and "Dune 2": the column lists "Dune 2" first | sort on the label alone, giving "Dune" before "Dune 2" | medium (not executed) | `PdfMaker.AsWrittenTocMisorders` | `PdfMaker.TocOrderByLabel` |
