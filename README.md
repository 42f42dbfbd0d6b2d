# Nexus File Intelligence: search and preview core

This is a Dafny model of the logic inside `Busca_Documento.py`, a desktop tool
for finding files by name. The user ticks folders in a fixed registry and types
a term. The tool then does the following:

- It walks every chosen folder.
- It keeps each file whose name contains the term, ignoring case.
- It scores each kept file by how often the term occurs in its name.
- It shows the rows in a table, most relevant first, with ties kept in the
  order the walk met them.

A selected row can be previewed. The kind of preview depends on the suffix of
its lower-cased path: image, PDF, Word, Excel or unsupported. Word and Excel
previews show the extracted text, joined with line breaks and commas.

The model has these modules:

- `Strings` holds the Python `str` operations the program relies on: `strip`,
  `lower`, `in`, `count`, `endswith`, `join`, and `split` as the inverse of
  `join`. `count` is tied to a non-overlapping set of occurrences that is as
  large as possible.
- `Paths` holds `os.path.join`, `basename` and `splitext` in their POSIX form.
- `Search` holds the folder registry and the checks `start_search` makes. It
  also holds the worker `search_files` and the scoring in
  `calculate_relevance`. The worker loop is imperative, over a walk given as
  input, and is proved equal to a functional specification. Lemmas state the
  filter, the score, walk order and path construction.
- `Ranking` holds the sort in `update_results`, defined as a stable insertion
  sort on relevance, highest first. It is proved sorted, a permutation, and
  stable. It is also proved to be the only arrangement with those properties,
  so every stable sort, Python's included, yields it.
- `Preview` holds the suffix dispatch of `preview_file` and the text
  assembled by `preview_docx` and `preview_xlsx`. The decoding libraries are
  inputs.
- `App` holds the application object as a class. It has the check boxes, the
  result table, the preview label and the message boxes raised. Its handlers
  are methods: `start_search`, `update_results`, the table clearing, and
  `preview_file`.

Where the code and its prose description differ, the model follows the code:

- Relevance is Python's `str.count`, which counts non-overlapping occurrences.
  It does not count overlapping matches. For every result it is at least 1,
  not merely non-negative.
- Ties in relevance keep encounter order, because `list.sort` is stable even
  with `reverse=True`.

## Model

| member | source | states |
|---|---|---|
| Strings.Strip | Busca_Documento.py:98 | the stripped entry is no longer than the entry, neither starts nor ends with whitespace, and is empty exactly when the entry is all whitespace |
| Strings.StripRemovesSpaces | Busca_Documento.py:98 | stripping removes only whitespace: what is left is a stretch of the entry with only whitespace before and after it |
| Strings.Lower | Busca_Documento.py:121 | lower-casing keeps the length, maps each upper-case letter to its lower-case letter, leaves every other character alone and leaves no upper-case letter |
| Strings.ContainsIff | Busca_Documento.py:121 | the `in` test holds exactly when the term occurs at some position of the name |
| Strings.Contains | Busca_Documento.py:121 | the test behind `in`, trying each start position; its meaning is stated by Strings.ContainsIff |
| Strings.OccurrencesSound | Busca_Documento.py:130 | `count` is the number of a set of pairwise non-overlapping occurrences of the pattern |
| Strings.NonOverlappingBound | Busca_Documento.py:130 | no set of non-overlapping occurrences is larger than `count`, so `count` is the maximum |
| Strings.CountPositiveIff | Busca_Documento.py:121-130 | `count` is at least 1 exactly when the pattern is a substring |
| Strings.Count | Busca_Documento.py:130 | `str.count`, scanning left to right and skipping past each match; its meaning is stated by Strings.OccurrencesSound and Strings.NonOverlappingBound |
| Strings.SuffixesNest | Busca_Documento.py:189-195 | two suffixes of one string are suffixes of each other, the shorter ending the longer |
| Strings.JoinWithChars | Busca_Documento.py:217-227 | every character of a joined text comes from the separator or from one of the parts |
| Strings.JoinWith | Busca_Documento.py:217-227 | `sep.join(parts)`; what it produces is stated by Strings.JoinWithChars, Strings.SplitJoin and Strings.SplitJoinPadded |
| Strings.SplitJoin | Busca_Documento.py:217 | splitting a text joined with one character gives the parts back, when there is a part and no part holds that character |
| Strings.SplitJoinPadded | Busca_Documento.py:227 | splitting a text joined with a character and padding gives the first part, then each later part behind the padding |
| Paths.PathJoin | Busca_Documento.py:122 | the joined path ends with the file name and starts with the directory when the name is relative |
| Paths.BaseNameOfJoin | Busca_Documento.py:122 | the last component of `join(dir, file)` is the file name |
| Paths.Extension | Busca_Documento.py:124 | the extension ends the file name, starts with `.`, and holds no other `.` and no `/`, or it is empty |
| Paths.ExtensionExists | Busca_Documento.py:124 | there is an extension exactly when the last component has a dot with a character other than a dot before it |
| Search.DefaultRegistry | Busca_Documento.py:27-34 | the registry has six folders with distinct names, in insertion order |
| Search.SelectedPaths | Busca_Documento.py:103-105 | the list comprehension over the registry; its contract is stated by Search.SelectedPathsMembers, Search.SelectedPathsEmpty and Search.SelectedPathsAppend |
| Search.SelectedPathsMembers | Busca_Documento.py:103-105 | a path is selected exactly when a checked registry entry names it |
| Search.SelectedPathsEmpty | Busca_Documento.py:103-106 | nothing is selected exactly when no registry entry is checked |
| Search.SelectedPathsAppend | Busca_Documento.py:103-105 | selection follows registry order, part by part |
| Search.ValidateSearch | Busca_Documento.py:97-108 | an all-whitespace entry is refused first; then a request with no checked folder; otherwise the stripped, non-empty term goes with the selected folders, of which there is at least one |
| Search.Matches | Busca_Documento.py:121 | the filter holds exactly when the lower-cased term is a substring of the lower-cased file name |
| Search.Relevance | Busca_Documento.py:129-130 | the relevance is at least 1 exactly when the file passes the filter; that it is the maximal non-overlapping occurrence count is stated by Strings.OccurrencesSound and Strings.NonOverlappingBound |
| Search.Collect | Busca_Documento.py:120-125 | the rows emitted for a sequence of walked files; its contract is stated by Search.CollectWellFormed and Search.CollectMembers |
| Search.SearchResults | Busca_Documento.py:116-125 | the rows of the whole walk, before sorting; its contract is stated by Search.RootsInWalkOrder, Search.OneRoot and Search.ListingsInWalkOrder, and Search.SearchFiles is proved equal to it |
| Search.CollectWellFormed | Busca_Documento.py:120-130 | every emitted row has the term in its file name ignoring case, a relevance equal to the occurrence count in the file name alone and at least 1, a path ending with the file name and an extension ending the file name; there are never more rows than files |
| Search.CollectMembers | Busca_Documento.py:120-124 | a row is emitted exactly for each walked file whose name contains the term, and it is that file's name, `join(dir, file)`, extension and relevance |
| Search.RootsInWalkOrder | Busca_Documento.py:117-118 | the rows for several folders are the rows of the first folders followed by those of the rest |
| Search.OneRoot | Busca_Documento.py:118-119 | a folder's rows are those of its walk's listings |
| Search.ListingsInWalkOrder | Busca_Documento.py:119-120 | within a folder, rows follow the walk, listing after listing |
| Search.AppendListing | Busca_Documento.py:120-125 | the innermost loop appends exactly the rows of one listing's matching files, in order |
| Search.AppendWalk | Busca_Documento.py:119-125 | the middle loop appends exactly the rows of one folder's walk, in order |
| Search.SearchFiles | Busca_Documento.py:116-126 | the worker's list is exactly the rows of the walk of the selected folders, in walk order |
| Ranking.WithRelevanceMembers | Busca_Documento.py:133 | the rows of one relevance are exactly the rows having it |
| Ranking.WithRelevanceAppend | Busca_Documento.py:133 | taking the rows of one relevance distributes over concatenation |
| Ranking.HeadBound | Busca_Documento.py:133 | the first row of a sorted list is at least as relevant as every row |
| Ranking.RankByRelevance | Busca_Documento.py:133 | the result of the sort; its contract is stated by Ranking.RankSorted, Ranking.RankPermutation, Ranking.RankStable and Ranking.RankUnique |
| Ranking.InsertSorted | Busca_Documento.py:133 | inserting a row into a sorted list keeps it sorted and adds just that row |
| Ranking.InsertFilter | Busca_Documento.py:133 | an inserted row lands after every row of its own relevance |
| Ranking.RankSorted | Busca_Documento.py:133 | the sorted rows have non-increasing relevance |
| Ranking.RankPermutation | Busca_Documento.py:133 | the sorted rows are a permutation of the unsorted rows |
| Ranking.RankStable | Busca_Documento.py:133 | rows of equal relevance keep their encounter order |
| Ranking.SortedStableUnique | Busca_Documento.py:133 | two sorted lists that order every relevance class alike are equal |
| Ranking.RankUnique | Busca_Documento.py:133 | every sorted list that keeps ties in encounter order is the ranking, so any stable sort yields it |
| Preview.EndsWithAny | Busca_Documento.py:189 | `endswith` on a tuple holds exactly when one of the suffixes ends the string |
| Preview.Classify | Busca_Documento.py:189-198 | the `if`/`elif` chain on the lower-cased path; its contract is stated by Preview.ClassifyBySuffix |
| Preview.SuffixesUnrelated | Busca_Documento.py:189-195 | none of the eight suffixes tested ends another |
| Preview.AtMostOneSuffix | Busca_Documento.py:189-195 | a path ends with at most one of the suffixes tested |
| Preview.ClassifyBySuffix | Busca_Documento.py:189-198 | each kind is chosen exactly when the lower-cased path ends with one of its suffixes, whatever the order of the tests; a path ending with none is unsupported |
| Preview.DocxText | Busca_Documento.py:217 | the paragraphs joined with line breaks; stated by Preview.DocxLines |
| Preview.RowText | Busca_Documento.py:227 | one row's cells joined with `", "`; stated by Preview.RowCells |
| Preview.SheetText | Busca_Documento.py:227 | the row texts joined with line breaks; stated by Preview.SheetLines |
| Preview.DocxLines | Busca_Documento.py:217 | the Word preview's lines are the paragraphs, when there is a paragraph and none holds a line break |
| Preview.RowCells | Busca_Documento.py:227 | a sheet row's text cut at commas gives its cells, when no cell holds a comma |
| Preview.SheetLines | Busca_Documento.py:227 | the sheet preview has one line per row holding that row's text, when there is a row and no cell holds a line break |
| Preview.PreviewPath | Busca_Documento.py:187-228 | an unsupported path gives the informational message; an image shows exactly when it opens; a PDF shows its first page's text when it decodes with a page; a Word or Excel file shows its joined paragraphs or rows when it decodes; the error message comes exactly when the image does not open, the PDF does not decode or has no page, or the Word or Excel file does not decode |
| App.LaunchedRows | Busca_Documento.py:114-137 | after a launched search the table is a permutation of the worker's rows, sorted, with ties in walk order, each row well formed |
| App.SearchApp.constructor | Busca_Documento.py:27-37 | the application starts with the default registry, no box ticked, an empty table and the caption in the preview label |
| App.SearchApp.SetFolder | Busca_Documento.py:36 | ticking or clearing one box changes only the set of ticked folders |
| App.SearchApp.ClearTable | Busca_Documento.py:111-112 | deleting each row in turn leaves the table empty and nothing else changed |
| App.SearchApp.UpdateResults | Busca_Documento.py:132-137 | the table gains the rows sorted by relevance, and the "no results" message is raised exactly when there are none |
| App.SearchApp.StartSearch | Busca_Documento.py:97-114 | an empty term or no folder raises its error and leaves the table unchanged with no search started; otherwise one search starts with the stripped term and the selected folders, and the table holds only its ranked rows, since it was emptied first |
| App.SearchApp.PreviewFile | Busca_Documento.py:181-200 | with no selection it asks for one; otherwise it shows the image or text of the selected row's path, or raises the "cannot preview" or the error message, leaving the table alone |

## Left out

- The widgets, fonts, window geometry, progress bar and context menu are
  presentation only. The progress bar resets at line 110 and fills at line
  138, and neither step is modelled.
- The worker thread and the `root.after` callback are not modelled.
  `StartSearch` runs the walk and fills the table synchronously. Two searches
  racing on the table are therefore not modelled.
- `os.walk` is an input: for each folder, the listings it yields, in order.
  Its traversal order, its handling of symbolic links and the directories it
  skips on errors belong to the operating system.
- `os.path.expanduser` is an input. `home` is the expanded home directory.
- Paths.PathJoin: follows the POSIX `os.path.join`. The Windows variant, with
  drive letters and backslashes, is not modelled.
- Opening a file or its folder with `os.startfile`, `open` or `xdg-open`
  (lines 140-179) is process I/O and is not modelled.
- The decoding libraries are inputs. Each yields what it extracts, or nothing
  when it raises:
  - PIL's image opening and thumbnailing.
  - PyPDF2's page text.
  - python-docx paragraphs.
  - openpyxl rows.
- Cell values reach the Excel preview already converted by `str`.
- Strings.Lower: maps only ASCII letters. Python's full Unicode case mapping
  is not modelled.
- Strings.Strip: removes only the ASCII whitespace Python recognises. Unicode
  spaces beyond ASCII are not modelled.
- The `priority` field of the registry and the `search_history` list affect no
  behaviour and are not modelled.
- Timsort's in-place steps are not modelled. The table is specified by the
  stable order it produces, which `Ranking.RankUnique` shows is unique.
- App.SearchApp.PreviewFile: takes at most one selected row. Multiple
  selection is not modelled.
- App.SearchApp.PreviewFile: assumes that `config` on the preview label
  (lines 206, 213, 218 and 228) updates the label. Recent customtkinter
  versions reject `config` on their widgets in favour of `configure`. There,
  every preview that decodes would end in the error message instead. The
  widget library is not part of this model, so this is not decided here.
- The table is taken to give back a row's path column unchanged.
- `preview_docx` is defined twice, identically. The model has the one
  definition that takes effect.
