# AO3-LaTeX-Novelizer: the text passes of `compile_exports.py`

`compile_exports.py` turns chapters converted from HTML into a LaTeX book. This
project models the passes it runs after the conversion, and proves what each
pass guarantees:

- **Chapter normalisation** (`append_headers_and_strip_section_redeclaration`).
  - Every title is found: the text between `\section{` and the next `}\label`.
  - Byline declarations are deleted: a `\section{`, the next `by`, and the next
    blank line.
  - `\chapter{<first title>}` and a line break are put in front.
- **Two optional sanitisers.**
  - `strip_notes` collapses each `\end{description}` … `\phantomsection\label{chapters}`
    span to its two markers, then deletes everything from the first
    `\subsection{Afterword}` to the end.
  - `convert_verbatim` renames `\begin{verbatim}` and `\end{verbatim}` to the
    `lstlisting` pair.
- **Template injection** (`inject_filenames_into_main_tex`).
  - One `\input{content/<name>}` line is built per chapter file.
  - The lines are joined with newlines and framed by the two marker comments.
  - The result replaces `main.tex`'s region, which runs from the first start
    marker to the last end marker.
- **Metadata substitution** (`update_copyright_and_authorship_data`).
  - In `main.tex`, each `NOVELIZER_*` token is replaced by its environment value,
    or by `<no TOKEN provided>` when the variable is unset.
  - On the copyright page, the marker comment is replaced by the value of
    `NOVELIZER_COPYRIGHT`. Its default is the marker itself.

The title, byline, notes, afterword and region patterns are literal markers
with `.*?` or `.*` between them (after the last one, for the afterword),
matched with DOTALL. The verbatim, token and
copyright patterns are single literals; the token and copyright ones are used
without DOTALL, which a literal does not need. Each is modelled without a
regular-expression engine:

- `Strings.IndexOf` finds the first occurrence at or after a position.
- `Strings.LastIndexOf` finds the last occurrence, for the greedy `.*`.
- `Strings.ReplaceAll` replaces every occurrence of a literal, defined as
  `Join(Split(s, pat), rep)`.

A lazy pattern `A(.*?)B` matches from the first `A` to the first `B` after it.
If that `B` does not exist, no later `A` has a `B` after it either, so the
search may stop.

Modules:

| module | file | role |
|---|---|---|
| `Wrappers` | wrappers.dfy | `Option` |
| `Strings` | strings.dfy | literal search, split, join and replace, with their laws |
| `Chapters` | chapters.dfy | titles, bylines, the rewritten chapter file |
| `Sanitize` | sanitize.dfy | `strip_notes` and `convert_verbatim` on one file's text |
| `Includes` | includes.dfy | `os.path` handling, the include list, the marker region |
| `Metadata` | metadata.dfy | the token and copyright substitutions |
| `Pipeline` | pipeline.dfy | `LatexTree`, a class holding the files the passes rewrite in place, and `Run`, the main block |

Each chapter pass in the source loops over the chapter files, reading and
overwriting each one. It is a method of `LatexTree` with a loop over the
chapter texts, and its `ensures` ties the new texts to the pure functions
above. The two template passes read and write single files: `InjectFileNames`
rewrites `main.tex`, and `UpdateMetadata` does the token-by-token reassignment
of `main_tex_contents` and then rewrites the copyright page. The loop that
appends to `include_list` is `Includes.BuildIncludeList`, whose loop is
`Includes.AppendEach` applied to the include line of each file.

Four behaviours of the code shape the model:

- **A chapter with no title stops the run.** `matches[0]`
  (`compile_exports.py:81`) raises after `open(latex_file, "w")` has already
  emptied the file. `Chapters.NormalizeChapter` returns `None` for such a file.
  `NormalizeChapters` leaves that file empty, leaves later files untouched and
  ends with `Aborted`, and `Run` then never reaches `main.tex` or the copyright
  page.
- **With several titles the code warns and uses the first** (lines 70-74 and 81).
- **The region pattern's `.*` is greedy** (line 148): the region runs from the
  first start marker to the last end marker.
- **The variables are** `NOVELIZER_AUTHORNAME`, `NOVELIZER_BOOKTITLE`,
  `NOVELIZER_SUBTITLE`, `NOVELIZER_YEAR` and `NOVELIZER_COPYRIGHT`, and the
  placeholder tokens in `main.tex` carry the same names.

Re-injection has no precondition. Running the injection again, with the same
list or a different one, gives the same `main.tex` as running it once with the
second list (`Includes.InjectTwice`). No condition on the include lines is
needed: the injected end marker is followed by the old text after the region,
so the old region's last end marker is still the last one.

## Model

| member | source | states |
|---|---|---|
| Strings.IndexOf | compile_exports.py:63-64 | the result is an occurrence at or after `from` with none between `from` and it; None means there is no occurrence at or after `from` |
| Strings.LastIndexOf | compile_exports.py:147-148 | the result is an occurrence at or after `from` with none after it; None means there is none at or after `from` |
| Strings.ReplaceAll | compile_exports.py:121-126 | a text without the pattern is returned unchanged |
| Strings.JoinSplit | compile_exports.py:121-126 | splitting at a literal and joining with it again gives back the text |
| Strings.SplitPiecesAbsent | compile_exports.py:121-126 | no piece of a split holds the pattern |
| Strings.ReplaceAllJoin | compile_exports.py:182 | pieces free of an unbordered literal, joined by it, come out joined by the replacement: every occurrence is replaced and nothing else changes |
| Strings.ReplaceAllSeparated | compile_exports.py:206-210 | the same for any pattern, when each piece but the last ends where the pattern is first found and the last piece is free of it |
| Strings.ReplaceAllSelf | compile_exports.py:202-210 | replacing a literal by itself changes nothing |
| Strings.ReplaceAllInverse | compile_exports.py:121-126 | replacing `pat` by a nonempty `rep`, then `rep` back by `pat`, restores the text, provided `rep` does not occur in the text and the first character of `rep` occurs nowhere else in `rep` |
| Strings.ReplaceAllAvoids | compile_exports.py:121-126 | when the replacement and a command `q` both begin with their only backslash and differ at some index, the replacement never creates `q`; so `q` is absent afterwards if it was absent before or was the pattern |
| Chapters.TitleSpan | compile_exports.py:63 | the title span lies in the text, with room for the `}\label` after it |
| Chapters.Titles | compile_exports.py:69 | the `findall` list: `TitlesEmptyIff` says when it is empty, `TitlesCons` gives its first title and where the search resumes, and `TitlesAvoidLabel` says no title holds `}\label` |
| Chapters.TitleSpanIff | compile_exports.py:63 | a title is found exactly when some `\section{` is followed, after its brace, by a `}\label` |
| Chapters.TitlesEmptyIff | compile_exports.py:69-70 | `findall` returns no title exactly when no `\section{`…`}\label` pair exists |
| Chapters.TitlesCons | compile_exports.py:63-69 | the first title is the text between the first `\section{` and the first `}\label` after it, and the search resumes after that `}\label` |
| Chapters.TitlesAvoidLabel | compile_exports.py:63-69 | no title contains `}\label`; matches cannot overlap |
| Chapters.BylineSpan | compile_exports.py:64 | a removed span starts at a `\section{` and lies in the text |
| Chapters.BylineSpanCons | compile_exports.py:64 | the leftmost byline span runs from the first `\section{` through the first `by` after it to the first blank line after that |
| Chapters.StripBylines | compile_exports.py:75-77 | a text without `\section{` is left unchanged |
| Chapters.BylineSpanIff | compile_exports.py:64 | a byline span is found exactly when the text has a `\section{`, then `by`, then a blank line, in that order |
| Chapters.StripBylinesWithoutByline | compile_exports.py:75-77 | a text the byline pattern does not match is left unchanged |
| Chapters.StripBylinesCons | compile_exports.py:75-77 | the text before the byline span is kept in order, the span is deleted, and the rest is processed the same way |
| Chapters.NormalizeChapter | compile_exports.py:69-82 | the pass fails on a file exactly when no title is found; a rewritten file starts with `\chapter{` |
| Chapters.NormalizeChapterFails | compile_exports.py:79-81 | the pass fails exactly when no `\section{` is followed by a `}\label` |
| Chapters.NormalizeFirstTitle | compile_exports.py:69-82 | with a first title `t`, the file becomes `\chapter{` + `t` + `}\n` + the byline-stripped original, and the warning is printed exactly when another title follows |
| Chapters.TitleWarning | compile_exports.py:70-74 | the warning is printed exactly when `findall` returns other than one title; `NormalizeFirstTitle` states it, given a first title, as another title following it |
| Sanitize.NotesSpan | compile_exports.py:87 | a notes span starts at `\end{description}`, lies in the text and is at least both markers long |
| Sanitize.NotesSpanIff | compile_exports.py:87 | a notes span is found exactly when some `\end{description}` is followed by `\phantomsection\label{chapters}` |
| Sanitize.NotesSpanCons | compile_exports.py:87 | the leftmost span runs from the first `\end{description}` to the end of the first closing marker after it |
| Sanitize.CollapseNotes | compile_exports.py:96-101 | a text without a notes span is unchanged |
| Sanitize.CollapseNotesCons | compile_exports.py:96-101 | the first span becomes the two markers side by side, the text before it is kept, and the rest is processed the same way |
| Sanitize.NotesKeptForm | compile_exports.py:96-101 | the kept pieces have no `\end{description}`, except the last, which holds no complete span |
| Sanitize.NotesKeptJoin | compile_exports.py:96-101 | such pieces, joined by the collapsed markers, are found again as the kept pieces |
| Sanitize.CollapseNotesIdempotent | compile_exports.py:96-101 | collapsing twice equals collapsing once |
| Sanitize.CutAfterword | compile_exports.py:102-104 | the result is a prefix of the text without `\subsection{Afterword}`; a text without one is unchanged |
| Sanitize.CutAfterwordCons | compile_exports.py:102-104 | the cut falls just before the first afterword heading |
| Sanitize.CutJoin | compile_exports.py:96-104 | cutting a collapsed text leaves a collapsed text of the same form |
| Sanitize.StripNotes | compile_exports.py:96-104 | no afterword heading remains |
| Sanitize.StripNotesCons | compile_exports.py:96-104 | the first notes span collapses to the bare markers when no afterword comes before it |
| Sanitize.StripNotesIdempotent | compile_exports.py:96-104 | applying `strip_notes` twice equals applying it once |
| Sanitize.ConvertVerbatim | compile_exports.py:112-126 | neither `\begin{verbatim}` nor `\end{verbatim}` remains |
| Sanitize.ConvertVerbatimBegins | compile_exports.py:121-126 | verbatim-free pieces separated by `\begin{verbatim}` come out separated by `\begin{lstlisting}`, pieces unchanged |
| Sanitize.ConvertVerbatimIdempotent | compile_exports.py:121-126 | converting twice equals converting once |
| Sanitize.ConvertVerbatimInverse | compile_exports.py:121-126 | on a text without `lstlisting` delimiters, renaming them back restores the text: no other character changes |
| Sanitize.ConvertKeepsAfterwordOut | compile_exports.py:102-126 | the verbatim rewrite creates no afterword heading |
| Includes.LastChar | compile_exports.py:154 | the index of the last occurrence of the character, None when absent |
| Includes.StripExtension | compile_exports.py:154 | `splitext(p)[0]` is a prefix of `p`, and anything removed is a dot followed by no dot or slash |
| Includes.ExtensionStripped | compile_exports.py:154 | when a dot has neither a dot nor a slash after it and a non-dot character before it in the same component, `splitext(p)[0]` is exactly the text before that dot |
| Includes.StripExtensionIff | compile_exports.py:154 | `splitext` removes something exactly when the last path component has a dot, with no dot after it, preceded in that component by a character other than a dot |
| Includes.BaseName | compile_exports.py:154 | `basename` is a slash-free suffix preceded by a slash unless it is the whole path |
| Includes.IncludeLineOf | compile_exports.py:154-157 | `<dir>/<name>.tex` gives `\input{content/<name>}` |
| Includes.IncludeLine | compile_exports.py:154-157 | the line built for one file: `\input{content/` + the base name of the path without extension + `}`; `IncludeLineOf` gives its value for `<dir>/<name>.tex` |
| Includes.IncludeLines | compile_exports.py:151-157 | the lines of the listing, one per file, in order; `BuildIncludeList` reaches them with the source's loop, and `IncludeLinesOfNames` and `IncludeListLines` state their distinctness and separation |
| Includes.BuildIncludeList | compile_exports.py:151-157 | one line per file, in the given order, each the include line of its file |
| Includes.AppendEach | compile_exports.py:151-157 | appending `f(x)` for each `x` in turn to an empty list gives one entry per input, in order, each `f` of its input |
| Includes.IncludeLinesOfNames | compile_exports.py:151-157 | for such files, two lines are equal exactly when the names are: no duplicates beyond the input's |
| Includes.IncludeListLines | compile_exports.py:159 | for a nonempty listing whose paths hold no line break, joining the lines with single line breaks keeps them apart: splitting at line breaks gives them back |
| Includes.FindRegion | compile_exports.py:147-148 | a found region starts at the first start marker and ends with the last end marker after it; None exactly when no start marker is followed by an end marker |
| Includes.RegionUnique | compile_exports.py:147-148 | that region is the only one meeting this description |
| Includes.ReplaceRegion | compile_exports.py:163-168 | a text without a marker pair is unchanged |
| Includes.InjectFileNames | compile_exports.py:159-168 | a `main.tex` without a marker pair is unchanged |
| Includes.RegionBlock | compile_exports.py:159-160 | the start marker, a line break, the lines joined by line breaks, a line break and the end marker; `InjectLocatesBlock` shows it becomes the new region of `main.tex` |
| Includes.InjectLocatesBlock | compile_exports.py:160-168 | the region is replaced by start marker, line break, list, line break, end marker; the text before and after is unchanged, and the block is the new text's region |
| Includes.InjectTwice | compile_exports.py:146-171 | injecting once more, with any list, gives what injecting that list alone gives |
| Includes.InjectIdempotent | compile_exports.py:146-171 | injecting the same list twice equals injecting it once |
| Metadata.SubstituteTokenJoin | compile_exports.py:178-196 | every occurrence of a token is replaced by the variable's value, or by `<no TOKEN provided>` when it is unset |
| Metadata.UpdateMainTex | compile_exports.py:178-196 | a `main.tex` without any token is unchanged |
| Metadata.Lookup | compile_exports.py:176-202 | `os.environ.get(name, default)`: `SubstituteTokenJoin` and `CopyrightUnset`/`CopyrightSet` state what the set and unset cases give |
| Metadata.SubstituteToken | compile_exports.py:180-194 | one `re.sub` of a token; `SubstituteTokenJoin` states that every occurrence becomes the value or the default |
| Metadata.UpdateCopyrightPage | compile_exports.py:200-210 | the copyright substitution; `CopyrightUnset` and `CopyrightSet` state its two cases |
| Metadata.CopyrightUnset | compile_exports.py:202-210 | with `NOVELIZER_COPYRIGHT` unset, the copyright page is unchanged |
| Metadata.CopyrightSet | compile_exports.py:202-210 | with it set, every marker comment is replaced by the value, taken literally |
| Pipeline.PolishGuarantees | compile_exports.py:219-222 | with the notes filter on, no afterword heading remains after both sanitisers; with the verbatim filter on, no verbatim delimiter remains |
| Pipeline.Flag | compile_exports.py:219-221 | a filter is enabled when its variable is set and not empty; `Run` uses it to decide which sanitisers every chapter goes through |
| Pipeline.Polish | compile_exports.py:219-222 | a chapter through the enabled sanitisers in the source's order; `PolishGuarantees` states what survives both, and `PolishChapters` applies it to every chapter |
| Pipeline.LatexTree.NormalizeChapters | compile_exports.py:65-82 | completes exactly when every file has a title, with each file rewritten and its warning recorded; otherwise it stops at the first file without one, which is left empty, with earlier files rewritten and later ones untouched |
| Pipeline.LatexTree.StripNotes | compile_exports.py:90-107 | every chapter file is rewritten by `strip_notes`, nothing else changes |
| Pipeline.LatexTree.ConvertVerbatim | compile_exports.py:115-129 | every chapter file is rewritten by `convert_verbatim`, nothing else changes |
| Pipeline.LatexTree.PolishChapters | compile_exports.py:219-222 | each chapter is sanitised by the enabled filters, in the source's order |
| Pipeline.LatexTree.InjectFileNames | compile_exports.py:146-171 | `main.tex` is rewritten with the include lines of the listing; the chapters and copyright page are unchanged |
| Pipeline.LatexTree.UpdateMetadata | compile_exports.py:174-212 | `main.tex` goes through the four token substitutions in order, then the copyright page through its substitution |
| Pipeline.LatexTree.CompleteTemplates | compile_exports.py:224-225 | `main.tex` gets the include list and then the metadata; the copyright page gets the metadata |
| Pipeline.LatexTree.Run | compile_exports.py:218-225 | completes exactly when every chapter has a title; then each chapter is normalized and sanitised and both templates are updated; each warning is the warning of its chapter; an aborted run stops at a file without a title, leaves it empty with a warning, leaves earlier files normalized and later ones untouched, and leaves `main.tex` and the copyright page untouched |

## Left out

- `sanity_check` (lines 20-43): probes for `pandoc`, lists the exports and exits the process.
- `dump_html_to_latex` (lines 46-54): runs the external `pandoc` process.
- `copy_polished_latex_to_content_dir` (lines 132-143): deletes and moves files. `Run` takes the content directory's listing as an input instead, and nothing relates that listing to the chapter texts.
- File reading and writing, `print` diagnostics and the warning's text. The warning is kept as a flag per file.
- `os.environ`: it is a `map<string, string>` parameter. `STRIP_NOTES` and `CONVERT_VERBATIM` count as set when present and not empty, which is Python's truth value of the returned string.
- `glob` order: the listing and the chapter sequence are taken in whatever order they are given.
- `Metadata.SubstituteToken`: `re.sub` treats an environment value as a template (lines 182-196). The model takes the value literally, so it assumes values free of backslashes and group references.
- `Strings.ReplaceAll`: it is defined for a nonempty pattern only. Every pattern in the source is nonempty.
- `Metadata.UpdateMainTex`: no single lemma describes a `main.tex` that holds several different tokens at once. `Metadata.SubstituteTokenJoin` describes each of the four steps.
- `Includes.IncludeLineOf`: it covers file names with no slash and some character other than a dot. For names made only of dots, `splitext` keeps the extension; `Includes.StripExtensionIff` states when anything is removed.
- `Chapters.NormalizeChapter`: a Python exception becomes `None`. The partially written file is the empty text left in `LatexTree.chapters`.
