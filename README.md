# SRT subtitle to text: a Dafny model

This project models the text pipeline of two small Python scripts that turn
SRT subtitle files into plain text. `srt_gui.py` is a Tkinter tool and
`srt_to_txt.py` is its command-line sibling. The model proves properties of
that pipeline.

The model covers five pieces of the scripts:

- **The cue-text cleaner `clean_and_format_text`** (identical in both
  scripts). It deletes angle-bracket tags `<[^>]+>`, then curly-brace tags
  `{[^}]+}`, turns line breaks into spaces, and strips surrounding
  whitespace. Each `re.sub` is modelled as the leftmost, non-overlapping
  left-to-right scan it performs (`TextClean.StripTags`). Whitespace is
  exactly the set Python's `str.isspace` accepts.
- **The flat-text loops.** These are the loop of `process_and_convert` (GUI)
  and the loop of `srt_to_text` (command line). Each cleans every cue's
  text, converts it in the GUI when asked, keeps the non-empty results, and
  joins them.
- **The guards of the three entry points, in the scripts' order.** Each
  guard's `None`/early return becomes an `Err` of `Subtitles.Error`.
- **The in-place rewrite of `srt_to_traditional_srt`.** It assigns every
  cue's `text` its conversion. `Subtitles.Cue` is a class whose `text` field
  the method updates.
- **The output paths.** The GUI's text path is built from `dirname`,
  `basename`, `splitext` and `join`. The command line's default path is
  `splitext(...)[0] + ".txt"`. The rewrite's path is `base + "_T" + ext`.
  `Paths` models these `os.path` functions for POSIX paths.

The program's surroundings become parameters of the model:

- Whether the input file exists is a boolean input.
- Whether the converter library imported is a boolean input.
- The cues the subtitle library parsed are an `Option` input, where `None`
  means the library could not read the file.
- The converter `zhconv.convert(text, 'zh-tw')` is a function parameter
  `convert: string -> string`.

Modules: `Strings` (`index`, `rfind`, `join`, `split`), `TextClean`,
`Paths`, `Subtitles` (cues, errors, the keep-if-non-empty filter), `SrtGui`,
`SrtToTxt`.

## Model

| member | source | states |
|---|---|---|
| TextClean.CleanAndFormat | srt_to_txt.py:6-19 | `clean_and_format_text`: the angle pass, then the curly pass, then line breaks to spaces, then `strip()` |
| TextClean.StripTags | srt_to_txt.py:11-14 | one `re.sub` of `<[^>]+>` or `{[^}]+}` with the empty string: at a tag (opener, a non-closer, then a closer later) skip through the first closer, otherwise keep the character; every character of the result comes from the input |
| TextClean.ReplaceNewlines | srt_to_txt.py:17 | `replace('\n', ' ')`: each line break becomes a space, every other character stays |
| TextClean.IsSpace | srt_to_txt.py:19 | the characters `str.isspace()` accepts, which `strip()` removes |
| TextClean.TrimStart | srt_to_txt.py:19 | `lstrip()`: the result is a suffix of the input, only whitespace is dropped, and it does not start with whitespace |
| TextClean.TrimEnd | srt_to_txt.py:19 | `rstrip()`: the result is a prefix of the input, only whitespace is dropped, and it does not end with whitespace |
| TextClean.Strip | srt_to_txt.py:19 | `strip()`: `rstrip()` of `lstrip()` |
| Strings.Join | srt_to_txt.py:54-58 | `sep.join(xs)` for a one-character separator: the pieces with one separator between neighbours |
| Subtitles.NonEmpty | srt_to_txt.py:48-49 | the `if cleaned_line:` filter: never longer than its input, and every kept text is non-empty |
| Paths.Basename | srt_gui.py:78 | `os.path.basename`: everything after the last `/` |
| Paths.TrimTrailingSlashes | srt_gui.py:73 | `rstrip('/')`: a prefix of the input, only slashes dropped, not ending in `/` |
| Paths.Dirname | srt_gui.py:73 | `os.path.dirname`: everything up to the last `/`, with trailing slashes removed unless it is all slashes |
| Paths.SplitExt | srt_gui.py:122 | `os.path.splitext`: the extension starts at the last dot of the last component, unless only dots precede it in that component |
| Paths.PathJoin | srt_gui.py:76-79 | `os.path.join(a, b)`: an absolute `b` replaces `a`; otherwise a `/` is inserted unless `a` is empty or ends in one |
| SrtGui.ProcessLine | srt_gui.py:43-47 | one pass of the loop: the cleaned text, converted only when conversion is on and the cleaned text is non-empty |
| SrtGui.TextOutputPath | srt_gui.py:73-79 | the path `srt_to_text` writes to: the input's directory joined with the stem of the given name, or of the input's file name, plus `.txt` |
| SrtGui.TraditionalPath | srt_gui.py:122-123 | `base + "_T" + ext` from `splitext` of the input |
| SrtGui.ConvertAll | srt_gui.py:112-119 | the texts after the rewrite loop: each cue text passed through the converter, in order |
| SrtToTxt.DefaultOutputPath | srt_to_txt.py:35-37 | `splitext(input)[0] + ".txt"` |
| SrtToTxt.Separator | srt_to_txt.py:52-58 | a line break in line mode, a space otherwise |
| TextClean.StripTagsTagFree | srt_to_txt.py:11 | after a substitution pass no tag of that kind is left (every remaining opener is followed by its closer or has none after it) |
| TextClean.StripTagsOfTagFree | srt_to_txt.py:11 | a pass over text with no tag changes nothing |
| TextClean.StripTagsIdempotent | srt_to_txt.py:11 | running a pass twice equals running it once |
| TextClean.StripTagsDeletesTag | srt_to_txt.py:11 | a tag with a non-empty, closer-free body (line breaks included) is deleted whole and the scan resumes after its first closer |
| TextClean.StripTagsKeepsPlain | srt_to_txt.py:11 | text without an opener is copied through unchanged and the scan continues after it |
| TextClean.StripTagsNoOpener | srt_to_txt.py:11 | text with no opener is unchanged by a pass |
| TextClean.StripTagsKeepsOtherTagFree | srt_to_txt.py:11-14 | deleting angle tags cannot create a curly tag, so the angle pass keeps curly-tag-free text curly-tag-free |
| TextClean.StripIsSlice | srt_to_txt.py:19 | `strip()` returns a contiguous slice of its argument |
| TextClean.StripAllSpace | srt_to_txt.py:19 | whitespace-only text strips to the empty string |
| TextClean.StripOfStripped | srt_to_txt.py:19 | text without surrounding whitespace is unchanged by `strip()` |
| TextClean.ReplaceNewlinesNoBreak | srt_to_txt.py:17 | text without a line break is unchanged by the replacement |
| TextClean.CleanAndFormatNoNewline | srt_to_txt.py:17-19 | the cleaned text holds no line break |
| TextClean.CleanAndFormatStripped | srt_to_txt.py:19 | the cleaned text is empty or starts and ends with a non-whitespace character |
| TextClean.CleanAndFormatTagFree | srt_to_txt.py:11-19 | the cleaned text holds no angle tag and no curly tag |
| TextClean.CleanAndFormatShape | srt_gui.py:19-23 | the three facts above together: no line break, no surrounding whitespace, no tag of either kind |
| TextClean.CleanAndFormatOfClean | srt_to_txt.py:6-19 | text with no tag of either kind, no line break and no surrounding whitespace comes back unchanged |
| TextClean.CleanAndFormatPlain | srt_to_txt.py:6-19 | text with no `<`, no `{`, no line break and no surrounding whitespace comes back unchanged |
| TextClean.CleanAndFormatIdempotent | srt_gui.py:15-23 | cleaning already-cleaned text changes nothing |
| TextClean.CleanDirectiveOnly | srt_gui.py:19-23 | a curly directive followed only by whitespace (such as `{\an8}   `) cleans to the empty text |
| TextClean.CleanMarkupOnly | srt_gui.py:19-23 | any sequence of whitespace characters, angle tags and curly directives (bodies non-empty, free of their closer, directive bodies free of `<`), such as `{\an8}<i> </i>`, cleans to the empty text |
| TextClean.AnglePassOnPieces | srt_gui.py:19 | on such a sequence the angle pass deletes exactly the angle tags and leaves the other pieces in order |
| TextClean.CurlyPassOnPieces | srt_gui.py:20 | on such a sequence without angle tags the curly pass leaves only whitespace |
| TextClean.OpenerInDirective | srt_gui.py:19-20 | a directive body holding `<` can be cut by the angle pass: `{<}<x>` cleans to `{`, not to the empty text |
| TextClean.CleanItalicTwoLines | srt_to_txt.py:11-19 | italic markup around two lines cleans to the two lines joined by one space (`<i>Hello` line break `World</i>` gives `Hello World`) |
| TextClean.CleanItalic | srt_to_txt.py:11-19 | text wrapped in `<i>`…`</i>` with no opener inside cleans to that text with line breaks made spaces, when no surrounding whitespace is left |
| TextClean.CleanItalicWord | srt_to_txt.py:11-19 | a plain word in italic tags cleans to the word |
| TextClean.CleanAngleBeforeCurly | srt_to_txt.py:11-14 | angle tags go first: an angle tag inside braces (`{<b>}`) leaves `{}`, which the curly pass does not match |
| TextClean.CleanKeepsEmptyTags | srt_to_txt.py:11-14 | the empty-bodied `<>` and `{}` are not tags and survive cleaning |
| TextClean.CleanAndFormatMapChars | srt_gui.py:15-23 | for a character-wise conversion that fixes the markup characters, converting then cleaning equals cleaning then converting |
| Strings.JoinSplit | srt_to_txt.py:54 | splitting at the separator and joining again gives the string back |
| Strings.SplitJoin | srt_to_txt.py:54 | splitting a join of separator-free pieces gives the pieces back (one empty piece for no pieces) |
| Strings.NotInJoin | srt_to_txt.py:58 | a character in no piece, other than the separator, is not in the join |
| Paths.SplitExtRejoin | srt_gui.py:122 | `splitext` splits a path into a root and an extension that concatenate back to the path |
| Paths.SplitExtShape | srt_gui.py:122 | the extension is empty or is the last dot of the last component with what follows it (no further dot, no slash), and the root's last component is not all dots |
| Paths.SplitExtEmpty | srt_gui.py:122 | the extension is empty exactly when every dot of the last component has only dots before it in that component |
| Paths.ComponentStartAt | srt_gui.py:73-79 | after a `/`, slash-free text is the last component, and `dirname` is determined by what precedes it |
| Paths.DirnameShape | srt_gui.py:73 | `dirname` returns the empty string, all slashes, or text not ending in `/` |
| Paths.PathJoinEndsWith | srt_gui.py:76-79 | `join(a, b)` ends with `b` |
| Paths.JoinIntoDirname | srt_gui.py:76-79 | joining a `dirname` result with a slash-free name gives a path whose `dirname` is that directory and whose `basename` is the name |
| Paths.BasenameOfJoin | srt_gui.py:76-79 | the last component of `join(a, b)` is that of `b`, for every `a` and `b` |
| Paths.DirnameOfRootPlus | srt_to_txt.py:36-37 | a path's root followed by slash-free text lies in the path's directory |
| Paths.BasenameOfRootPlus | srt_to_txt.py:36-37 | the last component of a path's root followed by slash-free text is the stem of the path's last component followed by that text |
| Subtitles.NonEmptyKeepsOrder | srt_to_txt.py:48-49 | the `if cleaned_line:` filter keeps exactly the non-empty texts, in their order |
| Subtitles.NonEmptyAllKept | srt_to_txt.py:48-49 | when no text is empty the filter keeps them all |
| Subtitles.KeptStep | srt_to_txt.py:46-49 | one pass of an append-if-non-empty loop keeps the list equal to what is kept from the texts seen so far |
| Subtitles.KeptInOrder | srt_gui.py:42-50 | what such a loop collects is the non-empty images in text order, none skipped, never more than the texts |
| Subtitles.KeptAgree | srt_gui.py:42-50 | two per-text functions that agree on every text make the loop collect the same list |
| SrtGui.ProcessAndConvert | srt_gui.py:25-60 | missing file, then unavailable converter when conversion is requested, then unreadable file; otherwise the line-break join of the entries, whatever `segment_by_line` is |
| SrtGui.ProcessCues | srt_gui.py:40-50 | the loop collects each cue's cleaned text, converted only when conversion is on and the text is non-empty, and keeps it when non-empty |
| SrtGui.EntriesInCueOrder | srt_gui.py:40-50 | every entry is non-empty and is the processed text of a cue, entries follow cue order, no cue with a non-empty result is skipped, and there are never more entries than cues |
| SrtGui.EntriesUnconverted | srt_gui.py:43-50 | with conversion off the converter plays no part, and every entry is a cleaned text: no line break, no surrounding whitespace |
| SrtGui.TextOutputPathSuffix | srt_gui.py:73-79 | the text file's path always ends in `.txt` |
| SrtGui.TextOutputPathPlacement | srt_gui.py:73-79 | when the typed name holds no `/` (or none is typed), the text file lies in the input's directory, named after the stem of that name, or of the input's file name, plus `.txt` |
| SrtGui.TextOutputPathName | srt_gui.py:73-79 | for any typed name, the file is named after the stem of that name's last component (of the input's file name when none is typed) plus `.txt` |
| SrtGui.TextOutputPathAbsolute | srt_gui.py:75-76 | an absolute typed name replaces the input's directory: the path is the name's root plus `.txt` |
| SrtGui.SrtToText | srt_gui.py:62-79 | the guards of `process_and_convert`; otherwise the text it returns, paired with the output path |
| SrtGui.TraditionalPathSplits | srt_gui.py:122-123 | `splitext` of the new name is the input's root with `_T` appended plus the input's extension |
| SrtGui.TraditionalExtStart | srt_gui.py:122-123 | the extension of the new name starts two characters later than the input's |
| SrtGui.TraditionalPathBeside | srt_gui.py:122-123 | the new file lies in the input's directory and its path differs from the input's |
| SrtGui.SrtToTraditionalSrt | srt_gui.py:91-123 | missing file, then conversion not requested, then converter unavailable, then unreadable file, leaving every cue unchanged; otherwise each cue's text becomes the conversion of its original text, its number and times stay, and the result is `base + "_T" + ext` |
| SrtGui.ProcessLineConverted | srt_gui.py:43-47 | for a character-wise converter that fixes markup, cleaning a converted text without converting gives what the loop gives when it converts |
| SrtGui.ConvertedSubtitleFlattens | srt_gui.py:42-50 | for such a converter, flattening the rewritten cues without conversion gives the entries of flattening the original cues with conversion |
| SrtToTxt.CleanCues | srt_to_txt.py:44-49 | the loop collects the non-empty cleaned cue texts, in cue order |
| SrtToTxt.SrtToText | srt_to_txt.py:21-58 | a missing input stops first; the output path is the given one or the default, chosen before parsing; an unreadable file stops next; otherwise the entries joined by line breaks in line mode and by spaces otherwise |
| SrtToTxt.EntriesInCueOrder | srt_to_txt.py:44-49 | every entry is a non-empty cleaned cue text without line break, surrounding whitespace or tag, entries follow cue order, none is skipped, and there are never more entries than cues |
| SrtToTxt.LineModeSplitsBack | srt_to_txt.py:52-54 | splitting the line-mode output at line breaks gives back exactly the entries |
| SrtToTxt.SpaceModeOneLine | srt_to_txt.py:55-58 | the space-joined output is a single line |
| SrtToTxt.PlainCuesUnchanged | srt_to_txt.py:44-49 | cue texts that are already clean and non-empty are the entries, unchanged |
| SrtToTxt.PlainAndItalicCues | srt_to_txt.py:44-58 | a plain cue and an italic cue give the two words on two lines in line mode, separated by a space otherwise |
| SrtToTxt.DefaultOutputPathPlacement | srt_to_txt.py:35-37 | the default output lies in the input's directory, named after the stem of the input's file name plus `.txt` |
| SrtToTxt.DefaultOutputPathMatchesGui | srt_to_txt.py:35-37 | the default output lands where the GUI's text export writes when no name is given |
| SrtToTxt.EntriesMatchGui | srt_to_txt.py:44-54 | the entries equal those of the GUI's loop with conversion off, so both scripts write the same line-mode text |

## Left out

- Reading and writing subtitle files (`pysrt.open`, `subs.save`) are not modelled, nor is encoding detection. The cues are an input, and failure to read is `None`. No parse/serialise round trip is stated.
- `zhconv.convert` is a foreign lookup table. It is an arbitrary total function parameter, with the `'zh-tw'` argument implicit. An exception raised inside it, which the scripts' `try` would report, is not modelled.
- The import fallback that sets `CONVERTER_AVAILABLE` is a boolean input.
- The Tkinter window (`SrtConverterApp`), message boxes, file dialogs, `argparse` and the `__main__` blocks are UI glue and are not modelled.
- Writing the text files and the write-failure branches of the `try`/`except` blocks are I/O and are not modelled. The methods return the path and the text that would be written.
- `os.path` is modelled for POSIX paths with the single separator `/`. Windows drive letters and backslashes are not modelled.
- Whether the input file exists is a boolean input; the filesystem is not modelled.
- SrtGui.ConvertedSubtitleFlattens: it is proved only for converters that work character by character and leave tag delimiters and whitespace alone. For an arbitrary converter the two routes can differ, because a conversion may create or remove markup.
- The GUI's `segment_by_line` flag is modelled as written. Both of its branches join with a line break, so the GUI never produces space-joined text, and a space-joined GUI mode is not modelled.
- An output path given on the command line is used exactly as given, and nothing is proved about where it points.
- The command-line script's console messages (the missing-file error, the success message and the exception report) are output only and are not modelled.
- TextClean.CleanDirectiveOnly and TextClean.CleanMarkupOnly: a curly directive whose body holds `<` is excluded, because the angle pass can then delete across the directive's closer; `{<}<x>` cleans to `{` (TextClean.OpenerInDirective), so "only tags and whitespace clean to the empty text" does not hold for such text.
- SrtGui.TextOutputPathPlacement: the directory is stated only for a typed name without `/`. A name with a directory part puts the file in that subdirectory of the input's directory, and an absolute name replaces the input's directory (SrtGui.TextOutputPathAbsolute); the file name is stated for every typed name by SrtGui.TextOutputPathName.
