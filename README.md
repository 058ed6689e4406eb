# ESAT question collection: a verified model of the conversion scripts

The question collection is a set of independent Python scripts. Together they
take a spreadsheet-derived question bank through these steps:

- normalise it into JSON question records;
- resolve, number and copy the images those records refer to;
- cross-check the image directory against the placeholders in the text;
- render the questions as LaTeX or HTML.

This project models the string transformations and bookkeeping loops of those
scripts in Dafny and proves their properties. The scripts are:

| script | what is modelled | Dafny module |
|---|---|---|
| excel_to_pdf_fixed.py | `clean_html_to_text` placeholder rule | `HtmlToText` |
| | the three-tier option parser | `OptionParser` |
| | `latex_escape` | `Latex` |
| | the file naming of `download_img` | `Naming` |
| | the row loop that assembles records | `Records` |
| | `build_tex` grouping and ordering | `TexBook` |
| rename_images_by_url.py | the first-occurrence image index | `ImageMapping` |
| | the copy plan | `ImageMapping` |
| check_images.py | needed and found indices, with their differences | `Reconcile` |
| prepare_images.py | the placeholder-to-local-image loop | `Localize` |
| download_images.py | the skip-if-exists download loop and its counters | `Downloader` |
| json2pdf.py | `escape_latex_math` | `Json2Pdf` |
| | the per-question field selection of `json_to_latex` | `Json2Pdf` |
| python_20250825_MRKfRn.py | `clean_html` | `HtmlViewer` |
| | `clean_html_keep_images` | `HtmlViewer` |
| | option splitting, numbering and dividers of `generate_html` | `HtmlViewer` |

Shared modules:

- `Wrappers` holds `Option`.
- `Json` holds the JSON values and the question document.
- `PyText` holds Python's `str` primitives with CPython's Unicode whitespace
  and line-break sets: `strip`, `splitlines`, `split`, `join`, `replace`, and
  integer formatting with `:04d`.
- `Order` holds sorting.
- `Placeholders` holds the `[IMAGE:n]` token and the scanner for its regex.
- `ImgTags` holds the `<img ... src="...">` scanner used by two scripts.

Each regular expression is written out as a scanner with the semantics of
Python's `re.findall` or `re.sub`: leftmost, non-overlapping, with the same
greedy or lazy choice. Loops that update variables are methods. Most methods
are proved equal to a specification function, and the lemmas next to it prove
what the scripts promise about that function. A few, such as
`Reconcile.CheckImages`, state those promises directly in their
postconditions instead.

Things the scripts do not compute themselves are parameters of the model:

- the HTML parser's node sequence;
- `requests.get` outcomes (a fetch oracle);
- `base64` decoding success;
- `unquote`, `os.path.join` and `os.path.relpath`;
- `str()` of non-text JSON values;
- the contents of a directory, as a set of names.

## Model

| member | source | states |
|---|---|---|
| HtmlToText.CleanHtmlToText | excel_to_pdf_fixed.py:23-36 | An absent cell gives ("", []). Otherwise the sources are the non-empty img `src` values in document order. Each img node's text is the placeholder numbered by the sources collected so far, minus one. |
| HtmlToText.VisitNode | excel_to_pdf_fixed.py:29-34 | One loop iteration appends the node's source exactly when it has one, and yields that node's piece of text. |
| HtmlToText.Sources | excel_to_pdf_fixed.py:29-32 | At most one source per node, and no source is empty. |
| HtmlToText.AllSourcedNumbering | excel_to_pdf_fixed.py:29-34 | When every img has a src, there are as many sources as imgs and the numbers the cleaner writes (`ImgIndices`, tied to the text by PieceIsIndex) are exactly 0..n-1 in order. |
| HtmlToText.UnsourcedBreaksNumbering | excel_to_pdf_fixed.py:29-34 | An img without src is not written as `[IMAGE:k]` for its rank k among the imgs, so the written numbers differ from 0..n-1. |
| HtmlToText.UnsourcedEntry | excel_to_pdf_fixed.py:29-34 | A src-less img is written as the placeholder of the number of sources collected before it minus one, which is smaller than its own rank among the imgs. |
| HtmlToText.PieceIsIndex | excel_to_pdf_fixed.py:29-34 | The text the cleaner writes for the img at position i is the placeholder of the ImgIndices entry at that img's rank. |
| HtmlToText.AllSourcedPieces | excel_to_pdf_fixed.py:29-34 | When every img has a src, the text written for the k-th img (from 0) is `[IMAGE:k]`. |
| HtmlToText.SourcesAtMostImgs | excel_to_pdf_fixed.py:29-32 | There are never more sources than img nodes. |
| HtmlToText.ImgIndicesLength | excel_to_pdf_fixed.py:29-34 | The sequence of numbers written at the imgs (PieceIsIndex) has one entry per img node. |
| HtmlToText.PrefixIndices | excel_to_pdf_fixed.py:29-34 | The numbers written at the imgs of a prefix of the document are a prefix of the whole document's numbers: nodes after them never renumber them. |
| OptionParser.ParseOptions | excel_to_pdf_fixed.py:119-137 | Empty text gives an empty map. Otherwise the block matches, last value per letter, when there are any. Else the positional fallback over the stripped non-empty lines. |
| OptionParser.AssignMatches | excel_to_pdf_fixed.py:125-126 | The loop stores each match's stripped value under its letter; later matches overwrite earlier ones. |
| OptionParser.ParseLines | excel_to_pdf_fixed.py:129-137 | The line tier followed by the positional fallback. |
| OptionParser.BlockEnd | excel_to_pdf_fixed.py:122 | The lazy `.*?` stops at the first position where the lookahead holds: a newline run then letter+delimiter, or end of text. |
| OptionParser.MatchStartsFrom | excel_to_pdf_fixed.py:122-123 | Every match starts at a capital A-F followed by a delimiter. |
| OptionParser.MatchStartsApart | excel_to_pdf_fixed.py:122-123 | Matches do not overlap. Each one starts at or after the end of the previous one. |
| OptionParser.MatchStartsCover | excel_to_pdf_fixed.py:122-123 | Every letter+delimiter pair in the text starts a match or lies inside one: findall misses no pair. |
| OptionParser.BlockMatchesEmptyIff | excel_to_pdf_fixed.py:122-124 | The block tier finds nothing exactly when no A-F letter+delimiter pair occurs anywhere in the text. |
| OptionParser.SecondTierNeverMatches | excel_to_pdf_fixed.py:129-133 | When the block tier finds nothing, no stripped line matches the line regex. |
| OptionParser.SecondTierEmpty | excel_to_pdf_fixed.py:129-133 | When the block tier finds nothing, the line tier assigns nothing, so the parser is block-or-positional. |
| OptionParser.NoMatchNothingAssigned | excel_to_pdf_fixed.py:130-133 | Lines none of which match leave the map empty. |
| OptionParser.AssignedLastWins | excel_to_pdf_fixed.py:125-126 | The keys are exactly the matched letters. A letter holds the stripped value of its last match. |
| OptionParser.AssignedKeys | excel_to_pdf_fixed.py:125-126 | The map's keys are exactly the matched letters. |
| OptionParser.AssignedLastAt | excel_to_pdf_fixed.py:125-126 | The last match of a letter determines its value. |
| OptionParser.AssignedStep | excel_to_pdf_fixed.py:125-126 | One more match overwrites that letter's entry and keeps the rest. |
| OptionParser.EnumeratedKeysLines | excel_to_pdf_fixed.py:135-137 | With at most 8 lines, the keys are A, B, ... up to one per line, and line i is stored under letter i. |
| OptionParser.ParseOptionsOutcome | excel_to_pdf_fixed.py:127-137 | Without block matches the result is the enumerated lines when there are 1 to 8 of them, else empty. That case happens exactly when no pair occurs. |
| OptionParser.Lines | excel_to_pdf_fixed.py:129 | Each line is non-empty and is a piece of the text. |
| OptionParser.LetterFor | excel_to_pdf_fixed.py:137 | `chr(65 + i)` for i < 8 is a letter A-H. |
| OptionParser.RenderMatches | excel_to_pdf_fixed.py:122-123 | Options written one per line as `A. x` are found by the block regex as the same letters with the same values, in order. This holds when every value is non-empty, already stripped and on one line. |
| OptionParser.RenderRoundTrip | excel_to_pdf_fixed.py:122-126 | Re-parsing rendered options gives back the option map: with distinct letters the keys are exactly those letters and each holds its own value. The rendered text is non-empty and has block matches, so `ParseOptions` returns this map. |
| OptionParser.EmptyValueSwallowsNext | excel_to_pdf_fixed.py:122-126 | An empty value breaks the round trip: `\s*` runs over the newline, so `"c. \nd. y"` gives one match, c holding `d. y`, and d is lost. |
| OptionParser.BlockEndAt | excel_to_pdf_fixed.py:122 | The lazy capture ends exactly at the first position where the lookahead holds. |
| Latex.LatexEscape | excel_to_pdf_fixed.py:72-87 | Empty input gives "". Otherwise the per-character table, then the line-break rewriting. No CR is left, and every newline is preceded by `\\`. |
| Latex.EscapeCharIsTable | excel_to_pdf_fixed.py:76-83 | Applying the ten replacements in dictionary order to one character gives that character's escape. |
| Latex.TableIsPerChar | excel_to_pdf_fixed.py:82-83 | The sequence of `str.replace` calls over the table equals a per-character map of the string. |
| Latex.BackslashValue | excel_to_pdf_fixed.py:77-83 | A backslash ends as `\textbackslash\{\}`, because the brace rules run after the backslash rule. |
| Latex.BraceEscaped | excel_to_pdf_fixed.py:77-83 | A brace gains a backslash while its own entry is still ahead in the table, and is left alone once that entry is past. |
| Latex.WordUntouched | excel_to_pdf_fixed.py:77-83 | The letters of `\textbackslash` are left alone by every entry after the backslash's. |
| Latex.LaterEntriesKeep | excel_to_pdf_fixed.py:78-83 | The replacement of every entry after the backslash is stable under the entries after it. |
| Latex.EscapeCharOfKey | excel_to_pdf_fixed.py:78-80 | Every key other than the backslash maps to its own table value. |
| Latex.UnescapeEscapeAll | excel_to_pdf_fixed.py:76-83 | The per-character escape is inverted by an unescape function, so no two inputs escape alike. |
| Latex.LineBreaksShape | excel_to_pdf_fixed.py:84-86 | After the four line-break rewrites no CR remains, and every LF follows `\\`. |
| Latex.KeyIndex | excel_to_pdf_fixed.py:76-81 | Finds a character's table entry: the entry's key is that character. |
| Naming.Sanitize | excel_to_pdf_fixed.py:64 | Same length as the input. Only `0-9A-Za-z._-` in the output. Allowed characters stay in place and every other one becomes `_`. |
| Naming.SanitizeIdempotent | excel_to_pdf_fixed.py:64 | Sanitising twice is sanitising once. |
| Naming.SanitizeKeeps | excel_to_pdf_fixed.py:64 | A name of allowed characters is unchanged. |
| Naming.Basename | excel_to_pdf_fixed.py:63 | POSIX `os.path.basename`: the suffix after the last `/`, containing no `/`. |
| Naming.BasenameOfJoin | json2pdf.py:136 | The basename of `dir/name` is `name`. |
| Naming.UrlFileName | rename_images_by_url.py:27 | The basename of the URL's path component contains no `/`, `?` or `#`, so query and fragment are excluded. |
| Naming.UrlPath | download_images.py:26 | The path component of `urlparse` contains no `?` or `#`. |
| Naming.UrlFileNameOfPlainUrl | rename_images_by_url.py:27 | For `http://host/dir/name` with plain characters, the key is `name`. |
| Naming.SchemeOfHttp | rename_images_by_url.py:27 | `urlparse` reads the scheme `http` and leaves the rest. |
| Naming.AuthoritySkipped | rename_images_by_url.py:27 | The `//host` part is not part of the path. |
| Naming.DataUriExt | excel_to_pdf_fixed.py:45-49 | The extension is the subtype of the first `data:image/...;base64` in the header, cut at a further `/`, or "png" when there is none. |
| Naming.DataUriExtOfImage | excel_to_pdf_fixed.py:45-49 | `data:image/<sub>;base64` gives the extension `<sub>`. |
| Naming.DataUriExtDefault | excel_to_pdf_fixed.py:46-47 | A header without a base64 image type gives no subtype, hence "png". |
| Naming.DataUriFileName | excel_to_pdf_fixed.py:43-57 | A data URI yields a name exactly when it has a comma and its payload decodes. The name is the file it opened, and starts with `img_`. |
| Naming.FetchedFileName | excel_to_pdf_fixed.py:59-70 | A URL yields a name exactly when the request returns a status that does not raise and the sanitised name is not `.` or `..` (whose `open` raises and is caught). The name is the candidate: non-empty and sanitised. |
| Naming.DownloadName | excel_to_pdf_fixed.py:38-70 | An empty source gives None. A data URI gives a name iff it has a comma and decodes. Otherwise a name iff the fetch succeeds and the candidate is not `.` or `..`. Every name is non-empty and not a dot name, and a URL's is sanitised. |
| Naming.DataUriWritten | excel_to_pdf_fixed.py:43-55 | A data URI opens a file exactly when it has a comma, before its payload is decoded. The file is named `img_<n>.<ext>`. |
| Naming.FetchedCandidate | excel_to_pdf_fixed.py:61-64 | The name a URL would be saved under is non-empty and sanitised. |
| Naming.DotCandidate | excel_to_pdf_fixed.py:61-64 | The candidate is `.` or `..` exactly when the last segment of the decoded path is. |
| Naming.DownloadWritten | excel_to_pdf_fixed.py:38-70 | The file a call leaves in the directory: a data URI's whenever it has a comma, decoded or not; otherwise exactly the returned name. Never empty or a dot name. |
| Records.BuildRecords | excel_to_pdf_fixed.py:106-160 | The loop produces the records of all rows in order, with the final image directory. It stops when a cell makes the cleaner raise. |
| Records.AssembleRecord | excel_to_pdf_fixed.py:108-160 | One row gives its record: question, options, answer, explanation and downloaded images. |
| Records.ResolveImages | excel_to_pdf_fixed.py:140-145 | Each source is downloaded in order, every file a call creates joins the directory (an undecodable data URI's empty file included), and only the returned paths are kept. |
| Records.RecordsNumbered | excel_to_pdf_fixed.py:148 | There is one record per row, and record i has the id of i. |
| Records.RecordIdShape | excel_to_pdf_fixed.py:148 | The id is `Q` followed by at least four digits, and distinct rows get distinct ids. |
| Records.QuestionImagesFirst | excel_to_pdf_fixed.py:139-145 | `images` lists the resolved question sources, then the resolved option sources. The option downloads start from the state the question downloads left. |
| Records.ExplanationImagesNeverResolved | excel_to_pdf_fixed.py:157-158 | Changing the explanation cell changes neither the downloads nor the image list. |
| Records.DownloadsPerRecord | excel_to_pdf_fixed.py:140-145 | One download call per collected source, and at most that many paths kept. |
| Records.NonTextOptionsIgnored | excel_to_pdf_fixed.py:113-116 | A non-text option cell gives no options and contributes no images. |
| Records.EmptyAnswerCellIsNan | excel_to_pdf_fixed.py:156 | An empty (NaN) answer cell is written as "nan". |
| Records.ResolvedFacts | excel_to_pdf_fixed.py:140-145 | Each source makes one call, at most one path per source is kept, the directory only grows (also by the empty files of undecodable data URIs), and every kept path names a file in it. |
| Records.DownloadFacts | excel_to_pdf_fixed.py:38-57 | One call advances the counter, only grows the directory, and a returned path names a file in it. A data URI with a comma that does not decode returns None but still adds its `img_<n>.<ext>` file. |
| Records.UndecodableShiftsNames | excel_to_pdf_fixed.py:50-57 | After a data URI that fails to decode, the next decodable data URI is named two past the directory's earlier entry count. |
| Records.ResolvedAppend | excel_to_pdf_fixed.py:140-145 | Resolving question then option sources equals resolving their concatenation. |
| Records.EmptySourceDropped | excel_to_pdf_fixed.py:40-41 | An empty source writes nothing and yields no path. |
| Records.RaiseEndsRun | excel_to_pdf_fixed.py:107-160 | Once a row raises, the run produces no records. |
| Records.CellNodes | excel_to_pdf_fixed.py:25-27 | An empty cell is the absent input. A text cell is parsed. Any other value makes the parser raise. |
| TexBook.BuildTex | excel_to_pdf_fixed.py:168-207 | The file is the preamble, then one section per paper-type group, then `\end{document}`. |
| TexBook.GroupByPaperType | excel_to_pdf_fixed.py:181-184 | The group keys are the paper types, with a falsy one as "General", in first-appearance order. Each group holds its records in input order. |
| TexBook.WriteRecord | excel_to_pdf_fixed.py:189-206 | Writes one record's subsection: id, question, images, options, then the answer lines. |
| TexBook.WriteOptions | excel_to_pdf_fixed.py:199-200 | Writes one `\item` per option, in sorted key order. |
| TexBook.WriteImages | excel_to_pdf_fixed.py:192-196 | Writes one centred graphic per image path, in order. |
| TexBook.WriteGroup | excel_to_pdf_fixed.py:188-206 | Writes the group's records in order. |
| TexBook.KeysDistinct | excel_to_pdf_fixed.py:181-184 | Each paper type gets one section. |
| TexBook.KeysComplete | excel_to_pdf_fixed.py:182-184 | Every record's key has a section. |
| TexBook.KeysInFirstAppearanceOrder | excel_to_pdf_fixed.py:181-186 | Sections follow the order in which their paper types first appear. |
| TexBook.FirstAt | excel_to_pdf_fixed.py:182-184 | The first record of a key is the earliest one that has it. |
| TexBook.EveryRecordOnce | excel_to_pdf_fixed.py:181-188 | The group sizes add up to the number of records, and each record is in its own key's group. |
| TexBook.MembersHaveKey | excel_to_pdf_fixed.py:183-184 | A group holds only records with its key. |
| TexBook.MembersAppend | excel_to_pdf_fixed.py:182-184 | Grouping keeps input order within each group. |
| TexBook.MembersAbsent | excel_to_pdf_fixed.py:181-184 | A key with no record has an empty group. |
| TexBook.OptionsInSortedOrder | excel_to_pdf_fixed.py:199-200 | There is one `\item` per option, and the keys are strictly increasing and exactly the option keys. |
| TexBook.AnswersShownWhenPresent | excel_to_pdf_fixed.py:202-205 | Answer and explanation lines appear only when non-empty, each as one line. |
| TexBook.PracticeHidesAnswers | excel_to_pdf_fixed.py:202-205 | Without answers, a record is written as the answer-book record with answer and explanation blanked. |
| TexBook.PracticeBookIsBlankedAnswerBook | excel_to_pdf_fixed.py:168-207 | The practice book is the answer book of the same records with answers blanked. |
| TexBook.UnansweredGrouping | excel_to_pdf_fixed.py:181-184 | Blanking answers changes neither the groups nor their order. |
| ImageMapping.ExtractMapping | rename_images_by_url.py:12-31 | The mapping maps exactly the file names seen. It is injective and dense, with values 0..len-1. |
| ImageMapping.AddName | rename_images_by_url.py:27-30 | A new name gets the counter as its index and the counter grows by one. A known name changes nothing. |
| ImageMapping.AddSources | rename_images_by_url.py:25-30 | Handling a field's matches extends the mapping by their file names in order. |
| ImageMapping.AddQuestion | rename_images_by_url.py:23-30 | `question_raw` is handled before `explanation_raw`. |
| ImageMapping.BuildWellFormed | rename_images_by_url.py:20-30 | The keys are distinct and exactly the names seen, and key i maps to i, so the counter ends at len(mapping). |
| ImageMapping.Injective | rename_images_by_url.py:28-30 | Distinct file names get distinct indices. |
| ImageMapping.FirstOccurrence | rename_images_by_url.py:28-30 | The index of a name is the number of distinct names seen before its first occurrence. |
| ImageMapping.FirstAppearanceOrder | rename_images_by_url.py:21-30 | A name that appears first earlier gets the smaller index. |
| ImageMapping.BuildPrefix | rename_images_by_url.py:21-30 | Later names never change an index already given. |
| ImageMapping.RenameImages | rename_images_by_url.py:33-51 | An empty mapping gives the warning and copies nothing. Otherwise the outcome and the output directory follow the copy plan. |
| ImageMapping.CopyImages | rename_images_by_url.py:42-49 | The copy loop follows the copy plan, and the output directory gains exactly its destinations. |
| ImageMapping.PlanSound | rename_images_by_url.py:42-49 | Every copy is of a present mapped name to `{index}.png`. Every reported missing name is mapped and absent. |
| ImageMapping.PlanComplete | rename_images_by_url.py:42-49 | When no key names a directory, every present name is copied, every absent name is reported, and nothing raises. |
| ImageMapping.PlanDestsDistinct | rename_images_by_url.py:44 | Destination names are pairwise distinct. |
| ImageMapping.DestInjective | rename_images_by_url.py:44 | Distinct indices give distinct `{idx}.png` names. |
| ImgTags.QuestionSrcsOrder | rename_images_by_url.py:23-25 | A question's sources are those of `question_raw`, then those of `explanation_raw`. |
| ImgTags.SrcsShape | rename_images_by_url.py:25 | Each captured source is non-empty and contains no `"`. |
| ImgTags.SimpleTag | rename_images_by_url.py:25 | `<img src="u">` yields exactly `u`. |
| ImgTags.NoTagNoSrcs | download_images.py:24 | Text without `<img` yields no sources. |
| ImgTags.AllSrcsAppend | download_images.py:21-25 | Sources are collected in question order. |
| ImgTags.LastSrc | rename_images_by_url.py:25 | The greedy `[^>]+` backtracks to the last `src="` before the tag's `>`. |
| ImgTags.FileNames | rename_images_by_url.py:26-27 | Each source's key is its URL file name, in order. |
| Reconcile.CollectNeeded | check_images.py:7-20 | The result is strictly ascending. It holds exactly the integers of the `[IMAGE:n]` placeholders in `question` and `explanation` of any question. |
| Reconcile.AddQuestionIndices | check_images.py:16-19 | One question adds the indices of both fields. |
| Reconcile.NeededMembers | check_images.py:14-19 | An integer is needed iff some question asks for it. |
| Reconcile.QuestionIndicesMembers | check_images.py:16-19 | A question's indices are those its question or explanation field asks for. |
| Reconcile.PlaceholderAsksFor | check_images.py:18-19 | A question holding `[IMAGE:n]` asks for n only. |
| Reconcile.ParseDigits | check_images.py:19 | `int` of a digit string is its decimal value, so leading zeros collapse. |
| Reconcile.StemOfIndexName | check_images.py:24 | `n.png` is a png whose stem parses back to n. |
| Reconcile.DotsOnlyName | check_images.py:24 | A name made only of dots before `png` (`.png`, `..png`, ...) keeps its whole name as stem, which `int` rejects. |
| Reconcile.PngNames | check_images.py:24 | Exactly the directory entries ending in `.png`. |
| Reconcile.GatherSpec | check_images.py:24 | Either every stem parses and the values correspond one by one, or the first bad stem is reported, which makes the script raise. |
| Reconcile.CheckImages | check_images.py:22-39 | A bad stem raises. Otherwise `needed` is the sorted needed set and `found` is a sorted permutation of the stems. `missing` and `extra` are exactly the two comprehensions: needed minus found and found minus needed, in order, so `extra` keeps every copy of a stem listed twice (`1.png` and `01.png` give `[1, 1]`). The OK message is printed iff the two sets are equal. Nothing is written. |
| Reconcile.WithoutMembers | check_images.py:30-31 | The comprehension keeps exactly the elements of the first list absent from the second. |
| Reconcile.WithoutOrdered | check_images.py:30-31 | The comprehension keeps the first list's order. |
| Reconcile.WithoutCount | check_images.py:30-31 | The comprehension keeps every copy of an element absent from the other list and no copy of one present in it. |
| Reconcile.WithoutBothEmpty | check_images.py:33 | `missing` and `extra` are both empty iff the two lists hold the same integers. |
| Reconcile.LastIndex | check_images.py:24 | The last occurrence of a character before a bound. |
| Reconcile.Stem | check_images.py:24 | `os.path.splitext(f)[0]` is a prefix of the name. |
| Localize.PrepareImages | prepare_images.py:8-37 | The output list has the input's length and order. Question i (counting from 1) is localised. The destination directory gains exactly the copied names. |
| Localize.LocalizeQuestion | prepare_images.py:17-33 | One question gains `_local_images`, computed from its `stem`. |
| Localize.LocalImages | prepare_images.py:22-31 | One entry per placeholder occurrence, duplicates included. The copies are made in order. |
| Localize.OnlyLocalImagesChanges | prepare_images.py:32 | A question only gains `_local_images`; every other key is kept. |
| Localize.NoStemNoImages | prepare_images.py:18 | A question without `stem` gets an empty list. |
| Localize.Entries | prepare_images.py:20-22 | One entry per occurrence of `[IMAGE:n]` in the stem. |
| Localize.EntriesAt | prepare_images.py:22-31 | Entry mi is `images/q_{qi:04d}_img{mi}.png` when `{n}.png` exists, else "". |
| Localize.ImgNameInjective | prepare_images.py:23 | Distinct (qi, mi) pairs give distinct names. |
| Localize.EntriesDistinct | prepare_images.py:17-31 | Non-empty entries are pairwise distinct across all questions and occurrences. |
| Localize.EntriesCopied | prepare_images.py:26-28 | A non-empty entry names a file that was copied. |
| Localize.ImgNameParts | prepare_images.py:23 | The name is `q_`, the 4-digit padded qi, `_img`, mi, `.png`. |
| Localize.AsList | prepare_images.py:32 | The JSON list holds the entries in order. |
| Downloader.DownloadMissingImages | download_images.py:13-44 | The run is the skip/fetch state machine over every source of every question, in order. `total` is the number of sources, `downloaded` is at most `total`, and the directory gains exactly the written names. |
| Downloader.FetchOne | download_images.py:26-42 | One source: skip when the name exists, else fetch. Write and count on status 200 only. |
| Downloader.FetchSources | download_images.py:25-42 | A field's matches are handled in order. |
| Downloader.FetchQuestion | download_images.py:22-42 | `question_raw` is handled before `explanation_raw`. |
| Downloader.RunFacts | download_images.py:28-36 | `total` counts every source, `downloaded` counts the `[DOWNLOADED]` lines, and the directory gains exactly the downloaded names. |
| Downloader.Summary | download_images.py:44 | The third figure `total - downloaded` counts every line that is not a download, failures included. |
| Downloader.CountSplit | download_images.py:44 | Downloaded and kept lines partition the log. |
| Downloader.FetchOnlyWhenAbsent | download_images.py:29-40 | A request is made iff the name is absent when the source is reached. A write happens iff, in addition, the status is 200. |
| Downloader.NeverOverwrites | download_images.py:29-36 | No downloaded name was in the starting directory, and no name is downloaded twice. |
| Downloader.DownloadedWasAbsent | download_images.py:29 | Existing files are never overwritten. |
| Downloader.DownloadsDistinct | download_images.py:29-36 | No file is written twice in a run. |
| Downloader.DirGrows | download_images.py:33-34 | The directory only grows. |
| Downloader.AllCovered | download_images.py:29-36 | When every source was downloaded or skipped, every source's name is in the directory afterwards. |
| Downloader.AllPresentSkips | download_images.py:29-42 | When every name is present, the run writes and counts nothing. |
| Downloader.SecondRunFetchesNothing | download_images.py:29-42 | After a run in which every fetch succeeded, a second run makes no request and downloads nothing. |
| Downloader.LogAt | download_images.py:25-42 | The k-th line is decided by the state after the first k sources. |
| Json.Questions | json2pdf.py:122-125 | A list is taken as is. An object gives its `questions` entry, or empty. |
| Json.Get | python_20250825_MRKfRn.py:185-190 | `dict.get` returns the stored value or the default. |
| Json2Pdf.EscapeLatexMath | json2pdf.py:84-114 | Empty input gives "". No table symbol remains. Apart from added `$`, the output is the input with the table applied. |
| Json2Pdf.NoSymbolLeft | json2pdf.py:89-112 | None of the 12 symbols survives the three steps. |
| Json2Pdf.ReplacedHasNoSymbol | json2pdf.py:105-106 | After the table loop no symbol remains. |
| Json2Pdf.ReplacedStep | json2pdf.py:105-106 | Each `str.replace` in order equals one more entry of the per-character table. |
| Json2Pdf.ReplacedNoSymbols | json2pdf.py:105-106 | Text without symbols is unchanged by the table. |
| Json2Pdf.KeyIndexOfKey | json2pdf.py:89-102 | The 12 keys are distinct. |
| Json2Pdf.ValueHasNoSymbol | json2pdf.py:89-102 | No replacement reintroduces a symbol. |
| Json2Pdf.ItalicsShape | json2pdf.py:109 | Every math-italic letter is wrapped as `$x$`. Nothing but `$` is added. |
| Json2Pdf.ItalicsNone | json2pdf.py:109 | Text without math-italic letters is unchanged. |
| Json2Pdf.ScriptsKeeps | json2pdf.py:112 | The script substitution only adds `$` characters. |
| Json2Pdf.WrapsWord | json2pdf.py:112 | An alnum run, then `^` or `_`, then an alnum run, standing alone, is wrapped whole in `$...$`. |
| Json2Pdf.Separated | json2pdf.py:112 | A character that is neither `[A-Za-z0-9]` nor `^`/`_` splits the text: the wrapping of `x + [c] + y` is the wrapping of x, then c, then the wrapping of y. |
| Json2Pdf.ScriptsBefore | json2pdf.py:112 | At a character that is neither `[A-Za-z0-9]` nor `^`/`_`, the wrapping of a text is the wrapping of what comes before it, then that character, then the wrapping of what comes after it. |
| Json2Pdf.NoScriptUnchanged | json2pdf.py:112 | Text without `^` or `_` is unchanged. |
| Json2Pdf.ScriptMatch | json2pdf.py:112 | A match spans at least three characters. |
| Json2Pdf.PlainTextUnchanged | json2pdf.py:84-114 | Text without symbols, italics or script operators is returned unchanged. |
| Json2Pdf.JsonToLatex | json2pdf.py:117-165 | One block per question, numbered from 1 in order, each with the fields its item selects. A falsy title becomes "Questions". The script raises if some item cannot be rendered: a truthy non-text field, a non-dict `options`, or a non-text `image`. The model raises exactly then; the copy failing is not modelled. |
| Json2Pdf.BlockOf | json2pdf.py:131-153 | The block carries the question's number. |
| Json2Pdf.OtherOptionsIgnored | json2pdf.py:145-148 | Only options A-D are rendered, so other keys do not matter. |
| Json2Pdf.MissingOptionEmpty | json2pdf.py:145-148 | A missing option becomes "". |
| Json2Pdf.ImageShown | json2pdf.py:132-140 | An image block appears iff `image` is non-empty text naming an existing file, and it uses the basename. |
| Json2Pdf.EscapeValue | json2pdf.py:86-87 | A falsy value gives "". A truthy non-text value makes the script fail. |
| HtmlViewer.CleanHtmlIdempotent | python_20250825_MRKfRn.py:154-159 | The result holds no `<...>` span without a newline, and cleaning again changes nothing. |
| HtmlViewer.NoAngleUnchanged | python_20250825_MRKfRn.py:158-159 | Text without `<` is unchanged. |
| HtmlViewer.StripNoTag | python_20250825_MRKfRn.py:158-159 | The lazy substitution leaves no removable span. |
| HtmlViewer.TagAt | python_20250825_MRKfRn.py:158 | A match is `<`, the shortest run without `>` or newline, then `>`. |
| HtmlViewer.CleanHtmlKeepImages | python_20250825_MRKfRn.py:133-152 | Falsy input gives "". Otherwise the result is each `<img...>` tag wrapped in a formula div, in reverse order of appearance, then `clean_html(text)`. |
| HtmlViewer.PrependedReversed | python_20250825_MRKfRn.py:147-150 | `replace('', x, 1)` in a loop prepends, which reverses the order. |
| HtmlViewer.ImgTagsShape | python_20250825_MRKfRn.py:139-140 | Each found tag starts with `<img`, ends at its first `>`, and is longer than five characters. |
| HtmlViewer.BuildOptions | python_20250825_MRKfRn.py:174-178 | The options HTML is the option div of each non-blank segment, in order. |
| HtmlViewer.OptionsBlocks | python_20250825_MRKfRn.py:174-178 | Blank segments are dropped, and each other one is cleaned and wrapped in order. |
| HtmlViewer.StripBlank | python_20250825_MRKfRn.py:176 | `opt.strip()` is truthy iff the segment is not all whitespace. |
| HtmlViewer.Kept | python_20250825_MRKfRn.py:175-176 | No kept segment is blank. |
| HtmlViewer.GenerateHtml | python_20250825_MRKfRn.py:161-198 | Each item gains its missing defaults. There is one card per item, in order, built from the defaulted item. |
| HtmlViewer.RenderCard | python_20250825_MRKfRn.py:169-196 | One card from one defaulted item. |
| HtmlViewer.DefaultsKeep | python_20250825_MRKfRn.py:164-167 | Existing keys keep their values. Only 答案/解题思路/选项/题目 are added, as "". |
| HtmlViewer.WithDefaults | python_20250825_MRKfRn.py:164-167 | The four keys are present afterwards. |
| HtmlViewer.NumberingAndDividers | python_20250825_MRKfRn.py:184-195 | Question i is numbered i+1, and a divider follows every question but the last. |
| HtmlViewer.YearKeptWhenEmpty | python_20250825_MRKfRn.py:188 | An empty year is kept; 未指定 only replaces an absent key. |
| HtmlViewer.SourceKeyIgnored | python_20250825_MRKfRn.py:190 | The source is read under the literal key at line 190, so a `来源` entry is ignored and the default 未指定 shows. |
| Placeholders.PlaceholderFound | check_images.py:18 | The placeholder the cleaner writes for n is found again with the digits of n. |
| Placeholders.NegativeInvisible | check_images.py:18 | A placeholder with a negative index, such as the `[IMAGE:-1]` the extractor writes, yields no token under `\[IMAGE:(\d+)\]`. |
| Placeholders.PlaceholderInjective | excel_to_pdf_fixed.py:34 | Distinct indices are written as distinct placeholders. |
| Placeholders.TokensFrom | prepare_images.py:20 | Each captured token is a non-empty run of digits. |
| Placeholders.NoPrefixNoTokens | prepare_images.py:20 | Text without `[IMAGE:` has no tokens. |
| PyText.Strip | excel_to_pdf_fixed.py:126 | `str.strip()` removes exactly the leading and trailing Unicode whitespace. It is empty iff the text is all whitespace. |
| PyText.SplitLines | excel_to_pdf_fixed.py:129 | Each line is a piece of the text without line breaks. |
| PyText.StrippedNonEmpty | excel_to_pdf_fixed.py:129 | Each kept line is the non-empty strip of some line. |
| PyText.JoinSplit | python_20250825_MRKfRn.py:174 | Joining the `split` pieces with the separator gives back the text. |
| PyText.Split | python_20250825_MRKfRn.py:174 | At least one piece, each a piece of the text. |
| PyText.ReplaceCharRemoves | excel_to_pdf_fixed.py:83 | Replacing a character by text without it leaves none of it. |
| PyText.ReplaceCharAbsent | excel_to_pdf_fixed.py:83 | Replacing an absent character changes nothing. |
| PyText.ReplaceAllOneChar | excel_to_pdf_fixed.py:83 | `replace` of a one-character pattern is the per-character substitution. |
| PyText.ReplaceAllChars | excel_to_pdf_fixed.py:84-86 | `replace` only introduces characters of the replacement. |
| PyText.NatToString | excel_to_pdf_fixed.py:148 | Decimal digits without a leading zero. |
| PyText.DigitsValueOfNatToString | check_images.py:19 | `int(str(n)) == n`. |
| PyText.ZeroPad | prepare_images.py:23 | `:04d` pads with zeros to at least four digits. |
| PyText.ZeroPadValue | excel_to_pdf_fixed.py:148 | Padding keeps the value. |
| PyText.ZeroPadInjective | prepare_images.py:23 | Distinct numbers pad differently. |
| PyText.ZeroPadShape | excel_to_pdf_fixed.py:148 | Zeros followed by the decimal digits. |
| Order.SortedSet | check_images.py:20 | `sorted(set)` is strictly ascending, with the set's members. |
| Order.Sort | check_images.py:25 | `sorted(list)` is non-decreasing and a permutation. |
| Order.SortedChars | excel_to_pdf_fixed.py:199 | `sorted(keys)` is strictly ascending, with the keys. |

## Left out

- HTML parsing and `get_text` are not modelled. BeautifulSoup's result is the input: a sequence of text strings and img elements in document order. `get_text(separator="\n", strip=True)` is modelled as joining the stripped, non-empty text pieces with newlines.
- pandas is not modelled: `read_excel`, `read_excel_safe` and `row.get` on a Series. A row is a map from column name to value, with `Null` for NaN. `iterrows` is assumed to number rows 0..n-1, as it does for a freshly read sheet.
- TexBook.GroupByPaperType: a NaN `paper_type` cell is grouped under "General". Python's `nan` is truthy and would form a group of its own. NaN is an empty-cell marker here, not a float.
- Python's `1 == True` equality of dict keys is not modelled: `Int(1)` and `Bool(true)` are distinct group keys.
- A non-text, non-empty cell makes the parser raise, and the model stops the run (`None`) there. The exception's text is not modelled.
- JSON floats are not modelled. Numbers are integers.
- I/O is not modelled. That covers network fetches, base64 decoding, `os.listdir`, `os.path.exists`, `shutil.copy`/`copy2`, `mkdir`, JSON reads and writes, and file contents. The model stands in with these:
  - a directory is a set of names;
  - a fetch is an oracle giving a status or a raised exception;
  - decoding is a predicate on the payload.
- Console messages are not modelled, except where they are the output: the download log and the check's outcome.
- The xelatex calls, `argparse` and the top-level script code with fixed Windows paths are not modelled.
- `unquote`, `os.path.relpath`, `os.path.join`, `str()` of non-text values and the file's `Path.exists` are parameters. The model assumes nothing about them.
- `urlparse` is modelled only as far as the path component: scheme, netloc, params, query and fragment splitting. IPv6 literal checks and `unquote` are not modelled.
- `os.path.basename` is modelled POSIX-style. Only `/` separates; the Windows `\` does not.
- The LaTeX and HTML template text and `%`/`str.format` filling are not modelled. Rendering is modelled as the record, block or card of fields each template receives. The LaTeX book is the sequence of strings handed to `f.write`.
- Records.BuildRecords: the `type`, `difficulty` and `year` fields are copied from the row. `question_raw` and `explanation_raw` are kept as the cell values.
- Json2Pdf.JsonToLatex: the copy of the image file into `images/` is not modelled; only the basename the block uses is. So the script's other raise, a `shutil.copy` that fails (an `image` naming a directory, say), is not in the model either.
- Json2Pdf.JsonToLatex: the answer and explanation are escaped like the other fields, and no property beyond that is stated for them.
- HtmlViewer.GenerateHtml: the `tags` field (default 无) and the answer are passed through as the item holds them, and no property is stated for them.
- Downloader.DownloadMissingImages: only the file name written is modelled, not the response body. A `[FAIL]` line does not carry the exception text.
- ImageMapping.RenameImages: the final `[FINISHED]` count line is not modelled.
- Json.Document: a `questions` value that is null or not a list, and question items that are not objects, cannot be represented. The scripts raise on them (e.g. `item.get` or `"image" in item` in json2pdf.py:131-133), and the model has no such input.
- Placeholders.TokensFrom: `\d` in Python matches every Unicode decimal digit, such as `３`. The scanner accepts only ASCII `0-9`, so a token written with other digits is not found.
- Placeholders.DigitRunEnd: the run ends at the first non-ASCII-digit, so other Unicode decimal digits end it.
- Reconcile.CollectNeeded: only placeholders with ASCII digits are collected, for the reason given under Placeholders.TokensFrom.
- Reconcile.CheckImages: `int()` of a stem also accepts other Unicode decimal digits, so a file named `３.png` is found as 3 by the script but is a bad stem in the model.
- Reconcile.ParseSigned: only ASCII digits are accepted, for the same reason.
- Localize.Entries: only placeholders with ASCII digits give entries, as under Placeholders.TokensFrom.
- Naming.DataUriWritten: an extension holding a NUL character, or a name longer than the file system allows, makes `open` raise. The model assumes the file is created.

