# PDFReader annotation and text core, in Dafny

PDFReader is a reading tool for PDF documents. A reader highlights passages, comments
on them and takes notes filed under topics. This project models the logic under that
tool in Dafny and proves properties of the model. The model has four modules:

- `Annotations` (`annotation_manager.dfy`) is the annotation store. Each document maps
  to a record with three kind lists: highlights, comments and notes. The store gives
  every new entry the next id. Notes are also filed under topics. Highlights are drawn
  onto the text, longest first. Entries can be deleted by id, summarised and searched.
  The caller's dictionaries are updated in place, so they are classes
  (`AnnotationStore`, `TopicStore`). `AnnotationManager` carries the two storage
  directories.
- `PdfProcessing` (`pdf_processor.dfy`) covers several text operations:
  - assembling a document's text from its page texts, and the page cache of
    `PdfProcessor`;
  - line search with three lines of context, and emphasis of the search term;
  - greedy packing of words into display chunks;
  - extraction of heading-like topics;
  - the integer text statistics.
- `Utils` (`utils.dfy`) holds the helpers:
  - file-name cleaning and truncation;
  - a line search that returns numbered hits with context;
  - the colour table;
  - the record an export writes and an import reads back;
  - the integer reading statistics.
- `Text` (`text.dfy`) models the Python string operations the three files rely on. It
  covers `strip`, `split()`, `split(sep)`, `join`, `in`, `find`, `count`, `replace`,
  `lower`, the string `<` and decimal formatting. All of them are at the ASCII level.

Some things are inputs to the model rather than computed by it:

- the clock, as a timestamp string `now`;
- the outcome of each save to disk, as a boolean;
- the texts the PDF library extracts, as a sequence of page strings;
- the dictionaries that would be loaded from disk;
- the iteration order of the topic dictionary, as a sequence of `(name, topic)` items
  that lists each name of the dictionary once, with its topic.

Over those inputs, each loop of the source is a Dafny method. Each method is proved
against a specification function, and lemmas state what the source promises about
that function.

Some behaviours of the code are worth knowing:

- **Shorter highlights are re-wrapped.** `apply_highlights_to_text` sorts highlights
  longest first to avoid nested highlighting (annotation_manager.py:192), but the sort
  does not achieve that. The loop (annotation_manager.py:195-205) replaces the first
  occurrence of each highlight in the working text. That text includes the marks added before, so a shorter highlight is
  wrapped again inside the longer one's mark. It can even be wrapped inside the mark's
  tag: `Annotations.HighlightMarksInsideMarkup` proves such a case.
- **Unknown documents report no topics.** For a document without annotations, the
  summary reports `total_topics` 0 whatever the topics file holds
  (annotation_manager.py:219-226).
- **A negative context reaches from the back.** In `search_text_with_context`
  (utils.py:100-111), a negative `context_lines` = -d gives a window start of `i + d`
  and an end of `i - d + 1`. Both slice bounds and the index `i - start` then count
  from the back, as Python's do. For a matching line `i` of `n` lines, the search raises
  `IndexError` unless `i + 1 < d` and `3d <= n + 1`. Otherwise the window is lines
  `i + d` to `n + i - d`, and the emphasised line replaces the window's line at index
  `n - 3d + 1`, which is not line `i`. The model follows these rules exactly.

## Model

| member | source | states |
|---|---|---|
| Annotations.Sanitize | annotation_manager.py:16 | the sanitised name has the length of the input |
| Annotations.SanitizeSafe | annotation_manager.py:16 | every character of the result is a word character, `-` or `.`, and every such character of the input keeps its place |
| Annotations.SanitizeFixedIff | annotation_manager.py:16 | a name is unchanged exactly when all its characters are safe; sanitising twice equals sanitising once |
| Annotations.AnnotationManager.AnnotationFilePath | annotation_manager.py:14-17 | the annotations file is `annotations/<sanitised name>_annotations.json` |
| Annotations.AnnotationManager.TopicsFilePath | annotation_manager.py:19-22 | the topics file is `topics/<sanitised name>_topics.json` |
| Annotations.StoragePathSameIff | annotation_manager.py:14-22 | two documents share a storage file exactly when their sanitised names agree |
| Annotations.StoragePathCollision | annotation_manager.py:16-17 | "my notes.pdf" and "my/notes.pdf" are stored in the same file |
| Annotations.KindOf | annotation_manager.py:263 | the record key `highlights`, `comments` or `notes` names its kind; any other key names none |
| Annotations.DocAnnotations.Put | annotation_manager.py:268 | assigning a kind's list sets that slot and leaves the other two slots alone |
| Annotations.Preview | annotation_manager.py:89 | the preview is the text when it has at most 100 characters, else its first 100 characters and "..."; never longer than 103 |
| Annotations.NewEntriesTrimmed | annotation_manager.py:84-90 | new entries hold the stripped text, comment, note and topic, the given timestamp, and the preview of the stripped text |
| Annotations.AppendedGrows | annotation_manager.py:77-92 | a successful add grows the kind's list by the one entry at its end; the record's other lists and all other documents are unchanged |
| Annotations.AppendedToNewDoc | annotation_manager.py:77-82 | an unknown document first gets three empty lists, so the chosen list then holds the new entry alone |
| Annotations.AppendedMissingList | annotation_manager.py:92 | a stored record without the kind's list makes the append fail and leaves the store unchanged |
| Annotations.AppendedIdIsPosition | annotation_manager.py:85 | the id, old length + 1, is the entry's 1-based position in its list |
| Annotations.AnnotationManager.AddHighlight | annotation_manager.py:74-97 | the store becomes the append of the new highlight; the result is true exactly when the list existed and the save succeeded |
| Annotations.AnnotationManager.AddComment | annotation_manager.py:99-122 | the same for a comment, whose comment text is stripped |
| Annotations.AnnotationManager.AddNote | annotation_manager.py:124-172 | the note is appended and a copy with the same id is filed under the unstripped topic key; true only when both saves succeed |
| Annotations.FiledOnce | annotation_manager.py:148-162 | filing appends exactly one copy; an existing topic keeps its name, creation time and lists; a new one starts empty; other topics are unchanged |
| Annotations.RemovedEffect | annotation_manager.py:259-270 | with the document or kind missing nothing changes; otherwise the list keeps exactly the entries of other ids, in order, and nothing else changes |
| Annotations.RemovedAbsentId | annotation_manager.py:268-270 | deleting an id no entry has leaves the store as it was |
| Annotations.AnnotationManager.DeleteAnnotation | annotation_manager.py:259-276 | the store becomes the removal; the result is true exactly when the document and kind exist and the save succeeded |
| Annotations.BackgroundDefault | annotation_manager.py:184-198 | the colour table has five entries; an unknown colour and "Light Yellow" render on `#FFFFE0` |
| Annotations.SortByLengthSorted | annotation_manager.py:193 | the sorted highlights are longest first |
| Annotations.SortByLengthPermutes | annotation_manager.py:193 | sorting is a permutation |
| Annotations.SortByLengthStable | annotation_manager.py:193 | for each length, the highlights of that length keep their original order |
| Annotations.InsertStable | annotation_manager.py:193 | inserting into a longest-first list puts the entry after all entries of its own length |
| Annotations.InsertKeepsOrder | annotation_manager.py:193 | inserting into a longest-first list keeps it longest first |
| Annotations.SortTwo | annotation_manager.py:193 | of two highlights the longer comes first |
| Annotations.SortKeepsHighlights | annotation_manager.py:193 | the sorted list holds only highlights exactly when the original does |
| Annotations.ApplyOneFirst | annotation_manager.py:196-205 | one highlight wraps only the first occurrence of its stripped text in a mark with its background, or changes nothing when the text does not occur |
| Annotations.ApplyOneAtStart | annotation_manager.py:204-205 | a highlight whose text starts the working text is wrapped at the start |
| Annotations.ApplyTwo | annotation_manager.py:195-205 | two highlights are applied in list order, the second to the first's result |
| Annotations.ApplyAllAbsent | annotation_manager.py:195-205 | highlights none of whose texts occur leave the text unchanged |
| Annotations.HighlightedTextSorted | annotation_manager.py:177-205 | with a highlights list present, the result is the highlights applied one by one in stable longest-first order |
| Annotations.HighlightMarksInsideMarkup | annotation_manager.py:193-205 | with highlights "<" and "ab" over "ab", the "<" is marked inside the opening tag of the "ab" mark |
| Annotations.AnnotationManager.ApplyHighlightsToText | annotation_manager.py:174-207 | the loop computes the rendering above; with no highlights key, or an empty record, the text is returned unchanged |
| Annotations.MaxOfIsMax | annotation_manager.py:239 | `max` of the timestamps is one of them, and none is greater in Python's string order |
| Text.StrLtIrreflexive | annotation_manager.py:239 | no string is below itself |
| Text.StrLtTransitive | annotation_manager.py:239 | the string order is transitive |
| Text.StrLtTotal | annotation_manager.py:239 | of two different strings one is below the other |
| Annotations.AllStampsOf | annotation_manager.py:231-237 | the collected timestamps are those of the highlights, then the comments, then the notes |
| Annotations.SummaryFacts | annotation_manager.py:213-247 | an unknown document gets the all-zero summary; otherwise the counts are the list lengths and the topic count, and the last modification is the greatest timestamp, absent exactly when there are no entries |
| Annotations.AnnotationManager.GetAnnotationSummary | annotation_manager.py:213-247 | the nested loops compute that summary |
| Annotations.SelectMembers | annotation_manager.py:298-313 | an entry is found exactly when it is in the list and its fields mention the lower-cased query |
| Annotations.SelectAll | annotation_manager.py:298-313 | a list all of whose entries match is found in full |
| Annotations.SelectSubsequence | annotation_manager.py:298-313 | each search bucket is a subsequence of its list |
| Annotations.AnnotationManager.SearchList | annotation_manager.py:298-313 | the loop over one list computes that selection |
| Annotations.MatchingTopicsMembers | annotation_manager.py:316-324 | a topic is found exactly when some item carries it and its name or one of its notes mentions the query |
| Annotations.MatchingTopicsOnce | annotation_manager.py:316-324 | no topic is reported more often than it occurs among the items |
| Annotations.AnnotationManager.SearchTopics | annotation_manager.py:316-324 | the loop with its inner `break` computes the found topics in item order |
| Annotations.EmptyQueryFindsAll | annotation_manager.py:287-324 | there is no empty-query guard: an empty query finds every entry and every topic |
| Annotations.TopicsOncePerName | annotation_manager.py:316-324 | over the items of a topic dictionary, the found topics are the dictionary's topics under distinct names, and a name is reported exactly when its topic is found |
| Annotations.AnnotationManager.SearchAnnotations | annotation_manager.py:278-326 | an unknown document gives four empty buckets; otherwise each bucket is the selection of its list or of the topics, and each topic of the dictionary is reported at most once, exactly when it is found |
| PdfProcessing.PdfProcessor.ExtractText | pdf_processor.py:12-30 | the text is the page sections of the non-empty pages in order; the cache gains an entry per such page; the path is recorded |
| PdfProcessing.FullTextPageCount | pdf_processor.py:17-21 | when no page text holds the marker, the page count of the assembled text is the number of non-empty pages |
| PdfProcessing.SectionCount | pdf_processor.py:20-21 | a page section holds the marker once |
| PdfProcessing.FullTextEndsWithNewline | pdf_processor.py:20-21 | non-empty assembled text ends with a line break |
| PdfProcessing.TextStatistics | pdf_processor.py:194-209 | the line count is the number of line breaks + 1 and the character count is the length |
| PdfProcessing.MarkEveryPosition | pdf_processor.py:94-106 | an empty term emphasises every position: 4 characters at each of the n+1 positions |
| PdfProcessing.HighlightCaseSensitive | pdf_processor.py:94-99 | case-sensitive emphasis is replacing every occurrence by `**term**` |
| PdfProcessing.HighlightIgnoringCase | pdf_processor.py:100-106 | ignoring case, the lower-cased result is that replacement on the lower-cased text |
| PdfProcessing.HighlightAbsent | pdf_processor.py:100-106 | text without the term in any case is unchanged |
| PdfProcessing.SearchResultsPerMatch | pdf_processor.py:67-78 | one result per line containing the query, in line order, each the emphasised context of its line |
| PdfProcessing.SearchText | pdf_processor.py:53-80 | a blank query gives nothing; otherwise the results are those of the lines of the (lower-cased unless case-sensitive) text |
| PdfProcessing.SearchIgnoringCase | pdf_processor.py:60-68 | ignoring case, a line is reported exactly when the original line matches case-insensitively |
| Text.ContextWindow | pdf_processor.py:70-73 | the context is a run of consecutive lines starting at `max(0, i-r)`, at most 2r+1 long, inside the text and holding line i |
| PdfProcessing.FitCountBounds | pdf_processor.py:175-184 | the words taken fit the room left, and the next word would not |
| PdfProcessing.GroupsFlatten | pdf_processor.py:171-187 | the chunks' words, in order, are the piece's words |
| PdfProcessing.GroupsFit | pdf_processor.py:175-187 | each chunk's accumulated length is within the size unless it is a single word |
| PdfProcessing.GroupsClosed | pdf_processor.py:178-181 | a chunk is closed only when the next word would not have fitted |
| PdfProcessing.GroupsAreWords | pdf_processor.py:171-187 | every chunk is made of whole words of the piece |
| PdfProcessing.JoinLength | pdf_processor.py:179-184 | `current_length` equals the joined chunk's length + 1 |
| PdfProcessing.PageChunksProperties | pdf_processor.py:162-187 | each chunk is within the size or a single word; for a packed piece, re-splitting the chunks gives back its words |
| PdfProcessing.PackWords | pdf_processor.py:171-187 | the loop with `current_chunk` and `current_length` computes the greedy packing, joined by spaces |
| PdfProcessing.SplitTextIntoChunks | pdf_processor.py:152-189 | the loops compute the chunks of the non-blank pieces between page markers; the result is empty exactly for empty text |
| PdfProcessing.CandidateLong | pdf_processor.py:139-145 | a proposed topic is longer than 2 characters |
| PdfProcessing.ProposalsLong | pdf_processor.py:119-145 | every line's proposed topic is longer than 2 characters |
| PdfProcessing.DistinctNoRepeats | pdf_processor.py:144-145 | the kept topics are distinct |
| PdfProcessing.DistinctSameElements | pdf_processor.py:144-145 | every proposed topic is kept, and nothing else |
| PdfProcessing.CandidatesStep | pdf_processor.py:119-145 | each line adds its proposed topic unless it was seen before |
| PdfProcessing.CollectTopics | pdf_processor.py:117-145 | the loop keeps the distinct proposals in order of first appearance |
| PdfProcessing.ExtractTopicsFromText | pdf_processor.py:111-147 | the first 20 distinct proposals: at most 20, distinct, each longer than 2 characters |
| PdfProcessing.TopicsOfLines | pdf_processor.py:144-147 | any prefix of the distinct proposals is repetition-free with topics longer than 2 |
| Utils.CleanFilenameClean | utils.py:41-50 | the cleaned name holds only safe characters, never `__`, and neither starts nor ends with `_` |
| Utils.CleanFilenameFixedIff | utils.py:41-50 | a name is unchanged exactly when it already has those three properties |
| Utils.CleanFilenameIdempotent | utils.py:41-50 | cleaning a cleaned name changes nothing |
| Utils.Collapse | utils.py:47 | collapsing underscore runs never lengthens the name |
| Utils.CollapseSafe | utils.py:47 | collapsing keeps a name of safe characters safe |
| Utils.CollapseNoDouble | utils.py:47 | collapsing underscore runs leaves no `__` |
| Utils.CollapseFixed | utils.py:47 | a name without `__` comes through the collapse unchanged |
| Utils.StripUnderscoreFacts | utils.py:49 | stripping underscores keeps a slice with no `_` at either end |
| Utils.StripUnderscoreFixed | utils.py:49 | a name without `_` at either end comes through the strip unchanged |
| Utils.TruncateText | utils.py:61-65 | a text that fits is returned; otherwise a prefix of it followed by "...", of length max_length + 3 for a non-negative maximum |
| Utils.SliceBound | utils.py:65 | where a Python slice bound lands: in range as given, clamped above to the length, counted from the back and floored at 0 when negative |
| Utils.PyIndex | utils.py:111 | a Python index lands inside the sequence, counted from the back when negative, and raises exactly when out of range on either side |
| Utils.PreviewIsTruncation | utils.py:61-65 | the stored preview is `truncate_text` with its default length |
| Utils.EmphasiseNeedsExactCase | utils.py:98-110 | a line that matches only ignoring case is left unchanged as `highlighted_line` |
| Utils.ContextLines | utils.py:100-111 | the context has the window's lines, with only the matching line replaced by its emphasised form |
| Utils.SearchHitsExact | utils.py:88-117 | with a non-blank query, one hit per case-insensitively matching line, in line order, numbered from 1, and no other |
| Utils.HitsFollowMatches | utils.py:97-117 | the k-th hit belongs to the k-th matching line |
| Utils.MatchEntryNonNegative | utils.py:100-111 | with a non-negative context a matching line always gives its hit, with the clamped window |
| Utils.ScanNonNegative | utils.py:97-117 | with a non-negative context the scan never raises and yields the hits of the matching lines |
| Utils.NegativeEntryIff | utils.py:100-111 | with a negative context -d, line `i` of `n` gives an entry exactly when `i + 1 < d` and `3d <= n + 1` |
| Utils.NegativeEntryShape | utils.py:100-111 | such an entry is numbered `i + 1`, has the emphasised line as `highlighted_line`, and its context is lines `i + d` to `n + i - d` with the one at window index `n - 3d + 1` emphasised |
| Utils.NegativeContextCountsFromBack | utils.py:100-111 | context -2 on a five-line text gives a hit at line 1 with the context "**x**\na" |
| Utils.ScanStaysRaised | utils.py:97-119 | once a line raises, the whole search raises |
| Utils.ScanRaisesIff | utils.py:97-119 | the scan over the first lines raises exactly when one of them matches and has no entry |
| Utils.SearchRaisesIff | utils.py:88-119 | a non-blank search raises `IndexError` exactly when the context is negative and some matching line has no entry under the rule above |
| Utils.SearchTextWithContext | utils.py:88-119 | the loop computes that result, `[]` for a blank query; a negative context follows Python's slicing and indexing from the back |
| Utils.ColorOptionsMatchRendering | utils.py:16-39 | the offered colours are the five the highlighter renders, each with the same hex background |
| Utils.ExportAnnotations | utils.py:121-145 | written exports return `notes_output/annotations_export_<clean stem>.json`, failed ones return nothing |
| Utils.ExportPathSameIff | utils.py:135-137 | two documents export to the same file exactly when their cleaned stems agree |
| Utils.ExportStemClean | utils.py:135 | the stem of an export file name is a clean name |
| Utils.ImportRecord | utils.py:147-162 | an unreadable file gives `(None, {}, {})`; otherwise a name and one record under that name |
| Utils.ExportImportRoundTrip | utils.py:128-159 | importing an export gives back the name, `{name: annotations.get(name, {})}` and the topics |
| Utils.ImportDefaults | utils.py:155-157 | missing keys read as "Unknown", `{}` and `{}` |
| Utils.NonBlankCount | utils.py:176-177 | the count of non-blank pieces is at most the number of pieces |
| Utils.NonBlankCountIff | utils.py:176-177 | the count is 0 exactly when all pieces are blank, and full exactly when none is |
| Utils.RemoveSpaces | utils.py:179 | removing spaces drops exactly the spaces |
| Utils.ReadingStatisticsFacts | utils.py:164-179 | sentences at most the number of '.' + 1, paragraphs at most the number of blank-line separators + 1, and characters without spaces plus spaces equal all characters |
| Utils.WordCountOfJoin | utils.py:167-175 | words joined by single spaces are counted one by one |
| Text.BlankIffAllWhitespace | pdf_processor.py:55 | `not s.strip()` holds exactly when every character is whitespace |
| Text.TrimLeftFacts | annotation_manager.py:86 | `lstrip` removes only characters of the set and keeps a suffix that starts outside it |
| Text.TrimRightFacts | annotation_manager.py:86 | `rstrip` removes only characters of the set and keeps a prefix that ends outside it |
| Text.WordsAreWords | pdf_processor.py:171 | every piece of `split()` is a non-empty run of non-whitespace |
| Text.WordsOfJoin | pdf_processor.py:179 | re-splitting words joined by single spaces gives the words back |
| Text.Split | pdf_processor.py:159 | `split(sep)` always gives at least one piece |
| Text.JoinSplit | pdf_processor.py:159 | joining the pieces of `split(sep)` with `sep` gives back the text |
| Text.SplitLength | pdf_processor.py:198-209 | `split(sep)` has `count(sep) + 1` pieces |
| Text.IndexOfFirst | annotation_manager.py:205 | `find` gives the first index at which the pattern occurs, or none when it does not occur |
| Text.ContainsIff | annotation_manager.py:204 | `in` holds exactly when the pattern occurs at some index |
| Text.ReplaceFirst | annotation_manager.py:205 | `replace(p, r, 1)` replaces the first occurrence, or returns the text when there is none |
| Text.ReplaceAllAbsent | utils.py:107-110 | `replace` without an occurrence returns the text |
| Text.MatchingLinesExact | utils.py:97-98 | the matching line indices are exactly the matching lines, ascending |
| Text.Lower | annotation_manager.py:287 | `lower` keeps the length |
| Text.NatToString | pdf_processor.py:20 | the page number in the header is a non-empty string of decimal digits |
| Text.NatToStringValue | pdf_processor.py:20 | the digits of the page number denote that number, with no leading zero unless it is 0 |

## Left out

- Disk I/O is not modelled: `load_*`/`save_*`, JSON encoding, directory creation and
  `create_directories`. Each save is a boolean input and each load is a dictionary
  input. Export and import are the record they write and read.
- The clock is not modelled. One timestamp `now` serves the three clock reads of
  `add_note`, so the model does not capture those reads returning different instants.
- The PDF library is not modelled. Its page texts are given as input, which covers
  `validate_pdf_file` too.
- `extract_text_by_page` is not part of this model. It repeats `extract_text`'s page
  loop with a word count per page.
- `format_timestamp` and `get_file_size_mb` are not modelled: date parsing and
  floating point.
- The reading-time estimates of both statistics functions are not modelled: floating
  point.
- The iteration order of the topic dictionary is an input, as `(name, topic)` items in
  `topics.items()` order, each name of the dictionary once with its topic. The model
  does not connect that order to insertion order.
- Unicode is narrowed to ASCII: `\w`, `isspace`, `isupper` and `lower` are ASCII
  predicates and functions.
- Catch-all `except` blocks are modelled only where an error can arise in the modelled
  logic: a missing kind list in `add_*`, and `IndexError` in `search_text_with_context`.
  The other blocks guard I/O or the PDF library.
- Annotations.AnnotationManager.ApplyHighlightsToText: stored entries are typed.
  An entry in the highlights list that is not a highlight ends the rendering with the
  text unchanged, which stands in for the `KeyError` the source catches.
