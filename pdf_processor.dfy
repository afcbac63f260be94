/**
 * The text-processing part of the PDF processor: assembling the document text from
 * its page texts, line search with context, emphasis of a search term, packing the
 * text into display chunks, heading-like topic extraction and text statistics.
 * Page texts are given as input; the PDF library that produces them is not modelled.
 */
module PdfProcessing {
  import opened Text

  /** The marker that opens every page section of the assembled text. */
  const PageMarker: string := "--- Page"

  // ---------------------------------------------------------------------------
  // Assembling the full text (extract_text)

  /** The header line written before page number `pageNum` (1-based). */
  function PageHeader(pageNum: nat): string {
    "\n--- Page " + NatToString(pageNum) + " ---\n"
  }

  /** The section written for page number `pageNum`: its header, then its text on its own line. */
  function PageSection(pageNum: nat, pageText: string): string {
    PageHeader(pageNum) + (pageText + "\n")
  }

  /** The text of a document: one section per page with non-empty text, numbered by position. */
  function FullText(pages: seq<string>): string
    decreases |pages|
  {
    if pages == [] then ""
    else
      var n := |pages|;
      FullText(pages[..n - 1]) + (if pages[n - 1] != "" then PageSection(n, pages[n - 1]) else "")
  }

  /** Number of pages whose text is non-empty. */
  function NonEmptyPages(pages: seq<string>): nat
    decreases |pages|
  {
    if pages == [] then 0
    else NonEmptyPages(pages[..|pages| - 1]) + (if pages[|pages| - 1] != "" then 1 else 0)
  }

  /** A `pages_cache` entry: the page text and its 1-based number. */
  datatype CachedPage = CachedPage(text: string, pageNum: nat)

  /** The cache entries written for `pages`, keyed by 0-based page index. */
  function CacheEntries(pages: seq<string>): map<nat, CachedPage> {
    map i: nat | i < |pages| && pages[i] != "" :: CachedPage(pages[i], i + 1)
  }

  class PdfProcessor {
    var currentPdfPath: Option<string>
    var pagesCache: map<nat, CachedPage>

    constructor ()
      ensures currentPdfPath == None && pagesCache == map[]
    {
      currentPdfPath := None;
      pagesCache := map[];
    }

    /**
     * `extract_text` over the texts the PDF library returns for the pages (an empty
     * string for a page without text). The cache keeps entries of earlier documents
     * that this one does not overwrite.
     */
    method ExtractText(pdfPath: string, pages: seq<string>) returns (fullText: string)
      modifies this
      ensures fullText == FullText(pages)
      ensures pagesCache == old(pagesCache) + CacheEntries(pages)
      ensures currentPdfPath == Some(pdfPath)
    {
      fullText := "";
      var pageNum := 0;
      while pageNum < |pages|
        invariant 0 <= pageNum <= |pages|
        invariant fullText == FullText(pages[..pageNum])
        invariant pagesCache == old(pagesCache) + CacheEntries(pages[..pageNum])
      {
        var pageText := pages[pageNum];
        FullTextStep(pages, pageNum, fullText);
        CacheStep(pages, pageNum, old(pagesCache), pagesCache);
        if pageText != "" {
          fullText := fullText + PageHeader(pageNum + 1);
          fullText := fullText + (pageText + "\n");
          pagesCache := pagesCache[pageNum := CachedPage(pageText, pageNum + 1)];
        }
        pageNum := pageNum + 1;
      }
      assert pages[..pageNum] == pages;
      currentPdfPath := Some(pdfPath);
    }
  }

  /** One more page appends its header and its text, unless its text is empty. */
  lemma FullTextStep(pages: seq<string>, n: nat, acc: string)
    requires n < |pages| && acc == FullText(pages[..n])
    ensures FullText(pages[..n + 1]) ==
      if pages[n] != "" then (acc + PageHeader(n + 1)) + (pages[n] + "\n") else acc
  {
    assert pages[..n + 1][..n] == pages[..n];
    if pages[n] != "" {
      var h := PageHeader(n + 1);
      var t := pages[n] + "\n";
      assert (acc + h) + t == acc + (h + t);
    } else {
      assert acc + "" == acc;
    }
  }

  /** One more page with text adds (or overwrites) its cache entry; an empty page leaves the cache. */
  lemma CacheStep(pages: seq<string>, n: nat, base: map<nat, CachedPage>, cache: map<nat, CachedPage>)
    requires n < |pages| && cache == base + CacheEntries(pages[..n])
    ensures base + CacheEntries(pages[..n + 1]) ==
      if pages[n] != "" then cache[n := CachedPage(pages[n], n + 1)] else cache
  {
    var a := CacheEntries(pages[..n + 1]);
    var b := CacheEntries(pages[..n]);
    if pages[n] != "" {
      assert a == b[n := CachedPage(pages[n], n + 1)];
    } else {
      assert a == b;
    }
  }

  // ---------------------------------------------------------------------------
  // Text statistics (get_text_statistics, integer fields)

  datatype TextStats = TextStats(wordCount: nat, characterCount: nat, lineCount: nat, pageCount: nat)

  function TextStatistics(text: string): (r: TextStats)
    ensures r.lineCount == Count(text, "\n") + 1
    ensures r.characterCount == |text|
  {
    SplitLength(text, "\n");
    TextStats(|Words(text)|, |text|, |Split(text, "\n")|, Count(text, PageMarker))
  }

  lemma MarkerLineCount(pageNum: nat)
    ensures Count("--- Page " + NatToString(pageNum) + " ---", PageMarker) == 1
  {
    var digits := NatToString(pageNum);
    var line := "--- Page " + digits + " ---";
    var rest := " " + digits + " ---";
    assert line == PageMarker + rest;
    assert PageMarker <= line;
    assert line[|PageMarker|..] == rest;
    assert PageMarker[4] == 'P';
    forall i | 0 <= i < |rest| ensures rest[i] != PageMarker[4] {
      if 1 <= i <= |digits| {
        assert rest[i] == digits[i - 1];
      }
    }
    CountWithoutChar(rest, PageMarker, 4);
  }

  lemma SectionCount(pageNum: nat, pageText: string)
    requires !Contains(pageText, PageMarker)
    ensures Count(PageSection(pageNum, pageText), PageMarker) == 1
  {
    var m := "--- Page " + NatToString(pageNum) + " ---";
    assert PageSection(pageNum, pageText) == [] + ['\n'] + (m + ['\n'] + (pageText + ['\n'] + []));
    CountAcrossSeparator([], '\n', m + ['\n'] + (pageText + ['\n'] + []), PageMarker);
    CountAcrossSeparator(m, '\n', pageText + ['\n'] + [], PageMarker);
    CountAcrossSeparator(pageText, '\n', [], PageMarker);
    MarkerLineCount(pageNum);
    CountAbsent(pageText, PageMarker);
  }

  /** The count splits after a line break, which `PageMarker` does not contain. */
  lemma CountAfterNewline(a: string, b: string)
    requires a != [] && a[|a| - 1] == '\n'
    ensures Count(a + b, PageMarker) == Count(a, PageMarker) + Count(b, PageMarker)
  {
    var a' := a[..|a| - 1];
    assert a == a' + ['\n'] + [];
    assert a + b == a' + ['\n'] + b;
    CountAcrossSeparator(a', '\n', [], PageMarker);
    CountAcrossSeparator(a', '\n', b, PageMarker);
  }

  /** Adding a page adds its section's occurrences of the marker. */
  lemma FullTextLastPage(pages: seq<string>)
    requires pages != [] && pages[|pages| - 1] != ""
    ensures Count(FullText(pages), PageMarker) ==
      Count(FullText(pages[..|pages| - 1]), PageMarker) + Count(PageSection(|pages|, pages[|pages| - 1]), PageMarker)
  {
    var front := pages[..|pages| - 1];
    var a := FullText(front);
    var sec := PageSection(|pages|, pages[|pages| - 1]);
    assert FullText(pages) == a + sec;
    if a == [] {
      assert a + sec == sec;
    } else {
      FullTextEndsWithNewline(front);
      CountAfterNewline(a, sec);
    }
  }

  /**
   * The page count of the assembled text is the number of pages with text,
   * provided no page text itself contains the page marker.
   */
  lemma {:induction false} FullTextPageCount(pages: seq<string>)
    requires forall i :: 0 <= i < |pages| ==> !Contains(pages[i], PageMarker)
    ensures TextStatistics(FullText(pages)).pageCount == NonEmptyPages(pages)
    decreases |pages|
  {
    if pages != [] {
      var n := |pages|;
      var front := pages[..n - 1];
      assert forall i :: 0 <= i < |front| ==> front[i] == pages[i];
      FullTextPageCount(front);
      if pages[n - 1] != "" {
        SectionCount(n, pages[n - 1]);
        FullTextLastPage(pages);
      } else {
        assert FullText(pages) == FullText(front);
      }
    }
  }

  lemma {:induction false} FullTextEndsWithNewline(pages: seq<string>)
    requires FullText(pages) != []
    ensures FullText(pages)[|FullText(pages)| - 1] == '\n'
    decreases |pages|
  {
    var n := |pages|;
    if pages[n - 1] == "" {
      FullTextEndsWithNewline(pages[..n - 1]);
    }
  }

  // ---------------------------------------------------------------------------
  // Emphasis of a search term (_highlight_search_term)

  /** The term matches at the start of `s`, ignoring ASCII case unless `caseSensitive`. */
  predicate MatchesAt(s: string, term: string, caseSensitive: bool) {
    |term| <= |s| && (if caseSensitive then s[..|term|] == term else Lower(s[..|term|]) == Lower(term))
  }

  /** `re.sub('()', r'**\1**', s)`: the empty pattern matches before every character and at the end. */
  function MarkEveryPosition(s: string): (r: string)
    ensures |r| == 5 * |s| + 4
    decreases |s|
  {
    if s == [] then "****" else "****" + [s[0]] + MarkEveryPosition(s[1..])
  }

  /**
   * `_highlight_search_term`: every non-overlapping match of the literal `term`, left to
   * right, is wrapped in `**`; the matched characters keep their own case.
   */
  function HighlightSearchTerm(text: string, term: string, caseSensitive: bool): string
    decreases |text|
  {
    if term == [] then MarkEveryPosition(text)
    else if MatchesAt(text, term, caseSensitive) then
      "**" + text[..|term|] + "**" + HighlightSearchTerm(text[|term|..], term, caseSensitive)
    else if text == [] then []
    else [text[0]] + HighlightSearchTerm(text[1..], term, caseSensitive)
  }

  /** Case-sensitive emphasis is `text.replace(term, '**' + term + '**')`. */
  lemma {:induction false} HighlightCaseSensitive(text: string, term: string)
    requires term != []
    ensures HighlightSearchTerm(text, term, true) == ReplaceAll(text, term, "**" + term + "**")
    decreases |text|
  {
    if MatchesAt(text, term, true) {
      assert term <= text;
      HighlightCaseSensitive(text[|term|..], term);
    } else if text != [] {
      HighlightCaseSensitive(text[1..], term);
    }
  }

  /** Ignoring case, emphasis is the same replacement carried out on the lower-cased text. */
  lemma {:induction false} HighlightIgnoringCase(text: string, term: string)
    requires term != []
    ensures Lower(HighlightSearchTerm(text, term, false)) ==
      ReplaceAll(Lower(text), Lower(term), "**" + Lower(term) + "**")
    decreases |text|
  {
    var lt := Lower(text);
    if MatchesAt(text, term, false) {
      LowerSlice(text, 0, |term|);
      LowerSlice(text, |term|, |text|);
      assert Lower(term) <= lt;
      HighlightIgnoringCase(text[|term|..], term);
      LowerAppend("**" + text[..|term|] + "**", HighlightSearchTerm(text[|term|..], term, false));
      LowerAppend("**" + text[..|term|], "**");
      LowerAppend("**", text[..|term|]);
      assert Lower("**") == "**";
      assert lt[|Lower(term)|..] == Lower(text[|term|..]);
    } else if text != [] {
      if Lower(term) <= lt {
        LowerSlice(text, 0, |term|);
        assert false;
      }
      LowerSlice(text, 1, |text|);
      HighlightIgnoringCase(text[1..], term);
      LowerAppend([text[0]], HighlightSearchTerm(text[1..], term, false));
      assert lt[1..] == Lower(text[1..]);
      assert Lower([text[0]]) == [lt[0]];
    }
  }

  /** A text in which the term does not occur, ignoring case, comes back unchanged. */
  lemma {:induction false} HighlightAbsent(text: string, term: string)
    requires term != [] && !Contains(Lower(text), Lower(term))
    ensures HighlightSearchTerm(text, term, false) == text
    decreases |text|
  {
    var lt := Lower(text);
    if MatchesAt(text, term, false) {
      assert false;
    } else if text != [] {
      if Lower(term) <= lt {
        assert false;
      }
      ContainsStep(lt, Lower(term));
      LowerSlice(text, 1, |text|);
      assert lt[1..] == Lower(text[1..]);
      HighlightAbsent(text[1..], term);
      assert text == [text[0]] + text[1..];
    }
  }

  // ---------------------------------------------------------------------------
  // Line search with context (search_text)

  /** Lines kept before and after a matching line. */
  const SearchRadius: nat := 3

  /** The result for the matching line `i`: its context, emphasised. */
  function SearchHit(lines: seq<string>, i: nat, query: string, caseSensitive: bool): string
    requires i < |lines|
  {
    HighlightSearchTerm(Join("\n", ContextWindow(lines, i, SearchRadius)), query, caseSensitive)
  }

  /** The lines `search_text` scans: those of the lower-cased text unless `caseSensitive`. */
  function SearchLines(text: string, caseSensitive: bool): seq<string> {
    Split(if caseSensitive then text else Lower(text), "\n")
  }

  /** The results for the lines below `n`: one emphasised context block per line containing `q`. */
  function SearchResults(lines: seq<string>, q: string, query: string, caseSensitive: bool, n: nat): seq<string>
    requires n <= |lines|
    decreases n
  {
    if n == 0 then []
    else
      SearchResults(lines, q, query, caseSensitive, n - 1) +
      (if Contains(lines[n - 1], q) then [SearchHit(lines, n - 1, query, caseSensitive)] else [])
  }

  /** The results correspond one to one, in order, to the matching lines. */
  lemma {:induction false} SearchResultsPerMatch(lines: seq<string>, q: string, query: string, caseSensitive: bool, n: nat)
    requires n <= |lines|
    ensures var r := SearchResults(lines, q, query, caseSensitive, n);
      var hits := MatchingLines(lines, q, false, n);
      |r| == |hits| &&
      forall k :: 0 <= k < |r| ==> hits[k] < |lines| && r[k] == SearchHit(lines, hits[k], query, caseSensitive)
    decreases n
  {
    if n > 0 {
      SearchResultsPerMatch(lines, q, query, caseSensitive, n - 1);
    }
  }

  /**
   * `search_text`: nothing for a blank query; otherwise one emphasised context block
   * per line containing the query, in line order, overlapping blocks included.
   */
  method SearchText(text: string, query: string, caseSensitive: bool) returns (results: seq<string>)
    ensures IsBlank(query) ==> results == []
    ensures !IsBlank(query) ==>
      var lines := SearchLines(text, caseSensitive);
      results == SearchResults(lines, if caseSensitive then query else Lower(query), query, caseSensitive, |lines|)
  {
    if IsBlank(query) {
      return [];
    }
    var searchText := if caseSensitive then text else Lower(text);
    var searchQuery := if caseSensitive then query else Lower(query);
    results := [];
    var lines := Split(searchText, "\n");
    var lineNum := 0;
    while lineNum < |lines|
      invariant 0 <= lineNum <= |lines|
      invariant results == SearchResults(lines, searchQuery, query, caseSensitive, lineNum)
    {
      if Contains(lines[lineNum], searchQuery) {
        var startLine := if lineNum >= 3 then lineNum - 3 else 0;
        var endLine := if lineNum + 4 <= |lines| then lineNum + 4 else |lines|;
        var contextLines := lines[startLine..endLine];
        assert contextLines == ContextWindow(lines, lineNum, SearchRadius);
        var context := Join("\n", contextLines);
        ghost var hit := SearchHit(lines, lineNum, query, caseSensitive);
        assert HighlightSearchTerm(context, query, caseSensitive) == hit;
        results := results + [HighlightSearchTerm(context, query, caseSensitive)];
      }
      assert results == SearchResults(lines, searchQuery, query, caseSensitive, lineNum + 1);
      lineNum := lineNum + 1;
    }
  }

  /** The lines of `Lower(s)` are the lower-cased lines of `s`. */
  predicate LinesLower(s: string) {
    var a := Split(Lower(s), "\n");
    var b := Split(s, "\n");
    |a| == |b| && forall k :: 0 <= k < |a| ==> a[k] == Lower(b[k])
  }

  /** A leading line break starts a new line in both texts. */
  lemma SplitLowerBreak(s: string)
    requires s != [] && s[0] == '\n' && LinesLower(s[1..])
    ensures LinesLower(s)
  {
    var ls := Lower(s);
    assert ls[1..] == Lower(s[1..]);
    assert "\n" <= ls && "\n" <= s;
  }

  /** Any other leading character joins the first line, lower-cased. */
  lemma SplitLowerChar(s: string)
    requires s != [] && s[0] != '\n' && LinesLower(s[1..])
    ensures LinesLower(s)
  {
    var ls := Lower(s);
    assert ls[1..] == Lower(s[1..]);
    assert !("\n" <= ls) && !("\n" <= s);
    var b := Split(s[1..], "\n");
    LowerAppend([s[0]], b[0]);
  }

  /** Lower-casing keeps line breaks, so the lower-cased text splits into the lower-cased lines. */
  lemma {:induction false} SplitLower(s: string)
    ensures LinesLower(s)
    decreases |s|
  {
    if s == [] {
      assert Lower(s) == [];
    } else {
      SplitLower(s[1..]);
      if s[0] == '\n' {
        SplitLowerBreak(s);
      } else {
        SplitLowerChar(s);
      }
    }
  }

  /** Ignoring case, a line of the text is reported exactly when it matches case-insensitively. */
  lemma SearchIgnoringCase(text: string, query: string)
    ensures var lines := SearchLines(text, false);
      var orig := Split(text, "\n");
      |lines| == |orig| &&
      forall i :: 0 <= i < |lines| ==> (Contains(lines[i], Lower(query)) <==> LineMatches(orig[i], query, true))
  {
    SplitLower(text);
  }

  // ---------------------------------------------------------------------------
  // Chunking (split_text_into_chunks)

  /** The accumulated length of a chunk's words: each word counts its length plus one. */
  function Weight(ws: seq<string>): nat
    decreases |ws|
  {
    if ws == [] then 0 else |ws[0]| + 1 + Weight(ws[1..])
  }

  /** How many of `ws` still join a chunk that has `room` left, taken in order. */
  function FitCount(ws: seq<string>, room: int): (k: nat)
    ensures k <= |ws|
    decreases |ws|
  {
    if ws == [] || |ws[0]| + 1 > room then 0 else 1 + FitCount(ws[1..], room - (|ws[0]| + 1))
  }

  /** Greedy packing: every chunk takes its first word and then as many following words as fit. */
  function GreedyGroups(ws: seq<string>, size: int): seq<seq<string>>
    decreases |ws|
  {
    if ws == [] then []
    else
      var k := 1 + FitCount(ws[1..], size - (|ws[0]| + 1));
      [ws[..k]] + GreedyGroups(ws[k..], size)
  }

  function Flatten(gs: seq<seq<string>>): seq<string>
    decreases |gs|
  {
    if gs == [] then [] else gs[0] + Flatten(gs[1..])
  }

  /** `' '.join(g)` for every group. */
  function JoinEach(gs: seq<seq<string>>): (r: seq<string>)
    ensures |r| == |gs|
  {
    seq(|gs|, k requires 0 <= k < |gs| => Join(" ", gs[k]))
  }

  /** The chunks of one piece of the text between page markers. */
  function PageChunks(page: string, size: int): seq<string> {
    if IsBlank(page) then []
    else if |page| <= size then [Strip(page)]
    else JoinEach(GreedyGroups(Words(page), size))
  }

  function ChunksOfPages(pages: seq<string>, size: int): seq<string>
    decreases |pages|
  {
    if pages == [] then []
    else ChunksOfPages(pages[..|pages| - 1], size) + PageChunks(pages[|pages| - 1], size)
  }

  /** `split_text_into_chunks`: chunks of every non-blank piece, or `[text]` when there are none. */
  function Chunks(text: string, size: int): seq<string> {
    if text == [] then []
    else
      var c := ChunksOfPages(Split(text, PageMarker), size);
      if c == [] then [text] else c
  }

  lemma {:induction false} WeightAppend(ws: seq<string>, w: string)
    ensures Weight(ws + [w]) == Weight(ws) + |w| + 1
    decreases |ws|
  {
    if ws != [] {
      assert (ws + [w])[1..] == ws[1..] + [w];
      WeightAppend(ws[1..], w);
    }
  }

  /** Words whose total weight fits are all taken, and the count continues after them. */
  lemma {:induction false} FitCountPrefix(xs: seq<string>, ys: seq<string>, room: int)
    requires Weight(xs) <= room
    ensures FitCount(xs + ys, room) == |xs| + FitCount(ys, room - Weight(xs))
    decreases |xs|
  {
    if xs != [] {
      assert (xs + ys)[0] == xs[0];
      assert (xs + ys)[1..] == xs[1..] + ys;
      FitCountPrefix(xs[1..], ys, room - (|xs[0]| + 1));
    } else {
      assert xs + ys == ys;
    }
  }

  lemma {:induction false} FitCountBounds(ws: seq<string>, room: int)
    ensures var k := FitCount(ws, room);
      (k == 0 || Weight(ws[..k]) <= room) &&
      (k < |ws| ==> Weight(ws[..k]) + |ws[k]| + 1 > room)
    decreases |ws|
  {
    if ws != [] && |ws[0]| + 1 <= room {
      var k := FitCount(ws, room);
      FitCountBounds(ws[1..], room - (|ws[0]| + 1));
      assert ws[..k] == [ws[0]] + ws[1..][..k - 1];
      assert ws[..k][1..] == ws[1..][..k - 1];
      if k < |ws| {
        assert ws[k] == ws[1..][k - 1];
      }
    }
  }

  /**
   * A chunk under construction that fits and cannot take the next word is exactly
   * the first group of the greedy packing.
   */
  lemma {:induction false} FirstGroup(cur: seq<string>, ys: seq<string>, size: int)
    requires cur != [] && (|cur| == 1 || Weight(cur) <= size)
    requires ys == [] || Weight(cur) + |ys[0]| + 1 > size
    ensures GreedyGroups(cur + ys, size) == [cur] + GreedyGroups(ys, size)
  {
    var ws := cur + ys;
    var xs := cur[1..];
    var room := size - (|cur[0]| + 1);
    assert Weight(cur) == |cur[0]| + 1 + Weight(xs);
    assert ws[1..] == xs + ys;
    if xs == [] {
      assert xs + ys == ys;
    } else {
      FitCountPrefix(xs, ys, room);
    }
    assert FitCount(ys, room - Weight(xs)) == 0;
    assert ws[..|cur|] == cur;
    assert ws[|cur|..] == ys;
  }

  /** Greedy packing loses, duplicates and reorders no word. */
  lemma {:induction false} GroupsFlatten(ws: seq<string>, size: int)
    ensures Flatten(GreedyGroups(ws, size)) == ws
    decreases |ws|
  {
    if ws != [] {
      var k := 1 + FitCount(ws[1..], size - (|ws[0]| + 1));
      GroupsFlatten(ws[k..], size);
      assert ws == ws[..k] + ws[k..];
    }
  }

  /** A group either fits the size or is a single (over-long) word. */
  predicate GroupFits(g: seq<string>, size: int) {
    g != [] && (|g| == 1 || Weight(g) <= size)
  }

  /** Group `g` is closed: the first word of the next group `h` would not have fitted into it. */
  predicate Closed(g: seq<string>, h: seq<string>, size: int) {
    h != [] && Weight(g) + |h[0]| + 1 > size
  }

  /** The first greedy group, and the packing of the rest. */
  lemma FirstGroupShape(ws: seq<string>, size: int)
    requires ws != []
    ensures var f := FitCount(ws[1..], size - (|ws[0]| + 1));
      var gs := GreedyGroups(ws, size);
      gs != [] && gs[0] == ws[..1 + f] && gs[1..] == GreedyGroups(ws[1 + f..], size)
  {
  }

  /** The first greedy group fits, or is a single word. */
  lemma FirstGroupFits(ws: seq<string>, size: int)
    requires ws != []
    ensures GroupFits(ws[..1 + FitCount(ws[1..], size - (|ws[0]| + 1))], size)
  {
    var room := size - (|ws[0]| + 1);
    var f := FitCount(ws[1..], room);
    FitCountBounds(ws[1..], room);
    assert ws[..1 + f] == [ws[0]] + ws[1..][..f];
  }

  /** The first greedy group could not have taken the word after it. */
  lemma FirstGroupClosed(ws: seq<string>, size: int)
    requires ws != []
    ensures var f := FitCount(ws[1..], size - (|ws[0]| + 1));
      1 + f < |ws| ==> Weight(ws[..1 + f]) + |ws[1 + f]| + 1 > size
  {
    var room := size - (|ws[0]| + 1);
    var f := FitCount(ws[1..], room);
    FitCountBounds(ws[1..], room);
    assert ws[..1 + f] == [ws[0]] + ws[1..][..f];
    if 1 + f < |ws| {
      assert ws[1 + f] == ws[1..][f];
    }
  }

  /** Every group fits the size unless it is a single word. */
  lemma {:induction false} GroupsFit(ws: seq<string>, size: int)
    ensures var gs := GreedyGroups(ws, size);
      forall k :: 0 <= k < |gs| ==> GroupFits(gs[k], size)
    decreases |ws|
  {
    if ws != [] {
      var f := FitCount(ws[1..], size - (|ws[0]| + 1));
      FirstGroupShape(ws, size);
      FirstGroupFits(ws, size);
      GroupsFit(ws[1 + f..], size);
      var gs := GreedyGroups(ws, size);
      assert GroupFits(gs[0], size);
      assert forall k :: 0 < k < |gs| ==> gs[k] == gs[1..][k - 1];
    }
  }

  /** No group could have taken the first word of the next one. */
  lemma {:induction false} GroupsClosed(ws: seq<string>, size: int)
    ensures var gs := GreedyGroups(ws, size);
      forall k :: 0 <= k < |gs| - 1 ==> Closed(gs[k], gs[k + 1], size)
    decreases |ws|
  {
    if ws != [] {
      var f := FitCount(ws[1..], size - (|ws[0]| + 1));
      var rest := ws[1 + f..];
      FirstGroupShape(ws, size);
      FirstGroupClosed(ws, size);
      GroupsClosed(rest, size);
      var gs := GreedyGroups(ws, size);
      forall k | 0 <= k < |gs| - 1 ensures Closed(gs[k], gs[k + 1], size) {
        if k > 0 {
          assert gs[k] == gs[1..][k - 1] && gs[k + 1] == gs[1..][k];
        } else {
          FirstGroupShape(rest, size);
          assert gs[1] == gs[1..][0] && rest[0] == ws[1 + f];
        }
      }
    }
  }

  lemma {:induction false} JoinLength(ws: seq<string>)
    requires ws != []
    ensures |Join(" ", ws)| + 1 == Weight(ws)
    decreases |ws|
  {
    if |ws| > 1 {
      JoinLength(ws[1..]);
    }
  }

  /**
   * Every chunk of a piece is within the chunk size unless it is a single word, and for
   * a piece that is packed word by word, re-splitting its chunks gives back its words in order.
   */
  lemma PageChunksProperties(page: string, size: int)
    ensures var cs := PageChunks(page, size);
      forall k :: 0 <= k < |cs| ==> |cs[k]| <= size || |Words(cs[k])| == 1
    ensures !IsBlank(page) && |page| > size ==>
      var cs := PageChunks(page, size);
      Flatten(seq(|cs|, k requires 0 <= k < |cs| => Words(cs[k]))) == Words(page)
  {
    if !IsBlank(page) && |page| <= size {
      StripShorter(page);
    } else if !IsBlank(page) {
      var words := Words(page);
      var gs := GreedyGroups(words, size);
      var cs := PageChunks(page, size);
      WordsAreWords(page);
      GroupsFit(words, size);
      GroupsFlatten(words, size);
      GroupsAreWords(words, size);
      forall k | 0 <= k < |cs| ensures Words(cs[k]) == gs[k] && (|cs[k]| <= size || |Words(cs[k])| == 1) {
        WordsOfJoin(gs[k]);
        JoinLength(gs[k]);
      }
      assert seq(|cs|, k requires 0 <= k < |cs| => Words(cs[k])) == gs;
    }
  }

  lemma StripShorter(s: string)
    ensures |Strip(s)| <= |s|
  {
  }

  lemma {:induction false} GroupsAreWords(ws: seq<string>, size: int)
    requires forall i :: 0 <= i < |ws| ==> IsWord(ws[i])
    ensures var gs := GreedyGroups(ws, size);
      forall k, i :: 0 <= k < |gs| && 0 <= i < |gs[k]| ==> IsWord(gs[k][i])
    decreases |ws|
  {
    if ws != [] {
      var f := FitCount(ws[1..], size - (|ws[0]| + 1));
      FirstGroupShape(ws, size);
      GroupsAreWords(ws[1 + f..], size);
      var gs := GreedyGroups(ws, size);
      forall k, i | 0 <= k < |gs| && 0 <= i < |gs[k]| ensures IsWord(gs[k][i]) {
        if k > 0 {
          assert gs[k] == gs[1..][k - 1];
        } else {
          assert gs[0][i] == ws[i];
        }
      }
    }
  }

  /**
   * `split_text_into_chunks`. The text is cut at the page markers; a blank piece gives
   * nothing, a piece within `chunkSize` gives itself stripped, and a longer one is packed
   * greedily word by word. A non-empty text always gives at least one chunk.
   */
  method SplitTextIntoChunks(text: string, chunkSize: int) returns (chunks: seq<string>)
    ensures chunks == Chunks(text, chunkSize)
    ensures chunks == [] <==> text == []
  {
    if text == [] {
      return [];
    }
    var pages := Split(text, PageMarker);
    chunks := [];
    var p := 0;
    while p < |pages|
      invariant 0 <= p <= |pages|
      invariant chunks == ChunksOfPages(pages[..p], chunkSize)
    {
      var page := pages[p];
      ChunksOfPagesStep(pages, p, chunkSize);
      if !IsBlank(page) {
        if |page| <= chunkSize {
          chunks := chunks + [Strip(page)];
        } else {
          var packed := PackWords(Words(page), chunkSize);
          chunks := chunks + packed;
        }
      }
      p := p + 1;
    }
    assert pages[..p] == pages;
    if chunks == [] {
      chunks := [text];
    }
  }

  /**
   * The state of `split_text_into_chunks`'s `for word in words` loop over one long
   * page after `i` words: `done` are the closed chunks and `cur` is `current_chunk`;
   * closing `cur` and packing the remaining words finishes the greedy grouping of
   * all of `words`.
   */
  predicate Packing(words: seq<string>, size: int, done: seq<seq<string>>, cur: seq<string>, i: nat) {
    i <= |words| &&
    (cur == [] ==> i == 0 && done == []) &&
    (cur != [] ==> GroupFits(cur, size)) &&
    GreedyGroups(words, size) == done + GreedyGroups(cur + words[i..], size)
  }

  /** The word-by-word packing of one long page, as `split_text_into_chunks` runs it. */
  method PackWords(words: seq<string>, chunkSize: int) returns (chunks: seq<string>)
    ensures chunks == JoinEach(GreedyGroups(words, chunkSize))
  {
    chunks := [];
    var currentChunk: seq<string> := [];
    var currentLength := 0;
    ghost var done: seq<seq<string>> := [];
    var i := 0;
    PackStart(words, chunkSize);
    while i < |words|
      invariant Packing(words, chunkSize, done, currentChunk, i)
      invariant currentLength == Weight(currentChunk)
      invariant chunks == JoinEach(done)
    {
      var word := words[i];
      var wordLength := |word| + 1;
      if currentLength + wordLength > chunkSize && currentChunk != [] {
        PackFlush(words, chunkSize, done, currentChunk, i);
        JoinEachSnoc(done, currentChunk);
        chunks := chunks + [Join(" ", currentChunk)];
        done := done + [currentChunk];
        currentChunk := [word];
        currentLength := wordLength;
      } else {
        PackExtend(words, chunkSize, done, currentChunk, i);
        currentChunk := currentChunk + [word];
        currentLength := currentLength + wordLength;
      }
      i := i + 1;
    }
    PackEnd(words, chunkSize, done, currentChunk);
    if currentChunk != [] {
      JoinEachSnoc(done, currentChunk);
      chunks := chunks + [Join(" ", currentChunk)];
      done := done + [currentChunk];
    }
  }

  lemma ChunksOfPagesStep(pages: seq<string>, p: nat, size: int)
    requires p < |pages|
    ensures ChunksOfPages(pages[..p + 1], size) == ChunksOfPages(pages[..p], size) + PageChunks(pages[p], size)
  {
    assert pages[..p + 1][..p] == pages[..p];
  }

  /** Before the first word nothing is closed and nothing is under construction. */
  lemma PackStart(words: seq<string>, size: int)
    ensures Packing(words, size, [], [], 0)
  {
    assert [] + words[0..] == words;
  }

  /** Closing the chunk under construction when the next word does not fit. */
  lemma PackFlush(words: seq<string>, size: int, done: seq<seq<string>>, cur: seq<string>, i: nat)
    requires Packing(words, size, done, cur, i) && i < |words|
    requires cur != [] && Weight(cur) + |words[i]| + 1 > size
    ensures Packing(words, size, done + [cur], [words[i]], i + 1)
    ensures Weight([words[i]]) == |words[i]| + 1
  {
    assert words[i..] == [words[i]] + words[i + 1..];
    FlushStep(done, cur, words[i..], size);
  }

  lemma FlushStep(done: seq<seq<string>>, cur: seq<string>, rest: seq<string>, size: int)
    requires GroupFits(cur, size) && rest != [] && Weight(cur) + |rest[0]| + 1 > size
    ensures done + GreedyGroups(cur + rest, size) == (done + [cur]) + GreedyGroups(rest, size)
  {
    FirstGroup(cur, rest, size);
    var g := GreedyGroups(rest, size);
    assert done + ([cur] + g) == (done + [cur]) + g;
  }

  lemma JoinEachSnoc(done: seq<seq<string>>, cur: seq<string>)
    ensures JoinEach(done + [cur]) == JoinEach(done) + [Join(" ", cur)]
  {
    assert forall k :: 0 <= k < |done| ==> (done + [cur])[k] == done[k];
  }

  /** Adding a word that fits, or the first word, to the chunk under construction. */
  lemma PackExtend(words: seq<string>, size: int, done: seq<seq<string>>, cur: seq<string>, i: nat)
    requires Packing(words, size, done, cur, i) && i < |words|
    requires cur == [] || Weight(cur) + |words[i]| + 1 <= size
    ensures Packing(words, size, done, cur + [words[i]], i + 1)
    ensures Weight(cur + [words[i]]) == Weight(cur) + |words[i]| + 1
  {
    assert words[i..] == [words[i]] + words[i + 1..];
    assert (cur + [words[i]]) + words[i + 1..] == cur + words[i..];
    WeightAppend(cur, words[i]);
  }

  /** Closing the last chunk once the words are used up. */
  lemma PackEnd(words: seq<string>, size: int, done: seq<seq<string>>, cur: seq<string>)
    requires Packing(words, size, done, cur, |words|)
    ensures GreedyGroups(words, size) == done + (if cur == [] then [] else [cur])
  {
    assert cur + words[|words|..] == cur;
    if cur != [] {
      FirstGroup(cur, [], size);
      assert cur + [] == cur;
    }
  }

  // ---------------------------------------------------------------------------
  // Topic extraction (extract_topics_from_text)

  const Digits: set<char> := {'0', '1', '2', '3', '4', '5', '6', '7', '8', '9'}

  /** Most topics returned. */
  const MaxTopics: nat := 20

  /** `re.match(r'^\d+\.?\s+[A-Z]', line)` */
  predicate IsNumberedHeading(line: string) {
    var afterDigits := TrimLeft(line, Digits);
    |afterDigits| < |line| &&
    var afterDot := if afterDigits != [] && afterDigits[0] == '.' then afterDigits[1..] else afterDigits;
    var afterSpace := TrimLeft(afterDot, Whitespace);
    |afterSpace| < |afterDot| && afterSpace != [] && IsUpperChar(afterSpace[0])
  }

  /** `re.sub(r'^\d+\.?\s*', '', line)`: drops leading numbering. */
  function DropNumbering(line: string): string {
    var afterDigits := TrimLeft(line, Digits);
    if |afterDigits| == |line| then line
    else
      var afterDot := if afterDigits != [] && afterDigits[0] == '.' then afterDigits[1..] else afterDigits;
      TrimLeft(afterDot, Whitespace)
  }

  /** The heading tests, applied to a stripped line. */
  predicate LooksLikeHeading(line: string) {
    IsUpperString(line) ||
    "Chapter" <= line || "Section" <= line || "Part" <= line ||
    IsNumberedHeading(line) ||
    (line != [] && line[|line| - 1] == ':') ||
    |Words(line)| <= 8
  }

  /** Numbering, trailing colons and surrounding whitespace removed. */
  function CleanTopic(line: string): string {
    Strip(TrimRight(DropNumbering(line), {':'}))
  }

  /** The topic a raw line proposes, if any: a heading-like line under 100 characters whose cleaned form is longer than 2. */
  function TopicCandidate(rawLine: string): Option<string> {
    var line := Strip(rawLine);
    if line == [] || PageMarker <= line then None
    else if |line| < 100 && LooksLikeHeading(line) && |CleanTopic(line)| > 2 then Some(CleanTopic(line))
    else None
  }

  lemma CandidateLong(rawLine: string)
    ensures TopicCandidate(rawLine).Some? ==> |TopicCandidate(rawLine).value| > 2
  {
  }

  /** The proposed topics of `lines`, in line order, repetitions included. */
  function Proposals(lines: seq<string>): seq<Option<string>> {
    seq(|lines|, k requires 0 <= k < |lines| => TopicCandidate(lines[k]))
  }

  /** Every proposal is longer than 2 characters. */
  lemma ProposalsLong(lines: seq<string>)
    ensures var props := Proposals(lines);
      forall k :: 0 <= k < |props| && props[k].Some? ==> |props[k].value| > 2
  {
    var props := Proposals(lines);
    forall k | 0 <= k < |props| && props[k].Some? ensures |props[k].value| > 2 {
      CandidateLong(lines[k]);
    }
  }

  function Candidates(props: seq<Option<string>>, n: nat): seq<string>
    requires n <= |props|
    decreases n
  {
    if n == 0 then []
    else Candidates(props, n - 1) + (match props[n - 1] case Some(t) => [t] case None => [])
  }

  /** One more line adds its proposed topic, unless that topic was seen before. */
  lemma CandidatesStep(props: seq<Option<string>>, i: nat)
    requires i < |props|
    ensures var before := Distinct(Candidates(props, i));
      Distinct(Candidates(props, i + 1)) ==
        match props[i]
        case None => before
        case Some(t) => if t in before then before else before + [t]
  {
    var c := Candidates(props, i);
    match props[i]
    case None =>
      assert Candidates(props, i + 1) == c;
    case Some(t) =>
      assert Candidates(props, i + 1) == c + [t];
      assert (c + [t])[..|c|] == c;
  }

  /** First occurrences only, in order of first appearance. */
  function Distinct(s: seq<string>): seq<string>
    decreases |s|
  {
    if s == [] then []
    else
      var d := Distinct(s[..|s| - 1]);
      if s[|s| - 1] in d then d else d + [s[|s| - 1]]
  }

  /** No element occurs twice. */
  predicate NoRepeats(s: seq<string>) {
    forall i, j :: 0 <= i < j < |s| ==> s[i] != s[j]
  }

  /** No element is kept twice. */
  lemma {:induction false} DistinctNoRepeats(s: seq<string>)
    ensures NoRepeats(Distinct(s))
    decreases |s|
  {
    if s != [] {
      var front := Distinct(s[..|s| - 1]);
      DistinctNoRepeats(s[..|s| - 1]);
      var x := s[|s| - 1];
      if x !in front {
        var d := front + [x];
        assert Distinct(s) == d;
        forall i, j | 0 <= i < j < |d| ensures d[i] != d[j] {
          if j == |front| {
            assert d[i] == front[i] && front[i] in front;
            assert d[j] == x;
          } else {
            assert d[i] == front[i] && d[j] == front[j];
          }
        }
      }
    }
  }

  /** Every element is kept, and nothing else. */
  lemma {:induction false} DistinctSameElements(s: seq<string>)
    ensures forall x :: x in Distinct(s) <==> x in s
    decreases |s|
  {
    if s != [] {
      DistinctSameElements(s[..|s| - 1]);
      assert s == s[..|s| - 1] + [s[|s| - 1]];
    }
  }

  lemma {:induction false} CandidatesAreLong(props: seq<Option<string>>, n: nat)
    requires n <= |props|
    requires forall k :: 0 <= k < |props| && props[k].Some? ==> |props[k].value| > 2
    ensures forall t :: t in Candidates(props, n) ==> |t| > 2
    decreases n
  {
    if n > 0 {
      CandidatesAreLong(props, n - 1);
    }
  }

  /** The first `m` distinct proposed topics are distinct and longer than 2 characters. */
  lemma TopicsOfLines(lines: seq<string>, m: nat)
    requires m <= |Distinct(Candidates(Proposals(lines), |lines|))|
    ensures var all := Distinct(Candidates(Proposals(lines), |lines|));
      NoRepeats(all[..m]) && (forall i :: 0 <= i < m ==> |all[..m][i]| > 2)
  {
    var props := Proposals(lines);
    var c := Candidates(props, |lines|);
    var all := Distinct(c);
    DistinctNoRepeats(c);
    DistinctSameElements(c);
    ProposalsLong(lines);
    CandidatesAreLong(props, |lines|);
    forall i | 0 <= i < m ensures |all[..m][i]| > 2 {
      assert all[..m][i] == all[i] && all[i] in all;
    }
    forall i, j | 0 <= i < j < m ensures all[..m][i] != all[..m][j] {
      assert all[..m][i] == all[i] && all[..m][j] == all[j];
    }
  }

  /**
   * `props` holds the proposal of every line. The trigger keeps the heuristics of
   * `TopicCandidate` out of proofs that only need the correspondence.
   */
  predicate ProposalsOf(lines: seq<string>, props: seq<Option<string>>) {
    |props| == |lines| &&
    forall k {:trigger TopicCandidate(lines[k])} :: 0 <= k < |lines| ==> props[k] == TopicCandidate(lines[k])
  }

  lemma ProposalsOfLines(lines: seq<string>)
    ensures ProposalsOf(lines, Proposals(lines))
  {
  }

  /** The per-line body of `extract_topics_from_text`: the topic line `i` proposes, if any. */
  method LineTopic(lines: seq<string>, i: nat, ghost props: seq<Option<string>>) returns (topic: Option<string>)
    requires i < |lines| && ProposalsOf(lines, props)
    ensures topic == props[i]
  {
    topic := TopicCandidate(lines[i]);
  }

  /** The loop of `extract_topics_from_text`: every proposed topic not seen before, in line order. */
  method CollectTopics(lines: seq<string>, ghost props: seq<Option<string>>) returns (topics: seq<string>)
    requires ProposalsOf(lines, props)
    ensures topics == Distinct(Candidates(props, |props|))
  {
    topics := [];
    var i := 0;
    while i < |lines|
      invariant 0 <= i <= |lines|
      invariant topics == Distinct(Candidates(props, i))
    {
      var candidate := LineTopic(lines, i, props);
      ghost var before := topics;
      if candidate.Some? && candidate.value !in topics {
        topics := topics + [candidate.value];
      }
      DedupStep(props, i, before, candidate, topics);
      i := i + 1;
    }
  }

  lemma DedupStep(props: seq<Option<string>>, i: nat, before: seq<string>, candidate: Option<string>, after: seq<string>)
    requires i < |props| && props[i] == candidate
    requires before == Distinct(Candidates(props, i))
    requires after == if candidate.Some? && candidate.value !in before then before + [candidate.value] else before
    ensures after == Distinct(Candidates(props, i + 1))
  {
    CandidatesStep(props, i);
  }

  /**
   * `extract_topics_from_text`: the distinct proposed topics in order of first
   * appearance, at most 20, each longer than 2 characters.
   */
  method ExtractTopicsFromText(text: string) returns (topics: seq<string>)
    ensures var lines := Split(text, "\n");
      var all := Distinct(Candidates(Proposals(lines), |lines|));
      topics == all[..if |all| < MaxTopics then |all| else MaxTopics]
    ensures |topics| <= MaxTopics
    ensures NoRepeats(topics)
    ensures forall i :: 0 <= i < |topics| ==> |topics[i]| > 2
  {
    var lines := Split(text, "\n");
    ProposalsOfLines(lines);
    var all := CollectTopics(lines, Proposals(lines));
    topics := all[..if |all| < MaxTopics then |all| else MaxTopics];
    TopicsOfLines(lines, |topics|);
  }
}
