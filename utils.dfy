/**
 * The helpers of the PDF reader: file-name cleaning, truncation with an ellipsis, a
 * line search that returns the lines around each hit, the table of highlight colours,
 * the record an annotation export writes and an import reads back, and the integer
 * counts of the reading statistics.
 */
module Utils {
  import opened Text
  import opened Annotations

  // ---------------------------------------------------------------------------
  // clean_filename

  /** `re.sub(r'_+', '_', s)`: every run of underscores becomes a single underscore. */
  function Collapse(s: string): (r: string)
    ensures |r| <= |s|
    decreases |s|
  {
    if |s| <= 1 then s
    else if s[0] == '_' && s[1] == '_' then Collapse(s[1..])
    else [s[0]] + Collapse(s[1..])
  }

  /** No two underscores stand side by side. */
  predicate NoDoubleUnderscore(s: string) {
    forall i :: 0 <= i < |s| - 1 ==> !(s[i] == '_' && s[i + 1] == '_')
  }

  /** Neither the first nor the last character is an underscore. */
  predicate UnderscoreFree(s: string) {
    s == [] || (s[0] != '_' && s[|s| - 1] != '_')
  }

  /** What `clean_filename` promises of a name: safe characters, no `__`, no `_` at either end. */
  predicate IsClean(s: string) {
    AllSafe(s) && NoDoubleUnderscore(s) && UnderscoreFree(s)
  }

  /** `clean_filename`: replace unsafe characters, collapse underscore runs, strip underscores. */
  function CleanFilename(filename: string): string {
    StripChars(Collapse(Sanitize(filename)), {'_'})
  }

  lemma {:induction false} CollapseHead(s: string)
    requires s != []
    ensures Collapse(s) != [] && Collapse(s)[0] == s[0]
    decreases |s|
  {
    if |s| > 1 && s[0] == '_' && s[1] == '_' {
      CollapseHead(s[1..]);
    }
  }

  lemma {:induction false} CollapseSafe(s: string)
    requires AllSafe(s)
    ensures AllSafe(Collapse(s))
    decreases |s|
  {
    if |s| > 1 {
      assert AllSafe(s[1..]) by {
        forall i | 0 <= i < |s| - 1 ensures IsSafeChar(s[1..][i]) { assert s[1..][i] == s[i + 1]; }
      }
      CollapseSafe(s[1..]);
      if !(s[0] == '_' && s[1] == '_') {
        var r := Collapse(s[1..]);
        assert forall i :: 1 <= i < |r| + 1 ==> ([s[0]] + r)[i] == r[i - 1];
      }
    }
  }

  lemma {:induction false} CollapseNoDouble(s: string)
    ensures NoDoubleUnderscore(Collapse(s))
    decreases |s|
  {
    if |s| > 1 {
      CollapseNoDouble(s[1..]);
      if !(s[0] == '_' && s[1] == '_') {
        var r := Collapse(s[1..]);
        CollapseHead(s[1..]);
        assert r[0] == s[1];
        assert forall i :: 1 <= i < |r| + 1 ==> ([s[0]] + r)[i] == r[i - 1];
      }
    }
  }

  lemma {:induction false} CollapseFixed(s: string)
    requires NoDoubleUnderscore(s)
    ensures Collapse(s) == s
    decreases |s|
  {
    if |s| > 1 {
      assert NoDoubleUnderscore(s[1..]) by {
        forall i | 0 <= i < |s| - 2 ensures !(s[1..][i] == '_' && s[1..][i + 1] == '_') {
          assert s[1..][i] == s[i + 1] && s[1..][i + 1] == s[i + 2];
        }
      }
      CollapseFixed(s[1..]);
      assert !(s[0] == '_' && s[1] == '_');
      assert s == [s[0]] + s[1..];
    }
  }

  /** A slice of a string keeps the first two properties of a clean name. */
  lemma SliceKeepsSafety(s: string, a: nat, b: nat)
    requires a <= b <= |s| && AllSafe(s) && NoDoubleUnderscore(s)
    ensures AllSafe(s[a..b]) && NoDoubleUnderscore(s[a..b])
  {
    var t := s[a..b];
    assert forall i :: 0 <= i < |t| ==> t[i] == s[a + i];
  }

  /** `strip('_')` keeps a slice that is empty or has no underscore at either end. */
  lemma StripUnderscoreFacts(s: string)
    ensures var r := StripChars(s, {'_'});
      var a := |s| - |TrimLeft(s, {'_'})|;
      UnderscoreFree(r) && a + |r| <= |s| && r == s[a..a + |r|]
  {
    var l := TrimLeft(s, {'_'});
    var r := TrimRight(l, {'_'});
    TrimLeftFacts(s, {'_'});
    TrimRightFacts(l, {'_'});
    if r != [] {
      assert r[0] == l[0];
    }
  }

  /** `strip('_')` changes nothing on a string with no underscore at either end. */
  lemma StripUnderscoreFixed(s: string)
    requires UnderscoreFree(s)
    ensures StripChars(s, {'_'}) == s
  {
  }

  /** The three properties `clean_filename` is written to establish hold of every output. */
  lemma CleanFilenameClean(filename: string)
    ensures IsClean(CleanFilename(filename))
  {
    var c := Collapse(Sanitize(filename));
    SanitizeSafe(filename);
    CollapseSafe(Sanitize(filename));
    CollapseNoDouble(Sanitize(filename));
    StripUnderscoreFacts(c);
    var r := StripChars(c, {'_'});
    var a := |c| - |TrimLeft(c, {'_'})|;
    SliceKeepsSafety(c, a, a + |r|);
  }

  /** A name comes out unchanged exactly when it is already clean. */
  lemma CleanFilenameFixedIff(s: string)
    ensures CleanFilename(s) == s <==> IsClean(s)
  {
    if IsClean(s) {
      SanitizeFixedIff(s);
      CollapseFixed(s);
      StripUnderscoreFixed(s);
    }
    CleanFilenameClean(s);
  }

  /** Cleaning a cleaned name changes nothing. */
  lemma CleanFilenameIdempotent(filename: string)
    ensures CleanFilename(CleanFilename(filename)) == CleanFilename(filename)
  {
    CleanFilenameClean(filename);
    CleanFilenameFixedIff(CleanFilename(filename));
  }

  // ---------------------------------------------------------------------------
  // truncate_text

  /** Where a bound `m` of a Python slice of a length-`n` sequence lands, counted from the back when negative. */
  function SliceBound(n: nat, m: int): (e: nat)
    ensures e <= n
    ensures 0 <= m <= n ==> e == m
    ensures m > n ==> e == n
    ensures m < 0 ==> e == if n + m >= 0 then n + m else 0
  {
    if m >= 0 then (if m <= n then m else n) else if n + m >= 0 then n + m else 0
  }

  /** `truncate_text`: the text itself when it fits, otherwise a prefix followed by "...". */
  function TruncateText(text: string, maxLength: int): (r: string)
    ensures |text| <= maxLength ==> r == text
    ensures |text| > maxLength ==> |r| >= 3 && |r| - 3 <= |text| && r == text[..|r| - 3] + "..."
    ensures 0 <= maxLength < |text| ==> |r| == maxLength + 3
  {
    if |text| <= maxLength then text
    else text[..SliceBound(|text|, maxLength)] + "..."
  }

  /** The preview stored with each annotation is `truncate_text` with the default length 100. */
  lemma PreviewIsTruncation(t: string)
    ensures Preview(t) == TruncateText(t, 100)
  {
  }

  // ---------------------------------------------------------------------------
  // search_text_with_context

  datatype ContextHit = ContextHit(lineNumber: nat, context: string, highlightedLine: string)

  /** The hits, or the `IndexError` that `context[i - start] = …` raises at some matching line. */
  datatype ContextSearch = Found(hits: seq<ContextHit>) | IndexError

  lemma NonBlankNonEmpty(s: string)
    requires !IsBlank(s)
    ensures s != []
  {
  }

  /** `line.replace(query, f"**{query}**")`: every exact-case occurrence is emphasised. */
  function Emphasise(line: string, query: string): string
    requires query != []
  {
    ReplaceAll(line, query, "**" + query + "**")
  }

  /** A line that holds the query only in another case is left as it is. */
  lemma EmphasiseNeedsExactCase(line: string, query: string)
    requires query != [] && !Contains(line, query)
    ensures Emphasise(line, query) == line
  {
    ReplaceAllAbsent(line, query, "**" + query + "**");
  }

  /** Python's `lines[a:b]`, either bound counted from the back when negative. */
  function PySlice(lines: seq<string>, a: int, b: int): seq<string> {
    var lo := SliceBound(|lines|, a);
    var hi := SliceBound(|lines|, b);
    if lo < hi then lines[lo..hi] else []
  }

  /** Where Python's index `j` points into a list of length `len`, or `None` for an `IndexError`. */
  function PyIndex(len: nat, j: int): (r: Option<nat>)
    ensures r.Some? ==> r.value < len
    ensures r.None? <==> j >= len || len + j < 0
  {
    if 0 <= j < len then Some(j) else if j < 0 && len + j >= 0 then Some(len + j) else None
  }

  /**
   * What the loop body does with matching line `i`: the window `lines[start:end]`, the
   * emphasised line stored at `context[i - start]`, and the entry; `None` where that
   * assignment raises.
   */
  function MatchEntry(lines: seq<string>, query: string, i: nat, c: int): Option<ContextHit>
    requires query != [] && i < |lines|
  {
    var start := if i - c > 0 then i - c else 0;
    var end := if |lines| < i + c + 1 then |lines| else i + c + 1;
    var context := PySlice(lines, start, end);
    var highlighted := Emphasise(lines[i], query);
    match PyIndex(|context|, i - start)
    case None => None
    case Some(j) => Some(ContextHit(i + 1, Join("\n", context[j := highlighted]), highlighted))
  }

  /** The loop over the lines below `n`: the entries so far, or the first `IndexError`. */
  function ScanBelow(lines: seq<string>, query: string, c: int, n: nat): ContextSearch
    requires query != [] && n <= |lines|
    decreases n
  {
    if n == 0 then Found([])
    else
      match ScanBelow(lines, query, c, n - 1)
      case IndexError => IndexError
      case Found(hits) =>
        if !LineMatches(lines[n - 1], query, true) then Found(hits)
        else (match MatchEntry(lines, query, n - 1, c)
              case None => IndexError
              case Some(h) => Found(hits + [h]))
  }

  /** What `search_text_with_context` returns or raises. */
  function SearchWithContext(text: string, query: string, contextLines: int): ContextSearch {
    if IsBlank(query) then Found([])
    else
      var lines := Split(text, "\n");
      NonBlankNonEmpty(query);
      ScanBelow(lines, query, contextLines, |lines|)
  }

  /** The window of lines around line `i`, with line `i` itself emphasised. */
  function ContextLines(lines: seq<string>, query: string, i: nat, radius: nat): (r: seq<string>)
    requires query != [] && i < |lines|
    ensures |r| == |ContextWindow(lines, i, radius)|
    ensures r[i - WindowStart(i, radius)] == Emphasise(lines[i], query)
    ensures forall k :: 0 <= k < |r| && k != i - WindowStart(i, radius) ==>
      r[k] == lines[WindowStart(i, radius) + k]
  {
    ContextWindow(lines, i, radius)[i - WindowStart(i, radius) := Emphasise(lines[i], query)]
  }

  /** The result entry for matching line `i` under a context of `radius` lines. */
  function HitAt(lines: seq<string>, query: string, i: nat, radius: nat): ContextHit
    requires query != [] && i < |lines|
  {
    ContextHit(i + 1, Join("\n", ContextLines(lines, query, i, radius)), Emphasise(lines[i], query))
  }

  /** The entries for the matching lines below `n`, in line order. */
  function HitsBelow(lines: seq<string>, query: string, radius: nat, n: nat): seq<ContextHit>
    requires query != [] && n <= |lines|
    decreases n
  {
    if n == 0 then []
    else
      HitsBelow(lines, query, radius, n - 1) +
      (if LineMatches(lines[n - 1], query, true) then [HitAt(lines, query, n - 1, radius)] else [])
  }

  /** With a non-negative context the window is the clamped one and line `i` keeps its place. */
  lemma MatchEntryNonNegative(lines: seq<string>, query: string, i: nat, radius: nat)
    requires query != [] && i < |lines|
    ensures MatchEntry(lines, query, i, radius) == Some(HitAt(lines, query, i, radius))
  {
    var start := WindowStart(i, radius);
    var end := WindowEnd(|lines|, i, radius);
    assert PySlice(lines, start, end) == ContextWindow(lines, i, radius);
  }

  /** With a non-negative context nothing raises, and the entries are those of `HitsBelow`. */
  lemma {:induction false} ScanNonNegative(lines: seq<string>, query: string, radius: nat, n: nat)
    requires query != [] && n <= |lines|
    ensures ScanBelow(lines, query, radius, n) == Found(HitsBelow(lines, query, radius, n))
    decreases n
  {
    if n > 0 {
      ScanNonNegative(lines, query, radius, n - 1);
      MatchEntryNonNegative(lines, query, n - 1, radius);
    }
  }

  /** Under a context of `c < 0` lines, whether matching line `i` of `n` gets an entry. */
  predicate NegativeEntryExists(n: nat, i: nat, c: int) {
    i + 1 < -c && -3 * c <= n + 1
  }

  /**
   * With a context of `-d` lines, `start` is `i + d` and `end` is `i - d + 1`. When `end`
   * is negative both it and the index `-d` count from the back, so an entry exists exactly
   * when `i + 1 < d` and `3 * d <= |lines| + 1`; otherwise the window is too short and the
   * assignment raises.
   */
  lemma NegativeEntryIff(lines: seq<string>, query: string, i: nat, c: int)
    requires query != [] && i < |lines| && c < 0
    ensures MatchEntry(lines, query, i, c).Some? <==> NegativeEntryExists(|lines|, i, c)
  {
  }

  /**
   * When it exists, the entry's window is `lines[i + d .. |lines| + i - d + 1]`, and the
   * emphasised line replaces window line `|lines| - 3 * d + 1`, which is not line `i`.
   */
  lemma NegativeEntryShape(lines: seq<string>, query: string, i: nat, c: int)
    requires query != [] && i < |lines| && c < 0 && NegativeEntryExists(|lines|, i, c)
    ensures MatchEntry(lines, query, i, c).Some?
    ensures var d := -c;
      var h := MatchEntry(lines, query, i, c).value;
      h.lineNumber == i + 1 && h.highlightedLine == Emphasise(lines[i], query) &&
      h.context == Join("\n", lines[i + d .. |lines| + i - d + 1][|lines| - 3 * d + 1 := Emphasise(lines[i], query)])
  {
  }

  /** Line 0 of five with a context of -2: the window is lines 2 and 3, and line 2 is overwritten. */
  lemma NegativeContextCountsFromBack()
    ensures MatchEntry(["x", "a", "a", "a", "a"], "x", 0, -2) == Some(ContextHit(1, "**x**\na", "**x**"))
  {
    var lines := ["x", "a", "a", "a", "a"];
    NegativeEntryShape(lines, "x", 0, -2);
    assert lines[2..4] == ["a", "a"];
    assert Emphasise("x", "x") == "**x**" by {
      assert Occurs("x", "x", 0);
    }
    assert Join("\n", ["**x**", "a"]) == "**x**\na";
  }

  /** Once raised, the error is what the loop ends with. */
  lemma {:induction false} ScanStaysRaised(lines: seq<string>, query: string, c: int, m: nat, n: nat)
    requires query != [] && m <= n <= |lines|
    requires ScanBelow(lines, query, c, m) == IndexError
    ensures ScanBelow(lines, query, c, n) == IndexError
    decreases n - m
  {
    if m < n {
      ScanStaysRaised(lines, query, c, m + 1, n);
    }
  }

  /** The loop raises exactly when some matching line has no entry. */
  lemma {:induction false} ScanRaisesIff(lines: seq<string>, query: string, c: int, n: nat)
    requires query != [] && n <= |lines|
    ensures ScanBelow(lines, query, c, n) == IndexError <==>
      exists i :: 0 <= i < n && LineMatches(lines[i], query, true) && MatchEntry(lines, query, i, c).None?
    decreases n
  {
    if n > 0 {
      ScanRaisesIff(lines, query, c, n - 1);
    }
  }

  /** The search raises exactly when the context is negative and some matching line gets no entry. */
  lemma SearchRaisesIff(text: string, query: string, contextLines: int)
    requires !IsBlank(query)
    ensures query != []
    ensures SearchWithContext(text, query, contextLines) == IndexError <==>
      contextLines < 0 &&
      exists i :: 0 <= i < |Split(text, "\n")| && LineMatches(Split(text, "\n")[i], query, true) &&
        !NegativeEntryExists(|Split(text, "\n")|, i, contextLines)
  {
    NonBlankNonEmpty(query);
    if contextLines >= 0 {
      ScanNonNegative(Split(text, "\n"), query, contextLines, |Split(text, "\n")|);
    } else {
      var lines := Split(text, "\n");
      ScanRaisesNegative(lines, query, contextLines, |lines|);
      assert SearchWithContext(text, query, contextLines) == ScanBelow(lines, query, contextLines, |lines|);
      assert SearchWithContext(text, query, contextLines) == IndexError ==>
        exists i :: 0 <= i < |Split(text, "\n")| && LineMatches(Split(text, "\n")[i], query, true) &&
          !NegativeEntryExists(|Split(text, "\n")|, i, contextLines);
      assert (exists i :: 0 <= i < |Split(text, "\n")| && LineMatches(Split(text, "\n")[i], query, true) &&
                !NegativeEntryExists(|Split(text, "\n")|, i, contextLines)) ==>
        SearchWithContext(text, query, contextLines) == IndexError;
    }
  }

  lemma {:induction false} ScanRaisesNegative(lines: seq<string>, query: string, c: int, n: nat)
    requires query != [] && n <= |lines| && c < 0
    ensures ScanBelow(lines, query, c, n) == IndexError <==>
      exists i :: 0 <= i < n && LineMatches(lines[i], query, true) && !NegativeEntryExists(|lines|, i, c)
    decreases n
  {
    if n > 0 {
      ScanRaisesNegative(lines, query, c, n - 1);
      NegativeEntryIff(lines, query, n - 1, c);
    }
  }

  /** The `k`-th entry belongs to the `k`-th matching line. */
  lemma {:induction false} HitsFollowMatches(lines: seq<string>, query: string, radius: nat, n: nat)
    requires query != [] && n <= |lines|
    ensures var m := MatchingLines(lines, query, true, n);
      var h := HitsBelow(lines, query, radius, n);
      |h| == |m| && forall k :: 0 <= k < |m| ==> m[k] < |lines| && h[k] == HitAt(lines, query, m[k], radius)
    decreases n
  {
    if n > 0 {
      HitsFollowMatches(lines, query, radius, n - 1);
      MatchingLinesExact(lines, query, true, n - 1);
    }
  }

  /**
   * `hits` holds one entry per line that matches ignoring case, in line order, numbered
   * from 1, and no other entry.
   */
  predicate ExactHits(lines: seq<string>, query: string, radius: nat, hits: seq<ContextHit>)
    requires query != []
  {
    (forall k :: 0 <= k < |hits| ==>
      1 <= hits[k].lineNumber <= |lines| &&
      LineMatches(lines[hits[k].lineNumber - 1], query, true) &&
      hits[k] == HitAt(lines, query, hits[k].lineNumber - 1, radius)) &&
    (forall k, l :: 0 <= k < l < |hits| ==> hits[k].lineNumber < hits[l].lineNumber) &&
    (forall i :: 0 <= i < |lines| && LineMatches(lines[i], query, true) ==>
      exists k :: 0 <= k < |hits| && hits[k].lineNumber == i + 1)
  }

  /** With a non-blank query and a context of `radius` lines, the hits are exact. */
  lemma SearchHitsExact(text: string, query: string, radius: nat)
    requires !IsBlank(query)
    ensures query != []
    ensures SearchWithContext(text, query, radius).Found?
    ensures ExactHits(Split(text, "\n"), query, radius, SearchWithContext(text, query, radius).hits)
  {
    NonBlankNonEmpty(query);
    var lines := Split(text, "\n");
    ScanNonNegative(lines, query, radius, |lines|);
    HitsBelowExact(lines, query, radius);
  }

  lemma HitsBelowExact(lines: seq<string>, query: string, radius: nat)
    requires query != []
    ensures ExactHits(lines, query, radius, HitsBelow(lines, query, radius, |lines|))
  {
    HitsFollowMatches(lines, query, radius, |lines|);
    MatchingLinesExact(lines, query, true, |lines|);
    HitsExact(lines, query, radius, HitsBelow(lines, query, radius, |lines|), MatchingLines(lines, query, true, |lines|));
  }

  lemma HitsExact(lines: seq<string>, query: string, radius: nat, hits: seq<ContextHit>, m: seq<nat>)
    requires query != [] && |hits| == |m|
    requires forall k :: 0 <= k < |m| ==> m[k] < |lines| && hits[k] == HitAt(lines, query, m[k], radius)
    requires forall k :: 0 <= k < |m| ==> m[k] < |lines| && LineMatches(lines[m[k]], query, true)
    requires forall k, l :: 0 <= k < l < |m| ==> m[k] < m[l]
    requires forall i :: 0 <= i < |lines| && LineMatches(lines[i], query, true) ==> i in m
    ensures ExactHits(lines, query, radius, hits)
  {
    assert forall k :: 0 <= k < |hits| ==> hits[k].lineNumber == m[k] + 1;
    forall i | 0 <= i < |lines| && LineMatches(lines[i], query, true)
      ensures exists k :: 0 <= k < |hits| && hits[k].lineNumber == i + 1
    {
      var k :| 0 <= k < |m| && m[k] == i;
      assert hits[k].lineNumber == i + 1;
    }
  }

  /**
   * One matching line of the loop, given the window `context` it slices and the index `at`
   * it has normalised: an index outside the window raises, otherwise the entry is added.
   */
  lemma MatchStep(lines: seq<string>, query: string, c: int, i: nat, results: seq<ContextHit>,
                  start: int, context: seq<string>, at: int)
    requires query != [] && i < |lines| && LineMatches(lines[i], query, true)
    requires ScanBelow(lines, query, c, i) == Found(results)
    requires start == (if i - c > 0 then i - c else 0)
    requires context == PySlice(lines, start, if |lines| < i + c + 1 then |lines| else i + c + 1)
    requires at == (if i - start < 0 then |context| + (i - start) else i - start)
    ensures (at < 0 || at >= |context|) ==> ScanBelow(lines, query, c, |lines|) == IndexError
    ensures 0 <= at < |context| ==>
      var highlighted := Emphasise(lines[i], query);
      ScanBelow(lines, query, c, i + 1) ==
        Found(results + [ContextHit(i + 1, Join("\n", context[at := highlighted]), highlighted)])
  {
    if at < 0 || at >= |context| {
      ScanStaysRaised(lines, query, c, i + 1, |lines|);
    }
  }

  /** `search_text_with_context`, line by line. */
  method SearchTextWithContext(text: string, query: string, contextLines: int) returns (r: ContextSearch)
    ensures r == SearchWithContext(text, query, contextLines)
  {
    if IsBlank(query) {
      return Found([]);
    }
    NonBlankNonEmpty(query);
    var lines := Split(text, "\n");
    var results: seq<ContextHit> := [];
    var i := 0;
    while i < |lines|
      invariant 0 <= i <= |lines|
      invariant ScanBelow(lines, query, contextLines, i) == Found(results)
    {
      var line := lines[i];
      if Contains(Lower(line), Lower(query)) {
        var start := if i - contextLines > 0 then i - contextLines else 0;
        var end := if |lines| < i + contextLines + 1 then |lines| else i + contextLines + 1;
        var lo := SliceBound(|lines|, start);
        var hi := SliceBound(|lines|, end);
        var context := if lo < hi then lines[lo..hi] else [];
        var highlighted := ReplaceAll(line, query, "**" + query + "**");
        var at := i - start;
        if at < 0 {
          at := |context| + at;
        }
        MatchStep(lines, query, contextLines, i, results, start, context, at);
        if at < 0 || at >= |context| {
          return IndexError;
        }
        context := context[at := highlighted];
        results := results + [ContextHit(i + 1, Join("\n", context), highlighted)];
      }
      i := i + 1;
    }
    return Found(results);
  }

  // ---------------------------------------------------------------------------
  // get_color_options

  datatype ColorOption = ColorOption(hex: string, emoji: string)

  /** The highlight colours offered to the reader, with their swatches. */
  const ColorOptions: map<string, ColorOption> := map[
    "Light Green" := ColorOption("#90EE90", "\U{1F7E2}"),
    "Light Yellow" := ColorOption("#FFFFE0", "\U{1F7E1}"),
    "Light Blue" := ColorOption("#ADD8E6", "\U{1F535}"),
    "Light Pink" := ColorOption("#FFB6C1", "\U{1FA77}"),
    "Light Red" := ColorOption("#FFA07A", "\U{1F534}")
  ]

  /** The offered colours are exactly the five the highlighter renders, with the same backgrounds. */
  lemma ColorOptionsMatchRendering()
    ensures |ColorOptions.Keys| == 5
    ensures ColorOptions.Keys == ColorMap.Keys
    ensures forall c :: c in ColorOptions ==> ColorOptions[c].hex == ColorMap[c] == Background(c)
  {
    assert ColorOptions.Keys == {"Light Green", "Light Yellow", "Light Blue", "Light Pink", "Light Red"};
    BackgroundDefault("");
  }

  // ---------------------------------------------------------------------------
  // export_annotations_json, import_annotations_json

  /** The JSON object of an export file. A file read back may lack any of its keys. */
  datatype ExportRecord = ExportRecord(pdfName: Option<string>, exportDate: Option<string>,
                                       annotations: Option<DocAnnotations>,
                                       topics: Option<map<string, Topic>>)

  /** The empty dictionary `{}` read as a document record: none of the three lists. */
  const NoLists: DocAnnotations := DocAnnotations(None, None, None)

  /** `annotations.get(pdf_name, {})` */
  function StoredDoc(docs: map<string, DocAnnotations>, pdfName: string): DocAnnotations {
    if pdfName in docs then docs[pdfName] else NoLists
  }

  /** The record the export writes; `now` is the export time. */
  function ExportRecordOf(pdfName: string, now: string, docs: map<string, DocAnnotations>,
                          topics: map<string, Topic>): ExportRecord
  {
    ExportRecord(Some(pdfName), Some(now), Some(StoredDoc(docs, pdfName)), Some(topics))
  }

  const ExportDir: string := "notes_output"

  /** `notes_output/annotations_export_<clean name>.json`, every ".pdf" removed before cleaning. */
  function ExportPath(pdfName: string): string {
    ExportDir + "/annotations_export_" + CleanFilename(ReplaceAll(pdfName, ".pdf", "")) + ".json"
  }

  /** The path the export returns, or `None` when writing the file fails. */
  function ExportAnnotations(pdfName: string, written: bool): (r: Option<string>)
    ensures written <==> r.Some?
    ensures r.Some? ==> r.value == ExportPath(pdfName)
  {
    if written then Some(ExportPath(pdfName)) else None
  }

  /** Two documents export to the same file exactly when their cleaned stems agree. */
  lemma ExportPathSameIff(a: string, b: string)
    ensures ExportPath(a) == ExportPath(b) <==>
      CleanFilename(ReplaceAll(a, ".pdf", "")) == CleanFilename(ReplaceAll(b, ".pdf", ""))
  {
    var head := ExportDir + "/annotations_export_";
    var ca, cb := CleanFilename(ReplaceAll(a, ".pdf", "")), CleanFilename(ReplaceAll(b, ".pdf", ""));
    if ExportPath(a) == ExportPath(b) {
      var pa, pb := head + ca + ".json", head + cb + ".json";
      assert |ca| == |cb|;
      assert ca == pa[|head|..|head| + |ca|] && cb == pb[|head|..|head| + |cb|];
    }
  }

  /** The stem of an export file name is a clean name. */
  lemma ExportStemClean(pdfName: string)
    ensures IsClean(CleanFilename(ReplaceAll(pdfName, ".pdf", "")))
  {
    CleanFilenameClean(ReplaceAll(pdfName, ".pdf", ""));
  }

  datatype Imported = Imported(pdfName: Option<string>, annotations: map<string, DocAnnotations>,
                               topics: map<string, Topic>)

  /**
   * `import_annotations_json` on what the file held: `None` stands for a file that cannot be
   * read or parsed, and gives `(None, {}, {})`.
   */
  function ImportRecord(data: Option<ExportRecord>): (r: Imported)
    ensures data.None? ==> r == Imported(None, map[], map[])
    ensures data.Some? ==> r.pdfName.Some? && r.annotations.Keys == {r.pdfName.value}
  {
    match data
    case None => Imported(None, map[], map[])
    case Some(d) =>
      var name := if d.pdfName.Some? then d.pdfName.value else "Unknown";
      var doc := if d.annotations.Some? then d.annotations.value else NoLists;
      Imported(Some(name), map[name := doc], if d.topics.Some? then d.topics.value else map[])
  }

  /** Importing an export gives back the name, that document's record alone, and the topics. */
  lemma ExportImportRoundTrip(pdfName: string, now: string, docs: map<string, DocAnnotations>,
                              topics: map<string, Topic>)
    ensures var r := ImportRecord(Some(ExportRecordOf(pdfName, now, docs, topics)));
      r.pdfName == Some(pdfName) && r.topics == topics &&
      r.annotations == map[pdfName := StoredDoc(docs, pdfName)] &&
      (pdfName in docs ==> r.annotations[pdfName] == docs[pdfName])
  {
  }

  /** A record without defaults: a missing name reads as "Unknown", missing lists as nothing. */
  lemma ImportDefaults(d: ExportRecord)
    requires d.pdfName.None? && d.annotations.None? && d.topics.None?
    ensures ImportRecord(Some(d)) == Imported(Some("Unknown"), map["Unknown" := NoLists], map[])
  {
  }

  // ---------------------------------------------------------------------------
  // get_reading_statistics (the integer counts)

  datatype ReadingStats = ReadingStats(wordCount: nat, sentenceCount: nat, paragraphCount: nat,
                                       characterCount: nat, characterCountNoSpaces: nat)

  /** `len([p for p in pieces if p.strip()])` */
  function NonBlankCount(pieces: seq<string>): (k: nat)
    ensures k <= |pieces|
    decreases |pieces|
  {
    if pieces == [] then 0
    else NonBlankCount(pieces[..|pieces| - 1]) + (if IsBlank(pieces[|pieces| - 1]) then 0 else 1)
  }

  /** No piece counts exactly when all are blank; all count exactly when none is. */
  lemma {:induction false} NonBlankCountIff(pieces: seq<string>)
    ensures NonBlankCount(pieces) == 0 <==> forall i :: 0 <= i < |pieces| ==> IsBlank(pieces[i])
    ensures NonBlankCount(pieces) == |pieces| <==> forall i :: 0 <= i < |pieces| ==> !IsBlank(pieces[i])
    decreases |pieces|
  {
    if pieces != [] {
      var init := pieces[..|pieces| - 1];
      NonBlankCountIff(init);
      assert forall i :: 0 <= i < |init| ==> init[i] == pieces[i];
    }
  }

  /** The integer counts of `get_reading_statistics`. */
  function ReadingStatistics(text: string): ReadingStats {
    ReadingStats(|Words(text)|, NonBlankCount(Split(text, ".")), NonBlankCount(Split(text, "\n\n")),
                 |text|, |ReplaceAll(text, " ", "")|)
  }

  /** `text.replace(' ', '')` drops exactly the spaces. */
  lemma {:induction false} RemoveSpaces(text: string)
    ensures |ReplaceAll(text, " ", "")| + Count(text, " ") == |text|
    ensures ' ' !in ReplaceAll(text, " ", "")
    decreases |text|
  {
    if text != [] {
      RemoveSpaces(text[1..]);
    }
  }

  /** The counts against the text: pieces per separator, spaces, and words joined by spaces. */
  lemma ReadingStatisticsFacts(text: string)
    ensures var r := ReadingStatistics(text);
      r.sentenceCount <= Count(text, ".") + 1 &&
      r.paragraphCount <= Count(text, "\n\n") + 1 &&
      r.characterCountNoSpaces + Count(text, " ") == r.characterCount
  {
    SplitLength(text, ".");
    SplitLength(text, "\n\n");
    RemoveSpaces(text);
  }

  /** Words joined by single spaces are counted one by one. */
  lemma WordCountOfJoin(ws: seq<string>)
    requires forall i :: 0 <= i < |ws| ==> IsWord(ws[i])
    ensures ReadingStatistics(Join(" ", ws)).wordCount == |ws|
  {
    WordsOfJoin(ws);
  }
}
