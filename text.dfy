/**
 * ASCII-level model of the Python `str` operations the annotation tool relies on:
 * `strip`/`lstrip`/`rstrip`, `split()` on whitespace, `split(sep)`, `sep.join`,
 * `in`, `count`, `replace`, `lower`, decimal formatting of integers and the
 * lexicographic `<` on strings. Unicode character classes are narrowed to ASCII.
 */
module Text {

  datatype Option<T> = None | Some(value: T)

  /** The ASCII characters for which Python's `str.isspace()` holds. */
  const Whitespace: set<char> :=
    {' ', '\t', '\n', '\U{0B}', '\U{0C}', '\r', '\U{1C}', '\U{1D}', '\U{1E}', '\U{1F}'}

  predicate IsUpperChar(c: char) { 'A' <= c <= 'Z' }
  predicate IsLowerChar(c: char) { 'a' <= c <= 'z' }
  predicate IsDigitChar(c: char) { '0' <= c <= '9' }

  /** `\w` of Python regular expressions, restricted to ASCII. */
  predicate IsWordChar(c: char) { IsUpperChar(c) || IsLowerChar(c) || IsDigitChar(c) || c == '_' }

  function LowerChar(c: char): (d: char)
    ensures !IsUpperChar(d)
    ensures IsUpperChar(c) ==> d as int == c as int + 32
    ensures !IsUpperChar(c) ==> d == c
  {
    if IsUpperChar(c) then (c as int + 32) as char else c
  }

  /** `str.lower()` */
  function Lower(s: string): (r: string)
    ensures |r| == |s|
  {
    seq(|s|, i requires 0 <= i < |s| => LowerChar(s[i]))
  }

  /** Python's `str.isupper()`: at least one cased character and no lower-case one. */
  predicate IsUpperString(s: string) {
    (exists i :: 0 <= i < |s| && IsUpperChar(s[i])) && (forall i :: 0 <= i < |s| ==> !IsLowerChar(s[i]))
  }

  // ---------------------------------------------------------------------------
  // Stripping

  /** `s.lstrip(chars)` */
  function TrimLeft(s: string, chars: set<char>): (r: string)
    ensures |r| <= |s|
    decreases |s|
  {
    if s != [] && s[0] in chars then TrimLeft(s[1..], chars) else s
  }

  /**
   * `lstrip` keeps a suffix that is empty or starts outside `chars`, and everything
   * it removes is one of `chars`.
   */
  lemma {:induction false} TrimLeftFacts(s: string, chars: set<char>)
    ensures var r := TrimLeft(s, chars);
      r == s[|s| - |r|..] && (r == [] || r[0] !in chars) &&
      forall i :: 0 <= i < |s| - |r| ==> s[i] in chars
    decreases |s|
  {
    if s != [] && s[0] in chars {
      TrimLeftFacts(s[1..], chars);
      assert forall i :: 1 <= i < |s| - |TrimLeft(s, chars)| ==> s[i] == s[1..][i - 1];
    }
  }

  /** `s.rstrip(chars)` */
  function TrimRight(s: string, chars: set<char>): (r: string)
    ensures |r| <= |s|
    decreases |s|
  {
    if s != [] && s[|s| - 1] in chars then TrimRight(s[..|s| - 1], chars) else s
  }

  /**
   * `rstrip` keeps a prefix that is empty or ends outside `chars`, and everything
   * it removes is one of `chars`.
   */
  lemma {:induction false} TrimRightFacts(s: string, chars: set<char>)
    ensures var r := TrimRight(s, chars);
      r == s[..|r|] && (r == [] || r[|r| - 1] !in chars) &&
      forall i :: |r| <= i < |s| ==> s[i] in chars
    decreases |s|
  {
    if s != [] && s[|s| - 1] in chars {
      TrimRightFacts(s[..|s| - 1], chars);
    }
  }

  /** `s.strip(chars)` */
  function StripChars(s: string, chars: set<char>): string {
    TrimRight(TrimLeft(s, chars), chars)
  }

  /** `s.strip()` */
  function Strip(s: string): string {
    StripChars(s, Whitespace)
  }

  /** Python's truth test `if s.strip():` */
  predicate IsBlank(s: string) {
    Strip(s) == []
  }

  lemma {:induction false} BlankIffAllWhitespace(s: string)
    ensures IsBlank(s) <==> forall i :: 0 <= i < |s| ==> s[i] in Whitespace
  {
    var l := TrimLeft(s, Whitespace);
    TrimLeftFacts(s, Whitespace);
    TrimRightFacts(l, Whitespace);
    if l != [] {
      assert l[0] == s[|s| - |l|] && l[0] !in Whitespace;
      assert TrimRight(l, Whitespace) != [] by {
        assert l[|l| - 1] !in Whitespace || TrimRight(l, Whitespace) != [];
      }
    }
  }

  // ---------------------------------------------------------------------------
  // Whitespace-separated words, `s.split()`

  /** A token of `split()`: non-empty and made of non-whitespace characters only. */
  predicate IsWord(w: string) {
    w != [] && TokenLength(w) == |w|
  }

  /** The length of the run of non-whitespace characters `t` starts with. */
  function TokenLength(t: string): (k: nat)
    ensures k <= |t|
    decreases |t|
  {
    if t == [] || t[0] in Whitespace then 0 else 1 + TokenLength(t[1..])
  }

  /** The run `TokenLength` measures holds no whitespace and is followed by whitespace or the end. */
  lemma {:induction false} TokenLengthRun(t: string)
    ensures var k := TokenLength(t);
      (forall i :: 0 <= i < k ==> t[i] !in Whitespace) && (k < |t| ==> t[k] in Whitespace)
    decreases |t|
  {
    if t != [] && t[0] !in Whitespace {
      TokenLengthRun(t[1..]);
      assert forall i :: 1 <= i < TokenLength(t) ==> t[i] == t[1..][i - 1];
    }
  }

  /** The run `TokenLength` measures is itself one token long. */
  lemma {:induction false} TokenLengthOfToken(t: string)
    ensures TokenLength(t[..TokenLength(t)]) == TokenLength(t)
    decreases |t|
  {
    if t != [] && t[0] !in Whitespace {
      TokenLengthOfToken(t[1..]);
      assert t[..TokenLength(t)][1..] == t[1..][..TokenLength(t[1..])];
    }
  }

  /** `s.split()`: the maximal runs of non-whitespace characters, in order. */
  function Words(s: string): seq<string>
    decreases |s|
  {
    if s == [] then []
    else if s[0] in Whitespace then Words(s[1..])
    else
      var k := TokenLength(s);
      [s[..k]] + Words(s[k..])
  }

  /** Every element of `s.split()` is a word. */
  lemma {:induction false} WordsAreWords(s: string)
    ensures forall i :: 0 <= i < |Words(s)| ==> IsWord(Words(s)[i])
    decreases |s|
  {
    if s != [] && s[0] in Whitespace {
      WordsAreWords(s[1..]);
    } else if s != [] {
      TokenLengthOfToken(s);
      WordsAreWords(s[TokenLength(s)..]);
    }
  }

  lemma {:induction false} TokenLengthOfWord(w: string, rest: string)
    requires IsWord(w)
    requires rest == [] || rest[0] in Whitespace
    ensures TokenLength(w + rest) == |w|
    decreases |w|
  {
    if |w| > 1 {
      assert (w + rest)[1..] == w[1..] + rest;
      TokenLengthOfWord(w[1..], rest);
    } else {
      assert (w + rest)[1..] == rest;
    }
  }

  lemma {:induction false} WordsCons(w: string, rest: string)
    requires IsWord(w)
    requires rest == [] || rest[0] in Whitespace
    ensures Words(w + rest) == [w] + Words(rest)
  {
    var t := w + rest;
    assert t[0] == w[0];
    TokenLengthOfWord(w, rest);
    assert t[..|w|] == w;
    assert t[|w|..] == rest;
  }

  lemma {:induction false} WordsSpace(s: string)
    ensures Words([' '] + s) == Words(s)
  {
    assert ([' '] + s)[1..] == s;
  }

  lemma {:induction false} WordsOfJoinStep(ws: seq<string>)
    requires |ws| > 1 && IsWord(ws[0])
    ensures Words(Join(" ", ws)) == [ws[0]] + Words(Join(" ", ws[1..]))
  {
    var j := Join(" ", ws[1..]);
    assert Join(" ", ws) == ws[0] + ([' '] + j);
    WordsCons(ws[0], [' '] + j);
    WordsSpace(j);
  }

  /** Re-splitting words joined by single spaces gives back the words: `' '.join(ws).split() == ws`. */
  lemma {:induction false} WordsOfJoin(ws: seq<string>)
    requires forall i :: 0 <= i < |ws| ==> IsWord(ws[i])
    ensures Words(Join(" ", ws)) == ws
    decreases |ws|
  {
    if |ws| == 1 {
      WordsCons(ws[0], []);
      assert ws[0] + [] == ws[0];
    } else if |ws| > 1 {
      var tail := ws[1..];
      assert forall i :: 0 <= i < |tail| ==> IsWord(tail[i]) by {
        forall i | 0 <= i < |tail| ensures IsWord(tail[i]) { assert tail[i] == ws[i + 1]; }
      }
      WordsOfJoin(tail);
      WordsOfJoinStep(ws);
    }
  }

  // ---------------------------------------------------------------------------
  // Separator-based splitting and joining

  /** `s.split(sep)` for a non-empty separator: always at least one piece. */
  function Split(s: string, sep: string): (r: seq<string>)
    requires sep != []
    ensures |r| >= 1
    decreases |s|
  {
    if sep <= s then [""] + Split(s[|sep|..], sep)
    else if s == [] then [""]
    else
      var rest := Split(s[1..], sep);
      [[s[0]] + rest[0]] + rest[1..]
  }

  /** `sep.join(parts)` */
  function Join(sep: string, parts: seq<string>): string
    decreases |parts|
  {
    if parts == [] then ""
    else if |parts| == 1 then parts[0]
    else parts[0] + sep + Join(sep, parts[1..])
  }

  /** `s.count(sub)` for a non-empty `sub`: non-overlapping, left to right. */
  function Count(s: string, sub: string): nat
    requires sub != []
    decreases |s|
  {
    if sub <= s then 1 + Count(s[|sub|..], sub)
    else if s == [] then 0
    else Count(s[1..], sub)
  }

  lemma {:induction false} JoinCons(sep: string, p: string, parts: seq<string>)
    requires parts != []
    ensures Join(sep, [p] + parts) == p + sep + Join(sep, parts)
  {
    assert ([p] + parts)[1..] == parts;
  }

  /** Prepending a character to the first piece prepends it to the joined string. */
  lemma {:induction false} JoinPrependChar(sep: string, c: char, parts: seq<string>)
    requires parts != []
    ensures Join(sep, [[c] + parts[0]] + parts[1..]) == [c] + Join(sep, parts)
  {
    var q := [[c] + parts[0]] + parts[1..];
    if |parts| > 1 {
      assert q[1..] == parts[1..];
      assert Join(sep, q) == q[0] + sep + Join(sep, parts[1..]);
    }
  }

  /** `sep.join(s.split(sep)) == s` */
  lemma {:induction false} JoinSplit(s: string, sep: string)
    requires sep != []
    ensures Join(sep, Split(s, sep)) == s
    decreases |s|
  {
    if sep <= s {
      JoinSplit(s[|sep|..], sep);
      JoinSplitAtSep(s, sep);
    } else if s != [] {
      JoinSplit(s[1..], sep);
      JoinSplitAtChar(s, sep);
    }
  }

  /** A separator at the front opens an empty first piece. */
  lemma {:induction false} JoinSplitAtSep(s: string, sep: string)
    requires sep != [] && sep <= s
    requires Join(sep, Split(s[|sep|..], sep)) == s[|sep|..]
    ensures Join(sep, Split(s, sep)) == s
  {
    var rest := s[|sep|..];
    var parts := Split(rest, sep);
    assert Split(s, sep) == [""] + parts;
    JoinCons(sep, "", parts);
    assert "" + sep == sep;
    PrefixRest(sep, s);
  }

  lemma PrefixRest(p: string, s: string)
    requires p <= s
    ensures s == p + s[|p|..]
  {
  }

  /** Any other first character belongs to the first piece. */
  lemma {:induction false} JoinSplitAtChar(s: string, sep: string)
    requires sep != [] && !(sep <= s) && s != []
    requires Join(sep, Split(s[1..], sep)) == s[1..]
    ensures Join(sep, Split(s, sep)) == s
  {
    JoinPrependChar(sep, s[0], Split(s[1..], sep));
    assert s == [s[0]] + s[1..];
  }

  /** `len(s.split(sep)) == s.count(sep) + 1` */
  lemma {:induction false} SplitLength(s: string, sep: string)
    requires sep != []
    ensures |Split(s, sep)| == Count(s, sep) + 1
    decreases |s|
  {
    if sep <= s {
      SplitLength(s[|sep|..], sep);
    } else if s != [] {
      SplitLength(s[1..], sep);
    }
  }

  lemma PrefixAt(s: string, sub: string, i: nat)
    requires i < |sub|
    ensures sub <= s ==> s[i] == sub[i]
  {
  }

  /** A character that `sub` does not contain separates the counts of its two sides. */
  lemma {:induction false} CountAcrossSeparator(a: string, c: char, b: string, sub: string)
    requires sub != [] && c !in sub
    ensures Count(a + [c] + b, sub) == Count(a, sub) + Count(b, sub)
    decreases |a|
  {
    var s := a + [c] + b;
    if |sub| > |a| {
      PrefixAt(s, sub, |a|);
      assert s[|a|] == c;
    }
    if sub <= s {
      assert sub <= a;
      assert s[|sub|..] == a[|sub|..] + [c] + b;
      CountAcrossSeparator(a[|sub|..], c, b, sub);
    } else if a == [] {
      assert s[1..] == b;
    } else {
      assert !(sub <= a);
      assert s[1..] == a[1..] + [c] + b;
      CountAcrossSeparator(a[1..], c, b, sub);
    }
  }

  /** A string lacking one of `sub`'s characters holds no occurrence of `sub`. */
  lemma {:induction false} CountWithoutChar(s: string, sub: string, j: nat)
    requires j < |sub|
    requires forall i :: 0 <= i < |s| ==> s[i] != sub[j]
    ensures Count(s, sub) == 0
    decreases |s|
  {
    PrefixAt(s, sub, j);
    if !(sub <= s) && s != [] {
      CountWithoutChar(s[1..], sub, j);
    }
  }

  // ---------------------------------------------------------------------------
  // Occurrences and replacement

  /** `sub` occurs in `s` starting at index `i`. */
  predicate Occurs(s: string, sub: string, i: nat) {
    i + |sub| <= |s| && s[i..i + |sub|] == sub
  }

  lemma OccursShift(s: string, sub: string, j: nat)
    requires s != []
    ensures Occurs(s, sub, j + 1) <==> Occurs(s[1..], sub, j)
  {
    if j + 1 + |sub| <= |s| {
      assert s[j + 1..j + 1 + |sub|] == s[1..][j..j + |sub|];
    }
  }

  /** `s.find(sub)`: the first index at which `sub` occurs, if any. */
  function IndexOf(s: string, sub: string): (r: Option<nat>)
    ensures r.Some? ==> r.value + |sub| <= |s|
    decreases |s|
  {
    if sub <= s then Some(0)
    else if s == [] then None
    else
      match IndexOf(s[1..], sub)
      case None => None
      case Some(j) => Some(j + 1)
  }

  /** `IndexOf` finds an occurrence, and it is the first one; `None` means there is none. */
  lemma {:induction false} IndexOfFirst(s: string, sub: string)
    ensures var r := IndexOf(s, sub);
      (r.Some? ==> Occurs(s, sub, r.value)) &&
      (r.Some? ==> forall j: nat :: j < r.value ==> !Occurs(s, sub, j)) &&
      (r.None? ==> forall j: nat :: !Occurs(s, sub, j))
    decreases |s|
  {
    if !(sub <= s) && s != [] {
      IndexOfFirst(s[1..], sub);
      OccursShiftAll(s, sub);
    }
  }

  lemma OccursShiftAll(s: string, sub: string)
    requires s != []
    ensures !(sub <= s) ==> !Occurs(s, sub, 0)
    ensures forall j: nat :: Occurs(s[1..], sub, j) ==> Occurs(s, sub, j + 1)
    ensures forall j: nat :: 0 < j && Occurs(s, sub, j) ==> Occurs(s[1..], sub, j - 1)
  {
    forall j: nat | Occurs(s[1..], sub, j) ensures Occurs(s, sub, j + 1) { OccursShift(s, sub, j); }
    forall j: nat | 0 < j && Occurs(s, sub, j) ensures Occurs(s[1..], sub, j - 1) { OccursShift(s, sub, j - 1); }
  }

  /** Python's `sub in s`. */
  predicate Contains(s: string, sub: string) {
    IndexOf(s, sub).Some?
  }

  lemma ContainsIff(s: string, sub: string)
    ensures Contains(s, sub) <==> exists i: nat :: Occurs(s, sub, i)
  {
    IndexOfFirst(s, sub);
    if Contains(s, sub) {
      assert Occurs(s, sub, IndexOf(s, sub).value);
    }
  }

  /** `s.replace(pat, rep, 1)`: only the first occurrence is replaced. */
  function ReplaceFirst(s: string, pat: string, rep: string): (r: string)
    ensures !Contains(s, pat) ==> r == s
    ensures Contains(s, pat) ==>
      var i := IndexOf(s, pat).value;
      r == s[..i] + rep + s[i + |pat|..]
  {
    match IndexOf(s, pat)
    case None => s
    case Some(i) => s[..i] + rep + s[i + |pat|..]
  }

  /** `s.replace(pat, rep)` for a non-empty `pat`: all non-overlapping occurrences, left to right. */
  function ReplaceAll(s: string, pat: string, rep: string): (r: string)
    requires pat != []
    decreases |s|
  {
    if pat <= s then rep + ReplaceAll(s[|pat|..], pat, rep)
    else if s == [] then []
    else [s[0]] + ReplaceAll(s[1..], pat, rep)
  }

  lemma {:induction false} ReplaceAllAbsent(s: string, pat: string, rep: string)
    requires pat != [] && !Contains(s, pat)
    ensures ReplaceAll(s, pat, rep) == s
    decreases |s|
  {
    if !(pat <= s) && s != [] {
      ReplaceAllAbsent(s[1..], pat, rep);
    }
  }

  lemma LowerSlice(s: string, i: nat, j: nat)
    requires i <= j <= |s|
    ensures Lower(s)[i..j] == Lower(s[i..j])
  {
  }

  lemma LowerAppend(a: string, b: string)
    ensures Lower(a + b) == Lower(a) + Lower(b)
  {
  }

  lemma {:induction false} ContainsStep(s: string, sub: string)
    requires s != [] && !(sub <= s)
    ensures Contains(s, sub) == Contains(s[1..], sub)
  {
  }

  /** `!Contains(s, sub)` means `s.count(sub) == 0`. */
  lemma {:induction false} CountAbsent(s: string, sub: string)
    requires sub != [] && !Contains(s, sub)
    ensures Count(s, sub) == 0
    decreases |s|
  {
    if !(sub <= s) && s != [] {
      ContainsStep(s, sub);
      CountAbsent(s[1..], sub);
    }
  }

  // ---------------------------------------------------------------------------
  // Line search

  /** The per-line test of the two text searches: plain or case-insensitive containment. */
  predicate LineMatches(line: string, query: string, ignoreCase: bool) {
    if ignoreCase then Contains(Lower(line), Lower(query)) else Contains(line, query)
  }

  /** The indices below `n` of the lines that match, in ascending order. */
  function MatchingLines(lines: seq<string>, query: string, ignoreCase: bool, n: nat): seq<nat>
    requires n <= |lines|
    decreases n
  {
    if n == 0 then []
    else
      MatchingLines(lines, query, ignoreCase, n - 1) +
      (if LineMatches(lines[n - 1], query, ignoreCase) then [n - 1] else [])
  }

  /** One entry per matching line below `n`, ascending, and no other entries. */
  lemma {:induction false} MatchingLinesExact(lines: seq<string>, query: string, ignoreCase: bool, n: nat)
    requires n <= |lines|
    ensures var r := MatchingLines(lines, query, ignoreCase, n);
      (forall k :: 0 <= k < |r| ==> r[k] < n && LineMatches(lines[r[k]], query, ignoreCase)) &&
      (forall k, l :: 0 <= k < l < |r| ==> r[k] < r[l]) &&
      (forall i :: 0 <= i < n && LineMatches(lines[i], query, ignoreCase) ==> i in r)
    decreases n
  {
    if n > 0 {
      var prev := MatchingLines(lines, query, ignoreCase, n - 1);
      MatchingLinesExact(lines, query, ignoreCase, n - 1);
      var tail := if LineMatches(lines[n - 1], query, ignoreCase) then [n - 1] else [];
      var r := prev + tail;
      assert MatchingLines(lines, query, ignoreCase, n) == r;
      assert forall k :: 0 <= k < |prev| ==> r[k] == prev[k];
      assert forall i :: 0 <= i < n - 1 && LineMatches(lines[i], query, ignoreCase) ==> i in prev;
    }
  }

  /** `max(0, i - radius)` */
  function WindowStart(i: nat, radius: nat): nat {
    if i >= radius then i - radius else 0
  }

  /** `min(n, i + radius + 1)` */
  function WindowEnd(n: nat, i: nat, radius: nat): nat {
    if i + radius + 1 <= n then i + radius + 1 else n
  }

  /** `lines[max(0, i - radius) : min(len(lines), i + radius + 1)]`: at most `2 * radius + 1` lines around line `i`. */
  function ContextWindow(lines: seq<string>, i: nat, radius: nat): (r: seq<string>)
    requires i < |lines|
    ensures |r| <= 2 * radius + 1
    ensures WindowStart(i, radius) + |r| <= |lines|
    ensures WindowStart(i, radius) <= i < WindowStart(i, radius) + |r|
    ensures r[i - WindowStart(i, radius)] == lines[i]
    ensures forall k :: 0 <= k < |r| ==> r[k] == lines[WindowStart(i, radius) + k]
  {
    lines[WindowStart(i, radius)..WindowEnd(|lines|, i, radius)]
  }

  // ---------------------------------------------------------------------------
  // Lexicographic order and decimal formatting

  /** Python's `a < b` on strings (code-point lexicographic; a proper prefix is smaller). */
  predicate StrLt(a: string, b: string)
    decreases |a|
  {
    if a == [] then b != []
    else if b == [] then false
    else if a[0] != b[0] then a[0] < b[0]
    else StrLt(a[1..], b[1..])
  }

  lemma {:induction false} StrLtIrreflexive(a: string)
    ensures !StrLt(a, a)
    decreases |a|
  {
    if a != [] { StrLtIrreflexive(a[1..]); }
  }

  lemma {:induction false} StrLtTransitive(a: string, b: string, c: string)
    requires StrLt(a, b) && StrLt(b, c)
    ensures StrLt(a, c)
    decreases |a|
  {
    if a != [] && b != [] && c != [] && a[0] == b[0] && b[0] == c[0] {
      StrLtTransitive(a[1..], b[1..], c[1..]);
    }
  }

  lemma {:induction false} StrLtTotal(a: string, b: string)
    requires a != b
    ensures StrLt(a, b) || StrLt(b, a)
    decreases |a|
  {
    if a != [] && b != [] && a[0] == b[0] {
      assert a == [a[0]] + a[1..] && b == [b[0]] + b[1..];
      StrLtTotal(a[1..], b[1..]);
    }
  }

  function DigitChar(d: nat): (c: char)
    requires d < 10
    ensures IsDigitChar(c) && c as int - '0' as int == d
  {
    ('0' as int + d) as char
  }

  /** `str(n)` for a natural number: its decimal digits. */
  function NatToString(n: nat): (r: string)
    ensures r != [] && forall i :: 0 <= i < |r| ==> IsDigitChar(r[i])
  {
    if n < 10 then [DigitChar(n)] else NatToString(n / 10) + [DigitChar(n % 10)]
  }

  /** The number a string of decimal digits denotes, most significant digit first. */
  function DigitsValue(s: string): nat
    requires forall i :: 0 <= i < |s| ==> IsDigitChar(s[i])
    decreases |s|
  {
    if s == [] then 0
    else
      assert IsDigitChar(s[|s| - 1]);
      10 * DigitsValue(s[..|s| - 1]) + (s[|s| - 1] as int - '0' as int)
  }

  /** `str(n)` denotes `n`, and has no leading zero unless it is "0". */
  lemma {:induction false} NatToStringValue(n: nat)
    ensures DigitsValue(NatToString(n)) == n
    ensures NatToString(n)[0] == '0' <==> n == 0
    decreases n
  {
    if n >= 10 {
      NatToStringValue(n / 10);
      var r := NatToString(n);
      assert r[..|r| - 1] == NatToString(n / 10);
    }
  }
}
