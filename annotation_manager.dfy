/**
 * The annotation store of the PDF reader. Each document name maps to a record with
 * three lists (highlights, comments, notes); notes are also filed under topics.
 * The store is the caller's dictionaries, updated in place; saving to disk and the
 * clock are inputs (a boolean outcome per save, a timestamp string `now`).
 */
module Annotations {
  import opened Text

  // ---------------------------------------------------------------------------
  // Storage keys (get_annotation_file_path, get_topics_file_path)

  /** The characters `[\w\-_\.]` leaves alone. */
  predicate IsSafeChar(c: char) {
    IsWordChar(c) || c == '-' || c == '.'
  }

  predicate AllSafe(s: string) {
    forall i :: 0 <= i < |s| ==> IsSafeChar(s[i])
  }

  /** `re.sub(r'[^\w\-_\.]', '_', name)`: each unsafe character becomes an underscore. */
  function Sanitize(name: string): (r: string)
    ensures |r| == |name|
  {
    seq(|name|, i requires 0 <= i < |name| => if IsSafeChar(name[i]) then name[i] else '_')
  }

  /** Sanitizing yields safe characters only and keeps every safe character in place. */
  lemma SanitizeSafe(name: string)
    ensures AllSafe(Sanitize(name))
    ensures forall i :: 0 <= i < |name| && IsSafeChar(name[i]) ==> Sanitize(name)[i] == name[i]
  {
  }

  /** A name is left unchanged exactly when it is already safe; so sanitizing is idempotent. */
  lemma SanitizeFixedIff(name: string)
    ensures Sanitize(name) == name <==> AllSafe(name)
    ensures Sanitize(Sanitize(name)) == Sanitize(name)
  {
    if AllSafe(name) {
      assert Sanitize(name) == name;
    }
    if Sanitize(name) == name {
      SanitizeSafe(name);
    }
    SanitizeSafe(name);
    assert Sanitize(Sanitize(name)) == Sanitize(name);
  }

  /** `os.path.join(dir, f"{clean}{suffix}")` on a POSIX path. */
  function StoragePath(dir: string, name: string, suffix: string): string {
    dir + "/" + Sanitize(name) + suffix
  }

  /** Two documents share a storage file exactly when their sanitized names agree. */
  lemma StoragePathSameIff(dir: string, a: string, b: string, suffix: string)
    ensures StoragePath(dir, a, suffix) == StoragePath(dir, b, suffix) <==> Sanitize(a) == Sanitize(b)
  {
    var p, q := StoragePath(dir, a, suffix), StoragePath(dir, b, suffix);
    if p == q {
      var lo := |dir| + 1;
      assert |Sanitize(a)| == |Sanitize(b)|;
      assert p[lo..lo + |Sanitize(a)|] == Sanitize(a);
      assert q[lo..lo + |Sanitize(b)|] == Sanitize(b);
    }
  }

  /** Names differing only in unsafe characters collide: "my notes.pdf" and "my/notes.pdf". */
  lemma StoragePathCollision()
    ensures StoragePath("annotations", "my notes.pdf", "_annotations.json") ==
      StoragePath("annotations", "my/notes.pdf", "_annotations.json")
  {
    assert Sanitize("my notes.pdf") == Sanitize("my/notes.pdf");
  }

  // ---------------------------------------------------------------------------
  // Annotations and document records

  /** The kinds of annotation: the keys "highlights", "comments" and "notes" of a record. */
  datatype Kind = Highlights | Comments | Notes

  function KindKey(k: Kind): string {
    match k
    case Highlights => "highlights"
    case Comments => "comments"
    case Notes => "notes"
  }

  /** The kind a record key names; any other key is absent from every record. */
  function KindOf(key: string): (r: Option<Kind>)
    ensures r.Some? ==> KindKey(r.value) == key
    ensures r.None? ==> forall k :: KindKey(k) != key
  {
    if key == "highlights" then Some(Highlights)
    else if key == "comments" then Some(Comments)
    else if key == "notes" then Some(Notes)
    else None
  }

  /** One stored entry; the lists of a record hold these. */
  datatype Annotation =
    | Highlight(id: int, text: string, color: string, timestamp: string, textPreview: string)
    | Comment(id: int, text: string, comment: string, timestamp: string, textPreview: string)
    | Note(id: int, text: string, note: string, topic: string, timestamp: string, textPreview: string)

  /** `entry.get('comment', '')` */
  function CommentField(a: Annotation): string {
    if a.Comment? then a.comment else ""
  }

  /** `entry.get('note', '')` */
  function NoteField(a: Annotation): string {
    if a.Note? then a.note else ""
  }

  /** `entry.get('topic', '')` */
  function TopicField(a: Annotation): string {
    if a.Note? then a.topic else ""
  }

  /**
   * The record stored for one document. A list is `None` when its key is missing,
   * as in the record `{}` an import produces for a document that had no annotations.
   */
  datatype DocAnnotations = DocAnnotations(
    highlights: Option<seq<Annotation>>,
    comments: Option<seq<Annotation>>,
    notes: Option<seq<Annotation>>)
  {
    function Slot(k: Kind): Option<seq<Annotation>> {
      match k
      case Highlights => highlights
      case Comments => comments
      case Notes => notes
    }

    /** `kind in record` */
    predicate Has(k: Kind) {
      Slot(k).Some?
    }

    /** `record.get(kind, [])` */
    function List(k: Kind): seq<Annotation> {
      if Has(k) then Slot(k).value else []
    }

    /** `record[kind] = xs`: that list is replaced and the other two are kept. */
    function Put(k: Kind, xs: seq<Annotation>): (r: DocAnnotations)
      ensures r.Slot(k) == Some(xs)
      ensures forall j :: j != k ==> r.Slot(j) == Slot(j)
    {
      match k
      case Highlights => this.(highlights := Some(xs))
      case Comments => this.(comments := Some(xs))
      case Notes => this.(notes := Some(xs))
    }
  }

  /** The record created for a document seen for the first time: three empty lists. */
  const EmptyDoc: DocAnnotations := DocAnnotations(Some([]), Some([]), Some([]))

  /** The record `add_*` works on: the stored one, or a fresh one. */
  function DocOf(docs: map<string, DocAnnotations>, pdfName: string): DocAnnotations {
    if pdfName in docs then docs[pdfName] else EmptyDoc
  }

  /** Longest preview kept verbatim. */
  const PreviewLength: nat := 100

  /** `text_preview`: the text itself, or its first 100 characters followed by "...". */
  function Preview(t: string): (p: string)
    ensures |p| <= PreviewLength + 3
    ensures |t| <= PreviewLength ==> p == t
    ensures |t| > PreviewLength ==> p == t[..PreviewLength] + "..."
  {
    if |t| > PreviewLength then t[..PreviewLength] + "..." else t
  }

  /** The id the next entry of kind `k` receives: one more than the length of its list. */
  function NextId(docs: map<string, DocAnnotations>, pdfName: string, k: Kind): int {
    |DocOf(docs, pdfName).List(k)| + 1
  }

  function NewHighlight(id: int, text: string, color: string, now: string): Annotation {
    Highlight(id, Strip(text), color, now, Preview(Strip(text)))
  }

  function NewComment(id: int, text: string, comment: string, now: string): Annotation {
    Comment(id, Strip(text), Strip(comment), now, Preview(Strip(text)))
  }

  function NewNote(id: int, text: string, note: string, topic: string, now: string): Annotation {
    Note(id, Strip(text), Strip(note), Strip(topic), now, Preview(Strip(text)))
  }

  /**
   * The documents after appending `a` to list `k` of `pdfName`'s record, creating the
   * record first if needed. A stored record without that list is left as it was: the
   * append fails and the operation reports failure.
   */
  function Appended(docs: map<string, DocAnnotations>, pdfName: string, k: Kind, a: Annotation): map<string, DocAnnotations> {
    var d := DocOf(docs, pdfName);
    if d.Has(k) then docs[pdfName := d.Put(k, d.List(k) + [a])] else docs
  }

  /** Whether `add_*` of kind `k` gets as far as saving. */
  predicate CanAppend(docs: map<string, DocAnnotations>, pdfName: string, k: Kind) {
    DocOf(docs, pdfName).Has(k)
  }

  /**
   * A successful append grows list `k` by exactly `a` at its end; the record's other
   * lists and every other document are unchanged.
   */
  lemma AppendedGrows(docs: map<string, DocAnnotations>, pdfName: string, k: Kind, a: Annotation)
    requires CanAppend(docs, pdfName, k)
    ensures var r := Appended(docs, pdfName, k, a);
      var d := DocOf(docs, pdfName);
      pdfName in r && r.Keys == docs.Keys + {pdfName} &&
      r[pdfName].Slot(k) == Some(d.List(k) + [a]) &&
      (forall j :: j != k ==> r[pdfName].Slot(j) == d.Slot(j)) &&
      (forall other :: other in docs && other != pdfName ==> r[other] == docs[other])
  {
  }

  /** A document seen for the first time gets three lists, the chosen one holding `a` alone. */
  lemma AppendedToNewDoc(docs: map<string, DocAnnotations>, pdfName: string, k: Kind, a: Annotation)
    requires pdfName !in docs
    ensures CanAppend(docs, pdfName, k)
    ensures Appended(docs, pdfName, k, a)[pdfName] == EmptyDoc.Put(k, [a])
  {
    assert EmptyDoc.List(k) + [a] == [a];
  }

  /** A stored record that lacks list `k` makes the append fail and change nothing. */
  lemma AppendedMissingList(docs: map<string, DocAnnotations>, pdfName: string, k: Kind, a: Annotation)
    requires pdfName in docs && !docs[pdfName].Has(k)
    ensures !CanAppend(docs, pdfName, k) && Appended(docs, pdfName, k, a) == docs
  {
  }

  /** Ids count the entries: the appended entry's id is its 1-based position in its list. */
  lemma AppendedIdIsPosition(docs: map<string, DocAnnotations>, pdfName: string, k: Kind, a: Annotation)
    requires CanAppend(docs, pdfName, k) && a.id == NextId(docs, pdfName, k)
    ensures var l := Appended(docs, pdfName, k, a)[pdfName].List(k);
      |l| == a.id && l[a.id - 1] == a
  {
  }

  /** Stored text is the trimmed input; the preview is taken from the trimmed text. */
  lemma NewEntriesTrimmed(id: int, text: string, extra: string, topic: string, now: string)
    ensures var h := NewHighlight(id, text, extra, now);
      h.text == Strip(text) && h.textPreview == Preview(h.text) && h.timestamp == now && h.color == extra
    ensures var c := NewComment(id, text, extra, now);
      c.text == Strip(text) && c.comment == Strip(extra) && c.textPreview == Preview(c.text)
    ensures var n := NewNote(id, text, extra, topic, now);
      n.text == Strip(text) && n.note == Strip(extra) && n.topic == Strip(topic) && n.textPreview == Preview(n.text)
  {
  }

  // ---------------------------------------------------------------------------
  // Topics

  /** The copy of a note filed under a topic. */
  datatype TopicNote = TopicNote(note: string, text: string, timestamp: string, noteId: int)

  /** A topic record. Its highlight and comment lists are created empty and never filled. */
  datatype Topic = Topic(name: string, created: string, notes: seq<TopicNote>,
                         highlights: seq<Annotation>, comments: seq<Annotation>)

  /**
   * The topics after `add_note` files a note with id `noteId` under the key `topic`
   * (not stripped), creating the topic first if it is new.
   */
  function Filed(topics: map<string, Topic>, topic: string, note: string, text: string, now: string, noteId: int): map<string, Topic> {
    var t := if topic in topics then topics[topic] else Topic(topic, now, [], [], []);
    topics[topic := t.(notes := t.notes + [TopicNote(Strip(note), Strip(text), now, noteId)])]
  }

  /**
   * Filing appends exactly one copy to the topic's notes. An existing topic keeps its
   * name, creation time and other lists; a new one starts with empty lists; other topics
   * are unchanged.
   */
  lemma FiledOnce(topics: map<string, Topic>, topic: string, note: string, text: string, now: string, noteId: int)
    ensures var r := Filed(topics, topic, note, text, now, noteId);
      var copy := TopicNote(Strip(note), Strip(text), now, noteId);
      topic in r && r.Keys == topics.Keys + {topic} &&
      (topic in topics ==>
        r[topic].notes == topics[topic].notes + [copy] &&
        r[topic].name == topics[topic].name && r[topic].created == topics[topic].created &&
        r[topic].highlights == topics[topic].highlights && r[topic].comments == topics[topic].comments) &&
      (topic !in topics ==> r[topic] == Topic(topic, now, [copy], [], [])) &&
      (forall other :: other in topics && other != topic ==> r[other] == topics[other])
  {
  }

  // ---------------------------------------------------------------------------
  // Order-preserving selection (list comprehensions with a condition)

  /** The conditions entries are kept by. */
  datatype Filter =
    | OtherId(id: int)                   // `ann.get('id') != id`
    | Hit(queryLower: string, k: Kind)   // the search condition for list `k`
    | TextLength(n: nat)                 // `len(ann['text']) == n`

  /** `query_lower in field.lower()` */
  predicate Mentions(field: string, queryLower: string) {
    Contains(Lower(field), queryLower)
  }

  predicate Keeps(f: Filter, a: Annotation) {
    match f
    case OtherId(id) => a.id != id
    case Hit(q, k) =>
      (match k
       case Highlights => Mentions(a.text, q)
       case Comments => Mentions(a.text, q) || Mentions(CommentField(a), q)
       case Notes => Mentions(a.text, q) || Mentions(NoteField(a), q) || Mentions(TopicField(a), q))
    case TextLength(n) => |a.text| == n
  }

  /** `[a for a in xs if keeps(a)]` */
  function Select(xs: seq<Annotation>, f: Filter): seq<Annotation>
    decreases |xs|
  {
    if xs == [] then []
    else (if Keeps(f, xs[0]) then [xs[0]] else []) + Select(xs[1..], f)
  }

  /** `a` is `b` with some entries left out, the rest in their order. */
  predicate IsSubsequence(a: seq<Annotation>, b: seq<Annotation>)
    decreases |b|
  {
    if a == [] then true
    else if b == [] then false
    else if a[0] == b[0] then IsSubsequence(a[1..], b[1..])
    else IsSubsequence(a, b[1..])
  }

  /** Selection keeps exactly the entries the condition holds for. */
  lemma {:induction false} SelectMembers(xs: seq<Annotation>, f: Filter)
    ensures forall a :: a in Select(xs, f) <==> a in xs && Keeps(f, a)
    decreases |xs|
  {
    if xs != [] {
      SelectMembers(xs[1..], f);
      assert forall a :: a in xs <==> a == xs[0] || a in xs[1..];
    }
  }

  /** Selection keeps the order of the entries it keeps. */
  lemma {:induction false} SelectSubsequence(xs: seq<Annotation>, f: Filter)
    ensures IsSubsequence(Select(xs, f), xs)
    decreases |xs|
  {
    if xs != [] {
      SelectSubsequence(xs[1..], f);
      var r := Select(xs, f);
      if Keeps(f, xs[0]) {
        assert r == [xs[0]] + Select(xs[1..], f);
        assert r[1..] == Select(xs[1..], f);
      } else {
        assert r == Select(xs[1..], f);
        SubsequenceDrop(r, xs);
      }
    }
  }

  /** A subsequence of the tail is a subsequence of the whole. */
  lemma {:induction false} SubsequenceDrop(a: seq<Annotation>, b: seq<Annotation>)
    requires b != [] && IsSubsequence(a, b[1..])
    ensures IsSubsequence(a, b)
    decreases |b|, 0
  {
    if a != [] && a[0] == b[0] {
      SubsequenceTail(a, b[1..]);
    }
  }

  /** Dropping the first entry of a subsequence keeps it a subsequence. */
  lemma {:induction false} SubsequenceTail(a: seq<Annotation>, b: seq<Annotation>)
    requires a != [] && IsSubsequence(a, b)
    ensures IsSubsequence(a[1..], b)
    decreases |b|, 1
  {
    if a[0] != b[0] {
      SubsequenceTail(a, b[1..]);
    }
    if a[1..] != [] {
      SubsequenceDrop(a[1..], b);
    }
  }

  /** An entry that every entry passes: nothing is dropped. */
  lemma {:induction false} SelectAll(xs: seq<Annotation>, f: Filter)
    requires forall i :: 0 <= i < |xs| ==> Keeps(f, xs[i])
    ensures Select(xs, f) == xs
    decreases |xs|
  {
    if xs != [] {
      SelectAll(xs[1..], f);
    }
  }

  /** Appending one entry: the loop step of a comprehension. */
  lemma {:induction false} SelectSnoc(xs: seq<Annotation>, a: Annotation, f: Filter)
    ensures Select(xs + [a], f) == Select(xs, f) + (if Keeps(f, a) then [a] else [])
    decreases |xs|
  {
    if xs == [] {
      assert [a][1..] == [];
    } else {
      assert (xs + [a])[1..] == xs[1..] + [a];
      SelectSnoc(xs[1..], a, f);
    }
  }

  // ---------------------------------------------------------------------------
  // Deleting (delete_annotation)

  /** Whether `delete_annotation` finds the document and the list named `kindKey`. */
  predicate CanRemove(docs: map<string, DocAnnotations>, pdfName: string, kindKey: string) {
    pdfName in docs && KindOf(kindKey).Some? && docs[pdfName].Has(KindOf(kindKey).value)
  }

  /** The documents after removing every entry with id `id` from the named list. */
  function Removed(docs: map<string, DocAnnotations>, pdfName: string, kindKey: string, id: int): map<string, DocAnnotations> {
    if CanRemove(docs, pdfName, kindKey) then
      var k := KindOf(kindKey).value;
      docs[pdfName := docs[pdfName].Put(k, Select(docs[pdfName].List(k), OtherId(id)))]
    else docs
  }

  /**
   * Deleting leaves the named list with exactly its entries of other ids, in order, and
   * changes nothing else; when the document or the list is missing nothing changes.
   */
  lemma RemovedEffect(docs: map<string, DocAnnotations>, pdfName: string, kindKey: string, id: int)
    ensures var r := Removed(docs, pdfName, kindKey, id);
      (!CanRemove(docs, pdfName, kindKey) ==> r == docs) &&
      (CanRemove(docs, pdfName, kindKey) ==>
        var k := KindOf(kindKey).value;
        var before := docs[pdfName].List(k);
        var after := r[pdfName].List(k);
        r.Keys == docs.Keys && r[pdfName].Has(k) &&
        (forall a :: a in after <==> a in before && a.id != id) &&
        IsSubsequence(after, before) &&
        (forall j :: j != k ==> r[pdfName].Slot(j) == docs[pdfName].Slot(j)) &&
        (forall other :: other in docs && other != pdfName ==> r[other] == docs[other]))
  {
    if CanRemove(docs, pdfName, kindKey) {
      var k := KindOf(kindKey).value;
      SelectMembers(docs[pdfName].List(k), OtherId(id));
      SelectSubsequence(docs[pdfName].List(k), OtherId(id));
    }
  }

  /** Deleting an id no entry of the list has leaves the documents as they were. */
  lemma RemovedAbsentId(docs: map<string, DocAnnotations>, pdfName: string, kindKey: string, id: int)
    requires CanRemove(docs, pdfName, kindKey)
    requires forall a :: a in docs[pdfName].List(KindOf(kindKey).value) ==> a.id != id
    ensures Removed(docs, pdfName, kindKey, id) == docs
  {
    var k := KindOf(kindKey).value;
    var l := docs[pdfName].List(k);
    SelectAll(l, OtherId(id));
    assert docs[pdfName].Put(k, l) == docs[pdfName];
  }

  // ---------------------------------------------------------------------------
  // Rendering highlights (apply_highlights_to_text)

  /** Background used for a colour name outside the table. */
  const DefaultBackground: string := "#FFFFE0"

  /** The five highlight colours and their backgrounds. */
  const ColorMap: map<string, string> := map[
    "Light Green" := "#90EE90",
    "Light Yellow" := "#FFFFE0",
    "Light Blue" := "#ADD8E6",
    "Light Pink" := "#FFB6C1",
    "Light Red" := "#FFA07A"]

  /** `color_map.get(color, '#FFFFE0')` */
  function Background(color: string): string {
    if color in ColorMap then ColorMap[color] else DefaultBackground
  }

  /** Every name outside the table, and "Light Yellow", renders on the default background. */
  lemma BackgroundDefault(color: string)
    ensures color !in ColorMap ==> Background(color) == DefaultBackground
    ensures Background("Light Yellow") == DefaultBackground
    ensures |ColorMap.Keys| == 5
  {
    assert ColorMap.Keys == {"Light Green", "Light Yellow", "Light Blue", "Light Pink", "Light Red"};
  }

  /** The opening tag of the `<mark>` element. */
  function MarkOpen(background: string): string {
    "<mark style=\"background-color: " + background + "; padding: 2px 4px; border-radius: 3px; margin: 1px;\">"
  }

  /** The `<mark>` element wrapped around highlighted text. */
  function MarkUp(background: string, t: string): string {
    MarkOpen(background) + t + "</mark>"
  }

  /** Insertion after every entry whose text is at least as long: keeps equal lengths in order. */
  function InsertByLength(a: Annotation, s: seq<Annotation>): seq<Annotation>
    decreases |s|
  {
    if s == [] then [a]
    else if |s[0].text| >= |a.text| then [s[0]] + InsertByLength(a, s[1..])
    else [a] + s
  }

  /** `sorted(hs, key=lambda x: len(x['text']), reverse=True)`, which is stable. */
  function SortByLength(hs: seq<Annotation>): seq<Annotation>
    decreases |hs|
  {
    if hs == [] then []
    else InsertByLength(hs[|hs| - 1], SortByLength(hs[..|hs| - 1]))
  }

  /** No entry's text is longer than `bound`. */
  predicate AtMost(s: seq<Annotation>, bound: nat) {
    forall i :: 0 <= i < |s| ==> |s[i].text| <= bound
  }

  /** Every entry's text is at least as long as the text of each entry after it. */
  predicate LongestFirst(s: seq<Annotation>)
    decreases |s|
  {
    s == [] || (AtMost(s[1..], |s[0].text|) && LongestFirst(s[1..]))
  }

  lemma LongestFirstHead(s: seq<Annotation>)
    requires s != [] && LongestFirst(s)
    ensures AtMost(s, |s[0].text|)
  {
    assert forall i :: 1 <= i < |s| ==> s[i] == s[1..][i - 1];
  }

  lemma AtMostCons(x: Annotation, s: seq<Annotation>, bound: nat)
    requires |x.text| <= bound && AtMost(s, bound)
    ensures AtMost([x] + s, bound)
  {
    assert forall i :: 1 <= i < |s| + 1 ==> ([x] + s)[i] == s[i - 1];
  }

  lemma {:induction false} InsertMultiset(a: Annotation, s: seq<Annotation>)
    ensures multiset(InsertByLength(a, s)) == multiset(s) + multiset{a}
    decreases |s|
  {
    if s != [] && |s[0].text| >= |a.text| {
      InsertMultiset(a, s[1..]);
      assert s == [s[0]] + s[1..];
    }
  }

  lemma {:induction false} InsertAtMost(a: Annotation, s: seq<Annotation>, bound: nat)
    requires |a.text| <= bound && AtMost(s, bound)
    ensures AtMost(InsertByLength(a, s), bound)
    decreases |s|
  {
    if s != [] && |s[0].text| >= |a.text| {
      InsertAtMost(a, s[1..], bound);
      AtMostCons(s[0], InsertByLength(a, s[1..]), bound);
    } else if s != [] {
      AtMostCons(a, s, bound);
    }
  }

  lemma {:induction false} InsertKeepsOrder(a: Annotation, s: seq<Annotation>)
    requires LongestFirst(s)
    ensures LongestFirst(InsertByLength(a, s))
    decreases |s|
  {
    if s != [] && |s[0].text| >= |a.text| {
      InsertKeepsOrder(a, s[1..]);
      InsertAtMost(a, s[1..], |s[0].text|);
      var r := InsertByLength(a, s[1..]);
      assert ([s[0]] + r)[1..] == r;
    } else if s != [] {
      LongestFirstHead(s);
      assert ([a] + s)[1..] == s;
    }
  }

  /** Sorting puts the longest text first. */
  lemma {:induction false} SortByLengthSorted(hs: seq<Annotation>)
    ensures LongestFirst(SortByLength(hs))
    decreases |hs|
  {
    if hs != [] {
      var init := hs[..|hs| - 1];
      SortByLengthSorted(init);
      InsertKeepsOrder(hs[|hs| - 1], SortByLength(init));
    }
  }

  /** Sorting neither loses nor duplicates an entry. */
  lemma {:induction false} SortByLengthPermutes(hs: seq<Annotation>)
    ensures multiset(SortByLength(hs)) == multiset(hs)
    decreases |hs|
  {
    if hs != [] {
      var init := hs[..|hs| - 1];
      SortByLengthPermutes(init);
      InsertMultiset(hs[|hs| - 1], SortByLength(init));
      assert hs == init + [hs[|hs| - 1]];
    }
  }

  /** A list whose texts are all shorter than `n` has no entry of length `n`. */
  lemma {:induction false} SelectShorter(s: seq<Annotation>, bound: nat, n: nat)
    requires AtMost(s, bound) && bound < n
    ensures Select(s, TextLength(n)) == []
    decreases |s|
  {
    if s != [] {
      assert AtMost(s[1..], bound) by {
        assert forall i :: 0 <= i < |s| - 1 ==> s[1..][i] == s[i + 1];
      }
      SelectShorter(s[1..], bound, n);
    }
  }

  /** Inserting `a` puts it after every entry of its own length. */
  lemma {:induction false} InsertStable(a: Annotation, s: seq<Annotation>, n: nat)
    requires LongestFirst(s)
    ensures Select(InsertByLength(a, s), TextLength(n)) ==
      Select(s, TextLength(n)) + (if |a.text| == n then [a] else [])
    decreases |s|
  {
    if s != [] && |s[0].text| >= |a.text| {
      InsertStable(a, s[1..], n);
      var r := InsertByLength(a, s[1..]);
      assert ([s[0]] + r)[1..] == r;
    } else if s != [] {
      assert ([a] + s)[1..] == s;
      if |a.text| == n {
        LongestFirstHead(s);
        SelectShorter(s, |s[0].text|, n);
      }
    }
  }

  /**
   * The sort is stable: for every text length, the entries of that length appear in
   * their original order.
   */
  lemma {:induction false} SortByLengthStable(hs: seq<Annotation>, n: nat)
    ensures Select(SortByLength(hs), TextLength(n)) == Select(hs, TextLength(n))
    decreases |hs|
  {
    if hs != [] {
      var init := hs[..|hs| - 1];
      var last := hs[|hs| - 1];
      SortByLengthStable(init, n);
      StableStep(init, last, n);
      assert init + [last] == hs;
    }
  }

  lemma StableStep(init: seq<Annotation>, last: Annotation, n: nat)
    requires Select(SortByLength(init), TextLength(n)) == Select(init, TextLength(n))
    ensures Select(InsertByLength(last, SortByLength(init)), TextLength(n)) == Select(init + [last], TextLength(n))
  {
    SortedInsertStable(init, last, n);
    SelectSnoc(init, last, TextLength(n));
  }

  lemma SortedInsertStable(init: seq<Annotation>, last: Annotation, n: nat)
    ensures Select(InsertByLength(last, SortByLength(init)), TextLength(n)) ==
      Select(SortByLength(init), TextLength(n)) + (if |last.text| == n then [last] else [])
  {
    SortByLengthSorted(init);
    InsertStable(last, SortByLength(init), n);
  }

  /** One highlight: its stripped text is wrapped in a mark at its first occurrence, if any. */
  function ApplyOne(t: string, a: Annotation): string
    requires a.Highlight?
  {
    var ht := Strip(a.text);
    if Contains(t, ht) then ReplaceFirst(t, ht, MarkUp(Background(a.color), ht)) else t
  }

  predicate AllHighlights(hs: seq<Annotation>) {
    forall i :: 0 <= i < |hs| ==> hs[i].Highlight?
  }

  /** The highlights applied one after another, in the order given. */
  function ApplyAll(t: string, hs: seq<Annotation>): string
    requires AllHighlights(hs)
    decreases |hs|
  {
    if hs == [] then t
    else ApplyOne(ApplyAll(t, hs[..|hs| - 1]), hs[|hs| - 1])
  }

  /**
   * The rendered text: unchanged when the record has no highlights list, or when an
   * entry of that list has no colour (the failure is caught and the text returned);
   * otherwise every highlight is applied, longest text first.
   */
  function HighlightedText(text: string, doc: DocAnnotations): string {
    if doc.highlights.None? then text
    else
      var hs := doc.highlights.value;
      SortKeepsHighlights(hs);
      if AllHighlights(hs) then ApplyAll(text, SortByLength(hs)) else text
  }

  lemma SortKeepsHighlights(hs: seq<Annotation>)
    ensures AllHighlights(SortByLength(hs)) <==> AllHighlights(hs)
  {
    var s := SortByLength(hs);
    SortByLengthPermutes(hs);
    if AllHighlights(hs) {
      forall i | 0 <= i < |s| ensures s[i].Highlight? {
        assert s[i] in multiset(hs);
      }
    }
    if AllHighlights(s) {
      forall i | 0 <= i < |hs| ensures hs[i].Highlight? {
        assert hs[i] in multiset(s);
      }
    }
  }

  /**
   * A highlight whose text occurs is marked at its first occurrence and the text around
   * it is kept; one whose text does not occur changes nothing.
   */
  lemma ApplyOneFirst(t: string, a: Annotation)
    requires a.Highlight?
    ensures var ht := Strip(a.text);
      (!Contains(t, ht) ==> ApplyOne(t, a) == t) &&
      (Contains(t, ht) ==>
        var i := IndexOf(t, ht).value;
        Occurs(t, ht, i) && (forall j: nat :: j < i ==> !Occurs(t, ht, j)) &&
        ApplyOne(t, a) == t[..i] + MarkUp(Background(a.color), ht) + t[i + |ht|..])
  {
    IndexOfFirst(t, Strip(a.text));
  }

  /** When no highlight's text occurs in the text, rendering leaves it unchanged. */
  lemma {:induction false} ApplyAllAbsent(t: string, hs: seq<Annotation>)
    requires AllHighlights(hs)
    requires forall i :: 0 <= i < |hs| ==> !Contains(t, Strip(hs[i].text))
    ensures ApplyAll(t, hs) == t
    decreases |hs|
  {
    if hs != [] {
      var init := hs[..|hs| - 1];
      assert forall i :: 0 <= i < |init| ==> init[i] == hs[i];
      ApplyAllAbsent(t, init);
    }
  }

  /** A highlight whose stripped text begins the text is marked right at the start. */
  lemma ApplyOneAtStart(t: string, a: Annotation)
    requires a.Highlight? && Strip(a.text) <= t
    ensures ApplyOne(t, a) == MarkUp(Background(a.color), Strip(a.text)) + t[|Strip(a.text)|..]
  {
    var ht := Strip(a.text);
    assert IndexOf(t, ht) == Some(0);
    assert t[..0] == [];
  }

  lemma MarkUpStartsWithLt(background: string, t: string)
    ensures "<" <= MarkUp(background, t)
  {
    var open := MarkOpen(background);
    assert open[0] == '<';
    assert MarkUp(background, t)[0] == open[0];
  }

  lemma SortTwo(x: Annotation, y: Annotation)
    requires |x.text| < |y.text|
    ensures SortByLength([x, y]) == [y, x]
  {
    assert [x, y][..1] == [x];
    assert [x][..0] == [];
    assert SortByLength([x]) == [x];
  }

  lemma ApplyTwo(t: string, x: Annotation, y: Annotation)
    requires x.Highlight? && y.Highlight?
    ensures ApplyAll(t, [x, y]) == ApplyOne(ApplyOne(t, x), y)
  {
    assert [x, y][..1] == [x];
    assert [x][..0] == [];
    assert ApplyAll(t, [x]) == ApplyOne(t, x);
  }

  lemma StripPlain()
    ensures Strip("ab") == "ab" && Strip("<") == "<"
  {
    assert TrimLeft("ab", Whitespace) == "ab";
    assert TrimRight("ab", Whitespace) == "ab";
    assert TrimLeft("<", Whitespace) == "<";
    assert TrimRight("<", Whitespace) == "<";
  }

  /** With every entry a highlight, rendering applies them longest first. */
  lemma HighlightedTextSorted(text: string, doc: DocAnnotations)
    requires doc.highlights.Some? && AllHighlights(doc.highlights.value)
    ensures AllHighlights(SortByLength(doc.highlights.value))
    ensures HighlightedText(text, doc) == ApplyAll(text, SortByLength(doc.highlights.value))
  {
    SortKeepsHighlights(doc.highlights.value);
  }

  /**
   * The shorter highlight is not kept out of the longer one's mark: with highlights "<"
   * and "ab" over the text "ab", the "<" is marked inside the opening tag of the
   * "ab" mark.
   */
  lemma HighlightMarksInsideMarkup()
    ensures var lt := Highlight(1, "<", "Light Blue", "t1", "<");
      var ab := Highlight(2, "ab", "Light Yellow", "t2", "ab");
      var doc := DocAnnotations(Some([lt, ab]), Some([]), Some([]));
      HighlightedText("ab", doc) == MarkUp("#ADD8E6", "<") + MarkUp("#FFFFE0", "ab")[1..]
  {
    var lt := Highlight(1, "<", "Light Blue", "t1", "<");
    var ab := Highlight(2, "ab", "Light Yellow", "t2", "ab");
    var doc := DocAnnotations(Some([lt, ab]), Some([]), Some([]));
    HighlightedTextSorted("ab", doc);
    SortTwo(lt, ab);
    StripPlain();
    RenderTwo(lt, ab);
  }

  lemma RenderTwo(lt: Annotation, ab: Annotation)
    requires lt == Highlight(1, "<", "Light Blue", "t1", "<")
    requires ab == Highlight(2, "ab", "Light Yellow", "t2", "ab")
    requires Strip("ab") == "ab" && Strip("<") == "<"
    ensures ApplyAll("ab", [ab, lt]) == MarkUp("#ADD8E6", "<") + MarkUp("#FFFFE0", "ab")[1..]
  {
    assert Background("Light Yellow") == "#FFFFE0" && Background("Light Blue") == "#ADD8E6";
    ApplyOneAtStart("ab", ab);
    assert "ab"[2..] == [];
    var m := MarkUp("#FFFFE0", "ab");
    assert ApplyOne("ab", ab) == m;
    MarkUpStartsWithLt("#FFFFE0", "ab");
    ApplyOneAtStart(m, lt);
    ApplyTwo("ab", ab, lt);
  }

  // ---------------------------------------------------------------------------
  // Summary (get_annotation_summary, on the loaded dictionaries)

  datatype AnnotationSummary = AnnotationSummary(
    totalHighlights: nat, totalComments: nat, totalNotes: nat, totalTopics: nat,
    lastModified: Option<string>)

  /** The timestamps of a list, in order. */
  function Stamps(xs: seq<Annotation>): seq<string> {
    seq(|xs|, i requires 0 <= i < |xs| => xs[i].timestamp)
  }

  /** The timestamps of several lists, list after list. */
  function StampsOfLists(ls: seq<seq<Annotation>>): seq<string>
    decreases |ls|
  {
    if ls == [] then [] else StampsOfLists(ls[..|ls| - 1]) + Stamps(ls[|ls| - 1])
  }

  /** The lists of a record, in the order the summary visits them. */
  function ListsOf(d: DocAnnotations): seq<seq<Annotation>> {
    [d.List(Highlights), d.List(Comments), d.List(Notes)]
  }

  /** `max(ts)` under Python's string order. */
  function MaxOf(ts: seq<string>): string
    requires ts != []
    decreases |ts|
  {
    if |ts| == 1 then ts[0]
    else
      var m := MaxOf(ts[1..]);
      if StrLt(ts[0], m) then m else ts[0]
  }

  /** The maximum is one of the strings and none is greater. */
  lemma {:induction false} MaxOfIsMax(ts: seq<string>)
    requires ts != []
    ensures MaxOf(ts) in ts
    ensures forall t :: t in ts ==> !StrLt(MaxOf(ts), t)
    decreases |ts|
  {
    if |ts| == 1 {
      StrLtIrreflexive(ts[0]);
    } else {
      var rest := ts[1..];
      MaxOfIsMax(rest);
      var m := MaxOf(rest);
      assert forall t :: t in ts ==> t == ts[0] || t in rest;
      if StrLt(ts[0], m) {
        StrLtIrreflexive(m);
        forall t | t in ts ensures !StrLt(m, t) {
          if t == ts[0] && StrLt(m, t) {
            StrLtTransitive(m, ts[0], m);
          }
        }
      } else {
        StrLtIrreflexive(ts[0]);
        forall t | t in ts ensures !StrLt(ts[0], t) {
          if t != ts[0] && StrLt(ts[0], t) {
            if m != ts[0] {
              StrLtTotal(m, ts[0]);
              StrLtTransitive(m, ts[0], t);
            }
          }
        }
      }
    }
  }

  /** The summary of `pdfName` given its loaded annotations and topics. */
  function Summary(docs: map<string, DocAnnotations>, topics: map<string, Topic>, pdfName: string): AnnotationSummary {
    if pdfName !in docs then AnnotationSummary(0, 0, 0, 0, None)
    else
      var d := docs[pdfName];
      var stamps := StampsOfLists(ListsOf(d));
      AnnotationSummary(|d.List(Highlights)|, |d.List(Comments)|, |d.List(Notes)|, |topics|,
                        if stamps == [] then None else Some(MaxOf(stamps)))
  }

  /** Every entry's timestamp is collected, and nothing else: the three lists in turn. */
  lemma AllStampsOf(d: DocAnnotations)
    ensures StampsOfLists(ListsOf(d)) ==
      Stamps(d.List(Highlights)) + Stamps(d.List(Comments)) + Stamps(d.List(Notes))
  {
    var ls := ListsOf(d);
    var h, c, n := Stamps(ls[0]), Stamps(ls[1]), Stamps(ls[2]);
    assert ls[..1][..0] == [];
    assert StampsOfLists(ls[..1]) == h;
    assert ls[..2][..1] == ls[..1];
    assert StampsOfLists(ls[..2]) == h + c;
    assert ls[..3][..2] == ls[..2] && ls[..3] == ls;
  }

  /**
   * The counts are the lengths of the three lists; the last modification is the latest
   * timestamp of any entry, and absent exactly when there are no entries; an unknown
   * document gets an all-zero summary, whatever its topics.
   */
  lemma SummaryFacts(docs: map<string, DocAnnotations>, topics: map<string, Topic>, pdfName: string)
    ensures var s := Summary(docs, topics, pdfName);
      (pdfName !in docs ==> s == AnnotationSummary(0, 0, 0, 0, None)) &&
      (pdfName in docs ==>
        var d := docs[pdfName];
        var stamps := Stamps(d.List(Highlights)) + Stamps(d.List(Comments)) + Stamps(d.List(Notes));
        s.totalHighlights == |d.List(Highlights)| && s.totalComments == |d.List(Comments)| &&
        s.totalNotes == |d.List(Notes)| && s.totalTopics == |topics| &&
        (s.lastModified.None? <==> |d.List(Highlights)| + |d.List(Comments)| + |d.List(Notes)| == 0) &&
        (s.lastModified.Some? ==>
          s.lastModified.value in stamps && forall t :: t in stamps ==> !StrLt(s.lastModified.value, t)))
  {
    if pdfName in docs {
      var d := docs[pdfName];
      AllStampsOf(d);
      var stamps := StampsOfLists(ListsOf(d));
      if stamps != [] {
        MaxOfIsMax(stamps);
      }
    }
  }

  // ---------------------------------------------------------------------------
  // Search (search_annotations, on the loaded dictionaries)

  datatype SearchResults = SearchResults(
    highlights: seq<Annotation>, comments: seq<Annotation>, notes: seq<Annotation>, topics: seq<Topic>)

  /** Some note filed under the topic mentions the query. */
  predicate NotesMention(ns: seq<TopicNote>, queryLower: string) {
    exists j :: 0 <= j < |ns| && Mentions(ns[j].note, queryLower)
  }

  /** A topic is found by its name, or else by the first of its notes that mentions the query. */
  predicate TopicHit(item: (string, Topic), queryLower: string) {
    Mentions(item.0, queryLower) || NotesMention(item.1.notes, queryLower)
  }

  /** The found topics, in the order of `topics.items()`, each found item once. */
  function MatchingTopics(items: seq<(string, Topic)>, queryLower: string): seq<Topic>
    decreases |items|
  {
    if items == [] then []
    else (if TopicHit(items[0], queryLower) then [items[0].1] else []) + MatchingTopics(items[1..], queryLower)
  }

  function TopicValues(items: seq<(string, Topic)>): seq<Topic> {
    seq(|items|, i requires 0 <= i < |items| => items[i].1)
  }

  lemma {:induction false} MatchingTopicsSnoc(items: seq<(string, Topic)>, x: (string, Topic), queryLower: string)
    ensures MatchingTopics(items + [x], queryLower) ==
      MatchingTopics(items, queryLower) + (if TopicHit(x, queryLower) then [x.1] else [])
    decreases |items|
  {
    if items == [] {
      assert [x][1..] == [];
    } else {
      assert (items + [x])[1..] == items[1..] + [x];
      MatchingTopicsSnoc(items[1..], x, queryLower);
    }
  }

  /** A topic is reported exactly when some item carrying it is found. */
  lemma {:induction false} MatchingTopicsMembers(items: seq<(string, Topic)>, queryLower: string)
    ensures forall t :: t in MatchingTopics(items, queryLower) <==>
      exists i :: 0 <= i < |items| && items[i].1 == t && TopicHit(items[i], queryLower)
    decreases |items|
  {
    if items != [] {
      var rest := items[1..];
      MatchingTopicsMembers(rest, queryLower);
      forall t ensures t in MatchingTopics(items, queryLower) <==>
        exists i :: 0 <= i < |items| && items[i].1 == t && TopicHit(items[i], queryLower)
      {
        MemberStep(items, queryLower, t);
      }
    }
  }

  lemma MemberStep(items: seq<(string, Topic)>, queryLower: string, t: Topic)
    requires items != []
    requires t in MatchingTopics(items[1..], queryLower) <==>
      exists i :: 0 <= i < |items| - 1 && items[1..][i].1 == t && TopicHit(items[1..][i], queryLower)
    ensures t in MatchingTopics(items, queryLower) <==>
      exists i :: 0 <= i < |items| && items[i].1 == t && TopicHit(items[i], queryLower)
  {
    var rest := items[1..];
    if exists i :: 0 <= i < |items| && items[i].1 == t && TopicHit(items[i], queryLower) {
      var i :| 0 <= i < |items| && items[i].1 == t && TopicHit(items[i], queryLower);
      if i > 0 {
        assert rest[i - 1] == items[i];
      }
    }
    if t in MatchingTopics(rest, queryLower) {
      var i :| 0 <= i < |rest| && rest[i].1 == t && TopicHit(rest[i], queryLower);
      assert items[i + 1] == rest[i];
    }
  }

  /** No item is reported twice: no topic occurs more often than among all the items. */
  lemma {:induction false} MatchingTopicsOnce(items: seq<(string, Topic)>, queryLower: string)
    ensures multiset(MatchingTopics(items, queryLower)) <= multiset(TopicValues(items))
    decreases |items|
  {
    if items != [] {
      MatchingTopicsOnce(items[1..], queryLower);
      assert TopicValues(items) == [items[0].1] + TopicValues(items[1..]);
    }
  }

  /** With no empty-query guard, the empty query finds every entry and every topic. */
  lemma EmptyQueryFindsAll(xs: seq<Annotation>, k: Kind, items: seq<(string, Topic)>)
    ensures Select(xs, Hit(Lower(""), k)) == xs
    ensures MatchingTopics(items, Lower("")) == TopicValues(items)
  {
    assert Lower("") == "";
    forall s: string ensures Mentions(s, "") {
      assert "" <= Lower(s);
    }
    SelectAll(xs, Hit("", k));
    EmptyQueryTopics(items);
  }

  lemma {:induction false} EmptyQueryTopics(items: seq<(string, Topic)>)
    requires forall s: string :: Mentions(s, "")
    ensures MatchingTopics(items, "") == TopicValues(items)
    decreases |items|
  {
    if items != [] {
      EmptyQueryTopics(items[1..]);
      assert TopicValues(items) == [items[0].1] + TopicValues(items[1..]);
    }
  }

  /** `items` is `topics.items()`: every name of the dictionary once, with its topic. */
  predicate ItemsOf(topics: map<string, Topic>, items: seq<(string, Topic)>) {
    (forall k :: 0 <= k < |items| ==> items[k].0 in topics && topics[items[k].0] == items[k].1) &&
    (forall k, l :: 0 <= k < l < |items| ==> items[k].0 != items[l].0) &&
    (forall name :: name in topics ==> exists k :: 0 <= k < |items| && items[k].0 == name)
  }

  /** The names of the found topics, in item order. */
  function MatchingKeys(items: seq<(string, Topic)>, queryLower: string): seq<string>
    decreases |items|
  {
    if items == [] then []
    else (if TopicHit(items[0], queryLower) then [items[0].0] else []) + MatchingKeys(items[1..], queryLower)
  }

  /**
   * `found` holds the topics under the names `names`, in that order: each is the
   * dictionary's topic under its name, no name is reported twice, and a name of the
   * dictionary is reported exactly when its topic is found.
   */
  predicate FoundOncePerName(topics: map<string, Topic>, queryLower: string, names: seq<string>, found: seq<Topic>) {
    |names| == |found| &&
    (forall k :: 0 <= k < |names| ==> names[k] in topics && found[k] == topics[names[k]]) &&
    (forall k, l :: 0 <= k < l < |names| ==> names[k] != names[l]) &&
    (forall name :: name in topics ==> (name in names <==> TopicHit((name, topics[name]), queryLower)))
  }

  /** Over items with distinct names, the found names are distinct and pair with the found topics. */
  lemma {:induction false} MatchingKeysFacts(items: seq<(string, Topic)>, queryLower: string)
    requires forall k, l :: 0 <= k < l < |items| ==> items[k].0 != items[l].0
    ensures var names := MatchingKeys(items, queryLower);
      var found := MatchingTopics(items, queryLower);
      |names| == |found| &&
      (forall k :: 0 <= k < |names| ==> (names[k], found[k]) in items && TopicHit((names[k], found[k]), queryLower)) &&
      (forall k, l :: 0 <= k < l < |names| ==> names[k] != names[l]) &&
      (forall k :: 0 <= k < |items| ==> (items[k].0 in names <==> TopicHit(items[k], queryLower)))
    decreases |items|
  {
    if items != [] {
      var x, rest := items[0], items[1..];
      assert forall k, l :: 0 <= k < l < |rest| ==> rest[k].0 != rest[l].0 by {
        forall k, l | 0 <= k < l < |rest| ensures rest[k].0 != rest[l].0 {
          assert rest[k] == items[k + 1] && rest[l] == items[l + 1];
        }
      }
      MatchingKeysFacts(rest, queryLower);
      var names', found' := MatchingKeys(rest, queryLower), MatchingTopics(rest, queryLower);
      assert x.0 !in names';
      forall k | 0 <= k < |items|
        ensures items[k].0 in MatchingKeys(items, queryLower) <==> TopicHit(items[k], queryLower)
      {
        if k > 0 {
          assert items[k] == rest[k - 1];
          assert items[k].0 != x.0;
        }
      }
    }
  }

  /** Over the items of a dictionary, each of its topics is found at most once, under its own name. */
  lemma TopicsOncePerName(topics: map<string, Topic>, items: seq<(string, Topic)>, queryLower: string)
    requires ItemsOf(topics, items)
    ensures FoundOncePerName(topics, queryLower, MatchingKeys(items, queryLower), MatchingTopics(items, queryLower))
  {
    MatchingKeysFacts(items, queryLower);
    var names, found := MatchingKeys(items, queryLower), MatchingTopics(items, queryLower);
    forall k | 0 <= k < |names| ensures names[k] in topics && found[k] == topics[names[k]] {
      var j :| 0 <= j < |items| && items[j] == (names[k], found[k]);
    }
    forall name | name in topics ensures name in names <==> TopicHit((name, topics[name]), queryLower) {
      var k :| 0 <= k < |items| && items[k].0 == name;
      assert items[k] == (name, topics[name]);
    }
  }

  /** The loop step of rendering: one more highlight applied. */
  lemma ApplyStep(text: string, hs: seq<Annotation>, i: nat)
    requires i < |hs| && AllHighlights(hs[..i]) && hs[i].Highlight?
    ensures AllHighlights(hs[..i + 1])
    ensures ApplyAll(text, hs[..i + 1]) == ApplyOne(ApplyAll(text, hs[..i]), hs[i])
  {
    assert hs[..i + 1][..i] == hs[..i];
  }

  lemma StampsSnoc(xs: seq<Annotation>, j: nat)
    requires j < |xs|
    ensures Stamps(xs[..j + 1]) == Stamps(xs[..j]) + [xs[j].timestamp]
  {
  }

  /** `add_*` in the source's two steps: create the record if missing, then append. */
  lemma AppendedAfterCreate(docs: map<string, DocAnnotations>, pdfName: string, k: Kind, a: Annotation,
                            created: map<string, DocAnnotations>)
    requires created == if pdfName in docs then docs else docs[pdfName := EmptyDoc]
    ensures pdfName in created && created[pdfName] == DocOf(docs, pdfName)
    ensures created[pdfName].Has(k) ==>
      Appended(docs, pdfName, k, a) == created[pdfName := created[pdfName].Put(k, created[pdfName].List(k) + [a])]
    ensures !created[pdfName].Has(k) ==> created == docs
  {
    if pdfName !in docs {
      var d := EmptyDoc.Put(k, EmptyDoc.List(k) + [a]);
      assert docs[pdfName := EmptyDoc][pdfName := d] == docs[pdfName := d];
    }
  }

  /** `add_note`'s filing in the source's two steps: create the topic if missing, then append. */
  lemma FiledAfterCreate(topics: map<string, Topic>, topic: string, note: string, text: string, now: string,
                         noteId: int, created: map<string, Topic>)
    requires created == if topic in topics then topics else topics[topic := Topic(topic, now, [], [], [])]
    ensures topic in created
    ensures Filed(topics, topic, note, text, now, noteId) ==
      created[topic := created[topic].(notes := created[topic].notes + [TopicNote(Strip(note), Strip(text), now, noteId)])]
  {
    if topic !in topics {
      var t := Topic(topic, now, [], [], []);
      var u := t.(notes := t.notes + [TopicNote(Strip(note), Strip(text), now, noteId)]);
      assert topics[topic := t][topic := u] == topics[topic := u];
    }
  }

  // ---------------------------------------------------------------------------
  // The caller's dictionaries

  /** The `annotations` dictionary: document name to record. */
  class AnnotationStore {
    var docs: map<string, DocAnnotations>

    constructor (initial: map<string, DocAnnotations>)
      ensures docs == initial
    {
      docs := initial;
    }
  }

  /** The `topics` dictionary of one document: topic key to topic. */
  class TopicStore {
    var topics: map<string, Topic>

    constructor (initial: map<string, Topic>)
      ensures topics == initial
    {
      topics := initial;
    }
  }

  class AnnotationManager {
    const annotationsDir: string
    const topicsDir: string

    constructor ()
      ensures annotationsDir == "annotations" && topicsDir == "topics"
    {
      annotationsDir := "annotations";
      topicsDir := "topics";
    }

    /** `get_annotation_file_path` */
    function AnnotationFilePath(pdfName: string): (p: string)
      ensures p == StoragePath(annotationsDir, pdfName, "_annotations.json")
    {
      annotationsDir + "/" + Sanitize(pdfName) + "_annotations.json"
    }

    /** `get_topics_file_path` */
    function TopicsFilePath(pdfName: string): (p: string)
      ensures p == StoragePath(topicsDir, pdfName, "_topics.json")
    {
      topicsDir + "/" + Sanitize(pdfName) + "_topics.json"
    }

    /** `add_highlight`; `saved` is the outcome of `save_annotations`. */
    method AddHighlight(pdfName: string, text: string, color: string, annotations: AnnotationStore,
                        now: string, saved: bool) returns (ok: bool)
      modifies annotations
      ensures annotations.docs == Appended(old(annotations.docs), pdfName, Highlights,
        NewHighlight(NextId(old(annotations.docs), pdfName, Highlights), text, color, now))
      ensures ok == (CanAppend(old(annotations.docs), pdfName, Highlights) && saved)
    {
      if pdfName !in annotations.docs {
        annotations.docs := annotations.docs[pdfName := EmptyDoc];
      }
      var record := annotations.docs[pdfName];
      var highlight := NewHighlight(|record.List(Highlights)| + 1, text, color, now);
      AppendedAfterCreate(old(annotations.docs), pdfName, Highlights, highlight, annotations.docs);
      if !record.Has(Highlights) {
        return false;
      }
      annotations.docs := annotations.docs[pdfName := record.Put(Highlights, record.List(Highlights) + [highlight])];
      ok := saved;
    }

    /** `add_comment`; `saved` is the outcome of `save_annotations`. */
    method AddComment(pdfName: string, text: string, comment: string, annotations: AnnotationStore,
                      now: string, saved: bool) returns (ok: bool)
      modifies annotations
      ensures annotations.docs == Appended(old(annotations.docs), pdfName, Comments,
        NewComment(NextId(old(annotations.docs), pdfName, Comments), text, comment, now))
      ensures ok == (CanAppend(old(annotations.docs), pdfName, Comments) && saved)
    {
      if pdfName !in annotations.docs {
        annotations.docs := annotations.docs[pdfName := EmptyDoc];
      }
      var record := annotations.docs[pdfName];
      var entry := NewComment(|record.List(Comments)| + 1, text, comment, now);
      AppendedAfterCreate(old(annotations.docs), pdfName, Comments, entry, annotations.docs);
      if !record.Has(Comments) {
        return false;
      }
      annotations.docs := annotations.docs[pdfName := record.Put(Comments, record.List(Comments) + [entry])];
      ok := saved;
    }

    /**
     * `add_note`: the note joins the document's notes and a copy is filed under `topic`.
     * `savedAnnotations` and `savedTopics` are the outcomes of the two saves; the clock
     * is read as one instant `now`.
     */
    method AddNote(pdfName: string, text: string, note: string, topic: string,
                   annotations: AnnotationStore, topics: TopicStore,
                   now: string, savedAnnotations: bool, savedTopics: bool) returns (ok: bool)
      modifies annotations, topics
      ensures var id := NextId(old(annotations.docs), pdfName, Notes);
        annotations.docs == Appended(old(annotations.docs), pdfName, Notes, NewNote(id, text, note, topic, now)) &&
        topics.topics == (if CanAppend(old(annotations.docs), pdfName, Notes)
                          then Filed(old(topics.topics), topic, note, text, now, id)
                          else old(topics.topics))
      ensures ok == (CanAppend(old(annotations.docs), pdfName, Notes) && savedAnnotations && savedTopics)
    {
      if pdfName !in annotations.docs {
        annotations.docs := annotations.docs[pdfName := EmptyDoc];
      }
      var record := annotations.docs[pdfName];
      var entry := NewNote(|record.List(Notes)| + 1, text, note, topic, now);
      AppendedAfterCreate(old(annotations.docs), pdfName, Notes, entry, annotations.docs);
      if !record.Has(Notes) {
        return false;
      }
      annotations.docs := annotations.docs[pdfName := record.Put(Notes, record.List(Notes) + [entry])];
      if topic !in topics.topics {
        topics.topics := topics.topics[topic := Topic(topic, now, [], [], [])];
      }
      FiledAfterCreate(old(topics.topics), topic, note, text, now, entry.id, topics.topics);
      var filed := topics.topics[topic];
      topics.topics := topics.topics[topic := filed.(notes := filed.notes + [TopicNote(Strip(note), Strip(text), now, entry.id)])];
      ok := savedAnnotations && savedTopics;
    }

    /** `delete_annotation`; `saved` is the outcome of `save_annotations`. */
    method DeleteAnnotation(pdfName: string, annotationType: string, annotationId: int,
                            annotations: AnnotationStore, saved: bool) returns (ok: bool)
      modifies annotations
      ensures annotations.docs == Removed(old(annotations.docs), pdfName, annotationType, annotationId)
      ensures ok == (CanRemove(old(annotations.docs), pdfName, annotationType) && saved)
    {
      var kind := KindOf(annotationType);
      if pdfName !in annotations.docs || kind.None? || !annotations.docs[pdfName].Has(kind.value) {
        return false;
      }
      var record := annotations.docs[pdfName];
      var kept := Select(record.List(kind.value), OtherId(annotationId));
      annotations.docs := annotations.docs[pdfName := record.Put(kind.value, kept)];
      ok := saved;
    }

    /** `apply_highlights_to_text` over the record of one document. */
    method ApplyHighlightsToText(text: string, doc: DocAnnotations) returns (highlighted: string)
      ensures highlighted == HighlightedText(text, doc)
    {
      if doc.highlights.None? {
        return text;
      }
      var highlights := SortByLength(doc.highlights.value);
      SortKeepsHighlights(doc.highlights.value);
      highlighted := text;
      var i := 0;
      while i < |highlights|
        invariant i <= |highlights|
        invariant AllHighlights(highlights[..i])
        invariant highlighted == ApplyAll(text, highlights[..i])
      {
        var highlight := highlights[i];
        if !highlight.Highlight? {
          assert !AllHighlights(highlights);
          return text;
        }
        var highlightText := Strip(highlight.text);
        var background := Background(highlight.color);
        var version := MarkUp(background, highlightText);
        ApplyStep(text, highlights, i);
        if Contains(highlighted, highlightText) {
          highlighted := ReplaceFirst(highlighted, highlightText, version);
        }
        i := i + 1;
      }
      assert highlights[..i] == highlights;
    }

    /** `get_annotation_summary` with the loaded annotations and topics as arguments. */
    method GetAnnotationSummary(pdfName: string, docs: map<string, DocAnnotations>,
                                topics: map<string, Topic>) returns (summary: AnnotationSummary)
      ensures summary == Summary(docs, topics, pdfName)
    {
      if pdfName !in docs {
        return AnnotationSummary(0, 0, 0, 0, None);
      }
      var record := docs[pdfName];
      var itemLists := ListsOf(record);
      var allTimestamps: seq<string> := [];
      var k := 0;
      while k < |itemLists|
        invariant k <= |itemLists|
        invariant allTimestamps == StampsOfLists(itemLists[..k])
      {
        var items := itemLists[k];
        var j := 0;
        while j < |items|
          invariant j <= |items|
          invariant allTimestamps == StampsOfLists(itemLists[..k]) + Stamps(items[..j])
        {
          StampsSnoc(items, j);
          allTimestamps := allTimestamps + [items[j].timestamp];
          j := j + 1;
        }
        assert items[..j] == items;
        assert itemLists[..k + 1][..k] == itemLists[..k];
        k := k + 1;
      }
      assert itemLists[..k] == itemLists;
      var lastModified := if allTimestamps != [] then Some(MaxOf(allTimestamps)) else None;
      summary := AnnotationSummary(|record.List(Highlights)|, |record.List(Comments)|,
                                   |record.List(Notes)|, |topics|, lastModified);
    }

    /**
     * `search_annotations` with the loaded annotations, the loaded topics and their
     * items in dictionary order as arguments.
     */
    method SearchAnnotations(pdfName: string, query: string, docs: map<string, DocAnnotations>,
                             topicsByName: map<string, Topic>, topicItems: seq<(string, Topic)>)
      returns (results: SearchResults)
      requires ItemsOf(topicsByName, topicItems)
      ensures pdfName !in docs ==> results == SearchResults([], [], [], [])
      ensures pdfName in docs ==>
        FoundOncePerName(topicsByName, Lower(query), MatchingKeys(topicItems, Lower(query)), results.topics)
      ensures pdfName in docs ==>
        var q := Lower(query);
        var d := docs[pdfName];
        results.highlights == Select(d.List(Highlights), Hit(q, Highlights)) &&
        results.comments == Select(d.List(Comments), Hit(q, Comments)) &&
        results.notes == Select(d.List(Notes), Hit(q, Notes)) &&
        results.topics == MatchingTopics(topicItems, q)
    {
      if pdfName !in docs {
        return SearchResults([], [], [], []);
      }
      var queryLower := Lower(query);
      var record := docs[pdfName];
      var highlights := SearchList(record.List(Highlights), queryLower, Highlights);
      var comments := SearchList(record.List(Comments), queryLower, Comments);
      var notes := SearchList(record.List(Notes), queryLower, Notes);
      var topics := SearchTopics(topicItems, queryLower);
      TopicsOncePerName(topicsByName, topicItems, queryLower);
      results := SearchResults(highlights, comments, notes, topics);
    }

    /** One of the three list scans of `search_annotations`. */
    method SearchList(xs: seq<Annotation>, queryLower: string, k: Kind) returns (found: seq<Annotation>)
      ensures found == Select(xs, Hit(queryLower, k))
    {
      found := [];
      var i := 0;
      while i < |xs|
        invariant i <= |xs|
        invariant found == Select(xs[..i], Hit(queryLower, k))
      {
        SelectSnoc(xs[..i], xs[i], Hit(queryLower, k));
        assert xs[..i + 1] == xs[..i] + [xs[i]];
        if Keeps(Hit(queryLower, k), xs[i]) {
          found := found + [xs[i]];
        }
        i := i + 1;
      }
      assert xs[..i] == xs;
    }

    /** The scan over `topics.items()` of `search_annotations`. */
    method SearchTopics(topicItems: seq<(string, Topic)>, queryLower: string) returns (topics: seq<Topic>)
      ensures topics == MatchingTopics(topicItems, queryLower)
    {
      topics := [];
      var i := 0;
      while i < |topicItems|
        invariant i <= |topicItems|
        invariant topics == MatchingTopics(topicItems[..i], queryLower)
      {
        var (topicName, topicData) := topicItems[i];
        MatchingTopicsSnoc(topicItems[..i], topicItems[i], queryLower);
        assert topicItems[..i + 1] == topicItems[..i] + [topicItems[i]];
        if Mentions(topicName, queryLower) {
          topics := topics + [topicData];
        } else {
          var j := 0;
          while j < |topicData.notes|
            invariant j <= |topicData.notes|
            invariant forall m :: 0 <= m < j ==> !Mentions(topicData.notes[m].note, queryLower)
          {
            if Mentions(topicData.notes[j].note, queryLower) {
              topics := topics + [topicData];
              break;
            }
            j := j + 1;
          }
        }
        i := i + 1;
      }
      assert topicItems[..i] == topicItems;
    }
  }
}
