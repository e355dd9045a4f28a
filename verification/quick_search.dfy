/**
 The quick search window's `search_notes` command: it builds a prefix-match
 full-text query from the user's words, merges full-text hits with notes
 whose book or section title matches, orders them by priority and rank,
 keeps the first 15, and turns each row into a search result with a plain
 text preview, its book and section names, a match type and a word count.

 The SQLite statement is abstract: a `Store` yields the full-text hits for a
 query and the notes whose container title matches, and the merge of the two
 common table expressions (exclusion, `ORDER BY priority, sort_rank`,
 `LIMIT 15`) is modelled here.
 */
module QuickSearch {
  import opened Wrappers
  import opened Text
  import Html

  // ---------------------------------------------------------------------
  // The full-text query
  // ---------------------------------------------------------------------

  /** One word of the user's query as a prefix term: quotes removed, `*` appended. */
  function PrefixTerm(word: string): (t: string)
    ensures t == DropChar(word, '"') + "*"
    ensures '"' !in t
    ensures NoWhitespace(word) ==> NoWhitespace(t)
  {
    var unquoted := ReplaceAll(word, "\"", "");
    assert "\"" == ['"'];
    ReplaceCharByNothing(word, '"');
    var t := unquoted + "*";
    assert NoWhitespace(word) ==> NoWhitespace(t) by {
      if NoWhitespace(word) {
        forall i | 0 <= i < |t|
          ensures !IsWhitespace(t[i])
        {
          if i < |unquoted| {
            assert unquoted[i] in unquoted;
            var j :| 0 <= j < |word| && word[j] == unquoted[i];
          }
        }
      }
    }
    t
  }

  function PrefixTerms(words: seq<string>): (terms: seq<string>)
    ensures |terms| == |words|
    ensures forall k :: 0 <= k < |terms| ==> terms[k] == PrefixTerm(words[k])
  {
    if |words| == 0 then [] else [PrefixTerm(words[0])] + PrefixTerms(words[1..])
  }

  /**
   The full-text query: each whitespace-separated word of `query` with every
   `"` removed and `*` appended, joined by single spaces. Split again, it
   gives one term per word of the query, in order. It is empty exactly when
   `query` has no non-whitespace character; it never holds a quote; its only
   whitespace is the single spaces between terms, each following the `*`
   that ends a term.
   */
  function FtsQuery(query: string): (q: string)
    ensures q == [] <==> AllWhitespace(query)
    ensures |SplitWhitespace(q)| == |SplitWhitespace(query)|
    ensures forall k :: 0 <= k < |SplitWhitespace(q)| ==>
      SplitWhitespace(q)[k] == DropChar(SplitWhitespace(query)[k], '"') + "*"
    ensures '"' !in q
    ensures |q| > 0 ==> q[0] != ' ' && q[|q| - 1] == '*'
    ensures forall i :: 0 <= i < |q| && q[i] == ' ' ==> 0 < i && q[i - 1] == '*'
    ensures forall i :: 0 <= i < |q| && IsWhitespace(q[i]) ==> q[i] == ' '
  {
    var words := SplitWhitespace(query);
    SplitWhitespaceEmptyIff(query);
    var terms := PrefixTerms(words);
    JoinTermsShape(terms);
    JoinSpacesOnly(terms);
    SplitJoin(terms);
    Join(terms, " ")
  }

  /** Terms ending in `*` and joined by spaces give the query shape above. */
  lemma {:induction false} JoinTermsShape(terms: seq<string>)
    requires forall k :: 0 <= k < |terms| ==> |terms[k]| > 0 && terms[k][|terms[k]| - 1] == '*'
    requires forall k :: 0 <= k < |terms| ==> '"' !in terms[k] && ' ' !in terms[k]
    ensures var q := Join(terms, " ");
      && (q == [] <==> terms == [])
      && '"' !in q
      && (|q| > 0 ==> q[0] != ' ' && q[|q| - 1] == '*')
      && (forall i :: 0 <= i < |q| && q[i] == ' ' ==> 0 < i && q[i - 1] == '*')
  {
    if |terms| == 1 {
      var q := terms[0];
      assert forall i :: 0 <= i < |q| ==> q[i] in terms[0];
    } else if |terms| > 1 {
      JoinTermsShape(terms[1..]);
      var head := terms[0];
      var rest := Join(terms[1..], " ");
      var q := head + " " + rest;
      assert Join(terms, " ") == q;
      assert forall i :: 0 <= i < |head| ==> q[i] == head[i] && q[i] in head;
      assert forall i :: |head| < i < |q| ==> q[i] == rest[i - |head| - 1];
      forall i | 0 <= i < |q| && q[i] == ' '
        ensures 0 < i && q[i - 1] == '*'
      {
        if i > |head| + 1 {
          assert q[i - 1] == rest[i - |head| - 2];
        }
      }
    }
  }

  /** Whitespace-free terms joined by spaces hold no whitespace but those spaces. */
  lemma {:induction false} JoinSpacesOnly(terms: seq<string>)
    requires forall k :: 0 <= k < |terms| ==> NoWhitespace(terms[k])
    ensures forall i :: 0 <= i < |Join(terms, " ")| && IsWhitespace(Join(terms, " ")[i]) ==>
      Join(terms, " ")[i] == ' '
  {
    if |terms| == 1 {
      assert Join(terms, " ") == terms[0];
    } else if |terms| > 1 {
      JoinSpacesOnly(terms[1..]);
      var head := terms[0];
      var rest := Join(terms[1..], " ");
      var q := head + " " + rest;
      assert Join(terms, " ") == q;
      assert forall i :: |head| < i < |q| ==> q[i] == rest[i - |head| - 1];
      assert forall i :: 0 <= i < |head| ==> q[i] == head[i];
    }
  }

  // ---------------------------------------------------------------------
  // Rows
  // ---------------------------------------------------------------------

  /** The columns both common table expressions select for a note, NULL as `None`. */
  datatype Columns = Columns(
    id: string,
    title: Option<string>,
    parentTitle: Option<string>,
    parentType: Option<string>,
    grandparentTitle: Option<string>,
    contentLength: Option<int>,
    rawContent: Option<string>)

  /** A full-text hit: a note, its highlighted snippet and its relevance rank. */
  datatype FtsHit = FtsHit(note: Columns, snippet: Option<string>, rank: int)

  /** A row of the combined statement. */
  datatype Row = Row(note: Columns, snippet: Option<string>, priority: int, sortRank: int)

  /** `fts_results`: priority 1, ranked by relevance. */
  function FtsRow(h: FtsHit): Row {
    Row(h.note, h.snippet, 1, h.rank)
  }

  /** `parent_matches`: priority 2, rank 0, empty snippet. */
  function ParentRow(c: Columns): Row {
    Row(c, Some(""), 2, 0)
  }

  const ResultLimit: nat := 15

  // ---------------------------------------------------------------------
  // The merge: exclusion, ordering, limit
  // ---------------------------------------------------------------------

  function FtsIds(hits: seq<FtsHit>): set<string> {
    set i | 0 <= i < |hits| :: hits[i].note.id
  }

  /** `AND i.id NOT IN (SELECT id FROM fts_results)`. */
  function ExcludeIds(parents: seq<Columns>, ids: set<string>): (r: seq<Columns>)
    ensures forall c :: c in r <==> c in parents && c.id !in ids
    ensures |r| <= |parents|
  {
    if |parents| == 0 then []
    else
      var tail := ExcludeIds(parents[1..], ids);
      assert forall c :: c in parents <==> c == parents[0] || c in parents[1..];
      if parents[0].id in ids then tail else [parents[0]] + tail
  }

  /** `ORDER BY priority, sort_rank`. */
  predicate RowLe(a: Row, b: Row) {
    a.priority < b.priority || (a.priority == b.priority && a.sortRank <= b.sortRank)
  }

  predicate Sorted(s: seq<Row>) {
    forall i, j :: 0 <= i < j < |s| ==> RowLe(s[i], s[j])
  }

  /** A row no greater than every row of a sorted sequence may go in front. */
  lemma SortedCons(y: Row, t: seq<Row>)
    requires Sorted(t)
    requires forall z :: z in t ==> RowLe(y, z)
    ensures Sorted([y] + t)
  {
    var r := [y] + t;
    forall i, j | 0 <= i < j < |r|
      ensures RowLe(r[i], r[j])
    {
      assert r[j] == t[j - 1];
      if i > 0 {
        assert r[i] == t[i - 1];
      }
    }
  }

  function Insert(x: Row, s: seq<Row>): (r: seq<Row>)
    requires Sorted(s)
    ensures Sorted(r)
    ensures multiset(r) == multiset(s) + multiset{x}
    decreases |s|
  {
    if |s| == 0 then [x]
    else if RowLe(x, s[0]) then
      HeadBelow(x, s);
      SortedCons(x, s);
      [x] + s
    else
      SortedTail(s);
      var tail := Insert(x, s[1..]);
      TailAbove(x, s, tail);
      SortedCons(s[0], tail);
      assert s == [s[0]] + s[1..];
      [s[0]] + tail
  }

  lemma SortedTail(s: seq<Row>)
    requires Sorted(s) && |s| > 0
    ensures Sorted(s[1..])
  {
    forall i, j | 0 <= i < j < |s| - 1
      ensures RowLe(s[1..][i], s[1..][j])
    {
      assert s[1..][i] == s[i + 1] && s[1..][j] == s[j + 1];
    }
  }

  /** A row no greater than the head of a sorted sequence is no greater than any of its rows. */
  lemma HeadBelow(x: Row, s: seq<Row>)
    requires Sorted(s) && |s| > 0 && RowLe(x, s[0])
    ensures forall z :: z in s ==> RowLe(x, z)
  {
    forall z | z in s
      ensures RowLe(x, z)
    {
      var k :| 0 <= k < |s| && s[k] == z;
      if k > 0 {
        assert RowLe(s[0], s[k]);
      }
    }
  }

  /** When `x` goes after the head, the head is no greater than any row of the insertion into the rest. */
  lemma TailAbove(x: Row, s: seq<Row>, tail: seq<Row>)
    requires Sorted(s) && |s| > 0 && !RowLe(x, s[0])
    requires multiset(tail) == multiset(s[1..]) + multiset{x}
    ensures forall z :: z in tail ==> RowLe(s[0], z)
  {
    forall z | z in tail
      ensures RowLe(s[0], z)
    {
      assert z in multiset(tail);
      if z != x {
        assert z in multiset(s[1..]);
        var k :| 0 <= k < |s| - 1 && s[1..][k] == z;
        assert s[k + 1] == z;
      }
    }
  }

  /** An ordering of `rows` by priority then rank, one that SQLite may return. */
  function SortRows(rows: seq<Row>): (r: seq<Row>)
    ensures Sorted(r)
    ensures multiset(r) == multiset(rows)
  {
    if |rows| == 0 then []
    else
      assert rows == [rows[0]] + rows[1..];
      Insert(rows[0], SortRows(rows[1..]))
  }

  function MapFtsRows(hits: seq<FtsHit>): (r: seq<Row>)
    ensures |r| == |hits|
    ensures forall k :: 0 <= k < |r| ==> r[k] == FtsRow(hits[k])
  {
    if |hits| == 0 then [] else [FtsRow(hits[0])] + MapFtsRows(hits[1..])
  }

  function MapParentRows(parents: seq<Columns>): (r: seq<Row>)
    ensures |r| == |parents|
    ensures forall k :: 0 <= k < |r| ==> r[k] == ParentRow(parents[k])
  {
    if |parents| == 0 then [] else [ParentRow(parents[0])] + MapParentRows(parents[1..])
  }

  /** Both result sets, before ordering. */
  function Union(hits: seq<FtsHit>, parents: seq<Columns>): seq<Row> {
    MapFtsRows(hits) + MapParentRows(ExcludeIds(parents, FtsIds(hits)))
  }

  /**
   The combined statement: full-text hits and the parent matches not already
   among them, ordered by (priority, sort_rank), at most 15 rows. A parent
   match never repeats a full-text hit's id; the rows kept are drawn from
   the union and are the first 15 of it in that order.
   */
  function Merge(hits: seq<FtsHit>, parents: seq<Columns>): (r: seq<Row>)
    ensures |r| == if |Union(hits, parents)| < ResultLimit then |Union(hits, parents)| else ResultLimit
    ensures Sorted(r)
    ensures forall row :: row in r && row.priority == 2 ==> row.note.id !in FtsIds(hits)
    ensures multiset(r) <= multiset(Union(hits, parents))
    ensures forall x, y :: x in multiset(Union(hits, parents)) - multiset(r) && y in r ==> RowLe(y, x)
  {
    var all := Union(hits, parents);
    var sorted := SortRows(all);
    var k := if |sorted| < ResultLimit then |sorted| else ResultLimit;
    TakeSorted(sorted, k);
    UnionParentsExcluded(hits, parents);
    assert forall row :: row in sorted[..k] ==> row in multiset(all);
    sorted[..k]
  }

  /** The first `k` rows of a sorted sequence precede all the others. */
  lemma TakeSorted(sorted: seq<Row>, k: nat)
    requires Sorted(sorted) && k <= |sorted|
    ensures Sorted(sorted[..k])
    ensures multiset(sorted[..k]) <= multiset(sorted)
    ensures forall x, y :: x in multiset(sorted) - multiset(sorted[..k]) && y in sorted[..k] ==> RowLe(y, x)
  {
    var r := sorted[..k];
    var rest := sorted[k..];
    assert sorted == r + rest;
    assert multiset(sorted) - multiset(r) == multiset(rest);
    PrefixSorted(sorted, k);
    PrefixBelowRest(sorted, k);
    forall x | x in multiset(sorted) - multiset(r)
      ensures x in rest
    {
    }
  }

  lemma PrefixSorted(sorted: seq<Row>, k: nat)
    requires Sorted(sorted) && k <= |sorted|
    ensures Sorted(sorted[..k])
  {
    forall i, j | 0 <= i < j < k
      ensures RowLe(sorted[..k][i], sorted[..k][j])
    {
      assert sorted[..k][i] == sorted[i] && sorted[..k][j] == sorted[j];
    }
  }

  /** Every row kept is no greater than every row cut off. */
  lemma PrefixBelowRest(sorted: seq<Row>, k: nat)
    requires Sorted(sorted) && k <= |sorted|
    ensures forall x, y :: x in sorted[k..] && y in sorted[..k] ==> RowLe(y, x)
  {
    forall x, y | x in sorted[k..] && y in sorted[..k]
      ensures RowLe(y, x)
    {
      var i :| 0 <= i < k && sorted[..k][i] == y;
      var j :| 0 <= j < |sorted| - k && sorted[k..][j] == x;
      assert sorted[i] == y && sorted[k + j] == x;
    }
  }

  /** Rows of priority 2 in the union come from parent matches with a fresh id. */
  lemma UnionParentsExcluded(hits: seq<FtsHit>, parents: seq<Columns>)
    ensures forall row :: row in Union(hits, parents) && row.priority == 2 ==> row.note.id !in FtsIds(hits)
  {
    var kept := ExcludeIds(parents, FtsIds(hits));
    assert forall row :: row in MapFtsRows(hits) ==> row.priority == 1;
    forall row | row in Union(hits, parents) && row.priority == 2
      ensures row.note.id !in FtsIds(hits)
    {
      if row !in MapFtsRows(hits) {
        var k :| 0 <= k < |kept| && MapParentRows(kept)[k] == row;
        assert kept[k] in kept;
      }
    }
  }

  // ---------------------------------------------------------------------
  // Shaping one row
  // ---------------------------------------------------------------------

  /** How a note was found. */
  datatype MatchType = Title | Content | Parent

  /** What the window shows for one note. */
  datatype SearchResult = SearchResult(
    id: string,
    title: string,
    snippet: string,
    contentPreview: string,
    bookName: Option<string>,
    sectionName: Option<string>,
    matchType: MatchType,
    wordCount: int)

  const PreviewBytes: nat := 80

  /**
   The content preview: text over 80 bytes is cut to its first 80 bytes
   plus `...` (a cut inside a character is a panic, `None`); empty text
   reads `Empty note`; anything else is shown unchanged.
   */
  function Preview(plain: string): (r: Option<string>)
    ensures ByteLength(plain) <= PreviewBytes && plain != [] ==> r == Some(plain)
    ensures plain == [] ==> r == Some("Empty note")
    ensures ByteLength(plain) > PreviewBytes ==> (r.None? <==> !IsCharBoundary(plain, PreviewBytes))
    ensures ByteLength(plain) > PreviewBytes && r.Some? ==>
      && |r.value| >= 3
      && EndsWith(r.value, "...")
      && IsPrefix(r.value[..|r.value| - 3], plain)
      && ByteLength(r.value[..|r.value| - 3]) == PreviewBytes
  {
    if ByteLength(plain) > PreviewBytes then
      match BytePrefix(plain, PreviewBytes)
      case Some(head) =>
        var r := head + "...";
        assert r[..|r| - 3] == head;
        Some(r)
      case None => None
    else if plain == [] then Some("Empty note")
    else Some(plain)
  }

  /** ASCII text never makes the preview panic. */
  lemma AsciiPreview(plain: string)
    requires IsAscii(plain)
    ensures |plain| > PreviewBytes ==> Preview(plain) == Some(plain[..PreviewBytes] + "...")
    ensures 0 < |plain| <= PreviewBytes ==> Preview(plain) == Some(plain)
  {
    AsciiByteLength(plain);
    if |plain| > PreviewBytes {
      AsciiBytePrefix(plain, PreviewBytes);
    }
  }

  /**
   `(book_name, section_name)` from the parent's type: under a section the
   book is the grandparent and the section the parent; under a book only the
   book is known; otherwise neither.
   */
  function Hierarchy(parentType: Option<string>, parentTitle: Option<string>, grandparentTitle: Option<string>)
    : (r: (Option<string>, Option<string>))
    ensures r.1.Some? ==> parentType == Some("section") && r.1 == parentTitle
    ensures r.0.Some? ==> parentType in {Some("section"), Some("book")}
    ensures parentType == Some("section") ==> r == (grandparentTitle, parentTitle)
    ensures parentType == Some("book") ==> r == (parentTitle, None)
  {
    match parentType
    case Some("section") => (grandparentTitle, parentTitle)
    case Some("book") => (parentTitle, None)
    case _ => (None, None)
  }

  /**
   The match type: `Parent` exactly for priority 2 rows; otherwise `Title`
   when the lower-cased title contains the lower-cased query, else `Content`.
   */
  function Classify(priority: int, title: string, queryLower: string): (m: MatchType)
    ensures m == Parent <==> priority == 2
    ensures m == Title <==> priority != 2 && exists i :: OccursAt(Lower(title), queryLower, i)
    ensures m == Content <==> priority != 2 && forall i :: !OccursAt(Lower(title), queryLower, i)
  {
    ContainsIff(Lower(title), queryLower);
    if priority == 2 then Parent
    else if Contains(Lower(title), queryLower) then Title
    else Content
  }

  predicate IsI32(v: int) {
    -0x8000_0000 <= v < 0x8000_0000
  }

  /**
   The word count estimate `content_length / 6`, with Rust's division
   rounding toward zero, and 0 for a NULL length.
   */
  function WordCount(contentLength: Option<int>): (w: int)
    ensures contentLength.None? ==> w == 0
    ensures contentLength.Some? && contentLength.value >= 0 ==>
      0 <= 6 * w <= contentLength.value < 6 * w + 6
    ensures contentLength.Some? && contentLength.value < 0 ==>
      6 * w - 6 < contentLength.value <= 6 * w <= 0
  {
    match contentLength
    case None => 0
    case Some(v) => if v >= 0 then v / 6 else -((-v) / 6)
  }

  /** What happens to one row: it maps, it is skipped, or it panics. */
  datatype RowOutcome = Mapped(result: SearchResult) | Skipped | Panics

  /** A row decodes when its title is not NULL and its length fits an `i32`. */
  predicate Decodable(row: Row) {
    row.note.title.Some? && (row.note.contentLength.None? || IsI32(row.note.contentLength.value))
  }

  /** The plain-text preview of a row's content. */
  function RowPreview(row: Row): Option<string> {
    Preview(Html.StripHtml(Html.CollapseAll, row.note.rawContent.GetOr("")))
  }

  /**
   The row mapper: a row that does not decode is skipped; one whose preview
   cut falls inside a character panics; any other becomes a result carrying
   the row's id and title, the preview, the hierarchy names, the match type
   and the word count.
   */
  function MapRow(row: Row, queryLower: string): (o: RowOutcome)
    ensures o.Skipped? <==> !Decodable(row)
    ensures o.Panics? <==> Decodable(row) && RowPreview(row).None?
    ensures o.Mapped? ==>
      && o.result.id == row.note.id
      && Some(o.result.title) == row.note.title
      && o.result.snippet == row.snippet.GetOr("")
      && Some(o.result.contentPreview) == RowPreview(row)
      && (o.result.bookName, o.result.sectionName)
         == Hierarchy(row.note.parentType, row.note.parentTitle, row.note.grandparentTitle)
      && o.result.matchType == Classify(row.priority, row.note.title.value, queryLower)
      && (o.result.matchType == Parent <==> row.priority == 2)
      && o.result.wordCount == WordCount(row.note.contentLength)
  {
    if !Decodable(row) then Skipped
    else
      match RowPreview(row)
      case None => Panics
      case Some(preview) =>
        var title := row.note.title.value;
        var names := Hierarchy(row.note.parentType, row.note.parentTitle, row.note.grandparentTitle);
        Mapped(SearchResult(
          row.note.id, title, row.snippet.GetOr(""), preview, names.0, names.1,
          Classify(row.priority, title, queryLower), WordCount(row.note.contentLength)))
  }

  /** The outcome of the command. */
  datatype Outcome = Found(results: seq<SearchResult>) | Failed(message: string) | Panicked

  /** Every row run through the mapper, in order. */
  function MapRows(rows: seq<Row>, queryLower: string): (os: seq<RowOutcome>)
    ensures |os| == |rows|
    ensures forall k :: 0 <= k < |rows| ==> os[k] == MapRow(rows[k], queryLower)
  {
    if |rows| == 0 then [] else [MapRow(rows[0], queryLower)] + MapRows(rows[1..], queryLower)
  }

  /**
   The collecting loop: rows that fail to decode are skipped without
   aborting and a panicking row aborts the whole command.
   */
  function Collect(os: seq<RowOutcome>): (o: Outcome)
    ensures !o.Failed?
    ensures o.Found? ==> |o.results| <= |os|
  {
    if |os| == 0 then Found([])
    else
      var tail := Collect(os[1..]);
      match os[0]
      case Panics => Panicked
      case Skipped => tail
      case Mapped(r) =>
        if tail.Found? then Found([r] + tail.results) else tail
  }

  /** The results of the rows that map, in order. */
  function MappedResults(os: seq<RowOutcome>): seq<SearchResult> {
    if |os| == 0 then []
    else if os[0].Mapped? then [os[0].result] + MappedResults(os[1..])
    else MappedResults(os[1..])
  }

  /** The command panics exactly when some row panics. */
  lemma {:induction false} CollectPanics(os: seq<RowOutcome>)
    ensures Collect(os).Panicked? <==> exists k :: 0 <= k < |os| && os[k].Panics?
  {
    if |os| > 0 {
      var tail := os[1..];
      CollectPanics(tail);
      if !os[0].Panics? {
        if exists k :: 0 <= k < |os| && os[k].Panics? {
          var k :| 0 <= k < |os| && os[k].Panics?;
          assert k > 0 && tail[k - 1] == os[k];
        }
        if exists k :: 0 <= k < |tail| && tail[k].Panics? {
          var k :| 0 <= k < |tail| && tail[k].Panics?;
          assert os[k + 1] == tail[k];
        }
      }
    }
  }

  /**
   Without a panic the results are exactly the mapped rows: skipped rows
   leave no trace and the others keep their order.
   */
  lemma {:induction false} CollectResults(os: seq<RowOutcome>)
    ensures Collect(os).Found? ==> Collect(os).results == MappedResults(os)
  {
    if |os| > 0 {
      CollectResults(os[1..]);
    }
  }

  /** Each reported result comes from one of the rows. */
  lemma {:induction false} MappedResultsFromRows(os: seq<RowOutcome>)
    ensures forall r :: r in MappedResults(os) ==> exists k :: 0 <= k < |os| && os[k] == Mapped(r)
  {
    if |os| > 0 {
      var tail := os[1..];
      MappedResultsFromRows(tail);
      forall r | r in MappedResults(tail)
        ensures exists k :: 0 <= k < |os| && os[k] == Mapped(r)
      {
        var k :| 0 <= k < |tail| && tail[k] == Mapped(r);
        assert os[k + 1] == tail[k];
      }
    }
  }

  // ---------------------------------------------------------------------
  // The command
  // ---------------------------------------------------------------------

  /**
   The database behind the command: an error from preparing the statement or
   binding its parameters; the number of rows the statement yields before a
   step fails, if one does (FTS5 parses the MATCH text only when the
   statement runs, so a query it cannot parse fails at the first step); and
   the full-text hits for a query and the notes whose book or section title
   contains a lower-cased query.
   */
  datatype Store = Store(
    statementError: Option<string>,
    failsAfter: Option<nat>,
    ftsHits: string -> seq<FtsHit>,
    titleMatches: string -> seq<Columns>)

  /** The rows the statement yields: all of them, or those before the failing step. */
  function Delivered(rows: seq<Row>, failsAfter: Option<nat>): (r: seq<Row>)
    ensures r <= rows
    ensures failsAfter.None? || failsAfter.value >= |rows| ==> r == rows
    ensures failsAfter.Some? && failsAfter.value < |rows| ==> |r| == failsAfter.value
  {
    match failsAfter
    case Some(k) => if k < |rows| then rows[..k] else rows
    case None => rows
  }

  /** The rows of one merge as the statement yields them. */
  function StatementRows(store: Store, query: string): seq<Row> {
    Delivered(Merge(store.ftsHits(FtsQuery(query)), store.titleMatches(Lower(query))), store.failsAfter)
  }

  /**
   `search_notes`: with no connection the command fails; with a query that
   has no words it returns no results without consulting the store; an
   error preparing the statement is returned; otherwise the rows the
   statement yields are collected. A failing step ends the iteration: the
   `if let Ok` loop drops the error and the command still succeeds with the
   rows before it.
   */
  function SearchNotes(query: string, db: Option<Store>): (o: Outcome)
    ensures db.None? ==> o == Failed("Database not initialized")
    ensures db.Some? && AllWhitespace(query) ==> o == Found([])
    ensures db.Some? && !AllWhitespace(query) && db.value.statementError.Some? ==>
      o == Failed(db.value.statementError.value)
    ensures db.Some? && !AllWhitespace(query) && db.value.statementError.None? ==>
      o == Collect(MapRows(StatementRows(db.value, query), Lower(query)))
    ensures o.Found? ==> |o.results| <= ResultLimit
  {
    match db
    case None => Failed("Database not initialized")
    case Some(store) =>
      var queryLower := Lower(query);
      var fts := FtsQuery(query);
      if fts == [] then Found([])
      else if store.statementError.Some? then Failed(store.statementError.value)
      else
        var rows := StatementRows(store, query);
        assert |rows| <= ResultLimit;
        var os := MapRows(rows, queryLower);
        assert |os| == |rows|;
        Collect(os)
  }

  /** Collecting a prefix of the outcomes collects a prefix of the results. */
  lemma {:induction false} CollectPrefix(os: seq<RowOutcome>, k: nat)
    requires k <= |os| && Collect(os).Found?
    ensures Collect(os[..k]).Found?
    ensures Collect(os[..k]).results <= Collect(os).results
    decreases k
  {
    if k > 0 {
      assert os[..k][1..] == os[1..][..k - 1];
      CollectPrefix(os[1..], k - 1);
    }
  }

  /**
   A step that fails cuts the results short without failing the command:
   the command still succeeds, and its results are a prefix of those the
   same store gives when every step succeeds.
   */
  lemma StepFailureTruncates(query: string, store: Store, k: nat)
    requires SearchNotes(query, Some(store.(failsAfter := None))).Found?
    ensures SearchNotes(query, Some(store.(failsAfter := Some(k)))).Found?
    ensures SearchNotes(query, Some(store.(failsAfter := Some(k)))).results
      <= SearchNotes(query, Some(store.(failsAfter := None))).results
  {
    var full := store.(failsAfter := None);
    var cut := store.(failsAfter := Some(k));
    if !AllWhitespace(query) {
      var merged := Merge(store.ftsHits(FtsQuery(query)), store.titleMatches(Lower(query)));
      assert StatementRows(full, query) == merged;
      assert StatementRows(cut, query) == Delivered(merged, Some(k));
      DeliveredPrefix(merged, Lower(query), k);
    }
  }

  /** The rows before a failing step collect to a prefix of what all the rows collect to. */
  lemma DeliveredPrefix(rows: seq<Row>, queryLower: string, k: nat)
    requires Collect(MapRows(rows, queryLower)).Found?
    ensures Collect(MapRows(Delivered(rows, Some(k)), queryLower)).Found?
    ensures Collect(MapRows(Delivered(rows, Some(k)), queryLower)).results
      <= Collect(MapRows(rows, queryLower)).results
  {
    var os := MapRows(rows, queryLower);
    var n := if k < |rows| then k else |rows|;
    assert Delivered(rows, Some(k)) == rows[..n];
    assert MapRows(rows[..n], queryLower) == os[..n];
    CollectPrefix(os, n);
  }

  /** A query the full-text engine cannot parse yields no results, not an error. */
  lemma UnparsableQueryFindsNothing(query: string, store: Store)
    requires !AllWhitespace(query) && store.statementError.None? && store.failsAfter == Some(0)
    ensures SearchNotes(query, Some(store)) == Found([])
  {
    assert MapRows(StatementRows(store, query), Lower(query)) == [];
  }

  // ---------------------------------------------------------------------
  // Properties of the whole command
  // ---------------------------------------------------------------------

  /** Once a priority 2 row appears, every later row has priority 2. */
  ghost predicate ParentsLast(rows: seq<Row>) {
    forall i, j :: 0 <= i < j < |rows| && rows[i].priority == 2 ==> rows[j].priority == 2
  }

  ghost predicate ParentResultsLast(results: seq<SearchResult>) {
    forall i, j :: 0 <= i < j < |results| && results[i].matchType == Parent ==> results[j].matchType == Parent
  }

  /** Every merged row has priority 1 or 2, and priority 2 rows come last. */
  lemma MergeParentsLast(hits: seq<FtsHit>, parents: seq<Columns>)
    ensures ParentsLast(Merge(hits, parents))
  {
    var all := Union(hits, parents);
    UnionPriorities(hits, parents);
    var r := Merge(hits, parents);
    forall i, j | 0 <= i < j < |r| && r[i].priority == 2
      ensures r[j].priority == 2
    {
      assert r[j] in multiset(r);
      assert r[j] in multiset(all);
      assert RowLe(r[i], r[j]);
    }
  }

  lemma UnionPriorities(hits: seq<FtsHit>, parents: seq<Columns>)
    ensures forall row :: row in multiset(Union(hits, parents)) ==> row.priority == 1 || row.priority == 2
  {
    var kept := ExcludeIds(parents, FtsIds(hits));
    assert forall row :: row in MapFtsRows(hits) ==> row.priority == 1;
    assert forall row :: row in MapParentRows(kept) ==> row.priority == 2;
  }

  /** The mapped outcomes of priority 2 rows come after all other mapped outcomes. */
  ghost predicate ParentOutcomesLast(os: seq<RowOutcome>) {
    forall i, j :: 0 <= i < j < |os| && os[i].Mapped? && os[j].Mapped? && os[i].result.matchType == Parent ==>
      os[j].result.matchType == Parent
  }

  /** The mapper reports `Parent` exactly for priority 2 rows, so it keeps their order. */
  lemma MapRowsParentsLast(rows: seq<Row>, queryLower: string)
    requires ParentsLast(rows)
    ensures ParentOutcomesLast(MapRows(rows, queryLower))
  {
  }

  /** Collecting keeps the rows' order, so parent matches stay last. */
  lemma {:induction false} MappedParentsLast(os: seq<RowOutcome>)
    requires ParentOutcomesLast(os)
    ensures ParentResultsLast(MappedResults(os))
  {
    if |os| > 0 {
      var tail := os[1..];
      assert ParentOutcomesLast(tail) by {
        assert forall i :: 0 <= i < |tail| ==> tail[i] == os[i + 1];
      }
      MappedParentsLast(tail);
      var rest := MappedResults(tail);
      if os[0].Mapped? && os[0].result.matchType == Parent {
        MappedResultsFromRows(tail);
        forall r | r in rest
          ensures r.matchType == Parent
        {
          var k :| 0 <= k < |tail| && tail[k] == Mapped(r);
          assert os[k + 1] == Mapped(r);
        }
        var all := [os[0].result] + rest;
        assert forall j :: 0 < j < |all| ==> all[j] in rest;
      }
    }
  }

  /**
   In a successful search every title or content match comes before every
   parent match, and no parent match repeats a note already found by the
   full-text query.
   */
  lemma SearchOrdering(query: string, db: Option<Store>)
    ensures SearchNotes(query, db).Found? ==> ParentResultsLast(SearchNotes(query, db).results)
    ensures db.Some? && SearchNotes(query, db).Found? ==>
      forall r :: r in SearchNotes(query, db).results && r.matchType == Parent ==>
        r.id !in FtsIds(db.value.ftsHits(FtsQuery(query)))
  {
    if db.Some? && !AllWhitespace(query) && db.value.statementError.None? {
      var store := db.value;
      CollectedOrdering(store.ftsHits(FtsQuery(query)), store.titleMatches(Lower(query)), Lower(query), store.failsAfter);
    }
  }

  /** The ordering facts for the collected rows of one merge, however many of them are yielded. */
  lemma CollectedOrdering(hits: seq<FtsHit>, parents: seq<Columns>, queryLower: string, failsAfter: Option<nat>)
    ensures var o := Collect(MapRows(Delivered(Merge(hits, parents), failsAfter), queryLower));
      o.Found? ==>
        && ParentResultsLast(o.results)
        && forall r :: r in o.results && r.matchType == Parent ==> r.id !in FtsIds(hits)
  {
    var rows := Delivered(Merge(hits, parents), failsAfter);
    var os := MapRows(rows, queryLower);
    DeliveredOrdering(hits, parents, failsAfter);
    CollectResults(os);
    MapRowsParentsLast(rows, queryLower);
    MappedParentsLast(os);
    MappedParentsExcluded(rows, queryLower, FtsIds(hits));
  }

  /** A parent match among the mapped results comes from a priority 2 row, so it keeps that row's id. */
  lemma MappedParentsExcluded(rows: seq<Row>, queryLower: string, ids: set<string>)
    requires forall row :: row in rows && row.priority == 2 ==> row.note.id !in ids
    ensures forall r :: r in MappedResults(MapRows(rows, queryLower)) && r.matchType == Parent ==> r.id !in ids
  {
    var os := MapRows(rows, queryLower);
    MappedResultsFromRows(os);
    forall r | r in MappedResults(os) && r.matchType == Parent
      ensures r.id !in ids
    {
      var k :| 0 <= k < |os| && os[k] == Mapped(r);
      assert rows[k] in rows;
    }
  }

  /** The rows yielded before a failing step keep the merge's ordering and exclusion. */
  lemma DeliveredOrdering(hits: seq<FtsHit>, parents: seq<Columns>, failsAfter: Option<nat>)
    ensures ParentsLast(Delivered(Merge(hits, parents), failsAfter))
    ensures forall row :: row in Delivered(Merge(hits, parents), failsAfter) && row.priority == 2 ==>
      row.note.id !in FtsIds(hits)
  {
    var merged := Merge(hits, parents);
    var rows := Delivered(merged, failsAfter);
    MergeParentsLast(hits, parents);
    assert forall i :: 0 <= i < |rows| ==> rows[i] == merged[i];
    assert forall row :: row in rows ==> row in merged;
  }

  /** The match types the search reports for three typical notes. */
  lemma ClassifyExamples()
    ensures Classify(1, "Rust Notes", "rust") == Title
    ensures Classify(1, "Groceries", "rust") == Content
    ensures Classify(2, "Rust Notes", "rust") == Parent
  {
    assert Lower("Rust Notes")[..4] == "rust";
    assert OccursAt(Lower("Rust Notes"), "rust", 0);
    var g := Lower("Groceries");
    assert g == "groceries";
    forall i ensures !OccursAt(g, "rust", i) {
      if 0 <= i && i + 4 <= |g| {
        assert g[i..i + 4][0] == g[i];
        assert g[i..i + 4][1] == g[i + 1];
      }
    }
  }

  /**
   The query the window sends for two words, the second one quoted and the
   whole surrounded by stray spaces: `" a  \"b\" "` becomes `"a* b*"`.
   */
  lemma TwoWordQuery(a: string, b: string)
    requires |a| > 0 && NoWhitespace(a) && '"' !in a
    requires |b| > 0 && NoWhitespace(b) && '"' !in b
    ensures FtsQuery(" " + a + "  \"" + b + "\" ") == a + "* " + b + "*"
  {
    var quoted := "\"" + b + "\"";
    TwoWordSplit(a, b);
    assert " " + a + "  \"" + b + "\" " == " " + a + "  " + quoted + " ";
    TwoWordTerms(a, b);
  }

  lemma TwoWordSplit(a: string, b: string)
    requires |a| > 0 && NoWhitespace(a)
    requires NoWhitespace(b)
    ensures SplitWhitespace(" " + a + "  " + ("\"" + b + "\"") + " ") == [a, "\"" + b + "\""]
  {
    var quoted := "\"" + b + "\"";
    assert NoWhitespace(quoted) by {
      assert forall i :: 1 <= i < |quoted| - 1 ==> quoted[i] == b[i - 1];
    }
    assert " " + a + "  " + quoted + " " == " " + (a + ("  " + (quoted + " ")));
    SplitSkipsWhitespace(" ", a + ("  " + (quoted + " ")));
    SplitTakesWord(a, "  " + (quoted + " "));
    SplitSkipsWhitespace("  ", quoted + " ");
    SplitTakesWord(quoted, " ");
    SplitWhitespaceEmptyIff(" ");
  }

  lemma TwoWordTerms(a: string, b: string)
    requires '"' !in a && '"' !in b
    ensures Join(PrefixTerms([a, "\"" + b + "\""]), " ") == a + "* " + b + "*"
  {
    DropCharAbsent(a, '"');
    Unquote(b);
    assert PrefixTerms([a, "\"" + b + "\""]) == [a + "*", b + "*"];
  }

  /** Removing the quotes around a quote-free word leaves the word. */
  lemma Unquote(b: string)
    requires '"' !in b
    ensures DropChar("\"" + b + "\"", '"') == b
  {
    DropCharAppend("\"" + b, "\"", '"');
    DropCharAppend("\"", b, '"');
    DropCharAbsent(b, '"');
    assert DropChar("\"", '"') == [];
  }
}
