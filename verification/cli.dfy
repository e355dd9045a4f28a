/**
 The command-line front end's lookup and listing logic: the full-text
 search with its `LIKE` fallback, the breadcrumb path of an item, byte
 truncation of previews, disambiguation among notes with the same title,
 the indented tree of all items and the note list.

 SQLite is abstract: each query is an input (a list of items, or the
 `Result` of running it), and the items table for the breadcrumb walk is a
 map from id to (title, parent id).
 */
module Cli {
  import opened Wrappers
  import opened Text
  import Html

  /** A row of the `items` table; a NULL content reads as the empty string. */
  datatype Note = Note(id: string, title: string, content: string, itemType: string, parentId: Option<string>)

  // ---------------------------------------------------------------------
  // search_notes
  // ---------------------------------------------------------------------

  /**
   The search: a full-text result that succeeded with at least one note is
   the answer, in its own order; a failed or empty full-text search falls
   back to the `LIKE` search, whose outcome (an error included) is then the
   answer.
   */
  function SearchNotes(fts: Result<seq<Note>>, like: Result<seq<Note>>): (r: Result<seq<Note>>)
    ensures r == fts || r == like
    ensures r != like ==> r == fts && fts.Ok? && |fts.value| > 0
    ensures r.Err? ==> r == like
    ensures r.Ok? && |r.value| == 0 ==> like == r
    ensures fts.Ok? && |fts.value| > 0 ==> r == fts
  {
    match fts
    case Ok(notes) => if |notes| > 0 then fts else like
    case Err(_) => like
  }

  /** The `LIKE` tier only matters when the full-text tier found nothing. */
  lemma SearchFallsBack(fts: Result<seq<Note>>, like1: Result<seq<Note>>, like2: Result<seq<Note>>)
    ensures SearchNotes(fts, like1) != SearchNotes(fts, like2) ==> !(fts.Ok? && |fts.value| > 0) && like1 != like2
  {
  }

  // ---------------------------------------------------------------------
  // get_item_path
  // ---------------------------------------------------------------------

  /** The items table as the breadcrumb walk sees it: id to (title, parent id). */
  type Table = map<string, (string, Option<string>)>

  /** The walk stops at a NULL parent or at an id with no row. */
  predicate Stopped(table: Table, cur: Option<string>) {
    cur.None? || cur.value !in table
  }

  /** Where the walk is after `k` more steps; it stays put once stopped. */
  function Follow(table: Table, cur: Option<string>, k: nat): Option<string>
    decreases k
  {
    if k == 0 || Stopped(table, cur) then cur
    else Follow(table, table[cur.value].1, k - 1)
  }

  /** The titles pushed during the first `k` steps of the walk. */
  function Trace(table: Table, cur: Option<string>, k: nat): seq<string>
    decreases k
  {
    if k == 0 || Stopped(table, cur) then []
    else [table[cur.value].0] + Trace(table, table[cur.value].1, k - 1)
  }

  /**
   The walk with the ids already visited: `None` when it comes back to a
   visited id, where the source's loop runs forever; otherwise the titles
   from `cur` up to where it stops.
   */
  function Walk(table: Table, cur: Option<string>, visited: set<string>): (r: Option<seq<string>>)
    ensures r.Some? ==> |r.value| <= |table.Keys - visited|
    decreases table.Keys - visited
  {
    if Stopped(table, cur) then Some([])
    else if cur.value in visited then None
    else
      var x := cur.value;
      assert table.Keys - (visited + {x}) == (table.Keys - visited) - {x};
      match Walk(table, table[x].1, visited + {x})
      case None => None
      case Some(titles) => Some([table[x].0] + titles)
  }

  /**
   `get_item_path`: the titles from the item up to its root, root first,
   joined by ` / `; `None` where the source never returns because the
   parent links form a cycle.
   */
  function ItemPath(table: Table, id: string): (r: Option<string>)
    ensures id !in table ==> r == Some("")
  {
    match Walk(table, Some(id), {})
    case None => None
    case Some(titles) => Some(Join(Reverse(titles), " / "))
  }

  function Reverse<T>(s: seq<T>): (r: seq<T>)
    ensures |r| == |s|
    ensures forall i :: 0 <= i < |s| ==> r[i] == s[|s| - 1 - i]
  {
    if |s| == 0 then [] else Reverse(s[1..]) + [s[0]]
  }

  lemma {:induction false} FollowAdd(table: Table, cur: Option<string>, a: nat, b: nat)
    ensures Follow(table, cur, a + b) == Follow(table, Follow(table, cur, a), b)
    decreases a
  {
    if a > 0 && !Stopped(table, cur) {
      FollowAdd(table, table[cur.value].1, a - 1, b);
    } else if a > 0 {
      StoppedStays(table, cur, b);
      StoppedStays(table, cur, a + b);
    }
  }

  lemma StoppedStays(table: Table, cur: Option<string>, k: nat)
    requires Stopped(table, cur)
    ensures Follow(table, cur, k) == cur
  {
  }

  /** Once stopped, the walk never moves again. */
  lemma StoppedAbsorbs(table: Table, cur: Option<string>, n: nat, m: nat)
    requires n <= m && Stopped(table, Follow(table, cur, n))
    ensures Follow(table, cur, m) == Follow(table, cur, n)
  {
    FollowAdd(table, cur, n, m - n);
    StoppedStays(table, Follow(table, cur, n), m - n);
  }

  /** A walk that returns to where it started never stops. */
  lemma {:induction false} CycleNeverStops(table: Table, cur: Option<string>, k: nat, n: nat)
    requires k >= 1 && !Stopped(table, cur) && Follow(table, cur, k) == cur
    ensures !Stopped(table, Follow(table, cur, n))
    decreases n
  {
    if n < k {
      if Stopped(table, Follow(table, cur, n)) {
        StoppedAbsorbs(table, cur, n, k);
      }
    } else {
      FollowAdd(table, cur, k, n - k);
      CycleNeverStops(table, cur, k, n - k);
    }
  }

  /** A walk that returns `Some` stops after as many steps as it has titles, having pushed them. */
  lemma {:induction false} WalkSound(table: Table, cur: Option<string>, visited: set<string>)
    requires Walk(table, cur, visited).Some?
    ensures var titles := Walk(table, cur, visited).value;
      Stopped(table, Follow(table, cur, |titles|)) && Trace(table, cur, |titles|) == titles
    decreases table.Keys - visited
  {
    if !Stopped(table, cur) {
      WalkSound(table, table[cur.value].1, visited + {cur.value});
    }
  }

  /** From `v` the walk reaches `target` after one step or more. */
  ghost predicate Leads(table: Table, v: string, target: Option<string>) {
    exists k :: k >= 1 && Follow(table, Some(v), k) == target
  }

  /**
   A walk that returns `None` never stops, provided every visited id leads
   to the current one.
   */
  lemma {:induction false} WalkNoneLoops(table: Table, cur: Option<string>, visited: set<string>, n: nat)
    requires Walk(table, cur, visited).None?
    requires forall v :: v in visited ==> Leads(table, v, cur)
    ensures !Stopped(table, Follow(table, cur, n))
    decreases table.Keys - visited
  {
    if cur.value in visited {
      assert Leads(table, cur.value, cur);
      var k :| k >= 1 && Follow(table, Some(cur.value), k) == cur;
      CycleNeverStops(table, cur, k, n);
    } else if n > 0 {
      var next := table[cur.value].1;
      var visited' := visited + {cur.value};
      assert Walk(table, next, visited').None?;
      forall v | v in visited'
        ensures Leads(table, v, next)
      {
        if v == cur.value {
          assert Follow(table, Some(v), 1) == next;
        } else {
          assert Leads(table, v, cur);
          var k :| k >= 1 && Follow(table, Some(v), k) == cur;
          FollowAdd(table, Some(v), k, 1);
          assert Follow(table, Some(v), k + 1) == next;
        }
      }
      WalkNoneLoops(table, next, visited', n - 1);
    }
  }

  /** The source's loop stops within `n` steps. */
  ghost predicate StopsWithin(table: Table, id: string, n: nat) {
    Stopped(table, Follow(table, Some(id), n))
  }

  /**
   The breadcrumb is defined exactly when the source's loop stops, and then
   it is the pushed titles reversed and joined by ` / `.
   */
  lemma ItemPathMatchesLoop(table: Table, id: string)
    ensures ItemPath(table, id).Some? <==> exists n :: StopsWithin(table, id, n)
    ensures ItemPath(table, id).Some? ==> exists n ::
      && StopsWithin(table, id, n)
      && ItemPath(table, id).value == Join(Reverse(Trace(table, Some(id), n)), " / ")
  {
    var w := Walk(table, Some(id), {});
    if w.Some? {
      WalkSound(table, Some(id), {});
      var n := |w.value|;
      assert StopsWithin(table, id, n);
      assert ItemPath(table, id) == Some(Join(Reverse(w.value), " / "));
      assert ItemPath(table, id).value == Join(Reverse(Trace(table, Some(id), n)), " / ");
    } else {
      assert ItemPath(table, id).None?;
      forall n: nat
        ensures !StopsWithin(table, id, n)
      {
        WalkNoneLoops(table, Some(id), {}, n);
      }
    }
  }

  /** A three-level breadcrumb: book, section, note. */
  lemma ItemPathExample(b: string, s: string, n: string, tb: string, ts: string, tn: string)
    requires b != s && s != n && b != n
    ensures ItemPath(map[b := (tb, None), s := (ts, Some(b)), n := (tn, Some(s))], n)
      == Some(tb + " / " + ts + " / " + tn)
  {
    var table := map[b := (tb, None), s := (ts, Some(b)), n := (tn, Some(s))];
    ExampleWalk(b, s, n, tb, ts, tn);
    assert Reverse([tn, ts, tb]) == [tb, ts, tn];
    assert [tb, ts, tn][1..] == [ts, tn] && [ts, tn][1..] == [tn];
    assert Join([tn], " / ") == tn;
    assert Join([ts, tn], " / ") == ts + " / " + tn;
    assert Join([tb, ts, tn], " / ") == tb + " / " + (ts + " / " + tn);
    assert tb + " / " + (ts + " / " + tn) == tb + " / " + ts + " / " + tn;
  }

  /** The walk of the three-level example pushes the note, section and book titles. */
  lemma ExampleWalk(b: string, s: string, n: string, tb: string, ts: string, tn: string)
    requires b != s && s != n && b != n
    ensures Walk(map[b := (tb, None), s := (ts, Some(b)), n := (tn, Some(s))], Some(n), {}) == Some([tn, ts, tb])
  {
    var table := map[b := (tb, None), s := (ts, Some(b)), n := (tn, Some(s))];
    var v1: set<string> := {} + {n};
    ExampleWalkSection(table, b, s, v1);
    assert Walk(table, table[n].1, {} + {n}) == Some([ts, tb]);
    assert [table[n].0] + [ts, tb] == [tn, ts, tb];
  }

  /** An item under a root item pushes its title, then the root's. */
  lemma ExampleWalkSection(table: Table, b: string, s: string, visited: set<string>)
    requires b in table && table[b].1 == None && b !in visited + {s}
    requires s in table && table[s].1 == Some(b) && s !in visited
    ensures Walk(table, Some(s), visited) == Some([table[s].0, table[b].0])
  {
    ExampleWalkBook(table, b, visited + {s});
    assert [table[s].0] + [table[b].0] == [table[s].0, table[b].0];
  }

  /** A root item pushes its own title and stops. */
  lemma ExampleWalkBook(table: Table, b: string, visited: set<string>)
    requires b in table && table[b].1 == None && b !in visited
    ensures Walk(table, Some(b), visited) == Some([table[b].0])
  {
    assert Walk(table, table[b].1, visited + {b}) == Some([]);
    assert [table[b].0] + [] == [table[b].0];
  }

  /** An item that is its own parent makes the breadcrumb loop forever. */
  lemma ItemPathSelfParent(title: string)
    ensures ItemPath(map["x" := (title, Some("x"))], "x") == None
  {
    var table := map["x" := (title, Some("x"))];
    assert table["x"].1 == Some("x");
    var v: set<string> := {} + {"x"};
    assert Walk(table, Some("x"), v) == None;
  }

  // ---------------------------------------------------------------------
  // truncate
  // ---------------------------------------------------------------------

  function SatSub(a: nat, b: nat): nat {
    if a >= b then a - b else 0
  }

  /**
   `truncate`: text of at most `maxLen` bytes is returned unchanged;
   longer text is cut to its first `maxLen - 3` bytes (saturating at 0)
   followed by `...`, so the result is `max(maxLen, 3)` bytes long. A cut
   inside a character is a panic, `None`.
   */
  function Truncate(s: string, maxLen: nat): (r: Option<string>)
    ensures ByteLength(s) <= maxLen ==> r == Some(s)
    ensures ByteLength(s) > maxLen ==> (r.None? <==> !IsCharBoundary(s, SatSub(maxLen, 3)))
    ensures ByteLength(s) > maxLen && r.Some? ==>
      && |r.value| >= 3
      && EndsWith(r.value, "...")
      && IsPrefix(r.value[..|r.value| - 3], s)
      && ByteLength(r.value) == if maxLen >= 3 then maxLen else 3
  {
    if ByteLength(s) <= maxLen then Some(s)
    else
      match BytePrefix(s, SatSub(maxLen, 3))
      case None => None
      case Some(head) =>
        var r := head + "...";
        assert r[..|r| - 3] == head;
        ByteLengthAppend(head, "...");
        Some(r)
  }

  /** On ASCII text bytes are characters: a long text keeps its first `maxLen - 3` characters. */
  lemma TruncateAscii(s: string, maxLen: nat)
    requires IsAscii(s)
    ensures Truncate(s, maxLen) == Some(if |s| <= maxLen then s else s[..SatSub(maxLen, 3)] + "...")
  {
    AsciiByteLength(s);
    if |s| > maxLen {
      AsciiBytePrefix(s, SatSub(maxLen, 3));
    }
  }

  /** Below three bytes the cut saturates at zero, leaving only `...`, which can be longer than the text. */
  lemma TruncateTiny(s: string, maxLen: nat)
    requires maxLen < 3 && ByteLength(s) > maxLen
    ensures Truncate(s, maxLen) == Some("...")
  {
    assert SatSub(maxLen, 3) == 0;
    assert BytePrefix(s, 0) == Some([]);
    assert [] + "..." == "...";
  }

  /** Truncating never leaves more than `max(maxLen, 3)` bytes. */
  lemma TruncateBound(s: string, maxLen: nat)
    requires Truncate(s, maxLen).Some?
    ensures ByteLength(Truncate(s, maxLen).value) <= if maxLen >= 3 then maxLen else 3
  {
  }

  // ---------------------------------------------------------------------
  // select_note
  // ---------------------------------------------------------------------

  /** One line of the listing: 1-based number, title and id. */
  datatype Candidate = Candidate(number: nat, title: string, id: string)

  /**
   What `select_note` does: nothing to choose from; a chosen note; an
   "Invalid number" error naming the number and the count; or the listing
   of all candidates, asking for `--number`.
   */
  datatype Selection =
    | NoCandidates
    | Selected(note: Note)
    | InvalidNumber(n: nat, count: nat)
    | Listed(candidates: seq<Candidate>)

  /** `select_note`'s return value. */
  function Chosen(s: Selection): Option<Note> {
    if s.Selected? then Some(s.note) else None
  }

  /**
   `select_note`: a single candidate is chosen whatever the number; with
   several, a number from 1 to the count picks that one; any other number
   is an error, and no number lists the candidates.
   */
  function SelectNote(notes: seq<Note>, number: Option<nat>): (s: Selection)
    ensures s.NoCandidates? <==> |notes| == 0
    ensures |notes| == 1 ==> s == Selected(notes[0])
    ensures s.Selected? ==> s.note in notes
    ensures |notes| >= 2 && number.Some? && 1 <= number.value <= |notes| ==> s == Selected(notes[number.value - 1])
    ensures s.InvalidNumber? <==> |notes| >= 2 && number.Some? && !(1 <= number.value <= |notes|)
    ensures s.InvalidNumber? ==> s == InvalidNumber(number.value, |notes|)
    ensures s.Listed? <==> |notes| >= 2 && number.None?
    ensures s.Listed? ==> |s.candidates| == |notes| && forall i :: 0 <= i < |notes| ==>
      s.candidates[i] == Candidate(i + 1, notes[i].title, notes[i].id)
  {
    if |notes| == 0 then NoCandidates
    else if |notes| == 1 then Selected(notes[0])
    else match number
      case Some(n) =>
        if 0 < n <= |notes| then Selected(notes[n - 1]) else InvalidNumber(n, |notes|)
      case None =>
        Listed(seq(|notes|, i requires 0 <= i < |notes| => Candidate(i + 1, notes[i].title, notes[i].id)))
  }

  /**
   A note is returned exactly when there is one candidate, or several and
   an in-range number; an out-of-range number is ignored for a single
   candidate.
   */
  lemma SelectNoteChoice(notes: seq<Note>, number: Option<nat>)
    ensures Chosen(SelectNote(notes, number)).Some? <==>
      |notes| == 1 || (|notes| >= 2 && number.Some? && 1 <= number.value <= |notes|)
    ensures |notes| == 1 ==> Chosen(SelectNote(notes, Some(0))) == Some(notes[0])
  {
  }

  // ---------------------------------------------------------------------
  // print_tree
  // ---------------------------------------------------------------------

  /** One printed line of the tree: the item at `index`, indented `depth` levels. */
  datatype Entry = Entry(depth: nat, index: nat)

  /** The icon for an item type; unknown types get a bullet. */
  function Icon(itemType: string): string {
    match itemType
    case "book" => "\U{1F4DA}"
    case "section" => "\U{1F4C1}"
    case "note" => "\U{1F4DD}"
    case _ => "\U{2022}"
  }

  /** `str::repeat`. */
  function Repeat(s: string, n: nat): (r: string)
    ensures |r| == n * |s|
    ensures forall j :: 0 <= j < |r| ==> r[j] in s
  {
    if n == 0 then [] else s + Repeat(s, n - 1)
  }

  /** The printed text of an entry: two spaces per level, the icon, a space and the title. */
  function Render(notes: seq<Note>, e: Entry): string
    requires e.index < |notes|
  {
    Repeat("  ", e.depth) + Icon(notes[e.index].itemType) + " " + notes[e.index].title
  }

  /**
   A line's indentation is exactly two spaces per level, because no icon
   starts with a space, and the title follows the icon after one space.
   */
  lemma RenderIndent(notes: seq<Note>, e: Entry)
    requires e.index < |notes|
    ensures var line := Render(notes, e);
      && 2 * e.depth < |line|
      && (forall j :: 0 <= j < 2 * e.depth ==> line[j] == ' ')
      && line[2 * e.depth] != ' '
      && EndsWith(line, " " + notes[e.index].title)
  {
    var indent := Repeat("  ", e.depth);
    var icon := Icon(notes[e.index].itemType);
    var title := notes[e.index].title;
    assert |icon| > 0 && icon[0] != ' ';
    var line := indent + icon + " " + title;
    assert line == indent + (icon + (" " + title));
    assert line[|indent|] == icon[0];
    assert line[|line| - |" " + title|..] == " " + title;
  }

  /** The printed lines of `print_tree`, or `None` where it recurses forever. */
  function TreeLines(notes: seq<Note>): (lines: Option<seq<string>>)
    ensures lines.Some? <==> Tree(notes).Some?
    ensures lines.Some? ==> |lines.value| == |Tree(notes).value|
    ensures lines.Some? ==> forall k :: 0 <= k < |lines.value| ==>
      Tree(notes).value[k].index < |notes| && lines.value[k] == Render(notes, Tree(notes).value[k])
  {
    match Tree(notes)
    case None => None
    case Some(es) =>
      Some(seq(|es|, k requires 0 <= k < |es| => Render(notes, es[k])))
  }

  function Ids(notes: seq<Note>): set<string> {
    set i | 0 <= i < |notes| :: notes[i].id
  }

  /**
   The loop of `print_tree(notes, parent, depth)` from position `i` on,
   with the ids whose calls are on the stack: every item whose parent is
   `parent` is printed and then its children one level deeper. `None`
   where the source recurses forever, because an item's own call is already
   on the stack.
   */
  function Level(notes: seq<Note>, parent: Option<string>, depth: nat, onPath: set<string>, i: nat)
    : (r: Option<seq<Entry>>)
    requires i <= |notes|
    ensures r.Some? ==> forall e :: e in r.value ==> i <= e.index < |notes| || e.depth > depth
    ensures r.Some? ==> forall e :: e in r.value ==> e.index < |notes| && e.depth >= depth
    decreases Ids(notes) - onPath, |notes| - i
  {
    if i == |notes| then Some([])
    else if notes[i].parentId != parent then Level(notes, parent, depth, onPath, i + 1)
    else if notes[i].id in onPath then None
    else
      var x := notes[i].id;
      assert x in Ids(notes);
      match Level(notes, Some(x), depth + 1, onPath + {x}, 0)
      case None => None
      case Some(children) =>
        match Level(notes, parent, depth, onPath, i + 1)
        case None => None
        case Some(rest) => Some([Entry(depth, i)] + children + rest)
  }

  /** `print_tree(&notes, None, 0)`. */
  function Tree(notes: seq<Note>): Option<seq<Entry>> {
    Level(notes, None, 0, {}, 0)
  }

  /** The item indices of the entries at depth `d`, in order. */
  function AtDepth(es: seq<Entry>, d: nat): seq<nat> {
    if |es| == 0 then []
    else (if es[0].depth == d then [es[0].index] else []) + AtDepth(es[1..], d)
  }

  /** The indices from `i` on of the items whose parent is `parent`, in order. */
  function Matching(notes: seq<Note>, parent: Option<string>, i: nat): seq<nat>
    requires i <= |notes|
    decreases |notes| - i
  {
    if i == |notes| then []
    else (if notes[i].parentId == parent then [i] else []) + Matching(notes, parent, i + 1)
  }

  lemma {:induction false} AtDepthAppend(a: seq<Entry>, b: seq<Entry>, d: nat)
    ensures AtDepth(a + b, d) == AtDepth(a, d) + AtDepth(b, d)
    decreases |a|
  {
    if |a| == 0 {
      assert a + b == b;
    } else {
      var ab := a + b;
      assert ab[0] == a[0];
      assert ab[1..] == a[1..] + b;
      AtDepthAppend(a[1..], b, d);
      assert AtDepth(ab, d) == (if a[0].depth == d then [a[0].index] else []) + AtDepth(a[1..] + b, d);
    }
  }

  lemma {:induction false} AtDepthDeeper(es: seq<Entry>, d: nat)
    requires forall e :: e in es ==> e.depth > d
    ensures AtDepth(es, d) == []
    decreases |es|
  {
    if |es| > 0 {
      assert es[0] in es;
      assert forall e :: e in es[1..] ==> e in es;
      AtDepthDeeper(es[1..], d);
    }
  }

  /** The entries at the loop's own depth are exactly the matching items, in input order. */
  lemma {:induction false} LevelSiblings(notes: seq<Note>, parent: Option<string>, depth: nat, onPath: set<string>, i: nat)
    requires i <= |notes|
    requires Level(notes, parent, depth, onPath, i).Some?
    ensures AtDepth(Level(notes, parent, depth, onPath, i).value, depth) == Matching(notes, parent, i)
    decreases |notes| - i
  {
    if i < |notes| {
      LevelSiblings(notes, parent, depth, onPath, i + 1);
      if notes[i].parentId == parent {
        var x := notes[i].id;
        var children := Level(notes, Some(x), depth + 1, onPath + {x}, 0).value;
        var rest := Level(notes, parent, depth, onPath, i + 1).value;
        AtDepthAppend([Entry(depth, i)] + children, rest, depth);
        AtDepthAppend([Entry(depth, i)], children, depth);
        AtDepthDeeper(children, depth);
        assert AtDepth([Entry(depth, i)], depth) == [i];
      }
    }
  }

  /**
   Entry `k` sits directly under an earlier entry one level up, the nearest
   one (every entry between them is deeper than it), and that entry's item
   is its parent.
   */
  ghost predicate HasParentEntry(notes: seq<Note>, es: seq<Entry>, k: int)
    requires 0 <= k < |es|
  {
    exists j :: 0 <= j < k && es[j].depth + 1 == es[k].depth && es[j].index < |notes| && es[k].index < |notes|
      && notes[es[k].index].parentId == Some(notes[es[j].index].id)
      && (forall m :: j < m < k ==> es[m].depth > es[j].depth)
  }

  /**
   Entry `k` is well placed for a loop at `depth` over the children of
   `parent`: at that depth it is one of those children, deeper it is printed
   under its parent's entry.
   */
  ghost predicate EntryPlaced(notes: seq<Note>, es: seq<Entry>, k: int, parent: Option<string>, depth: nat)
    requires 0 <= k < |es|
  {
    && (es[k].depth == depth ==> es[k].index < |notes| && notes[es[k].index].parentId == parent)
    && (es[k].depth > depth ==> HasParentEntry(notes, es, k))
  }

  ghost predicate Placed(notes: seq<Note>, es: seq<Entry>, parent: Option<string>, depth: nat) {
    forall k :: 0 <= k < |es| ==> EntryPlaced(notes, es, k, parent, depth)
  }

  /**
   Every entry at the loop's depth is an item whose parent is `parent`, and
   every deeper entry is printed under its parent's entry.
   */
  lemma {:induction false} LevelLinked(notes: seq<Note>, parent: Option<string>, depth: nat, onPath: set<string>, i: nat)
    requires i <= |notes|
    requires Level(notes, parent, depth, onPath, i).Some?
    ensures Placed(notes, Level(notes, parent, depth, onPath, i).value, parent, depth)
    decreases Ids(notes) - onPath, |notes| - i
  {
    if i < |notes| {
      if notes[i].parentId != parent {
        LevelLinked(notes, parent, depth, onPath, i + 1);
      } else {
        var x := notes[i].id;
        assert x in Ids(notes);
        var children := Level(notes, Some(x), depth + 1, onPath + {x}, 0).value;
        var rest := Level(notes, parent, depth, onPath, i + 1).value;
        LevelLinked(notes, Some(x), depth + 1, onPath + {x}, 0);
        LevelLinked(notes, parent, depth, onPath, i + 1);
        assert forall c :: 0 <= c < |children| ==> children[c] in children;
        PlacedJoin(notes, parent, depth, i, children, rest);
      }
    }
  }

  /** An item's entry, its children's entries and the later siblings' entries stay well placed together. */
  lemma PlacedJoin(notes: seq<Note>, parent: Option<string>, depth: nat, i: nat, children: seq<Entry>, rest: seq<Entry>)
    requires i < |notes| && notes[i].parentId == parent
    requires forall c :: 0 <= c < |children| ==> children[c].depth >= depth + 1
    requires Placed(notes, children, Some(notes[i].id), depth + 1)
    requires Placed(notes, rest, parent, depth)
    ensures Placed(notes, [Entry(depth, i)] + children + rest, parent, depth)
  {
    var es := [Entry(depth, i)] + children + rest;
    assert forall c :: 0 <= c < |children| ==> es[c + 1] == children[c];
    assert es[1 + |children|..] == rest;
    forall k | 0 <= k < |es|
      ensures EntryPlaced(notes, es, k, parent, depth)
    {
      if 1 <= k < 1 + |children| {
        ChildLinked(notes, es, children, k, i, depth);
      } else if k >= 1 + |children| {
        assert EntryPlaced(notes, rest, k - 1 - |children|, parent, depth);
        RestLinked(notes, es, rest, k, 1 + |children|, parent, depth);
      }
    }
  }

  lemma ChildLinked(notes: seq<Note>, es: seq<Entry>, children: seq<Entry>, k: int, i: nat, depth: nat)
    requires i < |notes| && 1 <= k < 1 + |children| && 1 + |children| <= |es|
    requires es[0] == Entry(depth, i)
    requires forall c :: 0 <= c < |children| ==> es[c + 1] == children[c] && children[c].depth >= depth + 1
    requires Placed(notes, children, Some(notes[i].id), depth + 1)
    ensures es[k].depth > depth && HasParentEntry(notes, es, k)
  {
    var c := k - 1;
    assert es[k] == children[c];
    assert EntryPlaced(notes, children, c, Some(notes[i].id), depth + 1);
    if children[c].depth > depth + 1 {
      var j :| 0 <= j < c && children[j].depth + 1 == children[c].depth && children[j].index < |notes|
        && children[c].index < |notes| && notes[children[c].index].parentId == Some(notes[children[j].index].id)
        && (forall m :: j < m < c ==> children[m].depth > children[j].depth);
      assert es[j + 1] == children[j];
      assert forall m :: j + 1 < m < k ==> es[m] == children[m - 1];
    } else {
      assert forall m :: 0 < m < k ==> es[m] == children[m - 1];
    }
  }

  lemma RestLinked(notes: seq<Note>, es: seq<Entry>, rest: seq<Entry>, k: int, off: nat, parent: Option<string>, depth: nat)
    requires off <= k < |es| && es[off..] == rest
    requires EntryPlaced(notes, rest, k - off, parent, depth)
    ensures EntryPlaced(notes, es, k, parent, depth)
  {
    assert es[k] == rest[k - off];
    if es[k].depth > depth {
      assert HasParentEntry(notes, rest, k - off);
      var j :| 0 <= j < k - off && rest[j].depth + 1 == rest[k - off].depth && rest[j].index < |notes|
        && rest[k - off].index < |notes| && notes[rest[k - off].index].parentId == Some(notes[rest[j].index].id)
        && (forall m :: j < m < k - off ==> rest[m].depth > rest[j].depth);
      assert es[j + off] == rest[j];
      assert forall m :: j + off < m < k ==> es[m] == rest[m - off];
    }
  }

  /** Length of the longest prefix of `s` whose entries are all deeper than `d`. */
  function DeeperRun(s: seq<Entry>, d: nat): (n: nat)
    ensures n <= |s|
    ensures forall m :: 0 <= m < n ==> s[m].depth > d
    ensures n == |s| || s[n].depth <= d
  {
    if |s| == 0 || s[0].depth <= d then 0
    else
      var n := 1 + DeeperRun(s[1..], d);
      assert forall m :: 1 <= m < n ==> s[m] == s[1..][m - 1];
      n
  }

  /** The entries printed under entry `k`: those after it up to the next one no deeper. */
  function Block(es: seq<Entry>, k: int): seq<Entry>
    requires 0 <= k < |es|
  {
    var after := es[k + 1..];
    after[..DeeperRun(after, es[k].depth)]
  }

  /** Directly under entry `k`, one level deeper, come exactly its item's children, in input order. */
  ghost predicate ChildrenListed(notes: seq<Note>, es: seq<Entry>, k: int)
    requires 0 <= k < |es|
  {
    es[k].index < |notes| ==>
      AtDepth(Block(es, k), es[k].depth + 1) == Matching(notes, Some(notes[es[k].index].id), 0)
  }

  ghost predicate PreOrder(notes: seq<Note>, es: seq<Entry>) {
    forall k :: 0 <= k < |es| ==> ChildrenListed(notes, es, k)
  }

  /** An entry no deeper than `d` ends the run, wherever the run started. */
  lemma {:induction false} DeeperRunAppend(a: seq<Entry>, b: seq<Entry>, d: nat)
    requires |b| == 0 || b[0].depth <= d
    ensures DeeperRun(a + b, d) == DeeperRun(a, d)
    decreases |a|
  {
    if |a| == 0 {
      assert a + b == b;
    } else {
      assert (a + b)[0] == a[0];
      assert (a + b)[1..] == a[1..] + b;
      DeeperRunAppend(a[1..], b, d);
    }
  }

  /** A loop's first entry, if any, is at the loop's own depth. */
  lemma {:induction false} LevelHead(notes: seq<Note>, parent: Option<string>, depth: nat, onPath: set<string>, i: nat)
    requires i <= |notes|
    requires Level(notes, parent, depth, onPath, i).Some?
    ensures var es := Level(notes, parent, depth, onPath, i).value;
      |es| == 0 || es[0].depth == depth
    decreases |notes| - i
  {
    if i < |notes| && notes[i].parentId != parent {
      LevelHead(notes, parent, depth, onPath, i + 1);
    }
  }

  /**
   Under every entry of a loop's output come exactly its item's children,
   in input order: the output is the pre-order walk of the tree.
   */
  lemma {:induction false} LevelListed(notes: seq<Note>, parent: Option<string>, depth: nat, onPath: set<string>, i: nat)
    requires i <= |notes|
    requires Level(notes, parent, depth, onPath, i).Some?
    ensures PreOrder(notes, Level(notes, parent, depth, onPath, i).value)
    decreases Ids(notes) - onPath, |notes| - i
  {
    if i < |notes| {
      if notes[i].parentId != parent {
        LevelListed(notes, parent, depth, onPath, i + 1);
      } else {
        var x := notes[i].id;
        assert x in Ids(notes);
        var children := Level(notes, Some(x), depth + 1, onPath + {x}, 0).value;
        var rest := Level(notes, parent, depth, onPath, i + 1).value;
        LevelListed(notes, Some(x), depth + 1, onPath + {x}, 0);
        LevelListed(notes, parent, depth, onPath, i + 1);
        LevelSiblings(notes, Some(x), depth + 1, onPath + {x}, 0);
        LevelHead(notes, parent, depth, onPath, i + 1);
        assert forall c :: 0 <= c < |children| ==> children[c] in children;
        ListedJoin(notes, depth, i, children, rest);
      }
    }
  }

  /** An item's entry, its children's entries and the later siblings' entries stay listed together. */
  lemma {:induction false} ListedJoin(notes: seq<Note>, depth: nat, i: nat, children: seq<Entry>, rest: seq<Entry>)
    requires i < |notes|
    requires forall c :: 0 <= c < |children| ==> children[c].depth >= depth + 1
    requires AtDepth(children, depth + 1) == Matching(notes, Some(notes[i].id), 0)
    requires PreOrder(notes, children) && PreOrder(notes, rest)
    requires |rest| == 0 || rest[0].depth == depth
    ensures PreOrder(notes, [Entry(depth, i)] + children + rest)
  {
    var es := [Entry(depth, i)] + children + rest;
    forall k | 0 <= k < |es|
      ensures ChildrenListed(notes, es, k)
    {
      ListedAt(notes, depth, i, children, rest, k);
    }
  }

  lemma {:induction false} ListedAt(notes: seq<Note>, depth: nat, i: nat, children: seq<Entry>, rest: seq<Entry>, k: nat)
    requires i < |notes| && k < 1 + |children| + |rest|
    requires forall c :: 0 <= c < |children| ==> children[c].depth >= depth + 1
    requires AtDepth(children, depth + 1) == Matching(notes, Some(notes[i].id), 0)
    requires PreOrder(notes, children) && PreOrder(notes, rest)
    requires |rest| == 0 || rest[0].depth == depth
    ensures ChildrenListed(notes, [Entry(depth, i)] + children + rest, k)
  {
    var es := [Entry(depth, i)] + children + rest;
    if k == 0 {
      HeadBlock(depth, i, children, rest);
    } else if k <= |children| {
      ChildBlock(depth, i, children, rest, k - 1);
      ListedMoves(notes, children, k - 1, es, k);
    } else {
      RestBlock(depth, i, children, rest, k - 1 - |children|);
      ListedMoves(notes, rest, k - 1 - |children|, es, k);
    }
  }

  /** An entry keeps its children listed when it and its block reappear elsewhere. */
  lemma {:induction false} ListedMoves(notes: seq<Note>, a: seq<Entry>, j: nat, b: seq<Entry>, k: nat)
    requires j < |a| && k < |b| && a[j] == b[k] && Block(a, j) == Block(b, k)
    requires PreOrder(notes, a)
    ensures ChildrenListed(notes, b, k)
  {
    assert ChildrenListed(notes, a, j);
  }

  /** The block under an item's entry is its children's entries. */
  lemma {:induction false} HeadBlock(depth: nat, i: nat, children: seq<Entry>, rest: seq<Entry>)
    requires forall c :: 0 <= c < |children| ==> children[c].depth >= depth + 1
    requires |rest| == 0 || rest[0].depth == depth
    ensures Block([Entry(depth, i)] + children + rest, 0) == children
  {
    var es := [Entry(depth, i)] + children + rest;
    assert es[1..] == children + rest;
    DeeperRunAppend(children, rest, depth);
  }

  /** The block under a child's entry lies inside the children's entries. */
  lemma {:induction false} ChildBlock(depth: nat, i: nat, children: seq<Entry>, rest: seq<Entry>, c: nat)
    requires c < |children| && children[c].depth >= depth + 1
    requires |rest| == 0 || rest[0].depth == depth
    ensures var es := [Entry(depth, i)] + children + rest;
      es[c + 1] == children[c] && Block(es, c + 1) == Block(children, c)
  {
    var es := [Entry(depth, i)] + children + rest;
    assert es[c + 2..] == children[c + 1..] + rest;
    DeeperRunAppend(children[c + 1..], rest, children[c].depth);
  }

  /** The block under a later sibling's entry lies inside the siblings' entries. */
  lemma {:induction false} RestBlock(depth: nat, i: nat, children: seq<Entry>, rest: seq<Entry>, r: nat)
    requires r < |rest|
    ensures var es := [Entry(depth, i)] + children + rest;
      es[r + 1 + |children|] == rest[r] && Block(es, r + 1 + |children|) == Block(rest, r)
  {
    var es := [Entry(depth, i)] + children + rest;
    assert es[r + 2 + |children|..] == rest[r + 1..];
  }

  /**
   The tree is printed in pre-order: its top level lists exactly the items
   with no parent, in input order; under each line, one level deeper, come
   exactly that item's children, in input order; and every deeper line
   belongs to the nearest line one level up, which is its parent.
   */
  lemma TreeShape(notes: seq<Note>)
    requires Tree(notes).Some?
    ensures AtDepth(Tree(notes).value, 0) == Matching(notes, None, 0)
    ensures Placed(notes, Tree(notes).value, None, 0)
    ensures PreOrder(notes, Tree(notes).value)
  {
    LevelSiblings(notes, None, 0, {}, 0);
    LevelLinked(notes, None, 0, {}, 0);
    LevelListed(notes, None, 0, {}, 0);
  }

  /** An item whose parent id names no item is never printed. */
  lemma OrphansNotPrinted(notes: seq<Note>, k: nat)
    requires Tree(notes).Some? && k < |Tree(notes).value|
    requires notes[Tree(notes).value[k].index].parentId.Some?
    ensures notes[Tree(notes).value[k].index].parentId.value in Ids(notes)
  {
    TreeShape(notes);
    var es := Tree(notes).value;
    assert EntryPlaced(notes, es, k, None, 0);
    var j :| 0 <= j < k && es[j].depth + 1 == es[k].depth && es[j].index < |notes| && es[k].index < |notes|
      && notes[es[k].index].parentId == Some(notes[es[j].index].id);
  }

  predicate DistinctIds(notes: seq<Note>) {
    forall a, b :: 0 <= a < b < |notes| ==> notes[a].id != notes[b].id
  }

  /**
   The ids whose calls are on the stack, outermost first: a root, then each
   one a child of the one before, no id twice.
   */
  ghost predicate IsChain(notes: seq<Note>, chain: seq<string>, parent: Option<string>) {
    && (parent == if |chain| == 0 then None else Some(chain[|chain| - 1]))
    && (forall a, b :: 0 <= a < b < |chain| ==> chain[a] != chain[b])
    && (forall k :: 0 <= k < |chain| ==> ChainLink(notes, chain, k))
  }

  /** Some item has id `chain[k]` and the previous id (or none, for the first) as its parent. */
  ghost predicate ChainLink(notes: seq<Note>, chain: seq<string>, k: nat)
    requires k < |chain|
  {
    exists n :: 0 <= n < |notes| && notes[n].id == chain[k] && notes[n].parentId == (if k == 0 then None else Some(chain[k - 1]))
  }

  /** The next item on the stack is not already there. */
  lemma ChainFresh(notes: seq<Note>, chain: seq<string>, parent: Option<string>, i: nat)
    requires DistinctIds(notes) && IsChain(notes, chain, parent)
    requires i < |notes| && notes[i].parentId == parent
    ensures notes[i].id !in chain
  {
    forall j | 0 <= j < |chain|
      ensures chain[j] != notes[i].id
    {
      assert ChainLink(notes, chain, j);
      var n :| 0 <= n < |notes| && notes[n].id == chain[j]
        && notes[n].parentId == (if j == 0 then None else Some(chain[j - 1]));
      assert notes[n].parentId != notes[i].parentId;
    }
  }

  /** Pushing an item whose parent is the top of the stack keeps it a chain. */
  lemma ChainExtends(notes: seq<Note>, chain: seq<string>, parent: Option<string>, i: nat)
    requires IsChain(notes, chain, parent)
    requires i < |notes| && notes[i].parentId == parent && notes[i].id !in chain
    ensures IsChain(notes, chain + [notes[i].id], Some(notes[i].id))
  {
    var chain' := chain + [notes[i].id];
    forall k | 0 <= k < |chain'|
      ensures ChainLink(notes, chain', k)
    {
      if k == |chain| {
        assert notes[i].id == chain'[k];
      } else {
        assert ChainLink(notes, chain, k);
        assert chain'[k] == chain[k];
        assert k > 0 ==> chain'[k - 1] == chain[k - 1];
      }
    }
  }

  /** With distinct ids the loop never finds its own call on the stack. */
  lemma {:induction false} LevelTerminates(notes: seq<Note>, parent: Option<string>, depth: nat,
                                           onPath: set<string>, i: nat, chain: seq<string>)
    requires i <= |notes| && DistinctIds(notes)
    requires IsChain(notes, chain, parent)
    requires forall y :: y in onPath <==> y in chain
    ensures Level(notes, parent, depth, onPath, i).Some?
    decreases Ids(notes) - onPath, |notes| - i
  {
    if i < |notes| {
      LevelTerminates(notes, parent, depth, onPath, i + 1, chain);
      if notes[i].parentId == parent {
        var x := notes[i].id;
        ChainFresh(notes, chain, parent, i);
        ChainExtends(notes, chain, parent, i);
        var chain' := chain + [x];
        assert x in Ids(notes);
        LevelTerminates(notes, Some(x), depth + 1, onPath + {x}, 0, chain');
      }
    }
  }

  /** The table's ids are distinct, so `print_tree` always returns. */
  lemma TreeTerminates(notes: seq<Note>)
    requires DistinctIds(notes)
    ensures Tree(notes).Some?
  {
    LevelTerminates(notes, None, 0, {}, 0, []);
  }

  /** Two items sharing an id, one the child of the other, make `print_tree` recurse forever. */
  lemma TreeSharedId(a: Note, b: Note)
    requires a.parentId == None && b.parentId == Some(a.id) && b.id == a.id
    ensures Tree([a, b]) == None
  {
    var notes := [a, b];
    var on: set<string> := {} + {a.id};
    assert Level(notes, Some(a.id), 1, on, 1) == None;
    assert Level(notes, Some(a.id), 1, on, 0) == None;
  }

  // ---------------------------------------------------------------------
  // print_note_list
  // ---------------------------------------------------------------------

  /** The items of type `note`, in order. */
  function NotesOnly(notes: seq<Note>): (r: seq<Note>)
    ensures forall n :: n in r <==> n in notes && n.itemType == "note"
    ensures |r| <= |notes|
  {
    if |notes| == 0 then []
    else (if notes[0].itemType == "note" then [notes[0]] else []) + NotesOnly(notes[1..])
  }

  /** Filtering keeps the input order: it distributes over concatenation. */
  lemma {:induction false} NotesOnlyAppend(a: seq<Note>, b: seq<Note>)
    ensures NotesOnly(a + b) == NotesOnly(a) + NotesOnly(b)
    decreases |a|
  {
    if |a| == 0 {
      assert a + b == b;
    } else {
      assert (a + b)[1..] == a[1..] + b;
      NotesOnlyAppend(a[1..], b);
    }
  }

  const ListPreviewBytes: nat := 60

  /**
   The preview column: the whole plain text with `full`; otherwise the
   plain text with newlines turned into spaces, truncated to 60 bytes
   (`None` where the cut panics).
   */
  function ListPreview(content: string, full: bool): (r: Option<string>)
    ensures full ==> r == Some(Html.StripHtml(Html.KeepNewlines, content))
    ensures !full && r.Some? ==> '\n' !in r.value && ByteLength(r.value) <= ListPreviewBytes
    ensures !full ==> var plain := Html.StripHtml(Html.KeepNewlines, content);
      '\n' !in plain && ByteLength(plain) <= ListPreviewBytes ==> r == Some(plain)
    ensures !full ==>
      r == Truncate(SwapChar(Html.StripHtml(Html.KeepNewlines, content), '\n', ' '), ListPreviewBytes)
  {
    var plain := Html.StripHtml(Html.KeepNewlines, content);
    if full then Some(plain)
    else
      FlatPreview(plain);
      Truncate(ReplaceAll(plain, "\n", " "), ListPreviewBytes)
  }

  lemma FlatPreview(plain: string)
    ensures var r := Truncate(ReplaceAll(plain, "\n", " "), ListPreviewBytes);
      && (r.Some? ==> '\n' !in r.value && ByteLength(r.value) <= ListPreviewBytes)
      && ('\n' !in plain && ByteLength(plain) <= ListPreviewBytes ==> r == Some(plain))
      && r == Truncate(SwapChar(plain, '\n', ' '), ListPreviewBytes)
  {
    var flat := ReplaceAll(plain, "\n", " ");
    assert "\n" == ['\n'] && " " == [' '];
    ReplaceCharByChar(plain, '\n', ' ');
    ReplaceRemovesChar(plain, '\n', " ");
    if '\n' !in plain {
      ReplaceAbsent(plain, "\n", " ");
    }
    var r := Truncate(flat, ListPreviewBytes);
    if r.Some? && ByteLength(flat) > ListPreviewBytes {
      var head := r.value[..|r.value| - 3];
      assert r.value == head + "...";
      assert forall c :: c in head ==> c in flat;
    }
  }

  /** One line of the list: the title and its preview. */
  datatype ListLine = ListLine(title: string, preview: string)

  /**
   What `print_note_list` prints: the lines up to the first preview whose
   cut panics, and whether that panic ended the command.
   */
  datatype Listing = Listing(lines: seq<ListLine>, panicked: bool)

  /**
   The lines printed for a list of titles with their previews (`None` where
   the cut panics), in order, stopping at the first panicking preview.
   */
  function PrintLines(items: seq<(string, Option<string>)>): (out: Listing)
    ensures |out.lines| <= |items|
    ensures forall k :: 0 <= k < |out.lines| ==>
      out.lines[k].title == items[k].0 && items[k].1 == Some(out.lines[k].preview)
    ensures out.panicked <==> |out.lines| < |items|
    ensures out.panicked ==> items[|out.lines|].1.None?
  {
    if |items| == 0 then Listing([], false)
    else
      match items[0].1
      case None => Listing([], true)
      case Some(p) =>
        var rest := PrintLines(items[1..]);
        var lines := [ListLine(items[0].0, p)] + rest.lines;
        assert forall k :: 0 < k < |lines| ==> lines[k] == rest.lines[k - 1] && items[k] == items[1..][k - 1];
        Listing(lines, rest.panicked)
  }

  /** Each note of type `note` with its title and preview, in order. */
  function ListItems(notes: seq<Note>, full: bool): (items: seq<(string, Option<string>)>)
    ensures |items| == |NotesOnly(notes)|
    ensures forall k :: 0 <= k < |items| ==>
      items[k] == (NotesOnly(notes)[k].title, ListPreview(NotesOnly(notes)[k].content, full))
  {
    var ns := NotesOnly(notes);
    seq(|ns|, k requires 0 <= k < |ns| => (ns[k].title, ListPreview(ns[k].content, full)))
  }

  /**
   `print_note_list`: one line per item of type `note`, in order, each the
   title and its preview. A preview whose cut panics aborts the command, so
   that note and every later one print nothing.
   */
  function NoteList(notes: seq<Note>, full: bool): (out: Listing)
    ensures |out.lines| <= |NotesOnly(notes)|
    ensures forall k :: 0 <= k < |out.lines| ==>
      && out.lines[k].title == NotesOnly(notes)[k].title
      && ListPreview(NotesOnly(notes)[k].content, full) == Some(out.lines[k].preview)
    ensures !out.panicked <==> |out.lines| == |NotesOnly(notes)|
    ensures out.panicked ==> ListPreview(NotesOnly(notes)[|out.lines|].content, full).None?
  {
    PrintLines(ListItems(notes, full))
  }

  /** With `full` no preview is cut, so every note is listed. */
  lemma NoteListFull(notes: seq<Note>)
    ensures !NoteList(notes, true).panicked
    ensures |NoteList(notes, true).lines| == |NotesOnly(notes)|
  {
  }

  /** Printing `a + b` prints `a`, then, unless that panicked, `b`. */
  lemma {:induction false} PrintLinesAppend(a: seq<(string, Option<string>)>, b: seq<(string, Option<string>)>)
    ensures var la := PrintLines(a);
      PrintLines(a + b) == if la.panicked then la
        else Listing(la.lines + PrintLines(b).lines, PrintLines(b).panicked)
    decreases |a|
  {
    if |a| == 0 {
      assert a + b == b;
    } else {
      assert (a + b)[0] == a[0];
      assert (a + b)[1..] == a[1..] + b;
      PrintLinesAppend(a[1..], b);
      if a[0].1.Some? {
        var line := ListLine(a[0].0, a[0].1.value);
        var la := PrintLines(a[1..]);
        if !la.panicked {
          assert [line] + (la.lines + PrintLines(b).lines) == ([line] + la.lines) + PrintLines(b).lines;
        }
      }
    }
  }
}
