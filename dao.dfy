/**
 * The page queries of the data access layer: folding the rows of the
 * pages/blocks/users join into pages, the front-page filter and order, the
 * single-page query, the block query, and the normalisation of an empty
 * publication date. Dates are day numbers; "today" is a parameter.
 */
module PagesDao {
  import opened Wrappers
  import opened Blocks
  import opened Sorting

  /** A row of `SELECT p.id, p.title, p.author, u.name, p.creazione, p.pubblicazione, b.id as block_id, b.type, b.value, b.position ...`. */
  datatype Row = Row(id: nat, title: string, author: int, name: string, creazione: string,
                     pubblicazione: Option<int>, blockId: nat, kind: string, value: string,
                     position: int)

  /** A page as the queries return it; `authorId` is the user id, `author` the user's name. */
  datatype PageRec = PageRec(id: nat, title: string, authorId: int, author: string,
                             creazione: string, pubblicazione: Option<int>, blocks: seq<Block>)

  /** `{id: block_id, type, value, position}`. */
  function BlockOf(r: Row): Block {
    Block(Some(r.blockId), r.kind, Str(r.value), r.position, false, false)
  }

  /** The page fields of a row, with no blocks yet. */
  function PageOf(r: Row): PageRec {
    PageRec(r.id, r.title, r.author, r.name, r.creazione, r.pubblicazione, [])
  }

  /**
   * The `pages_group` dictionary after `rows.forEach`: a page is made from the
   * first row with its id, and every row appends its block to its page.
   */
  function Grouped(rows: seq<Row>): map<nat, PageRec>
    decreases |rows|
  {
    if rows == [] then map[]
    else
      var g := Grouped(rows[..|rows| - 1]);
      var r := rows[|rows| - 1];
      var p := if r.id in g then g[r.id] else PageOf(r);
      g[r.id := p.(blocks := p.blocks + [BlockOf(r)])]
  }

  /** The blocks of the rows of page `k`, in row order. */
  function BlocksWithId(rows: seq<Row>, k: nat): seq<Block>
    decreases |rows|
  {
    if rows == [] then []
    else
      var last := if rows[|rows| - 1].id == k then [BlockOf(rows[|rows| - 1])] else [];
      BlocksWithId(rows[..|rows| - 1], k) + last
  }

  /** One page per distinct row id, holding exactly the blocks of that id's rows, in row order. */
  lemma {:induction false} GroupedSpec(rows: seq<Row>)
    ensures forall k :: k in Grouped(rows) <==> exists i :: 0 <= i < |rows| && rows[i].id == k
    ensures forall k :: k in Grouped(rows) ==>
      Grouped(rows)[k].id == k && Grouped(rows)[k].blocks == BlocksWithId(rows, k)
    decreases |rows|
  {
    if rows != [] {
      var init := rows[..|rows| - 1];
      GroupedSpec(init);
      forall k ensures k in Grouped(rows) <==> exists i :: 0 <= i < |rows| && rows[i].id == k {
        if k in Grouped(init) {
          var i :| 0 <= i < |init| && init[i].id == k;
          assert rows[i] == init[i];
        }
        if exists i :: 0 <= i < |rows| && rows[i].id == k {
          var i :| 0 <= i < |rows| && rows[i].id == k;
          if i < |init| {
            assert init[i] == rows[i];
          }
        }
      }
      var r := rows[|rows| - 1];
      if r.id !in Grouped(init) {
        NoRowsNoBlocks(init, r.id);
      }
    }
  }

  lemma {:induction false} NoRowsNoBlocks(rows: seq<Row>, k: nat)
    requires forall i :: 0 <= i < |rows| ==> rows[i].id != k
    ensures BlocksWithId(rows, k) == []
    decreases |rows|
  {
    if rows != [] {
      NoRowsNoBlocks(rows[..|rows| - 1], k);
    }
  }

  /** A page's own fields come from the first row that carries its id. */
  lemma {:induction false} GroupedFirstRow(rows: seq<Row>, i: nat)
    requires i < |rows| && forall j :: 0 <= j < i ==> rows[j].id != rows[i].id
    ensures rows[i].id in Grouped(rows)
    ensures Grouped(rows)[rows[i].id].(blocks := []) == PageOf(rows[i])
    decreases |rows|
  {
    var init := rows[..|rows| - 1];
    GroupedSpec(init);
    if i < |init| {
      assert forall j :: 0 <= j < i ==> init[j] == rows[j];
      GroupedFirstRow(init, i);
    } else {
      assert rows[i].id !in Grouped(init);
    }
  }

  /** A set of ids holding `x` has a least element, at most `x`. */
  lemma {:induction false} LeastFrom(s: set<nat>, x: nat) returns (m: nat)
    requires x in s
    ensures m in s && forall k :: k in s ==> m <= k
    decreases x
  {
    if forall k :: k in s ==> x <= k {
      m := x;
    } else {
      var y :| y in s && y < x;
      m := LeastFrom(s, y);
    }
  }

  /**
   * The enumeration order of `Object.values` for integer keys: ascending.
   */
  method KeysAscending(keys: set<nat>) returns (ks: seq<nat>)
    ensures forall i, j :: 0 <= i < j < |ks| ==> ks[i] < ks[j]
    ensures forall k :: k in keys <==> k in ks
  {
    ks := [];
    var rest := keys;
    while rest != {}
      invariant forall k :: k in keys <==> k in ks || k in rest
      invariant forall i, j :: 0 <= i < j < |ks| ==> ks[i] < ks[j]
      invariant forall i, k :: 0 <= i < |ks| && k in rest ==> ks[i] < k
      decreases rest
    {
      var x :| x in rest;
      ghost var least := LeastFrom(rest, x);
      var m :| m in rest && forall k :: k in rest ==> m <= k;
      ks := ks + [m];
      rest := rest - {m};
    }
  }

  /**
   * `pages` is what `listPages` builds from `rows`: the grouped pages, each
   * once, in ascending id order.
   */
  predicate IsGrouping(rows: seq<Row>, pages: seq<PageRec>) {
    && (forall i, j :: 0 <= i < j < |pages| ==> pages[i].id < pages[j].id)
    && (forall i :: 0 <= i < |pages| ==> pages[i].id in Grouped(rows) && pages[i] == Grouped(rows)[pages[i].id])
    && (forall k :: k in Grouped(rows) ==> exists i :: 0 <= i < |pages| && pages[i].id == k)
  }

  /** The grouping loop of `listPages`, then `Object.values(pages_group)`. */
  method GroupRows(rows: seq<Row>) returns (pages: seq<PageRec>)
    ensures IsGrouping(rows, pages)
  {
    var group: map<nat, PageRec> := map[];
    var i := 0;
    while i < |rows|
      invariant 0 <= i <= |rows|
      invariant group == Grouped(rows[..i])
    {
      var r := rows[i];
      GroupedPrefix(rows, i);
      if r.id !in group {
        group := group[r.id := PageOf(r)];
      }
      group := group[r.id := group[r.id].(blocks := group[r.id].blocks + [BlockOf(r)])];
      i := i + 1;
    }
    assert rows[..|rows|] == rows;
    var ks := KeysAscending(group.Keys);
    pages := seq(|ks|, j requires 0 <= j < |ks| => group[ks[j]]);
    GroupingFromKeys(rows, ks, pages);
  }

  lemma GroupedPrefix(rows: seq<Row>, i: nat)
    requires i < |rows|
    ensures Grouped(rows[..i + 1]) ==
      var g := Grouped(rows[..i]);
      var p := if rows[i].id in g then g[rows[i].id] else PageOf(rows[i]);
      g[rows[i].id := p.(blocks := p.blocks + [BlockOf(rows[i])])]
  {
    assert rows[..i + 1][..i] == rows[..i];
  }

  lemma GroupingFromKeys(rows: seq<Row>, ks: seq<nat>, pages: seq<PageRec>)
    requires forall i, j :: 0 <= i < j < |ks| ==> ks[i] < ks[j]
    requires forall k :: k in Grouped(rows) <==> k in ks
    requires |pages| == |ks| && forall j :: 0 <= j < |ks| ==> pages[j] == Grouped(rows)[ks[j]]
    ensures IsGrouping(rows, pages)
  {
    GroupedIds(rows);
    assert forall j :: 0 <= j < |ks| ==> pages[j].id == ks[j];
    forall k | k in Grouped(rows) ensures exists j :: 0 <= j < |pages| && pages[j].id == k {
      var j :| 0 <= j < |ks| && ks[j] == k;
      assert pages[j].id == k;
    }
  }

  lemma GroupedIds(rows: seq<Row>)
    ensures forall k :: k in Grouped(rows) ==> Grouped(rows)[k].id == k
  {
    GroupedSpec(rows);
  }

  /**
   * Read through the grouping: every row's page is listed, every listed page
   * has rows, and each page holds exactly its rows' blocks in row order.
   */
  lemma GroupingPages(rows: seq<Row>, pages: seq<PageRec>)
    requires IsGrouping(rows, pages)
    ensures forall i :: 0 <= i < |rows| ==> rows[i].id in Ids(pages)
    ensures forall j :: 0 <= j < |pages| ==> exists i :: 0 <= i < |rows| && rows[i].id == pages[j].id
    ensures forall j :: 0 <= j < |pages| ==> pages[j].blocks == BlocksWithId(rows, pages[j].id)
  {
    GroupedSpec(rows);
    var ids := Ids(pages);
    forall i | 0 <= i < |rows| ensures rows[i].id in ids {
      assert rows[i].id in Grouped(rows);
      var j :| 0 <= j < |pages| && pages[j].id == rows[i].id;
      assert ids[j] == rows[i].id;
    }
  }

  function TotalBlocks(pages: seq<PageRec>): nat {
    if pages == [] then 0 else |pages[0].blocks| + TotalBlocks(pages[1..])
  }

  /** How many blocks the rows give the pages `ids`. */
  function SumLen(rows: seq<Row>, ids: seq<nat>): nat {
    if ids == [] then 0 else |BlocksWithId(rows, ids[0])| + SumLen(rows, ids[1..])
  }

  function Occurrences(ids: seq<nat>, x: nat): nat {
    if ids == [] then 0 else (if ids[0] == x then 1 else 0) + Occurrences(ids[1..], x)
  }

  lemma {:induction false} SumLenStep(rows: seq<Row>, ids: seq<nat>)
    requires rows != []
    ensures SumLen(rows, ids) == SumLen(rows[..|rows| - 1], ids) + Occurrences(ids, rows[|rows| - 1].id)
  {
    if ids != [] {
      SumLenStep(rows, ids[1..]);
    }
  }

  lemma {:induction false} OccurrencesOnce(ids: seq<nat>, x: nat)
    requires forall i, j :: 0 <= i < j < |ids| ==> ids[i] != ids[j]
    requires x in ids
    ensures Occurrences(ids, x) == 1
  {
    if ids[0] == x {
      OccurrencesNone(ids[1..], x);
    } else {
      OccurrencesOnce(ids[1..], x);
    }
  }

  lemma {:induction false} OccurrencesNone(ids: seq<nat>, x: nat)
    requires x !in ids
    ensures Occurrences(ids, x) == 0
  {
    if ids != [] {
      OccurrencesNone(ids[1..], x);
    }
  }

  lemma {:induction false} SumLenAll(rows: seq<Row>, ids: seq<nat>)
    requires forall i, j :: 0 <= i < j < |ids| ==> ids[i] != ids[j]
    requires forall i :: 0 <= i < |rows| ==> rows[i].id in ids
    ensures SumLen(rows, ids) == |rows|
    decreases |rows|
  {
    if rows == [] {
      SumLenEmpty(ids);
    } else {
      var init := rows[..|rows| - 1];
      assert forall i :: 0 <= i < |init| ==> init[i] == rows[i];
      SumLenAll(init, ids);
      SumLenStep(rows, ids);
      OccurrencesOnce(ids, rows[|rows| - 1].id);
    }
  }

  lemma {:induction false} SumLenEmpty(ids: seq<nat>)
    ensures SumLen([], ids) == 0
  {
    if ids != [] {
      SumLenEmpty(ids[1..]);
    }
  }

  function Ids(pages: seq<PageRec>): (ids: seq<nat>)
    ensures |ids| == |pages| && forall i :: 0 <= i < |pages| ==> ids[i] == pages[i].id
  {
    if pages == [] then [] else [pages[0].id] + Ids(pages[1..])
  }

  lemma AscendingDistinct(pages: seq<PageRec>)
    requires forall i, j :: 0 <= i < j < |pages| ==> pages[i].id < pages[j].id
    ensures forall i, j :: 0 <= i < j < |Ids(pages)| ==> Ids(pages)[i] != Ids(pages)[j]
  {
  }

  lemma {:induction false} TotalIsSum(rows: seq<Row>, pages: seq<PageRec>)
    requires forall j :: 0 <= j < |pages| ==> pages[j].blocks == BlocksWithId(rows, pages[j].id)
    ensures TotalBlocks(pages) == SumLen(rows, Ids(pages))
  {
    if pages != [] {
      TotalIsSum(rows, pages[1..]);
      assert Ids(pages)[1..] == Ids(pages[1..]);
    }
  }

  /** The grouped pages hold as many blocks in total as there are rows. */
  lemma GroupingBlockCount(rows: seq<Row>, pages: seq<PageRec>)
    requires IsGrouping(rows, pages)
    ensures TotalBlocks(pages) == |rows|
  {
    GroupingPages(rows, pages);
    BlockCount(rows, pages);
  }

  lemma BlockCount(rows: seq<Row>, pages: seq<PageRec>)
    requires forall i, j :: 0 <= i < j < |pages| ==> pages[i].id < pages[j].id
    requires forall i :: 0 <= i < |rows| ==> rows[i].id in Ids(pages)
    requires forall j :: 0 <= j < |pages| ==> pages[j].blocks == BlocksWithId(rows, pages[j].id)
    ensures TotalBlocks(pages) == |rows|
  {
    TotalIsSum(rows, pages);
    AscendingDistinct(pages);
    SumLenAll(rows, Ids(pages));
  }

  /** The front filter: a publication date that is set and not after today. */
  predicate Visible(p: PageRec, today: int) {
    p.pubblicazione.Some? && p.pubblicazione.value <= today
  }

  /**
   * The front order `dayjs(p1.pubblicazione).diff(dayjs(p2.pubblicazione), 'day')`.
   * The comparator's branches for a missing date are never reached after the
   * filter; the key gives such a page day 0.
   */
  function PublishedKey(p: PageRec): int {
    if p.pubblicazione.Some? then p.pubblicazione.value else 0
  }

  /** `pages.filter(...)` with the front predicate: the visible pages, in order and multiplicity. */
  function FilterVisible(pages: seq<PageRec>, today: int): (r: seq<PageRec>)
    ensures forall x {:trigger multiset(r)[x]} :: multiset(r)[x] == if Visible(x, today) then multiset(pages)[x] else 0
    ensures forall i :: 0 <= i < |r| ==> Visible(r[i], today)
  {
    if pages == [] then []
    else
      assert pages == [pages[0]] + pages[1..];
      (if Visible(pages[0], today) then [pages[0]] else []) + FilterVisible(pages[1..], today)
  }

  /** The front page: the visible pages, ascending by publication date. */
  function FrontPages(pages: seq<PageRec>, today: int): (r: seq<PageRec>)
    ensures SortedBy(r, PublishedKey)
    ensures multiset(r) == multiset(FilterVisible(pages, today))
  {
    SortBy(FilterVisible(pages, today), PublishedKey)
  }

  function PageId(p: PageRec): int {
    p.id
  }

  /** Where an element of the filtered list sits in the list it was filtered from. */
  lemma {:induction false} VisibleSource(pages: seq<PageRec>, today: int, j: nat) returns (m: nat)
    requires j < |FilterVisible(pages, today)|
    ensures m < |pages| && pages[m] == FilterVisible(pages, today)[j]
    decreases |pages|
  {
    var rest := FilterVisible(pages[1..], today);
    if !Visible(pages[0], today) {
      assert FilterVisible(pages, today) == rest;
      var m' := VisibleSource(pages[1..], today, j);
      m := m' + 1;
    } else if j == 0 {
      m := 0;
    } else {
      assert FilterVisible(pages, today) == [pages[0]] + rest;
      assert FilterVisible(pages, today)[j] == rest[j - 1];
      var m' := VisibleSource(pages[1..], today, j - 1);
      m := m' + 1;
    }
  }

  /** Filtering a list with ascending ids keeps the ids ascending. */
  lemma {:induction false} VisibleAscending(pages: seq<PageRec>, today: int)
    requires StrictlySortedBy(pages, PageId)
    ensures StrictlySortedBy(FilterVisible(pages, today), PageId)
    decreases |pages|
  {
    if pages != [] {
      var rest := FilterVisible(pages[1..], today);
      VisibleAscending(pages[1..], today);
      if Visible(pages[0], today) {
        forall j | 0 <= j < |rest| ensures pages[0].id < rest[j].id {
          var m := VisibleSource(pages[1..], today, j);
          assert pages[m + 1] == rest[j];
        }
      }
    }
  }

  /**
   * On the front page, pages published on the same day keep the order of the
   * list they were filtered from: the stable sort breaks no tie.
   */
  lemma FrontTiesById(pages: seq<PageRec>, today: int)
    requires StrictlySortedBy(pages, PageId)
    ensures var r := FrontPages(pages, today);
      forall i, j :: 0 <= i < j < |r| && PublishedKey(r[i]) == PublishedKey(r[j]) ==> r[i].id < r[j].id
  {
    VisibleAscending(pages, today);
    SortTiesKeepOrder(FilterVisible(pages, today), PublishedKey, PageId);
  }

  /** A page is on the front page exactly when it is among the pages and visible today. */
  lemma FrontIff(pages: seq<PageRec>, today: int, x: PageRec)
    ensures x in FrontPages(pages, today) <==> x in pages && Visible(x, today)
  {
    assert x in FrontPages(pages, today) <==> x in multiset(FrontPages(pages, today));
    assert x in pages <==> x in multiset(pages);
  }

  /** A list with strictly ascending ids holds no page twice. */
  lemma {:induction false} AscendingOnce(pages: seq<PageRec>, x: PageRec)
    requires forall i, j :: 0 <= i < j < |pages| ==> pages[i].id < pages[j].id
    ensures multiset(pages)[x] == if x in pages then 1 else 0
  {
    if pages != [] {
      assert pages == [pages[0]] + pages[1..];
      AscendingOnce(pages[1..], x);
      if pages[0] == x {
        assert x !in pages[1..];
      }
    }
  }

  /**
   * `listPages(front)`: with `front == false` the grouping itself; with
   * `front == true` each grouped page that is visible today, once, ascending
   * by publication date.
   */
  method ListPages(rows: seq<Row>, front: bool, today: int) returns (pages: seq<PageRec>)
    ensures !front ==> IsGrouping(rows, pages)
    ensures front ==> SortedBy(pages, PublishedKey)
    ensures front ==> forall x :: multiset(pages)[x] ==
                                  if x in Grouped(rows).Values && Visible(x, today) then 1 else 0
    ensures front ==> forall i, j :: 0 <= i < j < |pages| && PublishedKey(pages[i]) == PublishedKey(pages[j]) ==>
                                    pages[i].id < pages[j].id
  {
    var all := GroupRows(rows);
    if front {
      pages := FrontPages(all, today);
      FrontOnce(rows, all, today);
      FrontTiesById(all, today);
    } else {
      pages := all;
    }
  }

  /** The front page of a grouping holds each visible grouped page exactly once. */
  lemma FrontOnce(rows: seq<Row>, all: seq<PageRec>, today: int)
    requires IsGrouping(rows, all)
    ensures forall x :: multiset(FrontPages(all, today))[x] ==
                        if x in Grouped(rows).Values && Visible(x, today) then 1 else 0
  {
    forall x ensures multiset(FrontPages(all, today))[x] ==
                     if x in Grouped(rows).Values && Visible(x, today) then 1 else 0 {
      AscendingOnce(all, x);
      if x in Grouped(rows).Values {
        var k :| k in Grouped(rows) && Grouped(rows)[k] == x;
        var j :| 0 <= j < |all| && all[j].id == k;
        assert all[j] == x;
      }
    }
  }

  /**
   * `getPage`: the page fields of the first row and one block per row, in row
   * order. With no rows, `rows[0]` is undefined and the source throws; the
   * model answers None.
   */
  method GetPage(rows: seq<Row>) returns (page: Option<PageRec>)
    ensures page.Some? <==> rows != []
    ensures page.Some? ==> page.value.(blocks := []) == PageOf(rows[0])
    ensures page.Some? ==> |page.value.blocks| == |rows|
    ensures page.Some? ==> forall i :: 0 <= i < |rows| ==> page.value.blocks[i] == BlockOf(rows[i])
  {
    if rows == [] {
      return None;
    }
    var p := PageOf(rows[0]);
    var i := 0;
    while i < |rows|
      invariant 0 <= i <= |rows|
      invariant p.(blocks := []) == PageOf(rows[0])
      invariant |p.blocks| == i && forall j :: 0 <= j < i ==> p.blocks[j] == BlockOf(rows[j])
    {
      p := p.(blocks := p.blocks + [BlockOf(rows[i])]);
      i := i + 1;
    }
    page := Some(p);
  }

  /**
   * When all rows belong to page `k`, as the `WHERE p.id = ?` of `getPage`
   * ensures, `getPage` and the grouping of `listPages` build the same page.
   */
  lemma GetPageAgreesWithGrouping(rows: seq<Row>, k: nat)
    requires rows != [] && forall i :: 0 <= i < |rows| ==> rows[i].id == k
    ensures k in Grouped(rows)
    ensures Grouped(rows)[k].(blocks := []) == PageOf(rows[0])
    ensures |Grouped(rows)[k].blocks| == |rows|
    ensures forall i :: 0 <= i < |rows| ==> Grouped(rows)[k].blocks[i] == BlockOf(rows[i])
  {
    GroupedSpec(rows);
    GroupedFirstRow(rows, 0);
    AllRowsOfPage(rows, k);
  }

  lemma {:induction false} AllRowsOfPage(rows: seq<Row>, k: nat)
    requires forall i :: 0 <= i < |rows| ==> rows[i].id == k
    ensures |BlocksWithId(rows, k)| == |rows|
    ensures forall i :: 0 <= i < |rows| ==> BlocksWithId(rows, k)[i] == BlockOf(rows[i])
    decreases |rows|
  {
    if rows != [] {
      var init := rows[..|rows| - 1];
      AllRowsOfPage(init, k);
    }
  }

  /** A row of `SELECT * FROM blocks WHERE page=?`. */
  datatype BlockRow = BlockRow(id: nat, page: nat, kind: string, value: string, position: int)

  function RowPosition(r: BlockRow): int {
    r.position
  }

  /** `listBlocks`: the rows sorted by position, a permutation of them; already sorted rows come back as they are. */
  function ListBlocks(rows: seq<BlockRow>): (r: seq<BlockRow>)
    ensures SortedBy(r, RowPosition)
    ensures multiset(r) == multiset(rows)
    ensures SortedBy(rows, RowPosition) ==> r == rows
  {
    if SortedBy(rows, RowPosition) then SortSorted(rows, RowPosition); SortBy(rows, RowPosition)
    else SortBy(rows, RowPosition)
  }

  /** `if (page.pubblicazione == "") page.pubblicazione = null`. */
  function NormalizedPublication(p: Option<string>): (r: Option<string>)
    ensures r.None? <==> p.None? || p == Some("")
    ensures r.Some? ==> r == p
  {
    if p == Some("") then None else p
  }

  /** The page object the handlers hand to `createPage` and `updatePage`. */
  class PageDraft {
    var title: string
    var author: int
    var creazione: Option<string>
    var pubblicazione: Option<string>

    constructor (title: string, author: int, creazione: Option<string>, pubblicazione: Option<string>)
      ensures this.title == title && this.author == author
      ensures this.creazione == creazione && this.pubblicazione == pubblicazione
    {
      this.title := title;
      this.author := author;
      this.creazione := creazione;
      this.pubblicazione := pubblicazione;
    }

    /** The first statement of `createPage` and of `updatePage`. */
    method NormalizePublication()
      modifies this
      ensures pubblicazione == NormalizedPublication(old(pubblicazione))
      ensures title == old(title) && author == old(author) && creazione == old(creazione)
    {
      if pubblicazione == Some("") {
        pubblicazione := None;
      }
    }
  }
}
