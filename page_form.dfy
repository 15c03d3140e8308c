/**
 * The block-list editor of the page form: the list of blocks being edited, the
 * deletion markers of blocks removed from a stored page, and the message shown
 * when a submission is refused. Each event handler is a method on that state.
 */
module PageForm {
  import opened Wrappers
  import opened Blocks
  import opened Sorting
  import Validation

  const MixMessage := "An header and another type of block are needed!"
  const Up := "up"

  /** Positions `1..n` in list order. */
  predicate Dense(s: seq<Block>) {
    forall i :: 0 <= i < |s| ==> s[i].position == i + 1
  }

  /**
   * The block `addBlock(key)` appends: one past the last block's position (1 in
   * an empty list), marked `created`; the keys "header" and "paragraph" give an
   * empty block of that type, any other key names an image file.
   */
  function NewBlock(s: seq<Block>, key: string): (b: Block)
    ensures b.created && !b.deleted && b.id.None?
    ensures b.position == if s == [] then 1 else s[|s| - 1].position + 1
    ensures key == Header || key == Paragraph ==> b.kind == key && b.value == Str("")
    ensures key != Header && key != Paragraph ==> b.kind == Image && b.value == Str(key)
  {
    var position := if |s| > 0 then s[|s| - 1].position + 1 else 1;
    if key == Header || key == Paragraph then Block(None, key, Str(""), position, true, false)
    else Block(None, Image, Str(key), position, true, false)
  }

  /** Appending to a dense list keeps it dense: the new block takes position n + 1. */
  lemma AddKeepsDense(s: seq<Block>, key: string)
    requires Dense(s)
    ensures Dense(s + [NewBlock(s, key)])
    ensures NewBlock(s, key).position == |s| + 1
  {
    var r := s + [NewBlock(s, key)];
    forall i | 0 <= i < |r| ensures r[i].position == i + 1 {
      if i < |s| {
        assert r[i] == s[i];
      }
    }
  }

  /** `handleBlock(p, v)`: the blocks at position `p` take the value `v`. */
  function WithValue(s: seq<Block>, p: int, v: string): (r: seq<Block>)
    ensures |r| == |s|
    ensures forall i :: 0 <= i < |s| ==> r[i] == if s[i].position == p then s[i].(value := Str(v)) else s[i]
  {
    if s == [] then []
    else [if s[0].position == p then s[0].(value := Str(v)) else s[0]] + WithValue(s[1..], p, v)
  }

  /**
   * Editing a value leaves the layout alone (every position, the density of the
   * list) and the last edit wins.
   */
  lemma {:induction false} WithValueLayout(s: seq<Block>, p: int, v: string, w: string)
    ensures forall i :: 0 <= i < |s| ==> WithValue(s, p, v)[i].position == s[i].position
    ensures Dense(s) ==> Dense(WithValue(s, p, v))
    ensures WithValue(WithValue(s, p, v), p, w) == WithValue(s, p, w)
  {
    if s != [] {
      WithValueLayout(s[1..], p, v, w);
      assert WithValue(s, p, v)[1..] == WithValue(s[1..], p, v);
    }
  }

  /** The position a block at `q` takes when the blocks at `cur` and `other` trade places. */
  function Swapped(q: int, cur: int, other: int): int {
    if q == cur then other else if q == other then cur else q
  }

  /** The neighbour `handleOrder` exchanges with: `cur - 1` for "up", `cur + 1` for any other direction. */
  function Neighbour(direction: string, cur: int): (o: int)
    ensures o == cur - 1 || o == cur + 1
    ensures direction == Up <==> o == cur - 1
  {
    if direction == Up then cur - 1 else cur + 1
  }

  /** The `map` of `handleOrder`: every block keeps everything but its position, which is swapped. */
  function Moved(s: seq<Block>, cur: int, other: int): (r: seq<Block>)
    ensures |r| == |s|
    ensures forall i :: 0 <= i < |s| ==> r[i] == s[i].(position := Swapped(s[i].position, cur, other))
  {
    if s == [] then []
    else [s[0].(position := Swapped(s[0].position, cur, other))] + Moved(s[1..], cur, other)
  }

  /** `handleOrder(direction, cur)`: swap with the neighbour, then sort by position. */
  function Reordered(s: seq<Block>, direction: string, cur: int): (r: seq<Block>)
    ensures SortedBy(r, Position)
    ensures multiset(r) == multiset(Moved(s, cur, Neighbour(direction, cur)))
  {
    SortBy(Moved(s, cur, Neighbour(direction, cur)), Position)
  }

  /** Moving a block up is moving the block above it down: both exchange positions `p - 1` and `p`. */
  lemma UpIsDownFromAbove(s: seq<Block>, p: int, direction: string)
    requires direction != Up
    ensures Reordered(s, Up, p) == Reordered(s, direction, p - 1)
  {
    var a := Moved(s, p, p - 1);
    var b := Moved(s, p - 1, p);
    assert forall i :: 0 <= i < |s| ==> a[i] == b[i];
    assert a == b;
  }

  /** The list with the blocks at indices `i` and `i + 1` exchanged, positions left in place. */
  function Exchanged(s: seq<Block>, i: nat): (r: seq<Block>)
    requires i + 1 < |s|
    ensures |r| == |s|
  {
    s[..i] + [s[i + 1].(position := i + 1), s[i].(position := i + 2)] + s[i + 2..]
  }

  lemma ExchangedDense(s: seq<Block>, i: nat)
    requires Dense(s) && i + 1 < |s|
    ensures Dense(Exchanged(s, i))
  {
    var r := Exchanged(s, i);
    forall j | 0 <= j < |r| ensures r[j].position == j + 1 {
      if j < i {
        assert r[j] == s[j];
      } else if j >= i + 2 {
        assert r[j] == s[j];
      }
    }
  }

  lemma DenseStrictlySorted(s: seq<Block>)
    requires Dense(s)
    ensures StrictlySortedBy(s, Position)
  {
  }

  /** On a dense list, the `map` of a move between `i + 1` and `i + 2` touches those two blocks only. */
  lemma MovedAdjacent(s: seq<Block>, i: nat, cur: int, o: int)
    requires Dense(s) && i + 1 < |s|
    requires (cur == i + 1 && o == i + 2) || (cur == i + 2 && o == i + 1)
    ensures Moved(s, cur, o) == s[..i] + [s[i].(position := i + 2), s[i + 1].(position := i + 1)] + s[i + 2..]
  {
    var m := Moved(s, cur, o);
    var e := s[..i] + [s[i].(position := i + 2), s[i + 1].(position := i + 1)] + s[i + 2..];
    forall j | 0 <= j < |m| ensures m[j] == e[j] {
      if j < i || j >= i + 2 {
        assert m[j] == s[j];
      }
    }
  }

  lemma SwapMultiset(a: seq<Block>, x: Block, y: Block, b: seq<Block>)
    ensures multiset(a + [x, y] + b) == multiset(a + [y, x] + b)
  {
  }

  /**
   * On a dense list, moving a block to a neighbour that exists exchanges the two
   * blocks in the list and leaves the other blocks where they are; the list stays
   * dense.
   */
  lemma DenseReorder(s: seq<Block>, direction: string, cur: int)
    requires Dense(s)
    requires 1 <= cur <= |s| && 1 <= Neighbour(direction, cur) <= |s|
    ensures var lo := if direction == Up then cur - 1 else cur;
      Reordered(s, direction, cur) == Exchanged(s, lo - 1)
    ensures Dense(Reordered(s, direction, cur))
  {
    var lo := if direction == Up then cur - 1 else cur;
    var i := lo - 1;
    var x := s[i].(position := i + 2);
    var y := s[i + 1].(position := i + 1);
    MovedAdjacent(s, i, cur, Neighbour(direction, cur));
    SwapMultiset(s[..i], x, y, s[i + 2..]);
    var e := Exchanged(s, i);
    ExchangedDense(s, i);
    DenseStrictlySorted(e);
    SortedUnique(e, Reordered(s, direction, cur), Position);
  }

  /** On a dense list, moving a block up and then moving it back down restores the list. */
  lemma UpThenDown(s: seq<Block>, p: int)
    requires Dense(s) && 2 <= p <= |s|
    ensures Reordered(Reordered(s, Up, p), "down", p - 1) == s
  {
    DenseReorder(s, Up, p);
    ExchangedDense(s, p - 2);
    DenseReorder(Exchanged(s, p - 2), "down", p - 1);
    ExchangeTwice(s, p - 2);
  }

  lemma ExchangeTwice(s: seq<Block>, i: nat)
    requires Dense(s) && i + 1 < |s|
    ensures Exchanged(Exchanged(s, i), i) == s
  {
    var t := Exchanged(Exchanged(s, i), i);
    forall j | 0 <= j < |s| ensures t[j] == s[j] {
    }
  }

  /**
   * The first block has no neighbour above: "up" on position 1 moves it to
   * position 0 and the list is no longer dense.
   */
  lemma UpAtFirst(s: seq<Block>)
    requires Dense(s) && s != []
    ensures Reordered(s, Up, 1) == [s[0].(position := 0)] + s[1..]
    ensures !Dense(Reordered(s, Up, 1))
  {
    var m := Moved(s, 1, 0);
    var e := [s[0].(position := 0)] + s[1..];
    assert m == e by {
      forall j | 0 <= j < |m| ensures m[j] == e[j] {
        if j > 0 {
          assert m[j] == s[j];
        }
      }
    }
    assert StrictlySortedBy(e, Position) by {
      forall a, b | 0 <= a < b < |e| ensures Position(e[a]) < Position(e[b]) {
        assert e[b] == s[b];
        if a > 0 {
          assert e[a] == s[a];
        }
      }
    }
    SortedUnique(e, Reordered(s, Up, 1), Position);
  }

  /** The up arrow of `ArrowButton`, inside a list that shows arrows at all. */
  predicate UpShown(position: int, length: int) {
    length != 1 && position != 1
  }

  /** The down arrow of `ArrowButton`, inside a list that shows arrows at all. */
  predicate DownShown(position: int, length: int) {
    length != 1 && position != length
  }

  /**
   * On a dense list the arrows are shown exactly where the neighbour exists, so
   * every move the form offers keeps the list dense.
   */
  lemma ArrowsOfferDenseMoves(s: seq<Block>, i: nat)
    requires Dense(s) && i < |s|
    ensures UpShown(s[i].position, |s|) <==> 2 <= s[i].position
    ensures DownShown(s[i].position, |s|) <==> s[i].position <= |s| - 1
    ensures |s| == 1 ==> !UpShown(s[i].position, |s|) && !DownShown(s[i].position, |s|)
    ensures UpShown(s[i].position, |s|) ==> Dense(Reordered(s, Up, s[i].position))
    ensures DownShown(s[i].position, |s|) ==> Dense(Reordered(s, "down", s[i].position))
  {
    var p := s[i].position;
    if UpShown(p, |s|) {
      DenseReorder(s, Up, p);
    }
    if DownShown(p, |s|) {
      DenseReorder(s, "down", p);
    }
  }

  /** The `filter` of `deleteBlock(p)`: the blocks not at position `p`, in order. */
  function Without(s: seq<Block>, p: int): (r: seq<Block>)
    ensures |r| <= |s|
    ensures forall i :: 0 <= i < |r| ==> r[i].position != p
    decreases |s|
  {
    if s == [] then []
    else Without(s[..|s| - 1], p) + (if s[|s| - 1].position != p then [s[|s| - 1]] else [])
  }

  /** The filter keeps every block not at `p`, as often as it occurs, and nothing else. */
  lemma {:induction false} WithoutMultiset(s: seq<Block>, p: int)
    ensures forall x :: multiset(Without(s, p))[x] == if x.position != p then multiset(s)[x] else 0
    decreases |s|
  {
    if s != [] {
      WithoutMultiset(s[..|s| - 1], p);
      assert s == s[..|s| - 1] + [s[|s| - 1]];
    }
  }

  /** A block above `p` moves down by one; any other stays. */
  function Lower(b: Block, p: int): Block {
    if b.position > p then b.(position := b.position - 1) else b
  }

  /** The `map` of `deleteBlock(p)`: every position above `p` moves down by one. */
  function Lowered(s: seq<Block>, p: int): (r: seq<Block>)
    ensures |r| == |s|
    ensures forall i :: 0 <= i < |s| ==> r[i] == Lower(s[i], p)
  {
    if s == [] then [] else [Lower(s[0], p)] + Lowered(s[1..], p)
  }

  /** `{id: id, deleted: true}`: no type, no value, no position. */
  function Marker(b: Block): (m: Block)
    ensures m.deleted && !m.created && m.id == b.id && m.kind == "" && m.position == 0 && m.value == Missing
  {
    Block(b.id, "", Missing, 0, false, true)
  }

  /** The markers `deleteBlock` records for a removed block: one unless the editor created it. */
  function MarkersFor(b: Block): (r: seq<Block>)
    ensures |r| == if b.created then 0 else 1
  {
    if b.created then [] else [Marker(b)]
  }

  /** The filter distributes over concatenation. */
  lemma {:induction false} WithoutAppend(a: seq<Block>, b: seq<Block>, p: int)
    ensures Without(a + b, p) == Without(a, p) + Without(b, p)
    decreases |b|
  {
    if b == [] {
      assert a + b == a;
    } else {
      assert (a + b)[..|a + b| - 1] == a + b[..|b| - 1];
      WithoutAppend(a, b[..|b| - 1], p);
    }
  }

  /** A list with no block at `p` passes the filter whole. */
  lemma {:induction false} WithoutNone(s: seq<Block>, p: int)
    requires forall i :: 0 <= i < |s| ==> s[i].position != p
    ensures Without(s, p) == s
    decreases |s|
  {
    if s != [] {
      WithoutNone(s[..|s| - 1], p);
      assert s[..|s| - 1] + [s[|s| - 1]] == s;
    }
  }

  /** On a dense list the filter drops exactly the `p`-th block. */
  lemma WithoutDense(s: seq<Block>, p: int)
    requires Dense(s) && 1 <= p <= |s|
    ensures Without(s, p) == s[..p - 1] + s[p..]
  {
    var a, b := s[..p - 1], s[p..];
    assert s == a + [s[p - 1]] + b;
    WithoutSplit(a, s[p - 1], b, p);
  }

  lemma WithoutSplit(a: seq<Block>, x: Block, b: seq<Block>, p: int)
    requires forall i :: 0 <= i < |a| ==> a[i].position != p
    requires forall i :: 0 <= i < |b| ==> b[i].position != p
    requires x.position == p
    ensures Without(a + [x] + b, p) == a + b
  {
    WithoutNone(a, p);
    WithoutNone(b, p);
    assert Without([x], p) == [] by {
      assert [x][..0] == [];
    }
    WithoutAppend(a, [x], p);
    WithoutAppend(a + [x], b, p);
  }

  /**
   * Deleting position `p` from a dense list removes exactly the `p`-th block:
   * the blocks before it are untouched, the blocks after it keep their order
   * and close the gap, and the list is dense again.
   */
  lemma DenseDelete(s: seq<Block>, p: int)
    requires Dense(s) && 1 <= p <= |s|
    ensures |Lowered(Without(s, p), p)| == |s| - 1
    ensures Dense(Lowered(Without(s, p), p))
    ensures forall i :: 0 <= i < p - 1 ==> Lowered(Without(s, p), p)[i] == s[i]
    ensures forall i :: p - 1 <= i < |s| - 1 ==>
              Lowered(Without(s, p), p)[i] == s[i + 1].(position := i + 1)
  {
    WithoutDense(s, p);
    var w := Without(s, p);
    var r := Lowered(w, p);
    forall i | 0 <= i < |r| ensures r[i].position == i + 1
      && (i < p - 1 ==> r[i] == s[i]) && (i >= p - 1 ==> r[i] == s[i + 1].(position := i + 1))
    {
      if i < p - 1 {
        assert w[i] == s[i];
      } else {
        assert w[i] == s[i + 1];
      }
    }
  }

  /**
   * A dense submission still passes the server's position check once the
   * deletion markers (all at position 0) are appended, and keeps the mix rule.
   */
  lemma SubmissionWithMarkers(s: seq<Block>, markers: seq<Block>)
    requires Dense(s)
    requires forall i :: 0 <= i < |markers| ==> markers[i].position == 0
    ensures !Validation.Collides(s + markers)
    ensures MixOk(s) ==> MixOk(s + markers)
  {
    var t := s + markers;
    Validation.CollidesIff(t);
    forall i, j | 0 <= i < j < |t| && 1 <= t[i].position <= |t|
      ensures t[i].position != t[j].position
    {
      assert i < |s|;
      assert t[i] == s[i];
      if j < |s| {
        assert t[j] == s[j];
      } else {
        assert t[j] == markers[j - |s|];
      }
    }
    if MixOk(s) {
      MixOkAppend(s, markers);
    }
  }

  /** The `filter` loop of `deleteBlock`. */
  method FilterOut(s: seq<Block>, p: int) returns (kept: seq<Block>)
    ensures kept == Without(s, p)
  {
    kept := [];
    for i := 0 to |s|
      invariant kept == Without(s[..i], p)
    {
      assert s[..i + 1][..i] == s[..i];
      if s[i].position != p {
        kept := kept + [s[i]];
      }
    }
    assert s[..|s|] == s;
  }

  /** The `map` loop of `deleteBlock`, decrementing in place. */
  method LowerAbove(s: seq<Block>, p: int) returns (lowered: seq<Block>)
    ensures lowered == Lowered(s, p)
  {
    lowered := [];
    for i := 0 to |s|
      invariant |lowered| == i
      invariant forall j :: 0 <= j < i ==> lowered[j] == Lower(s[j], p)
    {
      var b := s[i];
      if b.position > p {
        b := b.(position := b.position - 1);
      }
      lowered := lowered + [b];
    }
  }

  class PageForm {
    var blocks: seq<Block>
    var blocksDeleted: seq<Block>
    var errorMessage: string
    /** Whether the form edits a stored page (`props.page`) rather than a new one. */
    const editing: bool

    /** The initial state: a stored page's blocks sorted by position, or no blocks. */
    constructor (page: Option<seq<Block>>)
      ensures editing == page.Some?
      ensures blocks == if page.Some? then SortBy(page.value, Position) else []
      ensures blocksDeleted == [] && errorMessage == ""
    {
      editing := page.Some?;
      blocks := if page.Some? then SortBy(page.value, Position) else [];
      blocksDeleted := [];
      errorMessage := "";
    }

    /** `addBlock(key)`. */
    method AddBlock(key: string)
      modifies this
      ensures blocks == old(blocks) + [NewBlock(old(blocks), key)]
      ensures blocksDeleted == old(blocksDeleted) && errorMessage == old(errorMessage)
    {
      var b := NewBlock(blocks, key);
      blocks := blocks + [b];
    }

    /** `handleBlock(position, newValue)`. */
    method HandleBlock(position: int, newValue: string)
      modifies this
      ensures blocks == WithValue(old(blocks), position, newValue)
      ensures blocksDeleted == old(blocksDeleted) && errorMessage == old(errorMessage)
    {
      var edited: seq<Block> := [];
      for i := 0 to |blocks|
        invariant |edited| == i
        invariant forall j :: 0 <= j < i ==>
                    edited[j] == if blocks[j].position == position then blocks[j].(value := Str(newValue)) else blocks[j]
      {
        var b := blocks[i];
        if b.position == position {
          b := b.(value := Str(newValue));
        }
        edited := edited + [b];
      }
      blocks := edited;
    }

    /** `handleOrder(direction, curPos)`. */
    method HandleOrder(direction: string, curPos: int)
      modifies this
      ensures blocks == Reordered(old(blocks), direction, curPos)
      ensures blocksDeleted == old(blocksDeleted) && errorMessage == old(errorMessage)
    {
      var other := if direction == Up then curPos - 1 else curPos + 1;
      var moved: seq<Block> := [];
      for i := 0 to |blocks|
        invariant |moved| == i
        invariant forall j :: 0 <= j < i ==> moved[j] == blocks[j].(position := Swapped(blocks[j].position, curPos, other))
      {
        var b := blocks[i];
        if b.position == curPos {
          b := b.(position := other);
        } else if b.position == other {
          b := b.(position := curPos);
        }
        moved := moved + [b];
      }
      assert moved == Moved(blocks, curPos, Neighbour(direction, curPos));
      blocks := SortBy(moved, Position);
    }

    /**
     * `deleteBlock(position)`. The block whose `created` flag decides the marker
     * is the one at index `position - 1`; the one removed is the one at
     * `position`. An index outside the list makes the source throw before any
     * state changes.
     */
    method DeleteBlock(position: int)
      modifies this
      ensures !(1 <= position <= |old(blocks)|) ==>
                blocks == old(blocks) && blocksDeleted == old(blocksDeleted)
      ensures 1 <= position <= |old(blocks)| ==>
                blocksDeleted == old(blocksDeleted) + MarkersFor(old(blocks)[position - 1])
      ensures 1 <= position <= |old(blocks)| ==>
                blocks == Lowered(Without(old(blocks), position), position)
      ensures errorMessage == old(errorMessage)
    {
      if !(1 <= position <= |blocks|) {
        return;
      }
      if !blocks[position - 1].created {
        blocksDeleted := blocksDeleted + [Marker(blocks[position - 1])];
      }
      var kept := FilterOut(blocks, position);
      var lowered := LowerAbove(kept, position);
      blocks := lowered;
    }

    /**
     * `handleSubmit`: without a header and a block of another type the form
     * shows the mix message and submits nothing; otherwise it submits the
     * blocks, with the deletion markers pushed onto them when editing.
     */
    method HandleSubmit() returns (submitted: Option<seq<Block>>)
      modifies this
      ensures !MixOk(old(blocks)) ==>
                submitted.None? && errorMessage == MixMessage && blocks == old(blocks)
      ensures MixOk(old(blocks)) ==>
                errorMessage == old(errorMessage)
                && blocks == old(blocks) + (if editing then old(blocksDeleted) else [])
                && submitted == Some(blocks)
      ensures blocksDeleted == old(blocksDeleted)
    {
      if !(Any(blocks, IsHeader) && Any(blocks, IsNotHeader)) {
        errorMessage := MixMessage;
        return None;
      }
      if editing {
        var i := 0;
        var pushed := blocks;
        while i < |blocksDeleted|
          invariant 0 <= i <= |blocksDeleted|
          invariant pushed == blocks + blocksDeleted[..i]
        {
          pushed := pushed + [blocksDeleted[i]];
          assert blocksDeleted[..i + 1] == blocksDeleted[..i] + [blocksDeleted[i]];
          i := i + 1;
        }
        assert blocksDeleted[..i] == blocksDeleted;
        blocks := pushed;
      }
      submitted := Some(blocks);
    }
  }
}
