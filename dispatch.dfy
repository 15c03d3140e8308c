/**
 * The block writes of the page handlers: the `blocks` table reached through
 * `deleteBlock`, `updateBlock` and `createBlock`, the loop of the update
 * handler that routes every submitted block to one of them, and the loop of
 * the create handler that inserts every block of a new page.
 */
module Dispatch {
  import opened Wrappers
  import opened Blocks

  /** A row of the `blocks` table. */
  datatype StoredBlock = StoredBlock(page: nat, kind: string, value: Value, position: int)

  /** The `blocks` table: its rows by id, and the id the next insert receives. */
  datatype Table = Table(rows: map<nat, StoredBlock>, nextId: nat)

  /** The `{error: ...}` results of the writes that check `this.changes`. */
  datatype DaoError =
    | NoBlockDeleted  // "No block deleted."
    | NoBlockUpdated  // "No block was updated."

  /** Every row id is below the next id: inserted ids are fresh. */
  predicate Fresh(t: Table) {
    forall k :: k in t.rows ==> k < t.nextId
  }

  /** `WHERE id=? AND page=?` matches a row (an absent id binds NULL and matches none). */
  predicate OnPage(t: Table, id: Option<nat>, page: nat) {
    id.Some? && id.value in t.rows && t.rows[id.value].page == page
  }

  /** The row `createBlock` inserts for a block. */
  function Stored(b: Block, page: nat): StoredBlock {
    StoredBlock(page, b.kind, b.value, b.position)
  }

  /** `deleteBlock`: exactly the matching row goes, or nothing changes and the error is reported. */
  function DeleteRow(t: Table, id: Option<nat>, page: nat): (Table, Option<DaoError>) {
    if OnPage(t, id, page) then (t.(rows := t.rows - {id.value}), None)
    else (t, Some(NoBlockDeleted))
  }

  /** `updateBlock`: `UPDATE blocks SET value=?, position=?` on the matching row. */
  function UpdateRow(t: Table, id: Option<nat>, value: Value, position: int, page: nat): (Table, Option<DaoError>) {
    if OnPage(t, id, page) then
      (t.(rows := t.rows[id.value := t.rows[id.value].(value := value, position := position)]), None)
    else (t, Some(NoBlockUpdated))
  }

  /** `createBlock`: a new row under the next id. */
  function InsertRow(t: Table, b: Block, page: nat): Table {
    Table(t.rows[t.nextId := Stored(b, page)], t.nextId + 1)
  }

  /**
   * One iteration of the update handler's loop. A block goes to exactly one
   * write: a deleted block is deleted, else a created block is inserted, else
   * the existing row is updated; a write that fails changes nothing.
   */
  function Step(t: Table, b: Block, page: nat): (r: (Table, Option<DaoError>))
    // a deletion marker removes the matching row of the page, and only that row
    ensures b.deleted ==> r.0.nextId == t.nextId && r.0.rows.Keys <= t.rows.Keys
    ensures b.deleted ==> (r.1.None? <==> OnPage(t, b.id, page))
    ensures b.deleted ==> r.1.None? || r.1 == Some(NoBlockDeleted)
    ensures b.deleted && r.1.None? ==> b.id.Some? && r.0.rows.Keys == t.rows.Keys - {b.id.value}
    ensures b.deleted ==> forall k :: k in r.0.rows ==> r.0.rows[k] == t.rows[k]
    // a created block is stored under the next id, every old row kept
    ensures !b.deleted && b.created ==> r.1.None? && r.0.nextId == t.nextId + 1
                                        && r.0.rows.Keys == t.rows.Keys + {t.nextId}
    ensures !b.deleted && b.created ==>
      r.0.rows[t.nextId] == StoredBlock(page, b.kind, b.value, b.position)
    ensures !b.deleted && b.created && Fresh(t) ==> forall k :: k in t.rows ==> r.0.rows[k] == t.rows[k]
    // any other block takes its value and position into the matching row of the page
    ensures !b.deleted && !b.created ==> r.0.rows.Keys == t.rows.Keys && r.0.nextId == t.nextId
    ensures !b.deleted && !b.created ==> (r.1.None? <==> OnPage(t, b.id, page))
    ensures !b.deleted && !b.created ==> r.1.None? || r.1 == Some(NoBlockUpdated)
    ensures !b.deleted && !b.created && r.1.None? ==>
      && r.0.rows[b.id.value].page == page
      && r.0.rows[b.id.value].kind == t.rows[b.id.value].kind
      && r.0.rows[b.id.value].value == b.value
      && r.0.rows[b.id.value].position == b.position
    ensures !b.deleted && !b.created ==>
      forall k :: k in t.rows && Some(k) != b.id ==> r.0.rows[k] == t.rows[k]
    ensures r.1.Some? ==> r.0 == t
    ensures Fresh(t) ==> Fresh(r.0)
    ensures Fresh(t) ==> forall k :: k in t.rows && t.rows[k].page != page ==> k in r.0.rows && r.0.rows[k] == t.rows[k]
  {
    if b.deleted then DeleteRow(t, b.id, page)
    else if b.created then (InsertRow(t, b, page), None)  // the handler does not inspect this result
    else UpdateRow(t, b.id, b.value, b.position, page)
  }

  /** The update handler's loop: the blocks in order, returning at the first error. */
  function Run(t: Table, blocks: seq<Block>, page: nat): (Table, Option<DaoError>)
    decreases |blocks|
  {
    if blocks == [] then (t, None)
    else
      var (next, e) := Step(t, blocks[0], page);
      if e.Some? then (next, e) else Run(next, blocks[1..], page)
  }

  /** The create handler's loop: every block inserted, in order. */
  function InsertAll(t: Table, blocks: seq<Block>, page: nat): Table
    decreases |blocks|
  {
    if blocks == [] then t else InsertAll(InsertRow(t, blocks[0], page), blocks[1..], page)
  }

  /** The table and the writes, as the handlers call them one after another. */
  class BlockStore {
    var rows: map<nat, StoredBlock>
    var nextId: nat

    function Snapshot(): Table
      reads this
    {
      Table(rows, nextId)
    }

    constructor (initial: Table)
      ensures Snapshot() == initial
    {
      rows := initial.rows;
      nextId := initial.nextId;
    }

    method DeleteBlock(id: Option<nat>, page: nat) returns (err: Option<DaoError>)
      modifies this
      ensures (Snapshot(), err) == DeleteRow(old(Snapshot()), id, page)
    {
      if id.Some? && id.value in rows && rows[id.value].page == page {
        rows := rows - {id.value};
        err := None;
      } else {
        err := Some(NoBlockDeleted);
      }
    }

    method UpdateBlock(id: Option<nat>, b: Block, page: nat) returns (err: Option<DaoError>)
      modifies this
      ensures (Snapshot(), err) == UpdateRow(old(Snapshot()), id, b.value, b.position, page)
    {
      if id.Some? && id.value in rows && rows[id.value].page == page {
        rows := rows[id.value := rows[id.value].(value := b.value, position := b.position)];
        err := None;
      } else {
        err := Some(NoBlockUpdated);
      }
    }

    method CreateBlock(b: Block, page: nat) returns (newId: nat)
      modifies this
      ensures Snapshot() == InsertRow(old(Snapshot()), b, page)
      ensures newId == old(nextId)
    {
      newId := nextId;
      rows := rows[nextId := Stored(b, page)];
      nextId := nextId + 1;
    }

    /** `for (const block of blocks)` in the update handler. */
    method ApplyBlocks(blocks: seq<Block>, page: nat) returns (err: Option<DaoError>)
      modifies this
      ensures (Snapshot(), err) == Run(old(Snapshot()), blocks, page)
    {
      var i := 0;
      while i < |blocks|
        invariant 0 <= i <= |blocks|
        invariant Run(old(Snapshot()), blocks, page) == Run(Snapshot(), blocks[i..], page)
      {
        var b := blocks[i];
        assert blocks[i..][0] == b && blocks[i..][1..] == blocks[i + 1..];
        var e: Option<DaoError>;
        if b.deleted {
          e := DeleteBlock(b.id, page);
        } else if b.created {
          var created := CreateBlock(b, page);
          e := None;
        } else {
          e := UpdateBlock(b.id, b, page);
        }
        if e.Some? {
          return e;
        }
        i := i + 1;
      }
      return None;
    }

    /** `for (const block of page.blocks)` in the create handler. */
    method CreateBlocks(blocks: seq<Block>, page: nat)
      modifies this
      ensures Snapshot() == InsertAll(old(Snapshot()), blocks, page)
    {
      var i := 0;
      while i < |blocks|
        invariant 0 <= i <= |blocks|
        invariant InsertAll(old(Snapshot()), blocks, page) == InsertAll(Snapshot(), blocks[i..], page)
      {
        assert blocks[i..][0] == blocks[i] && blocks[i..][1..] == blocks[i + 1..];
        var created := CreateBlock(blocks[i], page);
        i := i + 1;
      }
    }
  }

  /** Counts of deletion markers and of created blocks. */
  function Deletions(blocks: seq<Block>): nat {
    if blocks == [] then 0 else (if blocks[0].deleted then 1 else 0) + Deletions(blocks[1..])
  }

  function Creations(blocks: seq<Block>): nat {
    if blocks == [] then 0 else (if !blocks[0].deleted && blocks[0].created then 1 else 0) + Creations(blocks[1..])
  }

  /** The writes keep inserted ids fresh. */
  lemma {:induction false} RunKeepsFresh(t: Table, blocks: seq<Block>, page: nat)
    requires Fresh(t)
    ensures Fresh(Run(t, blocks, page).0)
    decreases |blocks|
  {
    if blocks != [] {
      var (next, e) := Step(t, blocks[0], page);
      if e.None? {
        RunKeepsFresh(next, blocks[1..], page);
      }
    }
  }

  /**
   * The loop stops at the first failing write: when it reports an error, the
   * blocks before index k were all applied without error, block k failed,
   * and nothing after it was applied.
   */
  lemma {:induction false} RunStopsAtFirstError(t: Table, blocks: seq<Block>, page: nat) returns (k: nat)
    requires Run(t, blocks, page).1.Some?
    ensures k < |blocks|
    ensures Run(t, blocks[..k], page).1.None?
    ensures Step(Run(t, blocks[..k], page).0, blocks[k], page) == Run(t, blocks, page)
    decreases |blocks|
  {
    var (next, e) := Step(t, blocks[0], page);
    if e.Some? {
      k := 0;
    } else {
      var rest := blocks[1..];
      var k' := RunStopsAtFirstError(next, rest, page);
      k := k' + 1;
      assert blocks[..k][0] == blocks[0] && blocks[..k][1..] == rest[..k'];
      assert rest[k'] == blocks[k];
    }
  }

  /** Rows of other pages are never touched. */
  lemma {:induction false} RunLeavesOtherPages(t: Table, blocks: seq<Block>, page: nat, k: nat)
    requires Fresh(t) && k in t.rows && t.rows[k].page != page
    ensures k in Run(t, blocks, page).0.rows && Run(t, blocks, page).0.rows[k] == t.rows[k]
    decreases |blocks|
  {
    if blocks != [] {
      var (next, e) := Step(t, blocks[0], page);
      if e.None? {
        RunLeavesOtherPages(next, blocks[1..], page, k);
      }
    }
  }

  /** An id that is absent and below the next id stays absent through a successful run. */
  lemma {:induction false} AbsentStaysAbsent(t: Table, blocks: seq<Block>, page: nat, k: nat)
    requires k !in t.rows && k < t.nextId
    requires Run(t, blocks, page).1.None?
    ensures k !in Run(t, blocks, page).0.rows
    decreases |blocks|
  {
    if blocks != [] {
      var (next, e) := Step(t, blocks[0], page);
      AbsentStaysAbsent(next, blocks[1..], page, k);
    }
  }

  /** After a successful run, no row is left under the id of any deletion marker. */
  lemma {:induction false} RunRemovesDeleted(t: Table, blocks: seq<Block>, page: nat, i: nat)
    requires Fresh(t) && Run(t, blocks, page).1.None?
    requires i < |blocks| && blocks[i].deleted
    ensures blocks[i].id.Some? && blocks[i].id.value !in Run(t, blocks, page).0.rows
    decreases |blocks|
  {
    var (next, e) := Step(t, blocks[0], page);
    if i == 0 {
      AbsentStaysAbsent(next, blocks[1..], page, blocks[0].id.value);
    } else {
      RunRemovesDeleted(next, blocks[1..], page, i - 1);
    }
  }

  /** A block that can write to an existing row: a deletion marker, or a block that is not created. */
  predicate WritesExisting(b: Block) {
    b.deleted || !b.created
  }

  /** A row that no deleting or updating block names comes through a successful run unchanged. */
  lemma {:induction false} RunKeepsRow(t: Table, blocks: seq<Block>, page: nat, k: nat)
    requires Fresh(t) && k in t.rows && Run(t, blocks, page).1.None?
    requires forall j :: 0 <= j < |blocks| && WritesExisting(blocks[j]) ==> blocks[j].id != Some(k)
    ensures k in Run(t, blocks, page).0.rows && Run(t, blocks, page).0.rows[k] == t.rows[k]
    decreases |blocks|
  {
    if blocks != [] {
      var (next, e) := Step(t, blocks[0], page);
      assert k in next.rows && next.rows[k] == t.rows[k];
      RunKeepsRow(next, blocks[1..], page, k);
    }
  }

  /**
   * After a successful run, the row of a block that is neither created nor
   * deleted holds that block's value and position, on the page, with its old
   * type, unless a later block writes to the same id.
   */
  lemma {:induction false} RunUpdatesRow(t: Table, blocks: seq<Block>, page: nat, i: nat)
    requires Fresh(t) && Run(t, blocks, page).1.None?
    requires i < |blocks| && !blocks[i].deleted && !blocks[i].created
    requires forall j :: i < j < |blocks| && WritesExisting(blocks[j]) ==> blocks[j].id != blocks[i].id
    ensures OnPage(Run(t, blocks, page).0, blocks[i].id, page)
    ensures Run(t, blocks, page).0.rows[blocks[i].id.value].value == blocks[i].value
    ensures Run(t, blocks, page).0.rows[blocks[i].id.value].position == blocks[i].position
    decreases |blocks|
  {
    var (next, e) := Step(t, blocks[0], page);
    if i == 0 {
      RunKeepsRow(next, blocks[1..], page, blocks[0].id.value);
    } else {
      RunUpdatesRow(next, blocks[1..], page, i - 1);
    }
  }

  /**
   * After a successful run the table has one row more per created block and
   * one row fewer per deletion marker.
   */
  lemma {:induction false} RunRowCount(t: Table, blocks: seq<Block>, page: nat)
    requires Fresh(t) && Run(t, blocks, page).1.None?
    ensures |Run(t, blocks, page).0.rows| + Deletions(blocks) == |t.rows| + Creations(blocks)
    decreases |blocks|
  {
    if blocks != [] {
      var b := blocks[0];
      var (next, e) := Step(t, b, page);
      RunRowCount(next, blocks[1..], page);
      if b.deleted {
        assert next.rows.Keys == t.rows.Keys - {b.id.value};
        assert |next.rows.Keys| == |t.rows.Keys| - 1;
      } else if b.created {
        assert t.nextId !in t.rows.Keys;
        assert |next.rows.Keys| == |t.rows.Keys| + 1;
      } else {
        assert |next.rows.Keys| == |t.rows.Keys|;
      }
    }
  }

  /**
   * Inserting a new page's blocks adds one row per block, under consecutive
   * fresh ids, in block order, and keeps every existing row.
   */
  lemma {:induction false} InsertAllRows(t: Table, blocks: seq<Block>, page: nat)
    requires Fresh(t)
    ensures InsertAll(t, blocks, page).nextId == t.nextId + |blocks|
    ensures forall k :: k in InsertAll(t, blocks, page).rows <==> k in t.rows || t.nextId <= k < t.nextId + |blocks|
    ensures forall k :: k in t.rows ==> InsertAll(t, blocks, page).rows[k] == t.rows[k]
    ensures forall i :: 0 <= i < |blocks| ==> InsertAll(t, blocks, page).rows[t.nextId + i] == Stored(blocks[i], page)
    decreases |blocks|
  {
    if blocks != [] {
      var next := InsertRow(t, blocks[0], page);
      InsertAllRows(next, blocks[1..], page);
      forall i | 0 <= i < |blocks|
        ensures InsertAll(t, blocks, page).rows[t.nextId + i] == Stored(blocks[i], page)
      {
        if i > 0 {
          assert blocks[1..][i - 1] == blocks[i];
        }
      }
    }
  }
}
