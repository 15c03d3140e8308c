/**
 * The block validators of the page API: the `body('blocks').custom(...)`
 * checks of page creation and page update, and the lookup of image blocks in
 * the stored image collection.
 */
module Validation {
  import opened Wrappers
  import opened Blocks

  /** Why a block list is rejected; each constructor notes the message the server throws. */
  datatype BlockError =
    | MissingProps            // "Blocks missing props"
    | Inconsistency           // "Blocks inconsistency"
    | InvalidValues           // "Invalid block values"
    | InvalidHeaderLength     // "Invalid header length"
    | InvalidParagraphLength  // "Invalid paragraph length"
    | InvalidType             // "Invalid type"
    | ValueUnreadable         // the TypeError of reading `length` of undefined or null
    | InvalidPositions        // "Invalid positions"

  const HeaderMaxLength := 50
  const ParagraphMaxLength := 300

  /** The closed set `["header", "paragraph", "image"]`. */
  predicate KnownType(kind: string) {
    kind == Header || kind == Paragraph || kind == Image
  }

  /** `b.type && b.value && b.position` are all truthy. */
  predicate Complete(b: Block) {
    b.kind != "" && Truthy(b.value) && b.position != 0
  }

  predicate Incomplete(b: Block) {
    !Complete(b)
  }

  predicate UnknownType(b: Block) {
    !KnownType(b.kind)
  }

  /** On update: none of `id`, `created`, `deleted` is truthy. */
  predicate Unmarked(b: Block) {
    !HasId(b) && !b.created && !b.deleted
  }

  predicate LiveIncomplete(b: Block) {
    !b.deleted && !Complete(b)
  }

  predicate LiveUnknownType(b: Block) {
    !b.deleted && !KnownType(b.kind)
  }

  /**
   * `if (b.value.length === 0 || b.value.length > max) throw e`. A string is
   * measured; `undefined`/`null` make the read throw; any other value has an
   * undefined `length`, for which both comparisons are false.
   */
  function LengthError(v: Value, max: nat, e: BlockError): Option<BlockError> {
    match v
    case Str(s) => if |s| == 0 || |s| > max then Some(e) else None
    case Missing => Some(ValueUnreadable)
    case Other(_) => None
  }

  /** One pass of the create validator's `for (const b of blocks)` loop. */
  function CreateValueError(b: Block): Option<BlockError> {
    if !b.value.Str? then Some(InvalidValues)
    else if b.kind == Header then LengthError(b.value, HeaderMaxLength, InvalidHeaderLength)
    else if b.kind == Paragraph then LengthError(b.value, ParagraphMaxLength, InvalidParagraphLength)
    else if b.kind == Image then None
    else Some(InvalidType)
  }

  /**
   * One pass of the update validator's loop: deleted blocks skip the string
   * test, and the `switch` has no `default` case.
   */
  function UpdateValueError(b: Block): Option<BlockError> {
    if !b.deleted && !b.value.Str? then Some(InvalidValues)
    else if b.kind == Header then LengthError(b.value, HeaderMaxLength, InvalidHeaderLength)
    else if b.kind == Paragraph then LengthError(b.value, ParagraphMaxLength, InvalidParagraphLength)
    else None
  }

  /** The error a loop throws first when it applies `f` to the blocks in order. */
  function FirstError(s: seq<Block>, f: Block -> Option<BlockError>): (r: Option<BlockError>)
    ensures r.None? <==> forall i :: 0 <= i < |s| ==> f(s[i]).None?
    ensures r.Some? ==> exists i :: 0 <= i < |s| && f(s[i]) == r && forall j :: 0 <= j < i ==> f(s[j]).None?
  {
    if s == [] then None
    else if f(s[0]).Some? then f(s[0])
    else
      var r := FirstError(s[1..], f);
      assert r.Some? ==> exists i :: 0 <= i < |s| - 1 && f(s[1..][i]) == r && forall j :: 0 <= j < i ==> f(s[1..][j]).None?;
      assert r.Some? ==> exists i :: 1 <= i < |s| && f(s[i]) == r && forall j :: 1 <= j < i ==> f(s[j]).None?;
      r
  }

  /** The blocks whose position the counter array records: `b.id || b.created`. */
  predicate Counted(b: Block) {
    HasId(b) || b.created
  }

  /** How many recorded blocks sit at position `p`. */
  function Count(s: seq<Block>, p: int): nat {
    if s == [] then 0
    else Count(s[..|s| - 1], p) + (if Counted(s[|s| - 1]) && s[|s| - 1].position == p then 1 else 0)
  }

  /**
   * `positions.some((count) => count > 1)` over `Array(n).fill(0)`: only the
   * cells 1..n are ever visited, so a position outside that range is never seen.
   */
  predicate Collides(s: seq<Block>) {
    exists p :: 1 <= p <= |s| && Count(s, p) > 1
  }

  /** Two different recorded blocks share a position that lies in 1..n. */
  predicate SharedInRange(s: seq<Block>) {
    exists i, j :: 0 <= i < j < |s| && Counted(s[i]) && Counted(s[j])
      && s[i].position == s[j].position && 1 <= s[i].position <= |s|
  }

  lemma {:induction false} CountOne(s: seq<Block>, i: int)
    requires 0 <= i < |s| && Counted(s[i])
    ensures Count(s, s[i].position) >= 1
  {
    var init := s[..|s| - 1];
    if i < |s| - 1 {
      assert init[i] == s[i];
      CountOne(init, i);
    }
  }

  lemma {:induction false} CountPair(s: seq<Block>, i: int, j: int)
    requires 0 <= i < j < |s| && Counted(s[i]) && Counted(s[j]) && s[i].position == s[j].position
    ensures Count(s, s[i].position) >= 2
  {
    var init := s[..|s| - 1];
    assert init[i] == s[i];
    if j == |s| - 1 {
      CountOne(init, i);
    } else {
      assert init[j] == s[j];
      CountPair(init, i, j);
    }
  }

  lemma {:induction false} CountOneWitness(s: seq<Block>, p: int) returns (i: nat)
    requires Count(s, p) >= 1
    ensures i < |s| && Counted(s[i]) && s[i].position == p
  {
    var init := s[..|s| - 1];
    if Count(init, p) >= 1 {
      i := CountOneWitness(init, p);
      assert init[i] == s[i];
    } else {
      i := |s| - 1;
    }
  }

  lemma {:induction false} CountPairWitness(s: seq<Block>, p: int) returns (i: nat, j: nat)
    requires Count(s, p) >= 2
    ensures i < j < |s| && Counted(s[i]) && Counted(s[j]) && s[i].position == p && s[j].position == p
  {
    var init := s[..|s| - 1];
    if Count(init, p) >= 2 {
      i, j := CountPairWitness(init, p);
      assert init[i] == s[i] && init[j] == s[j];
    } else {
      i := CountOneWitness(init, p);
      assert init[i] == s[i];
      j := |s| - 1;
    }
  }

  /** The counter reports a collision exactly when two recorded blocks share a position in 1..n. */
  lemma CollidesIff(s: seq<Block>)
    ensures Collides(s) <==> SharedInRange(s)
  {
    if Collides(s) {
      var p :| 1 <= p <= |s| && Count(s, p) > 1;
      var i, j := CountPairWitness(s, p);
    }
    if SharedInRange(s) {
      var i, j :| 0 <= i < j < |s| && Counted(s[i]) && Counted(s[j])
        && s[i].position == s[j].position && 1 <= s[i].position <= |s|;
      CountPair(s, i, j);
    }
  }

  /**
   * The position check as the server runs it: a zero-filled counter array,
   * incremented for every recorded block, then scanned for a count above one.
   */
  method PositionsCollide(blocks: seq<Block>) returns (collide: bool)
    ensures collide == Collides(blocks)
  {
    var n := |blocks|;
    var positions := new int[n](_ => 0);
    var i := 0;
    while i < n
      invariant 0 <= i <= n
      invariant forall q :: 0 <= q < n ==> positions[q] == Count(blocks[..i], q + 1)
    {
      var b := blocks[i];
      assert blocks[..i + 1][..i] == blocks[..i];
      // `positions[b.position - 1] += 1` outside 0..n-1 only adds a property the scan never visits
      if Counted(b) && 1 <= b.position <= n {
        positions[b.position - 1] := positions[b.position - 1] + 1;
      }
      i := i + 1;
    }
    assert blocks[..n] == blocks;
    collide := false;
    var q := 0;
    while q < n && !collide
      invariant 0 <= q <= n
      invariant collide <==> exists k :: 0 <= k < q && positions[k] > 1
    {
      collide := positions[q] > 1;
      q := q + 1;
    }
    if collide {
      var k :| 0 <= k < q && positions[k] > 1;
      assert Count(blocks, k + 1) > 1;
    } else {
      forall p | 1 <= p <= n ensures Count(blocks, p) <= 1 {
        assert positions[p - 1] <= 1;
      }
    }
  }

  /** The verdict of the create validator (`POST /api/pages`); None means the blocks pass. */
  function CreateVerdict(blocks: seq<Block>): Option<BlockError> {
    if Any(blocks, Incomplete) then Some(MissingProps)
    else if !MixOk(blocks) || Any(blocks, UnknownType) then Some(Inconsistency)
    else if FirstError(blocks, CreateValueError).Some? then FirstError(blocks, CreateValueError)
    else if Collides(blocks) then Some(InvalidPositions)
    else None
  }

  /** The verdict of the update validator (`PUT /api/pages/:id`); None means the blocks pass. */
  function UpdateVerdict(blocks: seq<Block>): Option<BlockError> {
    if Any(blocks, Unmarked) then Some(MissingProps)
    else if Any(blocks, LiveIncomplete) then Some(MissingProps)
    else if !MixOk(blocks) || Any(blocks, LiveUnknownType) then Some(Inconsistency)
    else if FirstError(blocks, UpdateValueError).Some? then FirstError(blocks, UpdateValueError)
    else if Collides(blocks) then Some(InvalidPositions)
    else None
  }

  /** The create validator, throwing at the first failed check. */
  method ValidateCreate(blocks: seq<Block>) returns (r: Option<BlockError>)
    ensures r == CreateVerdict(blocks)
  {
    if Any(blocks, Incomplete) {
      return Some(MissingProps);
    }
    if !MixOk(blocks) || Any(blocks, UnknownType) {
      return Some(Inconsistency);
    }
    r := FirstError(blocks, CreateValueError);
    if r.None? {
      var collide := PositionsCollide(blocks);
      r := if collide then Some(InvalidPositions) else None;
    }
  }

  /** The update validator, throwing at the first failed check. */
  method ValidateUpdate(blocks: seq<Block>) returns (r: Option<BlockError>)
    ensures r == UpdateVerdict(blocks)
  {
    if Any(blocks, Unmarked) || Any(blocks, LiveIncomplete) {
      return Some(MissingProps);
    }
    if !MixOk(blocks) || Any(blocks, LiveUnknownType) {
      return Some(Inconsistency);
    }
    r := FirstError(blocks, UpdateValueError);
    if r.None? {
      var collide := PositionsCollide(blocks);
      r := if collide then Some(InvalidPositions) else None;
    }
  }

  /** A string value whose length fits its type: 1..50 for a header, 1..300 for a paragraph. */
  predicate WellFormedValue(b: Block) {
    && b.value.Str?
    && (b.kind == Header ==> 1 <= |b.value.s| <= HeaderMaxLength)
    && (b.kind == Paragraph ==> 1 <= |b.value.s| <= ParagraphMaxLength)
  }

  /** A block the create validator accepts on its own: present fields, a known type, a fitting value. */
  predicate AcceptableBlock(b: Block) {
    Complete(b) && KnownType(b.kind) && WellFormedValue(b)
  }

  /**
   * Creation accepts a block list exactly when every block has its fields, a
   * known type and a fitting value, some block is a header and some is not,
   * and no two recorded blocks share a position in 1..n.
   */
  lemma CreateAcceptsIff(blocks: seq<Block>)
    ensures CreateVerdict(blocks).None? <==>
      && (forall i :: 0 <= i < |blocks| ==> AcceptableBlock(blocks[i]))
      && MixOk(blocks)
      && !SharedInRange(blocks)
  {
    CollidesIff(blocks);
    if forall i :: 0 <= i < |blocks| ==> Complete(blocks[i]) && KnownType(blocks[i].kind) {
      forall i | 0 <= i < |blocks|
        ensures CreateValueError(blocks[i]).None? <==> WellFormedValue(blocks[i])
      {
      }
    }
  }

  /**
   * Which message creation fails with: "Blocks missing props" exactly when a
   * field is absent; otherwise "Blocks inconsistency" exactly when the mix
   * rule fails or a type is outside the closed set.
   */
  lemma CreateRejections(blocks: seq<Block>)
    ensures CreateVerdict(blocks) == Some(MissingProps) <==> exists i :: 0 <= i < |blocks| && !Complete(blocks[i])
    ensures (forall i :: 0 <= i < |blocks| ==> Complete(blocks[i])) ==>
      (CreateVerdict(blocks) == Some(Inconsistency) <==>
        !MixOk(blocks) || exists i :: 0 <= i < |blocks| && !KnownType(blocks[i].kind))
    ensures CreateVerdict(blocks) == Some(InvalidPositions) ==> SharedInRange(blocks)
  {
    CollidesIff(blocks);
    CreateValueErrors(blocks);
  }

  /** The value loop of creation never throws the messages of the other checks. */
  lemma CreateValueErrors(blocks: seq<Block>)
    ensures FirstError(blocks, CreateValueError) !in {Some(MissingProps), Some(Inconsistency), Some(InvalidPositions)}
  {
    var e := FirstError(blocks, CreateValueError);
    if e.Some? {
      var i :| 0 <= i < |blocks| && CreateValueError(blocks[i]) == e;
    }
  }

  /** With a string value the two validators measure header and paragraph values alike. */
  lemma {:induction false} ValueChecksAgree(b: Block)
    requires !b.deleted && KnownType(b.kind) && b.value.Str?
    ensures CreateValueError(b) == UpdateValueError(b)
    ensures CreateValueError(b).None? <==> WellFormedValue(b)
  {
  }

  /**
   * What the update validator's `switch` demands of a deleted block: one that
   * still names the header or paragraph type must have a value other than
   * undefined or null, and a string value must fit that type's length. A
   * marker without a type, or of type image, passes whatever its value.
   */
  predicate DeletedValueOk(b: Block) {
    (b.kind == Header || b.kind == Paragraph) ==>
      && !b.value.Missing?
      && (b.kind == Header && b.value.Str? ==> 1 <= |b.value.s| <= HeaderMaxLength)
      && (b.kind == Paragraph && b.value.Str? ==> 1 <= |b.value.s| <= ParagraphMaxLength)
  }

  /**
   * Update accepts exactly when every block is marked (`id`, `created` or
   * `deleted`), every live block passes as on creation, every deleted block
   * passes the `switch` on its type, the mix rule holds over all blocks
   * (deletion markers included) and no two recorded blocks share a position
   * in 1..n.
   */
  lemma UpdateAcceptsIff(blocks: seq<Block>)
    ensures UpdateVerdict(blocks).None? <==>
      && (forall i :: 0 <= i < |blocks| ==> !Unmarked(blocks[i]))
      && (forall i :: 0 <= i < |blocks| && !blocks[i].deleted ==> AcceptableBlock(blocks[i]))
      && (forall i :: 0 <= i < |blocks| && blocks[i].deleted ==> DeletedValueOk(blocks[i]))
      && MixOk(blocks)
      && !SharedInRange(blocks)
  {
    CollidesIff(blocks);
    forall i | 0 <= i < |blocks| && blocks[i].deleted
      ensures UpdateValueError(blocks[i]).None? <==> DeletedValueOk(blocks[i])
    {
      DeletedValueAgrees(blocks[i]);
    }
    forall i | 0 <= i < |blocks| && !blocks[i].deleted && Complete(blocks[i]) && KnownType(blocks[i].kind)
      ensures UpdateValueError(blocks[i]).None? <==> WellFormedValue(blocks[i])
    {
      LiveValueAgrees(blocks[i]);
    }
  }

  lemma DeletedValueAgrees(b: Block)
    requires b.deleted
    ensures UpdateValueError(b).None? <==> DeletedValueOk(b)
  {
  }

  lemma LiveValueAgrees(b: Block)
    requires !b.deleted && KnownType(b.kind)
    ensures UpdateValueError(b).None? <==> WellFormedValue(b)
  {
  }

  /** A deleted header whose value is the empty string is still measured, and rejected. */
  lemma {:induction false} DeletedHeaderMeasured(blocks: seq<Block>, i: nat)
    requires forall j :: 0 <= j < |blocks| ==> UpdateValueError(blocks[j]).None? || j == i
    requires i < |blocks| && blocks[i].deleted && blocks[i].kind == Header && blocks[i].value == Str("")
    ensures FirstError(blocks, UpdateValueError) == Some(InvalidHeaderLength)
  {
    var r := FirstError(blocks, UpdateValueError);
    var k :| 0 <= k < |blocks| && UpdateValueError(blocks[k]) == r
      && forall j :: 0 <= j < k ==> UpdateValueError(blocks[j]).None?;
  }

  /** Distinct positions among recorded blocks never raise "Invalid positions". */
  lemma DistinctPositionsPass(blocks: seq<Block>)
    requires forall i, j :: 0 <= i < j < |blocks| && Counted(blocks[i]) && Counted(blocks[j]) ==>
      blocks[i].position != blocks[j].position
    ensures !Collides(blocks)
  {
    CollidesIff(blocks);
  }

  /** Dense positions `1..n` in list order never raise "Invalid positions". */
  lemma DensePositionsPass(blocks: seq<Block>)
    requires forall i :: 0 <= i < |blocks| ==> blocks[i].position == i + 1
    ensures !Collides(blocks)
  {
    DistinctPositionsPass(blocks);
  }

  /** Positions outside `1..n` are never counted, however many blocks share them. */
  lemma OutOfRangeIgnored(blocks: seq<Block>)
    requires forall i :: 0 <= i < |blocks| ==> blocks[i].position < 1 || blocks[i].position > |blocks|
    ensures !Collides(blocks)
  {
    CollidesIff(blocks);
  }

  /** A deletion marker has no type, so it is a non-header block for the mix rule. */
  lemma {:induction false} MarkerCountsAsNonHeader(blocks: seq<Block>, marker: Block)
    requires Any(blocks, IsHeader) && marker.kind == ""
    ensures MixOk(blocks + [marker])
  {
    var i :| 0 <= i < |blocks| && IsHeader(blocks[i]);
    assert (blocks + [marker])[i] == blocks[i];
    assert (blocks + [marker])[|blocks|] == marker;
  }

  /** An image block whose value is not one of the stored image names. */
  predicate UnknownImage(images: set<string>, b: Block) {
    b.kind == Image && !(b.value.Str? && b.value.s in images)
  }

  /** `blocks.some((b) => b.type === "image" && !images.includes(b.value))`: "Image not found!". */
  predicate ImageMissing(blocks: seq<Block>, images: set<string>) {
    Any(blocks, b => UnknownImage(images, b))
  }
}
