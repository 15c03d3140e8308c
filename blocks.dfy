/**
 * The content block as the client and the server exchange it in JSON, and the
 * JavaScript readings of its fields (`!b.type`, `b.id || b.created`, `Array.some`)
 * that the validators of both sides are written in.
 */
module Blocks {
  import opened Wrappers

  /**
   * The JSON value held in a block's `value` field. The validators tell strings
   * apart from everything else (`typeof b.value === 'string'`), and read the
   * truthiness of the rest:
   *  - `Str(s)`: a string, falsy exactly when empty;
   *  - `Missing`: `undefined` or `null`, falsy, and reading `.length` on it throws;
   *  - `Other(truthy)`: a number, boolean or non-array object, whose `.length` is `undefined`.
   */
  datatype Value = Str(s: string) | Missing | Other(truthy: bool)

  /**
   * A block of a page. The JSON field `type` is `kind` here; an absent `type` is
   * the empty string and an absent `position` is 0, which JavaScript reads the
   * same way (falsy, and never a valid index of the position counter).
   * `created` marks a block the editor added; `deleted` a deletion marker.
   */
  datatype Block = Block(id: Option<nat>, kind: string, value: Value, position: int,
                         created: bool, deleted: bool)

  /** The logged-in user as the server's session and the client's props carry it. */
  datatype User = User(id: int, role: string)

  const Header := "header"
  const Paragraph := "paragraph"
  const Image := "image"

  /** JavaScript truthiness of a block value. */
  predicate Truthy(v: Value) {
    match v
    case Str(s) => s != ""
    case Missing => false
    case Other(t) => t
  }

  /** `b.id` is truthy: present and not 0. */
  predicate HasId(b: Block) {
    b.id.Some? && b.id.value != 0
  }

  predicate IsHeader(b: Block) {
    b.kind == Header
  }

  predicate IsNotHeader(b: Block) {
    b.kind != Header
  }

  /** `Array.prototype.some`: true iff some element satisfies `p`. */
  function Any<T>(s: seq<T>, p: T -> bool): (r: bool)
    ensures r <==> exists i :: 0 <= i < |s| && p(s[i])
  {
    if s == [] then false else p(s[0]) || Any(s[1..], p)
  }

  /**
   * The mix rule that both the editor on submit and the server validators apply:
   * some block is a header and some block is not.
   */
  predicate MixOk(blocks: seq<Block>) {
    Any(blocks, IsHeader) && Any(blocks, IsNotHeader)
  }

  /** The sort key of `(b1, b2) => b1.position - b2.position`. */
  function Position(b: Block): int {
    b.position
  }

  /** The mix rule survives appending blocks: appended blocks only add to both sides. */
  lemma {:induction false} MixOkAppend(a: seq<Block>, b: seq<Block>)
    requires MixOk(a)
    ensures MixOk(a + b)
  {
    var i :| 0 <= i < |a| && IsHeader(a[i]);
    var j :| 0 <= j < |a| && IsNotHeader(a[j]);
    assert (a + b)[i] == a[i] && (a + b)[j] == a[j];
  }
}
