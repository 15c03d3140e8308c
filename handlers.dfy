/**
 * The checks the page handlers of the server make, in their order, before they
 * touch storage: the validators, the author and permission checks, the
 * body/URL id check and the image lookup. The remaining field validators
 * (title, author, date formats) are one outcome, `fieldErrors`.
 */
module Handlers {
  import opened Wrappers
  import opened Blocks
  import opened Validation

  /** Why a handler answers without touching storage. */
  datatype Refusal =
    | ValidationFailed  // 422, the validation messages joined
    | InvalidAuthor     // 404 "Invalid author"
    | Unauthorized      // 401 "Unauthorized"
    | ImageNotFound     // 404 "Image not found!"
    | IdMismatch        // 422 "URL and body id mismatch"
    | PageNotFound      // 404 "Page not found"

  const AdminRole := "Admin"

  predicate IsAdmin(user: User) {
    user.role == AdminRole
  }

  /** The negation of `req.user.role !== "Admin" && req.user.id !== authID`. */
  predicate Authorized(user: User, authorId: int) {
    IsAdmin(user) || user.id == authorId
  }

  /**
   * `GET /api/pages/:id` once its id is valid: the page's author id (0 when
   * falsy) must be set, and a non-admin must be that author.
   */
  function ReadGate(pageAuthor: int, user: User): (r: Option<Refusal>)
    ensures r.None? <==> pageAuthor != 0 && (IsAdmin(user) || user.id == pageAuthor)
    ensures r == Some(Unauthorized) <==> pageAuthor != 0 && !IsAdmin(user) && user.id != pageAuthor
    ensures r == Some(InvalidAuthor) <==> pageAuthor == 0
  {
    if pageAuthor == 0 then Some(InvalidAuthor)
    else if !Authorized(user, pageAuthor) then Some(Unauthorized)
    else None
  }

  /**
   * `POST /api/pages` up to storage. The author's user record is fetched
   * without `await`, and a pending promise is truthy, so only a falsy author
   * id (0) is refused as "Invalid author".
   */
  function CreateGate(fieldErrors: bool, blocks: seq<Block>, author: int, user: User,
                      images: set<string>): (r: Option<Refusal>)
    ensures r.None? <==>
      && !fieldErrors && CreateVerdict(blocks).None? && author != 0
      && (IsAdmin(user) || user.id == author) && !ImageMissing(blocks, images)
    ensures r.None? ==> MixOk(blocks) && !SharedInRange(blocks)
    ensures r.None? ==> forall i :: 0 <= i < |blocks| ==>
      AcceptableBlock(blocks[i]) && !UnknownImage(images, blocks[i])
    ensures r == Some(ValidationFailed) <==> fieldErrors || CreateVerdict(blocks).Some?
    ensures r == Some(InvalidAuthor) <==> !fieldErrors && CreateVerdict(blocks).None? && author == 0
    ensures r == Some(Unauthorized) <==>
      && !fieldErrors && CreateVerdict(blocks).None? && author != 0
      && !IsAdmin(user) && user.id != author
    ensures r == Some(ImageNotFound) <==>
      && !fieldErrors && CreateVerdict(blocks).None? && author != 0
      && (IsAdmin(user) || user.id == author) && ImageMissing(blocks, images)
    ensures r != Some(IdMismatch) && r != Some(PageNotFound)
  {
    CreateAcceptsIff(blocks);
    if fieldErrors || CreateVerdict(blocks).Some? then Some(ValidationFailed)
    else if author == 0 then Some(InvalidAuthor)
    else if !Authorized(user, author) then Some(Unauthorized)
    else if ImageMissing(blocks, images) then Some(ImageNotFound)
    else None
  }

  /**
   * `PUT /api/pages/:id` up to storage; on success, the author id the page is
   * saved with. `pageAuthor` is the stored author (0 when falsy);
   * `bodyAuthor` is the id of the user an admin names in the body (0 when
   * falsy). An admin reassigns the page to `bodyAuthor`; anyone else must be
   * the page's author, who stays its author.
   */
  function UpdateGate(fieldErrors: bool, blocks: seq<Block>, urlId: int, bodyId: Option<int>,
                      pageAuthor: int, user: User, bodyAuthor: int,
                      images: set<string>): (r: Result<int, Refusal>)
    ensures r.Ok? <==>
      && !fieldErrors && UpdateVerdict(blocks).None?
      && bodyId == Some(urlId) && pageAuthor != 0
      && (if IsAdmin(user) then bodyAuthor != 0 else user.id == pageAuthor)
      && !ImageMissing(blocks, images)
    ensures r.Ok? ==> r.value == if IsAdmin(user) then bodyAuthor else pageAuthor
    ensures r.Ok? && !IsAdmin(user) ==> r.value == user.id == pageAuthor
    ensures r.Ok? ==> MixOk(blocks) && !SharedInRange(blocks)
    ensures r.Ok? ==> forall i :: 0 <= i < |blocks| && !blocks[i].deleted ==> AcceptableBlock(blocks[i])
    ensures r == Err(ValidationFailed) <==> fieldErrors || UpdateVerdict(blocks).Some?
    ensures r == Err(IdMismatch) <==> !fieldErrors && UpdateVerdict(blocks).None? && bodyId != Some(urlId)
    ensures r == Err(PageNotFound) <==>
      && !fieldErrors && UpdateVerdict(blocks).None? && bodyId == Some(urlId)
      && pageAuthor == 0
    ensures r == Err(InvalidAuthor) <==>
      && !fieldErrors && UpdateVerdict(blocks).None? && bodyId == Some(urlId)
      && pageAuthor != 0 && IsAdmin(user) && bodyAuthor == 0
    ensures r == Err(Unauthorized) <==>
      && !fieldErrors && UpdateVerdict(blocks).None? && bodyId == Some(urlId)
      && pageAuthor != 0 && !IsAdmin(user) && user.id != pageAuthor
    ensures r == Err(ImageNotFound) <==>
      && !fieldErrors && UpdateVerdict(blocks).None? && bodyId == Some(urlId)
      && pageAuthor != 0 && (if IsAdmin(user) then bodyAuthor != 0 else user.id == pageAuthor)
      && ImageMissing(blocks, images)
  {
    UpdateAcceptsIff(blocks);
    if fieldErrors || UpdateVerdict(blocks).Some? then Err(ValidationFailed)
    else if bodyId != Some(urlId) then Err(IdMismatch)
    else if pageAuthor == 0 then Err(PageNotFound)
    else
      var authId := if IsAdmin(user) then bodyAuthor else pageAuthor;
      if IsAdmin(user) && authId == 0 then Err(InvalidAuthor)
      else if !Authorized(user, authId) then Err(Unauthorized)
      else if ImageMissing(blocks, images) then Err(ImageNotFound)
      else Ok(authId)
  }
}
