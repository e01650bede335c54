/** The image bookkeeping the post and research handlers share: which public
    id a row records for its image, which one an update retires, and which
    one a failed request cleans up. */
module ImageLifecycle {
  import opened Js
  import opened Http
  import opened Cloudinary

  /** `imagePublicId || extractPublicId(image)` over the request body: the id
      the middleware supplied, or else the one recovered from the URL. */
  function UploadedHandle(body: Body): (h: Value)
    ensures Truthy(Field(body, "imagePublicId")) ==> h == Field(body, "imagePublicId")
    ensures !Truthy(Field(body, "imagePublicId")) ==> h == ExtractPublicId(Field(body, "image"))
    ensures !Truthy(h) <==> !Truthy(Field(body, "imagePublicId")) && ExtractPublicId(Field(body, "image")) == Null
  {
    Or(Field(body, "imagePublicId"), ExtractPublicId(Field(body, "image")))
  }

  /** The id an update records: the uploaded one when there is one, otherwise
      the row's current one. */
  function UpdatedHandle(body: Body, current: Value): Value {
    Or(UploadedHandle(body), current)
  }

  /** The id an update retires: the row's current id, when the body carries a
      truthy `image` that is not strictly equal to the stored one. */
  function RetiredHandle(body: Body, storedImage: Value, current: Value): Value {
    var image := Field(body, "image");
    if Truthy(image) && !StrictEq(image, storedImage) then current else Null
  }

  /** The `catch` block of create and update: when the body names an image,
      delete the id `UploadedHandle` gives, if it is truthy, and swallow any
      host error. The outer test adds nothing: the cleanup is exactly one
      guarded delete of the uploaded id. */
  function Cleanup(body: Body, hostDown: bool): (log: seq<Attempt>)
    ensures log == TryDeleteImage(UploadedHandle(body), hostDown)
    ensures |log| <= 1
  {
    if Truthy(Field(body, "imagePublicId")) || Truthy(Field(body, "image")) then
      var publicId := UploadedHandle(body);
      if Truthy(publicId) then TryDeleteImage(publicId, hostDown) else []
    else []
  }
}
