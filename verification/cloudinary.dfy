/** The image-host layer: the upload middleware that runs before the post and
    research handlers, deletion of a hosted image, and recovery of an image's
    public id from its URL. The host itself is an oracle: an upload either
    stores the file (giving its URL and public id) or fails with a message,
    and a delete call either succeeds or fails as `hostDown` says. */
module Cloudinary {
  import opened Js
  import opened Store
  import opened Http
  import PublicIds

  // ---------------------------------------------------------------------
  // extractPublicId

  /** `extractPublicId(url)`: `null` for anything but a non-empty string,
      otherwise the capture of `/\/v\d+\/(.+)\./`, or `null` when that does
      not match. */
  function ExtractPublicId(url: Value): (r: Value)
    ensures r == Null || (r.Str? && r.s != "")
    ensures !url.Str? ==> r == Null
    ensures url.Str? ==> (r.Str? <==> exists p, q, e :: PublicIds.RuntimeMatch(url.s, p, q, e))
    ensures r.Str? ==> exists p, q, e :: PublicIds.RuntimeChosen(url.s, p, q, e) && r.s == url.s[q + 1..e]
  {
    if !Truthy(url) || !url.Str? then Null
    else match PublicIds.RuntimeCapture(url.s)
      case Some(c) => Str(c)
      case None => Null
  }

  /** The URL the host reports for an upload, `host/v<digits>/id.ext`, gives
      the upload's public id back. */
  lemma ExtractPublicIdOfHostedUrl(host: string, digits: string, id: string, ext: string)
    requires PublicIds.SingleLine(host) && PublicIds.SingleLine(id) && PublicIds.SingleLine(ext)
    requires PublicIds.NoVersionStart(host)
    requires |digits| > 0 && forall j :: 0 <= j < |digits| ==> PublicIds.IsDigit(digits[j])
    requires |id| > 0 && forall j :: 0 <= j < |id| ==> id[j] != '.'
    requires forall j :: 0 <= j < |ext| ==> ext[j] != '.'
    ensures ExtractPublicId(Str(host + "/v" + digits + "/" + id + "." + ext)) == Str(id)
  {
    PublicIds.HostedUrlCapture(host, digits, id, ext);
  }

  // ---------------------------------------------------------------------
  // deleteImage

  /** What a `deleteImage` call did: the host calls it made, and whether it
      rethrew the host's error to its caller. */
  datatype Deletion = Deletion(log: seq<Attempt>, threw: bool)

  /** `deleteImage(publicId)`: a falsy id calls nobody and resolves; a truthy
      id calls the host once, and a host failure is rethrown. */
  function DeleteImage(publicId: Value, hostDown: bool): (d: Deletion)
    ensures |d.log| <= 1
    ensures d.log == [] <==> !Truthy(publicId)
    ensures forall a :: a in d.log ==> a.publicId == publicId && (a.succeeded <==> !hostDown)
    ensures d.threw <==> d.log != [] && !d.log[0].succeeded
  {
    if Truthy(publicId) then Deletion([Attempt(publicId, !hostDown)], hostDown)
    else Deletion([], false)
  }

  /** Every caller wraps `deleteImage` in its own `try`/`catch` and only logs
      the error: what remains is the host call, if any. */
  function TryDeleteImage(publicId: Value, hostDown: bool): (log: seq<Attempt>)
    ensures |log| <= 1
    ensures log == [] <==> !Truthy(publicId)
    ensures forall a :: a in log ==> a.publicId == publicId
  {
    DeleteImage(publicId, hostDown).log
  }

  // ---------------------------------------------------------------------
  // handleImageUpload

  /** What the host does with a file the middleware passes on. */
  datatype Storage = Stored(path: Value, publicId: Value) | StorageFailed(message: string)

  /** The multipart part of a request: no file, or one file under a form
      field, with its declared type, its size in bytes, and what the host
      makes of it. */
  datatype Upload = NoFile | File(field: string, mimetype: string, size: nat, storage: Storage)

  /** The error multer hands to the middleware's callback. */
  datatype UploadError = MulterError(code: string, message: string) | PlainError(message: string)

  const ImageField := "image"
  const MaxFileSize: nat := 5 * 1024 * 1024
  const FileTooLarge := "File too large. Maximum size is 5MB."
  const NotAnImage := "Only image files are allowed"

  /** The file filter: the declared type starts with `image/`. */
  predicate IsImageType(mimetype: string) {
    "image/" <= mimetype
  }

  /** `upload.single('image')` with the size limit and file filter the
      middleware configures: a file under another field is unexpected, then
      the filter runs, then the size limit, then the host. */
  function UploadFailure(u: Upload): (r: Option<UploadError>)
    ensures r.None? <==> u.NoFile? || (u.field == ImageField && IsImageType(u.mimetype)
                                      && u.size <= MaxFileSize && u.storage.Stored?)
    ensures r.Some? && r.value.MulterError? && r.value.code == "LIMIT_FILE_SIZE" <==>
      u.File? && u.field == ImageField && IsImageType(u.mimetype) && u.size > MaxFileSize
  {
    match u
    case NoFile => None
    case File(field, mimetype, size, storage) =>
      if field != ImageField then Some(MulterError("LIMIT_UNEXPECTED_FILE", "Unexpected field"))
      else if !IsImageType(mimetype) then Some(PlainError(NotAnImage))
      else if size > MaxFileSize then Some(MulterError("LIMIT_FILE_SIZE", "File too large"))
      else match storage
        case StorageFailed(m) => Some(PlainError(m))
        case Stored(_, _) => None
  }

  /** The middleware's verdict: the body handed to the controller, or the
      message of a 400 reply. */
  datatype Admission = Admitted(body: Body) | Refused(message: string)

  /** `handleImageUpload`: a failed upload is refused (an oversized file with
      a message of its own); a stored file sets `image` and `imagePublicId`
      in the body and leaves every other field alone; no file leaves the body
      alone. */
  function HandleImageUpload(body: Body, u: Upload): (r: Admission)
    ensures r.Refused? <==> UploadFailure(u).Some?
    ensures UploadFailure(u) == Some(MulterError("LIMIT_FILE_SIZE", "File too large")) ==>
      r == Refused(FileTooLarge)
    ensures u.File? && u.field == ImageField && !IsImageType(u.mimetype) ==> r == Refused(NotAnImage)
    ensures u.NoFile? ==> r == Admitted(body)
    ensures r.Admitted? && u.File? ==>
      Field(r.body, "image") == u.storage.path && Field(r.body, "imagePublicId") == u.storage.publicId
    ensures r.Admitted? ==> forall k :: k != "image" && k != "imagePublicId" ==> Field(r.body, k) == Field(body, k)
  {
    match UploadFailure(u)
    case Some(MulterError(code, message)) =>
      if code == "LIMIT_FILE_SIZE" then Refused(FileTooLarge) else Refused(message)
    case Some(PlainError(message)) => Refused(message)
    case None =>
      if u.File? then Admitted(body["image" := u.storage.path]["imagePublicId" := u.storage.publicId])
      else Admitted(body)
  }

  /** A route `handleImageUpload, handler`: a refused upload ends the
      request with 400 before the handler runs. */
  function WithUpload<R, V>(body: Body, u: Upload, t: Table<R>, handler: Body -> Step<R, V>): (r: Step<R, V>)
    ensures UploadFailure(u).Some? ==> r.reply.status == 400 && r.reply.payload.Error? && r.table == t && r.log == []
    ensures UploadFailure(u).None? ==> r == handler(HandleImageUpload(body, u).body)
  {
    match HandleImageUpload(body, u)
    case Refused(message) => Refuse(400, message, t)
    case Admitted(b) => handler(b)
  }
}
