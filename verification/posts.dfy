/** The post handlers: create, list, read, update and delete a post, each
    keeping the post's image on the host in step with the row. */
module Posts {
  import opened Js
  import opened Store
  import opened Http
  import opened Cloudinary
  import opened ImageLifecycle

  /** A row of the `Posts` table. */
  datatype Post = Post(
    title: Value, url: Value, image: Value, imagePublicId: Value,
    content: Value, authors: Value, paragraphs: Value)

  /** A post as the read and update replies show it: every column except
      `imagePublicId`. */
  datatype PostView = PostView(
    title: Value, url: Value, image: Value, content: Value, authors: Value, paragraphs: Value)

  type PostStep = Step<Post, PostView>

  /** `JSON.parse`: the parsed value, or `None` when it throws. */
  type Parse = string -> Option<Value>

  const NotFound := "Post not found"
  const BadAuthors := "Invalid authors format. Authors must be a valid JSON array."
  const Incomplete := "All fields are required, and authors must be an array. Make sure to upload an image."
  const Deleted := "Post deleted successfully!"

  function View(p: Post): PostView {
    PostView(p.title, p.url, p.image, p.content, p.authors, p.paragraphs)
  }

  function UrlOf(p: Post): Value {
    p.url
  }

  /** The `allowNull: false` columns hold values. */
  predicate RowOk(p: Post) {
    NonNull(p.title) && NonNull(p.url) && NonNull(p.image) && NonNull(p.content) && NonNull(p.authors)
  }

  /** The table's constraints: keys from the sequence, `url` unique, and the
      non-null columns filled. */
  ghost predicate Valid(t: Table<Post>) {
    && WellKeyed(t)
    && Unique(t, UrlOf)
    && forall id :: id in t.rows ==> RowOk(t.rows[id])
  }

  /** `authors`, run through `JSON.parse` when it is a string. */
  function ParsedAuthors(body: Body, parse: Parse): Option<Value> {
    var a := Field(body, "authors");
    if a.Str? then parse(a.s) else Some(a)
  }

  /** What create demands: title, url, image and content present, and the
      authors an array. */
  ghost predicate Complete(body: Body, parse: Parse) {
    && Truthy(Field(body, "title")) && Truthy(Field(body, "url"))
    && Truthy(Field(body, "image")) && Truthy(Field(body, "content"))
    && ParsedAuthors(body, parse).Some? && ParsedAuthors(body, parse).value.Arr?
  }

  // ---------------------------------------------------------------------
  // Handlers

  /** `createPost`. */
  function CreatePost(body: Body, t: Table<Post>, parse: Parse, db: Db, hostDown: bool): (r: PostStep)
    ensures r.reply.status in {201, 400, 500}
    ensures r.reply.status == 400 <==> !Complete(body, parse)
    ensures ParsedAuthors(body, parse).None? ==> r.reply.payload == Error(BadAuthors)
    ensures r.reply.status == 201 <==>
      Complete(body, parse) && db.writeFault.None? && !Taken(t, UrlOf, Field(body, "url"), None)
    ensures r.reply.status != 201 ==> r.table == t
    ensures r.reply.status == 400 ==> r.log == []
    ensures r.reply.status == 500 ==> r.log == TryDeleteImage(UploadedHandle(body), hostDown)
    ensures r.reply.status == 201 ==>
      && r.log == []
      && r.reply.payload.Created? && r.reply.payload.id == t.next
      && r.table == Insert(t, r.reply.payload.record)
    ensures Valid(t) ==> Valid(r.table)
  {
    match ParsedAuthors(body, parse)
    case None => Refuse(400, BadAuthors, t)
    case Some(authors) =>
      var title, url, image, content :=
        Field(body, "title"), Field(body, "url"), Field(body, "image"), Field(body, "content");
      if !Truthy(title) || !Truthy(url) || !Truthy(image) || !Truthy(content)
         || !Truthy(authors) || !authors.Arr? then
        Refuse(400, Incomplete, t)
      else
        var post := Post(title, url, image, UploadedHandle(body), content, authors, Arr([]));
        match WriteError(db, Taken(t, UrlOf, url, None))
        case Some(message) => Step(Reply(500, Error(message)), t, Cleanup(body, hostDown))
        case None =>
          assert Valid(t) ==> Valid(Insert(t, post)) by {
            if Valid(t) {
              InsertKeepsValid(t, post);
            }
          }
          Step(Reply(201, Created(t.next, post)), Insert(t, post), [])
  }

  /** An insert of a filled row whose url is free keeps the table valid. */
  lemma InsertKeepsValid(t: Table<Post>, p: Post)
    requires Valid(t) && RowOk(p)
    requires !Taken(t, UrlOf, p.url, None)
    ensures Valid(Insert(t, p))
  {
    InsertKeepsKeys(t, UrlOf, p);
  }

  /** `getAllPosts`. */
  function GetAllPosts(t: Table<Post>, db: Db): (r: PostStep)
    ensures r.table == t && r.log == []
    ensures db.readFault.None? <==> r.reply.status == 200
    ensures r.reply.status == 200 ==> r.reply.payload == Listed(ListViews(t, View))
  {
    match db.readFault
    case Some(message) => Refuse(500, message, t)
    case None => Step(Reply(200, Listed(ListViews(t, View))), t, [])
  }

  /** `getPostById`. */
  function GetPost(id: nat, t: Table<Post>, db: Db): (r: PostStep)
    ensures r.table == t && r.log == []
    ensures db.readFault.None? ==> (r.reply.status == 200 <==> id in t.rows)
    ensures r.reply.status == 200 ==> id in t.rows && r.reply.payload == Shown(id, View(t.rows[id]))
    ensures r.reply.status == 404 ==> r.reply.payload == Error(NotFound)
    ensures db.readFault.Some? ==> r.reply.status == 500
    ensures db.readFault.None? && id !in t.rows ==> r.reply == Reply(404, Error(NotFound))
  {
    if db.readFault.Some? then Refuse(500, db.readFault.value, t)
    else if id !in t.rows then Refuse(404, NotFound, t)
    else Step(Reply(200, Shown(id, View(t.rows[id]))), t, [])
  }

  /** `updatePost`. */
  function UpdatePost(id: nat, body: Body, t: Table<Post>, parse: Parse, db: Db, hostDown: bool): (r: PostStep)
    ensures r.reply.status in {200, 400, 404, 500}
    ensures db.readFault.None? ==> (r.reply.status == 404 <==> id !in t.rows)
    ensures r.reply.status == 404 ==> r == Refuse(404, NotFound, t)
    ensures r.reply.status == 400 ==> r == Refuse(400, BadAuthors, t) && ParsedAuthors(body, parse).None?
    ensures db.readFault.None? && id in t.rows && ParsedAuthors(body, parse).None? ==> r.reply.status == 400
    ensures db.readFault.Some? ==> r.reply.status == 500
    ensures db.readFault.None? && id in t.rows && ParsedAuthors(body, parse).Some? ==>
      r.reply.status == (if WriteError(db, Taken(t, UrlOf, Or(Field(body, "url"), t.rows[id].url), Some(id))).None?
                         then 200 else 500)
    ensures r.reply.status == 500 ==> r.table == t && r.log == TryDeleteImage(UploadedHandle(body), hostDown)
    ensures r.reply.status == 200 ==>
      && id in t.rows && id in r.table.rows
      && r.table == Put(t, id, r.table.rows[id])
      && r.reply.payload == Shown(id, View(r.table.rows[id]))
    ensures |r.log| <= 1
    ensures Valid(t) ==> Valid(r.table)
  {
    if db.readFault.Some? then Step(Reply(500, Error(db.readFault.value)), t, Cleanup(body, hostDown))
    else if id !in t.rows then Refuse(404, NotFound, t)
    else
      var post := t.rows[id];
      var retired := RetiredHandle(body, post.image, post.imagePublicId);
      match ParsedAuthors(body, parse)
      case None => Refuse(400, BadAuthors, t)
      case Some(authors) =>
        var updated := Post(
          Or(Field(body, "title"), post.title),
          Or(Field(body, "url"), post.url),
          Or(Field(body, "image"), post.image),
          UpdatedHandle(body, post.imagePublicId),
          Or(Field(body, "content"), post.content),
          if Truthy(authors) && authors.Arr? then authors else post.authors,
          post.paragraphs);
        match WriteError(db, Taken(t, UrlOf, updated.url, Some(id)))
        case Some(message) => Step(Reply(500, Error(message)), t, Cleanup(body, hostDown))
        case None =>
          assert Valid(t) ==> Valid(Put(t, id, updated)) by {
            if Valid(t) {
              PutKeepsValid(t, id, updated);
            }
          }
          Step(Reply(200, Shown(id, View(updated))), Put(t, id, updated), TryDeleteImage(retired, hostDown))
  }

  /** So does an update of a row to a filled row that takes no other row's
      url. */
  lemma PutKeepsValid(t: Table<Post>, id: nat, p: Post)
    requires Valid(t) && id in t.rows && RowOk(p)
    requires !Taken(t, UrlOf, p.url, Some(id))
    ensures Valid(Put(t, id, p))
  {
    PutKeepsKeys(t, UrlOf, id, p);
  }

  /** `deletePost`. */
  function DeletePost(id: nat, t: Table<Post>, db: Db, hostDown: bool): (r: PostStep)
    ensures r.reply.status in {200, 404, 500}
    ensures db.readFault.None? ==> (r.reply.status == 404 <==> id !in t.rows)
    ensures r.reply.status == 404 ==> r == Refuse(404, NotFound, t)
    ensures r.reply.status != 200 ==> r.table == t
    ensures r.reply.status == 200 <==> db.readFault.None? && db.writeFault.None? && id in t.rows
    ensures db.readFault.Some? ==> r.reply.status == 500
    ensures r.reply.status == 200 ==> r.table == Drop(t, id) && r.reply.payload == Message(Deleted)
    ensures id in t.rows && db.readFault.None? ==> r.log == TryDeleteImage(t.rows[id].imagePublicId, hostDown)
    ensures !(id in t.rows && db.readFault.None?) ==> r.log == []
    ensures Valid(t) ==> Valid(r.table)
  {
    if db.readFault.Some? then Refuse(500, db.readFault.value, t)
    else if id !in t.rows then Refuse(404, NotFound, t)
    else
      var log := TryDeleteImage(t.rows[id].imagePublicId, hostDown);
      match db.writeFault
      case Some(message) => Step(Reply(500, Error(message)), t, log)
      case None => Step(Reply(200, Message(Deleted)), Drop(t, id), log)
  }

  // ---------------------------------------------------------------------
  // Properties

  /** A created post is stored as sent (with the authors parsed, the
      uploaded public id and empty paragraphs), every earlier post is left
      alone, and reading it back shows it without its public id. */
  lemma CreatedPostReadsBack(body: Body, t: Table<Post>, parse: Parse, db: Db, hostDown: bool)
    requires Valid(t)
    requires CreatePost(body, t, parse, db, hostDown).reply.status == 201
    ensures var r := CreatePost(body, t, parse, db, hostDown);
      && t.next !in t.rows
      && r.reply.payload.record.imagePublicId == UploadedHandle(body)
      && (forall k :: k in t.rows ==> k in r.table.rows && r.table.rows[k] == t.rows[k])
      && GetPost(t.next, r.table, Db(None, None)).reply == Reply(200, Shown(t.next, PostView(
           Field(body, "title"), Field(body, "url"), Field(body, "image"), Field(body, "content"),
           ParsedAuthors(body, parse).value, Arr([]))))
  {
  }

  /** An update keeps what the body leaves empty: each truthy field replaces
      the stored one, the authors only when they parse to an array, the
      paragraphs never, and the recorded public id is the uploaded one if
      there is one. No other row changes. */
  lemma UpdatePostMerges(id: nat, body: Body, t: Table<Post>, parse: Parse, db: Db, hostDown: bool)
    requires UpdatePost(id, body, t, parse, db, hostDown).reply.status == 200
    ensures var r := UpdatePost(id, body, t, parse, db, hostDown);
      var before := t.rows[id];
      var after := r.table.rows[id];
      && r.table.rows.Keys == t.rows.Keys
      && (forall k :: k in t.rows && k != id ==> r.table.rows[k] == t.rows[k])
      && (Truthy(Field(body, "title")) ==> after.title == Field(body, "title"))
      && (!Truthy(Field(body, "title")) ==> after.title == before.title)
      && (Truthy(Field(body, "url")) ==> after.url == Field(body, "url"))
      && (!Truthy(Field(body, "url")) ==> after.url == before.url)
      && (Truthy(Field(body, "image")) ==> after.image == Field(body, "image"))
      && (!Truthy(Field(body, "image")) ==> after.image == before.image)
      && (Truthy(Field(body, "content")) ==> after.content == Field(body, "content"))
      && (!Truthy(Field(body, "content")) ==> after.content == before.content)
      && (ParsedAuthors(body, parse).value.Arr? ==> after.authors == ParsedAuthors(body, parse).value)
      && (!ParsedAuthors(body, parse).value.Arr? ==> after.authors == before.authors)
      && after.paragraphs == before.paragraphs
      && (Truthy(UploadedHandle(body)) ==> after.imagePublicId == UploadedHandle(body))
      && (!Truthy(UploadedHandle(body)) ==> after.imagePublicId == before.imagePublicId)
  {
  }

  /** A successful update deletes a hosted image exactly when the body
      brings a different image and the row had a public id, and what it deletes is
      the row's previous id. */
  lemma UpdatePostRetiresReplacedImage(id: nat, body: Body, t: Table<Post>, parse: Parse, db: Db, hostDown: bool)
    requires UpdatePost(id, body, t, parse, db, hostDown).reply.status == 200
    ensures var r := UpdatePost(id, body, t, parse, db, hostDown);
      var before := t.rows[id];
      && (r.log != [] <==>
           Truthy(Field(body, "image")) && !StrictEq(Field(body, "image"), before.image) && Truthy(before.imagePublicId))
      && forall a :: a in r.log ==> a.publicId == before.imagePublicId
  {
  }

  /** When the new image's public id is neither supplied nor recoverable from
      its URL, a successful update deletes the old image on the host but
      keeps recording the old id: the row now points at a deleted image. */
  lemma UpdatePostStaleHandle(id: nat, body: Body, t: Table<Post>, parse: Parse, db: Db, hostDown: bool)
    requires UpdatePost(id, body, t, parse, db, hostDown).reply.status == 200
    requires Truthy(Field(body, "image")) && !StrictEq(Field(body, "image"), t.rows[id].image)
    requires !Truthy(Field(body, "imagePublicId")) && ExtractPublicId(Field(body, "image")) == Null
    requires Truthy(t.rows[id].imagePublicId)
    ensures var r := UpdatePost(id, body, t, parse, db, hostDown);
      && r.log == [Attempt(t.rows[id].imagePublicId, !hostDown)]
      && r.table.rows[id].imagePublicId == t.rows[id].imagePublicId
      && r.table.rows[id].image == Field(body, "image")
  {
  }

  /** Whether the image host is up changes nothing but the outcome recorded
      in the log: the replies and the tables are the same. */
  lemma PostHostOutageInvisible(id: nat, body: Body, t: Table<Post>, parse: Parse, db: Db)
    ensures CreatePost(body, t, parse, db, true).reply == CreatePost(body, t, parse, db, false).reply
    ensures CreatePost(body, t, parse, db, true).table == CreatePost(body, t, parse, db, false).table
    ensures UpdatePost(id, body, t, parse, db, true).reply == UpdatePost(id, body, t, parse, db, false).reply
    ensures UpdatePost(id, body, t, parse, db, true).table == UpdatePost(id, body, t, parse, db, false).table
    ensures DeletePost(id, t, db, true).reply == DeletePost(id, t, db, false).reply
    ensures DeletePost(id, t, db, true).table == DeletePost(id, t, db, false).table
  {
  }

  // ---------------------------------------------------------------------
  // Routes

  /** `POST /create-post` once authenticated: the upload middleware, then
      `createPost` on the body it hands on. */
  function CreatePostRoute(body: Body, u: Upload, t: Table<Post>, parse: Parse, db: Db, hostDown: bool): (r: PostStep)
    ensures UploadFailure(u).Some? ==> r.reply.status == 400 && r.table == t && r.log == []
    ensures UploadFailure(u).None? ==> r == CreatePost(HandleImageUpload(body, u).body, t, parse, db, hostDown)
  {
    WithUpload(body, u, t, (b: Body) => CreatePost(b, t, parse, db, hostDown))
  }

  /** `PUT /update-post/:id` once authenticated. */
  function UpdatePostRoute(id: nat, body: Body, u: Upload, t: Table<Post>, parse: Parse, db: Db, hostDown: bool): (r: PostStep)
    ensures UploadFailure(u).Some? ==> r.reply.status == 400 && r.table == t && r.log == []
    ensures UploadFailure(u).None? ==> r == UpdatePost(id, HandleImageUpload(body, u).body, t, parse, db, hostDown)
  {
    WithUpload(body, u, t, (b: Body) => UpdatePost(id, b, t, parse, db, hostDown))
  }

  /** A file the host stored is deleted again when the create fails in the
      store, under the public id the host gave it. */
  lemma FailedCreateDeletesUpload(body: Body, u: Upload, t: Table<Post>, parse: Parse, db: Db, hostDown: bool)
    requires u.File? && UploadFailure(u).None?
    requires Truthy(u.storage.path) && Truthy(u.storage.publicId)
    requires Complete(body[ImageField := u.storage.path], parse)
    requires db.writeFault.Some?
    ensures CreatePostRoute(body, u, t, parse, db, hostDown).reply.status == 500
    ensures CreatePostRoute(body, u, t, parse, db, hostDown).log == [Attempt(u.storage.publicId, !hostDown)]
  {
    var b := HandleImageUpload(body, u).body;
    assert forall k :: k != "image" && k != "imagePublicId" ==> Field(b, k) == Field(body, k);
    assert ParsedAuthors(b, parse) == ParsedAuthors(body[ImageField := u.storage.path], parse);
  }

  /** But a create the handler refuses with 400 leaves the stored file on the
      host: no delete is attempted. */
  lemma RefusedCreateKeepsUpload(body: Body, u: Upload, t: Table<Post>, parse: Parse, db: Db, hostDown: bool)
    requires u.File? && UploadFailure(u).None?
    requires !Truthy(Field(body, "title"))
    ensures CreatePostRoute(body, u, t, parse, db, hostDown).reply.status == 400
    ensures CreatePostRoute(body, u, t, parse, db, hostDown).log == []
  {
    assert Field(HandleImageUpload(body, u).body, "title") == Field(body, "title");
  }

  /** A deleted post is gone: reading it answers 404, the other posts are
      untouched, and the host was asked to delete its image exactly when the
      row recorded a public id. */
  lemma DeletedPostIsGone(id: nat, t: Table<Post>, db: Db, hostDown: bool)
    requires DeletePost(id, t, db, hostDown).reply.status == 200
    ensures var r := DeletePost(id, t, db, hostDown);
      && GetPost(id, r.table, Db(None, None)).reply == Reply(404, Error(NotFound))
      && (forall k :: k in t.rows && k != id ==> k in r.table.rows && r.table.rows[k] == t.rows[k])
      && (r.log != [] <==> Truthy(t.rows[id].imagePublicId))
  {
  }
}
