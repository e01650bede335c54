/** The research handlers: create, list, read, update and delete a research
    entry, each keeping the entry's image on the host in step with the row.
    They follow the post handlers, with a category and a single author in
    place of the authors array, and no JSON parsing. */
module Researches {
  import opened Js
  import opened Store
  import opened Http
  import opened Cloudinary
  import opened ImageLifecycle

  /** A row of the `Researchs` table. */
  datatype Research = Research(
    title: Value, url: Value, image: Value, imagePublicId: Value,
    category: Value, content: Value, author: Value)

  /** A research entry as the read and update replies show it: every column
      except `imagePublicId`. */
  datatype ResearchView = ResearchView(
    title: Value, url: Value, image: Value, category: Value, content: Value, author: Value)

  type ResearchStep = Step<Research, ResearchView>

  const NotFound := "Research not found"
  const Incomplete := "All fields are required. Make sure to upload an image."
  const Deleted := "Research deleted successfully!"

  function View(e: Research): ResearchView {
    ResearchView(e.title, e.url, e.image, e.category, e.content, e.author)
  }

  function UrlOf(e: Research): Value {
    e.url
  }

  /** The `allowNull: false` columns hold values. */
  predicate RowOk(e: Research) {
    && NonNull(e.title) && NonNull(e.url) && NonNull(e.image)
    && NonNull(e.category) && NonNull(e.content) && NonNull(e.author)
  }

  ghost predicate Valid(t: Table<Research>) {
    && WellKeyed(t)
    && Unique(t, UrlOf)
    && forall id :: id in t.rows ==> RowOk(t.rows[id])
  }

  /** What create demands: all six text fields present. */
  ghost predicate Complete(body: Body) {
    forall k :: k in ["title", "url", "image", "category", "content", "author"] ==> Truthy(Field(body, k))
  }

  // ---------------------------------------------------------------------
  // Handlers

  /** `createResearch`: the reply carries the whole stored row. */
  function CreateResearch(body: Body, t: Table<Research>, db: Db, hostDown: bool): (r: ResearchStep)
    ensures r.reply.status in {201, 400, 500}
    ensures r.reply.status == 400 <==> !Complete(body)
    ensures r.reply.status == 400 ==> r == Refuse(400, Incomplete, t)
    ensures r.reply.status == 201 <==> Complete(body) && db.writeFault.None? && !Taken(t, UrlOf, Field(body, "url"), None)
    ensures r.reply.status != 201 ==> r.table == t
    ensures r.reply.status == 500 ==> r.log == TryDeleteImage(UploadedHandle(body), hostDown)
    ensures r.reply.status == 201 ==>
      && r.log == []
      && r.reply.payload.Created? && r.reply.payload.id == t.next
      && r.table == Insert(t, r.reply.payload.record)
    ensures Valid(t) ==> Valid(r.table)
  {
    var title, url, image, category, content, author :=
      Field(body, "title"), Field(body, "url"), Field(body, "image"),
      Field(body, "category"), Field(body, "content"), Field(body, "author");
    if !Truthy(title) || !Truthy(url) || !Truthy(image) || !Truthy(category)
       || !Truthy(content) || !Truthy(author) then
      assert !Complete(body) by {
        var ks := ["title", "url", "image", "category", "content", "author"];
        assert ks[0] == "title" && ks[1] == "url" && ks[2] == "image";
        assert ks[3] == "category" && ks[4] == "content" && ks[5] == "author";
      }
      Refuse(400, Incomplete, t)
    else
      assert Complete(body) by {
        forall k | k in ["title", "url", "image", "category", "content", "author"]
          ensures Truthy(Field(body, k))
        {
        }
      }
      var entry := Research(title, url, image, UploadedHandle(body), category, content, author);
      match WriteError(db, Taken(t, UrlOf, url, None))
      case Some(message) => Step(Reply(500, Error(message)), t, Cleanup(body, hostDown))
      case None =>
        assert Valid(t) ==> Valid(Insert(t, entry)) by {
          if Valid(t) {
            InsertKeepsValid(t, entry);
          }
        }
        Step(Reply(201, Created(t.next, entry)), Insert(t, entry), [])
  }

  /** `getAllResearch`. */
  function GetAllResearch(t: Table<Research>, db: Db): (r: ResearchStep)
    ensures r.table == t && r.log == []
    ensures db.readFault.None? <==> r.reply.status == 200
    ensures r.reply.status == 200 ==> r.reply.payload == Listed(ListViews(t, View))
  {
    match db.readFault
    case Some(message) => Refuse(500, message, t)
    case None => Step(Reply(200, Listed(ListViews(t, View))), t, [])
  }

  /** `getResearchById`. */
  function GetResearch(id: nat, t: Table<Research>, db: Db): (r: ResearchStep)
    ensures r.table == t && r.log == []
    ensures db.readFault.None? ==> (r.reply.status == 200 <==> id in t.rows)
    ensures r.reply.status == 200 ==> id in t.rows && r.reply.payload == Shown(id, View(t.rows[id]))
    ensures r.reply.status == 404 ==> r.reply.payload == Error(NotFound)
    ensures db.readFault.Some? ==> r.reply.status == 500
    ensures db.readFault.None? && id !in t.rows ==> r.reply == Reply(404, Error(NotFound))
  {
    if db.readFault.Some? then Refuse(500, db.readFault.value, t)
    else if id !in t.rows then Refuse(404, NotFound, t)
    else Step(Reply(200, Shown(id, View(t.rows[id]))), t, [])
  }

  /** `updateResearch`. */
  function UpdateResearch(id: nat, body: Body, t: Table<Research>, db: Db, hostDown: bool): (r: ResearchStep)
    ensures r.reply.status in {200, 404, 500}
    ensures db.readFault.None? ==> (r.reply.status == 404 <==> id !in t.rows)
    ensures r.reply.status == 404 ==> r == Refuse(404, NotFound, t)
    ensures r.reply.status == 500 ==> r.table == t && r.log == TryDeleteImage(UploadedHandle(body), hostDown)
    ensures db.readFault.Some? ==> r.reply.status == 500
    ensures db.readFault.None? && id in t.rows ==>
      r.reply.status == (if WriteError(db, Taken(t, UrlOf, Or(Field(body, "url"), t.rows[id].url), Some(id))).None?
                         then 200 else 500)
    ensures r.reply.status == 200 ==>
      && id in t.rows && id in r.table.rows
      && r.table == Put(t, id, r.table.rows[id])
      && r.reply.payload == Shown(id, View(r.table.rows[id]))
    ensures |r.log| <= 1
    ensures Valid(t) ==> Valid(r.table)
  {
    if db.readFault.Some? then Step(Reply(500, Error(db.readFault.value)), t, Cleanup(body, hostDown))
    else if id !in t.rows then Refuse(404, NotFound, t)
    else
      var entry := t.rows[id];
      var retired := RetiredHandle(body, entry.image, entry.imagePublicId);
      var updated := Research(
        Or(Field(body, "title"), entry.title),
        Or(Field(body, "url"), entry.url),
        Or(Field(body, "image"), entry.image),
        UpdatedHandle(body, entry.imagePublicId),
        Or(Field(body, "category"), entry.category),
        Or(Field(body, "content"), entry.content),
        Or(Field(body, "author"), entry.author));
      match WriteError(db, Taken(t, UrlOf, updated.url, Some(id)))
      case Some(message) => Step(Reply(500, Error(message)), t, Cleanup(body, hostDown))
      case None =>
        assert Valid(t) ==> Valid(Put(t, id, updated)) by {
          if Valid(t) {
            PutKeepsValid(t, id, updated);
          }
        }
        Step(Reply(200, Shown(id, View(updated))), Put(t, id, updated), TryDeleteImage(retired, hostDown))
  }

  /** An insert of a filled row whose url is free keeps the table valid. */
  lemma InsertKeepsValid(t: Table<Research>, e: Research)
    requires Valid(t) && RowOk(e)
    requires !Taken(t, UrlOf, e.url, None)
    ensures Valid(Insert(t, e))
  {
    InsertKeepsKeys(t, UrlOf, e);
  }

  /** So does an update of a row to a filled row that takes no other row's
      url. */
  lemma PutKeepsValid(t: Table<Research>, id: nat, e: Research)
    requires Valid(t) && id in t.rows && RowOk(e)
    requires !Taken(t, UrlOf, e.url, Some(id))
    ensures Valid(Put(t, id, e))
  {
    PutKeepsKeys(t, UrlOf, id, e);
  }

  /** `deleteResearch`. */
  function DeleteResearch(id: nat, t: Table<Research>, db: Db, hostDown: bool): (r: ResearchStep)
    ensures r.reply.status in {200, 404, 500}
    ensures db.readFault.None? ==> (r.reply.status == 404 <==> id !in t.rows)
    ensures r.reply.status == 404 ==> r == Refuse(404, NotFound, t)
    ensures r.reply.status != 200 ==> r.table == t
    ensures r.reply.status == 200 <==> db.readFault.None? && db.writeFault.None? && id in t.rows
    ensures db.readFault.Some? ==> r.reply.status == 500
    ensures r.reply.status == 200 ==> r.table == Drop(t, id) && r.reply.payload == Message(Deleted)
    ensures id in t.rows && db.readFault.None? ==> r.log == TryDeleteImage(t.rows[id].imagePublicId, hostDown)
    ensures !(id in t.rows && db.readFault.None?) ==> r.log == []
    ensures Valid(t) ==> Valid(r.table)
  {
    if db.readFault.Some? then Refuse(500, db.readFault.value, t)
    else if id !in t.rows then Refuse(404, NotFound, t)
    else
      var log := TryDeleteImage(t.rows[id].imagePublicId, hostDown);
      match db.writeFault
      case Some(message) => Step(Reply(500, Error(message)), t, log)
      case None => Step(Reply(200, Message(Deleted)), Drop(t, id), log)
  }

  /** `POST /create-research` once authenticated. */
  function CreateResearchRoute(body: Body, u: Upload, t: Table<Research>, db: Db, hostDown: bool): (r: ResearchStep)
    ensures UploadFailure(u).Some? ==> r.reply.status == 400 && r.table == t && r.log == []
    ensures UploadFailure(u).None? ==> r == CreateResearch(HandleImageUpload(body, u).body, t, db, hostDown)
  {
    WithUpload(body, u, t, (b: Body) => CreateResearch(b, t, db, hostDown))
  }

  /** `PUT /update-research/:id` once authenticated. */
  function UpdateResearchRoute(id: nat, body: Body, u: Upload, t: Table<Research>, db: Db, hostDown: bool): (r: ResearchStep)
    ensures UploadFailure(u).Some? ==> r.reply.status == 400 && r.table == t && r.log == []
    ensures UploadFailure(u).None? ==> r == UpdateResearch(id, HandleImageUpload(body, u).body, t, db, hostDown)
  {
    WithUpload(body, u, t, (b: Body) => UpdateResearch(id, b, t, db, hostDown))
  }

  // ---------------------------------------------------------------------
  // Properties

  /** A created entry is stored as sent, with the uploaded public id; earlier
      entries are left alone; reading it back shows it without its id. */
  lemma CreatedResearchReadsBack(body: Body, t: Table<Research>, db: Db, hostDown: bool)
    requires Valid(t)
    requires CreateResearch(body, t, db, hostDown).reply.status == 201
    ensures var r := CreateResearch(body, t, db, hostDown);
      && t.next !in t.rows
      && r.reply.payload.record.imagePublicId == UploadedHandle(body)
      && (forall k :: k in t.rows ==> k in r.table.rows && r.table.rows[k] == t.rows[k])
      && GetResearch(t.next, r.table, Db(None, None)).reply == Reply(200, Shown(t.next, ResearchView(
           Field(body, "title"), Field(body, "url"), Field(body, "image"),
           Field(body, "category"), Field(body, "content"), Field(body, "author"))))
  {
  }

  /** An update keeps what the body leaves empty and replaces what it fills;
      no other row changes. */
  lemma UpdateResearchMerges(id: nat, body: Body, t: Table<Research>, db: Db, hostDown: bool)
    requires UpdateResearch(id, body, t, db, hostDown).reply.status == 200
    ensures var r := UpdateResearch(id, body, t, db, hostDown);
      var before := t.rows[id];
      var after := r.table.rows[id];
      && r.table.rows.Keys == t.rows.Keys
      && (forall k :: k in t.rows && k != id ==> r.table.rows[k] == t.rows[k])
      && (Truthy(Field(body, "title")) ==> after.title == Field(body, "title"))
      && (!Truthy(Field(body, "title")) ==> after.title == before.title)
      && (Truthy(Field(body, "url")) ==> after.url == Field(body, "url"))
      && (!Truthy(Field(body, "url")) ==> after.url == before.url)
      && (Truthy(Field(body, "image")) ==> after.image == Field(body, "image"))
      && (!Truthy(Field(body, "image")) ==> after.image == before.image)
      && (Truthy(Field(body, "category")) ==> after.category == Field(body, "category"))
      && (!Truthy(Field(body, "category")) ==> after.category == before.category)
      && (Truthy(Field(body, "content")) ==> after.content == Field(body, "content"))
      && (!Truthy(Field(body, "content")) ==> after.content == before.content)
      && (Truthy(Field(body, "author")) ==> after.author == Field(body, "author"))
      && (!Truthy(Field(body, "author")) ==> after.author == before.author)
      && (Truthy(UploadedHandle(body)) ==> after.imagePublicId == UploadedHandle(body))
      && (!Truthy(UploadedHandle(body)) ==> after.imagePublicId == before.imagePublicId)
  {
  }

  /** A successful update deletes a hosted image exactly when the body brings
      a new image and the row had a public id, and it deletes that id. */
  lemma UpdateResearchRetiresReplacedImage(id: nat, body: Body, t: Table<Research>, db: Db, hostDown: bool)
    requires UpdateResearch(id, body, t, db, hostDown).reply.status == 200
    ensures var r := UpdateResearch(id, body, t, db, hostDown);
      var before := t.rows[id];
      && (r.log != [] <==>
           Truthy(Field(body, "image")) && !StrictEq(Field(body, "image"), before.image) && Truthy(before.imagePublicId))
      && forall a :: a in r.log ==> a.publicId == before.imagePublicId
  {
  }

  /** Whether the image host is up changes neither the replies nor the
      tables. */
  lemma ResearchHostOutageInvisible(id: nat, body: Body, t: Table<Research>, db: Db)
    ensures CreateResearch(body, t, db, true).reply == CreateResearch(body, t, db, false).reply
    ensures CreateResearch(body, t, db, true).table == CreateResearch(body, t, db, false).table
    ensures UpdateResearch(id, body, t, db, true).reply == UpdateResearch(id, body, t, db, false).reply
    ensures UpdateResearch(id, body, t, db, true).table == UpdateResearch(id, body, t, db, false).table
    ensures DeleteResearch(id, t, db, true).reply == DeleteResearch(id, t, db, false).reply
    ensures DeleteResearch(id, t, db, true).table == DeleteResearch(id, t, db, false).table
  {
  }

  /** A deleted entry is gone: reading it answers 404, the other entries are
      untouched, and the host was asked to delete its image exactly when the
      row recorded a public id. */
  lemma DeletedResearchIsGone(id: nat, t: Table<Research>, db: Db, hostDown: bool)
    requires DeleteResearch(id, t, db, hostDown).reply.status == 200
    ensures var r := DeleteResearch(id, t, db, hostDown);
      && GetResearch(id, r.table, Db(None, None)).reply == Reply(404, Error(NotFound))
      && (forall k :: k in t.rows && k != id ==> k in r.table.rows && r.table.rows[k] == t.rows[k])
      && (r.log != [] <==> Truthy(t.rows[id].imagePublicId))
  {
  }
}
