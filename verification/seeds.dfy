/** The seed scripts: on an empty table, turn the bundled data into rows
    (deriving each image's public id with the seed-time pattern) and insert
    them in one all-or-nothing batch; on a table that has rows, do nothing. */
module Seeds {
  import opened Js
  import opened Store
  import PublicIds
  import Cloudinary
  import Posts
  import Researches
  import Teams

  // ---------------------------------------------------------------------
  // Shared

  /** `imageUrl.match(/\/v\d+\/(.*?)(?:\.\w+)?$/)`, then the capture or `""`. */
  function SeedHandle(image: string): (h: Value)
    ensures h.Str?
    ensures (forall p, q, k :: !PublicIds.SeedMatch(image, p, q, k)) ==> h == Str("")
    ensures PublicIds.SeedCapture(image).None? ==> h == Str("")
    ensures PublicIds.SeedCapture(image).Some? ==> h == Str(PublicIds.SeedCapture(image).value)
    ensures h != Str("") ==> exists p, q, k :: PublicIds.SeedChosen(image, p, q, k) && h.s == image[q + 1..k]
  {
    match PublicIds.SeedCapture(image)
    case Some(c) => Str(c)
    case None => Str("")
  }

  /** For a one-line URL ending in `.<extension>` that the run-time pattern
      matches, seeding records the same public id the handlers would
      recover from the URL. */
  lemma SeedHandleAgreesWithRuntime(image: string, d: int)
    requires PublicIds.SingleLine(image)
    requires PublicIds.ExtensionAt(image, d)
    requires PublicIds.RuntimeCapture(image).Some?
    ensures SeedHandle(image) == Cloudinary.ExtractPublicId(Str(image))
  {
    PublicIds.PatternsAgreeWithExtension(image, d);
  }

  /** `bulkCreate` of a batch into a table: the rows take the next keys in
      order. */
  function InsertAll<R>(t: Table<R>, batch: seq<R>): (r: Table<R>)
    ensures r.next == t.next + |batch|
    ensures forall k :: k in r.rows <==> k in t.rows || t.next <= k < t.next + |batch|
    ensures forall i :: 0 <= i < |batch| ==> r.rows[t.next + i] == batch[i]
    ensures forall k :: k in t.rows && !(t.next <= k < t.next + |batch|) ==> r.rows[k] == t.rows[k]
    decreases |batch|
  {
    if batch == [] then t
    else
      var r := InsertAll(Insert(t, batch[0]), batch[1..]);
      assert forall i :: 0 <= i < |batch| - 1 ==> r.rows[t.next + 1 + i] == batch[1..][i];
      r
  }

  /** A seed run: a table with rows is skipped; otherwise the batch goes in
      whole when the store accepts it, and nothing goes in when it does not
      (the error is logged and swallowed). */
  function SeedTable<R>(t: Table<R>, batch: seq<R>, accepted: bool): (r: Table<R>)
    ensures |t.rows| > 0 || !accepted ==> r == t
    ensures |t.rows| == 0 && accepted ==>
      && r.next == t.next + |batch|
      && (forall k :: k in r.rows <==> t.next <= k < t.next + |batch|)
      && (forall i :: 0 <= i < |batch| ==> r.rows[t.next + i] == batch[i])
  {
    if |t.rows| > 0 || !accepted then t else InsertAll(t, batch)
  }

  /** The values of `key` in a batch are pairwise distinct. */
  ghost predicate DistinctKeys<R>(batch: seq<R>, key: R -> Value) {
    forall i, j :: 0 <= i < j < |batch| ==> key(batch[i]) != key(batch[j])
  }

  /** A batch with distinct keys seeded into an empty table leaves the keys
      well formed and the column unique. */
  lemma SeedKeepsKeys<R>(t: Table<R>, batch: seq<R>, key: R -> Value, accepted: bool)
    requires WellKeyed(t) && Unique(t, key)
    requires accepted ==> DistinctKeys(batch, key)
    ensures WellKeyed(SeedTable(t, batch, accepted)) && Unique(SeedTable(t, batch, accepted), key)
  {
    var r := SeedTable(t, batch, accepted);
    if |t.rows| == 0 && accepted {
      forall i, j | i in r.rows && j in r.rows && key(r.rows[i]) == key(r.rows[j])
        ensures i == j
      {
        assert r.rows[i] == batch[i - t.next] && r.rows[j] == batch[j - t.next];
      }
    }
  }

  // ---------------------------------------------------------------------
  // seedPosts

  /** One entry of the bundled posts. */
  datatype PostData = PostData(title: Value, url: Value, image: string, content: Value, authors: Value)

  /** The row `seedPosts` makes of an entry: the image's seed-time public id,
      and missing authors replaced by `[]`; the paragraphs take the column
      default. */
  function FormatPost(d: PostData): Posts.Post {
    Posts.Post(d.title, d.url, Str(d.image), SeedHandle(d.image), d.content, Or(d.authors, Arr([])), Arr([]))
  }

  function FormatPosts(data: seq<PostData>): (rows: seq<Posts.Post>)
    ensures |rows| == |data|
    ensures forall i :: 0 <= i < |data| ==> rows[i] == FormatPost(data[i])
  {
    seq(|data|, i requires 0 <= i < |data| => FormatPost(data[i]))
  }

  /** `bulkCreate(..., { validate: true })` accepts the batch when every row
      fills the non-null columns, no two rows share a url, and the store does
      not fail. */
  ghost predicate PostsAccepted(rows: seq<Posts.Post>, db: Db) {
    && (forall i :: 0 <= i < |rows| ==> Posts.RowOk(rows[i]))
    && DistinctKeys(rows, Posts.UrlOf)
    && db.writeFault.None?
  }

  function SeedPosts(t: Table<Posts.Post>, data: seq<PostData>, accepted: bool): Table<Posts.Post> {
    SeedTable(t, FormatPosts(data), accepted)
  }

  /** A formatted post keeps the entry's text and image, records the
      seed-time public id, and always has an authors array when the entry's
      authors are missing. */
  lemma FormatPostFields(d: PostData)
    ensures var p := FormatPost(d);
      && p.title == d.title && p.url == d.url && p.image == Str(d.image) && p.content == d.content
      && p.imagePublicId == SeedHandle(d.image)
      && (Truthy(d.authors) ==> p.authors == d.authors)
      && (!Truthy(d.authors) ==> p.authors == Arr([]))
      && NonNull(p.authors) && NonNull(p.imagePublicId)
  {
  }

  /** Seeding posts keeps the table's constraints. */
  lemma SeedPostsKeepsValid(t: Table<Posts.Post>, data: seq<PostData>, db: Db)
    requires Posts.Valid(t)
    ensures Posts.Valid(SeedPosts(t, data, PostsAccepted(FormatPosts(data), db)))
  {
    var rows := FormatPosts(data);
    var accepted := PostsAccepted(rows, db);
    SeedKeepsKeys(t, rows, Posts.UrlOf, accepted);
    var r := SeedTable(t, rows, accepted);
    if |t.rows| == 0 && accepted {
      forall id | id in r.rows ensures Posts.RowOk(r.rows[id]) {
        assert r.rows[id] == rows[id - t.next];
      }
    }
  }

  // ---------------------------------------------------------------------
  // seedResearch

  /** One entry of the bundled research projects. */
  datatype ResearchData = ResearchData(
    title: Value, url: Value, image: string, category: Value, content: Value, author: Value)

  function FormatResearch(d: ResearchData): Researches.Research {
    Researches.Research(d.title, d.url, Str(d.image), SeedHandle(d.image), d.category, d.content, d.author)
  }

  function FormatResearches(data: seq<ResearchData>): (rows: seq<Researches.Research>)
    ensures |rows| == |data|
    ensures forall i :: 0 <= i < |data| ==> rows[i] == FormatResearch(data[i])
  {
    seq(|data|, i requires 0 <= i < |data| => FormatResearch(data[i]))
  }

  ghost predicate ResearchesAccepted(rows: seq<Researches.Research>, db: Db) {
    && (forall i :: 0 <= i < |rows| ==> Researches.RowOk(rows[i]))
    && DistinctKeys(rows, Researches.UrlOf)
    && db.writeFault.None?
  }

  function SeedResearch(t: Table<Researches.Research>, data: seq<ResearchData>, accepted: bool): Table<Researches.Research> {
    SeedTable(t, FormatResearches(data), accepted)
  }

  /** Seeding research keeps the table's constraints. */
  lemma SeedResearchKeepsValid(t: Table<Researches.Research>, data: seq<ResearchData>, db: Db)
    requires Researches.Valid(t)
    ensures Researches.Valid(SeedResearch(t, data, ResearchesAccepted(FormatResearches(data), db)))
  {
    var rows := FormatResearches(data);
    var accepted := ResearchesAccepted(rows, db);
    SeedKeepsKeys(t, rows, Researches.UrlOf, accepted);
    var r := SeedTable(t, rows, accepted);
    if |t.rows| == 0 && accepted {
      forall id | id in r.rows ensures Researches.RowOk(r.rows[id]) {
        assert r.rows[id] == rows[id - t.next];
      }
    }
  }

  // ---------------------------------------------------------------------
  // seedTeams

  /** One entry of the bundled team roster. */
  datatype TeamData = TeamData(
    name: Value, occupation: Value, title: Value, image: string,
    comment: Value, affiliation: Value, isPast: Value)

  /** `isPast ? "PAST" : occupation === "Collaborator" ? "COLLABORATOR" : "CURRENT"`. */
  function SeedStatus(occupation: Value, isPast: Value): (s: Teams.Status)
    ensures s != Teams.Future
    ensures Truthy(isPast) <==> s == Teams.Past
    ensures !Truthy(isPast) ==> (s == Teams.Collaborator <==> occupation == Str("Collaborator"))
  {
    if Truthy(isPast) then Teams.Past
    else if StrictEq(occupation, Str("Collaborator")) then Teams.Collaborator
    else Teams.Current
  }

  /** What `seedTeams` builds for an entry: the row, and the public id it
      computes alongside, which the `Teams` table has no column for and
      `bulkCreate` therefore drops. */
  datatype FormattedTeam = FormattedTeam(member: Teams.Team, imagePublicId: Value)

  function FormatTeam(d: TeamData): FormattedTeam {
    FormattedTeam(
      Teams.NewTeam(d.name, d.occupation, d.title, Str(d.image), d.comment, d.affiliation,
                    Some(SeedStatus(d.occupation, d.isPast))),
      SeedHandle(d.image))
  }

  function FormatTeams(data: seq<TeamData>): (rows: seq<Teams.Team>)
    ensures |rows| == |data|
    ensures forall i :: 0 <= i < |data| ==> rows[i] == FormatTeam(data[i]).member
  {
    seq(|data|, i requires 0 <= i < |data| => FormatTeam(data[i]).member)
  }

  ghost predicate TeamsAccepted(rows: seq<Teams.Team>, db: Db) {
    (forall i :: 0 <= i < |rows| ==> Teams.RowOk(rows[i])) && db.writeFault.None?
  }

  function SeedTeams(t: Table<Teams.Team>, data: seq<TeamData>, accepted: bool): Table<Teams.Team> {
    SeedTable(t, FormatTeams(data), accepted)
  }

  /** Seeding teams keeps the table's constraints, and no seeded member is a
      future one. */
  lemma SeedTeamsKeepsValid(t: Table<Teams.Team>, data: seq<TeamData>, db: Db)
    requires Teams.Valid(t)
    requires forall id :: id in t.rows ==> t.rows[id].status != Teams.Future
    ensures var r := SeedTeams(t, data, TeamsAccepted(FormatTeams(data), db));
      && Teams.Valid(r)
      && forall id :: id in r.rows ==> r.rows[id].status != Teams.Future
  {
    var rows := FormatTeams(data);
    var accepted := TeamsAccepted(rows, db);
    var r := SeedTable(t, rows, accepted);
    if |t.rows| == 0 && accepted {
      forall id | id in r.rows ensures Teams.RowOk(r.rows[id]) && r.rows[id].status != Teams.Future {
        assert r.rows[id] == rows[id - t.next];
      }
    }
  }

  // ---------------------------------------------------------------------
  // The shipped roster

  /** A roster entry for a collaborator who is not marked past. */
  const CollaboratorEntry := (Str("Collaborator"), Undefined)

  /** The `(occupation, isPast)` pairs of the sixteen bundled team members, in
      order: the principal researcher first, the fifth member marked past. */
  const ShippedRoster: seq<(Value, Value)> :=
    [(Str("Principal Researcher"), Undefined), CollaboratorEntry, CollaboratorEntry, CollaboratorEntry,
     (Str("Collaborator"), Bool(true)), CollaboratorEntry, CollaboratorEntry, CollaboratorEntry,
     CollaboratorEntry, CollaboratorEntry, CollaboratorEntry, CollaboratorEntry,
     CollaboratorEntry, CollaboratorEntry, CollaboratorEntry, CollaboratorEntry]

  /** The statuses seeding gives a roster, in order. */
  function Statuses(roster: seq<(Value, Value)>): (ss: seq<Teams.Status>)
    ensures |ss| == |roster|
    ensures forall i :: 0 <= i < |roster| ==> ss[i] == SeedStatus(roster[i].0, roster[i].1)
  {
    seq(|roster|, i requires 0 <= i < |roster| => SeedStatus(roster[i].0, roster[i].1))
  }

  /** `n` collaborators in a row. */
  function Collaborators(n: nat): (ss: seq<Teams.Status>)
    ensures |ss| == n && forall i :: 0 <= i < n ==> ss[i] == Teams.Collaborator
  {
    seq(n, _ => Teams.Collaborator)
  }

  /** The statuses the shipped roster seeds as, in order. */
  const ShippedStatuses: seq<Teams.Status> :=
    [Teams.Current] + Collaborators(3) + [Teams.Past] + Collaborators(11)

  /** Seeding the shipped roster gives the principal researcher CURRENT, the
      fifth member PAST and everyone else COLLABORATOR. */
  lemma ShippedRosterStatuses()
    ensures Statuses(ShippedRoster) == ShippedStatuses
  {
    var ss := Statuses(ShippedRoster);
    assert ss[..1] == [Teams.Current];
    assert ss[1..4] == Collaborators(3);
    assert ss[4..5] == [Teams.Past];
    assert ss[5..] == Collaborators(11);
    assert ss == ss[..1] + ss[1..4] + ss[4..5] + ss[5..];
  }

  /** So the seeded team has one current member, one past member, fourteen
      collaborators and no future member. */
  lemma ShippedRosterCounts()
    ensures var m := multiset(Statuses(ShippedRoster));
      m[Teams.Current] == 1 && m[Teams.Past] == 1 && m[Teams.Collaborator] == 14 && m[Teams.Future] == 0
  {
    ShippedRosterStatuses();
    CollaboratorsCount(3);
    CollaboratorsCount(11);
    assert multiset(ShippedStatuses)
        == multiset{Teams.Current} + multiset(Collaborators(3)) + multiset{Teams.Past} + multiset(Collaborators(11));
  }

  /** A run of collaborators counts once per entry for COLLABORATOR and never
      for another status. */
  lemma {:induction false} CollaboratorsCount(n: nat)
    ensures multiset(Collaborators(n))[Teams.Collaborator] == n
    ensures forall s :: s != Teams.Collaborator ==> multiset(Collaborators(n))[s] == 0
  {
    if n > 0 {
      CollaboratorsCount(n - 1);
      assert Collaborators(n) == Collaborators(n - 1) + [Teams.Collaborator];
    }
  }

  /** The photo URL of the first bundled member, in pieces. */
  const PhotoDomain := "https://res.cloudinary.com"
  const PhotoPath := "/doqvfemo3/image/upload/"
  const PhotoOptions := "f_auto,q_auto"
  const PhotoHost := PhotoDomain + PhotoPath + PhotoOptions
  const PhotoId := "Staplab/en5p8ujz840n9joswas5"
  const Photo := PhotoHost + "/v" + "1" + "/" + PhotoId

  lemma PlainDomain()
    ensures PublicIds.SingleLine(PhotoDomain) && PublicIds.NoVersionStart(PhotoDomain)
  {
  }

  lemma PlainPath()
    ensures PublicIds.SingleLine(PhotoPath) && PublicIds.NoVersionStart(PhotoPath)
  {
  }

  lemma PlainOptions()
    ensures PublicIds.SingleLine(PhotoOptions) && PublicIds.NoVersionStart(PhotoOptions)
  {
  }

  /** The part before the version segment is one line with no `/v` in it. */
  lemma PlainHost()
    ensures PublicIds.SingleLine(PhotoHost) && PublicIds.NoVersionStart(PhotoHost)
  {
    PlainDomain();
    PlainPath();
    PlainOptions();
    PublicIds.NoVersionStartAppend(PhotoDomain, PhotoPath);
    PublicIds.SingleLineAppend(PhotoDomain, PhotoPath);
    PublicIds.NoVersionStartAppend(PhotoDomain + PhotoPath, PhotoOptions);
    PublicIds.SingleLineAppend(PhotoDomain + PhotoPath, PhotoOptions);
  }

  /** The id is one line with no `.` in it. */
  lemma PlainId()
    ensures PublicIds.SingleLine(PhotoId)
    ensures forall j :: 0 <= j < |PhotoId| ==> PhotoId[j] != '.'
  {
  }

  /** The bundled photos have no extension: seeding records the id after the
      version segment, while the handlers' pattern finds no id in the same
      URL. */
  lemma ShippedPhotoPatternsDisagree()
    ensures SeedHandle(Photo) == Str(PhotoId)
    ensures Cloudinary.ExtractPublicId(Str(Photo)) == Null
  {
    PlainHost();
    PlainId();
    assert PublicIds.IsDigit("1"[0]);
    PublicIds.ExtensionlessUrlPatternsDisagree(PhotoHost, "1", PhotoId);
  }
}
