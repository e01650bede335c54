/** The team handlers: create, list, read, update and delete a team member.
    The status column is an enumeration; the handlers check the status a
    body brings before writing it. */
module Teams {
  import opened Js
  import opened Store
  import opened Http

  /** The values of the `status` column. */
  datatype Status = Current | Past | Future | Collaborator

  /** How a status is spelled in a body and in the column. */
  function StatusName(s: Status): string {
    match s
    case Current => "CURRENT"
    case Past => "PAST"
    case Future => "FUTURE"
    case Collaborator => "COLLABORATOR"
  }

  /** `['CURRENT', 'PAST', 'FUTURE', 'COLLABORATOR'].includes(v)`, giving the
      status `v` names. */
  function ParseStatus(v: Value): (r: Option<Status>)
    ensures r.Some? ==> v == Str(StatusName(r.value))
    ensures (exists s :: v == Str(StatusName(s))) ==> r.Some?
  {
    if v == Str("CURRENT") then Some(Current)
    else if v == Str("PAST") then Some(Past)
    else if v == Str("FUTURE") then Some(Future)
    else if v == Str("COLLABORATOR") then Some(Collaborator)
    else None
  }

  /** Every status reads back from its own name. */
  lemma StatusNameRoundTrip(s: Status)
    ensures ParseStatus(Str(StatusName(s))) == Some(s)
  {
  }

  /** The column default. */
  const DefaultStatus := Current

  /** A row of the `Teams` table. */
  datatype Team = Team(
    name: Value, occupation: Value, title: Value, image: Value,
    comment: Value, affiliation: Value, status: Status)

  type TeamStep = Step<Team, Team>

  const Incomplete := "All fields are required"
  const BadStatus := "Invalid status value"
  const NotFound := "Team member not found"
  const Deleted := "Team deleted successfully!"

  /** `Team.create` at the model level: a missing status takes the column
      default. No handler or seed reaches that branch: `createTeam` refuses
      a body without a status, and every seeded member carries one. It is
      the model's own default, stated for completeness. */
  function NewTeam(name: Value, occupation: Value, title: Value, image: Value,
                   comment: Value, affiliation: Value, status: Option<Status>): (m: Team)
    ensures status.None? ==> m.status == DefaultStatus
    ensures status.Some? ==> m.status == status.value
  {
    Team(name, occupation, title, image, comment, affiliation,
         match status case Some(s) => s case None => DefaultStatus)
  }

  predicate RowOk(m: Team) {
    && NonNull(m.name) && NonNull(m.occupation) && NonNull(m.title)
    && NonNull(m.image) && NonNull(m.comment) && NonNull(m.affiliation)
  }

  ghost predicate Valid(t: Table<Team>) {
    WellKeyed(t) && forall id :: id in t.rows ==> RowOk(t.rows[id])
  }

  const Fields := ["name", "occupation", "title", "image", "comment", "affiliation", "status"]

  /** What create demands: all seven fields present. */
  ghost predicate Complete(body: Body) {
    forall k :: k in Fields ==> Truthy(Field(body, k))
  }

  /** `createTeam`: the reply carries the whole stored row. */
  function CreateTeam(body: Body, t: Table<Team>, db: Db): (r: TeamStep)
    ensures r.log == []
    ensures r.reply.status in {201, 400, 500}
    ensures r.reply.status == 400 <==> !Complete(body) || ParseStatus(Field(body, "status")).None?
    ensures !Complete(body) ==> r.reply.payload == Error(Incomplete)
    ensures r.reply.status == 201 <==> Complete(body) && ParseStatus(Field(body, "status")).Some? && db.writeFault.None?
    ensures r.reply.status != 201 ==> r.table == t
    ensures r.reply.status == 201 ==>
      && r.reply.payload.Created? && r.reply.payload.id == t.next
      && r.table == Insert(t, r.reply.payload.record)
      && Str(StatusName(r.reply.payload.record.status)) == Field(body, "status")
      && r.reply.payload.record.name == Field(body, "name")
      && r.reply.payload.record.occupation == Field(body, "occupation")
      && r.reply.payload.record.title == Field(body, "title")
      && r.reply.payload.record.image == Field(body, "image")
      && r.reply.payload.record.comment == Field(body, "comment")
      && r.reply.payload.record.affiliation == Field(body, "affiliation")
    ensures Valid(t) ==> Valid(r.table)
  {
    var name, occupation, title, image, comment, affiliation, status :=
      Field(body, "name"), Field(body, "occupation"), Field(body, "title"), Field(body, "image"),
      Field(body, "comment"), Field(body, "affiliation"), Field(body, "status");
    if !Truthy(name) || !Truthy(occupation) || !Truthy(title) || !Truthy(image)
       || !Truthy(comment) || !Truthy(affiliation) || !Truthy(status) then
      assert !Complete(body) by {
        assert Fields[0] == "name" && Fields[1] == "occupation" && Fields[2] == "title";
        assert Fields[3] == "image" && Fields[4] == "comment" && Fields[5] == "affiliation";
        assert Fields[6] == "status";
      }
      Refuse(400, Incomplete, t)
    else
      assert Complete(body) by {
        forall k | k in Fields ensures Truthy(Field(body, k)) {
        }
      }
      match ParseStatus(status)
      case None => Refuse(400, BadStatus, t)
      case Some(s) =>
        var member := NewTeam(name, occupation, title, image, comment, affiliation, Some(s));
        match db.writeFault
        case Some(message) => Refuse(500, message, t)
        case None => Step(Reply(201, Created(t.next, member)), Insert(t, member), [])
  }

  /** `getAllTeams`: every column of every row. */
  function GetAllTeams(t: Table<Team>, db: Db): (r: TeamStep)
    ensures r.table == t && r.log == []
    ensures db.readFault.None? <==> r.reply.status == 200
    ensures r.reply.status == 200 ==> r.reply.payload == Listed(ListViews(t, (m: Team) => m))
  {
    match db.readFault
    case Some(message) => Refuse(500, message, t)
    case None => Step(Reply(200, Listed(ListViews(t, (m: Team) => m))), t, [])
  }

  /** `getTeamById`. */
  function GetTeam(id: nat, t: Table<Team>, db: Db): (r: TeamStep)
    ensures r.table == t && r.log == []
    ensures db.readFault.None? ==> (r.reply.status == 200 <==> id in t.rows)
    ensures r.reply.status == 200 ==> id in t.rows && r.reply.payload == Shown(id, t.rows[id])
    ensures r.reply.status == 404 ==> r.reply.payload == Error(NotFound)
    ensures db.readFault.Some? ==> r.reply.status == 500
    ensures db.readFault.None? && id !in t.rows ==> r.reply == Reply(404, Error(NotFound))
  {
    if db.readFault.Some? then Refuse(500, db.readFault.value, t)
    else if id !in t.rows then Refuse(404, NotFound, t)
    else Step(Reply(200, Shown(id, t.rows[id])), t, [])
  }

  /** `updateTeam`: a status, when given, must name one; empty fields keep
      the stored values. */
  function UpdateTeam(id: nat, body: Body, t: Table<Team>, db: Db): (r: TeamStep)
    ensures r.log == []
    ensures r.reply.status in {200, 400, 404, 500}
    ensures db.readFault.None? ==> (r.reply.status == 404 <==> id !in t.rows)
    ensures r.reply.status == 400 <==>
      db.readFault.None? && id in t.rows
      && Truthy(Field(body, "status")) && ParseStatus(Field(body, "status")).None?
    ensures r.reply.status != 200 ==> r.table == t
    ensures db.readFault.Some? ==> r.reply.status == 500
    ensures (db.readFault.None? && id in t.rows
             && !(Truthy(Field(body, "status")) && ParseStatus(Field(body, "status")).None?)) ==>
      r.reply.status == (if db.writeFault.None? then 200 else 500)
    ensures r.reply.status == 404 ==> r.reply.payload == Error(NotFound)
    ensures r.reply.status == 200 ==>
      && id in t.rows && id in r.table.rows
      && r.table == Put(t, id, r.table.rows[id])
      && r.reply.payload == Shown(id, r.table.rows[id])
    ensures Valid(t) ==> Valid(r.table)
  {
    if db.readFault.Some? then Refuse(500, db.readFault.value, t)
    else if id !in t.rows then Refuse(404, NotFound, t)
    else
      var status := Field(body, "status");
      if Truthy(status) && ParseStatus(status).None? then Refuse(400, BadStatus, t)
      else
        var member := t.rows[id];
        var updated := Team(
          Or(Field(body, "name"), member.name),
          Or(Field(body, "occupation"), member.occupation),
          Or(Field(body, "title"), member.title),
          Or(Field(body, "image"), member.image),
          Or(Field(body, "comment"), member.comment),
          Or(Field(body, "affiliation"), member.affiliation),
          if Truthy(status) then ParseStatus(status).value else member.status);
        match db.writeFault
        case Some(message) => Refuse(500, message, t)
        case None => Step(Reply(200, Shown(id, updated)), Put(t, id, updated), [])
  }

  /** `deleteTeam`. */
  function DeleteTeam(id: nat, t: Table<Team>, db: Db): (r: TeamStep)
    ensures r.log == []
    ensures db.readFault.None? ==> (r.reply.status == 404 <==> id !in t.rows)
    ensures r.reply.status != 200 ==> r.table == t
    ensures r.reply.status == 200 <==> db.readFault.None? && db.writeFault.None? && id in t.rows
    ensures db.readFault.Some? ==> r.reply.status == 500
    ensures r.reply.status == 404 ==> r.reply.payload == Error(NotFound)
    ensures r.reply.status == 200 ==> r.table == Drop(t, id) && r.reply.payload == Message(Deleted)
    ensures Valid(t) ==> Valid(r.table)
  {
    if db.readFault.Some? then Refuse(500, db.readFault.value, t)
    else if id !in t.rows then Refuse(404, NotFound, t)
    else match db.writeFault
      case Some(message) => Refuse(500, message, t)
      case None => Step(Reply(200, Message(Deleted)), Drop(t, id), [])
  }

  /** An update keeps what the body leaves empty, replaces what it fills, and
      changes the status only to the one the body names. */
  lemma UpdateTeamMerges(id: nat, body: Body, t: Table<Team>, db: Db)
    requires UpdateTeam(id, body, t, db).reply.status == 200
    ensures var r := UpdateTeam(id, body, t, db);
      var before := t.rows[id];
      var after := r.table.rows[id];
      && r.table.rows.Keys == t.rows.Keys
      && (forall k :: k in t.rows && k != id ==> r.table.rows[k] == t.rows[k])
      && (Truthy(Field(body, "name")) ==> after.name == Field(body, "name"))
      && (!Truthy(Field(body, "name")) ==> after.name == before.name)
      && (Truthy(Field(body, "occupation")) ==> after.occupation == Field(body, "occupation"))
      && (!Truthy(Field(body, "occupation")) ==> after.occupation == before.occupation)
      && (Truthy(Field(body, "title")) ==> after.title == Field(body, "title"))
      && (!Truthy(Field(body, "title")) ==> after.title == before.title)
      && (Truthy(Field(body, "image")) ==> after.image == Field(body, "image"))
      && (!Truthy(Field(body, "image")) ==> after.image == before.image)
      && (Truthy(Field(body, "comment")) ==> after.comment == Field(body, "comment"))
      && (!Truthy(Field(body, "comment")) ==> after.comment == before.comment)
      && (Truthy(Field(body, "affiliation")) ==> after.affiliation == Field(body, "affiliation"))
      && (!Truthy(Field(body, "affiliation")) ==> after.affiliation == before.affiliation)
      && (Truthy(Field(body, "status")) ==> Field(body, "status") == Str(StatusName(after.status)))
      && (!Truthy(Field(body, "status")) ==> after.status == before.status)
  {
  }

  /** A created member reads back as stored. */
  lemma CreatedTeamReadsBack(body: Body, t: Table<Team>, db: Db)
    requires Valid(t)
    requires CreateTeam(body, t, db).reply.status == 201
    ensures var r := CreateTeam(body, t, db);
      && t.next !in t.rows
      && (forall k :: k in t.rows ==> k in r.table.rows && r.table.rows[k] == t.rows[k])
      && GetTeam(t.next, r.table, Db(None, None)).reply == Reply(200, Shown(t.next, r.reply.payload.record))
      && r.reply.payload.record == Team(
           Field(body, "name"), Field(body, "occupation"), Field(body, "title"), Field(body, "image"),
           Field(body, "comment"), Field(body, "affiliation"), ParseStatus(Field(body, "status")).value)
  {
  }

  /** A deleted member is gone: reading it answers 404 and the other members
      are untouched. */
  lemma DeletedTeamIsGone(id: nat, t: Table<Team>, db: Db)
    requires DeleteTeam(id, t, db).reply.status == 200
    ensures var r := DeleteTeam(id, t, db);
      && GetTeam(id, r.table, Db(None, None)).reply == Reply(404, Error(NotFound))
      && (forall k :: k in t.rows && k != id ==> k in r.table.rows && r.table.rows[k] == t.rows[k])
  {
  }
}
