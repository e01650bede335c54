/** What a handler receives and what it answers. A request body is a map
    from field names to values; an absent field reads as `undefined`. A
    handler's whole effect is a `Step`: the reply, the table afterwards, and
    the calls it made to the image host, in order. */
module Http {
  import opened Js
  import opened Store

  type Body = map<string, Value>

  /** `req.body.k`. */
  function Field(b: Body, k: string): Value {
    if k in b then b[k] else Undefined
  }

  /** The claims a login token carries (`jwt.sign({ id, email })`). */
  datatype Claims = Claims(id: nat, email: Value)

  /** The JSON a handler sends, by shape: a full stored record, one row's
      public view, a list of views, a view with a message, a token with a
      message, a bare message, or an error. */
  datatype Payload<R, V> =
    | Created(id: nat, record: R)
    | Shown(id: nat, view: V)
    | Listed(views: seq<(nat, V)>)
    | ShownWith(id: nat, view: V, message: string)
    | Granted(message: string, claims: Claims)
    | Message(text: string)
    | Error(text: string)

  datatype Reply<R, V> = Reply(status: nat, payload: Payload<R, V>)

  /** One call to the image host's delete endpoint and whether it succeeded. */
  datatype Attempt = Attempt(publicId: Value, succeeded: bool)

  datatype Step<R, V> = Step(reply: Reply<R, V>, table: Table<R>, log: seq<Attempt>)

  /** An error reply that leaves the table alone and calls nobody. */
  function Refuse<R, V>(status: nat, message: string, t: Table<R>): (r: Step<R, V>)
    ensures r.reply.payload == Error(message) && r.reply.status == status
    ensures r.table == t && r.log == []
  {
    Step(Reply(status, Error(message)), t, [])
  }

  /** `Model.findAll()` mapped through the attributes the reply exposes:
      every row once, in key order. */
  function ListViews<R, V>(t: Table<R>, view: R -> V): (vs: seq<(nat, V)>)
    ensures |vs| == |Keys(t)|
    ensures forall i :: 0 <= i < |vs| ==> vs[i].0 == Keys(t)[i] && vs[i].1 == view(t.rows[vs[i].0])
  {
    var ks := Keys(t);
    seq(|ks|, i requires 0 <= i < |ks| => (ks[i], view(t.rows[ks[i]])))
  }

}
