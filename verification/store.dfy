/** The relational store as the controllers use it: one table per model,
    rows addressed by an auto-increment primary key. Failures of the store
    itself (a lost connection, a rejected statement) are not decided here:
    they arrive as a `Db` oracle, one answer for the request's reads and one
    for its writes. */
module Store {
  import opened Js

  /** The rows of one table by primary key, and the key the next insert gets. */
  datatype Table<R> = Table(rows: map<nat, R>, next: nat)

  /** What the store answers a request: `Some(message)` when the read
      (`findByPk`, `findAll`, `findOne`) or the write (`create`, `update`,
      `destroy`) throws. */
  datatype Db = Db(readFault: Option<string>, writeFault: Option<string>)

  /** The message of a unique-constraint violation. */
  const UniqueViolation := "Validation error"

  /** Every key in use was handed out by an insert. */
  ghost predicate WellKeyed<R>(t: Table<R>) {
    forall id :: id in t.rows ==> id < t.next
  }

  /** A `unique: true` column: no two rows share a value. */
  ghost predicate Unique<R>(t: Table<R>, key: R -> Value) {
    forall i, j :: i in t.rows && j in t.rows && key(t.rows[i]) == key(t.rows[j]) ==> i == j
  }

  /** `Model.create`: the new row gets the next key. */
  function Insert<R>(t: Table<R>, r: R): Table<R> {
    Table(t.rows[t.next := r], t.next + 1)
  }

  /** `instance.update` on the row with key `id`. */
  function Put<R>(t: Table<R>, id: nat, r: R): Table<R> {
    t.(rows := t.rows[id := r])
  }

  /** `instance.destroy` on the row with key `id`. */
  function Drop<R>(t: Table<R>, id: nat): Table<R> {
    t.(rows := t.rows - {id})
  }

  /** Whether a row other than `self` already holds `k` in the unique column
      `key`. */
  predicate Taken<R>(t: Table<R>, key: R -> Value, k: Value, self: Option<nat>) {
    exists id :: id in t.rows && Some(id) != self && key(t.rows[id]) == k
  }

  /** How a write ends: the store's own fault first, then a unique-constraint
      violation, otherwise success. */
  function WriteError(db: Db, conflict: bool): (r: Option<string>)
    ensures r.None? <==> db.writeFault.None? && !conflict
    ensures db.writeFault.Some? ==> r == db.writeFault
    ensures db.writeFault.None? && conflict ==> r == Some(UniqueViolation)
  {
    if db.writeFault.Some? then db.writeFault
    else if conflict then Some(UniqueViolation)
    else None
  }

  /** The least element of a non-empty set of keys. */
  function Least(s: set<nat>): (m: nat)
    requires s != {}
    ensures m in s && forall k :: k in s ==> m <= k
  {
    var x :| x in s;
    LeastFrom(s, 0, x)
  }

  /** The least key of `s` at or above `i`, found by counting up from `i`
      towards the member `x`. */
  function LeastFrom(s: set<nat>, i: nat, x: nat): (m: nat)
    requires x in s && i <= x
    requires forall k :: k in s ==> i <= k
    ensures m in s && forall k :: k in s ==> m <= k
    decreases x - i
  {
    if i in s then i
    else
      assert forall k :: k in s ==> i + 1 <= k;
      LeastFrom(s, i + 1, x)
  }

  /** A set of keys in ascending order. */
  function Ascending(s: set<nat>): (ks: seq<nat>)
    ensures forall k :: k in ks <==> k in s
    ensures forall i, j :: 0 <= i < j < |ks| ==> ks[i] < ks[j]
    decreases |s|
  {
    if s == {} then []
    else
      var m := Least(s);
      var rest := Ascending(s - {m});
      PrependLeast(s, m, rest);
      [m] + rest
  }

  /** Putting the least key in front of the others in ascending order gives
      all keys in ascending order. */
  lemma PrependLeast(s: set<nat>, m: nat, rest: seq<nat>)
    requires m in s && forall k :: k in s ==> m <= k
    requires forall k :: k in rest <==> k in s - {m}
    requires forall i, j :: 0 <= i < j < |rest| ==> rest[i] < rest[j]
    ensures forall k :: k in [m] + rest <==> k in s
    ensures forall i, j :: 0 <= i < j < |[m] + rest| ==> ([m] + rest)[i] < ([m] + rest)[j]
  {
    var ks := [m] + rest;
    forall i, j | 0 <= i < j < |ks|
      ensures ks[i] < ks[j]
    {
      if i == 0 {
        assert ks[j] == rest[j - 1] && ks[j] in rest;
      } else {
        assert ks[i] == rest[i - 1] && ks[j] == rest[j - 1];
      }
    }
  }

  /** The keys of a table in ascending order: the order in which the model
      lists rows. */
  function Keys<R>(t: Table<R>): (ks: seq<nat>)
    ensures forall k :: k in ks <==> k in t.rows
    ensures forall i, j :: 0 <= i < j < |ks| ==> ks[i] < ks[j]
  {
    Ascending(t.rows.Keys)
  }

  /** The first key of `ks` whose row satisfies `matches`. */
  function FirstMatch<R>(rows: map<nat, R>, ks: seq<nat>, matches: R -> bool): (r: Option<nat>)
    requires forall k :: k in ks ==> k in rows
    requires forall i, j :: 0 <= i < j < |ks| ==> ks[i] < ks[j]
    ensures r.Some? ==> r.value in ks && matches(rows[r.value])
    ensures r.Some? ==> forall k :: k in ks && k < r.value ==> !matches(rows[k])
    ensures r.None? ==> forall k :: k in ks ==> !matches(rows[k])
  {
    if ks == [] then None
    else
      assert forall k :: k in ks ==> k == ks[0] || k in ks[1..];
      if matches(rows[ks[0]]) then
        assert forall k :: k in ks[1..] ==> ks[0] < k;
        Some(ks[0])
      else
        FirstMatch(rows, ks[1..], matches)
  }

  /** `Model.findOne({ where })`: the row with the smallest key among those
      satisfying `matches`. */
  function FindOne<R>(t: Table<R>, matches: R -> bool): (r: Option<nat>)
    ensures r.Some? ==> r.value in t.rows && matches(t.rows[r.value])
    ensures r.Some? ==> forall id :: id in t.rows && id < r.value ==> !matches(t.rows[id])
    ensures r.None? ==> forall id :: id in t.rows ==> !matches(t.rows[id])
  {
    FirstMatch(t.rows, Keys(t), matches)
  }

  /** Under a unique column, `findOne` on that column finds THE row holding
      the value. */
  lemma FindOneUnique<R>(t: Table<R>, key: R -> Value, k: Value, matches: R -> bool, id: nat)
    requires Unique(t, key)
    requires forall r :: matches(r) <==> key(r) == k
    requires id in t.rows && key(t.rows[id]) == k
    ensures FindOne(t, matches) == Some(id)
  {
  }

  /** An insert whose unique column is free keeps the keys well formed and
      the column unique. */
  lemma InsertKeepsKeys<R>(t: Table<R>, key: R -> Value, r: R)
    requires WellKeyed(t) && Unique(t, key)
    requires !Taken(t, key, key(r), None)
    ensures WellKeyed(Insert(t, r)) && Unique(Insert(t, r), key)
    ensures t.next !in t.rows
  {
  }

  /** So does an update that does not take another row's value. */
  lemma PutKeepsKeys<R>(t: Table<R>, key: R -> Value, id: nat, r: R)
    requires WellKeyed(t) && Unique(t, key) && id in t.rows
    requires !Taken(t, key, key(r), Some(id))
    ensures WellKeyed(Put(t, id, r)) && Unique(Put(t, id, r), key)
  {
  }

  /** And a delete. */
  lemma DropKeepsKeys<R>(t: Table<R>, key: R -> Value, id: nat)
    requires WellKeyed(t) && Unique(t, key)
    ensures WellKeyed(Drop(t, id)) && Unique(Drop(t, id), key)
  {
  }
}
