/**
 * The server: the `resumes` table and the five route handlers on
 * `/api/resumes`. The table is kept in memory as a map from id to row,
 * with the AUTO_INCREMENT counter and an abstract clock standing for
 * CURRENT_TIMESTAMP. Each handler is one transaction; whether the store
 * reports an error is an input, `storeFails`.
 */
module ResumeServer {
  import opened Wrappers

  /** A column value as the JSON request body carries it: absent
      (`null`, stored as NULL; an `undefined` field is treated the same,
      see README) or a string. */
  type Value = Option<string>

  /** The opposite of `!x` in the validation: present and not "". */
  predicate Present(x: Value) {
    x.Some? && x.value != ""
  }

  /** The seven columns a request writes. */
  datatype Fields = Fields(
    name: Value, email: Value, phone: Value, city: Value, country: Value,
    resumeContent: Value, template: Value)

  datatype Row = Row(id: int, fields: Fields, createdAt: nat, updatedAt: nat)

  /** A row of the listing query: every column except `resume_content`,
      `template` and `updated_at`. */
  datatype Summary = Summary(
    id: int, name: Value, email: Value, phone: Value, city: Value, country: Value,
    createdAt: nat)

  datatype Body =
    | ErrorBody(error: string)
    | Saved(message: string, id: int)
    | Done(message: string)
    | Listing(summaries: seq<Summary>)
    | OneRow(row: Row)

  datatype Reply = Reply(status: int, body: Body)

  /** The table's contents, its AUTO_INCREMENT counter and the current time. */
  datatype Table = Table(rows: map<int, Row>, nextId: int, clock: nat)

  /** Every row is filed under its own id, ids are below the counter (which
      starts at 1) and no timestamp lies ahead of the clock. */
  predicate WellFormed(t: Table) {
    && 1 <= t.nextId
    && forall id :: id in t.rows ==>
         && 1 <= id < t.nextId
         && t.rows[id].id == id
         && t.rows[id].createdAt <= t.rows[id].updatedAt <= t.clock
  }

  /** The table as `CREATE TABLE IF NOT EXISTS` leaves it on a fresh database. */
  const EmptyTable := Table(map[], 1, 0)

  /** The INSERT: a new row under the counter's value, both timestamps now.
      The id is not in use, the stored fields are the submitted ones, and
      no other row changes. */
  function Inserted(t: Table, fields: Fields): (u: Table)
    requires WellFormed(t)
    ensures WellFormed(u)
    ensures t.nextId !in t.rows && u.rows.Keys == t.rows.Keys + {t.nextId}
    ensures u.rows[t.nextId].fields == fields && u.rows[t.nextId].id == t.nextId
    ensures u.rows[t.nextId].createdAt == u.rows[t.nextId].updatedAt == t.clock
    ensures forall id :: id in t.rows ==> u.rows[id] == t.rows[id]
    ensures u.nextId > t.nextId && u.clock == t.clock
  {
    Table(t.rows[t.nextId := Row(t.nextId, fields, t.clock, t.clock)], t.nextId + 1, t.clock)
  }

  /** The UPDATE ... WHERE id = ?: the matching row, if any, takes all seven
      fields as given; its id and `created_at` stay, and `updated_at` moves
      to now when some value actually changed. Other rows do not change. */
  function Updated(t: Table, id: int, fields: Fields): (u: Table)
    requires WellFormed(t)
    ensures WellFormed(u)
    ensures u.rows.Keys == t.rows.Keys && u.nextId == t.nextId && u.clock == t.clock
    ensures forall k :: k in t.rows && k != id ==> u.rows[k] == t.rows[k]
    ensures id in t.rows ==>
      && u.rows[id].fields == fields
      && u.rows[id].id == id
      && u.rows[id].createdAt == t.rows[id].createdAt
      && (u.rows[id].updatedAt == t.clock || u.rows[id] == t.rows[id])
    ensures id !in t.rows ==> u == t
  {
    if id in t.rows then
      var r := t.rows[id];
      var stamp := if fields == r.fields then r.updatedAt else t.clock;
      t.(rows := t.rows[id := r.(fields := fields, updatedAt := stamp)])
    else
      t
  }

  /** The DELETE ... WHERE id = ?: the row with that id goes, if there is
      one, and every other row stays as it was. */
  function Deleted(t: Table, id: int): (u: Table)
    requires WellFormed(t)
    ensures WellFormed(u)
    ensures u.rows.Keys == t.rows.Keys - {id}
    ensures forall k :: k in u.rows ==> u.rows[k] == t.rows[k]
    ensures u.nextId == t.nextId && u.clock == t.clock
  {
    t.(rows := t.rows - {id})
  }

  /** Deleting twice is deleting once. */
  lemma DeleteIdempotent(t: Table, id: int)
    requires WellFormed(t)
    ensures Deleted(Deleted(t, id), id) == Deleted(t, id)
  {
    assert Deleted(Deleted(t, id), id).rows == Deleted(t, id).rows;
  }

  /** An update whose fields equal the row's current ones changes nothing. */
  lemma UpdateWithSameFields(t: Table, id: int)
    requires WellFormed(t) && id in t.rows
    ensures Updated(t, id, t.rows[id].fields) == t
  {
    assert Updated(t, id, t.rows[id].fields).rows == t.rows;
  }

  /** An id handed out by the counter is never handed out again, whatever
      happens to the row afterwards. */
  lemma IdsNotReused(t: Table, first: Fields, id: int, second: Fields)
    requires WellFormed(t)
    ensures var u := Inserted(Deleted(Inserted(t, first), id), second);
      u.rows[Inserted(t, first).nextId].fields == second && Inserted(t, first).nextId != t.nextId
  {
  }

  function Summarize(r: Row): Summary {
    Summary(r.id, r.fields.name, r.fields.email, r.fields.phone, r.fields.city, r.fields.country, r.createdAt)
  }

  predicate SortedByNewest(xs: seq<Summary>) {
    forall i, j :: 0 <= i < j < |xs| ==> xs[i].createdAt >= xs[j].createdAt
  }

  predicate DistinctIds(xs: seq<Summary>) {
    forall i, j :: 0 <= i < j < |xs| ==> xs[i].id != xs[j].id
  }

  /** What `SELECT id, name, email, phone, city, country, created_at FROM
      resumes ORDER BY created_at DESC` may return: one summary per row,
      newest first. Rows with equal `created_at` may come in any order. */
  ghost predicate IsListing(rows: map<int, Row>, xs: seq<Summary>) {
    && SortedByNewest(xs)
    && DistinctIds(xs)
    && (forall x :: x in xs ==> x.id in rows && x == Summarize(rows[x.id]))
    && (forall id :: id in rows ==> Summarize(rows[id]) in xs)
  }

  /** The first index at or after `i` whose entry is not newer than `s`. */
  function InsertionPoint(xs: seq<Summary>, s: Summary, i: nat): (p: nat)
    requires i <= |xs|
    ensures i <= p <= |xs| && (p == |xs| || xs[p].createdAt <= s.createdAt)
    ensures forall k :: i <= k < p ==> xs[k].createdAt > s.createdAt
    decreases |xs| - i
  {
    if i < |xs| && xs[i].createdAt > s.createdAt then InsertionPoint(xs, s, i + 1) else i
  }

  /** `s` placed before the first entry that is not newer than it. */
  function InsertByNewest(xs: seq<Summary>, s: Summary): (r: seq<Summary>)
    ensures |r| == |xs| + 1
  {
    var p := InsertionPoint(xs, s, 0);
    xs[..p] + [s] + xs[p..]
  }

  /** Where each entry of the inserted list comes from. */
  lemma InsertByNewestAt(xs: seq<Summary>, s: Summary)
    ensures var p, r := InsertionPoint(xs, s, 0), InsertByNewest(xs, s);
      && (forall k :: 0 <= k < p ==> r[k] == xs[k])
      && r[p] == s
      && (forall k :: p < k < |r| ==> r[k] == xs[k - 1])
  {
  }

  /** Inserting keeps the list newest first. */
  lemma InsertByNewestSorted(xs: seq<Summary>, s: Summary)
    requires SortedByNewest(xs)
    ensures SortedByNewest(InsertByNewest(xs, s))
  {
    InsertByNewestAt(xs, s);
  }

  /** Inserting adds exactly `s`. */
  lemma InsertByNewestMembers(xs: seq<Summary>, s: Summary)
    ensures forall x :: x in InsertByNewest(xs, s) <==> x in xs || x == s
  {
    var p := InsertionPoint(xs, s, 0);
    assert xs == xs[..p] + xs[p..];
  }

  /** Inserting an entry with a new id keeps ids distinct. */
  lemma InsertByNewestDistinct(xs: seq<Summary>, s: Summary)
    requires DistinctIds(xs) && forall x :: x in xs ==> x.id != s.id
    ensures DistinctIds(InsertByNewest(xs, s))
  {
    InsertByNewestAt(xs, s);
  }

  /** The `resumes` table with its handlers. */
  class ResumeStore {
    var rows: map<int, Row>
    var nextId: int
    var clock: nat

    function State(): Table
      reads this
    {
      Table(rows, nextId, clock)
    }

    ghost predicate Valid()
      reads this
    {
      WellFormed(State())
    }

    constructor()
      ensures Valid() && State() == EmptyTable
    {
      rows, nextId, clock := map[], 1, 0;
    }

    /** Time passes. */
    method Tick(elapsed: nat)
      requires Valid()
      modifies this
      ensures Valid()
      ensures rows == old(rows) && nextId == old(nextId) && clock == old(clock) + elapsed
    {
      clock := clock + elapsed;
    }

    /** POST /api/resumes. */
    method PostResume(body: Fields, storeFails: bool) returns (reply: Reply)
      requires Valid()
      modifies this
      ensures Valid()
      ensures !Present(body.name) || !Present(body.email) ==>
        reply == Reply(400, ErrorBody("Name and email are required")) && State() == old(State())
      ensures Present(body.name) && Present(body.email) && storeFails ==>
        reply == Reply(500, ErrorBody("Failed to save resume")) && State() == old(State())
      ensures Present(body.name) && Present(body.email) && !storeFails ==>
        reply == Reply(200, Saved("Resume saved successfully", old(nextId)))
        && State() == Inserted(old(State()), body)
    {
      if !Present(body.name) || !Present(body.email) {
        return Reply(400, ErrorBody("Name and email are required"));
      }
      if storeFails {
        return Reply(500, ErrorBody("Failed to save resume"));
      }
      var id := nextId;
      rows := rows[id := Row(id, body, clock, clock)];
      nextId := nextId + 1;
      reply := Reply(200, Saved("Resume saved successfully", id));
    }

    /** GET /api/resumes: the store visits the ids in turn and inserts
        each row's summary into a list kept newest first. */
    method GetResumes(storeFails: bool) returns (reply: Reply)
      requires Valid()
      ensures storeFails ==> reply == Reply(500, ErrorBody("Failed to fetch resumes"))
      ensures !storeFails ==> reply.status == 200 && reply.body.Listing? && IsListing(rows, reply.body.summaries)
    {
      if storeFails {
        return Reply(500, ErrorBody("Failed to fetch resumes"));
      }
      var listing: seq<Summary> := [];
      var id := 1;
      while id < nextId
        invariant 1 <= id <= nextId
        invariant SortedByNewest(listing) && DistinctIds(listing)
        invariant forall x :: x in listing ==> x.id in rows && x.id < id && x == Summarize(rows[x.id])
        invariant forall k :: k in rows && k < id ==> Summarize(rows[k]) in listing
      {
        if id in rows {
          var s := Summarize(rows[id]);
          InsertByNewestSorted(listing, s);
          InsertByNewestMembers(listing, s);
          InsertByNewestDistinct(listing, s);
          listing := InsertByNewest(listing, s);
        }
        id := id + 1;
      }
      reply := Reply(200, Listing(listing));
    }

    /** GET /api/resumes/:id. */
    method GetResume(id: int, storeFails: bool) returns (reply: Reply)
      ensures storeFails ==> reply == Reply(500, ErrorBody("Failed to fetch resume"))
      ensures !storeFails && id !in rows ==> reply == Reply(404, ErrorBody("Resume not found"))
      ensures !storeFails && id in rows ==> reply == Reply(200, OneRow(rows[id]))
    {
      if storeFails {
        return Reply(500, ErrorBody("Failed to fetch resume"));
      }
      if id !in rows {
        return Reply(404, ErrorBody("Resume not found"));
      }
      reply := Reply(200, OneRow(rows[id]));
    }

    /** PUT /api/resumes/:id: no validation, and success whether or not a
        row matched. */
    method PutResume(id: int, body: Fields, storeFails: bool) returns (reply: Reply)
      requires Valid()
      modifies this
      ensures Valid()
      ensures storeFails ==> reply == Reply(500, ErrorBody("Failed to update resume")) && State() == old(State())
      ensures !storeFails ==>
        reply == Reply(200, Done("Resume updated successfully")) && State() == Updated(old(State()), id, body)
    {
      if storeFails {
        return Reply(500, ErrorBody("Failed to update resume"));
      }
      if id in rows {
        var r := rows[id];
        var stamp := if body == r.fields then r.updatedAt else clock;
        rows := rows[id := r.(fields := body, updatedAt := stamp)];
      }
      reply := Reply(200, Done("Resume updated successfully"));
    }

    /** DELETE /api/resumes/:id: success whether or not a row existed. */
    method DeleteResume(id: int, storeFails: bool) returns (reply: Reply)
      requires Valid()
      modifies this
      ensures Valid()
      ensures storeFails ==> reply == Reply(500, ErrorBody("Failed to delete resume")) && State() == old(State())
      ensures !storeFails ==>
        reply == Reply(200, Done("Resume deleted successfully")) && State() == Deleted(old(State()), id)
    {
      if storeFails {
        return Reply(500, ErrorBody("Failed to delete resume"));
      }
      rows := rows - {id};
      reply := Reply(200, Done("Resume deleted successfully"));
    }
  }
}
