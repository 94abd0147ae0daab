/**
 * The `messages` table and `insert_message`.
 *
 * The table is kept as the sequence of its rows in insertion (rowid) order,
 * with `message_id` as primary key: no two rows share a `message_id`.
 * `insert_message` adds a row for a message whose `message_id` is new and
 * returns `Created`; for a `message_id` already present the primary-key
 * constraint refuses the row, the table is left as it was and the call
 * returns `Duplicate`. The clock reading `datetime.utcnow().isoformat()` is
 * the parameter `now`; `created_at` is that reading followed by `Z`.
 */
module MessageTable {
  import opened Wrappers
  import opened Schemas

  /** A row of `messages`: the message's columns and the server-assigned `created_at`. */
  datatype Row = Row(
    messageId: string,
    fromMsisdn: string,
    toMsisdn: string,
    ts: string,
    text: Option<string>,
    createdAt: string)

  datatype InsertOutcome = Created | Duplicate

  function RowOf(m: Message, createdAt: string): Row {
    Row(m.messageId, m.fromMsisdn, m.toMsisdn, m.ts, m.text, createdAt)
  }

  /** The message a row stores (every column but `created_at`). */
  function MessageOf(r: Row): Message {
    Message(r.messageId, r.fromMsisdn, r.toMsisdn, r.ts, r.text)
  }

  /** The primary-key constraint on `message_id`. */
  predicate UniqueIds(rows: seq<Row>) {
    forall i, j :: 0 <= i < j < |rows| ==> rows[i].messageId != rows[j].messageId
  }

  function Ids(rows: seq<Row>): set<string> {
    set r | r in rows :: r.messageId
  }

  /** Every stored message passed the validator and every `created_at` carries `Z`. */
  predicate AllWellFormed(rows: seq<Row>) {
    forall r :: r in rows ==> WellFormed(MessageOf(r)) && IsUtcTimestamp(r.createdAt)
  }

  /** The row stored under a primary key, if any; used to state what an insert does. */
  function Lookup(rows: seq<Row>, id: string): (r: Option<Row>)
    ensures r.Some? ==> r.value in rows && r.value.messageId == id
    ensures r.None? <==> id !in Ids(rows)
  {
    if rows == [] then None
    else if rows[0].messageId == id then Some(rows[0])
    else
      assert Ids(rows) == Ids(rows[1..]) + {rows[0].messageId} by {
        assert rows == [rows[0]] + rows[1..];
      }
      Lookup(rows[1..], id)
  }

  lemma {:induction false} LookupAppend(rows: seq<Row>, x: Row, id: string)
    ensures Lookup(rows + [x], id) ==
      if id in Ids(rows) then Lookup(rows, id)
      else if x.messageId == id then Some(x) else None
    decreases |rows|
  {
    if rows == [] {
      assert rows + [x] == [x];
    } else {
      assert (rows + [x])[1..] == rows[1..] + [x];
      assert rows == [rows[0]] + rows[1..];
      assert Ids(rows) == Ids(rows[1..]) + {rows[0].messageId};
      LookupAppend(rows[1..], x, id);
    }
  }

  /** `insert_message` on a table: the new table and the outcome returned. */
  function Insert(rows: seq<Row>, m: Message, now: string): (r: (seq<Row>, InsertOutcome))
    ensures r.1 == Created <==> m.messageId !in Ids(rows)
    ensures r.1 == Duplicate ==> r.0 == rows
    ensures r.1 == Created ==> r.0 == rows + [RowOf(m, now + "Z")]
  {
    if m.messageId in Ids(rows) then (rows, Duplicate)
    else (rows + [RowOf(m, now + "Z")], Created)
  }

  /**
   * A new `message_id` is created: exactly one row is added, it holds the
   * message's fields and a `created_at` ending in `Z`, and no other id's
   * row changes.
   */
  lemma InsertNew(rows: seq<Row>, m: Message, now: string)
    requires m.messageId !in Ids(rows)
    ensures Insert(rows, m, now).1 == Created
    ensures |Insert(rows, m, now).0| == |rows| + 1
    ensures Lookup(Insert(rows, m, now).0, m.messageId) == Some(RowOf(m, now + "Z"))
    ensures MessageOf(RowOf(m, now + "Z")) == m && IsUtcTimestamp(RowOf(m, now + "Z").createdAt)
    ensures Ids(Insert(rows, m, now).0) == Ids(rows) + {m.messageId}
    ensures forall id :: id != m.messageId ==> Lookup(Insert(rows, m, now).0, id) == Lookup(rows, id)
  {
    var x := RowOf(m, now + "Z");
    forall id ensures Lookup(rows + [x], id) ==
      if id in Ids(rows) then Lookup(rows, id) else if x.messageId == id then Some(x) else None
    {
      LookupAppend(rows, x, id);
    }
    assert Ids(rows + [x]) == Ids(rows) + {m.messageId} by {
      assert forall r :: r in rows + [x] <==> r in rows || r == x;
    }
  }

  /** A known `message_id` is a duplicate: the table, and so the first insert's values, are kept. */
  lemma InsertExisting(rows: seq<Row>, m: Message, now: string)
    requires m.messageId in Ids(rows)
    ensures Insert(rows, m, now) == (rows, Duplicate)
    ensures Lookup(Insert(rows, m, now).0, m.messageId) == Lookup(rows, m.messageId)
  {
  }

  /** Inserting keeps the primary key unique and the stored rows well-formed. */
  lemma InsertKeepsInvariant(rows: seq<Row>, m: Message, now: string)
    requires UniqueIds(rows)
    ensures UniqueIds(Insert(rows, m, now).0)
    ensures AllWellFormed(rows) && WellFormed(m) ==> AllWellFormed(Insert(rows, m, now).0)
  {
    if m.messageId !in Ids(rows) {
      var rows' := rows + [RowOf(m, now + "Z")];
      forall i, j | 0 <= i < j < |rows'| ensures rows'[i].messageId != rows'[j].messageId {
        if j == |rows| {
          assert rows'[i] in rows;
        }
      }
    }
  }

  // ---------------------------------------------------------------------------
  // Replaying a message

  /** The outcomes of inserting `ms` one after another, the i-th at clock reading `clock[i]`. */
  function InsertAll(rows: seq<Row>, ms: seq<Message>, clock: seq<string>): (seq<Row>, seq<InsertOutcome>)
    requires |clock| == |ms|
    decreases |ms|
  {
    if ms == [] then (rows, [])
    else
      var (rows1, o) := Insert(rows, ms[0], clock[0]);
      var (rows2, os) := InsertAll(rows1, ms[1..], clock[1..]);
      (rows2, [o] + os)
  }

  function CountCreated(os: seq<InsertOutcome>): nat {
    if os == [] then 0 else (if os[0] == Created then 1 else 0) + CountCreated(os[1..])
  }

  lemma {:induction false} ReplayOfKnownId(rows: seq<Row>, ms: seq<Message>, clock: seq<string>, id: string)
    requires |clock| == |ms|
    requires id in Ids(rows)
    requires forall i :: 0 <= i < |ms| ==> ms[i].messageId == id
    ensures InsertAll(rows, ms, clock).0 == rows
    ensures CountCreated(InsertAll(rows, ms, clock).1) == 0
    decreases |ms|
  {
    if ms != [] {
      ReplayOfKnownId(rows, ms[1..], clock[1..], id);
    }
  }

  /**
   * Submitting the same `message_id` any number of times creates it at most
   * once: exactly one `Created` when it was new, none otherwise, and the row
   * kept is the one built from the first submission.
   */
  lemma {:induction false} ReplayCreatesOnce(rows: seq<Row>, ms: seq<Message>, clock: seq<string>, id: string)
    requires |clock| == |ms| && |ms| >= 1
    requires forall i :: 0 <= i < |ms| ==> ms[i].messageId == id
    ensures CountCreated(InsertAll(rows, ms, clock).1) == (if id in Ids(rows) then 0 else 1)
    ensures |InsertAll(rows, ms, clock).0| == |rows| + CountCreated(InsertAll(rows, ms, clock).1)
    ensures Lookup(InsertAll(rows, ms, clock).0, id) ==
      if id in Ids(rows) then Lookup(rows, id) else Some(RowOf(ms[0], clock[0] + "Z"))
  {
    var (rows1, o) := Insert(rows, ms[0], clock[0]);
    if id in Ids(rows) {
      InsertExisting(rows, ms[0], clock[0]);
    } else {
      InsertNew(rows, ms[0], clock[0]);
    }
    assert id in Ids(rows1);
    ReplayOfKnownId(rows1, ms[1..], clock[1..], id);
  }

  // ---------------------------------------------------------------------------
  // The table as an object

  class MessageStore {
    /** The rows, in insertion order. */
    var rows: seq<Row>
    /** The primary-key index: the `message_id` of every row. */
    var ids: set<string>

    ghost predicate Valid()
      reads this
    {
      && UniqueIds(rows)
      && ids == Ids(rows)
      && forall r :: r in rows ==> IsUtcTimestamp(r.createdAt)
    }

    /**
     * A store over a freshly created `messages` table. `CREATE TABLE IF NOT
     * EXISTS` keeps the rows of an existing table; the operations below hold
     * for any rows meeting `Valid()`, not only for those grown from empty.
     */
    constructor ()
      ensures Valid() && rows == []
    {
      rows := [];
      ids := {};
    }

    /** `insert_message`. */
    method InsertMessage(m: Message, now: string) returns (outcome: InsertOutcome)
      requires Valid()
      modifies this
      ensures Valid()
      ensures (rows, outcome) == Insert(old(rows), m, now)
      ensures outcome == Duplicate ==> rows == old(rows)
      ensures outcome == Created ==> Lookup(rows, m.messageId) == Some(RowOf(m, now + "Z"))
    {
      if m.messageId in ids {
        outcome := Duplicate;
        return;
      }
      InsertNew(rows, m, now);
      InsertKeepsInvariant(rows, m, now);
      assert IsUtcTimestamp(now + "Z");
      rows := rows + [RowOf(m, now + "Z")];
      ids := ids + {m.messageId};
      outcome := Created;
    }
  }
}
