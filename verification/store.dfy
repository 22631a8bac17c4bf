/**
 * The `trades` table and the prepared statements that write it or fetch a
 * single row. The table is a map from row id to row plus the AUTOINCREMENT
 * high-water mark (the largest id ever handed out).
 */
module Trades {
  import opened Basics

  /** The values the code ever stores in the `status` column. */
  datatype Status = Active | Traded | Closed | Expired

  /** One row of `trades`; nullable columns are `Option`s. */
  datatype Trade = Trade(
    id: int,
    userId: string,
    messageId: Option<string>,
    channelId: Option<string>,
    have: string,
    want: string,
    price: Option<string>,
    platform: Option<string>,
    notes: Option<string>,
    status: Status,
    createdAt: int,
    expiresAt: Option<int>)

  /** The ten bound parameters of the INSERT statement. */
  datatype NewRow = NewRow(
    userId: string,
    messageId: Option<string>,
    channelId: Option<string>,
    have: string,
    want: string,
    price: Option<string>,
    platform: Option<string>,
    notes: Option<string>,
    createdAt: int,
    expiresAt: Option<int>)

  /** The WHERE clause of the expiry sweep. */
  predicate Expirable(t: Trade, now: int)
  {
    t.status == Active && t.expiresAt.Some? && t.expiresAt.value < now
  }
}

module Store {
  import opened Basics
  import opened Trades

  datatype Table = Table(rows: map<int, Trade>, lastId: nat)

  /** Every row is stored under its own id, and no id exceeds the
      AUTOINCREMENT high-water mark (ids start at 1). */
  predicate Valid(t: Table)
  {
    forall k | k in t.rows :: 1 <= k <= t.lastId && t.rows[k].id == k
  }

  /** A freshly created database file. */
  const Empty: Table := Table(map[], 0)

  lemma EmptyValid()
    ensures Valid(Empty)
  {
  }

  /** What `insertTrade.run` reports: the new table and `lastInsertRowid`. */
  datatype Inserted = Inserted(table: Table, id: int)

  /** `insertTrade`: a new row with status 'active' under a fresh id. */
  function InsertTrade(t: Table, v: NewRow): (r: Inserted)
    requires Valid(t)
    ensures Valid(r.table)
    ensures r.id == t.lastId + 1
    ensures r.id !in t.rows && forall k | k in t.rows :: k < r.id
    ensures r.table.rows.Keys == t.rows.Keys + {r.id}
    ensures forall k | k in t.rows :: r.table.rows[k] == t.rows[k]
    ensures var row := r.table.rows[r.id];
            && row.id == r.id && row.status == Active
            && row.userId == v.userId && row.messageId == v.messageId && row.channelId == v.channelId
            && row.have == v.have && row.want == v.want
            && row.price == v.price && row.platform == v.platform && row.notes == v.notes
            && row.createdAt == v.createdAt && row.expiresAt == v.expiresAt
  {
    var id := t.lastId + 1;
    var row := Trade(id, v.userId, v.messageId, v.channelId, v.have, v.want,
                     v.price, v.platform, v.notes, Active, v.createdAt, v.expiresAt);
    Inserted(Table(t.rows[id := row], id), id)
  }

  /** `findById`: the row with that id, if any. */
  function FindById(t: Table, id: int): (r: Option<Trade>)
    requires Valid(t)
    ensures r.Some? <==> id in t.rows
    ensures r.Some? ==> r.value == t.rows[id] && r.value.id == id
  {
    if id in t.rows then Some(t.rows[id]) else None
  }

  /** `markStatus`: `UPDATE ... SET status=? WHERE id=?`, whatever the row's
      current status is; an unknown id updates nothing. */
  function MarkStatus(t: Table, status: Status, id: int): (r: Table)
    requires Valid(t)
    ensures Valid(r)
    ensures r.lastId == t.lastId && r.rows.Keys == t.rows.Keys
    ensures id in t.rows ==> r.rows[id].status == status
    ensures id in t.rows ==> r.rows[id].(status := t.rows[id].status) == t.rows[id]
    ensures forall k | k in t.rows && k != id :: r.rows[k] == t.rows[k]
  {
    if id in t.rows then t.(rows := t.rows[id := t.rows[id].(status := status)]) else t
  }

  /** `attachMessage`: records where the listing card was posted. */
  function AttachMessage(t: Table, messageId: string, channelId: string, id: int): (r: Table)
    requires Valid(t)
    ensures Valid(r)
    ensures r.lastId == t.lastId && r.rows.Keys == t.rows.Keys
    ensures id in t.rows ==> r.rows[id].messageId == Some(messageId) && r.rows[id].channelId == Some(channelId)
    ensures id in t.rows ==> r.rows[id].(messageId := t.rows[id].messageId, channelId := t.rows[id].channelId) == t.rows[id]
    ensures forall k | k in t.rows && k != id :: r.rows[k] == t.rows[k]
  {
    if id in t.rows then
      t.(rows := t.rows[id := t.rows[id].(messageId := Some(messageId), channelId := Some(channelId))])
    else t
  }

  /** `purgeExpired`: every active row whose expiry lies strictly before `now`
      becomes 'expired'; nothing else changes. */
  function PurgeExpired(t: Table, now: int): (r: Table)
    requires Valid(t)
    ensures Valid(r)
    ensures r.lastId == t.lastId && r.rows.Keys == t.rows.Keys
    ensures forall k | k in t.rows :: r.rows[k] != t.rows[k] <==> Expirable(t.rows[k], now)
    ensures forall k | k in t.rows :: r.rows[k].(status := t.rows[k].status) == t.rows[k]
    ensures forall k | k in t.rows && Expirable(t.rows[k], now) :: r.rows[k].status == Expired
    ensures forall k | k in r.rows :: !Expirable(r.rows[k], now)
  {
    t.(rows := map k | k in t.rows :: if Expirable(t.rows[k], now) then t.rows[k].(status := Expired) else t.rows[k])
  }

  /** A second sweep with the same clock value finds nothing to do. */
  lemma PurgeIdempotent(t: Table, now: int)
    requires Valid(t)
    ensures PurgeExpired(PurgeExpired(t, now), now) == PurgeExpired(t, now)
  {
    var once := PurgeExpired(t, now);
    assert PurgeExpired(once, now).rows == once.rows;
  }

  /** Sweeps with non-decreasing clock values (the periodic timer) compose:
      an earlier sweep never changes what a later one leaves behind. */
  lemma PurgeMonotone(t: Table, earlier: int, later: int)
    requires Valid(t) && earlier <= later
    ensures PurgeExpired(PurgeExpired(t, earlier), later) == PurgeExpired(t, later)
  {
    var a := PurgeExpired(PurgeExpired(t, earlier), later);
    var b := PurgeExpired(t, later);
    assert a.rows == b.rows;
  }

  /** No status guard: a row in any state, terminal ones included, takes the
      new status, and a second identical update is a no-op. */
  lemma MarkStatusOverwrites(t: Table, first: Status, second: Status, id: int)
    requires Valid(t) && id in t.rows
    ensures FindById(MarkStatus(MarkStatus(t, first, id), second, id), id)
            == Some(t.rows[id].(status := second))
    ensures MarkStatus(MarkStatus(t, second, id), second, id) == MarkStatus(t, second, id)
  {
  }
}
