/** The outbox repository of internal/usecase/repository/outbox.go: an
    idempotent insert, a bounded oldest-first claim with a TTL reclaim, and a
    bulk transition to SUCCESS. Each operation is first a pure function on the
    outbox table, then a statement run under a context (see Transactor). */
module OutboxStore {
  import opened Wrappers
  import opened Errors
  import opened Kinds
  import opened Durations
  import opened Tables
  import opened Transactor

  /* ---------- the table-level operations ---------- */

  /** `INSERT ... VALUES (key, data, 'CREATED', kind) ON CONFLICT DO NOTHING`.
      `stamp` is the `updated_at` the column default gives the new row. */
  function Insert(o: Table, key: string, kind: OutboxKind, data: Bytes, stamp: int): (r: Table)
    ensures key !in o.rows ==> r.rows == o.rows[key := Record(kind, data, Created, stamp)]
    ensures key in o.rows ==> r == o
  {
    if key in o.rows then o
    else Outbox(o.rows[key := Record(kind, data, Created, stamp)], o.order + [key])
  }

  /** The claim's WHERE clause: CREATED, or IN_PROGRESS and last updated
      strictly before `now - ttlMs`. */
  predicate Claimable(r: Record, now: int, ttlMs: int)
  {
    r.status == Created || (r.status == InProgress && r.updatedAt < now - ttlMs)
  }

  /** An outbox row with its key. */
  datatype Row = Row(key: string, rec: Record)

  predicate DistinctKeys(s: seq<Row>)
  {
    forall i, j :: 0 <= i < j < |s| ==> s[i].key != s[j].key
  }

  function KeysOf(s: seq<Row>): (ks: seq<string>)
    ensures |ks| == |s|
    ensures forall i :: 0 <= i < |s| ==> ks[i] == s[i].key
  {
    if |s| == 0 then [] else [s[0].key] + KeysOf(s[1..])
  }

  /** The claimable rows, scanned in physical order. */
  function Candidates(order: seq<string>, rows: map<string, Record>, now: int, ttlMs: int): (c: seq<Row>)
    ensures forall x :: x in c <==>
      x.key in order && x.key in rows && x.rec == rows[x.key] && Claimable(x.rec, now, ttlMs)
    ensures NoDups(order) ==> DistinctKeys(c)
  {
    if |order| == 0 then []
    else
      var rest := Candidates(order[1..], rows, now, ttlMs);
      assert forall k :: k in order <==> k == order[0] || k in order[1..];
      if order[0] in rows && Claimable(rows[order[0]], now, ttlMs) then
        assert NoDups(order) ==> order[0] !in order[1..];
        [Row(order[0], rows[order[0]])] + rest
      else rest
  }

  /** The position of the first row with the smallest `updatedAt`. */
  function MinIndex(c: seq<Row>): (i: nat)
    requires |c| > 0
    ensures i < |c|
    ensures forall j :: 0 <= j < |c| ==> c[i].rec.updatedAt <= c[j].rec.updatedAt
    ensures forall j :: 0 <= j < i ==> c[j].rec.updatedAt > c[i].rec.updatedAt
  {
    if |c| == 1 then 0
    else
      var k := MinIndex(c[1..]);
      if c[0].rec.updatedAt <= c[k + 1].rec.updatedAt then 0 else k + 1
  }

  function RemoveAt(s: seq<Row>, i: nat): (r: seq<Row>)
    requires i < |s|
    ensures |r| == |s| - 1
    ensures forall j :: 0 <= j < i ==> r[j] == s[j]
    ensures forall j :: i <= j < |r| ==> r[j] == s[j + 1]
  {
    s[..i] + s[i + 1..]
  }

  /** Removing one position keeps keys distinct, and what remains is exactly
      the other rows. */
  lemma RemoveAtContents(s: seq<Row>, i: nat)
    requires i < |s| && DistinctKeys(s)
    ensures DistinctKeys(RemoveAt(s, i))
    ensures forall x :: x in RemoveAt(s, i) <==> x in s && x != s[i]
  {
    var r := RemoveAt(s, i);
    forall x | x in r
      ensures x in s && x != s[i]
    {
      var j :| 0 <= j < |r| && r[j] == x;
      if j < i { assert s[j] == x; } else { assert s[j + 1] == x; }
    }
    forall x | x in s && x != s[i]
      ensures x in r
    {
      var j :| 0 <= j < |s| && s[j] == x;
      if j < i { assert r[j] == x; } else { assert r[j - 1] == x; }
    }
  }

  /** Sorted by `updatedAt`, smallest first. */
  predicate Ascending(r: seq<Row>)
  {
    forall i, j :: 0 <= i < j < |r| ==> r[i].rec.updatedAt <= r[j].rec.updatedAt
  }

  /** Every row of `c` left out of `r` is at least as old as every row in `r`. */
  predicate OldestFirst(c: seq<Row>, r: seq<Row>)
  {
    forall x, y :: x in c && x !in r && y in r ==> y.rec.updatedAt <= x.rec.updatedAt
  }

  /** `ORDER BY updated_at LIMIT n` over the rows `c`: the `n` oldest rows,
      oldest first, ties broken by scan order. */
  function SelectOldest(c: seq<Row>, n: nat): (r: seq<Row>)
    requires DistinctKeys(c)
    ensures |r| == if n < |c| then n else |c|
    ensures DistinctKeys(r)
    ensures forall y :: y in r ==> y in c
    ensures n >= |c| ==> forall x :: x in c ==> x in r
    ensures Ascending(r)
    ensures OldestFirst(c, r)
    decreases n
  {
    if n == 0 || |c| == 0 then []
    else
      var i := MinIndex(c);
      RemoveAtContents(c, i);
      var tail := SelectOldest(RemoveAt(c, i), n - 1);
      SelectStep(c, i, tail);
      [c[i]] + tail
  }

  /** Putting the oldest row in front of a selection from the other rows
      keeps the selection's properties. */
  lemma SelectStep(c: seq<Row>, i: nat, tail: seq<Row>)
    requires i < |c| && DistinctKeys(c)
    requires forall j :: 0 <= j < |c| ==> c[i].rec.updatedAt <= c[j].rec.updatedAt
    requires DistinctKeys(tail)
    requires forall y :: y in tail ==> y in c && y != c[i]
    requires Ascending(tail)
    requires OldestFirst(RemoveAt(c, i), tail)
    ensures DistinctKeys([c[i]] + tail)
    ensures Ascending([c[i]] + tail)
    ensures OldestFirst(c, [c[i]] + tail)
  {
    RemoveAtContents(c, i);
    var r := [c[i]] + tail;
    forall y | y in tail
      ensures c[i].rec.updatedAt <= y.rec.updatedAt && y.key != c[i].key
    {
      var j :| 0 <= j < |c| && c[j] == y;
    }
    forall a, b | 0 <= a < b < |r|
      ensures r[a].key != r[b].key && r[a].rec.updatedAt <= r[b].rec.updatedAt
    {
      if a > 0 {
        assert r[a] == tail[a - 1] && r[b] == tail[b - 1];
      } else {
        assert r[b] in tail;
      }
    }
    forall x, y | x in c && x !in r && y in r
      ensures y.rec.updatedAt <= x.rec.updatedAt
    {
      if y != c[i] {
        assert y in tail && x in RemoveAt(c, i);
      }
    }
  }

  /** The claim's `SET status = 'IN_PROGRESS'` on the chosen keys. The
      statement does not assign `updated_at`; `refresh` says whether
      something else (a trigger the repository does not show) sets it to `now`. */
  function MarkClaimed(o: Table, keys: seq<string>, now: int, refresh: bool): (r: Table)
    ensures r.order == o.order && r.rows.Keys == o.rows.Keys
    ensures forall k :: k in o.rows && k in keys ==>
      r.rows[k] == o.rows[k].(status := InProgress, updatedAt := if refresh then now else o.rows[k].updatedAt)
    ensures forall k :: k in o.rows && k !in keys ==> r.rows[k] == o.rows[k]
  {
    Outbox(map k | k in o.rows ::
             if k in keys
             then o.rows[k].(status := InProgress, updatedAt := if refresh then now else o.rows[k].updatedAt)
             else o.rows[k],
           o.order)
  }

  datatype Claim = Claim(table: Table, rows: seq<Row>)

  /** The claim `UPDATE` as one step on the table: choose, then flip. */
  function ClaimBatch(o: Table, limit: nat, ttlMs: int, now: int, refresh: bool): Claim
  {
    var picked := SelectOldest(Candidates(o.order, o.rows, now, ttlMs), limit);
    Claim(MarkClaimed(o, KeysOf(picked), now, refresh), picked)
  }

  /** `UPDATE outbox SET status = 'SUCCESS' WHERE idempotency_key = ANY(keys)`:
      absent keys match no row. */
  function MarkDone(o: Table, keys: seq<string>): (r: Table)
    ensures r.order == o.order && r.rows.Keys == o.rows.Keys
    ensures forall k :: k in o.rows && k in keys ==> r.rows[k] == o.rows[k].(status := Success)
    ensures forall k :: k in o.rows && k !in keys ==> r.rows[k] == o.rows[k]
  {
    Outbox(map k | k in o.rows :: if k in keys then o.rows[k].(status := Success) else o.rows[k], o.order)
  }

  /** Status only moves forward: no key disappears, and a SUCCESS row stays
      exactly as it is. */
  predicate Progresses(o: Outbox, o': Outbox)
  {
    && o.rows.Keys <= o'.rows.Keys
    && (forall k :: k in o.rows && o.rows[k].status == Success ==> o'.rows[k] == o.rows[k])
  }

  /* ---------- properties of the table-level operations ---------- */

  /** A claim returns at most `limit` rows, with distinct keys, each of them
      claimable and returned as stored. */
  lemma ClaimChooses(o: Table, limit: nat, ttlMs: int, now: int, refresh: bool)
    ensures var c := ClaimBatch(o, limit, ttlMs, now, refresh);
      && |c.rows| <= limit
      && DistinctKeys(c.rows)
      && (forall x :: x in c.rows ==>
            x.key in o.rows && x.rec == o.rows[x.key] && Claimable(x.rec, now, ttlMs))
  {
  }

  /** A claim returns fewer than `limit` rows only when it took every claimable row. */
  lemma ClaimTakesAllWhenShort(o: Table, limit: nat, ttlMs: int, now: int, refresh: bool)
    ensures var c := ClaimBatch(o, limit, ttlMs, now, refresh);
      |c.rows| < limit ==>
        forall k :: k in o.rows && Claimable(o.rows[k], now, ttlMs) ==> k in KeysOf(c.rows)
  {
    var cands := Candidates(o.order, o.rows, now, ttlMs);
    var c := ClaimBatch(o, limit, ttlMs, now, refresh);
    if |c.rows| < limit {
      forall k | k in o.rows && Claimable(o.rows[k], now, ttlMs)
        ensures k in KeysOf(c.rows)
      {
        var x := Row(k, o.rows[k]);
        assert x in cands;
        var i :| 0 <= i < |c.rows| && c.rows[i] == x;
        assert KeysOf(c.rows)[i] == k;
      }
    }
  }

  /** Oldest first: no claimable row left behind is older than a row taken. */
  lemma ClaimOldestFirst(o: Table, limit: nat, ttlMs: int, now: int, refresh: bool)
    ensures var c := ClaimBatch(o, limit, ttlMs, now, refresh);
      forall k, y :: k in o.rows && Claimable(o.rows[k], now, ttlMs) && k !in KeysOf(c.rows) && y in c.rows
        ==> y.rec.updatedAt <= o.rows[k].updatedAt
  {
    var cands := Candidates(o.order, o.rows, now, ttlMs);
    var c := ClaimBatch(o, limit, ttlMs, now, refresh);
    forall k, y | k in o.rows && Claimable(o.rows[k], now, ttlMs) && k !in KeysOf(c.rows) && y in c.rows
      ensures y.rec.updatedAt <= o.rows[k].updatedAt
    {
      var x := Row(k, o.rows[k]);
      forall i | 0 <= i < |c.rows|
        ensures c.rows[i] != x
      {
        assert KeysOf(c.rows)[i] != k;
      }
      assert x in cands;
    }
  }

  /** What a claim does to the table: the chosen rows become IN_PROGRESS, with
      `updated_at` refreshed only when `refresh` holds; no other row changes. */
  lemma ClaimUpdates(o: Table, limit: nat, ttlMs: int, now: int, refresh: bool)
    ensures var c := ClaimBatch(o, limit, ttlMs, now, refresh);
      && c.table.rows.Keys == o.rows.Keys
      && (forall k :: k in KeysOf(c.rows) ==>
            && k in o.rows
            && c.table.rows[k] == o.rows[k].(status := InProgress,
                                             updatedAt := if refresh then now else o.rows[k].updatedAt))
      && (forall k :: k in o.rows && k !in KeysOf(c.rows) ==> c.table.rows[k] == o.rows[k])
  {
    var c := ClaimBatch(o, limit, ttlMs, now, refresh);
    ClaimChooses(o, limit, ttlMs, now, refresh);
    forall k | k in KeysOf(c.rows)
      ensures k in o.rows
    {
      var i :| 0 <= i < |c.rows| && KeysOf(c.rows)[i] == k;
      assert c.rows[i] in c.rows;
    }
  }

  /** A SUCCESS row is never claimed. */
  lemma SuccessNeverClaimed(o: Table, limit: nat, ttlMs: int, now: int, refresh: bool, k: string)
    requires k in o.rows && o.rows[k].status == Success
    ensures k !in KeysOf(ClaimBatch(o, limit, ttlMs, now, refresh).rows)
    ensures ClaimBatch(o, limit, ttlMs, now, refresh).table.rows[k] == o.rows[k]
  {
    ClaimChooses(o, limit, ttlMs, now, refresh);
    ClaimUpdates(o, limit, ttlMs, now, refresh);
    var c := ClaimBatch(o, limit, ttlMs, now, refresh);
    forall i | 0 <= i < |c.rows|
      ensures KeysOf(c.rows)[i] != k
    {
      assert c.rows[i] in c.rows;
    }
  }

  /** As written, the claim leaves `updated_at` alone, so a stale
      IN_PROGRESS row that is claimed and not marked is claimable again at
      once, not a TTL after the claim. */
  lemma ReclaimWithoutRefresh(o: Table, limit: nat, ttlMs: int, now: int, k: string)
    requires k in o.rows
    requires o.rows[k].status == InProgress && Claimable(o.rows[k], now, ttlMs)
    requires k in KeysOf(ClaimBatch(o, limit, ttlMs, now, false).rows)
    ensures Claimable(ClaimBatch(o, limit, ttlMs, now, false).table.rows[k], now, ttlMs)
  {
    ClaimUpdates(o, limit, ttlMs, now, false);
  }

  /** With the refresh, a claimed row is not claimable again until more than
      the TTL has passed since the claim. */
  lemma ReclaimWithRefresh(o: Table, limit: nat, ttlMs: int, now: int, later: int, k: string)
    requires k in KeysOf(ClaimBatch(o, limit, ttlMs, now, true).rows)
    ensures var r := ClaimBatch(o, limit, ttlMs, now, true).table.rows[k];
      Claimable(r, later, ttlMs) <==> later - ttlMs > now
  {
    ClaimUpdates(o, limit, ttlMs, now, true);
  }

  /** Marking is idempotent. */
  lemma MarkDoneIdempotent(o: Table, keys: seq<string>)
    ensures MarkDone(MarkDone(o, keys), keys) == MarkDone(o, keys)
  {
    var once := MarkDone(o, keys);
    var twice := MarkDone(once, keys);
    assert twice.rows == once.rows;
  }

  /** Every table operation lets status only move forward. */
  lemma OperationsProgress(o: Table, key: string, kind: OutboxKind, data: Bytes, stamp: int,
                           limit: nat, ttlMs: int, now: int, refresh: bool, keys: seq<string>)
    ensures Progresses(o, Insert(o, key, kind, data, stamp))
    ensures Progresses(o, ClaimBatch(o, limit, ttlMs, now, refresh).table)
    ensures Progresses(o, MarkDone(o, keys))
  {
    ClaimUpdates(o, limit, ttlMs, now, refresh);
    forall k | k in o.rows && o.rows[k].status == Success
      ensures ClaimBatch(o, limit, ttlMs, now, refresh).table.rows[k] == o.rows[k]
    {
      SuccessNeverClaimed(o, limit, ttlMs, now, refresh, k);
    }
  }

  /* ---------- the repository methods, run under a context ---------- */

  /** The outcome of a failed statement: nothing changes. */
  function Failed<T>(w: World, zero: T, e: Error): Run<T>
  {
    Run(w, zero, Some(e))
  }

  /** `SendMessage`: the insert, through the context's transaction when it
      carries one, otherwise straight into the database. `io` is the
      driver's failure, if any. */
  function SendMessage(w: World, key: string, kind: OutboxKind, data: Bytes, stamp: int, io: Option<Error>): (r: Run<()>)
    ensures r.err.None? ==> Current(w).Ok? && r.w == Store(w, Current(w).value.(outbox :=
      Insert(Current(w).value.outbox, key, kind, data, stamp)))
    ensures r.err.Some? ==> r.w == w
    ensures r.err.None? <==> io.None? && w.tx != Some(Closed)
  {
    match Current(w)
    case Fail(e) => Failed(w, (), e)
    case Ok(d) =>
      if io.Some? then Failed(w, (), io.value)
      else Run(Store(w, d.(outbox := Insert(d.outbox, key, kind, data, stamp))), (), None)
  }

  function DataOf(s: seq<Row>): (r: seq<OutboxData>)
    ensures |r| == |s|
    ensures forall i :: 0 <= i < |s| ==> r[i] == OutboxData(s[i].key, s[i].rec.kind, s[i].rec.data)
  {
    if |s| == 0 then [] else [OutboxData(s[0].key, s[0].rec.kind, s[0].rec.data)] + DataOf(s[1..])
  }

  /** `GetMessages`: the claim, passed the TTL as whole milliseconds. `now`
      is Postgres' `now()`, the start time of the statement's transaction. A
      negative batch size makes Postgres reject the LIMIT. */
  function GetMessages(w: World, batchSize: int, ttl: Duration, now: int, refresh: bool, io: Option<Error>)
    : (r: Run<seq<OutboxData>>)
    ensures r.err.Some? ==> r.w == w && r.value == []
    ensures r.err.None? <==> io.None? && w.tx != Some(Closed) && batchSize >= 0
    ensures r.err.None? ==>
      var d := Current(w).value;
      var c := ClaimBatch(d.outbox, batchSize, Milliseconds(ttl), now, refresh);
      r.w == Store(w, d.(outbox := c.table)) && r.value == DataOf(c.rows)
  {
    match Current(w)
    case Fail(e) => Failed(w, [], e)
    case Ok(d) =>
      if io.Some? then Failed(w, [], io.value)
      else if batchSize < 0 then Failed(w, [], Pg(InvalidRowCountInLimit, "LIMIT must not be negative"))
      else
        var c := ClaimBatch(d.outbox, batchSize, Milliseconds(ttl), now, refresh);
        Run(Store(w, d.(outbox := c.table)), DataOf(c.rows), None)
  }

  /** `MarkAsProcessed`: an empty list returns at once without touching the
      database or the transaction. */
  function MarkAsProcessed(w: World, keys: seq<string>, io: Option<Error>): (r: Run<()>)
    ensures |keys| == 0 ==> r == Run(w, (), None)
    ensures r.err.Some? ==> r.w == w
    ensures |keys| > 0 ==> (r.err.None? <==> io.None? && w.tx != Some(Closed))
    ensures |keys| > 0 && r.err.None? ==>
      r.w == Store(w, Current(w).value.(outbox := MarkDone(Current(w).value.outbox, keys)))
  {
    if |keys| == 0 then Run(w, (), None)
    else
      match Current(w)
      case Fail(e) => Failed(w, (), e)
      case Ok(d) =>
        if io.Some? then Failed(w, (), io.value)
        else Run(Store(w, d.(outbox := MarkDone(d.outbox, keys))), (), None)
  }
}
