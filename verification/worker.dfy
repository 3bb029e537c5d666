/** The outbox worker of internal/usecase/outbox/outbox.go. One cycle
    sleeps, re-reads the enabled flag and, when enabled, runs in one
    transaction: claim a batch, hand every message to the handler its kind
    resolves to, and mark the delivered ones processed. Kind resolution and
    delivery are functions given to the model; the calls a cycle makes are
    recorded as a trace. */
module Worker {
  import opened Wrappers
  import opened Errors
  import opened Kinds
  import opened Tables
  import opened Transactor
  import opened Durations
  import opened OutboxStore
  import Registry

  /** The calls a worker makes, in order. */
  datatype Call =
    | Sleep(d: Duration)
    | ClaimCall
    | ResolveCall(kind: OutboxKind)
    | InvokeCall(key: string)
    | MarkCall(keys: seq<string>)

  /** `GlobalHandler` */
  type Resolver = OutboxKind -> Result<Registry.Handler, Error>
  /** Running a `KindHandler` on a payload: its error, if any. */
  type Invoker = (Registry.Handler, Bytes) -> Option<Error>

  /** A message is delivered when its kind resolves and the handler accepts it. */
  predicate Succeeds(m: OutboxData, resolve: Resolver, invoke: Invoker)
  {
    resolve(m.kind).Ok? && invoke(resolve(m.kind).value, m.rawData).None?
  }

  /** The keys of a batch of messages, in batch order. */
  function MessageKeys(msgs: seq<OutboxData>): seq<string>
  {
    if |msgs| == 0 then [] else [msgs[0].key] + MessageKeys(msgs[1..])
  }

  datatype Dispatched = Dispatched(keys: seq<string>, calls: seq<Call>)

  /** The key one message contributes to the mark list. */
  function DeliveredKey(m: OutboxData, resolve: Resolver, invoke: Invoker): seq<string>
  {
    if Succeeds(m, resolve, invoke) then [m.key] else []
  }

  /** The calls one message costs: always a resolution, and the handler
      only when the kind resolved. */
  function CallsFor(m: OutboxData, resolve: Resolver): seq<Call>
  {
    if resolve(m.kind).Ok? then [ResolveCall(m.kind), InvokeCall(m.key)] else [ResolveCall(m.kind)]
  }

  /** The loop over a claimed batch: a failure skips only its own message. */
  function Dispatch(msgs: seq<OutboxData>, resolve: Resolver, invoke: Invoker): (r: Dispatched)
    ensures forall c :: c in r.calls ==> c.ResolveCall? || c.InvokeCall?
  {
    if |msgs| == 0 then Dispatched([], [])
    else
      var rest := Dispatch(msgs[1..], resolve, invoke);
      Dispatched(DeliveredKey(msgs[0], resolve, invoke) + rest.keys, CallsFor(msgs[0], resolve) + rest.calls)
  }

  /** The marked keys are a subsequence of the claimed keys: claim order is kept. */
  lemma {:induction false} DispatchKeepsOrder(msgs: seq<OutboxData>, resolve: Resolver, invoke: Invoker)
    ensures IsSubsequence(Dispatch(msgs, resolve, invoke).keys, MessageKeys(msgs))
  {
    if |msgs| == 0 {
      return;
    }
    DispatchKeepsOrder(msgs[1..], resolve, invoke);
    var restKeys := Dispatch(msgs[1..], resolve, invoke).keys;
    var m := msgs[0];
    assert MessageKeys(msgs) == [m.key] + MessageKeys(msgs[1..]);
    if Succeeds(m, resolve, invoke) {
      assert ([m.key] + restKeys)[1..] == restKeys;
    } else {
      SubsequenceOfTail(restKeys, MessageKeys(msgs));
      assert DeliveredKey(m, resolve, invoke) + restKeys == restKeys;
    }
  }

  /** A claimed key is marked exactly when its message was delivered. */
  lemma {:induction false} DispatchMarksDelivered(msgs: seq<OutboxData>, resolve: Resolver, invoke: Invoker, k: string)
    ensures k in Dispatch(msgs, resolve, invoke).keys <==>
      exists i :: 0 <= i < |msgs| && msgs[i].key == k && Succeeds(msgs[i], resolve, invoke)
  {
    if |msgs| > 0 {
      DispatchMarksDelivered(msgs[1..], resolve, invoke, k);
      assert forall i :: 1 <= i < |msgs| ==> msgs[i] == msgs[1..][i - 1];
      if exists i :: 0 <= i < |msgs[1..]| && msgs[1..][i].key == k && Succeeds(msgs[1..][i], resolve, invoke) {
        var i :| 0 <= i < |msgs[1..]| && msgs[1..][i].key == k && Succeeds(msgs[1..][i], resolve, invoke);
        assert msgs[i + 1] == msgs[1..][i];
      }
    }
  }

  /** Messages are handled independently: dispatching a batch is
      dispatching its two halves one after the other. */
  lemma {:induction false} DispatchSplits(a: seq<OutboxData>, b: seq<OutboxData>, resolve: Resolver, invoke: Invoker)
    ensures Dispatch(a + b, resolve, invoke)
         == Dispatched(Dispatch(a, resolve, invoke).keys + Dispatch(b, resolve, invoke).keys,
                       Dispatch(a, resolve, invoke).calls + Dispatch(b, resolve, invoke).calls)
  {
    if |a| == 0 {
      assert a + b == b;
    } else {
      var ab := a + b;
      assert ab[0] == a[0];
      assert ab[1..] == a[1..] + b;
      DispatchSplits(a[1..], b, resolve, invoke);
      var ra, rb := Dispatch(a[1..], resolve, invoke), Dispatch(b, resolve, invoke);
      var key, calls := DeliveredKey(a[0], resolve, invoke), CallsFor(a[0], resolve);
      assert Dispatch(ab, resolve, invoke) == Dispatched(key + Dispatch(ab[1..], resolve, invoke).keys,
                                                         calls + Dispatch(ab[1..], resolve, invoke).calls);
      assert key + (ra.keys + rb.keys) == (key + ra.keys) + rb.keys;
      assert calls + (ra.calls + rb.calls) == (calls + ra.calls) + rb.calls;
    }
  }

  /** When every message is delivered, every claimed key is marked, in claim order. */
  lemma {:induction false} DispatchAllDelivered(msgs: seq<OutboxData>, resolve: Resolver, invoke: Invoker)
    requires forall i :: 0 <= i < |msgs| ==> Succeeds(msgs[i], resolve, invoke)
    ensures Dispatch(msgs, resolve, invoke).keys == MessageKeys(msgs)
  {
    if |msgs| > 0 {
      DispatchAllDelivered(msgs[1..], resolve, invoke);
      assert MessageKeys(msgs) == [msgs[0].key] + MessageKeys(msgs[1..]);
    }
  }

  lemma MessageKeysOfData(rows: seq<Row>)
    ensures MessageKeys(DataOf(rows)) == KeysOf(rows)
  {
  }

  /** The worker's settings, fixed when it starts. */
  datatype Settings = Settings(batchSize: int, wait: Duration, ttl: Duration, refresh: bool)

  /** What one cycle meets: the flag as read now, the transaction time, the
      outcome of beginning, claiming, marking and committing, and whether the
      context has been cancelled by the time the cycle ends. */
  datatype Tick = Tick(enabled: bool, now: int, begin: Option<Error>, claimIo: Option<Error>,
                       markIo: Option<Error>, commit: Option<Error>, cancelled: bool)

  /** The function a cycle runs in its transaction. */
  function CycleBody(w: World, s: Settings, t: Tick, resolve: Resolver, invoke: Invoker): Run<seq<Call>>
  {
    var got := GetMessages(w, s.batchSize, s.ttl, t.now, s.refresh, t.claimIo);
    if got.err.Some? then Run(got.w, [ClaimCall], got.err)
    else
      var d := Dispatch(got.value, resolve, invoke);
      var marked := MarkAsProcessed(got.w, d.keys, t.markIo);
      Run(marked.w, [ClaimCall] + d.calls + [MarkCall(d.keys)], marked.err)
  }

  /** One iteration of the worker loop; the value is the trace of its calls. */
  function Cycle(w: World, s: Settings, t: Tick, resolve: Resolver, invoke: Invoker): (r: Run<seq<Call>>)
    ensures |r.value| > 0 && r.value[0] == Sleep(s.wait)
    ensures w.tx.None? ==> r.w.tx.None?
  {
    if !t.enabled then Run(w, [Sleep(s.wait)], None)
    else
      var done := WithTx(w, t.begin, t.commit, (tw: World) => CycleBody(tw, s, t, resolve, invoke), []);
      Run(done.w, [Sleep(s.wait)] + done.value, done.err)
  }

  /** Disabled, a cycle only sleeps: no transaction, no store call. */
  lemma CycleDisabled(w: World, s: Settings, t: Tick, resolve: Resolver, invoke: Invoker)
    requires !t.enabled
    ensures Cycle(w, s, t, resolve, invoke) == Run(w, [Sleep(s.wait)], None)
  {
  }

  /** The claim of a cycle that begins its transaction, on the committed table. */
  function ClaimOf(w: World, s: Settings, t: Tick): Claim
    requires s.batchSize >= 0
  {
    ClaimBatch(w.db.outbox, s.batchSize, Milliseconds(s.ttl), t.now, s.refresh)
  }

  /** An enabled cycle that begins its transaction runs the body on a fresh
      snapshot, then ends the transaction: the working copy is stored only
      when the body succeeds and the commit goes through. */
  lemma CycleRunsBody(w: World, s: Settings, t: Tick, resolve: Resolver, invoke: Invoker)
    requires w.tx.None? && t.enabled && t.begin.None?
    ensures var b := CycleBody(World(w.db, Some(Active(w.db))), s, t, resolve, invoke);
      var r := Cycle(w, s, t, resolve, invoke);
      && r.value == [Sleep(s.wait)] + b.value
      && (b.err.Some? ==> r.w == World(b.w.db, None) && r.err == Some(Wrapped(ExecPrefix, b.err.value)))
      && (b.err.None? && b.w.tx.Some? && b.w.tx.value.Active? ==>
            r.w == World(if t.commit.None? then b.w.tx.value.work else b.w.db, None) && r.err.None?)
  {
  }

  /** The body of a cycle whose claim succeeds. */
  lemma BodyAfterClaim(w: World, s: Settings, t: Tick, resolve: Resolver, invoke: Invoker)
    requires w.tx.None? && t.claimIo.None? && s.batchSize >= 0
    ensures var c := ClaimOf(w, s, t);
      var d := Dispatch(DataOf(c.rows), resolve, invoke);
      var b := CycleBody(World(w.db, Some(Active(w.db))), s, t, resolve, invoke);
      var claimed := World(w.db, Some(Active(w.db.(outbox := c.table))));
      && b.value == [ClaimCall] + d.calls + [MarkCall(d.keys)]
      && b.w == MarkAsProcessed(claimed, d.keys, t.markIo).w
      && b.err == MarkAsProcessed(claimed, d.keys, t.markIo).err
  {
  }

  /** A failed claim ends the cycle: no handler runs, nothing is marked,
      nothing changes, and the error comes back wrapped. */
  lemma CycleClaimFails(w: World, s: Settings, t: Tick, resolve: Resolver, invoke: Invoker)
    requires w.tx.None? && t.enabled && t.begin.None?
    requires t.claimIo.Some? || s.batchSize < 0
    ensures var r := Cycle(w, s, t, resolve, invoke);
      && r.w == w
      && r.value == [Sleep(s.wait), ClaimCall]
      && r.err.Some? && r.err.value.Wrapped? && r.err.value.prefix == ExecPrefix
      && (t.claimIo.Some? ==> r.err.value.inner == t.claimIo.value)
  {
  }

  /** After a successful claim the handlers run in claim order, and the
      cycle ends with exactly one mark call, even for an empty list, whose
      keys are the delivered ones: a subsequence of the claimed keys. */
  lemma CycleMarksOnce(w: World, s: Settings, t: Tick, resolve: Resolver, invoke: Invoker)
    requires w.tx.None? && t.enabled && t.begin.None? && t.claimIo.None? && s.batchSize >= 0
    ensures var r := Cycle(w, s, t, resolve, invoke);
      var claimed := ClaimOf(w, s, t).rows;
      var d := Dispatch(DataOf(claimed), resolve, invoke);
      && r.value == [Sleep(s.wait), ClaimCall] + d.calls + [MarkCall(d.keys)]
      && (forall i :: 0 <= i < |r.value| - 1 ==> !r.value[i].MarkCall?)
      && IsSubsequence(d.keys, KeysOf(claimed))
  {
    MessageKeysOfData(ClaimOf(w, s, t).rows);
    DispatchKeepsOrder(DataOf(ClaimOf(w, s, t).rows), resolve, invoke);
    CycleRunsBody(w, s, t, resolve, invoke);
    BodyAfterClaim(w, s, t, resolve, invoke);
    var d := Dispatch(DataOf(ClaimOf(w, s, t).rows), resolve, invoke);
    PrependTwo(Sleep(s.wait), ClaimCall, d.calls, [MarkCall(d.keys)]);
    MarkCallLast([Sleep(s.wait), ClaimCall], d.calls, d.keys);
  }

  lemma PrependTwo<T>(x: T, y: T, mid: seq<T>, last: seq<T>)
    ensures [x] + ([y] + mid + last) == [x, y] + mid + last
  {
    assert [x, y] == [x] + [y];
  }

  /** A trace of sleeps, claims, resolutions and handler calls followed by a
      mark has its only mark at the end. */
  lemma MarkCallLast(head: seq<Call>, calls: seq<Call>, keys: seq<string>)
    requires forall c :: c in head ==> !c.MarkCall?
    requires forall c :: c in calls ==> c.ResolveCall? || c.InvokeCall?
    ensures var v := head + calls + [MarkCall(keys)];
      forall i :: 0 <= i < |v| - 1 ==> !v[i].MarkCall?
  {
    var v := head + calls + [MarkCall(keys)];
    forall i | 0 <= i < |v| - 1
      ensures !v[i].MarkCall?
    {
      if i < |head| {
        assert v[i] in head;
      } else {
        assert v[i] in calls;
      }
    }
  }

  /** The outcome of a cycle whose claim succeeded: if marking fails the
      whole transaction rolls back, claim included; otherwise the claimed
      rows are IN_PROGRESS and the delivered ones SUCCESS, all stored, unless
      the commit fails, which stores nothing and is not reported. */
  lemma CycleOutcome(w: World, s: Settings, t: Tick, resolve: Resolver, invoke: Invoker)
    requires w.tx.None? && t.enabled && t.begin.None? && t.claimIo.None? && s.batchSize >= 0
    ensures var r := Cycle(w, s, t, resolve, invoke);
      var c := ClaimOf(w, s, t);
      var d := Dispatch(DataOf(c.rows), resolve, invoke);
      && r.w.tx.None?
      && (t.markIo.Some? && |d.keys| > 0 ==> r.w == w && r.err.Some?)
      && (t.markIo.None? || |d.keys| == 0 ==>
            r.err.None? && r.w.db == w.db.(outbox := if t.commit.None? then MarkDone(c.table, d.keys) else w.db.outbox))
  {
    var c := ClaimOf(w, s, t);
    var d := Dispatch(DataOf(c.rows), resolve, invoke);
    CycleRunsBody(w, s, t, resolve, invoke);
    BodyAfterClaim(w, s, t, resolve, invoke);
    if |d.keys| == 0 {
      MarkDoneNothing(c.table);
    }
  }

  /** A cycle whose commit fails leaves the world as it was, even though its
      handlers ran: every message it claimed, delivered ones included, is
      still claimable, so a later cycle delivers it again. */
  lemma CycleCommitLost(w: World, s: Settings, t: Tick, resolve: Resolver, invoke: Invoker)
    requires w.tx.None? && t.enabled && t.begin.None? && t.claimIo.None? && s.batchSize >= 0 && t.commit.Some?
    ensures var r := Cycle(w, s, t, resolve, invoke);
      var c := ClaimOf(w, s, t);
      var d := Dispatch(DataOf(c.rows), resolve, invoke);
      && r.w == w
      && (r.err.None? <==> t.markIo.None? || |d.keys| == 0)
      && (forall x :: x in c.rows ==>
            x.key in r.w.db.outbox.rows && Claimable(r.w.db.outbox.rows[x.key], t.now, Milliseconds(s.ttl)))
  {
    CycleOutcome(w, s, t, resolve, invoke);
    ClaimChooses(w.db.outbox, s.batchSize, Milliseconds(s.ttl), t.now, s.refresh);
  }

  /** Marking no keys changes nothing. */
  lemma MarkDoneNothing(o: Table)
    ensures MarkDone(o, []) == o
  {
    assert MarkDone(o, []).rows == o.rows;
  }

  lemma ProgressesTransitive(a: Outbox, b: Outbox, c: Outbox)
    ensures Progresses(a, b) && Progresses(b, c) ==> Progresses(a, c)
  {
  }

  lemma ProgressesReflexive(a: Outbox)
    ensures Progresses(a, a)
  {
  }

  /** Whatever happens in a cycle, no row disappears and a SUCCESS row is never touched. */
  lemma CycleProgresses(w: World, s: Settings, t: Tick, resolve: Resolver, invoke: Invoker)
    ensures w.tx.None? ==> Progresses(w.db.outbox, Cycle(w, s, t, resolve, invoke).w.db.outbox)
  {
    if w.tx.Some? {
    } else if t.enabled && t.begin.None? && t.claimIo.None? && s.batchSize >= 0 {
      CycleOutcome(w, s, t, resolve, invoke);
      var c := ClaimOf(w, s, t);
      var d := Dispatch(DataOf(c.rows), resolve, invoke);
      OperationsProgress(w.db.outbox, "", 0, [], 0, s.batchSize, Milliseconds(s.ttl), t.now, s.refresh, d.keys);
      OperationsProgress(c.table, "", 0, [], 0, 0, 0, 0, false, d.keys);
      if t.commit.Some? {
        ProgressesReflexive(w.db.outbox);
      } else if t.markIo.None? || |d.keys| == 0 {
        ProgressesTransitive(w.db.outbox, c.table, MarkDone(c.table, d.keys));
      }
    } else if t.enabled && t.begin.None? {
      CycleClaimFails(w, s, t, resolve, invoke);
    }
  }

  /** How a worker's run ended: the world afterwards, how many cycles ran,
      and the calls they made. */
  datatype Loop = Loop(w: World, cycles: nat, calls: seq<Call>)

  /** The cycle looks at cancellation only when it was enabled: a disabled
      cycle `continue`s past the check. */
  predicate Stops(t: Tick)
  {
    t.enabled && t.cancelled
  }

  /** The worker loop over the ticks it meets: every cycle runs to the end
      before cancellation is looked at, and the loop returns after the first
      enabled cycle that finds the context cancelled. */
  function WorkerLoop(w: World, s: Settings, ticks: seq<Tick>, resolve: Resolver, invoke: Invoker): (r: Loop)
    decreases |ticks|
    ensures r.cycles <= |ticks|
    ensures |ticks| > 0 ==> r.cycles > 0
    ensures forall i :: 0 <= i < r.cycles - 1 ==> !Stops(ticks[i])
    ensures r.cycles < |ticks| ==> Stops(ticks[r.cycles - 1])
    ensures w.tx.None? ==> r.w.tx.None? && Progresses(w.db.outbox, r.w.db.outbox)
  {
    if |ticks| == 0 then
      ProgressesReflexive(w.db.outbox);
      Loop(w, 0, [])
    else
      var c := Cycle(w, s, ticks[0], resolve, invoke);
      CycleProgresses(w, s, ticks[0], resolve, invoke);
      if Stops(ticks[0]) then Loop(c.w, 1, c.value)
      else
        var rest := WorkerLoop(c.w, s, ticks[1..], resolve, invoke);
        ProgressesTransitive(w.db.outbox, c.w.db.outbox, rest.w.db.outbox);
        Loop(rest.w, 1 + rest.cycles, c.value + rest.calls)
  }

  /** A worker whose outbox stays disabled never notices cancellation: it
      runs every cycle it is given. */
  lemma DisabledNeverStops(w: World, s: Settings, ticks: seq<Tick>, resolve: Resolver, invoke: Invoker)
    requires forall i :: 0 <= i < |ticks| ==> !ticks[i].enabled
    ensures WorkerLoop(w, s, ticks, resolve, invoke).cycles == |ticks|
  {
  }

  /** A row that has reached SUCCESS is never claimed again, however many
      cycles run. */
  lemma SuccessStaysDone(w: World, s: Settings, ticks: seq<Tick>, resolve: Resolver, invoke: Invoker, k: string)
    requires w.tx.None?
    requires k in w.db.outbox.rows && w.db.outbox.rows[k].status == Success
    ensures var r := WorkerLoop(w, s, ticks, resolve, invoke);
      k in r.w.db.outbox.rows && r.w.db.outbox.rows[k] == w.db.outbox.rows[k]
  {
  }

  /** `Start`: launch `workers` workers, numbered from 0, and return nil.
      A non-positive count launches none. */
  method Start(workers: int) returns (launched: seq<nat>, err: Option<Error>)
    ensures |launched| == if workers > 0 then workers else 0
    ensures forall i :: 0 <= i < |launched| ==> launched[i] == i
    ensures err.None?
  {
    launched := [];
    var i := 0;
    while i < workers
      invariant 0 <= i && (workers > 0 ==> i <= workers) && (workers <= 0 ==> i == 0)
      invariant |launched| == i
      invariant forall j :: 0 <= j < i ==> launched[j] == j
    {
      launched := launched + [i];
      i := i + 1;
    }
    err := None;
  }
}
