/** Claim-loop workers as interleaved transactions over the schedule: each claims a batch of due
    rows under row locks, polls them one by one, and commits or rolls back. */
module ClaimLoops {
  import opened Prelude
  import opened Schedule

  type Worker = nat

  /** An open tick: its start time, its locked batch, the verdicts so far, and its own writes, which
      nobody else sees. */
  datatype Tx = Tx(now: int, batch: seq<Doc>, oks: seq<bool>, writes: map<Doc, Row>, incidents: seq<Incident>)

  /** `log` is bookkeeping: what has been committed, in commit order. */
  datatype State = State(tables: Tables, txs: map<Worker, Tx>, log: seq<Entry>)

  const EMPTY: State := State(NO_TABLES, map[], [])

  datatype Step =
    | Enroll(doc: Doc, next: int, cadence: int)
    | Claim(w: Worker, now: int, batch: seq<Doc>)
    | Poll(w: Worker, ok: bool)
    | Commit(w: Worker)
    | Abort(w: Worker)

  predicate Locked(txs: map<Worker, Tx>, doc: Doc) {
    exists w :: w in txs && doc in txs[w].batch
  }

  /** A row the claim query may return: due, not parked, and not locked by another tick. */
  predicate Claimable(limits: Limits, s: State, now: int, doc: Doc) {
    Due(limits.threshold, s.tables.rows, now, doc) && !Locked(s.txs, doc)
  }

  /** An answer of the claim query: the oldest claimable rows, oldest first, up to the batch size. */
  predicate ClaimAnswer(limits: Limits, s: State, now: int, batch: seq<Doc>) {
    && NoDuplicates(batch) && |batch| <= limits.batchSize
    && (forall k :: 0 <= k < |batch| ==> Claimable(limits, s, now, batch[k]))
    && (forall j, k :: 0 <= j < k < |batch| ==> s.tables.rows[batch[j]].next <= s.tables.rows[batch[k]].next)
    && (forall d :: d in s.tables.rows && Claimable(limits, s, now, d) && d !in batch ==>
          |batch| == limits.batchSize && forall k :: 0 <= k < |batch| ==> s.tables.rows[batch[k]].next <= s.tables.rows[d].next)
  }

  // ----- what a claim takes -----

  ghost function Members(s: seq<Doc>): set<Doc> {
    set d | d in s
  }

  lemma {:induction false} DistinctCount(s: seq<Doc>)
    requires NoDuplicates(s)
    ensures |Members(s)| == |s|
  {
    if s == [] {
      assert Members(s) == {};
    } else {
      var front, last := s[..|s| - 1], s[|s| - 1];
      DistinctCount(front);
      assert s == front + [last] && last !in front;
      assert Members(s) == Members(front) + {last};
    }
  }

  /** A document that is due, not parked and held by no open tick, and that a claim leaves out, makes way
      for as many documents as the batch size allows, all claimed and none with a later poll time. */
  lemma LeftOut(limits: Limits, s: State, now: int, batch: seq<Doc>, doc: Doc) returns (first: set<Doc>)
    requires ClaimAnswer(limits, s, now, batch) && doc !in batch
    requires doc in s.tables.rows && s.tables.rows[doc].next <= now && s.tables.rows[doc].failures <= limits.threshold
    requires forall w :: w in s.txs ==> doc !in s.txs[w].batch
    ensures |first| == limits.batchSize
    ensures forall d :: d in first ==> d in batch && d in s.tables.rows && s.tables.rows[d].next <= s.tables.rows[doc].next
  {
    assert Claimable(limits, s, now, doc);
    first := Members(batch);
    DistinctCount(batch);
    forall d | d in first
      ensures d in s.tables.rows && s.tables.rows[d].next <= s.tables.rows[doc].next
    {
      var k :| 0 <= k < |batch| && batch[k] == d;
      assert Claimable(limits, s, now, batch[k]);
    }
  }

  /** The documents that compete with `doc` for a claim at `now`. */
  ghost function Competitors(limits: Limits, s: State, now: int, doc: Doc): set<Doc>
    requires doc in s.tables.rows
  {
    set d | && d in s.tables.rows && d != doc && s.tables.rows[d].next <= s.tables.rows[doc].next
            && s.tables.rows[d].failures <= limits.threshold && forall w :: w in s.txs ==> d !in s.txs[w].batch
  }

  /** Nobody overtakes: a due document with fewer competitors than the batch size is in every claim. */
  lemma OldestClaimed(limits: Limits, s: State, now: int, batch: seq<Doc>, doc: Doc)
    requires ClaimAnswer(limits, s, now, batch)
    requires doc in s.tables.rows && s.tables.rows[doc].next <= now && s.tables.rows[doc].failures <= limits.threshold
    requires forall w :: w in s.txs ==> doc !in s.txs[w].batch
    requires |Competitors(limits, s, now, doc)| < limits.batchSize
    ensures doc in batch
  {
    if doc !in batch {
      var first := LeftOut(limits, s, now, batch, doc);
      forall d | d in first
        ensures d in Competitors(limits, s, now, doc)
      {
        var k :| 0 <= k < |batch| && batch[k] == d;
        assert Claimable(limits, s, now, batch[k]);
      }
      SubsetCount(first, Competitors(limits, s, now, doc));
    }
  }

  lemma {:induction false} SubsetCount(a: set<Doc>, b: set<Doc>)
    requires a <= b
    ensures |a| <= |b|
  {
    if a != {} {
      var x :| x in a;
      SubsetCount(a - {x}, b - {x});
    }
  }

  lemma {:induction false} Earliest(s: State, docs: set<Doc>) returns (doc: Doc)
    requires docs != {} && docs <= s.tables.rows.Keys
    ensures doc in docs && forall d :: d in docs ==> s.tables.rows[doc].next <= s.tables.rows[d].next
    decreases |docs|
  {
    doc :| doc in docs;
    var rest := docs - {doc};
    if rest != {} {
      var other := Earliest(s, rest);
      if s.tables.rows[other].next < s.tables.rows[doc].next {
        doc := other;
      }
    }
  }

  /** A claim that took every claimable document answers a larger batch size too. */
  lemma AnswerWider(limits: Limits, fewer: Limits, s: State, now: int, batch: seq<Doc>)
    requires limits == fewer.(batchSize := fewer.batchSize + 1) && ClaimAnswer(fewer, s, now, batch)
    requires forall d :: d in s.tables.rows && Claimable(limits, s, now, d) ==> d in batch
    ensures ClaimAnswer(limits, s, now, batch)
  {
    hide Due, Locked;
  }

  /** The earliest claimable document left may be claimed next. */
  lemma AnswerSnoc(limits: Limits, fewer: Limits, s: State, now: int, front: seq<Doc>, next: Doc)
    requires limits == fewer.(batchSize := fewer.batchSize + 1) && ClaimAnswer(fewer, s, now, front)
    requires next in s.tables.rows && Claimable(limits, s, now, next) && next !in front
    requires forall d :: d in s.tables.rows && Claimable(limits, s, now, d) && d !in front ==>
      s.tables.rows[next].next <= s.tables.rows[d].next
    ensures ClaimAnswer(limits, s, now, front + [next])
  {
    hide Due, Locked;
    assert Claimable(fewer, s, now, next);
    forall d | d in s.tables.rows && Claimable(limits, s, now, d) && d !in front
      ensures Claimable(fewer, s, now, d)
    {
    }
  }

  /** Every claim can be answered, whatever the state. */
  lemma {:induction false} AnswerExists(limits: Limits, s: State, now: int) returns (batch: seq<Doc>)
    ensures ClaimAnswer(limits, s, now, batch)
    decreases limits.batchSize
  {
    if limits.batchSize == 0 {
      batch := [];
    } else {
      hide Due, Locked;
      var fewer := limits.(batchSize := limits.batchSize - 1);
      var front := AnswerExists(fewer, s, now);
      var left := set d | d in s.tables.rows && Claimable(limits, s, now, d) && d !in front;
      assert forall d :: d in s.tables.rows && Claimable(limits, s, now, d) && d !in front ==> d in left;
      if left == {} {
        batch := front;
        AnswerWider(limits, fewer, s, now, front);
      } else {
        var next := Earliest(s, left);
        batch := front + [next];
        AnswerSnoc(limits, fewer, s, now, front, next);
      }
    }
  }

  /** The row as the tick sees it: its own write, else the committed row. */
  function Seen(s: State, tx: Tx, doc: Doc): Option<Row> {
    if doc in tx.writes then Some(tx.writes[doc])
    else if doc in s.tables.rows then Some(s.tables.rows[doc])
    else None
  }

  /** The tick after marking the next document of its batch. */
  function Marked(threshold: nat, s: State, tx: Tx, ok: bool): Tx
    requires |tx.oks| < |tx.batch|
  {
    var doc := tx.batch[|tx.oks|];
    match Seen(s, tx, doc)
    case None => tx.(oks := tx.oks + [ok])
    case Some(seen) =>
      var row := RowAfter(seen, ok, tx.now);
      tx.(oks := tx.oks + [ok], writes := tx.writes[doc := row],
          incidents := tx.incidents + if !ok && row.failures > threshold then [Incident(doc, row.failures)] else [])
  }

  /** One step; a step that is not possible leaves the state as it is. */
  function Next(limits: Limits, s: State, step: Step): State {
    match step
    case Enroll(doc, next, cadence) =>
      if doc in s.tables.rows then s else
        var e := Enrolled(doc, next, cadence);
        s.(tables := Committed(limits.threshold, s.tables, e), log := s.log + [e])
    case Claim(w, now, batch) =>
      if w in s.txs || !ClaimAnswer(limits, s, now, batch) then s else s.(txs := s.txs[w := Tx(now, batch, [], map[], [])])
    case Poll(w, ok) =>
      if w !in s.txs || |s.txs[w].oks| >= |s.txs[w].batch| then s
      else s.(txs := s.txs[w := Marked(limits.threshold, s, s.txs[w], ok)])
    case Commit(w) =>
      if w !in s.txs || |s.txs[w].oks| != |s.txs[w].batch| then s else
        var tx := s.txs[w];
        State(Tables(s.tables.rows + tx.writes, s.tables.incidents + tx.incidents), s.txs - {w},
              s.log + [Ticked(tx.now, tx.batch, tx.oks)])
    case Abort(w) => s.(txs := s.txs - {w})
  }

  function Run(limits: Limits, steps: seq<Step>): State {
    if steps == [] then EMPTY else Next(limits, Run(limits, steps[..|steps| - 1]), steps[|steps| - 1])
  }

  // ----- what every step keeps -----

  /** An open tick's batch is still due and within limits, and what it has written so far is what its
      verdicts make of the committed rows. */
  ghost predicate TxRight(limits: Limits, rows: map<Doc, Row>, tx: Tx) {
    && NoDuplicates(tx.batch) && |tx.oks| <= |tx.batch| <= limits.batchSize
    && (forall k :: 0 <= k < |tx.batch| ==> Due(limits.threshold, rows, tx.now, tx.batch[k]))
    && (forall d :: d in tx.writes <==> d in tx.batch[..|tx.oks|])
    && (forall k :: 0 <= k < |tx.oks| ==> tx.writes[tx.batch[k]] == RowAfter(rows[tx.batch[k]], tx.oks[k], tx.now))
    && tx.incidents == Crossings(limits.threshold, rows, tx.batch[..|tx.oks|], tx.oks)
  }

  /** No row is held by two workers. */
  ghost predicate LocksDisjoint(txs: map<Worker, Tx>) {
    forall v, w, d :: v in txs && w in txs && d in txs[v].batch && d in txs[w].batch ==> v == w
  }

  ghost predicate AllRight(limits: Limits, rows: map<Doc, Row>, txs: map<Worker, Tx>) {
    forall w :: w in txs ==> TxRight(limits, rows, txs[w])
  }

  /** The tables are those of a serial execution of the committed ticks, no row is locked twice, and
      every open tick is right. */
  ghost predicate Inv(limits: Limits, s: State) {
    && s.tables == Serial(limits.threshold, s.log)
    && LogRight(limits, s.log)
    && AllRight(limits, s.tables.rows, s.txs)
    && LocksDisjoint(s.txs)
  }

  lemma {:induction false} CrossingsFrame(threshold: nat, rows: map<Doc, Row>, rows': map<Doc, Row>, batch: seq<Doc>, oks: seq<bool>)
    requires |oks| == |batch| && forall k :: 0 <= k < |batch| ==> batch[k] in rows && batch[k] in rows'
    requires forall k :: 0 <= k < |batch| ==> rows'[batch[k]] == rows[batch[k]]
    ensures Crossings(threshold, rows, batch, oks) == Crossings(threshold, rows', batch, oks)
    decreases |batch|
  {
    if batch != [] {
      CrossingsFrame(threshold, rows, rows', batch[..|batch| - 1], oks[..|batch| - 1]);
    }
  }

  /** A tick stays right while the rows of its batch stay as they are. */
  lemma TxFrame(limits: Limits, rows: map<Doc, Row>, rows': map<Doc, Row>, tx: Tx)
    requires TxRight(limits, rows, tx)
    requires forall k :: 0 <= k < |tx.batch| ==> tx.batch[k] in rows' && rows'[tx.batch[k]] == rows[tx.batch[k]]
    ensures TxRight(limits, rows', tx)
  {
    hide RowAfter, Crossings;
    CrossingsFrame(limits.threshold, rows, rows', tx.batch[..|tx.oks|], tx.oks);
  }

  lemma FreshTx(limits: Limits, s: State, now: int, batch: seq<Doc>)
    requires ClaimAnswer(limits, s, now, batch)
    ensures TxRight(limits, s.tables.rows, Tx(now, batch, [], map[], []))
  {
    hide Due;
  }

  lemma CrossingsSnoc(threshold: nat, rows: map<Doc, Row>, batch: seq<Doc>, oks: seq<bool>, n: nat, ok: bool)
    requires |oks| == n < |batch| && forall k :: 0 <= k < |batch| ==> batch[k] in rows
    ensures Crossings(threshold, rows, batch[..n + 1], oks + [ok]) == Crossings(threshold, rows, batch[..n], oks)
      + if !ok && rows[batch[n]].failures + 1 > threshold then [Incident(batch[n], rows[batch[n]].failures + 1)] else []
  {
    assert batch[..n + 1][..n] == batch[..n] && (oks + [ok])[..n] == oks;
  }

  lemma MarkedRight(limits: Limits, s: State, tx: Tx, ok: bool)
    requires TxRight(limits, s.tables.rows, tx) && |tx.oks| < |tx.batch|
    ensures TxRight(limits, s.tables.rows, Marked(limits.threshold, s, tx, ok))
  {
    hide Crossings;
    var n, rows := |tx.oks|, s.tables.rows;
    assert Due(limits.threshold, rows, tx.now, tx.batch[n]);
    CrossingsSnoc(limits.threshold, rows, tx.batch, tx.oks, n, ok);
    TakeSnoc(tx.batch, n);
  }

  /** Committing a right tick has the effect of the whole tick executed alone on the committed
      tables, at the moment of the commit. */
  lemma CommitIsTickAlone(limits: Limits, ts: Tables, tx: Tx)
    requires TxRight(limits, ts.rows, tx) && |tx.oks| == |tx.batch|
    ensures Tables(ts.rows + tx.writes, ts.incidents + tx.incidents)
      == TickAlone(limits.threshold, ts, tx.now, tx.batch, tx.oks)
    ensures forall d :: d in ts.rows && d !in tx.batch ==> (ts.rows + tx.writes)[d] == ts.rows[d]
    ensures ClaimedRight(limits, ts.rows, Ticked(tx.now, tx.batch, tx.oks))
  {
    hide RowAfter, Crossings, TickAlone;
    assert tx.batch[..|tx.oks|] == tx.batch;
    TickAloneRows(limits.threshold, ts, tx.now, tx.batch, tx.oks);
    TickAloneIncidents(limits.threshold, ts, tx.now, tx.batch, tx.oks);
    var t := TickAlone(limits.threshold, ts, tx.now, tx.batch, tx.oks);
    assert (ts.rows + tx.writes).Keys == t.rows.Keys;
    forall d | d in ts.rows
      ensures (ts.rows + tx.writes)[d] == t.rows[d]
    {
      if d in tx.batch {
        var k :| 0 <= k < |tx.batch| && tx.batch[k] == d;
        assert tx.writes[tx.batch[k]] == RowAfter(ts.rows[tx.batch[k]], tx.oks[k], tx.now);
      }
    }
    assert ts.rows + tx.writes == t.rows;
  }

  lemma LogSnoc(limits: Limits, log: seq<Entry>, e: Entry)
    requires LogRight(limits, log) && ClaimedRight(limits, Serial(limits.threshold, log).rows, e)
    ensures LogRight(limits, log + [e])
    ensures Serial(limits.threshold, log + [e]) == Committed(limits.threshold, Serial(limits.threshold, log), e)
  {
    hide ClaimedRight, Committed;
    assert (log + [e])[..|log|] == log;
  }

  lemma EnrollKeepsInv(limits: Limits, s: State, doc: Doc, next: int, cadence: int)
    requires Inv(limits, s) && doc !in s.tables.rows
    ensures Inv(limits, Next(limits, s, Enroll(doc, next, cadence)))
  {
    hide TxRight, LogRight, Serial;
    LogSnoc(limits, s.log, Enrolled(doc, next, cadence));
    var t := Next(limits, s, Enroll(doc, next, cadence));
    forall w | w in t.txs
      ensures TxRight(limits, t.tables.rows, t.txs[w])
    {
      BatchInRows(limits, s.tables.rows, s.txs[w]);
      TxFrame(limits, s.tables.rows, t.tables.rows, s.txs[w]);
    }
  }

  lemma BatchInRows(limits: Limits, rows: map<Doc, Row>, tx: Tx)
    requires TxRight(limits, rows, tx)
    ensures forall k :: 0 <= k < |tx.batch| ==> tx.batch[k] in rows
  {
    hide Crossings, RowAfter;
    forall k | 0 <= k < |tx.batch|
      ensures tx.batch[k] in rows
    {
      assert Due(limits.threshold, rows, tx.now, tx.batch[k]);
    }
  }

  lemma ClaimKeepsInv(limits: Limits, s: State, w: Worker, now: int, batch: seq<Doc>)
    requires Inv(limits, s) && w !in s.txs && ClaimAnswer(limits, s, now, batch)
    ensures Inv(limits, Next(limits, s, Claim(w, now, batch)))
  {
    hide TxRight, LogRight, Serial, Due;
    FreshTx(limits, s, now, batch);
    forall d | d in batch
      ensures !Locked(s.txs, d)
    {
      var k :| 0 <= k < |batch| && batch[k] == d;
      assert Claimable(limits, s, now, batch[k]);
    }
  }

  lemma PollKeepsInv(limits: Limits, s: State, w: Worker, ok: bool)
    requires Inv(limits, s) && w in s.txs && |s.txs[w].oks| < |s.txs[w].batch|
    ensures Inv(limits, Next(limits, s, Poll(w, ok)))
  {
    hide TxRight, LogRight, Serial;
    assert TxRight(limits, s.tables.rows, s.txs[w]);
    MarkedRight(limits, s, s.txs[w], ok);
    assert Marked(limits.threshold, s, s.txs[w], ok).batch == s.txs[w].batch;
  }

  lemma CommitKeepsInv(limits: Limits, s: State, w: Worker)
    requires Inv(limits, s) && w in s.txs && |s.txs[w].oks| == |s.txs[w].batch|
    ensures Inv(limits, Next(limits, s, Commit(w)))
  {
    hide TxRight, LogRight, Serial, TickAlone, ClaimedRight;
    var tx := s.txs[w];
    assert TxRight(limits, s.tables.rows, tx);
    CommitIsTickAlone(limits, s.tables, tx);
    LogSnoc(limits, s.log, Ticked(tx.now, tx.batch, tx.oks));
    var t := Next(limits, s, Commit(w));
    forall v | v in t.txs
      ensures TxRight(limits, t.tables.rows, t.txs[v])
    {
      BatchInRows(limits, s.tables.rows, s.txs[v]);
      forall k | 0 <= k < |s.txs[v].batch|
        ensures s.txs[v].batch[k] in t.tables.rows && t.tables.rows[s.txs[v].batch[k]] == s.tables.rows[s.txs[v].batch[k]]
      {
        assert s.txs[v].batch[k] in s.txs[v].batch;
        assert s.txs[v].batch[k] !in tx.batch;
      }
      TxFrame(limits, s.tables.rows, t.tables.rows, s.txs[v]);
    }
  }

  lemma StepKeepsInv(limits: Limits, s: State, step: Step)
    requires Inv(limits, s)
    ensures Inv(limits, Next(limits, s, step))
  {
    hide TxRight, LogRight, Serial, Committed, Marked, ClaimAnswer;
    match step
    case Enroll(doc, next, cadence) =>
      if doc !in s.tables.rows {
        EnrollKeepsInv(limits, s, doc, next, cadence);
      }
    case Claim(w, now, batch) =>
      if w !in s.txs && ClaimAnswer(limits, s, now, batch) {
        ClaimKeepsInv(limits, s, w, now, batch);
      }
    case Poll(w, ok) =>
      if w in s.txs && |s.txs[w].oks| < |s.txs[w].batch| {
        PollKeepsInv(limits, s, w, ok);
      }
    case Commit(w) =>
      if w in s.txs && |s.txs[w].oks| == |s.txs[w].batch| {
        CommitKeepsInv(limits, s, w);
      }
    case Abort(w) =>
  }

  /** Every interleaving of ticks is serializable: the tables are those of the committed ticks run one
      after the other in commit order, each claiming only due rows that are not parked; and no row is
      ever held by two workers. */
  lemma {:induction false} RunSerializable(limits: Limits, steps: seq<Step>)
    ensures Inv(limits, Run(limits, steps))
  {
    hide Next, TxRight;
    if steps != [] {
      RunSerializable(limits, steps[..|steps| - 1]);
      StepKeepsInv(limits, Run(limits, steps[..|steps| - 1]), steps[|steps| - 1]);
    }
  }

  // ----- what follows for runs -----

  /** The tables change only by an enrolment or a commit; a commit adds its whole tick to the log and
      everything else adds nothing. */
  lemma WhollyOrNotAtAll(limits: Limits, s: State, step: Step)
    requires Inv(limits, s)
    ensures var t := Next(limits, s, step);
      if t.log == s.log then t.tables == s.tables else
        && |t.log| == |s.log| + 1 && t.log[..|s.log|] == s.log
        && t.tables == Committed(limits.threshold, s.tables, t.log[|s.log|])
        && (step.Commit? ==> t.log[|s.log|] == Ticked(s.txs[step.w].now, s.txs[step.w].batch, s.txs[step.w].oks))
  {
    hide LogRight, Serial, Marked, ClaimAnswer, TickAlone, LocksDisjoint, TxRight;
    var t := Next(limits, s, step);
    if step.Commit? && step.w in s.txs && |s.txs[step.w].oks| == |s.txs[step.w].batch| {
      assert TxRight(limits, s.tables.rows, s.txs[step.w]);
      CommitIsTickAlone(limits, s.tables, s.txs[step.w]);
    }
  }

  lemma {:induction false} LogGrows(limits: Limits, steps: seq<Step>, n: nat)
    requires n <= |steps|
    ensures Run(limits, steps[..n]).log <= Run(limits, steps).log
  {
    hide Next, Inv;
    if n == |steps| {
      assert steps[..n] == steps;
    } else {
      var front := steps[..|steps| - 1];
      assert front[..n] == steps[..n];
      LogGrows(limits, front, n);
      RunSerializable(limits, front);
      WhollyOrNotAtAll(limits, Run(limits, front), steps[|steps| - 1]);
    }
  }

  /** Over every run: a failure count stays within threshold + 1 and is the number of failures since
      the last success; a document has exactly one incident when parked and none before; and a parked
      document is held by no tick. */
  lemma RunParks(limits: Limits, steps: seq<Step>, doc: Doc)
    ensures var s := Run(limits, steps);
      && (doc in s.tables.rows ==>
            s.tables.rows[doc].failures == FailuresSinceSuccess(s.log, doc) <= limits.threshold + 1)
      && IncidentsOf(s.tables.incidents, doc) == (if Parked(limits.threshold, s.tables.rows, doc) then 1 else 0)
      && (Parked(limits.threshold, s.tables.rows, doc) ==> !Locked(s.txs, doc))
  {
    hide Run, LogRight, Serial, TxRight;
    var s := Run(limits, steps);
    RunSerializable(limits, steps);
    OneIncidentPerParked(limits, s.log, doc);
    FailureCountMeaning(limits, s.log, doc);
    if Locked(s.txs, doc) {
      var w :| w in s.txs && doc in s.txs[w].batch;
      HeldNotParked(limits, s.tables.rows, s.txs[w], doc);
    }
  }

  lemma HeldNotParked(limits: Limits, rows: map<Doc, Row>, tx: Tx, doc: Doc)
    requires TxRight(limits, rows, tx) && doc in tx.batch
    ensures !Parked(limits.threshold, rows, doc)
  {
    hide Crossings, RowAfter;
    var k :| 0 <= k < |tx.batch| && tx.batch[k] == doc;
    assert Due(limits.threshold, rows, tx.now, tx.batch[k]);
  }

  /** Over every run: a row that is parked at some point never changes again. */
  lemma RunParkedForGood(limits: Limits, steps: seq<Step>, n: nat, doc: Doc)
    requires n <= |steps| && Parked(limits.threshold, Run(limits, steps[..n]).tables.rows, doc)
    ensures var was, s := Run(limits, steps[..n]), Run(limits, steps);
      && doc in s.tables.rows && s.tables.rows[doc] == was.tables.rows[doc]
      && forall k :: |was.log| <= k < |s.log| && s.log[k].Ticked? ==> doc !in s.log[k].batch
  {
    hide Run, LogRight, Serial, TxRight;
    var was, s := Run(limits, steps[..n]), Run(limits, steps);
    RunSerializable(limits, steps[..n]);
    RunSerializable(limits, steps);
    LogGrows(limits, steps, n);
    assert s.log[..|was.log|] == was.log;
    ParkedForGood(limits, s.log, |was.log|, doc);
  }

  /** Over every run: documents whose committed polls never succeed use at most threshold + 1
      committed claims each. */
  lemma RunFailureBudget(limits: Limits, steps: seq<Step>, docs: set<Doc>)
    requires NeverSucceeds(Run(limits, steps).log, docs)
    ensures FailedClaims(Run(limits, steps).log, docs) <= |docs| * (limits.threshold + 1)
  {
    hide Run, LogRight, Serial, TxRight, FailedClaims;
    RunSerializable(limits, steps);
    FailureBudget(limits, Run(limits, steps).log, docs);
  }

  // ----- the loop's own counters -----

  /** How one poll of a tick ends: normally, with an exception the tick records, or with one that ends
      the tick (cancellation, or a database error that leaves the transaction unusable). */
  datatype Outcome = Polled | Raised | Broken

  function Verdicts(outcomes: seq<Outcome>): (r: seq<bool>)
    ensures |r| == |outcomes| && forall k :: 0 <= k < |r| ==> r[k] == outcomes[k].Polled?
  {
    seq(|outcomes|, k requires 0 <= k < |outcomes| => outcomes[k].Polled?)
  }

  lemma MarkedFields(threshold: nat, s: State, tx: Tx, ok: bool)
    requires |tx.oks| < |tx.batch|
    ensures var t := Marked(threshold, s, tx, ok);
      && t.now == tx.now && t.batch == tx.batch && t.oks == tx.oks + [ok]
      && |tx.incidents| <= |t.incidents| <= |tx.incidents| + if ok then 0 else 1
  {
  }

  lemma VerdictsSnoc(outcomes: seq<Outcome>, k: nat)
    requires k < |outcomes|
    ensures Verdicts(outcomes[..k + 1]) == Verdicts(outcomes[..k]) + [outcomes[k].Polled?]
  {
  }

  /** One worker's loop with its runtime counters. */
  class ClaimLoop {
    const limits: Limits
    const me: Worker
    var ticks: nat
    var rowsProcessed: nat
    var incidentsWritten: nat

    constructor (limits: Limits, me: Worker)
      ensures this.limits == limits && this.me == me
      ensures ticks == 0 && rowsProcessed == 0 && incidentsWritten == 0
    {
      this.limits, this.me := limits, me;
      ticks, rowsProcessed, incidentsWritten := 0, 0, 0;
    }

    /** Marks a failed poll and counts the incident it may write, before the tick commits. */
    method RecordFailure(s: State) returns (t: State)
      requires me in s.txs && |s.txs[me].oks| < |s.txs[me].batch|
      modifies `incidentsWritten
      ensures t == Next(limits, s, Poll(me, false))
      ensures incidentsWritten == old(incidentsWritten) + |t.txs[me].incidents| - |s.txs[me].incidents|
    {
      t := Next(limits, s, Poll(me, false));
      if |t.txs[me].incidents| > |s.txs[me].incidents| {
        incidentsWritten := incidentsWritten + 1;
      }
    }

    /** One tick with no step of another worker in between. `batch` is the claim query's answer and
        `outcomes` what its polls do. A tick that breaks leaves the tables as they were and counts
        nothing but the incidents it had written by then. */
    method Tick(s: State, now: int, batch: seq<Doc>, outcomes: seq<Outcome>) returns (t: State, processed: Option<nat>)
      requires Inv(limits, s) && me !in s.txs && ClaimAnswer(limits, s, now, batch) && |outcomes| == |batch|
      modifies this
      ensures processed.None? <==> Broken in outcomes
      ensures processed.None? ==>
        t == s && ticks == old(ticks) && rowsProcessed == old(rowsProcessed) && incidentsWritten >= old(incidentsWritten)
      ensures processed.Some? ==>
        && processed.value == |batch|
        && t.tables == TickAlone(limits.threshold, s.tables, now, batch, Verdicts(outcomes))
        && t.txs == s.txs && t.log == s.log + [Ticked(now, batch, Verdicts(outcomes))]
        && ticks == old(ticks) + 1 && rowsProcessed == old(rowsProcessed) + |batch|
        && incidentsWritten == old(incidentsWritten) + |t.tables.incidents| - |s.tables.incidents|
    {
      hide TxRight, LogRight, Serial, ClaimAnswer, TickAlone, Marked;
      t := Next(limits, s, Claim(me, now, batch));
      FreshTx(limits, s, now, batch);
      for k := 0 to |batch|
        invariant Broken !in outcomes[..k]
        invariant t.tables == s.tables && t.log == s.log && me in t.txs && t.txs - {me} == s.txs
        invariant TxRight(limits, s.tables.rows, t.txs[me])
        invariant t.txs[me].now == now && t.txs[me].batch == batch && t.txs[me].oks == Verdicts(outcomes[..k])
        invariant ticks == old(ticks) && rowsProcessed == old(rowsProcessed)
        invariant incidentsWritten == old(incidentsWritten) + |t.txs[me].incidents|
      {
        MarkedRight(limits, t, t.txs[me], outcomes[k].Polled?);
        MarkedFields(limits.threshold, t, t.txs[me], outcomes[k].Polled?);
        VerdictsSnoc(outcomes, k);
        match outcomes[k]
        case Broken =>
          t := Next(limits, t, Abort(me));
          return t, None;
        case Polled => t := Next(limits, t, Poll(me, true));
        case Raised => t := RecordFailure(t);
      }
      assert outcomes[..|batch|] == outcomes;
      CommitIsTickAlone(limits, t.tables, t.txs[me]);
      t := Next(limits, t, Commit(me));
      ticks := ticks + 1;
      rowsProcessed := rowsProcessed + |batch|;
      return t, Some(|batch|);
    }
  }
}
