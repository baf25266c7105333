/** The poll schedule and the incident table: what one committed tick does to them, and what holds
    after any sequence of such ticks. */
module Schedule {
  import opened Prelude

  type Doc = nat

  datatype Row = Row(next: int, cadence: int, lastPolled: Option<int>, failures: nat)

  /** A `parked` incident with the failure count that caused it. */
  datatype Incident = Incident(doc: Doc, failures: nat)

  datatype Tables = Tables(rows: map<Doc, Row>, incidents: seq<Incident>)

  /** The loop configuration: the kill-switch threshold and the batch size. */
  datatype Limits = Limits(threshold: nat, batchSize: nat)

  /** What was committed, in commit order: a document put on the schedule, or one whole tick with
      its batch and, for each document of the batch, whether the poll succeeded. */
  datatype Entry =
    | Enrolled(doc: Doc, next: int, cadence: int)
    | Ticked(now: int, batch: seq<Doc>, oks: seq<bool>)

  function RowAfter(row: Row, ok: bool, now: int): Row {
    if ok then Row(now + row.cadence, row.cadence, Some(now), 0)
    else Row(row.next, row.cadence, Some(now), row.failures + 1)
  }

  /** Marks one polled document; a failure that crosses the threshold writes an incident. */
  function MarkPolled(threshold: nat, ts: Tables, now: int, doc: Doc, ok: bool): Tables {
    if doc !in ts.rows then ts else
      var row := RowAfter(ts.rows[doc], ok, now);
      Tables(ts.rows[doc := row],
             if !ok && row.failures > threshold then ts.incidents + [Incident(doc, row.failures)] else ts.incidents)
  }

  /** A tick executed alone: its documents marked one after the other. */
  function TickAlone(threshold: nat, ts: Tables, now: int, batch: seq<Doc>, oks: seq<bool>): Tables
    requires |oks| == |batch|
    decreases |batch|
  {
    if batch == [] then ts else
      var n := |batch| - 1;
      MarkPolled(threshold, TickAlone(threshold, ts, now, batch[..n], oks[..n]), now, batch[n], oks[n])
  }

  function Committed(threshold: nat, ts: Tables, e: Entry): Tables {
    match e
    case Enrolled(doc, next, cadence) =>
      if doc in ts.rows then ts else ts.(rows := ts.rows[doc := Row(next, cadence, None, 0)])
    case Ticked(now, batch, oks) => if |oks| == |batch| then TickAlone(threshold, ts, now, batch, oks) else ts
  }

  const NO_TABLES: Tables := Tables(map[], [])

  /** The tables after committing the entries one after the other. */
  function Serial(threshold: nat, log: seq<Entry>): Tables {
    if log == [] then NO_TABLES
    else Committed(threshold, Serial(threshold, log[..|log| - 1]), log[|log| - 1])
  }

  /** The claim query's filter. */
  predicate Due(threshold: nat, rows: map<Doc, Row>, now: int, doc: Doc) {
    doc in rows && rows[doc].next <= now && rows[doc].failures <= threshold
  }

  /** A committed tick claimed distinct due documents, within the batch size. */
  predicate ClaimedRight(limits: Limits, rows: map<Doc, Row>, e: Entry) {
    if e.Enrolled? then e.doc !in rows else
      && NoDuplicates(e.batch) && |e.oks| == |e.batch| <= limits.batchSize
      && forall k :: 0 <= k < |e.batch| ==> Due(limits.threshold, rows, e.now, e.batch[k])
  }

  predicate LogRight(limits: Limits, log: seq<Entry>) {
    log == [] ||
    var front, last := log[..|log| - 1], log[|log| - 1];
    LogRight(limits, front) && ClaimedRight(limits, Serial(limits.threshold, front).rows, last)
  }

  // ----- a tick, document by document -----

  function Crossings(threshold: nat, rows: map<Doc, Row>, batch: seq<Doc>, oks: seq<bool>): seq<Incident>
    requires |oks| == |batch| && forall k :: 0 <= k < |batch| ==> batch[k] in rows
    decreases |batch|
  {
    if batch == [] then [] else
      var n := |batch| - 1;
      var failures := rows[batch[n]].failures + 1;
      Crossings(threshold, rows, batch[..n], oks[..n])
        + if !oks[n] && failures > threshold then [Incident(batch[n], failures)] else []
  }

  /** Each document of the batch is marked from its row at the start of the tick, and nothing else
      changes. */
  lemma {:induction false} TickAloneRows(threshold: nat, ts: Tables, now: int, batch: seq<Doc>, oks: seq<bool>)
    requires |oks| == |batch| && NoDuplicates(batch) && forall k :: 0 <= k < |batch| ==> batch[k] in ts.rows
    ensures var t := TickAlone(threshold, ts, now, batch, oks);
      && t.rows.Keys == ts.rows.Keys
      && (forall k :: 0 <= k < |batch| ==> t.rows[batch[k]] == RowAfter(ts.rows[batch[k]], oks[k], now))
      && (forall d :: d in ts.rows && d !in batch ==> t.rows[d] == ts.rows[d])
    decreases |batch|
  {
    hide RowAfter, MarkPolled;
    if batch != [] {
      var n := |batch| - 1;
      TickAloneRows(threshold, ts, now, batch[..n], oks[..n]);
      MarkPolledRow(threshold, TickAlone(threshold, ts, now, batch[..n], oks[..n]), now, batch[n], oks[n]);
      TakeSnoc(batch, n);
    }
  }

  /** The incidents a tick adds are the threshold crossings of its batch, in order. */
  lemma {:induction false} TickAloneIncidents(threshold: nat, ts: Tables, now: int, batch: seq<Doc>, oks: seq<bool>)
    requires |oks| == |batch| && NoDuplicates(batch) && forall k :: 0 <= k < |batch| ==> batch[k] in ts.rows
    ensures TickAlone(threshold, ts, now, batch, oks).incidents == ts.incidents + Crossings(threshold, ts.rows, batch, oks)
    decreases |batch|
  {
    hide RowAfter, MarkPolled;
    if batch == [] {
      assert ts.incidents + [] == ts.incidents;
    } else {
      var n := |batch| - 1;
      var mid := TickAlone(threshold, ts, now, batch[..n], oks[..n]);
      TickAloneRows(threshold, ts, now, batch[..n], oks[..n]);
      TickAloneIncidents(threshold, ts, now, batch[..n], oks[..n]);
      MarkPolledRow(threshold, mid, now, batch[n], oks[n]);
      assert batch[n] !in batch[..n];
      Associate(ts.incidents, Crossings(threshold, ts.rows, batch[..n], oks[..n]),
        if !oks[n] && ts.rows[batch[n]].failures + 1 > threshold then [Incident(batch[n], ts.rows[batch[n]].failures + 1)] else []);
    }
  }

  lemma MarkPolledRow(threshold: nat, ts: Tables, now: int, doc: Doc, ok: bool)
    requires doc in ts.rows
    ensures MarkPolled(threshold, ts, now, doc, ok) == Tables(ts.rows[doc := RowAfter(ts.rows[doc], ok, now)],
      ts.incidents + if !ok && ts.rows[doc].failures + 1 > threshold then [Incident(doc, ts.rows[doc].failures + 1)] else [])
  {
    assert ts.incidents + [] == ts.incidents;
  }

  // ----- parking -----

  predicate Parked(threshold: nat, rows: map<Doc, Row>, doc: Doc) {
    doc in rows && rows[doc].failures > threshold
  }

  /** Number of incidents of a document. */
  function IncidentsOf(incidents: seq<Incident>, doc: Doc): nat {
    if incidents == [] then 0 else
      var n := |incidents| - 1;
      IncidentsOf(incidents[..n], doc) + if incidents[n].doc == doc then 1 else 0
  }

  lemma {:induction false} IncidentsOfConcat(a: seq<Incident>, b: seq<Incident>, doc: Doc)
    ensures IncidentsOf(a + b, doc) == IncidentsOf(a, doc) + IncidentsOf(b, doc)
  {
    if b == [] {
      assert a + b == a;
    } else {
      var n := |b| - 1;
      assert (a + b)[..|a| + n] == a + b[..n];
      IncidentsOfConcat(a, b[..n], doc);
    }
  }

  lemma {:induction false} CrossingsOf(threshold: nat, rows: map<Doc, Row>, batch: seq<Doc>, oks: seq<bool>, doc: Doc)
    requires |oks| == |batch| && NoDuplicates(batch) && forall k :: 0 <= k < |batch| ==> batch[k] in rows
    ensures doc !in batch ==> IncidentsOf(Crossings(threshold, rows, batch, oks), doc) == 0
    ensures forall k :: 0 <= k < |batch| && batch[k] == doc ==>
      IncidentsOf(Crossings(threshold, rows, batch, oks), doc) == if !oks[k] && rows[doc].failures + 1 > threshold then 1 else 0
    decreases |batch|
  {
    if batch != [] {
      var n := |batch| - 1;
      CrossingsOf(threshold, rows, batch[..n], oks[..n], doc);
      var last := if !oks[n] && rows[batch[n]].failures + 1 > threshold then [Incident(batch[n], rows[batch[n]].failures + 1)] else [];
      IncidentsOfConcat(Crossings(threshold, rows, batch[..n], oks[..n]), last, doc);
      assert batch[n] !in batch[..n];
      assert last != [] ==> last[..0] == [];
    }
  }

  /** One more committed entry, from one document's point of view. */
  lemma CommittedEffect(limits: Limits, ts: Tables, e: Entry, doc: Doc)
    requires ClaimedRight(limits, ts.rows, e)
    ensures doc in ts.rows ==> doc in Committed(limits.threshold, ts, e).rows
    ensures e.Enrolled? ==> Committed(limits.threshold, ts, e) == ts.(rows := ts.rows[e.doc := Row(e.next, e.cadence, None, 0)])
    ensures e.Ticked? ==> TickEffect(limits.threshold, ts, e, doc, Committed(limits.threshold, ts, e))
  {
    hide RowAfter, TickAlone, Crossings, IncidentsOf;
    if e.Ticked? {
      TickAloneRows(limits.threshold, ts, e.now, e.batch, e.oks);
      TickAloneIncidents(limits.threshold, ts, e.now, e.batch, e.oks);
      CrossingsOf(limits.threshold, ts.rows, e.batch, e.oks, doc);
      IncidentsOfConcat(ts.incidents, Crossings(limits.threshold, ts.rows, e.batch, e.oks), doc);
    }
  }

  /** A tick marks the document if it is in the batch and leaves it alone otherwise. */
  predicate TickEffect(threshold: nat, ts: Tables, e: Entry, doc: Doc, t: Tables)
    requires e.Ticked? && |e.oks| == |e.batch|
  {
    && t.rows.Keys == ts.rows.Keys
    && (doc !in e.batch ==>
          && IncidentsOf(t.incidents, doc) == IncidentsOf(ts.incidents, doc)
          && (doc in ts.rows ==> t.rows[doc] == ts.rows[doc]))
    && forall k :: 0 <= k < |e.batch| && e.batch[k] == doc && doc in ts.rows ==>
         && t.rows[doc] == RowAfter(ts.rows[doc], e.oks[k], e.now)
         && IncidentsOf(t.incidents, doc) == IncidentsOf(ts.incidents, doc)
              + if !e.oks[k] && ts.rows[doc].failures + 1 > threshold then 1 else 0
  }

  /** A failure count never passes the threshold by more than one, and a document has one incident
      when it is parked and none otherwise. */
  lemma {:induction false} OneIncidentPerParked(limits: Limits, log: seq<Entry>, doc: Doc)
    requires LogRight(limits, log)
    ensures var ts := Serial(limits.threshold, log);
      && (doc in ts.rows ==> ts.rows[doc].failures <= limits.threshold + 1)
      && IncidentsOf(ts.incidents, doc) == if Parked(limits.threshold, ts.rows, doc) then 1 else 0
  {
    hide Committed, IncidentsOf, ClaimedRight;
    NoIncidents(doc);
    if log != [] {
      var front, e := log[..|log| - 1], log[|log| - 1];
      OneIncidentPerParked(limits, front, doc);
      CommittedEffect(limits, Serial(limits.threshold, front), e, doc);
      IncidentStep(limits, Serial(limits.threshold, front), e, doc);
    }
  }

  lemma NoIncidents(doc: Doc)
    ensures IncidentsOf([], doc) == 0
  {
  }

  lemma IncidentStep(limits: Limits, ts: Tables, e: Entry, doc: Doc)
    requires ClaimedRight(limits, ts.rows, e)
    requires doc in ts.rows ==> ts.rows[doc].failures <= limits.threshold + 1
    requires IncidentsOf(ts.incidents, doc) == if Parked(limits.threshold, ts.rows, doc) then 1 else 0
    ensures var t := Committed(limits.threshold, ts, e);
      && (doc in t.rows ==> t.rows[doc].failures <= limits.threshold + 1)
      && IncidentsOf(t.incidents, doc) == if Parked(limits.threshold, t.rows, doc) then 1 else 0
  {
    hide Committed, IncidentsOf;
    CommittedEffect(limits, ts, e, doc);
    if e.Ticked? && doc in e.batch {
      var k :| 0 <= k < |e.batch| && e.batch[k] == doc;
      assert Due(limits.threshold, ts.rows, e.now, e.batch[k]);
    }
  }

  /** A parked document is never claimed and its row never changes. */
  lemma ParkedUntouched(limits: Limits, ts: Tables, e: Entry, doc: Doc)
    requires ClaimedRight(limits, ts.rows, e) && Parked(limits.threshold, ts.rows, doc)
    ensures e.Ticked? ==> doc !in e.batch
    ensures doc in Committed(limits.threshold, ts, e).rows && Committed(limits.threshold, ts, e).rows[doc] == ts.rows[doc]
  {
    hide Committed;
    CommittedEffect(limits, ts, e, doc);
    if e.Ticked? {
      forall k | 0 <= k < |e.batch|
        ensures e.batch[k] != doc
      {
        assert Due(limits.threshold, ts.rows, e.now, e.batch[k]);
      }
    }
  }

  /** Once parked, parked for good, with the same row and no further incident. */
  lemma {:induction false} ParkedForGood(limits: Limits, log: seq<Entry>, n: nat, doc: Doc)
    requires LogRight(limits, log) && n <= |log|
    requires Parked(limits.threshold, Serial(limits.threshold, log[..n]).rows, doc)
    ensures var was, ts := Serial(limits.threshold, log[..n]), Serial(limits.threshold, log);
      doc in ts.rows && ts.rows[doc] == was.rows[doc]
    ensures forall k :: n <= k < |log| && log[k].Ticked? ==> doc !in log[k].batch
  {
    hide Committed, ClaimedRight;
    if n == |log| {
      assert log[..n] == log;
    } else {
      var front, e := log[..|log| - 1], log[|log| - 1];
      assert front[..n] == log[..n];
      ParkedForGood(limits, front, n, doc);
      ParkedUntouched(limits, Serial(limits.threshold, front), e, doc);
    }
  }

  // ----- the failure count and the failure budget -----

  /** The verdict of a tick on one document, if it was in the batch. */
  function Verdict(batch: seq<Doc>, oks: seq<bool>, doc: Doc): Option<bool>
    requires |oks| == |batch|
    decreases |batch|
  {
    if batch == [] then None else
      var n := |batch| - 1;
      if batch[n] == doc then Some(oks[n]) else Verdict(batch[..n], oks[..n], doc)
  }

  lemma {:induction false} VerdictIs(batch: seq<Doc>, oks: seq<bool>, doc: Doc)
    requires |oks| == |batch| && NoDuplicates(batch)
    ensures Verdict(batch, oks, doc).None? <==> doc !in batch
    ensures forall k :: 0 <= k < |batch| && batch[k] == doc ==> Verdict(batch, oks, doc) == Some(oks[k])
    decreases |batch|
  {
    if batch != [] {
      VerdictIs(batch[..|batch| - 1], oks[..|batch| - 1], doc);
      TakeSnoc(batch, |batch| - 1);
    }
  }

  /** Failed polls of a document since its last success. */
  function FailuresSinceSuccess(log: seq<Entry>, doc: Doc): nat {
    if log == [] then 0 else
      var before, e := FailuresSinceSuccess(log[..|log| - 1], doc), log[|log| - 1];
      if e.Ticked? && |e.oks| == |e.batch| then
        match Verdict(e.batch, e.oks, doc)
        case None => before
        case Some(ok) => if ok then 0 else before + 1
      else before
  }

  /** The stored failure count is the number of failures since the last success. */
  lemma {:induction false} FailureCountMeaning(limits: Limits, log: seq<Entry>, doc: Doc)
    requires LogRight(limits, log)
    ensures var rows := Serial(limits.threshold, log).rows;
      FailuresSinceSuccess(log, doc) == if doc in rows then rows[doc].failures else 0
  {
    hide Committed, ClaimedRight, IncidentsOf, Verdict;
    if log != [] {
      var front, e := log[..|log| - 1], log[|log| - 1];
      FailureCountMeaning(limits, front, doc);
      FailureCountStep(limits, Serial(limits.threshold, front), e, doc);
    }
  }

  lemma FailureCountStep(limits: Limits, ts: Tables, e: Entry, doc: Doc)
    requires ClaimedRight(limits, ts.rows, e)
    ensures e.Ticked? ==> |e.oks| == |e.batch|
    ensures var before, rows := (if doc in ts.rows then ts.rows[doc].failures else 0), Committed(limits.threshold, ts, e).rows;
      (if doc in rows then rows[doc].failures else 0) ==
        if e.Enrolled? then before else
          match Verdict(e.batch, e.oks, doc)
          case None => before
          case Some(ok) => if ok then 0 else before + 1
  {
    hide Committed, IncidentsOf, Verdict;
    CommittedEffect(limits, ts, e, doc);
    if e.Ticked? {
      VerdictIs(e.batch, e.oks, doc);
      if doc in e.batch {
        var k :| 0 <= k < |e.batch| && e.batch[k] == doc;
        assert Due(limits.threshold, ts.rows, e.now, e.batch[k]);
      }
    }
  }

  function FailedIn(batch: seq<Doc>, oks: seq<bool>, docs: set<Doc>): nat
    requires |oks| == |batch|
    decreases |batch|
  {
    if batch == [] then 0 else
      var n := |batch| - 1;
      FailedIn(batch[..n], oks[..n], docs) + if batch[n] in docs && !oks[n] then 1 else 0
  }

  /** Committed claims of documents in `docs` whose poll failed. */
  function FailedClaims(log: seq<Entry>, docs: set<Doc>): nat {
    if log == [] then 0 else
      var before, e := FailedClaims(log[..|log| - 1], docs), log[|log| - 1];
      if e.Ticked? && |e.oks| == |e.batch| then before + FailedIn(e.batch, e.oks, docs) else before
  }

  predicate NeverSucceeds(log: seq<Entry>, docs: set<Doc>) {
    forall n, k :: 0 <= n < |log| && log[n].Ticked? && |log[n].oks| == |log[n].batch| && 0 <= k < |log[n].batch| ==>
      log[n].batch[k] in docs ==> !log[n].oks[k]
  }

  lemma {:induction false} FailedInSplit(batch: seq<Doc>, oks: seq<bool>, docs: set<Doc>, d: Doc)
    requires |oks| == |batch| && d in docs
    ensures FailedIn(batch, oks, docs) == FailedIn(batch, oks, docs - {d}) + FailedIn(batch, oks, {d})
    decreases |batch|
  {
    if batch != [] {
      FailedInSplit(batch[..|batch| - 1], oks[..|batch| - 1], docs, d);
    }
  }

  lemma {:induction false} FailedClaimsSplit(log: seq<Entry>, docs: set<Doc>, d: Doc)
    requires d in docs
    ensures FailedClaims(log, docs) == FailedClaims(log, docs - {d}) + FailedClaims(log, {d})
  {
    hide FailedIn;
    if log != [] {
      FailedClaimsSplit(log[..|log| - 1], docs, d);
      var e := log[|log| - 1];
      if e.Ticked? && |e.oks| == |e.batch| {
        FailedInSplit(e.batch, e.oks, docs, d);
      }
    }
  }

  lemma {:induction false} FailedInOne(batch: seq<Doc>, oks: seq<bool>, d: Doc)
    requires |oks| == |batch| && NoDuplicates(batch)
    ensures FailedIn(batch, oks, {d}) == if Verdict(batch, oks, d) == Some(false) then 1 else 0
    decreases |batch|
  {
    if batch != [] {
      var n := |batch| - 1;
      FailedInOne(batch[..n], oks[..n], d);
      VerdictIs(batch[..n], oks[..n], d);
    }
  }

  /** A document that never succeeds has as many failed claims as its failure count. */
  lemma {:induction false} FailedClaimsOfOne(limits: Limits, log: seq<Entry>, d: Doc)
    requires LogRight(limits, log) && NeverSucceeds(log, {d})
    ensures FailedClaims(log, {d}) == FailuresSinceSuccess(log, d)
  {
    hide Serial, FailedIn, Verdict;
    if log != [] {
      var front, e := log[..|log| - 1], log[|log| - 1];
      FailedClaimsOfOne(limits, front, d);
      if e.Ticked? {
        FailedInOne(e.batch, e.oks, d);
        VerdictIs(e.batch, e.oks, d);
        if d in e.batch {
          var k :| 0 <= k < |e.batch| && e.batch[k] == d;
          assert log[|log| - 1].batch[k] in {d};
        }
      }
    }
  }

  /** Documents that never succeed use at most threshold + 1 committed claims each, in total. */
  lemma {:induction false} FailureBudget(limits: Limits, log: seq<Entry>, docs: set<Doc>)
    requires LogRight(limits, log) && NeverSucceeds(log, docs)
    ensures FailedClaims(log, docs) <= |docs| * (limits.threshold + 1)
    decreases |docs|
  {
    hide LogRight, Serial, FailedIn, Verdict;
    if docs == {} {
      NoFailedClaims(log);
    } else {
      var d :| d in docs;
      FailedClaimsSplit(log, docs, d);
      FailureBudget(limits, log, docs - {d});
      FailedClaimsOfOne(limits, log, d);
      FailureCountMeaning(limits, log, d);
      OneIncidentPerParked(limits, log, d);
      Distribute(|docs| - 1, limits.threshold + 1);
    }
  }

  lemma {:induction false} NoFailedClaims(log: seq<Entry>)
    ensures FailedClaims(log, {}) == 0
  {
    if log != [] {
      NoFailedClaims(log[..|log| - 1]);
      var e := log[|log| - 1];
      if e.Ticked? && |e.oks| == |e.batch| {
        NoFailedIn(e.batch, e.oks);
      }
    }
  }

  lemma {:induction false} NoFailedIn(batch: seq<Doc>, oks: seq<bool>)
    requires |oks| == |batch|
    ensures FailedIn(batch, oks, {}) == 0
    decreases |batch|
  {
    if batch != [] {
      NoFailedIn(batch[..|batch| - 1], oks[..|batch| - 1]);
    }
  }

  // ----- when a document is due again -----

  /** After a success a document is due again exactly a cadence later; after a failure it stays due at
      once, unless that failure parked it. */
  lemma DueAgainIff(limits: Limits, ts: Tables, e: Entry, doc: Doc, later: int)
    requires ClaimedRight(limits, ts.rows, e) && e.Ticked? && doc in e.batch && e.now <= later
    ensures doc in ts.rows
    ensures Due(limits.threshold, Committed(limits.threshold, ts, e).rows, later, doc) <==>
      if Verdict(e.batch, e.oks, doc) == Some(true) then e.now + ts.rows[doc].cadence <= later
      else ts.rows[doc].failures < limits.threshold
  {
    hide Committed, IncidentsOf, Verdict;
    CommittedEffect(limits, ts, e, doc);
    VerdictIs(e.batch, e.oks, doc);
    var k :| 0 <= k < |e.batch| && e.batch[k] == doc;
    assert Due(limits.threshold, ts.rows, e.now, e.batch[k]);
  }

  /** No tick of `log` from position `n` on polled the document successfully. */
  predicate NoSuccessFrom(log: seq<Entry>, n: nat, doc: Doc) {
    forall k :: n <= k < |log| && log[k].Ticked? && |log[k].oks| == |log[k].batch| ==>
      Verdict(log[k].batch, log[k].oks, doc) != Some(true)
  }

  /** The next poll time moves only by a success. */
  lemma {:induction false} NextKept(limits: Limits, log: seq<Entry>, n: nat, doc: Doc)
    requires LogRight(limits, log) && n <= |log| && NoSuccessFrom(log, n, doc)
    requires doc in Serial(limits.threshold, log[..n]).rows
    ensures var was, rows := Serial(limits.threshold, log[..n]).rows, Serial(limits.threshold, log).rows;
      doc in rows && rows[doc].next == was[doc].next && rows[doc].cadence == was[doc].cadence
  {
    hide Committed, ClaimedRight, IncidentsOf, Verdict;
    if n == |log| {
      assert log[..n] == log;
    } else {
      var front, e := log[..|log| - 1], log[|log| - 1];
      assert front[..n] == log[..n];
      NextKept(limits, front, n, doc);
      NextStep(limits, Serial(limits.threshold, front), e, doc);
    }
  }

  lemma NextStep(limits: Limits, ts: Tables, e: Entry, doc: Doc)
    requires ClaimedRight(limits, ts.rows, e) && doc in ts.rows
    ensures e.Ticked? ==> |e.oks| == |e.batch|
    ensures var rows := Committed(limits.threshold, ts, e).rows;
      && doc in rows && rows[doc].cadence == ts.rows[doc].cadence
      && rows[doc].next == if e.Ticked? && Verdict(e.batch, e.oks, doc) == Some(true) then e.now + rows[doc].cadence else ts.rows[doc].next
  {
    hide Committed, IncidentsOf, Verdict;
    CommittedEffect(limits, ts, e, doc);
    if e.Ticked? {
      VerdictIs(e.batch, e.oks, doc);
      if doc in e.batch {
        var k :| 0 <= k < |e.batch| && e.batch[k] == doc;
      }
    }
  }

  /** The cadence is respected: between a success and the document's next success, no tick claims it
      before a full cadence has passed. */
  lemma CadenceRespected(limits: Limits, log: seq<Entry>, n: nat, doc: Doc)
    requires LogRight(limits, log) && n + 1 < |log|
    requires log[n].Ticked? && |log[n].oks| == |log[n].batch| && Verdict(log[n].batch, log[n].oks, doc) == Some(true)
    requires NoSuccessFrom(log[..|log| - 1], n + 1, doc)
    requires log[|log| - 1].Ticked? && doc in log[|log| - 1].batch
    ensures doc in Serial(limits.threshold, log[..n]).rows
    ensures log[|log| - 1].now >= log[n].now + Serial(limits.threshold, log[..n]).rows[doc].cadence
  {
    hide Committed, IncidentsOf, Verdict, LogRight;
    var front, e := log[..|log| - 1], log[|log| - 1];
    LogRightTo(limits, log, |log| - 1);
    LogRightTo(limits, log, n);
    assert front[..n + 1] == log[..n + 1] && log[..n + 1][..n] == log[..n];
    VerdictIs(log[n].batch, log[n].oks, doc);
    var j :| 0 <= j < |log[n].batch| && log[n].batch[j] == doc;
    assert Due(limits.threshold, Serial(limits.threshold, log[..n]).rows, log[n].now, log[n].batch[j]);
    NextStep(limits, Serial(limits.threshold, log[..n]), log[n], doc);
    NextKept(limits, front, n + 1, doc);
    var k :| 0 <= k < |e.batch| && e.batch[k] == doc;
    assert Due(limits.threshold, Serial(limits.threshold, front).rows, e.now, e.batch[k]);
  }

  /** Every prefix of a right log is right, and so is the entry after it. */
  lemma {:induction false} LogRightTo(limits: Limits, log: seq<Entry>, n: nat)
    requires LogRight(limits, log) && n < |log|
    ensures LogRight(limits, log[..n]) && ClaimedRight(limits, Serial(limits.threshold, log[..n]).rows, log[n])
  {
    hide ClaimedRight, Serial;
    if n < |log| - 1 {
      LogRightTo(limits, log[..|log| - 1], n);
      assert log[..|log| - 1][..n] == log[..n];
    }
  }

  // ----- what else a row and an incident record -----

  /** The start of the last committed tick that polled the document. */
  function LastPoll(log: seq<Entry>, doc: Doc): Option<int> {
    if log == [] then None else
      var e := log[|log| - 1];
      if e.Ticked? && |e.oks| == |e.batch| && doc in e.batch then Some(e.now) else LastPoll(log[..|log| - 1], doc)
  }

  /** The stored poll time is that of the last committed tick with the document in its batch, whether the
      poll succeeded or failed. */
  lemma {:induction false} LastPolledMeaning(limits: Limits, log: seq<Entry>, doc: Doc)
    requires LogRight(limits, log) && doc in Serial(limits.threshold, log).rows
    ensures Serial(limits.threshold, log).rows[doc].lastPolled == LastPoll(log, doc)
  {
    hide Committed, ClaimedRight, IncidentsOf;
    var front, e := log[..|log| - 1], log[|log| - 1];
    LastPolledStep(limits, Serial(limits.threshold, front), e, doc);
    if doc in Serial(limits.threshold, front).rows {
      LastPolledMeaning(limits, front, doc);
    } else {
      NotYetPolled(limits, front, doc);
    }
  }

  lemma LastPolledStep(limits: Limits, ts: Tables, e: Entry, doc: Doc)
    requires ClaimedRight(limits, ts.rows, e) && doc in Committed(limits.threshold, ts, e).rows
    ensures e.Ticked? ==> |e.oks| == |e.batch|
    ensures var rows := Committed(limits.threshold, ts, e).rows;
      rows[doc].lastPolled ==
        if e.Ticked? && doc in e.batch then Some(e.now) else if doc in ts.rows then ts.rows[doc].lastPolled else None
  {
    hide Committed, IncidentsOf;
    CommittedEffect(limits, ts, e, doc);
    if e.Ticked? && doc in e.batch {
      var k :| 0 <= k < |e.batch| && e.batch[k] == doc;
      assert Due(limits.threshold, ts.rows, e.now, e.batch[k]);
    }
  }

  lemma {:induction false} NotYetPolled(limits: Limits, log: seq<Entry>, doc: Doc)
    requires LogRight(limits, log) && doc !in Serial(limits.threshold, log).rows
    ensures LastPoll(log, doc) == None
  {
    hide Committed, ClaimedRight, IncidentsOf;
    if log != [] {
      var front, e := log[..|log| - 1], log[|log| - 1];
      CommittedEffect(limits, Serial(limits.threshold, front), e, doc);
      NotInBatch(limits, Serial(limits.threshold, front), e, doc);
      NotYetPolled(limits, front, doc);
    }
  }

  lemma NotInBatch(limits: Limits, ts: Tables, e: Entry, doc: Doc)
    requires ClaimedRight(limits, ts.rows, e) && doc !in ts.rows
    ensures e.Ticked? ==> doc !in e.batch
  {
  }

  /** Every incident records the first count past the threshold. */
  lemma {:induction false} IncidentsAtThreshold(limits: Limits, log: seq<Entry>)
    requires LogRight(limits, log)
    ensures forall x :: x in Serial(limits.threshold, log).incidents ==> x.failures == limits.threshold + 1
  {
    hide TickAlone, Crossings;
    if log != [] {
      var front, e := log[..|log| - 1], log[|log| - 1];
      IncidentsAtThreshold(limits, front);
      if e.Ticked? {
        var ts := Serial(limits.threshold, front);
        TickAloneIncidents(limits.threshold, ts, e.now, e.batch, e.oks);
        CrossingsAtThreshold(limits.threshold, ts.rows, e.batch, e.oks);
      }
    }
  }

  lemma {:induction false} CrossingsAtThreshold(threshold: nat, rows: map<Doc, Row>, batch: seq<Doc>, oks: seq<bool>)
    requires |oks| == |batch| && forall k :: 0 <= k < |batch| ==> batch[k] in rows && rows[batch[k]].failures <= threshold
    ensures forall x :: x in Crossings(threshold, rows, batch, oks) ==> x.failures == threshold + 1
    decreases |batch|
  {
    if batch != [] {
      CrossingsAtThreshold(threshold, rows, batch[..|batch| - 1], oks[..|batch| - 1]);
    }
  }
}
