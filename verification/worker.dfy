/** Whole ingestion workers: ticks whose polls change the stores of their documents. A database error in
    a poll leaves its transaction unusable, so that only a rollback can end the tick. */
module Workers {
  import opened Prelude
  import opened Schedule
  import Loops = ClaimLoops
  import Poll

  /** What fetching a document does: raise before anything is written, or return content or nothing. */
  datatype Fetch = Raised | Returned(content: Option<string>)

  /** The claim loop, the committed stores, the stores written by open ticks, and the ticks whose
      transaction is unusable. */
  datatype State = State(
    loop: Loops.State,
    stores: map<Doc, Poll.Store>,
    pending: map<Loops.Worker, map<Doc, Poll.Store>>,
    unusable: set<Loops.Worker>)

  const EMPTY: State := State(Loops.EMPTY, map[], map[], {})

  datatype Step =
    | Enroll(doc: Doc, next: int, cadence: int)
    | Claim(w: Loops.Worker, now: int, batch: seq<Doc>)
    | PollNext(w: Loops.Worker, fetch: Fetch, now: int)
    | Commit(w: Loops.Worker)
    | Abort(w: Loops.Worker)

  function StoreOf(s: State, doc: Doc): Poll.Store {
    if doc in s.stores then s.stores[doc] else Poll.EMPTY
  }

  function PendingOf(s: State, w: Loops.Worker): map<Doc, Poll.Store> {
    if w in s.pending then s.pending[w] else map[]
  }

  /** The store as the tick sees it. */
  function Seen(s: State, w: Loops.Worker, doc: Doc): Poll.Store {
    if doc in PendingOf(s, w) then PendingOf(s, w)[doc] else StoreOf(s, doc)
  }

  /** The document the tick of `w` polls next. */
  function NextDoc(s: State, w: Loops.Worker): Option<Doc> {
    if w in s.loop.txs && w !in s.unusable && |s.loop.txs[w].oks| < |s.loop.txs[w].batch|
    then Some(s.loop.txs[w].batch[|s.loop.txs[w].oks|]) else None
  }

  /** One poll of an open tick. */
  ghost function Polled(env: Poll.Env, limits: Limits, s: State, w: Loops.Worker, doc: Doc, fetch: Fetch, now: int): State
    requires Poll.ValidEnv(env)
  {
    match fetch
    case Raised => s.(loop := Loops.Next(limits, s.loop, Loops.Poll(w, false)))
    case Returned(content) =>
      var (store, outcome) := Poll.Polled(env, Seen(s, w, doc), content, now);
      if outcome == Poll.Rejected then s.(unusable := s.unusable + {w})
      else s.(loop := Loops.Next(limits, s.loop, Loops.Poll(w, true)), pending := s.pending[w := PendingOf(s, w)[doc := store]])
  }

  /** One step; a step that is not possible leaves the state as it is. */
  ghost function Next(env: Poll.Env, limits: Limits, s: State, step: Step): State
    requires Poll.ValidEnv(env)
  {
    match step
    case Enroll(doc, next, cadence) => s.(loop := Loops.Next(limits, s.loop, Loops.Enroll(doc, next, cadence)))
    case Claim(w, now, batch) =>
      if w in s.loop.txs then s
      else s.(loop := Loops.Next(limits, s.loop, Loops.Claim(w, now, batch)), pending := s.pending - {w}, unusable := s.unusable - {w})
    case PollNext(w, fetch, now) =>
      if NextDoc(s, w).None? then s else Polled(env, limits, s, w, NextDoc(s, w).value, fetch, now)
    case Commit(w) =>
      if w !in s.loop.txs || w in s.unusable || |s.loop.txs[w].oks| != |s.loop.txs[w].batch| then s
      else State(Loops.Next(limits, s.loop, Loops.Commit(w)), s.stores + PendingOf(s, w), s.pending - {w}, s.unusable)
    case Abort(w) =>
      State(Loops.Next(limits, s.loop, Loops.Abort(w)), s.stores, s.pending - {w}, s.unusable - {w})
  }

  ghost function Run(env: Poll.Env, limits: Limits, steps: seq<Step>): State
    requires Poll.ValidEnv(env)
  {
    if steps == [] then EMPTY else Next(env, limits, Run(env, limits, steps[..|steps| - 1]), steps[|steps| - 1])
  }

  // ----- the claim loop inside -----

  /** The documents a tick has polled. */
  function Done(tx: Loops.Tx): seq<Doc> {
    if |tx.oks| <= |tx.batch| then tx.batch[..|tx.oks|] else tx.batch
  }

  /** What an open tick has written is of documents it has polled. */
  predicate PendingPolled(s: State) {
    forall w, d :: w in s.loop.txs && d in PendingOf(s, w) ==> d in Done(s.loop.txs[w])
  }

  ghost predicate Inv(limits: Limits, s: State) {
    Loops.Inv(limits, s.loop) && PendingPolled(s)
  }

  /** Marking keeps the other ticks and adds one verdict. */
  lemma PollFields(limits: Limits, s: Loops.State, w: Loops.Worker, ok: bool)
    requires w in s.txs && |s.txs[w].oks| < |s.txs[w].batch|
    ensures var t := Loops.Next(limits, s, Loops.Poll(w, ok));
      && t.tables == s.tables && t.log == s.log && t.txs.Keys == s.txs.Keys
      && (forall v :: v in s.txs && v != w ==> t.txs[v] == s.txs[v])
      && Done(t.txs[w]) == Done(s.txs[w]) + [s.txs[w].batch[|s.txs[w].oks|]]
  {
    TakeSnoc(s.txs[w].batch, |s.txs[w].oks|);
  }

  lemma PolledKeepsInv(env: Poll.Env, limits: Limits, s: State, w: Loops.Worker, fetch: Fetch, now: int)
    requires Poll.ValidEnv(env) && Inv(limits, s) && NextDoc(s, w).Some?
    ensures Inv(limits, Polled(env, limits, s, w, NextDoc(s, w).value, fetch, now))
  {
    hide Loops.Inv, Loops.Next, Poll.Polled, Done;
    PollFields(limits, s.loop, w, false);
    PollFields(limits, s.loop, w, true);
    Loops.StepKeepsInv(limits, s.loop, Loops.Poll(w, false));
    Loops.StepKeepsInv(limits, s.loop, Loops.Poll(w, true));
  }

  lemma ClaimFields(limits: Limits, s: Loops.State, w: Loops.Worker, now: int, batch: seq<Doc>)
    requires w !in s.txs
    ensures var t := Loops.Next(limits, s, Loops.Claim(w, now, batch));
      && t.tables == s.tables && t.log == s.log
      && (forall v :: v in s.txs ==> v in t.txs && t.txs[v] == s.txs[v])
      && (forall v :: v in t.txs && v !in s.txs ==> v == w && t.txs[w] == Loops.Tx(now, batch, [], map[], []))
  {
    hide Loops.ClaimAnswer;
  }

  lemma CloseFields(limits: Limits, s: Loops.State, w: Loops.Worker)
    ensures Loops.Next(limits, s, Loops.Abort(w)).txs == s.txs - {w}
    ensures Loops.Next(limits, s, Loops.Abort(w)).tables == s.tables && Loops.Next(limits, s, Loops.Abort(w)).log == s.log
    ensures w in s.txs && |s.txs[w].oks| == |s.txs[w].batch| ==>
      var t := Loops.Next(limits, s, Loops.Commit(w));
      && t.txs == s.txs - {w} && t.log == s.log + [Ticked(s.txs[w].now, s.txs[w].batch, s.txs[w].oks)]
      && t.tables.rows == s.tables.rows + s.txs[w].writes
  {
  }

  lemma EnrollFields(limits: Limits, s: Loops.State, doc: Doc, next: int, cadence: int)
    ensures var t := Loops.Next(limits, s, Loops.Enroll(doc, next, cadence));
      && t.txs == s.txs && s.log <= t.log
      && (forall k :: |s.log| <= k < |t.log| ==> t.log[k].Enrolled?)
      && (forall d :: d in s.tables.rows ==> d in t.tables.rows && t.tables.rows[d] == s.tables.rows[d])
  {
  }

  lemma StepKeepsInv(env: Poll.Env, limits: Limits, s: State, step: Step)
    requires Poll.ValidEnv(env) && Inv(limits, s)
    ensures Inv(limits, Next(env, limits, s, step))
  {
    hide Loops.Inv, Loops.Next, Polled, Poll.ValidEnv;
    match step
    case Enroll(doc, next, cadence) =>
      EnrollFields(limits, s.loop, doc, next, cadence);
      Loops.StepKeepsInv(limits, s.loop, Loops.Enroll(doc, next, cadence));
    case Claim(w, now, batch) =>
      if w !in s.loop.txs {
        ClaimFields(limits, s.loop, w, now, batch);
        Loops.StepKeepsInv(limits, s.loop, Loops.Claim(w, now, batch));
      }
    case PollNext(w, fetch, now) =>
      if NextDoc(s, w).Some? {
        PolledKeepsInv(env, limits, s, w, fetch, now);
      }
    case Commit(w) =>
      CloseFields(limits, s.loop, w);
      Loops.StepKeepsInv(limits, s.loop, Loops.Commit(w));
    case Abort(w) =>
      CloseFields(limits, s.loop, w);
      Loops.StepKeepsInv(limits, s.loop, Loops.Abort(w));
  }

  lemma EmptyInv(limits: Limits)
    ensures Inv(limits, EMPTY)
  {
    Loops.RunSerializable(limits, []);
  }

  lemma {:induction false} RunInv(env: Poll.Env, limits: Limits, steps: seq<Step>)
    requires Poll.ValidEnv(env)
    ensures Inv(limits, Run(env, limits, steps))
  {
    hide Next, Inv, Poll.ValidEnv;
    EmptyInv(limits);
    if steps != [] {
      RunInv(env, limits, steps[..|steps| - 1]);
      StepKeepsInv(env, limits, Run(env, limits, steps[..|steps| - 1]), steps[|steps| - 1]);
    }
  }

  // ----- documents that are stuck -----

  /** A document with versions and none live. */
  ghost predicate Stuck(st: Poll.Store) {
    Poll.History(st) && st.versions != [] && !Poll.LastIsLive(st.versions)
  }

  /** Every poll that fetches content for it is refused. */
  lemma StuckRejects(env: Poll.Env, st: Poll.Store, content: string, now: int)
    requires Poll.ValidEnv(env) && Stuck(st)
    ensures Poll.Polled(env, st, Some(content), now) == (st, Poll.Rejected)
  {
    hide Poll.History, Poll.LiveBelow, Poll.NumberTaken, Poll.NextVersion;
    Poll.LiveIsLast(st);
    Poll.NextVersionFields(env, st, content, now);
    Poll.NumberTakenIff(st, 1);
  }

  /** The step polls the document and the fetch does not return content. */
  predicate Spared(s: State, step: Step, doc: Doc) {
    step.PollNext? && NextDoc(s, step.w) == Some(doc) && (step.fetch.Raised? || step.fetch.content.None?)
  }

  /** No open tick has got past the document, and its row, its store and the log below `base` are as
      they were; no later tick in the log has it in its batch. */
  ghost predicate Held(s: State, doc: Doc, row: Row, st: Poll.Store, base: nat) {
    && doc in s.loop.tables.rows && s.loop.tables.rows[doc] == row && StoreOf(s, doc) == st
    && (forall w :: w in s.loop.txs ==> doc !in Done(s.loop.txs[w]))
    && base <= |s.loop.log|
    && (forall k :: base <= k < |s.loop.log| && s.loop.log[k].Ticked? ==> doc !in s.loop.log[k].batch)
  }

  lemma WritesPolled(limits: Limits, s: State, w: Loops.Worker)
    requires Inv(limits, s) && w in s.loop.txs
    ensures forall d :: d in s.loop.txs[w].writes ==> d in Done(s.loop.txs[w])
  {
    hide LogRight, Serial, Crossings, RowAfter, Loops.LocksDisjoint;
    assert Loops.TxRight(limits, s.loop.tables.rows, s.loop.txs[w]);
  }

  lemma PollKeepsHeld(env: Poll.Env, limits: Limits, s: State, w: Loops.Worker, fetch: Fetch, now: int,
                      doc: Doc, row: Row, st: Poll.Store, base: nat)
    requires Poll.ValidEnv(env) && Inv(limits, s) && Stuck(st) && Held(s, doc, row, st, base)
    requires NextDoc(s, w).Some? && !Spared(s, PollNext(w, fetch, now), doc)
    ensures Held(Polled(env, limits, s, w, NextDoc(s, w).value, fetch, now), doc, row, st, base)
  {
    hide Loops.Inv, Loops.Next, Poll.Polled, Stuck, Done, Poll.ValidEnv;
    var next := NextDoc(s, w).value;
    PollFields(limits, s.loop, w, false);
    PollFields(limits, s.loop, w, true);
    if next == doc {
      assert doc !in PendingOf(s, w) && Seen(s, w, doc) == st;
      StuckRejects(env, st, fetch.content.value, now);
    }
  }

  lemma StepKeepsHeld(env: Poll.Env, limits: Limits, s: State, step: Step, doc: Doc, row: Row, st: Poll.Store, base: nat)
    requires Poll.ValidEnv(env) && Inv(limits, s) && Stuck(st) && Held(s, doc, row, st, base) && !Spared(s, step, doc)
    ensures Held(Next(env, limits, s, step), doc, row, st, base)
  {
    hide Loops.Inv, Loops.Next, Polled, Poll.ValidEnv, Stuck, Spared;
    match step
    case Enroll(d, next, cadence) => EnrollFields(limits, s.loop, d, next, cadence);
    case Claim(w, now, batch) =>
      if w !in s.loop.txs {
        ClaimFields(limits, s.loop, w, now, batch);
      }
    case PollNext(w, fetch, now) =>
      if NextDoc(s, w).Some? {
        PollKeepsHeld(env, limits, s, w, fetch, now, doc, row, st, base);
      }
    case Commit(w) =>
      CloseFields(limits, s.loop, w);
      if w in s.loop.txs && |s.loop.txs[w].oks| == |s.loop.txs[w].batch| {
        WritesPolled(limits, s, w);
        assert Done(s.loop.txs[w]) == s.loop.txs[w].batch;
        assert doc !in PendingOf(s, w);
      }
    case Abort(w) => CloseFields(limits, s.loop, w);
  }

  /** A stuck document stays stuck and stops its batch-mates: from a state where no tick holds it, and as
      long as every later poll of it fetches content, its row and its store never change, so it is never
      parked, and no tick that has it in its batch ever commits. */
  lemma {:induction false} StuckForGood(env: Poll.Env, limits: Limits, steps: seq<Step>, n: nat, doc: Doc)
    requires Poll.ValidEnv(env) && n <= |steps|
    requires var s := Run(env, limits, steps[..n]);
      Stuck(StoreOf(s, doc)) && doc in s.loop.tables.rows && !Loops.Locked(s.loop.txs, doc)
    requires forall k: nat :: n <= k < |steps| ==> !Spared(Run(env, limits, steps[..k]), steps[k], doc)
    ensures var was, s := Run(env, limits, steps[..n]), Run(env, limits, steps);
      && doc in s.loop.tables.rows && s.loop.tables.rows[doc] == was.loop.tables.rows[doc]
      && StoreOf(s, doc) == StoreOf(was, doc)
      && forall k :: |was.loop.log| <= k < |s.loop.log| && s.loop.log[k].Ticked? ==> doc !in s.loop.log[k].batch
  {
    hide Run, Stuck, Spared, Poll.ValidEnv;
    var was := Run(env, limits, steps[..n]);
    StaysHeld(env, limits, steps, n, doc, was.loop.tables.rows[doc], StoreOf(was, doc), |was.loop.log|);
  }

  lemma {:induction false} StaysHeld(env: Poll.Env, limits: Limits, steps: seq<Step>, n: nat, doc: Doc,
                                     row: Row, st: Poll.Store, base: nat)
    requires Poll.ValidEnv(env) && n <= |steps| && Stuck(st)
    requires Held(Run(env, limits, steps[..n]), doc, row, st, base)
    requires forall k: nat :: n <= k < |steps| ==> !Spared(Run(env, limits, steps[..k]), steps[k], doc)
    ensures Held(Run(env, limits, steps), doc, row, st, base)
  {
    hide Next, Held, Stuck, Spared, Poll.ValidEnv, Inv;
    if n == |steps| {
      assert steps[..n] == steps;
    } else {
      var front := steps[..|steps| - 1];
      forall k: nat | n <= k < |front|
        ensures !Spared(Run(env, limits, front[..k]), front[k], doc)
      {
        assert front[..k] == steps[..k];
      }
      assert front[..n] == steps[..n];
      StaysHeld(env, limits, front, n, doc, row, st, base);
      RunInv(env, limits, front);
      StepKeepsHeld(env, limits, Run(env, limits, front), steps[|steps| - 1], doc, row, st, base);
    }
  }

  // ----- what one poll does to its tick -----

  /** The verdict a poll leaves: a failure when it raises, a success when nothing was fetched or the content is
      taken in, none when the database refuses the content; and only then is the transaction unusable. */
  lemma PollVerdict(env: Poll.Env, limits: Limits, s: State, w: Loops.Worker, fetch: Fetch, now: int)
    requires Poll.ValidEnv(env) && NextDoc(s, w).Some?
    ensures var t, doc := Next(env, limits, s, PollNext(w, fetch, now)), NextDoc(s, w).value;
      var refused := fetch.Returned? && fetch.content.Some? && Poll.Polled(env, Seen(s, w, doc), fetch.content, now).1 == Poll.Rejected;
      && (w in t.unusable <==> refused)
      && w in t.loop.txs
      && t.loop.txs[w].oks == (if refused then s.loop.txs[w].oks else s.loop.txs[w].oks + [fetch.Returned?])
      && (fetch.Returned? && !refused ==>
            doc in PendingOf(t, w) && PendingOf(t, w)[doc] == Poll.Polled(env, Seen(s, w, doc), fetch.content, now).0)
      && (fetch.Raised? || refused ==> PendingOf(t, w) == PendingOf(s, w))
  {
    hide Poll.Polled, Loops.Next, Poll.ValidEnv;
    Verdict(limits, s.loop, w, true);
    Verdict(limits, s.loop, w, false);
    if fetch.Returned? && fetch.content.None? {
      NothingFetched(env, Seen(s, w, NextDoc(s, w).value), now);
    }
  }

  lemma NothingFetched(env: Poll.Env, st: Poll.Store, now: int)
    requires Poll.ValidEnv(env)
    ensures Poll.Polled(env, st, None, now) == (st, Poll.Skipped)
  {
  }

  lemma Verdict(limits: Limits, s: Loops.State, w: Loops.Worker, ok: bool)
    requires w in s.txs && |s.txs[w].oks| < |s.txs[w].batch|
    ensures var t := Loops.Next(limits, s, Loops.Poll(w, ok)); w in t.txs && t.txs[w].oks == s.txs[w].oks + [ok]
  {
  }

  // ----- every store is a run of polls -----

  /** `after` is what one poll makes of `before`. */
  ghost predicate OnePoll(env: Poll.Env, before: Poll.Store, after: Poll.Store)
    requires Poll.ValidEnv(env)
  {
    exists content: Option<string>, now: int :: after == Poll.Polled(env, before, content, now).0
  }

  /** Whatever an open tick has written of a document is one poll of the committed store. */
  ghost predicate PendingFresh(env: Poll.Env, s: State)
    requires Poll.ValidEnv(env)
  {
    forall w, d :: w in s.loop.txs && d in PendingOf(s, w) ==> OnePoll(env, StoreOf(s, d), PendingOf(s, w)[d])
  }

  lemma NotDoneTwice(limits: Limits, s: State, w: Loops.Worker)
    requires Inv(limits, s) && NextDoc(s, w).Some?
    ensures NextDoc(s, w).value !in PendingOf(s, w)
  {
    hide LogRight, Serial, Crossings, RowAfter, Loops.LocksDisjoint;
    assert Loops.TxRight(limits, s.loop.tables.rows, s.loop.txs[w]);
    var tx := s.loop.txs[w];
    assert NoDuplicates(tx.batch) && tx.batch[|tx.oks|] == NextDoc(s, w).value;
    assert NextDoc(s, w).value !in Done(tx);
  }

  lemma PollKeepsFresh(env: Poll.Env, limits: Limits, s: State, w: Loops.Worker, fetch: Fetch, now: int)
    requires Poll.ValidEnv(env) && Inv(limits, s) && PendingFresh(env, s) && NextDoc(s, w).Some?
    ensures PendingFresh(env, Polled(env, limits, s, w, NextDoc(s, w).value, fetch, now))
  {
    hide Loops.Inv, Loops.Next, Poll.Polled, Done, Poll.ValidEnv, OnePoll;
    var doc := NextDoc(s, w).value;
    PollFields(limits, s.loop, w, false);
    PollFields(limits, s.loop, w, true);
    NotDoneTwice(limits, s, w);
    var t := Polled(env, limits, s, w, doc, fetch, now);
    forall v, d | v in t.loop.txs && d in PendingOf(t, v)
      ensures OnePoll(env, StoreOf(t, d), PendingOf(t, v)[d])
    {
      assert v in s.loop.txs && StoreOf(t, d) == StoreOf(s, d);
      if d in PendingOf(s, v) && (v != w || d != doc) {
        assert OnePoll(env, StoreOf(s, d), PendingOf(s, v)[d]);
      } else {
        PolledOnce(env, StoreOf(s, doc), fetch.content, now);
      }
    }
  }

  lemma PolledOnce(env: Poll.Env, st: Poll.Store, content: Option<string>, now: int)
    requires Poll.ValidEnv(env)
    ensures OnePoll(env, st, Poll.Polled(env, st, content, now).0)
  {
    hide Poll.Polled;
  }

  /** No other open tick has written what a committing tick writes. */
  lemma PendingApart(limits: Limits, s: State, v: Loops.Worker, w: Loops.Worker, d: Doc)
    requires Inv(limits, s) && v in s.loop.txs && w in s.loop.txs
    requires d in PendingOf(s, v) && d in PendingOf(s, w)
    ensures v == w
  {
    hide LogRight, Serial, Loops.TxRight;
    assert d in Done(s.loop.txs[v]) && d in Done(s.loop.txs[w]);
    assert d in s.loop.txs[v].batch && d in s.loop.txs[w].batch;
  }

  lemma CommitKeepsFresh(env: Poll.Env, limits: Limits, s: State, w: Loops.Worker)
    requires Poll.ValidEnv(env) && Inv(limits, s) && PendingFresh(env, s)
    ensures PendingFresh(env, Next(env, limits, s, Commit(w)))
  {
    hide Inv, Loops.Next, Poll.ValidEnv, OnePoll;
    CloseFields(limits, s.loop, w);
    var t := Next(env, limits, s, Commit(w));
    forall v, d | v in t.loop.txs && d in PendingOf(t, v)
      ensures OnePoll(env, StoreOf(t, d), PendingOf(t, v)[d])
    {
      assert v in s.loop.txs && d in PendingOf(s, v);
      assert OnePoll(env, StoreOf(s, d), PendingOf(s, v)[d]);
      if w in s.loop.txs && d in PendingOf(s, w) {
        PendingApart(limits, s, v, w, d);
      }
      assert PendingOf(t, v) == PendingOf(s, v) && StoreOf(t, d) == StoreOf(s, d);
    }
  }

  /** Without a change to the stores, ticks may keep or drop what they have written. */
  lemma FreshFrame(env: Poll.Env, s: State, t: State)
    requires Poll.ValidEnv(env) && PendingFresh(env, s) && t.stores == s.stores
    requires forall v :: v in t.loop.txs && PendingOf(t, v) != map[] ==> v in s.loop.txs && PendingOf(t, v) == PendingOf(s, v)
    ensures PendingFresh(env, t)
  {
    hide Poll.ValidEnv, OnePoll;
    forall v, d | v in t.loop.txs && d in PendingOf(t, v)
      ensures OnePoll(env, StoreOf(t, d), PendingOf(t, v)[d])
    {
      assert OnePoll(env, StoreOf(s, d), PendingOf(s, v)[d]);
    }
  }

  lemma StepKeepsFresh(env: Poll.Env, limits: Limits, s: State, step: Step)
    requires Poll.ValidEnv(env) && Inv(limits, s) && PendingFresh(env, s)
    ensures PendingFresh(env, Next(env, limits, s, step))
  {
    hide Inv, Loops.Next, Polled, Poll.ValidEnv, OnePoll;
    match step
    case Enroll(doc, next, cadence) =>
      EnrollFields(limits, s.loop, doc, next, cadence);
      FreshFrame(env, s, Next(env, limits, s, step));
    case Claim(w, now, batch) =>
      if w !in s.loop.txs {
        ClaimFields(limits, s.loop, w, now, batch);
        FreshFrame(env, s, Next(env, limits, s, step));
      }
    case PollNext(w, fetch, now) =>
      if NextDoc(s, w).Some? {
        PollKeepsFresh(env, limits, s, w, fetch, now);
      }
    case Commit(w) => CommitKeepsFresh(env, limits, s, w);
    case Abort(w) =>
      CloseFields(limits, s.loop, w);
      FreshFrame(env, s, Next(env, limits, s, step));
  }

  lemma {:induction false} RunFresh(env: Poll.Env, limits: Limits, steps: seq<Step>)
    requires Poll.ValidEnv(env)
    ensures PendingFresh(env, Run(env, limits, steps))
  {
    hide Next, Inv, Poll.ValidEnv, OnePoll;
    if steps != [] {
      RunFresh(env, limits, steps[..|steps| - 1]);
      RunInv(env, limits, steps[..|steps| - 1]);
      StepKeepsFresh(env, limits, Run(env, limits, steps[..|steps| - 1]), steps[|steps| - 1]);
    }
  }

  /** No update is lost: a step leaves a document's committed store as it is, or is a commit that puts one
      poll of that very store in its place. */
  lemma StoreStep(env: Poll.Env, limits: Limits, s: State, step: Step, doc: Doc)
    requires Poll.ValidEnv(env) && PendingFresh(env, s)
    ensures var before, after := StoreOf(s, doc), StoreOf(Next(env, limits, s, step), doc);
      after == before || (step.Commit? && OnePoll(env, before, after))
  {
    hide Loops.Next, Poll.Polled, Poll.ValidEnv, OnePoll;
  }

  /** Over every interleaving of workers, each document's committed store is what some sequence of polls,
      one after the other from nothing, makes of it; so all that holds of single documents over runs of
      polls holds of it. */
  lemma {:induction false} StoresAreRuns(env: Poll.Env, limits: Limits, steps: seq<Step>, doc: Doc) returns (polls: seq<Poll.PollInput>)
    requires Poll.ValidEnv(env)
    ensures StoreOf(Run(env, limits, steps), doc) == Poll.Run(env, polls)
    ensures Poll.History(StoreOf(Run(env, limits, steps), doc))
  {
    hide Next, Poll.ValidEnv, Poll.Polled, Poll.History;
    if steps == [] {
      polls := [];
    } else {
      var front, step := steps[..|steps| - 1], steps[|steps| - 1];
      polls := StoresAreRuns(env, limits, front, doc);
      RunFresh(env, limits, front);
      StoreStep(env, limits, Run(env, limits, front), step, doc);
      if StoreOf(Run(env, limits, steps), doc) != StoreOf(Run(env, limits, front), doc) {
        var content, now :| StoreOf(Run(env, limits, steps), doc)
          == Poll.Polled(env, StoreOf(Run(env, limits, front), doc), content, now).0;
        var more := polls + [Poll.PollInput(content, now)];
        assert more[..|more| - 1] == polls;
        polls := more;
      }
    }
    Poll.RunHistory(env, polls);
  }
}
