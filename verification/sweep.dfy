/** Polls and sweeps as interleaved steps over one blob container: uploads, version rows held back
    by open transactions, and a sweep that works from an old snapshot of the version rows. */
module Sweep {
  import opened Prelude
  import opened Blobs

  type Worker = nat

  /** The naming convention of the poll body's uploads: every content gets a content-addressed key. */
  ghost predicate ValidNaming(keyOf: Bytes -> string) {
    forall b :: IsContentAddressedKey(keyOf(b))
  }

  /** One open transaction: keys uploaded since it began, keys of the version rows it has inserted. */
  datatype Tx = Tx(uploads: set<string>, rows: set<string>)

  datatype Phase =
    | Idle
    | Snapped(referenced: set<string>)
    | Listed(referenced: set<string>, todo: set<string>)

  /** `touched` is bookkeeping: keys some open transaction has uploaded at any time since the
      current sweep took its snapshot. */
  datatype State = State(
    blobs: map<string, Bytes>,
    committed: set<string>,
    txs: map<Worker, Tx>,
    sweep: Phase,
    touched: set<string>)

  const EMPTY: State := State(map[], {}, map[], Idle, {})

  datatype Step =
    | Upload(w: Worker, body: Bytes)
    | InsertVersion(w: Worker, key: string)
    | Commit(w: Worker)
    | Rollback(w: Worker)
    | Snapshot
    | List
    | Visit(key: string)
    | EndSweep
    | PlaceArtefact(key: string, body: Bytes)

  function TxOf(s: State, w: Worker): Tx {
    if w in s.txs then s.txs[w] else Tx({}, {})
  }

  /** Keys that some open transaction has uploaded. */
  function Held(txs: map<Worker, Tx>): set<string> {
    set w, k | w in txs && k in txs[w].uploads :: k
  }

  /** Visiting `key` deletes it. */
  predicate Deletes(s: State, key: string) {
    s.sweep.Listed? && key in s.sweep.todo && Reclaims(s.sweep.referenced, key)
  }

  /** One step; a step that is not possible leaves the state as it is. */
  function Next(keyOf: Bytes -> string, s: State, step: Step): State {
    match step
    case Upload(w, body) =>
      var key := keyOf(body);
      if key in s.blobs && s.blobs[key] != body then s  // the store refuses
      else
        var tx := TxOf(s, w);
        s.(blobs := s.blobs[key := body], txs := s.txs[w := tx.(uploads := tx.uploads + {key})], touched := s.touched + {key})
    case InsertVersion(w, key) =>
      if w in s.txs && key in s.txs[w].uploads then s.(txs := s.txs[w := s.txs[w].(rows := s.txs[w].rows + {key})]) else s
    case Commit(w) => s.(committed := s.committed + TxOf(s, w).rows, txs := s.txs - {w})
    case Rollback(w) => s.(txs := s.txs - {w})
    case Snapshot => if s.sweep.Idle? then s.(sweep := Snapped(s.committed), touched := Held(s.txs)) else s
    case List => if s.sweep.Snapped? then s.(sweep := Listed(s.sweep.referenced, s.blobs.Keys)) else s
    case Visit(key) =>
      if s.sweep.Listed? && key in s.sweep.todo then
        s.(blobs := if Reclaims(s.sweep.referenced, key) then s.blobs - {key} else s.blobs,
           sweep := Listed(s.sweep.referenced, s.sweep.todo - {key}))
      else s
    case EndSweep => s.(sweep := Idle)
    case PlaceArtefact(key, body) => if IsContentAddressedKey(key) then s else s.(blobs := s.blobs[key := body])
  }

  function Run(keyOf: Bytes -> string, steps: seq<Step>): State {
    if steps == [] then EMPTY else Next(keyOf, Run(keyOf, steps[..|steps| - 1]), steps[|steps| - 1])
  }

  /** A blob a version needs: committed, or uploaded by a transaction that may still commit it. */
  predicate InUse(s: State, key: string) {
    key in s.committed || key in Held(s.txs)
  }

  /** Every key in use has its blob, under the name its bytes give it. */
  ghost predicate Kept(keyOf: Bytes -> string, s: State) {
    forall k :: InUse(s, k) ==> k in s.blobs && keyOf(s.blobs[k]) == k
  }

  /** Version rows are of keys their transaction uploaded. */
  predicate RowsUploaded(s: State) {
    forall w :: w in s.txs ==> s.txs[w].rows <= s.txs[w].uploads
  }

  /** During a sweep, whatever is in use was in the snapshot or has been touched since. */
  predicate SnapshotCovers(s: State) {
    !s.sweep.Idle? ==> s.committed <= s.sweep.referenced + s.touched && Held(s.txs) <= s.touched
  }

  /** The step deletes a key in use. */
  predicate DeletesInUse(s: State, step: Step) {
    step.Visit? && Deletes(s, step.key) && InUse(s, step.key)
  }

  lemma HeldBy(txs: map<Worker, Tx>, w: Worker)
    requires w in txs
    ensures txs[w].uploads <= Held(txs)
  {
  }

  /** A transaction that changes changes the held keys by its own uploads only. */
  lemma HeldAfterUpdate(txs: map<Worker, Tx>, w: Worker, tx: Tx)
    requires w in txs ==> txs[w].uploads <= tx.uploads
    ensures Held(txs[w := tx]) == Held(txs) + tx.uploads
  {
    var after := txs[w := tx];
    forall k | k in Held(txs) + tx.uploads
      ensures k in Held(after)
    {
      if k in tx.uploads {
        assert w in after && k in after[w].uploads;
      } else {
        var v :| v in txs && k in txs[v].uploads;
        assert v in after && k in after[v].uploads;
      }
    }
  }

  lemma HeldAfterClose(txs: map<Worker, Tx>, w: Worker)
    ensures Held(txs - {w}) <= Held(txs)
  {
  }

  lemma InUseAddressed(keyOf: Bytes -> string, s: State, key: string)
    requires ValidNaming(keyOf) && Kept(keyOf, s) && InUse(s, key)
    ensures IsContentAddressedKey(key)
  {
    hide IsContentAddressedKey;
    assert IsContentAddressedKey(keyOf(s.blobs[key]));
  }

  /** One step keeps every key in use exactly when it does not delete one. */
  lemma StepKeepsIff(keyOf: Bytes -> string, s: State, step: Step)
    requires ValidNaming(keyOf) && Kept(keyOf, s) && RowsUploaded(s)
    ensures Kept(keyOf, Next(keyOf, s, step)) <==> !DeletesInUse(s, step)
  {
    hide IsContentAddressedKey, Held, Reclaims;
    match step
    case Upload(w, body) =>
      var tx := TxOf(s, w);
      HeldAfterUpdate(s.txs, w, tx.(uploads := tx.uploads + {keyOf(body)}));
      if w in s.txs {
        HeldBy(s.txs, w);
      }
    case InsertVersion(w, key) =>
      if w in s.txs {
        HeldAfterUpdate(s.txs, w, s.txs[w].(rows := s.txs[w].rows + {key}));
        HeldBy(s.txs, w);
      }
    case Commit(w) =>
      HeldAfterClose(s.txs, w);
      if w in s.txs {
        HeldBy(s.txs, w);
      }
    case Rollback(w) => HeldAfterClose(s.txs, w);
    case PlaceArtefact(key, body) =>
      if InUse(s, key) {
        InUseAddressed(keyOf, s, key);
      }
    case Visit(key) =>
      if DeletesInUse(s, step) {
        assert InUse(Next(keyOf, s, step), key);
      }
    case _ =>
  }

  /** Rows stay uploaded and snapshots keep covering, whatever the step. */
  lemma StepKeepsCover(keyOf: Bytes -> string, s: State, step: Step)
    requires RowsUploaded(s) && SnapshotCovers(s)
    ensures RowsUploaded(Next(keyOf, s, step)) && SnapshotCovers(Next(keyOf, s, step))
  {
    hide Held, Reclaims;
    HeldIsTouched(keyOf, s, step);
    if step.Commit? && step.w in s.txs {
      HeldBy(s.txs, step.w);
    }
  }

  // ----- whole runs -----

  /** Number of steps up to and including the one that took the current sweep's snapshot. */
  function SweepStart(keyOf: Bytes -> string, steps: seq<Step>): (n: nat)
    ensures n <= |steps|
  {
    if steps == [] then 0 else
      var front := steps[..|steps| - 1];
      if steps[|front|].Snapshot? && Run(keyOf, front).sweep.Idle? then |steps| else SweepStart(keyOf, front)
  }

  /** Some transaction's upload-to-commit span on `key` meets the current sweep, from its snapshot
      to now. */
  predicate SpanMeets(keyOf: Bytes -> string, steps: seq<Step>, key: string) {
    exists m :: SweepStart(keyOf, steps) <= m <= |steps| && key in Held(Run(keyOf, steps[..m]).txs)
  }

  /** Step `n` is no deletion of a key whose upload-to-commit span meets the sweep. */
  predicate Apart(keyOf: Bytes -> string, steps: seq<Step>, n: nat)
    requires n < |steps|
  {
    steps[n].Visit? && Deletes(Run(keyOf, steps[..n]), steps[n].key) ==> !SpanMeets(keyOf, steps[..n], steps[n].key)
  }

  lemma HeldIsTouched(keyOf: Bytes -> string, s: State, step: Step)
    requires !s.sweep.Idle? ==> Held(s.txs) <= s.touched
    ensures !Next(keyOf, s, step).sweep.Idle? ==> Held(Next(keyOf, s, step).txs) <= Next(keyOf, s, step).touched
    ensures Next(keyOf, s, step).touched <= s.touched + Held(Next(keyOf, s, step).txs)
    ensures s.touched <= Next(keyOf, s, step).touched || (step.Snapshot? && s.sweep.Idle?)
  {
    hide Held;
    match step
    case Upload(w, body) =>
      var tx := TxOf(s, w);
      HeldAfterUpdate(s.txs, w, tx.(uploads := tx.uploads + {keyOf(body)}));
      if w in s.txs {
        HeldBy(s.txs, w);
      }
    case InsertVersion(w, key) =>
      if w in s.txs {
        HeldAfterUpdate(s.txs, w, s.txs[w].(rows := s.txs[w].rows + {key}));
        HeldBy(s.txs, w);
      }
    case Commit(w) => HeldAfterClose(s.txs, w);
    case Rollback(w) => HeldAfterClose(s.txs, w);
    case _ =>
  }

  lemma {:induction false} HeldIsTouchedInRuns(keyOf: Bytes -> string, steps: seq<Step>)
    ensures var s := Run(keyOf, steps); !s.sweep.Idle? ==> Held(s.txs) <= s.touched
  {
    hide Next, Held;
    if steps != [] {
      HeldIsTouchedInRuns(keyOf, steps[..|steps| - 1]);
      HeldIsTouched(keyOf, Run(keyOf, steps[..|steps| - 1]), steps[|steps| - 1]);
    }
  }

  lemma SweepGoesOn(keyOf: Bytes -> string, s: State, step: Step)
    requires !Next(keyOf, s, step).sweep.Idle?
    ensures if step.Snapshot? && s.sweep.Idle? then Next(keyOf, s, step) == s.(sweep := Snapped(s.committed), touched := Held(s.txs))
            else !s.sweep.Idle?
  {
  }

  /** The bookkeeping field means what it says. */
  lemma {:induction false} TouchedIff(keyOf: Bytes -> string, steps: seq<Step>, key: string)
    requires !Run(keyOf, steps).sweep.Idle?
    ensures key in Run(keyOf, steps).touched <==> SpanMeets(keyOf, steps, key)
  {
    hide Next, Held;
    var front, n := steps[..|steps| - 1], |steps| - 1;
    var s, t := Run(keyOf, front), Run(keyOf, steps);
    assert steps[..|steps|] == steps;
    HeldIsTouchedInRuns(keyOf, front);
    HeldIsTouched(keyOf, s, steps[n]);
    SweepGoesOn(keyOf, s, steps[n]);
    if !(steps[n].Snapshot? && s.sweep.Idle?) {
      TouchedIff(keyOf, front, key);
      assert forall m: nat :: m <= n ==> front[..m] == steps[..m];
    }
  }

  lemma EmptyKept(keyOf: Bytes -> string)
    ensures Kept(keyOf, EMPTY) && RowsUploaded(EMPTY) && SnapshotCovers(EMPTY)
  {
  }

  lemma {:induction false} RunCovers(keyOf: Bytes -> string, steps: seq<Step>)
    ensures RowsUploaded(Run(keyOf, steps)) && SnapshotCovers(Run(keyOf, steps))
  {
    hide Next, RowsUploaded, SnapshotCovers;
    EmptyKept(keyOf);
    if steps != [] {
      RunCovers(keyOf, steps[..|steps| - 1]);
      StepKeepsCover(keyOf, Run(keyOf, steps[..|steps| - 1]), steps[|steps| - 1]);
    }
  }

  /** Every key in use has its blob, throughout the run. */
  ghost predicate KeptThroughout(keyOf: Bytes -> string, steps: seq<Step>) {
    forall m: nat :: m <= |steps| ==> Kept(keyOf, Run(keyOf, steps[..m]))
  }

  /** No step of the run deletes a key in use. */
  predicate NeverDeletesInUse(keyOf: Bytes -> string, steps: seq<Step>) {
    forall n: nat :: n < |steps| ==> !DeletesInUse(Run(keyOf, steps[..n]), steps[n])
  }

  lemma KeptSnoc(keyOf: Bytes -> string, steps: seq<Step>)
    requires steps != []
    ensures KeptThroughout(keyOf, steps) <==> KeptThroughout(keyOf, steps[..|steps| - 1]) && Kept(keyOf, Run(keyOf, steps))
  {
    hide Run, Kept;
    var front := steps[..|steps| - 1];
    assert steps[..|steps|] == steps;
    forall m: nat | m <= |front|
      ensures front[..m] == steps[..m]
    {
    }
  }

  lemma DeletesSnoc(keyOf: Bytes -> string, steps: seq<Step>)
    requires steps != []
    ensures NeverDeletesInUse(keyOf, steps) <==>
      NeverDeletesInUse(keyOf, steps[..|steps| - 1]) && !DeletesInUse(Run(keyOf, steps[..|steps| - 1]), steps[|steps| - 1])
  {
    hide Run, DeletesInUse;
    var front := steps[..|steps| - 1];
    forall m: nat | m < |front|
      ensures front[..m] == steps[..m] && front[m] == steps[m]
    {
    }
  }

  /** Over every interleaving of polls and sweeps, exactly when no blob in use is ever lost: no visit
      deletes a key that is committed, or uploaded by an open transaction, at that moment. */
  lemma {:induction false} KeptIff(keyOf: Bytes -> string, steps: seq<Step>)
    requires ValidNaming(keyOf)
    ensures KeptThroughout(keyOf, steps) <==> NeverDeletesInUse(keyOf, steps)
  {
    hide Next, Kept, DeletesInUse, ValidNaming, RowsUploaded, SnapshotCovers, KeptThroughout, NeverDeletesInUse;
    if steps == [] {
      NothingDeleted(keyOf);
    } else {
      var front := steps[..|steps| - 1];
      KeptIff(keyOf, front);
      KeptSnoc(keyOf, steps);
      DeletesSnoc(keyOf, steps);
      RunCovers(keyOf, front);
      if KeptThroughout(keyOf, front) {
        LastKept(keyOf, front);
        StepKeepsIff(keyOf, Run(keyOf, front), steps[|steps| - 1]);
      }
    }
  }

  lemma NothingDeleted(keyOf: Bytes -> string)
    ensures KeptThroughout(keyOf, []) && NeverDeletesInUse(keyOf, [])
  {
    hide Kept;
    EmptyKept(keyOf);
    var none: seq<Step> := [];
    assert forall m: nat :: m <= |none| ==> none[..m] == [];
  }

  lemma LastKept(keyOf: Bytes -> string, steps: seq<Step>)
    requires KeptThroughout(keyOf, steps)
    ensures Kept(keyOf, Run(keyOf, steps))
  {
    hide Kept, Run;
    assert steps[..|steps|] == steps;
  }

  /** A deletion of a key in use falls inside an upload-to-commit span that meets its sweep. */
  lemma InUseMeets(keyOf: Bytes -> string, steps: seq<Step>, n: nat)
    requires n < |steps| && Apart(keyOf, steps, n)
    ensures !DeletesInUse(Run(keyOf, steps[..n]), steps[n])
  {
    hide Run, Held, SpanMeets;
    var s := Run(keyOf, steps[..n]);
    if DeletesInUse(s, steps[n]) {
      RunCovers(keyOf, steps[..n]);
      TouchedIff(keyOf, steps[..n], steps[n].key);
    }
  }

  /** In every interleaving of polls and sweeps where no upload-to-commit span on a key meets the
      snapshot-to-delete span of its deletion, every committed version's blob is present throughout. */
  lemma NoBlobLost(keyOf: Bytes -> string, steps: seq<Step>, m: nat, key: string)
    requires ValidNaming(keyOf) && forall n: nat :: n < |steps| ==> Apart(keyOf, steps, n)
    requires m <= |steps| && key in Run(keyOf, steps[..m]).committed
    ensures key in Run(keyOf, steps[..m]).blobs && keyOf(Run(keyOf, steps[..m]).blobs[key]) == key
  {
    hide Run, Apart, ValidNaming, DeletesInUse;
    forall n: nat | n < |steps|
      ensures !DeletesInUse(Run(keyOf, steps[..n]), steps[n])
    {
      InUseMeets(keyOf, steps, n);
    }
    KeptIff(keyOf, steps);
    assert InUse(Run(keyOf, steps[..m]), key);
  }

  // ----- what a harmful deletion leads to -----

  /** Deleting a key in use is harmful: the version is committed already, or the transaction that
      uploaded it can go on to commit one, without its blob. */
  lemma DeletedInUseLoses(keyOf: Bytes -> string, s: State, key: string) returns (w: Worker)
    requires InUse(s, key) && key !in s.blobs && RowsUploaded(s)
    ensures var t := if key in s.committed then s else Next(keyOf, Next(keyOf, s, InsertVersion(w, key)), Commit(w));
      key in t.committed && key !in t.blobs
  {
    if key in s.committed {
      return 0;
    }
    w :| w in s.txs && key in s.txs[w].uploads;
  }

  /** The race the design accepts, on any content: upload, then a whole sweep, then the commit. */
  lemma RaceLoses(keyOf: Bytes -> string, body: Bytes)
    requires ValidNaming(keyOf)
    ensures var key := keyOf(body);
      var listed := Next(keyOf, Next(keyOf, Next(keyOf, EMPTY, Upload(0, body)), Snapshot), List);
      var swept := Next(keyOf, Next(keyOf, listed, Visit(key)), EndSweep);
      var t := Next(keyOf, Next(keyOf, swept, InsertVersion(0, key)), Commit(0));
      t.committed == {key} && t.blobs == map[]
  {
    hide IsContentAddressedKey;
    var key := keyOf(body);
    assert IsContentAddressedKey(key);
    var listed := Next(keyOf, Next(keyOf, Next(keyOf, EMPTY, Upload(0, body)), Snapshot), List);
    assert Next(keyOf, listed, Visit(key)).blobs == map[];
  }

  // ----- what a sweep may delete -----

  /** Only a visit removes a blob, and never one its snapshot references nor one of another shape. */
  lemma OnlyVisitsDelete(keyOf: Bytes -> string, s: State, step: Step, key: string)
    requires key in s.blobs && key !in Next(keyOf, s, step).blobs
    ensures step == Visit(key) && s.sweep.Listed? && key !in s.sweep.referenced && IsContentAddressedKey(key)
  {
    hide IsContentAddressedKey, Held;
  }

  /** A content-addressed blob that stays in the store keeps its bytes: an upload of other bytes under its key
      is refused. */
  lemma BytesStay(keyOf: Bytes -> string, s: State, step: Step, key: string)
    requires key in s.blobs && key in Next(keyOf, s, step).blobs && IsContentAddressedKey(key)
    ensures Next(keyOf, s, step).blobs[key] == s.blobs[key]
  {
    hide IsContentAddressedKey, Held;
  }

  /** Only a commit publishes version rows, and only those of its own transaction. */
  lemma OnlyCommitsPublish(keyOf: Bytes -> string, s: State, step: Step)
    ensures Next(keyOf, s, step).committed ==
      if step.Commit? && step.w in s.txs then s.committed + s.txs[step.w].rows else s.committed
  {
    hide IsContentAddressedKey, Held;
  }

  /** Visits each key in turn. */
  function VisitKeys(keyOf: Bytes -> string, s: State, keys: seq<string>): State {
    if keys == [] then s else Next(keyOf, VisitKeys(keyOf, s, keys[..|keys| - 1]), Visit(keys[|keys| - 1]))
  }

  lemma {:induction false} VisitKeysReclaims(keyOf: Bytes -> string, s: State, keys: seq<string>)
    requires s.sweep.Listed? && NoDuplicates(keys)
    requires s.sweep.todo == s.blobs.Keys && forall k :: k in keys ==> k in s.blobs
    ensures var t := VisitKeys(keyOf, s, keys);
      && t.sweep.Listed? && t.sweep.referenced == s.sweep.referenced && t.committed == s.committed && t.txs == s.txs
      && (forall k :: k in t.sweep.todo <==> k in s.sweep.todo && k !in keys)
      && t.blobs == s.blobs - Reclaimed(keys, s.sweep.referenced)
  {
    hide Reclaims, Reclaimed;
    if keys == [] {
      NothingReclaimed(s.blobs, s.sweep.referenced);
    } else {
      var front, key := keys[..|keys| - 1], keys[|keys| - 1];
      TakeSnoc(keys, |front|);
      assert keys[..|front| + 1] == keys && key in keys;
      VisitKeysReclaims(keyOf, s, front);
      ReclaimedStep(s.blobs, front, key, s.sweep.referenced);
    }
  }

  /** A quiet sweep, its steps undisturbed, does what the sweep loop's pass does alone: the
      content-addressed blobs left are exactly those of committed versions, and every other blob is
      untouched. */
  lemma QuietSweep(keyOf: Bytes -> string, s: State, keys: seq<string>)
    requires s.sweep.Idle? && NoDuplicates(keys) && forall k :: k in keys <==> k in s.blobs
    ensures var t := Next(keyOf, VisitKeys(keyOf, Next(keyOf, Next(keyOf, s, Snapshot), List), keys), EndSweep);
      && t.blobs == Swept(s.blobs, s.committed) && t.committed == s.committed && t.txs == s.txs && t.sweep.Idle?
      && forall k :: k in t.blobs <==> k in s.blobs && (IsContentAddressedKey(k) ==> k in s.committed)
  {
    hide IsContentAddressedKey, Held, VisitKeys;
    var listed := Next(keyOf, Next(keyOf, s, Snapshot), List);
    VisitKeysReclaims(keyOf, listed, keys);
    AllReclaimed(s.blobs, keys, s.committed);
  }
}
