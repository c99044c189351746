/**
 Runs of the label store: batches accepted, refused, or refused with part of them in the
 log, reads of the log that fail, and cached indexes dropped. When the store stays in step
 with its log, and when one that fell out of step is in step again.
 */
module StoreRuns {
  import opened Options
  import opened LabelLog
  import opened LabelBatch
  import opened LabelIngest
  import opened LabelRuns
  import opened LabelFailures
  import opened LabelReads

  /******* Steps and runs *******/

  /** A batch sent, refused by contract or probe or not; or the index dropped, by another writer or a restart. */
  datatype Step =
    | Sent(client: string, rows: seq<Row>, refused: bool, env: IngestEnv, status: MirrorStatus)
    | Dropped

  function RecordsOf(step: Step, kind: string): seq<LabelRecord>
    requires step.Sent?
  {
    AcceptedRecords(step.rows, step.client, kind, step.env.stamp)
  }

  /** What `Ingest` promises of a batch whose rows fit the contract exactly if it is not refused. */
  ghost predicate StoreStep(before: Snapshot, after: Snapshot, step: Step, names: seq<string>, kind: string) {
    match step
    case Dropped => after == Reopened(before)
    case Sent(_, _, refused, env, status) =>
      var start, recs := Loaded(before, env.indexReads), RecordsOf(step, kind);
      if refused then after == before
      else if LogAccepts(start, env, recs) then AcceptedStep(start, after, env, status, names, recs)
      else after == AfterIoError(start, recs, env.landed)
  }

  ghost predicate IsStoreRun(snaps: seq<Snapshot>, steps: seq<Step>, names: seq<string>, kind: string) {
    && |snaps| == |steps| + 1
    && forall i | 0 <= i < |steps| :: StoreStep(snaps[i], snaps[i + 1], steps[i], names, kind)
  }

  ghost predicate StepFixed(step: Step, kind: string, inputs: Key -> Inputs) {
    step.Sent? ==> RecordsFixed(RecordsOf(step, kind), inputs)
  }

  /******* When a step keeps the store in step *******/

  /** The store knows its log, and the mirror is exact or marked. */
  ghost predicate InStep(s: Snapshot, names: seq<string>) {
    Synced(s) && Reconciled(s, names)
  }

  /** Every known label is sent again, and what is sent of it wins or is the same record. */
  ghost predicate AllSentAgain(l: Index, recs: seq<LabelRecord>) {
    var r := UpsertAll(map[], recs);
    forall k <- l :: k in r && (r[k] == l[k] || r[k].row.revision > l[k].row.revision)
  }

  /** After the log step of an accepted batch the index is what the log reads back as. */
  ghost predicate KeepsKnown(s: Snapshot, env: IngestEnv, recs: seq<LabelRecord>) {
    if !s.cached && !env.indexReads then AllSentAgain(s.known, recs)
    else env.rereads || Replacements(s.known, recs) == map[]
  }

  /** What a step needs to keep the store in step, from what is known before it. */
  ghost predicate Holds(before: Snapshot, step: Step, kind: string) {
    match step
    case Dropped => true
    case Sent(_, _, refused, env, _) =>
      var start, recs := Loaded(before, env.indexReads), RecordsOf(step, kind);
      if refused then true
      else if LogAccepts(start, env, recs) then KeepsKnown(before, env, recs) && StaysReconciled(before, env, recs)
      else start.known == before.known && Landed(start.known, recs, env.landed) == 0
  }

  lemma UnreadIndexSynced(l: Index, recs: seq<LabelRecord>)
    ensures UpsertAll(map[], recs) == UpsertAll(l, recs) <==> AllSentAgain(l, recs)
  {
    var r, w := UpsertAll(map[], recs), UpsertAll(l, recs);
    forall k ensures AgreeAt(r, w, k) <==> (k in l ==> k in r && (r[k] == l[k] || r[k].row.revision > l[k].row.revision)) {
      UpsertMerges(l, recs, k);
    }
    if AllSentAgain(l, recs) {
      AgreeEverywhere(r, w);
    } else {
      var k :| k in l && !(k in r && (r[k] == l[k] || r[k].row.revision > l[k].row.revision));
      assert !AgreeAt(r, w, k);
    }
  }

  lemma KnownExactly(s: Snapshot, after: Snapshot, env: IngestEnv, recs: seq<LabelRecord>)
    requires Synced(s) && LogStep(Loaded(s, env.indexReads), after, recs, env.rereads)
    ensures Synced(after) <==> KeepsKnown(s, env, recs)
  {
    if !s.cached && !env.indexReads {
      UnreadIndexLog(s.file, recs, env.rereads);
      UnreadIndexSynced(s.known, recs);
    } else if env.rereads || Replacements(s.known, recs) == map[] {
      SyncedLogStep(Loaded(s, env.indexReads), after, recs, env.rereads);
    } else {
      var k :| k in Replacements(s.known, recs);
      NewRecordsAlone(s.known, recs);
      NewKeysAreNew(s.known, recs);
      SupersededRises(s.known, recs, k);
      assert k in after.known && k !in LabelsOf(after.file);
    }
  }

  lemma RefusedExactly(s: Snapshot, recs: seq<LabelRecord>, env: IngestEnv, names: seq<string>)
    requires InStep(s, names)
    ensures var start := Loaded(s, env.indexReads);
            InStep(AfterIoError(start, recs, env.landed), names)
            <==> start.known == s.known && Landed(start.known, recs, env.landed) == 0
  {
    var start := Loaded(s, env.indexReads);
    if start.known == s.known {
      SyncLostExactly(start, recs, env.landed);
    } else {
      var k :| k in s.known;
      LabelsOfAppended(s.file, NewRecords(map[], recs)[..Landed(map[], recs, env.landed)]);
      assert k in LabelsOf(AfterIoError(start, recs, env.landed).file);
    }
  }

  predicate AgreeButForOutcome(a: Step, b: Step) {
    match a
    case Dropped => b.Dropped?
    case Sent(client, rows, refused, env, _) =>
      b.Sent? && b.client == client && b.rows == rows && b.refused == refused && AgreeButForResidue(b.env, env)
      && b.env.stamp == env.stamp && b.env.logWrites == env.logWrites && b.env.landed == env.landed
  }

  /** Whatever a failed mirror update leaves, the step leaves the store in step. */
  ghost predicate StaysInStep(before: Snapshot, step: Step, names: seq<string>, kind: string) {
    forall other, after | AgreeButForOutcome(step, other) && StoreStep(before, after, other, names, kind) :: InStep(after, names)
  }

  /** Exactly which steps keep a store that is in step in step. */
  lemma InStepExactly(before: Snapshot, step: Step, names: seq<string>, kind: string, inputs: Key -> Inputs)
    requires InStep(before, names) && FixedInputs(before.known, inputs) && StepFixed(step, kind, inputs)
    ensures StaysInStep(before, step, names, kind) <==> Holds(before, step, kind)
  {
    if Holds(before, step, kind) {
      forall other, after | AgreeButForOutcome(step, other) && StoreStep(before, after, other, names, kind)
        ensures InStep(after, names)
      {
        HoldsForOthers(before, step, other, kind);
        HeldInStep(before, after, other, names, kind, inputs);
      }
    } else if step.Sent? && LogAccepts(Loaded(before, step.env.indexReads), step.env, RecordsOf(step, kind)) {
      AcceptedOutOfStep(before, step, names, kind, inputs);
    } else {
      var after := AfterIoError(Loaded(before, step.env.indexReads), RecordsOf(step, kind), step.env.landed);
      RefusedExactly(before, RecordsOf(step, kind), step.env, names);
      assert StoreStep(before, after, step, names, kind) && AgreeButForOutcome(step, step);
    }
  }

  lemma HoldsForOthers(before: Snapshot, step: Step, other: Step, kind: string)
    requires AgreeButForOutcome(step, other) && Holds(before, step, kind)
    ensures Holds(before, other, kind)
  {
    if step.Sent? {
      AgreeOnTheRest(other.env, step.env);
      ResidueIsNoPart(before, other.env, step.env, RecordsOf(step, kind));
    }
  }

  lemma HeldInStep(before: Snapshot, after: Snapshot, step: Step, names: seq<string>, kind: string, inputs: Key -> Inputs)
    requires InStep(before, names) && FixedInputs(before.known, inputs) && StepFixed(step, kind, inputs)
    requires StoreStep(before, after, step, names, kind) && Holds(before, step, kind)
    ensures InStep(after, names)
  {
    if step.Sent? && !step.refused {
      var recs, env := RecordsOf(step, kind), step.env;
      if LogAccepts(Loaded(before, env.indexReads), env, recs) {
        KnownExactly(before, after, env, recs);
        ReconciledExactly(before, env, names, recs, inputs);
        assert AgreeButForResidue(env, env);
      } else {
        RefusedExactly(before, recs, env, names);
      }
    }
  }

  lemma AcceptedOutOfStep(before: Snapshot, step: Step, names: seq<string>, kind: string, inputs: Key -> Inputs)
    requires InStep(before, names) && FixedInputs(before.known, inputs) && StepFixed(step, kind, inputs)
    requires step.Sent? && !step.refused && LogAccepts(Loaded(before, step.env.indexReads), step.env, RecordsOf(step, kind))
    requires !Holds(before, step, kind)
    ensures !StaysInStep(before, step, names, kind)
  {
    var recs, env := RecordsOf(step, kind), step.env;
    if !KeepsKnown(before, env, recs) {
      var after, status := SomeStepFollows(before, env, names, recs);
      KnownExactly(before, after, env, recs);
      var other := step.(status := status);
      assert AgreeButForOutcome(step, other) && StoreStep(before, after, other, names, kind);
    } else {
      ReconciledExactly(before, env, names, recs, inputs);
      var e, after, status :| AgreeButForResidue(e, env)
                              && AcceptedStep(Loaded(before, env.indexReads), after, e, status, names, recs)
                              && !Reconciled(after, names);
      var other := step.(env := e, status := status);
      AgreeOnTheRest(e, env);
      assert e.(residue := []).stamp == env.(residue := []).stamp && e.(residue := []).logWrites == env.(residue := []).logWrites;
      assert e.(residue := []).landed == env.(residue := []).landed;
      assert AgreeButForOutcome(step, other) && StoreStep(before, after, other, names, kind);
    }
  }

  /******* Over whole runs *******/

  lemma StepKeepsInputs(before: Snapshot, after: Snapshot, step: Step, names: seq<string>, kind: string, inputs: Key -> Inputs)
    requires StoreStep(before, after, step, names, kind) && Synced(before)
    requires FixedInputs(before.known, inputs) && StepFixed(step, kind, inputs)
    ensures FixedInputs(after.known, inputs)
  {
    if step.Sent? && !step.refused {
      UpsertKeepsInputs(Loaded(before, step.env.indexReads).known, RecordsOf(step, kind), inputs);
    }
  }

  /** Over every run whose steps all hold, refusals and dropped indexes included, the store is in step at the end. */
  lemma {:induction false} RunStaysInStep(snaps: seq<Snapshot>, steps: seq<Step>, names: seq<string>, kind: string,
                                          inputs: Key -> Inputs)
    requires IsStoreRun(snaps, steps, names, kind)
    requires InStep(snaps[0], names) && FixedInputs(snaps[0].known, inputs)
    requires forall i | 0 <= i < |steps| :: Holds(snaps[i], steps[i], kind) && StepFixed(steps[i], kind, inputs)
    ensures InStep(snaps[|steps|], names) && FixedInputs(snaps[|steps|].known, inputs)
  {
    if steps != [] {
      var n := |steps| - 1;
      RunStaysInStep(snaps[..n + 1], steps[..n], names, kind, inputs);
      assert StoreStep(snaps[n], snaps[n + 1], steps[n], names, kind) && Holds(snaps[n], steps[n], kind);
      HeldInStep(snaps[n], snaps[n + 1], steps[n], names, kind, inputs);
      StepKeepsInputs(snaps[n], snaps[n + 1], steps[n], names, kind, inputs);
    }
  }

  /** So no training set loaded after any such run carries a stale label, or misses one that is not leaked. */
  lemma NoStaleLabelIsTrainedOn(snaps: seq<Snapshot>, steps: seq<Step>, names: seq<string>, kind: string, inputs: Key -> Inputs,
                                readable: bool)
    requires IsStoreRun(snaps, steps, names, kind)
    requires InStep(snaps[0], names) && FixedInputs(snaps[0].known, inputs)
    requires forall i | 0 <= i < |steps| :: Holds(snaps[i], steps[i], kind) && StepFixed(steps[i], kind, inputs)
    ensures var last := snaps[|steps|];
            TrainingRows(last, names, readable).Some? ==>
              var labels, read := LabelsOf(last.file), LabelsOf(ReadLog(last.file, readable));
              var rows := TrainingRows(last, names, readable).value;
              && (forall e <- rows :: IsCurrent(e, labels, names))
              && (forall k | TrainableKey(labels, k) ::
                    Leaked(ExampleFor(labels[k].row, names), read, names) || ExampleFor(labels[k].row, names) in rows)
  {
    RunStaysInStep(snaps, steps, names, kind, inputs);
    if TrainingRows(snaps[|steps|], names, readable).Some? {
      TrainingRowsAreCurrent(snaps[|steps|], names, readable);
    }
  }

  /******* An exact mirror is determined up to its order *******/

  function Without<T>(s: seq<T>, j: nat): seq<T>
    requires j < |s|
  {
    s[..j] + s[j + 1..]
  }

  lemma WithoutOne<T>(s: seq<T>, j: nat)
    requires j < |s|
    ensures multiset(s) == multiset(Without(s, j)) + multiset{s[j]}
  {
    assert s == s[..j] + [s[j]] + s[j + 1..];
  }

  lemma WithoutLast<T>(s: seq<T>)
    requires s != []
    ensures s == s[..|s| - 1] + [s[|s| - 1]] && multiset(s) == multiset(s[..|s| - 1]) + multiset{s[|s| - 1]}
  {
    WithoutOne(s, |s| - 1);
    assert Without(s, |s| - 1) == s[..|s| - 1];
  }

  /** Two arrangements of the same elements, each without one and the same, are so still. */
  lemma SameWithout<T>(a: seq<T>, b: seq<T>, j: nat)
    requires a != [] && j < |b| && b[j] == a[|a| - 1] && multiset(a) == multiset(b)
    ensures multiset(a[..|a| - 1]) == multiset(Without(b, j))
  {
    WithoutLast(a);
    WithoutOne(b, j);
    assert multiset(a[..|a| - 1]) == multiset(a) - multiset{b[j]};
    assert multiset(Without(b, j)) == multiset(b) - multiset{b[j]};
  }

  lemma FoundIn<T>(a: seq<T>, b: seq<T>) returns (j: nat)
    requires a != [] && multiset(a) == multiset(b)
    ensures j < |b| && b[j] == a[|a| - 1]
  {
    assert a[|a| - 1] in multiset(b);
    j :| 0 <= j < |b| && b[j] == a[|a| - 1];
  }

  predicate AllTrainable(keys: seq<Key>, labels: Index) {
    forall i | 0 <= i < |keys| :: TrainableKey(labels, keys[i])
  }

  /** The examples of these keys, in their order. */
  function Mapped(keys: seq<Key>, labels: Index, names: seq<string>): seq<Example>
    requires AllTrainable(keys, labels)
  {
    seq(|keys|, i requires 0 <= i < |keys| => ExampleFor(labels[keys[i]].row, names))
  }

  lemma MappedWithout(keys: seq<Key>, j: nat, labels: Index, names: seq<string>)
    requires j < |keys| && AllTrainable(keys, labels)
    ensures AllTrainable(Without(keys, j), labels)
    ensures Mapped(Without(keys, j), labels, names) == Without(Mapped(keys, labels, names), j)
  {
  }

  lemma SameAreTrainable(a: seq<Key>, b: seq<Key>, labels: Index)
    requires multiset(a) == multiset(b) && AllTrainable(a, labels)
    ensures AllTrainable(b, labels)
  {
    forall i | 0 <= i < |b| ensures TrainableKey(labels, b[i]) {
      assert b[i] in multiset(a);
    }
  }

  lemma {:induction false} MappedAgree(a: seq<Key>, b: seq<Key>, labels: Index, names: seq<string>)
    requires multiset(a) == multiset(b) && AllTrainable(a, labels) && AllTrainable(b, labels)
    ensures multiset(Mapped(a, labels, names)) == multiset(Mapped(b, labels, names))
  {
    if a == [] {
      assert |b| == |multiset(b)| == 0;
    } else {
      var n := |a| - 1;
      var j := FoundIn(a, b);
      SameWithout(a, b, j);
      MappedWithout(b, j, labels, names);
      MappedAgree(a[..n], Without(b, j), labels, names);
      WithoutOne(Mapped(b, labels, names), j);
      WithoutLast(Mapped(a, labels, names));
      assert Mapped(a, labels, names)[..n] == Mapped(a[..n], labels, names);
    }
  }

  lemma {:induction false} DistinctOnce(keys: seq<Key>, k: Key)
    requires DistinctSeq(keys)
    ensures multiset(keys)[k] == if k in keys then 1 else 0
  {
    if keys != [] {
      var n := |keys| - 1;
      DistinctOnce(keys[..n], k);
      WithoutLast(keys);
    }
  }

  lemma TwiceCounts(keys: seq<Key>, i: nat, j: nat)
    requires i < j < |keys| && keys[i] == keys[j]
    ensures multiset(keys)[keys[i]] >= 2
  {
    assert keys == keys[..j] + [keys[j]] + keys[j + 1..];
    assert keys[..j][i] == keys[i] && keys[i] in multiset(keys[..j]);
  }

  lemma OwnersAreMapped(mirror: seq<Example>, owners: seq<Key>, labels: Index, names: seq<string>)
    requires Owned(mirror, owners, labels, names)
    ensures AllTrainable(owners, labels) && mirror == Mapped(owners, labels, names)
  {
    forall i | 0 <= i < |owners| ensures TrainableKey(labels, owners[i]) && mirror[i] == ExampleFor(labels[owners[i]].row, names) {
      assert Owns(mirror, owners, labels, names, i);
    }
  }

  /** Two exact mirrors of the same labels hold the same examples as often. */
  lemma ExactMirrorsAgree(a: seq<Example>, b: seq<Example>, labels: Index, names: seq<string>)
    requires MirrorMatches(a, labels, names) && MirrorMatches(b, labels, names)
    ensures multiset(a) == multiset(b)
  {
    var o :| Owned(a, o, labels, names);
    var p :| Owned(b, p, labels, names);
    OwnersAreMapped(a, o, labels, names);
    OwnersAreMapped(b, p, labels, names);
    forall k ensures multiset(o)[k] == multiset(p)[k] {
      DistinctOnce(o, k);
      DistinctOnce(p, k);
    }
    assert multiset(o) == multiset(p);
    SameAreTrainable(o, p, labels);
    MappedAgree(o, p, labels, names);
  }

  lemma MappedOneMore(keys: seq<Key>, k: Key, labels: Index, names: seq<string>)
    requires AllTrainable(keys, labels) && TrainableKey(labels, k)
    ensures AllTrainable(keys + [k], labels)
    ensures Mapped(keys + [k], labels, names) == Mapped(keys, labels, names) + [ExampleFor(labels[k].row, names)]
  {
  }

  lemma {:induction false} Rearranged(owners: seq<Key>, mirror: seq<Example>, labels: Index, names: seq<string>)
    returns (arranged: seq<Key>)
    requires AllTrainable(owners, labels) && multiset(Mapped(owners, labels, names)) == multiset(mirror)
    ensures multiset(arranged) == multiset(owners) && AllTrainable(arranged, labels)
    ensures mirror == Mapped(arranged, labels, names)
    decreases |mirror|
  {
    var given := Mapped(owners, labels, names);
    if mirror == [] {
      assert |given| == |multiset(given)| == 0;
      arranged := owners;
    } else {
      var n := |mirror| - 1;
      var j := FoundIn(mirror, given);
      SameWithout(mirror, given, j);
      MappedWithout(owners, j, labels, names);
      var fewer := Rearranged(Without(owners, j), mirror[..n], labels, names);
      arranged := fewer + [owners[j]];
      MappedOneMore(fewer, owners[j], labels, names);
      WithoutOne(owners, j);
      assert mirror == mirror[..n] + [mirror[n]];
    }
  }

  /** Whether a mirror is exact does not depend on its order. */
  lemma OrderIsFree(a: seq<Example>, b: seq<Example>, labels: Index, names: seq<string>)
    requires MirrorMatches(a, labels, names) && multiset(a) == multiset(b)
    ensures MirrorMatches(b, labels, names)
  {
    var owners :| Owned(a, owners, labels, names);
    OwnersAreMapped(a, owners, labels, names);
    var arranged := Rearranged(owners, b, labels, names);
    forall i, j | 0 <= i < j < |arranged| ensures arranged[i] != arranged[j] {
      DistinctOnce(owners, arranged[i]);
      if arranged[i] == arranged[j] {
        TwiceCounts(arranged, i, j);
      }
    }
    forall k | TrainableKey(labels, k) ensures k in arranged {
      assert k in multiset(owners);
    }
    assert Owned(b, arranged, labels, names);
  }

  /** When no label changed, what is queued makes no wrong mirror right and no right one wrong. */
  lemma AddedChangesNothing(mirror: seq<Example>, known: Index, recs: seq<LabelRecord>, names: seq<string>, inputs: Key -> Inputs)
    requires !LabelChanged(known, recs) && Keyed(known) && FixedInputs(known, inputs) && RecordsFixed(recs, inputs)
    ensures MirrorMatches(mirror + ExamplesOf(Added(known, recs), names), UpsertAll(known, recs), names)
            <==> MirrorMatches(mirror, known, names)
  {
    var added, after := ExamplesOf(Added(known, recs), names), UpsertAll(known, recs);
    if MirrorMatches(mirror + added, after, names) {
      var all := SomeListOf(known, known.Keys);
      RebuiltMirror(known, all, names);
      var right := ExamplesOf(all, names);
      IncrementalMirror(right, known, recs, names, inputs);
      ExactMirrorsAgree(mirror + added, right + added, after, names);
      assert multiset(mirror) == multiset(mirror + added) - multiset(added);
      assert multiset(right) == multiset(right + added) - multiset(added);
      OrderIsFree(right, mirror, known, names);
    } else if MirrorMatches(mirror, known, names) {
      IncrementalMirror(mirror, known, recs, names, inputs);
    }
  }

  /******* When the store is in step again *******/

  /** A step in which every read and write succeeds. */
  predicate Undisturbed(step: Step) {
    match step
    case Dropped => true
    case Sent(_, _, refused, env, _) =>
      refused || (env.indexReads && env.rereads && env.logWrites && env.rebuildReads && env.mirrorWrites)
  }

  /** A batch that has the mirror rebuilt: the marker is set, or a label changed. */
  predicate Repairs(before: Snapshot, step: Step, kind: string) {
    step.Sent? && !step.refused && Rebuilds(before, RecordsOf(step, kind))
  }

  /** An undisturbed step leaves the mirror exact or marked exactly if it was, or the step repairs it. */
  lemma StepHealsExactly(before: Snapshot, after: Snapshot, step: Step, names: seq<string>, kind: string, inputs: Key -> Inputs)
    requires Synced(before) && FixedInputs(before.known, inputs) && StepFixed(step, kind, inputs)
    requires StoreStep(before, after, step, names, kind) && Undisturbed(step)
    ensures Synced(after)
    ensures Reconciled(after, names) <==> Reconciled(before, names) || Repairs(before, step, kind)
  {
    if step.Sent? && !step.refused {
      var start, recs := Loaded(before, true), RecordsOf(step, kind);
      SyncedLogStep(start, after, recs, true);
      if !Rebuilds(start, recs) {
        AddedChangesNothing(before.mirror, before.known, recs, names, inputs);
        AddsExactly(before.known, recs, names);
        assert before.mirror + [] == before.mirror;
      }
    }
  }

  /**
   Once the store knows its log, as after any dropped index, and nothing is disturbed any more,
   it is in step again exactly if its mirror was exact or marked, or some batch of the run has
   it rebuilt: a mirror that is wrong and unmarked stays wrong until a label changes.
   */
  lemma {:induction false} RunHealsExactly(snaps: seq<Snapshot>, steps: seq<Step>, names: seq<string>, kind: string,
                                           inputs: Key -> Inputs)
    requires IsStoreRun(snaps, steps, names, kind) && Synced(snaps[0]) && FixedInputs(snaps[0].known, inputs)
    requires forall i | 0 <= i < |steps| :: Undisturbed(steps[i]) && StepFixed(steps[i], kind, inputs)
    ensures Synced(snaps[|steps|]) && FixedInputs(snaps[|steps|].known, inputs)
    ensures InStep(snaps[|steps|], names)
            <==> Reconciled(snaps[0], names) || exists i | 0 <= i < |steps| :: Repairs(snaps[i], steps[i], kind)
  {
    if steps != [] {
      var n := |steps| - 1;
      RunHealsExactly(snaps[..n + 1], steps[..n], names, kind, inputs);
      assert StoreStep(snaps[n], snaps[n + 1], steps[n], names, kind) && Undisturbed(steps[n]);
      StepHealsExactly(snaps[n], snaps[n + 1], steps[n], names, kind, inputs);
      StepKeepsInputs(snaps[n], snaps[n + 1], steps[n], names, kind, inputs);
      assert forall i | 0 <= i < n :: Repairs(snaps[..n + 1][i], steps[..n][i], kind) == Repairs(snaps[i], steps[i], kind);
    }
  }
}
