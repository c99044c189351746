/**
 What an accepted label batch makes of the training mirror when the log cannot be read: for
 the index, for a rewrite, or for a rebuild. An unreadable log counts as empty.
 */
module LabelReads {
  import opened Options
  import opened LabelLog
  import opened LabelBatch
  import opened LabelIngest
  import opened LabelFailures

  /******* What the log comes to hold *******/

  /** Upserting a stream is, key by key, upserting what the stream amounts to on its own. */
  lemma {:induction false} UpsertMerges(l: Index, recs: seq<LabelRecord>, k: Key)
    ensures var r, w := UpsertAll(map[], recs), UpsertAll(l, recs);
            && (k in w <==> k in l || k in r)
            && (k in w ==> w[k] == if k in r && (k !in l || r[k].row.revision > l[k].row.revision) then r[k] else l[k])
  {
    if recs != [] {
      UpsertMerges(l, recs[..|recs| - 1], k);
    }
  }

  /** Over no known labels every record of the stream counts as new. */
  lemma AllAreNew(recs: seq<LabelRecord>)
    ensures Replacements(map[], recs) == map[] && !LabelChanged(map[], recs) && Upgrades(map[], recs) == []
    ensures Restricted(UpsertAll(map[], recs), NewKeys(map[], recs)) == UpsertAll(map[], recs)
  {
    var b := AbsorbAll(map[], [], recs);
    BatchIsDetermined(map[], recs, b);
    NothingSuperseded(recs);
    assert map[] + b.replaced + b.pendingNew == b.pendingNew;
    RestrictedToAll(UpsertAll(map[], recs), NewKeys(map[], recs));
  }

  lemma {:induction false} NothingSuperseded(recs: seq<LabelRecord>)
    ensures !LabelChanged(map[], recs) && Upgrades(map[], recs) == []
  {
    if recs != [] {
      NothingSuperseded(recs[..|recs| - 1]);
    }
  }

  /** The new records of a stream are the labels the file of them alone holds, once each. */
  lemma NewAreListed(known: Index, recs: seq<LabelRecord>)
    requires Keyed(known)
    ensures var alone := Restricted(UpsertAll(known, recs), NewKeys(known, recs));
            Keyed(alone) && Listed(NewRecords(known, recs), alone, alone.Keys)
  {
    var keys, records := NewKeys(known, recs), NewRecords(known, recs);
    NewKeysAreNew(known, recs);
    forall i | 0 <= i < |keys| ensures keys[i] in keys && KeyOf(records[i].row) == keys[i] && records[i] in records {
      assert keys[i] in keys;
      KeyedUpserts(known, recs, keys[i]);
    }
  }

  /** A batch taken for new as a whole leaves, read back, the labels it should. */
  lemma UnreadIndexLog(file: seq<Record>, recs: seq<LabelRecord>, rereads: bool)
    ensures LabelsOf(FileAfter(map[], file, recs, rereads)) == UpsertAll(LabelsOf(file), recs)
  {
    var l, sent := LabelsOf(file), NewRecords(map[], recs);
    AllAreNew(recs);
    LabelsOfAppended(file, sent);
    NewRecordsSuffice(map[], recs);
    forall k ensures AgreeAt(UpsertAll(l, sent), UpsertAll(l, recs), k) {
      UpsertMerges(l, sent, k);
      UpsertMerges(l, recs, k);
    }
    AgreeEverywhere(UpsertAll(l, sent), UpsertAll(l, recs));
  }

  /******* When what is queued for the mirror fits the log *******/

  lemma ExamplesOfTwo(a: seq<LabelRecord>, b: seq<LabelRecord>, names: seq<string>)
    ensures ExamplesOf(a + b, names) == ExamplesOf(a, names) + ExamplesOf(b, names)
  {
    TrainableOfTwo(a, b);
  }

  lemma TrainableOneMore(recs: seq<LabelRecord>, rec: LabelRecord)
    ensures TrainableOf(recs + [rec]) == TrainableOf(recs) + (if Trainable(rec.row) then [rec] else [])
  {
    assert (recs + [rec])[..|recs|] == recs;
  }

  lemma {:induction false} TrainableOfTwo(a: seq<LabelRecord>, b: seq<LabelRecord>)
    ensures TrainableOf(a + b) == TrainableOf(a) + TrainableOf(b)
  {
    if b == [] {
      assert a + b == a;
    } else {
      var fewer, last := b[..|b| - 1], b[|b| - 1];
      TrainableOfTwo(a, fewer);
      TrainableOneMore(a + fewer, last);
      TrainableOneMore(fewer, last);
      assert a + b == a + fewer + [last] && b == fewer + [last];
    }
  }

  lemma {:induction false} UpgradesAreTrainable(known: Index, recs: seq<LabelRecord>)
    ensures TrainableOf(Upgrades(known, recs)) == Upgrades(known, recs)
  {
    if recs != [] {
      var fewer := recs[..|recs| - 1];
      UpgradesAreTrainable(known, fewer);
      if Upgrades(known, recs) != Upgrades(known, fewer) {
        TrainableOfTwo(Upgrades(known, fewer), [recs[|recs| - 1]]);
        assert [recs[|recs| - 1]][..0] == [];
      }
    }
  }

  lemma SumOfTwo<T>(a: set<T>, b: set<T>, c: set<T>)
    requires c <= a + b && |a| + |b| == |c|
    ensures a !! b && c == a + b
  {
    assert |a + b| == |a| + |b| - |a * b|;
    if c != a + b {
      Fewer(c, a + b);
    }
    DisjointIfEmpty(a, b);
  }

  lemma DisjointIfEmpty<T>(a: set<T>, b: set<T>)
    requires |a * b| == 0
    ensures a !! b
  {
    assert forall x :: x in a && x in b ==> x in a * b;
  }

  lemma Fewer<T>(a: set<T>, b: set<T>)
    requires a < b
    ensures |a| < |b|
  {
    var x :| x in b && x !in a;
    assert |b - {x}| == |b| - 1;
    assert a <= b - {x};
    assert |b - {x}| == |a| + |(b - {x}) - a| by { assert b - {x} == a + ((b - {x}) - a); }
  }

  /** No key is in both, with the record that does not win trainable: its example would be a second or a stale one. */
  ghost predicate NoStaleTwin(l: Index, recs: seq<LabelRecord>) {
    var r := UpsertAll(map[], recs);
    forall k | k in l && k in r ::
      !Trainable((if r[k].row.revision > l[k].row.revision then l[k] else r[k]).row)
  }

  lemma WinnersAreTrainable(l: Index, recs: seq<LabelRecord>)
    ensures TrainableKeys(UpsertAll(l, recs)) <= TrainableKeys(l) + TrainableKeys(UpsertAll(map[], recs))
  {
    forall k | k in TrainableKeys(UpsertAll(l, recs)) ensures k in TrainableKeys(l) + TrainableKeys(UpsertAll(map[], recs)) {
      UpsertMerges(l, recs, k);
    }
  }

  /** A mirror exact for `l`, extended by every trainable record of a batch, fits the log exactly without stale twins. */
  lemma TwinsExactly(mirror: seq<Example>, l: Index, recs: seq<LabelRecord>, names: seq<string>)
    requires MirrorMatches(mirror, l, names)
    ensures MirrorMatches(mirror + ExamplesOf(NewRecords(map[], recs), names), UpsertAll(l, recs), names)
            <==> NoStaleTwin(l, recs)
  {
    if NoStaleTwin(l, recs) {
      WithoutTwins(mirror, l, recs, names);
    }
    if MirrorMatches(mirror + ExamplesOf(NewRecords(map[], recs), names), UpsertAll(l, recs), names) {
      var r, w := UpsertAll(map[], recs), UpsertAll(l, recs);
      NewExamplesCount(map[], recs, names);
      AllAreNew(recs);
      MirrorLength(mirror, l, names);
      MirrorLength(mirror + ExamplesOf(NewRecords(map[], recs), names), w, names);
      WinnersAreTrainable(l, recs);
      SumOfTwo(TrainableKeys(l), TrainableKeys(r), TrainableKeys(w));
      forall k | k in l && k in r ensures !Trainable((if r[k].row.revision > l[k].row.revision then l[k] else r[k]).row) {
        UpsertMerges(l, recs, k);
        assert TrainableKey(w, k) <==> k in TrainableKeys(w);
        assert TrainableKey(l, k) <==> k in TrainableKeys(l);
        assert TrainableKey(r, k) <==> k in TrainableKeys(r);
      }
    }
  }

  lemma NewExamplesCount(known: Index, recs: seq<LabelRecord>, names: seq<string>)
    requires Keyed(known)
    ensures var alone := Restricted(UpsertAll(known, recs), NewKeys(known, recs));
            && MirrorMatches(ExamplesOf(NewRecords(known, recs), names), alone, names)
            && |ExamplesOf(NewRecords(known, recs), names)| == |TrainableKeys(alone)|
  {
    var alone := Restricted(UpsertAll(known, recs), NewKeys(known, recs));
    NewAreListed(known, recs);
    RebuiltMirror(alone, NewRecords(known, recs), names);
    MirrorLength(ExamplesOf(NewRecords(known, recs), names), alone, names);
  }

  lemma WithoutTwins(mirror: seq<Example>, l: Index, recs: seq<LabelRecord>, names: seq<string>)
    requires MirrorMatches(mirror, l, names) && NoStaleTwin(l, recs)
    ensures MirrorMatches(mirror + ExamplesOf(NewRecords(map[], recs), names), UpsertAll(l, recs), names)
  {
    var r, w, sent := UpsertAll(map[], recs), UpsertAll(l, recs), NewRecords(map[], recs);
    AllAreNew(recs);
    NewAreListed(map[], recs);
    assert Listed(sent, r, r.Keys);
    forall k | TrainableKey(l, k)
      ensures TrainableKey(w, k) && ExampleFor(w[k].row, names) == ExampleFor(l[k].row, names)
    {
      UpsertMerges(l, recs, k);
    }
    forall rec <- sent | Trainable(rec.row)
      ensures !TrainableKey(l, KeyOf(rec.row)) && TrainableKey(w, KeyOf(rec.row)) && w[KeyOf(rec.row)] == rec
    {
      UpsertMerges(l, recs, KeyOf(rec.row));
    }
    forall k | TrainableKey(w, k) && !TrainableKey(l, k)
      ensures exists rec <- sent :: Trainable(rec.row) && KeyOf(rec.row) == k
    {
      UpsertMerges(l, recs, k);
      assert r[k] in sent;
    }
    ExtendMirror(mirror, l, w, sent, names);
  }

  /** After an unread rewrite what was queued fits exactly if no label was or becomes trainable but new ones. */
  lemma UnreadRewriteFitsExactly(mirror: seq<Example>, known: Index, recs: seq<LabelRecord>, names: seq<string>)
    requires Keyed(known) && MirrorMatches(mirror, known, names)
    ensures var alone := Restricted(UpsertAll(known, recs), NewKeys(known, recs));
            MirrorMatches(mirror + ExamplesOf(Added(known, recs), names), alone, names)
            <==> TrainableKeys(known) == {} && Upgrades(known, recs) == []
  {
    var alone := Restricted(UpsertAll(known, recs), NewKeys(known, recs));
    NewExamplesCount(known, recs, names);
    ExamplesOfTwo(NewRecords(known, recs), Upgrades(known, recs), names);
    UpgradesAreTrainable(known, recs);
    MirrorLength(mirror, known, names);
    if TrainableKeys(known) == {} && Upgrades(known, recs) == [] {
      assert mirror + ExamplesOf(Added(known, recs), names) == ExamplesOf(NewRecords(known, recs), names);
    }
    if MirrorMatches(mirror + ExamplesOf(Added(known, recs), names), alone, names) {
      MirrorLength(mirror + ExamplesOf(Added(known, recs), names), alone, names);
    }
  }

  /******* The exact reach of "exact or marked" *******/

  /** The log as the batch will leave it. */
  function LogToBe(s: Snapshot, env: IngestEnv, recs: seq<LabelRecord>): seq<Record> {
    FileAfter(Loaded(s, env.indexReads).known, s.file, recs, env.rereads)
  }

  /** What a successful update leaves of the mirror is what the log comes to hold. */
  ghost predicate UpdateFits(s: Snapshot, env: IngestEnv, recs: seq<LabelRecord>) {
    if Rebuilds(Loaded(s, env.indexReads), recs) then
      env.rebuildReads || TrainableKeys(LabelsOf(LogToBe(s, env, recs))) == {}
    else if !s.cached && !env.indexReads then NoStaleTwin(LabelsOf(s.file), recs)
    else if !env.rereads && Replacements(s.known, recs) != map[] then
      TrainableKeys(s.known) == {} && Upgrades(s.known, recs) == []
    else true
  }

  /** The mirror's update fits, or it fails and the failure is marked, or the marker stays. */
  ghost predicate StaysReconciled(s: Snapshot, env: IngestEnv, recs: seq<LabelRecord>) {
    if MirrorWork(Loaded(s, env.indexReads), recs) && !env.mirrorWrites then env.marks || s.dirty
    else (s.dirty && !env.clears) || UpdateFits(s, env, recs)
  }

  /** Whatever a failed update of its mirror leaves, the batch leaves the mirror exact or marked. */
  ghost predicate ReconciledWhateverIsLeft(s: Snapshot, env: IngestEnv, names: seq<string>, recs: seq<LabelRecord>) {
    forall e, after, status | AgreeButForResidue(e, env)
                              && AcceptedStep(Loaded(s, env.indexReads), after, e, status, names, recs) ::
      Reconciled(after, names)
  }

  predicate AgreeButForResidue(e: IngestEnv, f: IngestEnv) {
    e.(residue := []) == f.(residue := [])
  }

  lemma AgreeOnTheRest(e: IngestEnv, f: IngestEnv)
    requires AgreeButForResidue(e, f)
    ensures e.indexReads == f.indexReads && e.rereads == f.rereads && e.rebuildReads == f.rebuildReads
    ensures e.mirrorWrites == f.mirrorWrites && e.marks == f.marks && e.clears == f.clears
  {
    assert e.(residue := []).indexReads == f.(residue := []).indexReads && e.(residue := []).rereads == f.(residue := []).rereads;
    assert e.(residue := []).rebuildReads == f.(residue := []).rebuildReads;
    assert e.(residue := []).mirrorWrites == f.(residue := []).mirrorWrites && e.(residue := []).marks == f.(residue := []).marks;
    assert e.(residue := []).clears == f.(residue := []).clears;
  }

  /** What is queued, whether or not it comes to an example, fits exactly as `UpdateFits` says. */
  lemma QueuedFitsExactly(s: Snapshot, env: IngestEnv, names: seq<string>, recs: seq<LabelRecord>, inputs: Key -> Inputs)
    requires Synced(s) && Reconciled(s, names) && !Rebuilds(Loaded(s, env.indexReads), recs)
    requires FixedInputs(s.known, inputs) && RecordsFixed(recs, inputs)
    ensures MirrorMatches(s.mirror + ExamplesOf(Added(Loaded(s, env.indexReads).known, recs), names),
                          LabelsOf(LogToBe(s, env, recs)), names)
            <==> UpdateFits(s, env, recs)
  {
    if !s.cached && !env.indexReads {
      AllAreNew(recs);
      UnreadIndexLog(s.file, recs, env.rereads);
      TwinsExactly(s.mirror, s.known, recs, names);
      assert NewRecords(map[], recs) + [] == NewRecords(map[], recs);
    } else if !env.rereads && Replacements(s.known, recs) != map[] {
      NewRecordsAlone(s.known, recs);
      UnreadRewriteFitsExactly(s.mirror, s.known, recs, names);
    } else {
      WrittenUpserts(s.file, recs);
      IncrementalMirror(s.mirror, s.known, recs, names, inputs);
    }
  }

  /** An update that does not fail leaves the mirror exact or marked exactly if it fits or the marker stays. */
  lemma UpdatedExactly(s: Snapshot, after: Snapshot, env: IngestEnv, status: MirrorStatus, names: seq<string>,
                       recs: seq<LabelRecord>, inputs: Key -> Inputs)
    requires Synced(s) && Reconciled(s, names) && FixedInputs(s.known, inputs) && RecordsFixed(recs, inputs)
    requires AcceptedStep(Loaded(s, env.indexReads), after, env, status, names, recs) && !status.MirrorFailed?
    ensures Reconciled(after, names) <==> (s.dirty && !env.clears) || UpdateFits(s, env, recs)
  {
    var start := Loaded(s, env.indexReads);
    if Rebuilds(start, recs) {
      EmptyMirrorExactly(after.mirror, LabelsOf(after.file), names);
    } else {
      QueuedFitsExactly(s, env, names, recs, inputs);
      AddsExactly(start.known, recs, names);
      assert s.mirror + [] == s.mirror;
    }
  }

  /** Every way the mirror update may go is open. */
  lemma SomeStepFollows(s: Snapshot, env: IngestEnv, names: seq<string>, recs: seq<LabelRecord>)
    returns (after: Snapshot, status: MirrorStatus)
    ensures AcceptedStep(Loaded(s, env.indexReads), after, env, status, names, recs)
    ensures status.MirrorFailed? <==> MirrorWork(Loaded(s, env.indexReads), recs) && !env.mirrorWrites
  {
    var start, file := Loaded(s, env.indexReads), LogToBe(s, env, recs);
    var known := UpsertAll(start.known, recs);
    if !MirrorWork(start, recs) {
      after, status := Snapshot(file, known, true, s.mirror, s.dirty), Untouched;
    } else if !env.mirrorWrites {
      after, status := Snapshot(file, known, true, env.residue, s.dirty || env.marks), MirrorFailed;
    } else if Rebuilds(start, recs) {
      var mirror := SomeExactMirror(ReadLog(file, env.rebuildReads), names);
      after, status := Snapshot(file, known, true, mirror, s.dirty && !env.clears), Updated(0);
    } else {
      after := Snapshot(file, known, true, s.mirror + ExamplesOf(Added(start.known, recs), names), s.dirty);
      status := Updated(0);
    }
  }

  lemma {:induction false} SomeList(file: seq<Record>) returns (recs: seq<LabelRecord>)
    ensures Listed(recs, LabelsOf(file), LabelsOf(file).Keys)
  {
    recs := SomeListOf(LabelsOf(file), LabelsOf(file).Keys);
  }

  lemma {:induction false} SomeListOf(labels: Index, keys: set<Key>) returns (recs: seq<LabelRecord>)
    requires Keyed(labels) && keys <= labels.Keys
    ensures Listed(recs, labels, keys)
  {
    if keys == {} {
      recs := [];
    } else {
      var k :| k in keys;
      var fewer := SomeListOf(labels, keys - {k});
      ListedOneMore(fewer, labels, keys - {k}, k);
      assert keys - {k} + {k} == keys;
      recs := fewer + [labels[k]];
    }
  }

  lemma SomeExactMirror(file: seq<Record>, names: seq<string>) returns (mirror: seq<Example>)
    ensures MirrorMatches(mirror, LabelsOf(file), names)
  {
    var recs := SomeList(file);
    RebuiltMirror(LabelsOf(file), recs, names);
    mirror := ExamplesOf(recs, names);
  }

  /** A mirror no set of labels can have two sizes of. */
  lemma SomeResidueIsWrong(labels: Index, names: seq<string>) returns (residue: seq<Example>)
    ensures !MirrorMatches(residue, labels, names)
  {
    residue := if TrainableKeys(labels) == {} then [Example([], 0.0, 0)] else [];
    if MirrorMatches(residue, labels, names) {
      MirrorLength(residue, labels, names);
    }
  }

  /**
   The exact reach of "exact or marked" for one accepted batch, from what is known before it.
   With work to do and no way to write, it holds whatever is left exactly when the marker can
   be written or is there already. Otherwise it holds exactly when the marker stays, or the
   update fits: a rebuild that could read the log, or comes to nothing; queued examples over an
   index that could be read, or without stale twins, and no rewrite that could not be read,
   unless nothing known is or becomes trainable.
   */
  lemma ReconciledExactly(s: Snapshot, env: IngestEnv, names: seq<string>, recs: seq<LabelRecord>, inputs: Key -> Inputs)
    requires Synced(s) && Reconciled(s, names) && FixedInputs(s.known, inputs) && RecordsFixed(recs, inputs)
    ensures ReconciledWhateverIsLeft(s, env, names, recs) <==> StaysReconciled(s, env, recs)
  {
    if StaysReconciled(s, env, recs) {
      forall e, after, status | AgreeButForResidue(e, env)
                                && AcceptedStep(Loaded(s, env.indexReads), after, e, status, names, recs)
        ensures Reconciled(after, names)
      {
        AgreeOnTheRest(e, env);
        if !status.MirrorFailed? {
          UpdatedExactly(s, after, e, status, names, recs, inputs);
        }
      }
    } else {
      StepThatFails(s, env, names, recs, inputs);
    }
  }

  lemma ResidueIsNoPart(s: Snapshot, e: IngestEnv, env: IngestEnv, recs: seq<LabelRecord>)
    requires AgreeButForResidue(e, env)
    ensures StaysReconciled(s, e, recs) <==> StaysReconciled(s, env, recs)
    ensures LogToBe(s, e, recs) == LogToBe(s, env, recs)
  {
    AgreeOnTheRest(e, env);
  }

  lemma WrongResidueStays(s: Snapshot, after: Snapshot, e: IngestEnv, status: MirrorStatus, names: seq<string>, recs: seq<LabelRecord>)
    requires AcceptedStep(Loaded(s, e.indexReads), after, e, status, names, recs) && status.MirrorFailed?
    requires !StaysReconciled(s, e, recs) && !MirrorMatches(e.residue, LabelsOf(LogToBe(s, e, recs)), names)
    ensures !Reconciled(after, names)
  {
    assert after.file == LogToBe(s, e, recs);
  }

  lemma StepThatFails(s: Snapshot, env: IngestEnv, names: seq<string>, recs: seq<LabelRecord>, inputs: Key -> Inputs)
    requires Synced(s) && Reconciled(s, names) && FixedInputs(s.known, inputs) && RecordsFixed(recs, inputs)
    requires !StaysReconciled(s, env, recs)
    ensures !ReconciledWhateverIsLeft(s, env, names, recs)
  {
    var residue := SomeResidueIsWrong(LabelsOf(LogToBe(s, env, recs)), names);
    var e := env.(residue := residue);
    ResidueIsNoPart(s, e, env, recs);
    AgreeOnTheRest(e, env);
    var after, status := SomeStepFollows(s, e, names, recs);
    if status.MirrorFailed? {
      WrongResidueStays(s, after, e, status, names, recs);
    } else {
      UpdatedExactly(s, after, e, status, names, recs, inputs);
    }
    assert AcceptedStep(Loaded(s, env.indexReads), after, e, status, names, recs) && !Reconciled(after, names);
  }

  /******* One input for each read *******/

  /** A store over `file` that knows it, with an exact mirror. */
  ghost predicate Sound(s: Snapshot, names: seq<string>) {
    Synced(s) && !s.dirty && MirrorMatches(s.mirror, LabelsOf(s.file), names)
  }

  lemma OneLabel(a: LabelRecord, names: seq<string>)
    requires Trainable(a.row)
    ensures LabelsOf([Label(a)]) == map[KeyOf(a.row) := a]
    ensures MirrorMatches([ExampleFor(a.row, names)], map[KeyOf(a.row) := a], names)
  {
    assert [Label(a)][..0] == [];
    assert Owned([ExampleFor(a.row, names)], [KeyOf(a.row)], map[KeyOf(a.row) := a], names);
  }

  lemma TwoLabels(a: LabelRecord, b: LabelRecord, names: seq<string>)
    requires Trainable(a.row) && !Trainable(b.row) && KeyOf(b.row) != KeyOf(a.row)
    ensures var known := map[KeyOf(a.row) := a, KeyOf(b.row) := b];
            LabelsOf([Label(a), Label(b)]) == known && MirrorMatches([ExampleFor(a.row, names)], known, names)
  {
    var known := map[KeyOf(a.row) := a, KeyOf(b.row) := b];
    OneLabel(a, names);
    assert [Label(a), Label(b)][..1] == [Label(a)];
    assert Owned([ExampleFor(a.row, names)], [KeyOf(a.row)], known, names);
  }

  lemma OneRecord(known: Index, rec: LabelRecord)
    ensures UpsertAll(known, [rec]) == Upsert(known, rec)
    ensures LabelChanged(known, [rec]) <==>
              && Supersedes(known, known, rec) && Trainable(known[KeyOf(rec.row)].row)
              && TrainingLabel(known[KeyOf(rec.row)].row) != TrainingLabel(rec.row)
  {
    assert [rec] == [] + [rec];
    OneMore(known, [], rec);
  }

  /** An index that could not be read: a label sent again is taken for new, and its example added twice. */
  lemma UnreadIndexDoublesAnExample(a: LabelRecord, env: IngestEnv, names: seq<string>)
    requires Trainable(a.row) && !env.indexReads && env.mirrorWrites
    ensures var s := Snapshot([Label(a)], map[KeyOf(a.row) := a], false, [ExampleFor(a.row, names)], false);
            Sound(s, names) && !ReconciledWhateverIsLeft(s, env, names, [a])
  {
    var s := Snapshot([Label(a)], map[KeyOf(a.row) := a], false, [ExampleFor(a.row, names)], false);
    OneLabel(a, names);
    OneRecord(map[], a);
    assert KeyOf(a.row) in UpsertAll(map[], [a]) && KeyOf(a.row) in s.known;
    assert !NoStaleTwin(LabelsOf(s.file), [a]);
    ReconciledExactly(s, env, names, [a], k => InputsOf(a.row));
  }

  lemma UnreadRewriteDoesNotFit(known: Index, k: Key, again: LabelRecord)
    requires TrainableKey(known, k) && KeyOf(again.row) in known && !Trainable(known[KeyOf(again.row)].row)
    requires again.row.revision > known[KeyOf(again.row)].row.revision
    ensures !LabelChanged(known, [again]) && Replacements(known, [again]) != map[] && TrainableKeys(known) != {}
  {
    OneRecord(known, again);
    assert KeyOf(again.row) in Replacements(known, [again]) && k in TrainableKeys(known);
  }

  /** A rewrite that could not read the log, beside a trained label it loses. */
  lemma UnreadRewriteLeavesAStaleMirror(a: LabelRecord, b: LabelRecord, again: LabelRecord, env: IngestEnv, names: seq<string>)
    requires Trainable(a.row) && !Trainable(b.row) && KeyOf(b.row) != KeyOf(a.row)
    requires KeyOf(again.row) == KeyOf(b.row) && again.row.revision > b.row.revision && InputsOf(again.row) == InputsOf(b.row)
    requires env.indexReads && !env.rereads && env.mirrorWrites
    ensures var s := Snapshot([Label(a), Label(b)], map[KeyOf(a.row) := a, KeyOf(b.row) := b], false, [ExampleFor(a.row, names)], false);
            Sound(s, names) && UniqueKeys(s.file) && !ReconciledWhateverIsLeft(s, env, names, [again])
  {
    var known := map[KeyOf(a.row) := a, KeyOf(b.row) := b];
    var s := Snapshot([Label(a), Label(b)], known, false, [ExampleFor(a.row, names)], false);
    TwoLabels(a, b, names);
    UnreadRewriteDoesNotFit(known, KeyOf(a.row), again);
    ReconciledExactly(s, env, names, [again], k => if k == KeyOf(a.row) then InputsOf(a.row) else InputsOf(b.row));
  }

  /** A rebuild that could not read the log: the mirror is emptied and its marker cleared, with nothing failing to be written. */
  lemma UnreadRebuildEmptiesTheMirror(a: LabelRecord, env: IngestEnv, names: seq<string>)
    requires Trainable(a.row) && env.indexReads && !env.rebuildReads && env.mirrorWrites && env.clears
    ensures var s := Snapshot([Label(a)], map[KeyOf(a.row) := a], false, [ExampleFor(a.row, names)], true);
            Synced(s) && Reconciled(s, names) && !ReconciledWhateverIsLeft(s, env, names, [])
  {
    var s := Snapshot([Label(a)], map[KeyOf(a.row) := a], false, [ExampleFor(a.row, names)], true);
    OneLabel(a, names);
    WrittenUpserts(s.file, []);
    assert Replacements(s.known, []) == map[];
    assert KeyOf(a.row) in TrainableKeys(LabelsOf(LogToBe(s, env, [])));
    ReconciledExactly(s, env, names, [], k => InputsOf(a.row));
  }

  /** The very first trainable label goes missing unmarked when neither the mirror nor its marker can be written. */
  lemma FirstLabelCanGoMissing(rec: LabelRecord, env: IngestEnv, names: seq<string>)
    requires Trainable(rec.row) && !env.mirrorWrites && !env.marks
    ensures Sound(EMPTY_STORE, names) && !ReconciledWhateverIsLeft(EMPTY_STORE, env, names, [rec])
  {
    assert Owned([], [], map[], names);
    OneRecord(map[], rec);
    assert TrainableKey(UpsertAll(map[], [rec]), KeyOf(rec.row));
    ReconciledExactly(EMPTY_STORE, env, names, [rec], k => InputsOf(rec.row));
  }
}
