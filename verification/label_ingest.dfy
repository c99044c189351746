/**
 `ingest` over the label log: one batch classified, the log appended to or rewritten,
 the training mirror brought up to date or marked dirty; and loading the training set.

 A rewrite is atomic; an append that fails may leave any first part of its lines. Each of
 the three reads of the log, for the index, a rewrite and a rebuild, may fail, and then the
 log counts as empty. The mirror update may fail and leave anything behind; persisting and
 clearing the dirty marker may fail too. Nothing is evicted.
 */
module LabelIngest {
  import opened Options
  import opened LabelLog
  import opened LabelBatch

  /******* What a batch does to the mirror *******/

  datatype Inputs = Inputs(features: map<string, Feature>, asOf: int)

  function InputsOf(row: Row): Inputs {
    Inputs(row.features, AsOf(row))
  }

  /** Revisions change what the user did, never the features or the time they were taken. */
  ghost predicate FixedInputs(labels: Index, inputs: Key -> Inputs) {
    forall k <- labels :: InputsOf(labels[k].row) == inputs(k)
  }

  lemma {:induction false} UpsertKeepsInputs(index: Index, recs: seq<LabelRecord>, inputs: Key -> Inputs)
    requires FixedInputs(index, inputs)
    requires RecordsFixed(recs, inputs)
    ensures FixedInputs(UpsertAll(index, recs), inputs)
  {
    if recs != [] {
      assert recs[|recs| - 1] in recs;
      UpsertKeepsInputs(index, recs[..|recs| - 1], inputs);
    }
  }

  /** Equal inputs and an equal training label give the same example. */
  lemma SameExample(a: Row, b: Row, names: seq<string>)
    requires InputsOf(a) == InputsOf(b) && Trainable(a) && TrainingLabel(a) == TrainingLabel(b)
    ensures ExampleFor(a, names) == ExampleFor(b, names)
  {
  }

  /** The records a batch that changes no label adds to the mirror: the new keys, then the known ones now trainable. */
  function Added(known: Index, recs: seq<LabelRecord>): seq<LabelRecord> {
    NewRecords(known, recs) + Upgrades(known, recs)
  }

  /** Some key becomes trainable. */
  ghost predicate NewlyTrainable(known: Index, recs: seq<LabelRecord>) {
    exists k :: TrainableKey(UpsertAll(known, recs), k) && !TrainableKey(known, k)
  }

  lemma AddedCovers(known: Index, recs: seq<LabelRecord>, b: Batch, k: Key)
    requires BatchOk(known, recs, b) && AppendsOk(known, b.replaced, b.appends)
    requires TrainableKey(UpsertAll(known, recs), k) && !TrainableKey(known, k)
    ensures exists rec <- PendingRecords(b) + b.appends :: Trainable(rec.row) && KeyOf(rec.row) == k
  {
    var added := PendingRecords(b) + b.appends;
    if k in b.pendingNew {
      var i :| 0 <= i < |b.pendingKeys| && b.pendingKeys[i] == k;
      assert PendingRecords(b)[i] in added;
    } else {
      var rec :| rec in b.appends && KeyOf(rec.row) == k;
      assert rec in added;
    }
  }

  lemma AddedAreNew(known: Index, recs: seq<LabelRecord>, b: Batch, rec: LabelRecord)
    requires BatchOk(known, recs, b) && AppendsOk(known, b.replaced, b.appends)
    requires rec in PendingRecords(b) + b.appends && Trainable(rec.row)
    ensures var after := UpsertAll(known, recs);
            && !TrainableKey(known, KeyOf(rec.row)) && TrainableKey(after, KeyOf(rec.row))
            && TrainingLabel(after[KeyOf(rec.row)].row) == TrainingLabel(rec.row)
            && (rec in b.appends || after[KeyOf(rec.row)] == rec)
  {
    if rec !in b.appends {
      var i :| 0 <= i < |b.pendingKeys| && PendingRecords(b)[i] == rec;
      assert b.pendingKeys[i] in b.pendingKeys;
    }
  }

  lemma AddedAreDistinct(known: Index, recs: seq<LabelRecord>, b: Batch)
    requires BatchOk(known, recs, b) && AppendsOk(known, b.replaced, b.appends)
    ensures DistinctKeys(PendingRecords(b) + b.appends)
  {
    var pending := PendingRecords(b);
    forall i | 0 <= i < |pending| ensures KeyOf(pending[i].row) == b.pendingKeys[i] && b.pendingKeys[i] !in known {
      assert b.pendingKeys[i] in b.pendingKeys;
    }
    forall j | 0 <= j < |b.appends| ensures KeyOf(b.appends[j].row) in known {
      assert b.appends[j] in b.appends;
    }
  }

  /** When no label changed there is an example to add exactly when some key becomes trainable. */
  lemma AddsExactly(known: Index, recs: seq<LabelRecord>, names: seq<string>)
    requires !LabelChanged(known, recs)
    ensures ExamplesOf(Added(known, recs), names) != [] <==> NewlyTrainable(known, recs)
  {
    var b := AbsorbAll(known, [], recs);
    BatchIsDetermined(known, recs, b);
    if NewlyTrainable(known, recs) {
      var k :| TrainableKey(UpsertAll(known, recs), k) && !TrainableKey(known, k);
      AddedCovers(known, recs, b, k);
      TrainableMembers(Added(known, recs));
    }
    if ExamplesOf(Added(known, recs), names) != [] {
      TrainableMembers(Added(known, recs));
      var rec := TrainableOf(Added(known, recs))[0];
      assert rec in TrainableOf(Added(known, recs));
      AddedAreNew(known, recs, b, rec);
    }
  }

  /** Appending the added examples keeps the mirror exact when no label changed. */
  lemma IncrementalMirror(mirror: seq<Example>, known: Index, recs: seq<LabelRecord>, names: seq<string>, inputs: Key -> Inputs)
    requires !LabelChanged(known, recs) && Keyed(known) && MirrorMatches(mirror, known, names)
    requires FixedInputs(known, inputs) && RecordsFixed(recs, inputs)
    ensures MirrorMatches(mirror + ExamplesOf(Added(known, recs), names), UpsertAll(known, recs), names)
  {
    var after := UpsertAll(known, recs);
    var b := AbsorbAll(known, [], recs);
    BatchIsDetermined(known, recs, b);
    UpsertKeepsInputs(known, recs, inputs);
    AddedAreDistinct(known, recs, b);
    TrainedStillThere(known, recs, b, names, inputs);
    forall rec <- Added(known, recs) | Trainable(rec.row)
      ensures !TrainableKey(known, KeyOf(rec.row)) && TrainableKey(after, KeyOf(rec.row))
      ensures ExampleFor(after[KeyOf(rec.row)].row, names) == ExampleFor(rec.row, names)
    {
      AddedAreNew(known, recs, b, rec);
      if rec in b.appends {
        SameExample(rec.row, after[KeyOf(rec.row)].row, names);
      }
    }
    forall k | TrainableKey(after, k) && !TrainableKey(known, k)
      ensures exists rec <- Added(known, recs) :: Trainable(rec.row) && KeyOf(rec.row) == k
    {
      AddedCovers(known, recs, b, k);
    }
    ExtendMirror(mirror, known, after, Added(known, recs), names);
  }

  lemma TrainedStillThere(known: Index, recs: seq<LabelRecord>, b: Batch, names: seq<string>, inputs: Key -> Inputs)
    requires BatchOk(known, recs, b) && AppendsOk(known, b.replaced, b.appends)
    requires FixedInputs(known, inputs) && FixedInputs(UpsertAll(known, recs), inputs)
    ensures StillThere(known, UpsertAll(known, recs), names)
  {
    var after := UpsertAll(known, recs);
    forall k | TrainableKey(known, k)
      ensures TrainableKey(after, k) && ExampleFor(after[k].row, names) == ExampleFor(known[k].row, names)
    {
      SameExample(known[k].row, after[k].row, names);
    }
  }

  lemma KeysOneMore(file: seq<Record>, i: nat)
    requires i < |file|
    ensures LabelsOf(file[..i + 1]).Keys
            == LabelsOf(file[..i]).Keys + if file[i].Label? then {KeyOf(file[i].rec.row)} else {}
    ensures file[i].Label? ==> KeyOf(file[i].rec.row) in LabelsOf(file)
  {
    assert file[..i + 1][..i] == file[..i];
    if file[i].Label? {
      assert IsLabelFor(file[i], KeyOf(file[i].rec.row));
      HighestRevisionFirstSeen(file, KeyOf(file[i].rec.row));
    }
  }

  /** `recs` are the records `labels` holds of the keys of `seen`, once each. */
  ghost predicate Listed(recs: seq<LabelRecord>, labels: Index, seen: set<Key>) {
    && DistinctKeys(recs)
    && (forall rec <- recs :: KeyOf(rec.row) in seen && KeyOf(rec.row) in labels && labels[KeyOf(rec.row)] == rec)
    && (forall k <- seen :: k in labels && labels[k] in recs)
  }

  lemma ListedOneMore(recs: seq<LabelRecord>, labels: Index, seen: set<Key>, k: Key)
    requires Keyed(labels) && Listed(recs, labels, seen) && k in labels && k !in seen
    ensures Listed(recs + [labels[k]], labels, seen + {k})
  {
    var more := recs + [labels[k]];
    forall i, j | 0 <= i < j < |more| ensures KeyOf(more[i].row) != KeyOf(more[j].row) {
      if j == |recs| {
        assert recs[i] in recs;
      }
    }
    assert labels[k] in more && forall rec <- recs :: rec in more;
  }

  /** The current record of every key, in the order the keys first appear in the file. */
  method CurrentRecords(file: seq<Record>) returns (recs: seq<LabelRecord>)
    ensures Listed(recs, LabelsOf(file), LabelsOf(file).Keys)
  {
    var labels := ReadLabels(file);
    var seen: set<Key> := {};
    recs := [];
    for i := 0 to |file|
      invariant seen == LabelsOf(file[..i]).Keys && Listed(recs, labels, seen)
    {
      KeysOneMore(file, i);
      if file[i].Label? {
        var k := KeyOf(file[i].rec.row);
        if k !in seen {
          ListedOneMore(recs, labels, seen, k);
          seen := seen + {k};
          recs := recs + [labels[k]];
        }
      }
    }
    assert file[..|file|] == file;
  }

  lemma RebuiltMirror(labels: Index, recs: seq<LabelRecord>, names: seq<string>)
    requires Keyed(labels) && Listed(recs, labels, labels.Keys)
    ensures MirrorMatches(ExamplesOf(recs, names), labels, names)
  {
    assert Owned([], [], map[], names);
    ExtendMirror([], map[], labels, recs, names);
    assert [] + ExamplesOf(recs, names) == ExamplesOf(recs, names);
  }

  /** An empty mirror is exact where nothing is trainable, and only an empty one is exact for no labels. */
  lemma EmptyMirrorExactly(mirror: seq<Example>, labels: Index, names: seq<string>)
    ensures MirrorMatches([], labels, names) <==> TrainableKeys(labels) == {}
    ensures MirrorMatches(mirror, map[], names) <==> mirror == []
  {
    if MirrorMatches([], labels, names) {
      MirrorLength([], labels, names);
    } else if TrainableKeys(labels) == {} {
      assert forall k :: TrainableKey(labels, k) ==> k in TrainableKeys(labels);
      assert Owned([], [], labels, names);
    }
    assert Owned([], [], map[], names);
    if MirrorMatches(mirror, map[], names) {
      MirrorLength(mirror, map[], names);
    }
  }

  /******* What a call sees and leaves *******/

  /** The log, the labels the store takes it to hold, whether these are cached, the mirror and its marker. */
  datatype Snapshot = Snapshot(file: seq<Record>, known: Index, cached: bool, mirror: seq<Example>, dirty: bool)

  const EMPTY_STORE := Snapshot([], map[], false, [], false)

  /** `_index`: a cached index is taken as it is; a log that cannot be read yields an empty one. */
  function Loaded(s: Snapshot, readable: bool): Snapshot {
    s.(known := if s.cached || readable then s.known else map[], cached := true)
  }

  /** The store knows its file. */
  ghost predicate Synced(s: Snapshot) {
    s.known == LabelsOf(s.file)
  }

  /** The mirror is marked stale, or it is exact. */
  ghost predicate Reconciled(s: Snapshot, names: seq<string>) {
    s.dirty || MirrorMatches(s.mirror, LabelsOf(s.file), names)
  }

  ghost predicate RecordsFixed(recs: seq<LabelRecord>, inputs: Key -> Inputs) {
    forall rec <- recs :: InputsOf(rec.row) == inputs(KeyOf(rec.row))
  }

  datatype Probe = Passes | Refuses | Raises

  /** How the environment answers one call: what succeeds, and what a failed write leaves. */
  datatype IngestEnv = IngestEnv(
    stamp: int, probe: Probe, indexReads: bool, rereads: bool, logWrites: bool, landed: nat,
    rebuildReads: bool, mirrorWrites: bool, residue: seq<Example>, marks: bool, clears: bool)

  datatype MirrorStatus = Untouched | Updated(written: nat) | MirrorFailed
  datatype IngestResult = IngestResult(
    refusal: Option<BatchReason>, outcomes: seq<RowOutcome>, ack: Option<(int, int)>, mirror: MirrorStatus)

  /** The batch has the log written. */
  predicate LogWork(known: Index, recs: seq<LabelRecord>) {
    NewKeys(known, recs) != [] || Replacements(known, recs) != map[]
  }

  /** How many lines of a failed write are in the file: none of a rewrite, any first part of an append. */
  function Landed(known: Index, recs: seq<LabelRecord>, landed: nat): (n: nat)
    ensures n <= |NewRecords(known, recs)|
  {
    if Replacements(known, recs) != map[] then 0
    else if landed < |NewRecords(known, recs)| then landed
    else |NewRecords(known, recs)|
  }

  /** What a batch refused for I/O leaves. */
  function AfterIoError(s: Snapshot, recs: seq<LabelRecord>, landed: nat): Snapshot {
    s.(file := s.file + AsLines(NewRecords(s.known, recs)[..Landed(s.known, recs, landed)]))
  }

  /** The mirror is to be rebuilt from the log. */
  predicate Rebuilds(s: Snapshot, recs: seq<LabelRecord>) {
    s.dirty || LabelChanged(s.known, recs)
  }

  /** The mirror has work: a rebuild, or an example to add. */
  ghost predicate MirrorWork(s: Snapshot, recs: seq<LabelRecord>) {
    Rebuilds(s, recs) || NewlyTrainable(s.known, recs)
  }

  /** What a read of the log yields. */
  function ReadLog(file: seq<Record>, readable: bool): seq<Record> {
    if readable then file else []
  }

  /** The mirror step of an accepted batch. */
  ghost predicate MirrorStep(before: Snapshot, after: Snapshot, env: IngestEnv, status: MirrorStatus, names: seq<string>,
                             recs: seq<LabelRecord>) {
    match status
    case Untouched => !MirrorWork(before, recs) && after.mirror == before.mirror && after.dirty == before.dirty
    case MirrorFailed =>
      MirrorWork(before, recs) && !env.mirrorWrites && after.mirror == env.residue && after.dirty == (before.dirty || env.marks)
    case Updated(_) =>
      && MirrorWork(before, recs) && env.mirrorWrites
      && if Rebuilds(before, recs) then
           && MirrorMatches(after.mirror, LabelsOf(ReadLog(after.file, env.rebuildReads)), names)
           && after.dirty == (before.dirty && !env.clears)
         else
           after.mirror == before.mirror + ExamplesOf(Added(before.known, recs), names) && after.dirty == before.dirty
  }

  /** The file an accepted batch leaves. A rewrite reads the log again; one that cannot writes the new records alone. */
  function FileAfter(known: Index, file: seq<Record>, recs: seq<LabelRecord>, rereads: bool): seq<Record> {
    if rereads || Replacements(known, recs) == map[] then Written(known, file, recs) else AsLines(NewRecords(known, recs))
  }

  /** The log and the labels after an accepted batch. */
  ghost predicate LogStep(before: Snapshot, after: Snapshot, recs: seq<LabelRecord>, rereads: bool) {
    && after.known == UpsertAll(before.known, recs) && after.cached
    && after.file == FileAfter(before.known, before.file, recs, rereads)
  }

  /** Log and mirror step of an accepted batch. */
  ghost predicate AcceptedStep(before: Snapshot, after: Snapshot, env: IngestEnv, status: MirrorStatus, names: seq<string>,
                               recs: seq<LabelRecord>) {
    match env
    case IngestEnv(_, _, _, rereads, _, _, _, _, _, _, _) =>
      && LogStep(before, after, recs, rereads)
      && MirrorStep(before, after, env, status, names, recs)
  }

  /** The log write succeeds, or there is none. */
  predicate LogAccepts(s: Snapshot, env: IngestEnv, recs: seq<LabelRecord>) {
    env.logWrites || !LogWork(s.known, recs)
  }

  /** Only a completed rebuild takes the marker away; one that read the log leaves an exact mirror. */
  lemma MarkerGoesWithARebuild(before: Snapshot, after: Snapshot, env: IngestEnv, status: MirrorStatus, names: seq<string>,
                               recs: seq<LabelRecord>)
    requires MirrorStep(before, after, env, status, names, recs) && before.dirty && !after.dirty
    ensures MirrorMatches(after.mirror, LabelsOf(ReadLog(after.file, env.rebuildReads)), names)
  {
  }

  /** A batch with nothing to write leaves the file as writing it would. */
  lemma NothingWritten(known: Index, file: seq<Record>, recs: seq<LabelRecord>)
    requires !LogWork(known, recs)
    ensures Written(known, file, recs) == file && UpsertAll(known, recs) == known
  {
    var b := AbsorbAll(known, file, recs);
    BatchIsDetermined(known, recs, b);
    assert forall k :: k !in b.pendingNew;
  }

  /** The loop collects something to write exactly when the records ask for it. */
  lemma WorkIsDetermined(known: Index, recs: seq<LabelRecord>, b: Batch)
    requires BatchOk(known, recs, b)
    ensures LogWork(known, recs) <==> b.pendingKeys != [] || b.replaced != map[]
  {
    BatchIsDetermined(known, recs, b);
  }

  /** A store that knows its file upserts it, and knows it still, unless a rewrite cannot read it. */
  lemma SyncedLogStep(before: Snapshot, after: Snapshot, recs: seq<LabelRecord>, rereads: bool)
    requires Synced(before) && LogStep(before, after, recs, rereads)
    requires rereads || Replacements(before.known, recs) == map[]
    ensures Synced(after) && LogUpserted(before.file, recs, after.file)
  {
    WrittenUpserts(before.file, recs);
  }

  /** What another writer, or a new process, sees: no index is cached, and reading the log yields its labels. */
  function Reopened(s: Snapshot): Snapshot {
    s.(known := LabelsOf(s.file), cached := false)
  }

  lemma NothingLands(file: seq<Record>, recs: seq<LabelRecord>)
    ensures file + AsLines(recs[..0]) == file
  {
  }

  /******* The store *******/

  class LabelStore {
    const kind: string
    const contract: Contract
    var file: seq<Record>
    var index: Option<Index>
    var mirror: seq<Example>
    var dirty: bool

    /** What the store takes its labels to be: the cached index, or what the file reads back as. */
    ghost function Known(): Index
      reads this
    {
      if index.Some? then index.value else LabelsOf(file)
    }

    ghost predicate Valid()
      reads this
    {
      Keyed(Known())
    }

    ghost function Abs(): Snapshot
      reads this
    {
      Snapshot(file, Known(), index.Some?, mirror, dirty)
    }

    constructor (kind: string, contract: Contract)
      ensures Valid() && Synced(Abs()) && Reconciled(Abs(), contract.names)
      ensures file == [] && this.kind == kind && this.contract == contract
    {
      this.kind, this.contract := kind, contract;
      file, index, mirror, dirty := [], None, [], false;
      new;
      assert Owned([], [], map[], contract.names);
    }

    /** `_index`. */
    method LoadIndex(readable: bool) returns (m: Index)
      modifies this`index
      ensures Abs() == Loaded(old(Abs()), readable) && index == Some(m)
    {
      if index.Some? {
        return index.value;
      }
      m := ReadLabels(ReadLog(file, readable));
      index := Some(m);
    }

    /** `append_records` by another writer drops the cached index, and so does a new process. */
    method DropIndex()
      modifies this`index
      ensures Valid() && Abs() == Reopened(old(Abs()))
    {
      index := None;
    }

    /** `_mirror`: rebuild or append; a failure marks the mirror dirty, if the marker can be written. */
    method UpdateMirror(rebuild: bool, added: seq<LabelRecord>, env: IngestEnv) returns (status: MirrorStatus)
      modifies this`mirror, this`dirty
      ensures var work := rebuild || ExamplesOf(added, contract.names) != [];
              match status
              case Untouched => !work && mirror == old(mirror) && dirty == old(dirty)
              case MirrorFailed => work && !env.mirrorWrites && mirror == env.residue && dirty == (old(dirty) || env.marks)
              case Updated(_) =>
                && work && env.mirrorWrites
                && if rebuild then
                     && MirrorMatches(mirror, LabelsOf(ReadLog(file, env.rebuildReads)), contract.names)
                     && dirty == (old(dirty) && !env.clears)
                   else mirror == old(mirror) + ExamplesOf(added, contract.names) && dirty == old(dirty)
    {
      var examples := ExamplesOf(added, contract.names);
      if !rebuild && examples == [] {
        return Untouched;
      }
      if !env.mirrorWrites {
        mirror := env.residue;
        dirty := dirty || env.marks;
        return MirrorFailed;
      }
      if rebuild {
        var read := ReadLog(file, env.rebuildReads);
        var recs := CurrentRecords(read);
        RebuiltMirror(LabelsOf(read), recs, contract.names);
        mirror := ExamplesOf(recs, contract.names);
        dirty := dirty && !env.clears;
        return Updated(|mirror|);
      }
      mirror := mirror + examples;
      return Updated(|examples|);
    }

    /** The mirror step of one batch. */
    method Reconcile(b: Batch, env: IngestEnv, ghost before: Snapshot, ghost recs: seq<LabelRecord>) returns (status: MirrorStatus)
      requires before.mirror == mirror && before.dirty == dirty
      requires Absorbed(before.known, before.file, recs, dirty, b)
      modifies this`mirror, this`dirty
      ensures MirrorStep(before, Abs(), env, status, contract.names, recs)
    {
      BatchIsDetermined(before.known, recs, b);
      var added := if b.needsRebuild then [] else PendingRecords(b) + b.appends;
      if !b.needsRebuild {
        AddsExactly(before.known, recs, contract.names);
      }
      status := UpdateMirror(b.needsRebuild, added, env);
    }

    /** The label log write: append, or rewrite when a known label was superseded; a failed one leaves what landed. */
    method WriteLog(b: Batch, known: Index, env: IngestEnv, ghost recs: seq<LabelRecord>) returns (ok: bool)
      requires index == Some(known) && Absorbed(known, file, recs, dirty, b)
      modifies this`file, this`index
      ensures ok == env.logWrites
      ensures ok ==> index == Some(UpsertAll(known, recs)) && file == FileAfter(known, old(file), recs, env.rereads)
      ensures !ok ==> Abs() == AfterIoError(old(Abs()), recs, env.landed) && index == old(index)
    {
      BatchIsDetermined(known, recs, b);
      var pending := PendingRecords(b);
      if b.replaced != map[] {
        if !env.logWrites {
          NothingLands(file, pending);
          return false;
        }
        var kept := Rewrite(ReadLog(file, env.rereads), b.replaced, known);
        file := kept + AsLines(pending);
      } else {
        if !env.logWrites {
          file := file + AsLines(pending[..if env.landed < |pending| then env.landed else |pending|]);
          return false;
        }
        file := file + AsLines(pending);
      }
      index := Some(known + b.replaced + b.pendingNew);
      return true;
    }

    /** `_ingest` once contract and probe have passed. */
    method IngestRows(client: string, rows: seq<Row>, env: IngestEnv) returns (result: IngestResult)
      requires Valid()
      modifies this
      ensures Valid()
      ensures result.refusal.Some? ==> result.outcomes == [] && result.ack.None?
      ensures var start, recs := Loaded(old(Abs()), env.indexReads), AcceptedRecords(rows, client, kind, env.stamp);
              if LogAccepts(start, env, recs) then
                && result.refusal.None?
                && result.outcomes == OutcomesOf(start.known, rows, client, kind, env.stamp)
                && result.ack == LastSent(rows)
                && AcceptedStep(start, Abs(), env, result.mirror, contract.names, recs)
              else result.refusal == Some(IoError) && Abs() == AfterIoError(start, recs, env.landed)
    {
      var known := LoadIndex(env.indexReads);
      ghost var start := Abs();
      var b, outcomes, ack := Classify(rows, client, kind, env.stamp, known, dirty, file);
      ghost var recs := AcceptedRecords(rows, client, kind, env.stamp);
      WorkIsDetermined(known, recs, b);
      if b.pendingKeys == [] && b.replaced == map[] {
        NothingWritten(known, file, recs);
      } else {
        var ok := WriteLog(b, known, env, recs);
        if !ok {
          return IngestResult(Some(IoError), [], None, Untouched);
        }
      }
      assert LogStep(start, Abs(), recs, env.rereads);
      var status := Reconcile(b, env, start, recs);
      assert AcceptedStep(start, Abs(), env, status, contract.names, recs);
      return IngestResult(None, outcomes, ack, status);
    }

    /**
     One batch. One refused by the contract or the probe, or by an I/O error before anything is
     read, changes nothing; one whose log write fails leaves what landed; neither acks anything.
     Otherwise every row is judged in order and the last one sent is acked, the log is written
     from the accepted rows, and the mirror brought up to date or its failure marked.
     */
    method Ingest(client: string, rows: seq<Row>, env: IngestEnv) returns (result: IngestResult)
      requires Valid()
      modifies this
      ensures Valid()
      ensures result.refusal.Some? ==> result.outcomes == [] && result.ack.None?
      ensures result.refusal in {Some(ContractMismatch), Some(NamesMismatch)} <==> exists row <- rows :: !RowFits(row, contract)
      ensures (exists row <- rows :: !RowFits(row, contract)) ==> Abs() == old(Abs())
      ensures var start, recs := Loaded(old(Abs()), env.indexReads), AcceptedRecords(rows, client, kind, env.stamp);
              (forall row <- rows :: RowFits(row, contract)) ==>
                match env.probe
                case Refuses => result.refusal == Some(RetainedRefused) && Abs() == old(Abs())
                case Raises => result.refusal == Some(IoError) && Abs() == old(Abs())
                case Passes =>
                  if LogAccepts(start, env, recs) then
                    && result.refusal.None?
                    && result.outcomes == OutcomesOf(start.known, rows, client, kind, env.stamp)
                    && result.ack == LastSent(rows)
                    && AcceptedStep(start, Abs(), env, result.mirror, contract.names, recs)
                  else result.refusal == Some(IoError) && Abs() == AfterIoError(start, recs, env.landed)
      ensures old(dirty) && !dirty ==> MirrorMatches(mirror, LabelsOf(ReadLog(file, env.rebuildReads)), contract.names)
    {
      var refusal := ContractRefusal(rows, contract);
      if refusal.Some? {
        return IngestResult(refusal, [], None, Untouched);
      }
      if !env.probe.Passes? {
        return IngestResult(Some(if env.probe.Refuses? then RetainedRefused else IoError), [], None, Untouched);
      }
      ghost var start := Loaded(Abs(), env.indexReads);
      result := IngestRows(client, rows, env);
      if start.dirty && !dirty {
        MarkerGoesWithARebuild(start, Abs(), env, result.mirror, contract.names, AcceptedRecords(rows, client, kind, env.stamp));
      }
    }

    /** `load_training_set`. */
    method LoadTrainingSet(readable: bool) returns (rows: Option<seq<Example>>)
      ensures rows == TrainingRows(Abs(), contract.names, readable)
    {
      if dirty {
        return None;
      }
      var labels := ReadLabels(ReadLog(file, readable));
      var kept: seq<Example> := [];
      for i := 0 to |mirror|
        invariant kept == NotLeaked(mirror[..i], labels, contract.names)
      {
        assert mirror[..i + 1][..i] == mirror[..i];
        if !Leaked(mirror[i], labels, contract.names) {
          kept := kept + [mirror[i]];
        }
      }
      assert mirror[..|mirror|] == mirror;
      return if |kept| < MIN_TRAINING_ROWS then None else Some(kept);
    }
  }

  /** The example of a current, trainable label. */
  ghost predicate IsCurrent(e: Example, labels: Index, names: seq<string>) {
    exists k :: TrainableKey(labels, k) && e == ExampleFor(labels[k].row, names)
  }

  lemma MirrorIsTheLabels(mirror: seq<Example>, labels: Index, names: seq<string>)
    requires MirrorMatches(mirror, labels, names)
    ensures forall e <- mirror :: IsCurrent(e, labels, names)
    ensures forall k | TrainableKey(labels, k) :: ExampleFor(labels[k].row, names) in mirror
  {
    var owners :| Owned(mirror, owners, labels, names);
    forall e <- mirror ensures IsCurrent(e, labels, names) {
      var i :| 0 <= i < |mirror| && mirror[i] == e;
      assert Owns(mirror, owners, labels, names, i);
    }
    forall k | TrainableKey(labels, k) ensures ExampleFor(labels[k].row, names) in mirror {
      var i :| 0 <= i < |owners| && owners[i] == k;
      assert Owns(mirror, owners, labels, names, i) && mirror[i] in mirror;
    }
  }

  /******* Loading the training set *******/

  const MIN_TRAINING_ROWS := 20

  predicate HasEveryName(row: Row, names: seq<string>) {
    forall name <- names :: name in row.features
  }

  /** Signatures of incomplete label rows whose vector is known... */
  function LeakedVectors(labels: Index, names: seq<string>): set<(int, seq<Feature>)> {
    set k | k in labels && !labels[k].row.complete && HasEveryName(labels[k].row, names) ::
      (AsOf(labels[k].row), VectorOf(labels[k].row, names))
  }

  /** ...and times at which only incomplete rows with missing features were taken. */
  function LeakedTimes(labels: Index, names: seq<string>): set<int> {
    (set k | k in labels && !labels[k].row.complete && !HasEveryName(labels[k].row, names) :: AsOf(labels[k].row))
    - (set k | k in labels && labels[k].row.complete :: AsOf(labels[k].row))
  }

  predicate Leaked(e: Example, labels: Index, names: seq<string>) {
    |e.x| != |names| || (e.asOf, e.x) in LeakedVectors(labels, names) || e.asOf in LeakedTimes(labels, names)
  }

  /** The mirror's examples less those an incomplete label row matches. */
  function NotLeaked(mirror: seq<Example>, labels: Index, names: seq<string>): (kept: seq<Example>)
    ensures forall e :: e in kept <==> e in mirror && !Leaked(e, labels, names)
  {
    if mirror == [] then []
    else
      var n := |mirror| - 1;
      assert mirror == mirror[..n] + [mirror[n]];
      var before := NotLeaked(mirror[..n], labels, names);
      if Leaked(mirror[n], labels, names) then before else before + [mirror[n]]
  }

  /** What is trained on: nothing while the mirror is marked, nor below the minimum. */
  function TrainingRows(s: Snapshot, names: seq<string>, readable: bool): Option<seq<Example>> {
    var kept := NotLeaked(s.mirror, LabelsOf(ReadLog(s.file, readable)), names);
    if s.dirty || |kept| < MIN_TRAINING_ROWS then None else Some(kept)
  }

  /**
   From a mirror that is exact or marked only current labels are trained on, and all of them
   but those that are leaked by what could be read of the log.
   */
  lemma TrainingRowsAreCurrent(s: Snapshot, names: seq<string>, readable: bool)
    requires Reconciled(s, names) && TrainingRows(s, names, readable).Some?
    ensures var labels, read := LabelsOf(s.file), LabelsOf(ReadLog(s.file, readable));
            var rows := TrainingRows(s, names, readable).value;
            && |rows| >= MIN_TRAINING_ROWS
            && (forall e <- rows :: IsCurrent(e, labels, names) && !Leaked(e, read, names))
            && (forall k | TrainableKey(labels, k) ::
                  Leaked(ExampleFor(labels[k].row, names), read, names) || ExampleFor(labels[k].row, names) in rows)
  {
    MirrorIsTheLabels(s.mirror, LabelsOf(s.file), names);
  }
}
