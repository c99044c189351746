/**
 One batch of label rows: the loop that classifies it against the known labels, and the
 log it leaves. Everything the loop collects is a function of the known labels and the
 accepted records, whatever the file holds.
 */
module LabelBatch {
  import opened Options
  import opened LabelLog

  /******* Classifying a batch *******/

  datatype RowStatus = Refused(reason: RowReason) | New | Superseding | Duplicate
  datatype RowOutcome = RowOutcome(status: RowStatus, ts: int, revision: int)

  /** The records of the rows that are not refused, stamped, in the order sent. */
  function AcceptedRecords(rows: seq<Row>, client: string, kind: string, stamp: int): seq<LabelRecord> {
    if rows == [] then []
    else
      var n := |rows| - 1;
      Accepting(AcceptedRecords(rows[..n], client, kind, stamp), rows[n], client, kind, stamp)
  }

  /** A refused row adds nothing to the stream; any other adds its stamped record. */
  function Accepting(recs: seq<LabelRecord>, row: Row, client: string, kind: string, stamp: int): seq<LabelRecord> {
    if RowRefusal(row, client, kind).None? then recs + [LabelRecord(row, stamp)] else recs
  }

  /** What the index, at the moment a row is reached, makes of it. */
  function OutcomeAgainst(now: Index, row: Row, client: string, kind: string): RowOutcome {
    var refusal := RowRefusal(row, client, kind);
    var status := if refusal.Some? then Refused(refusal.value)
                  else if KeyOf(row) !in now then New
                  else if row.revision > now[KeyOf(row)].row.revision then Superseding
                  else Duplicate;
    RowOutcome(status, row.ts, row.revision)
  }

  /** Each row judged against everything accepted before it, earlier rows of its own batch included. */
  function OutcomesOf(index: Index, rows: seq<Row>, client: string, kind: string, stamp: int): (out: seq<RowOutcome>)
    ensures |out| == |rows|
  {
    if rows == [] then []
    else
      var n := |rows| - 1;
      var now := UpsertAll(index, AcceptedRecords(rows[..n], client, kind, stamp));
      OutcomesOf(index, rows[..n], client, kind, stamp) + [OutcomeAgainst(now, rows[n], client, kind)]
  }

  datatype Batch = Batch(
    pendingKeys: seq<Key>, pendingNew: Index, replaced: Index, appends: seq<LabelRecord>, needsRebuild: bool)

  function RecordsFor(keys: seq<Key>, m: Index): seq<LabelRecord>
    requires forall k <- keys :: k in m
  {
    seq(|keys|, i requires 0 <= i < |keys| => m[keys[i]])
  }

  /** The new records in the order their keys were first seen. */
  function PendingRecords(b: Batch): seq<LabelRecord>
    requires forall k <- b.pendingKeys :: k in b.pendingNew
  {
    RecordsFor(b.pendingKeys, b.pendingNew)
  }

  function AsLines(recs: seq<LabelRecord>): seq<Record> {
    seq(|recs|, i requires 0 <= i < |recs| => Label(recs[i]))
  }

  /******* What a batch amounts to *******/

  /** The keys a stream of records adds, in the order first seen. */
  function NewKeys(index: Index, recs: seq<LabelRecord>): (keys: seq<Key>)
    ensures forall k <- keys :: k in UpsertAll(index, recs)
  {
    if recs == [] then []
    else
      var before, k := NewKeys(index, recs[..|recs| - 1]), KeyOf(recs[|recs| - 1].row);
      if k in index || k in before then before else before + [k]
  }

  /** The records of those keys, each at its highest revision. */
  function NewRecords(index: Index, recs: seq<LabelRecord>): seq<LabelRecord> {
    RecordsFor(NewKeys(index, recs), UpsertAll(index, recs))
  }

  /** The known labels a stream supersedes. */
  function Replacements(index: Index, recs: seq<LabelRecord>): Index {
    map k | k in index && UpsertAll(index, recs)[k] != index[k] :: UpsertAll(index, recs)[k]
  }

  /** `rec`, arriving when `now` is known, supersedes a label of `index`. */
  predicate Supersedes(index: Index, now: Index, rec: LabelRecord) {
    var k := KeyOf(rec.row);
    k in index && k in now && rec.row.revision > now[k].row.revision
  }

  /** Some record of the stream changes or withdraws the training label of a known key. */
  predicate LabelChanged(index: Index, recs: seq<LabelRecord>) {
    recs != [] &&
    var before, rec := recs[..|recs| - 1], recs[|recs| - 1];
    var now := UpsertAll(index, before);
    || LabelChanged(index, before)
    || (Supersedes(index, now, rec) && Trainable(now[KeyOf(rec.row)].row)
        && TrainingLabel(now[KeyOf(rec.row)].row) != TrainingLabel(rec.row))
  }

  /** The records that make a known, untrainable key trainable. */
  function Upgrades(index: Index, recs: seq<LabelRecord>): seq<LabelRecord> {
    if recs == [] then []
    else
      var fewer, rec := recs[..|recs| - 1], recs[|recs| - 1];
      var before, now := Upgrades(index, fewer), UpsertAll(index, fewer);
      if Supersedes(index, now, rec) && !Trainable(now[KeyOf(rec.row)].row) && Trainable(rec.row) then before + [rec]
      else before
  }

  lemma OneMore(index: Index, recs: seq<LabelRecord>, rec: LabelRecord)
    ensures var now, k := UpsertAll(index, recs), KeyOf(rec.row);
            && UpsertAll(index, recs + [rec]) == Upsert(now, rec)
            && NewKeys(index, recs + [rec])
               == (if k in index || k in NewKeys(index, recs) then NewKeys(index, recs) else NewKeys(index, recs) + [k])
            && (LabelChanged(index, recs + [rec])
                <==> LabelChanged(index, recs)
                     || (Supersedes(index, now, rec) && Trainable(now[k].row)
                         && TrainingLabel(now[k].row) != TrainingLabel(rec.row)))
            && Upgrades(index, recs + [rec])
               == if Supersedes(index, now, rec) && !Trainable(now[k].row) && Trainable(rec.row)
                  then Upgrades(index, recs) + [rec] else Upgrades(index, recs)
  {
    assert (recs + [rec])[..|recs|] == recs;
  }

  /** `b` holds what upserting `recs` one by one does to `index`. */
  ghost predicate BatchOk(index: Index, recs: seq<LabelRecord>, b: Batch) {
    && Keyed(b.pendingNew) && Keyed(b.replaced)
    && (forall k :: k in b.pendingKeys <==> k in b.pendingNew)
    && (forall i, j | 0 <= i < j < |b.pendingKeys| :: b.pendingKeys[i] != b.pendingKeys[j])
    && b.pendingNew.Keys !! index.Keys
    && b.replaced.Keys <= index.Keys
    && UpsertAll(index, recs) == index + b.replaced + b.pendingNew
    && b.pendingKeys == NewKeys(index, recs)
    && (forall k <- b.replaced :: b.replaced[k].row.revision > index[k].row.revision)
  }

  /** ...and what it does to a file without stale duplicates. */
  ghost predicate FileOk(file: seq<Record>, recs: seq<LabelRecord>, b: Batch)
    requires forall k <- b.pendingKeys :: k in b.pendingNew
  {
    FileUpsertAll(file, recs) == Overlay(file, b.replaced) + AsLines(PendingRecords(b))
  }

  /** The queued mirror examples cover every key whose label became trainable, and no label changed. */
  ghost predicate AppendsOk(index: Index, replaced: Index, appends: seq<LabelRecord>)
    requires replaced.Keys <= index.Keys
  {
    && DistinctKeys(appends)
    && (forall k <- replaced | Trainable(index[k].row) ::
          TrainingLabel(replaced[k].row) == TrainingLabel(index[k].row))
    && (forall rec <- appends ::
          && KeyOf(rec.row) in replaced && !Trainable(index[KeyOf(rec.row)].row) && Trainable(rec.row)
          && TrainingLabel(replaced[KeyOf(rec.row)].row) == TrainingLabel(rec.row))
    && (forall k <- replaced | !Trainable(index[k].row) && Trainable(replaced[k].row) ::
          exists rec <- appends :: KeyOf(rec.row) == k)
  }

  /** The loop's invariant: what `b` says about the index, the file and the mirror. */
  ghost predicate Absorbed(index: Index, file: seq<Record>, recs: seq<LabelRecord>, dirty: bool, b: Batch) {
    match b
    case Batch(_, _, _, appends, needsRebuild) =>
      && BatchOk(index, recs, b)
      && (index == LabelsOf(file) && UniqueKeys(file) ==> FileOk(file, recs, b))
      && (LabelChanged(index, recs) || AppendsOk(index, b.replaced, b.appends))
      && (forall rec <- appends :: rec in recs)
      && needsRebuild == (dirty || LabelChanged(index, recs))
      && appends == Upgrades(index, recs)
  }

  function Extended(b: Batch, rec: LabelRecord): Batch {
    b.(pendingKeys := b.pendingKeys + [KeyOf(rec.row)], pendingNew := b.pendingNew[KeyOf(rec.row) := rec])
  }

  lemma UpdateRight<K, V>(a: map<K, V>, b: map<K, V>, k: K, v: V)
    ensures a + b[k := v] == (a + b)[k := v]
  {
  }

  lemma UpdateLeft<K, V>(a: map<K, V>, b: map<K, V>, k: K, v: V)
    requires k !in b
    ensures a[k := v] + b == (a + b)[k := v]
  {
  }

  lemma NewKeyStep(index: Index, recs: seq<LabelRecord>, b: Batch, rec: LabelRecord)
    requires BatchOk(index, recs, b) && KeyOf(rec.row) !in b.pendingNew && KeyOf(rec.row) !in index
    ensures BatchOk(index, recs + [rec], Extended(b, rec))
  {
    OneMore(index, recs, rec);
    UpdateRight(index + b.replaced, b.pendingNew, KeyOf(rec.row), rec);
  }

  lemma PendingStep(index: Index, recs: seq<LabelRecord>, b: Batch, rec: LabelRecord)
    requires BatchOk(index, recs, b) && KeyOf(rec.row) in b.pendingNew
    requires rec.row.revision > b.pendingNew[KeyOf(rec.row)].row.revision
    ensures BatchOk(index, recs + [rec], b.(pendingNew := b.pendingNew[KeyOf(rec.row) := rec]))
  {
    OneMore(index, recs, rec);
    UpdateRight(index + b.replaced, b.pendingNew, KeyOf(rec.row), rec);
  }

  lemma ReplacedStep(index: Index, recs: seq<LabelRecord>, b: Batch, rec: LabelRecord)
    requires BatchOk(index, recs, b) && KeyOf(rec.row) !in b.pendingNew && KeyOf(rec.row) in index
    requires rec.row.revision > UpsertAll(index, recs)[KeyOf(rec.row)].row.revision
    ensures BatchOk(index, recs + [rec], b.(replaced := b.replaced[KeyOf(rec.row) := rec]))
  {
    OneMore(index, recs, rec);
    UpdateRight(index, b.replaced, KeyOf(rec.row), rec);
    UpdateLeft(index + b.replaced, b.pendingNew, KeyOf(rec.row), rec);
  }

  lemma DuplicateStep(index: Index, recs: seq<LabelRecord>, b: Batch, rec: LabelRecord)
    requires BatchOk(index, recs, b) && KeyOf(rec.row) in UpsertAll(index, recs)
    requires rec.row.revision <= UpsertAll(index, recs)[KeyOf(rec.row)].row.revision
    ensures BatchOk(index, recs + [rec], b)
  {
    OneMore(index, recs, rec);
  }

  lemma OverlayTwice(file: seq<Record>, m: Index, rec: LabelRecord)
    requires Keyed(m)
    ensures Overlay(Overlay(file, m), map[KeyOf(rec.row) := rec]) == Overlay(file, m[KeyOf(rec.row) := rec])
  {
  }

  lemma OverlayAbsent(file: seq<Record>, m: Index, rec: LabelRecord)
    requires Keyed(m) && KeyOf(rec.row) !in LabelsOf(file)
    ensures Overlay(Overlay(file, m), map[KeyOf(rec.row) := rec]) == Overlay(file, m)
  {
    forall i | 0 <= i < |file| && file[i].Label? ensures KeyOf(file[i].rec.row) != KeyOf(rec.row) {
      HighestRevisionFirstSeen(file, KeyOf(file[i].rec.row));
      assert IsLabelFor(file[i], KeyOf(file[i].rec.row));
    }
  }

  lemma OverlayConcat(a: seq<Record>, b: seq<Record>, m: Index)
    ensures Overlay(a + b, m) == Overlay(a, m) + Overlay(b, m)
  {
  }

  lemma OverlayPending(b: Batch, rec: LabelRecord)
    requires Keyed(b.pendingNew) && forall k <- b.pendingKeys :: k in b.pendingNew
    ensures Overlay(AsLines(PendingRecords(b)), map[KeyOf(rec.row) := rec])
            == AsLines(PendingRecords(b.(pendingNew := b.pendingNew[KeyOf(rec.row) := rec])))
  {
    var k := KeyOf(rec.row);
    var lines := AsLines(PendingRecords(b));
    forall i | 0 <= i < |lines| ensures Overlay(lines, map[k := rec])[i] == Label(b.pendingNew[k := rec][b.pendingKeys[i]]) {
      assert KeyOf(lines[i].rec.row) == b.pendingKeys[i];
    }
  }

  lemma FileOneMore(file: seq<Record>, recs: seq<LabelRecord>, rec: LabelRecord)
    requires UniqueKeys(file)
    ensures FileUpsertAll(file, recs + [rec]) == FileUpsert(FileUpsertAll(file, recs), rec)
    ensures LabelsOf(FileUpsertAll(file, recs)) == UpsertAll(LabelsOf(file), recs)
  {
    assert (recs + [rec])[..|recs|] == recs;
    FileFollowsIndex(file, recs);
  }

  lemma PendingGrows(b: Batch, rec: LabelRecord)
    requires forall k <- b.pendingKeys :: k in b.pendingNew && k != KeyOf(rec.row)
    ensures AsLines(PendingRecords(Extended(b, rec))) == AsLines(PendingRecords(b)) + [Label(rec)]
  {
    var before, after := PendingRecords(b), PendingRecords(Extended(b, rec));
    forall i | 0 <= i < |before| ensures after[i] == before[i] {
      assert b.pendingKeys[i] in b.pendingKeys;
    }
    assert after == before + [rec];
  }

  lemma FileNewKeyStep(file: seq<Record>, recs: seq<LabelRecord>, b: Batch, rec: LabelRecord)
    requires UniqueKeys(file) && BatchOk(LabelsOf(file), recs, b) && FileOk(file, recs, b)
    requires KeyOf(rec.row) !in b.pendingNew && KeyOf(rec.row) !in LabelsOf(file)
    ensures FileOk(file, recs + [rec], Extended(b, rec))
  {
    FileOneMore(file, recs, rec);
    PendingGrows(b, rec);
  }

  lemma FilePendingStep(file: seq<Record>, recs: seq<LabelRecord>, b: Batch, rec: LabelRecord)
    requires UniqueKeys(file) && BatchOk(LabelsOf(file), recs, b) && FileOk(file, recs, b)
    requires KeyOf(rec.row) in b.pendingNew && rec.row.revision > b.pendingNew[KeyOf(rec.row)].row.revision
    ensures FileOk(file, recs + [rec], b.(pendingNew := b.pendingNew[KeyOf(rec.row) := rec]))
  {
    FileOneMore(file, recs, rec);
    OverlayConcat(Overlay(file, b.replaced), AsLines(PendingRecords(b)), map[KeyOf(rec.row) := rec]);
    OverlayAbsent(file, b.replaced, rec);
    OverlayPending(b, rec);
  }

  lemma FileReplacedStep(file: seq<Record>, recs: seq<LabelRecord>, b: Batch, rec: LabelRecord)
    requires UniqueKeys(file) && BatchOk(LabelsOf(file), recs, b) && FileOk(file, recs, b)
    requires KeyOf(rec.row) !in b.pendingNew && KeyOf(rec.row) in LabelsOf(file)
    requires rec.row.revision > UpsertAll(LabelsOf(file), recs)[KeyOf(rec.row)].row.revision
    ensures FileOk(file, recs + [rec], b.(replaced := b.replaced[KeyOf(rec.row) := rec]))
  {
    FileOneMore(file, recs, rec);
    OverlayConcat(Overlay(file, b.replaced), AsLines(PendingRecords(b)), map[KeyOf(rec.row) := rec]);
    OverlayTwice(file, b.replaced, rec);
    OverlayPending(b, rec);
    assert PendingRecords(b.(pendingNew := b.pendingNew[KeyOf(rec.row) := rec])) == PendingRecords(b);
  }

  lemma FileDuplicateStep(file: seq<Record>, recs: seq<LabelRecord>, b: Batch, rec: LabelRecord)
    requires UniqueKeys(file) && BatchOk(LabelsOf(file), recs, b) && FileOk(file, recs, b)
    requires KeyOf(rec.row) in UpsertAll(LabelsOf(file), recs)
    requires rec.row.revision <= UpsertAll(LabelsOf(file), recs)[KeyOf(rec.row)].row.revision
    ensures FileOk(file, recs + [rec], b)
  {
    FileOneMore(file, recs, rec);
  }

  lemma AppendsStep(index: Index, b: Batch, rec: LabelRecord, after: Batch)
    requires b.replaced.Keys <= index.Keys && AppendsOk(index, b.replaced, b.appends) && KeyOf(rec.row) in index
    requires var k := KeyOf(rec.row);
             var stored := if k in b.replaced then b.replaced[k] else index[k];
             && (Trainable(stored.row) ==> TrainingLabel(rec.row) == TrainingLabel(stored.row))
             && after.replaced == b.replaced[k := rec]
             && after.appends == if !Trainable(stored.row) && Trainable(rec.row) then b.appends + [rec] else b.appends
    ensures AppendsOk(index, after.replaced, after.appends)
  {
    var k := KeyOf(rec.row);
    forall j <- after.replaced | !Trainable(index[j].row) && Trainable(after.replaced[j].row)
      ensures exists r <- after.appends :: KeyOf(r.row) == j
    {
      if j == k && after.appends != b.appends {
        assert rec in after.appends;
      } else {
        var r :| r in b.appends && KeyOf(r.row) == j;
        assert r in after.appends;
      }
    }
  }

  /** The record the loop compares a row with: `pending_new`, then `replaced`, then the index. */
  function StoredFor(index: Index, b: Batch, k: Key): Option<LabelRecord> {
    if k in b.pendingNew then Some(b.pendingNew[k])
    else if k in b.replaced then Some(b.replaced[k])
    else if k in index then Some(index[k])
    else None
  }

  lemma StoredIsCurrent(index: Index, file: seq<Record>, recs: seq<LabelRecord>, dirty: bool, b: Batch, k: Key)
    requires Absorbed(index, file, recs, dirty, b)
    ensures var now := UpsertAll(index, recs);
            StoredFor(index, b, k) == if k in now then Some(now[k]) else None
  {
  }

  lemma AbsorbNothing(index: Index, file: seq<Record>, dirty: bool)
    ensures Absorbed(index, file, [], dirty, Batch([], map[], map[], [], dirty))
  {
    assert file == Overlay(file, map[]) + AsLines(PendingRecords(Batch([], map[], map[], [], dirty)));
  }

  lemma AbsorbNew(index: Index, file: seq<Record>, recs: seq<LabelRecord>, dirty: bool, b: Batch, rec: LabelRecord)
    requires Absorbed(index, file, recs, dirty, b)
    requires StoredFor(index, b, KeyOf(rec.row)).None?
    ensures Absorbed(index, file, recs + [rec], dirty, Extended(b, rec))
  {
    OneMore(index, recs, rec);
    NewKeyStep(index, recs, b, rec);
    if index == LabelsOf(file) && UniqueKeys(file) { FileNewKeyStep(file, recs, b, rec); }
  }

  lemma AbsorbDuplicate(index: Index, file: seq<Record>, recs: seq<LabelRecord>, dirty: bool, b: Batch, rec: LabelRecord)
    requires Absorbed(index, file, recs, dirty, b)
    requires StoredFor(index, b, KeyOf(rec.row)).Some?
    requires rec.row.revision <= StoredFor(index, b, KeyOf(rec.row)).value.row.revision
    ensures Absorbed(index, file, recs + [rec], dirty, b)
  {
    OneMore(index, recs, rec);
    StoredIsCurrent(index, file, recs, dirty, b, KeyOf(rec.row));
    DuplicateStep(index, recs, b, rec);
    if index == LabelsOf(file) && UniqueKeys(file) { FileDuplicateStep(file, recs, b, rec); }
  }

  lemma AbsorbPending(index: Index, file: seq<Record>, recs: seq<LabelRecord>, dirty: bool, b: Batch, rec: LabelRecord)
    requires Absorbed(index, file, recs, dirty, b)
    requires KeyOf(rec.row) in b.pendingNew && rec.row.revision > b.pendingNew[KeyOf(rec.row)].row.revision
    ensures Absorbed(index, file, recs + [rec], dirty, b.(pendingNew := b.pendingNew[KeyOf(rec.row) := rec]))
  {
    OneMore(index, recs, rec);
    PendingStep(index, recs, b, rec);
    if index == LabelsOf(file) && UniqueKeys(file) { FilePendingStep(file, recs, b, rec); }
  }

  /** What superseding a stored label asks of the mirror: nothing, one more example, or a rebuild. */
  function Superseded(b: Batch, stored: LabelRecord, rec: LabelRecord): Batch {
    var oldY, newY := TrainingLabel(stored.row), TrainingLabel(rec.row);
    b.(replaced := b.replaced[KeyOf(rec.row) := rec],
       needsRebuild := b.needsRebuild || (oldY.Some? && oldY != newY),
       appends := if oldY.None? && newY.Some? then b.appends + [rec] else b.appends)
  }

  lemma AbsorbReplaced(index: Index, file: seq<Record>, recs: seq<LabelRecord>, dirty: bool, b: Batch, rec: LabelRecord)
    requires Absorbed(index, file, recs, dirty, b)
    requires KeyOf(rec.row) !in b.pendingNew && StoredFor(index, b, KeyOf(rec.row)).Some?
    requires rec.row.revision > StoredFor(index, b, KeyOf(rec.row)).value.row.revision
    ensures Absorbed(index, file, recs + [rec], dirty, Superseded(b, StoredFor(index, b, KeyOf(rec.row)).value, rec))
  {
    var after := Superseded(b, StoredFor(index, b, KeyOf(rec.row)).value, rec);
    OneMore(index, recs, rec);
    StoredIsCurrent(index, file, recs, dirty, b, KeyOf(rec.row));
    ReplacedStep(index, recs, b, rec);
    ReplacedFile(index, file, recs, b, rec);
    if !LabelChanged(index, recs + [rec]) { AppendsStep(index, b, rec, after); }
  }

  lemma ReplacedFile(index: Index, file: seq<Record>, recs: seq<LabelRecord>, b: Batch, rec: LabelRecord)
    requires BatchOk(index, recs, b) && (index == LabelsOf(file) && UniqueKeys(file) ==> FileOk(file, recs, b))
    requires KeyOf(rec.row) !in b.pendingNew && KeyOf(rec.row) in index
    requires rec.row.revision > UpsertAll(index, recs)[KeyOf(rec.row)].row.revision
    ensures index == LabelsOf(file) && UniqueKeys(file) ==>
              FileOk(file, recs + [rec], b.(replaced := b.replaced[KeyOf(rec.row) := rec]))
  {
    if index == LabelsOf(file) && UniqueKeys(file) { FileReplacedStep(file, recs, b, rec); }
  }

  /** The body of the ingest loop. */
  method TakeRow(row: Row, client: string, kind: string, stamp: int, index: Index, b: Batch,
                 ghost file: seq<Record>, ghost recs: seq<LabelRecord>, ghost dirty: bool)
    returns (after: Batch, outcome: RowOutcome)
    requires Absorbed(index, file, recs, dirty, b)
    ensures Absorbed(index, file, Accepting(recs, row, client, kind, stamp), dirty, after)
    ensures outcome == OutcomeAgainst(UpsertAll(index, recs), row, client, kind)
  {
    var refusal := RowRefusal(row, client, kind);
    if refusal.Some? {
      return b, RowOutcome(Refused(refusal.value), row.ts, row.revision);
    }
    var rec := LabelRecord(row, stamp);
    var k := KeyOf(row);
    var stored := StoredFor(index, b, k);
    StoredIsCurrent(index, file, recs, dirty, b, k);
    if stored.None? {
      AbsorbNew(index, file, recs, dirty, b, rec);
      return b.(pendingKeys := b.pendingKeys + [k], pendingNew := b.pendingNew[k := rec]),
             RowOutcome(New, row.ts, row.revision);
    }
    if row.revision <= stored.value.row.revision {
      AbsorbDuplicate(index, file, recs, dirty, b, rec);
      return b, RowOutcome(Duplicate, row.ts, row.revision);
    }
    if k in b.pendingNew {
      AbsorbPending(index, file, recs, dirty, b, rec);
      after := b.(pendingNew := b.pendingNew[k := rec]);
    } else {
      AbsorbReplaced(index, file, recs, dirty, b, rec);
      var oldY, newY := TrainingLabel(stored.value.row), TrainingLabel(row);
      after := b.(replaced := b.replaced[k := rec]);
      if oldY.Some? && oldY != newY {
        after := after.(needsRebuild := true);
      } else if oldY.None? && newY.Some? {
        after := after.(appends := after.appends + [rec]);
      }
    }
    return after, RowOutcome(Superseding, row.ts, row.revision);
  }

  lemma OneMoreRow(index: Index, rows: seq<Row>, i: nat, client: string, kind: string, stamp: int)
    requires i < |rows|
    ensures var recs := AcceptedRecords(rows[..i], client, kind, stamp);
            && AcceptedRecords(rows[..i + 1], client, kind, stamp) == Accepting(recs, rows[i], client, kind, stamp)
            && OutcomesOf(index, rows[..i + 1], client, kind, stamp)
               == OutcomesOf(index, rows[..i], client, kind, stamp)
                  + [OutcomeAgainst(UpsertAll(index, recs), rows[i], client, kind)]
  {
    assert rows[..i + 1][..i] == rows[..i];
  }

  /** The ingest loop over one batch. */
  method Classify(rows: seq<Row>, client: string, kind: string, stamp: int, index: Index, dirty: bool, ghost file: seq<Record>)
    returns (b: Batch, outcomes: seq<RowOutcome>, ack: Option<(int, int)>)
    ensures Absorbed(index, file, AcceptedRecords(rows, client, kind, stamp), dirty, b)
    ensures outcomes == OutcomesOf(index, rows, client, kind, stamp)
    ensures ack == LastSent(rows)
  {
    b := Batch([], map[], map[], [], dirty);
    outcomes, ack := [], None;
    AbsorbNothing(index, file, dirty);
    for i := 0 to |rows|
      invariant Absorbed(index, file, AcceptedRecords(rows[..i], client, kind, stamp), dirty, b)
      invariant outcomes == OutcomesOf(index, rows[..i], client, kind, stamp)
      invariant ack == LastSent(rows[..i])
    {
      var row, outcome := rows[i], *;
      OneMoreRow(index, rows, i, client, kind, stamp);
      b, outcome := TakeRow(row, client, kind, stamp, index, b, file, AcceptedRecords(rows[..i], client, kind, stamp), dirty);
      outcomes := outcomes + [outcome];
      ack := Some((row.ts, row.revision));
    }
    assert rows[..|rows|] == rows;
  }

  /** The ack cursor: the last row of the batch, refused or not. */
  function LastSent(rows: seq<Row>): Option<(int, int)> {
    if rows == [] then None else Some((rows[|rows| - 1].ts, rows[|rows| - 1].revision))
  }

  /******* What the batch does to the log *******/

  lemma {:induction false} LabelsOfAppended(file: seq<Record>, recs: seq<LabelRecord>)
    ensures LabelsOf(file + AsLines(recs)) == UpsertAll(LabelsOf(file), recs)
  {
    if recs == [] {
      assert file + AsLines(recs) == file;
    } else {
      var n := |recs| - 1;
      LabelsOfAppended(file, recs[..n]);
      assert (file + AsLines(recs))[..|file| + n] == file + AsLines(recs[..n]);
    }
  }

  /** The file a batch leaves when `known` is what the store takes its labels to be. */
  function WrittenLog(known: Index, file: seq<Record>, b: Batch): seq<Record>
    requires forall k <- b.pendingKeys :: k in b.pendingNew
  {
    (if b.replaced == map[] then file else Collapse(file, known + b.replaced)) + AsLines(PendingRecords(b))
  }

  /** The same, from the records alone. */
  function Written(known: Index, file: seq<Record>, recs: seq<LabelRecord>): seq<Record> {
    (if Replacements(known, recs) == map[] then file else Collapse(file, known + Replacements(known, recs)))
    + AsLines(NewRecords(known, recs))
  }

  /** What the loop collects is determined by the known labels and the accepted records. */
  lemma BatchIsDetermined(index: Index, recs: seq<LabelRecord>, b: Batch)
    requires BatchOk(index, recs, b)
    ensures b.replaced == Replacements(index, recs) && PendingRecords(b) == NewRecords(index, recs)
    ensures forall file: seq<Record> :: WrittenLog(index, file, b) == Written(index, file, recs)
  {
    forall k | k in index ensures k in b.replaced <==> UpsertAll(index, recs)[k] != index[k] {
    }
    assert b.replaced == Replacements(index, recs);
    forall i | 0 <= i < |b.pendingKeys| ensures PendingRecords(b)[i] == NewRecords(index, recs)[i] {
      assert b.pendingKeys[i] in b.pendingKeys;
    }
    assert PendingRecords(b) == NewRecords(index, recs);
  }

  /** Such a batch exists for every stream: the loop's steps, taken one record at a time. */
  lemma {:induction false} AbsorbAll(index: Index, file: seq<Record>, recs: seq<LabelRecord>) returns (b: Batch)
    ensures Absorbed(index, file, recs, false, b)
  {
    if recs == [] {
      b := Batch([], map[], map[], [], false);
      AbsorbNothing(index, file, false);
    } else {
      var fewer, rec := recs[..|recs| - 1], recs[|recs| - 1];
      var before := AbsorbAll(index, file, fewer);
      assert recs == fewer + [rec];
      var k := KeyOf(rec.row);
      var stored := StoredFor(index, before, k);
      if stored.None? {
        AbsorbNew(index, file, fewer, false, before, rec);
        b := Extended(before, rec);
      } else if rec.row.revision <= stored.value.row.revision {
        AbsorbDuplicate(index, file, fewer, false, before, rec);
        b := before;
      } else if k in before.pendingNew {
        AbsorbPending(index, file, fewer, false, before, rec);
        b := before.(pendingNew := before.pendingNew[k := rec]);
      } else {
        AbsorbReplaced(index, file, fewer, false, before, rec);
        b := Superseded(before, stored.value, rec);
      }
    }
  }

  lemma KeptLabels(file: seq<Record>, replaced: Index)
    requires Keyed(replaced) && replaced.Keys <= LabelsOf(file).Keys
    ensures LabelsOf(if replaced == map[] then file else Collapse(file, LabelsOf(file) + replaced)) == LabelsOf(file) + replaced
  {
    var all := LabelsOf(file) + replaced;
    LabelsOfCollapse(file, all);
    assert (map k | k in LabelsOf(file) :: all[k]) == all;
  }

  lemma WrittenLogLabels(file: seq<Record>, recs: seq<LabelRecord>, b: Batch)
    requires BatchOk(LabelsOf(file), recs, b)
    ensures LabelsOf(WrittenLog(LabelsOf(file), file, b)) == UpsertAll(LabelsOf(file), recs)
  {
    var kept := if b.replaced == map[] then file else Collapse(file, LabelsOf(file) + b.replaced);
    KeptLabels(file, b.replaced);
    LabelsOfAppended(kept, PendingRecords(b));
    PendingUpserted(LabelsOf(file) + b.replaced, b);
  }

  lemma PendingUpserted(m: Index, b: Batch)
    requires Keyed(b.pendingNew) && b.pendingNew.Keys !! m.Keys
    requires forall k :: k in b.pendingKeys <==> k in b.pendingNew
    requires forall i, j | 0 <= i < j < |b.pendingKeys| :: b.pendingKeys[i] != b.pendingKeys[j]
    ensures UpsertAll(m, PendingRecords(b)) == m + b.pendingNew
  {
    UnknownUpserted(m, b.pendingKeys, b.pendingNew);
    RestrictedToAll(b.pendingNew, b.pendingKeys);
  }

  function Restricted<K, V>(p: map<K, V>, keys: seq<K>): map<K, V>
    requires forall k <- keys :: k in p
  {
    map k | k in keys :: p[k]
  }

  lemma RestrictedToAll<K, V>(p: map<K, V>, keys: seq<K>)
    requires forall k :: k in keys <==> k in p
    ensures Restricted(p, keys) == p
  {
  }

  lemma RestrictedOneMore<K, V>(p: map<K, V>, fewer: seq<K>, k: K)
    requires k in p && forall j <- fewer :: j in p
    ensures Restricted(p, fewer + [k]) == Restricted(p, fewer)[k := p[k]]
  {
  }

  lemma UpsertUnknown(m: Index, p: Index, fewer: seq<Key>, rec: LabelRecord)
    requires (forall j <- fewer :: j in p) && KeyOf(rec.row) !in m && KeyOf(rec.row) !in fewer
    ensures Upsert(m + Restricted(p, fewer), rec) == m + Restricted(p, fewer)[KeyOf(rec.row) := rec]
  {
    UpdateRight(m, Restricted(p, fewer), KeyOf(rec.row), rec);
  }

  lemma UpsertOneMore(m: Index, recs: seq<LabelRecord>, rec: LabelRecord)
    ensures UpsertAll(m, recs + [rec]) == Upsert(UpsertAll(m, recs), rec)
  {
    assert (recs + [rec])[..|recs|] == recs;
  }

  /** Upserting records of unknown keys, one of each, adds them. */
  lemma {:induction false} UnknownUpserted(m: Index, keys: seq<Key>, p: Index)
    requires Keyed(p) && (forall k <- keys :: k in p && k !in m) && DistinctSeq(keys)
    ensures UpsertAll(m, RecordsFor(keys, p)) == m + Restricted(p, keys)
  {
    if keys == [] {
      assert m + Restricted(p, keys) == m;
    } else {
      var n := |keys| - 1;
      var fewer, k := keys[..n], keys[n];
      assert keys == fewer + [k] && k in keys;
      UnknownUpserted(m, fewer, p);
      assert RecordsFor(keys, p) == RecordsFor(fewer, p) + [p[k]];
      UpsertOneMore(m, RecordsFor(fewer, p), p[k]);
      UpsertUnknown(m, p, fewer, p[k]);
      RestrictedOneMore(p, fewer, k);
    }
  }

  lemma WrittenLogInPlace(file: seq<Record>, recs: seq<LabelRecord>, b: Batch)
    requires UniqueKeys(file) && BatchOk(LabelsOf(file), recs, b) && FileOk(file, recs, b)
    ensures WrittenLog(LabelsOf(file), file, b) == FileUpsertAll(file, recs)
  {
    var index := LabelsOf(file);
    forall i | 0 <= i < |file| && file[i].Label? ensures KeyOf(file[i].rec.row) in index && index[KeyOf(file[i].rec.row)] == file[i].rec {
      LineIsItsLabel(file, i);
    }
    CollapseInPlace(file, index + b.replaced);
    assert Overlay(file, index + b.replaced) == Overlay(file, b.replaced);
    assert b.replaced == map[] ==> Overlay(file, b.replaced) == file;
  }

  /** Neither way of writing touches a record of another type, whatever the store takes its labels to be. */
  lemma WrittenOthers(known: Index, file: seq<Record>, recs: seq<LabelRecord>)
    ensures Others(Written(known, file, recs)) == Others(file)
  {
    var all := known + Replacements(known, recs);
    var kept := if Replacements(known, recs) == map[] then file else Collapse(file, all);
    OthersSurviveRewrite(file, all);
    OthersConcat(kept, AsLines(NewRecords(known, recs)));
    NoOthersAmongLabels(AsLines(NewRecords(known, recs)));
  }

  /** `after` is `before` with `recs` upserted. */
  ghost predicate LogUpserted(before: seq<Record>, recs: seq<LabelRecord>, after: seq<Record>) {
    && LabelsOf(after) == UpsertAll(LabelsOf(before), recs)
    && (UniqueKeys(before) ==> UniqueKeys(after) && after == FileUpsertAll(before, recs))
    && Others(after) == Others(before)
  }

  /** When the store knows its file, either way of writing amounts to upserting the records one by one. */
  lemma WrittenUpserts(file: seq<Record>, recs: seq<LabelRecord>)
    ensures LogUpserted(file, recs, Written(LabelsOf(file), file, recs))
  {
    var b := AbsorbAll(LabelsOf(file), file, recs);
    BatchIsDetermined(LabelsOf(file), recs, b);
    WrittenLogLabels(file, recs, b);
    WrittenOthers(LabelsOf(file), file, recs);
    if UniqueKeys(file) {
      WrittenLogInPlace(file, recs, b);
      FileFollowsIndex(file, recs);
    }
  }
}
