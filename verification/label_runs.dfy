/**
 What the frozen ingest contract promises over whole runs: only the stream of
 accepted rows matters, not how it was cut into batches, and re-sending any part
 of it changes nothing.
 */
module LabelRuns {
  import opened Options
  import opened LabelLog
  import opened LabelBatch
  import opened LabelIngest

  /******* Splitting *******/

  lemma FileUpsertOneMore(file: seq<Record>, recs: seq<LabelRecord>, rec: LabelRecord)
    ensures FileUpsertAll(file, recs + [rec]) == FileUpsert(FileUpsertAll(file, recs), rec)
  {
    assert (recs + [rec])[..|recs|] == recs;
  }

  lemma {:induction false} FileSplit(file: seq<Record>, a: seq<LabelRecord>, b: seq<LabelRecord>)
    ensures FileUpsertAll(file, a + b) == FileUpsertAll(FileUpsertAll(file, a), b)
  {
    if b == [] {
      assert a + b == a;
    } else {
      var fewer, last := b[..|b| - 1], b[|b| - 1];
      assert b == fewer + [last];
      assert a + b == (a + fewer) + [last];
      FileSplit(file, a, fewer);
      FileUpsertOneMore(file, a + fewer, last);
      FileUpsertOneMore(FileUpsertAll(file, a), fewer, last);
    }
  }

  lemma {:induction false} AcceptedSplit(a: seq<Row>, b: seq<Row>, client: string, kind: string, stamp: int)
    ensures AcceptedRecords(a + b, client, kind, stamp)
            == AcceptedRecords(a, client, kind, stamp) + AcceptedRecords(b, client, kind, stamp)
  {
    if b == [] {
      assert a + b == a;
    } else {
      var n := |b| - 1;
      assert (a + b)[..|a| + n] == a + b[..n];
      AcceptedSplit(a, b[..n], client, kind, stamp);
    }
  }

  /******* Ingest stamps aside *******/

  function Unstamp(rec: LabelRecord): LabelRecord {
    rec.(ingestedAt := 0)
  }

  function UnstampAll(recs: seq<LabelRecord>): seq<LabelRecord> {
    seq(|recs|, i requires 0 <= i < |recs| => Unstamp(recs[i]))
  }

  function UnstampFile(file: seq<Record>): seq<Record> {
    seq(|file|, i requires 0 <= i < |file| => if file[i].Label? then Label(Unstamp(file[i].rec)) else file[i])
  }

  function UnstampIndex(m: Index): Index {
    map k | k in m :: Unstamp(m[k])
  }

  lemma {:induction false} UnstampLabels(file: seq<Record>)
    ensures LabelsOf(UnstampFile(file)) == UnstampIndex(LabelsOf(file))
  {
    if file != [] {
      var n := |file| - 1;
      UnstampLabels(file[..n]);
      assert UnstampFile(file)[..n] == UnstampFile(file[..n]);
    }
  }

  lemma UnstampOverlay(file: seq<Record>, rec: LabelRecord)
    ensures UnstampFile(Overlay(file, map[KeyOf(rec.row) := rec]))
            == Overlay(UnstampFile(file), map[KeyOf(rec.row) := Unstamp(rec)])
  {
  }

  lemma UnstampFileUpsert(file: seq<Record>, rec: LabelRecord)
    ensures UnstampFile(FileUpsert(file, rec)) == FileUpsert(UnstampFile(file), Unstamp(rec))
  {
    UnstampLabels(file);
    if KeyOf(rec.row) !in LabelsOf(file) {
      assert UnstampFile(file + [Label(rec)]) == UnstampFile(file) + [Label(Unstamp(rec))];
    } else if rec.row.revision > LabelsOf(file)[KeyOf(rec.row)].row.revision {
      UnstampOverlay(file, rec);
    }
  }

  lemma {:induction false} UnstampUpserts(file: seq<Record>, recs: seq<LabelRecord>)
    ensures UnstampFile(FileUpsertAll(file, recs)) == FileUpsertAll(UnstampFile(file), UnstampAll(recs))
  {
    if recs != [] {
      var n := |recs| - 1;
      UnstampUpserts(file, recs[..n]);
      assert UnstampAll(recs)[..n] == UnstampAll(recs[..n]);
      UnstampFileUpsert(FileUpsertAll(file, recs[..n]), recs[n]);
    }
  }

  lemma UnstampOneMore(recs: seq<LabelRecord>, rec: LabelRecord)
    ensures UnstampAll(recs + [rec]) == UnstampAll(recs) + [Unstamp(rec)]
  {
  }

  lemma {:induction false} UnstampAccepted(rows: seq<Row>, client: string, kind: string, s: int, t: int)
    ensures UnstampAll(AcceptedRecords(rows, client, kind, s)) == UnstampAll(AcceptedRecords(rows, client, kind, t))
  {
    if rows != [] {
      var n := |rows| - 1;
      var last := rows[n];
      UnstampAccepted(rows[..n], client, kind, s, t);
      if RowRefusal(last, client, kind).None? {
        UnstampOneMore(AcceptedRecords(rows[..n], client, kind, s), LabelRecord(last, s));
        UnstampOneMore(AcceptedRecords(rows[..n], client, kind, t), LabelRecord(last, t));
      }
    }
  }

  /******* Replay *******/

  lemma {:induction false} StoredAtLeast(m: Index, recs: seq<LabelRecord>, rec: LabelRecord)
    requires rec in recs
    ensures KeyOf(rec.row) in UpsertAll(m, recs)
    ensures UpsertAll(m, recs)[KeyOf(rec.row)].row.revision >= rec.row.revision
  {
    var n := |recs| - 1;
    if rec in recs[..n] {
      StoredAtLeast(m, recs[..n], rec);
    } else {
      assert recs == recs[..n] + [recs[n]];
    }
  }

  /** Re-sending rows already ingested, in any order and any number of times, changes nothing. */
  lemma {:induction false} ReplayChangesNothing(file: seq<Record>, recs: seq<LabelRecord>, again: seq<LabelRecord>)
    requires UniqueKeys(file)
    requires forall rec <- again :: exists sent <- recs :: sent.row == rec.row
    ensures FileUpsertAll(FileUpsertAll(file, recs), again) == FileUpsertAll(file, recs)
    ensures UpsertAll(UpsertAll(LabelsOf(file), recs), again) == UpsertAll(LabelsOf(file), recs)
  {
    if again != [] {
      var n := |again| - 1;
      assert again[n] in again;
      ReplayChangesNothing(file, recs, again[..n]);
      var sent :| sent in recs && sent.row == again[n].row;
      StoredAtLeast(LabelsOf(file), recs, sent);
      FileFollowsIndex(file, recs);
    }
  }

  /******* Runs of batches *******/

  datatype BatchSent = BatchSent(client: string, rows: seq<Row>, stamp: int)

  /** The stream of accepted records of a run of batches that were not refused. */
  function Stream(batches: seq<BatchSent>, kind: string): seq<LabelRecord> {
    if batches == [] then []
    else
      var n := |batches| - 1;
      Stream(batches[..n], kind) + AcceptedRecords(batches[n].rows, batches[n].client, kind, batches[n].stamp)
  }

  /** The files a run passes through, each batch upserting as `Ingest` promises. */
  ghost predicate IsRun(files: seq<seq<Record>>, batches: seq<BatchSent>, kind: string) {
    && |files| == |batches| + 1
    && forall i | 0 <= i < |batches| ::
         LogUpserted(files[i], AcceptedRecords(batches[i].rows, batches[i].client, kind, batches[i].stamp), files[i + 1])
  }

  /**
   From an empty log, any run of batches leaves one line per key in first-sent
   order, and the labels of the re-read file are, per key, the highest revision
   ever sent, the first of a tie.
   */
  lemma {:induction false} RunKeepsHighestRevision(files: seq<seq<Record>>, batches: seq<BatchSent>, kind: string)
    requires IsRun(files, batches, kind) && files[0] == []
    ensures var stream, last := Stream(batches, kind), files[|batches|];
            && UniqueKeys(last)
            && last == FileUpsertAll([], stream)
            && LabelsOf(last) == LabelsOf(AsLines(stream))
            && forall k <- LabelsOf(last) ::
                 exists i: nat :: Wins(AsLines(stream), i, k) && stream[i] == LabelsOf(last)[k]
  {
    var stream, last := Stream(batches, kind), files[|batches|];
    RunIsFold(files, batches, kind);
    FileFollowsIndex([], stream);
    LabelsOfAppended([], stream);
    assert [] + AsLines(stream) == AsLines(stream);
    forall k <- LabelsOf(last) ensures exists i: nat :: Wins(AsLines(stream), i, k) && stream[i] == LabelsOf(last)[k] {
      HighestRevisionFirstSeen(AsLines(stream), k);
      var i: nat :| Wins(AsLines(stream), i, k) && AsLines(stream)[i].rec == LabelsOf(last)[k];
      assert stream[i] == LabelsOf(last)[k];
    }
  }

  lemma {:induction false} RunIsFold(files: seq<seq<Record>>, batches: seq<BatchSent>, kind: string)
    requires IsRun(files, batches, kind) && UniqueKeys(files[0])
    ensures UniqueKeys(files[|batches|])
    ensures files[|batches|] == FileUpsertAll(files[0], Stream(batches, kind))
    ensures Others(files[|batches|]) == Others(files[0])
  {
    if batches != [] {
      var n := |batches| - 1;
      RunIsFold(files[..n + 1], batches[..n], kind);
      FileSplit(files[0], Stream(batches[..n], kind),
                AcceptedRecords(batches[n].rows, batches[n].client, kind, batches[n].stamp));
      assert files[n + 1] == files[|batches|];
    }
  }

  /** All the rows of a run, in the order sent. */
  function RowsOf(batches: seq<BatchSent>): seq<Row> {
    if batches == [] then [] else RowsOf(batches[..|batches| - 1]) + batches[|batches| - 1].rows
  }

  ghost predicate OneClient(batches: seq<BatchSent>, client: string) {
    forall i | 0 <= i < |batches| :: batches[i].client == client
  }

  lemma UnstampConcat(a: seq<LabelRecord>, b: seq<LabelRecord>)
    ensures UnstampAll(a + b) == UnstampAll(a) + UnstampAll(b)
  {
  }

  /** Stamps aside, the stream of one client's run depends on its rows only. */
  lemma {:induction false} StreamIsItsRows(batches: seq<BatchSent>, client: string, kind: string)
    requires OneClient(batches, client)
    ensures UnstampAll(Stream(batches, kind)) == UnstampAll(AcceptedRecords(RowsOf(batches), client, kind, 0))
  {
    if batches != [] {
      var n := |batches| - 1;
      var fewer, last := batches[..n], batches[n];
      StreamIsItsRows(fewer, client, kind);
      AcceptedSplit(RowsOf(fewer), last.rows, client, kind, 0);
      UnstampAccepted(last.rows, client, kind, last.stamp, 0);
      UnstampConcat(Stream(fewer, kind), AcceptedRecords(last.rows, client, kind, last.stamp));
      UnstampConcat(AcceptedRecords(RowsOf(fewer), client, kind, 0), AcceptedRecords(last.rows, client, kind, 0));
    }
  }

  /** However one client's rows are cut into batches, the same records end up in the same file order. */
  lemma BatchingIsIrrelevant(f: seq<seq<Record>>, a: seq<BatchSent>, g: seq<seq<Record>>, b: seq<BatchSent>,
                             client: string, kind: string)
    requires IsRun(f, a, kind) && IsRun(g, b, kind) && OneClient(a, client) && OneClient(b, client)
    requires f[0] == g[0] && UniqueKeys(f[0]) && RowsOf(a) == RowsOf(b)
    ensures UnstampFile(f[|a|]) == UnstampFile(g[|b|])
  {
    RunIsFold(f, a, kind);
    RunIsFold(g, b, kind);
    UnstampUpserts(f[0], Stream(a, kind));
    UnstampUpserts(g[0], Stream(b, kind));
    StreamIsItsRows(a, client, kind);
    StreamIsItsRows(b, client, kind);
  }

  /******* The event-store reader *******/

  /** A hosted label has no client: the service tells its streams apart. */
  datatype HostedKey = HostedKey(kind: string, featuresHash: string, ts: int)

  function HostedKeyOf(row: Row): HostedKey {
    HostedKey(row.kind, row.featuresHash, row.ts)
  }

  function BestRows(rows: seq<Row>): map<HostedKey, Row> {
    if rows == [] then map[]
    else
      var n := |rows| - 1;
      var before := BestRows(rows[..n]);
      var k := HostedKeyOf(rows[n]);
      if k in before && rows[n].revision <= before[k].revision then before else before[k := rows[n]]
  }

  /** The fold of `label_rows` over valid rows in event-id order. */
  method LabelRows(rows: seq<Row>) returns (best: map<HostedKey, Row>)
    ensures best == BestRows(rows)
  {
    best := map[];
    for i := 0 to |rows|
      invariant best == BestRows(rows[..i])
    {
      assert rows[..i + 1][..i] == rows[..i];
      var k := HostedKeyOf(rows[i]);
      if k !in best || rows[i].revision > best[k].revision {
        best := best[k := rows[i]];
      }
    }
    assert rows[..|rows|] == rows;
  }

  /** The rows a stream of records was made from. */
  function RowsIn(recs: seq<LabelRecord>): seq<Row> {
    seq(|recs|, i requires 0 <= i < |recs| => recs[i].row)
  }

  /** Reader and labels hold the same row for the same keys of one client. */
  ghost predicate SameRows(best: map<HostedKey, Row>, labels: Index, client: string) {
    && (forall k <- labels :: k.client == client && HostedKey(k.kind, k.featuresHash, k.ts) in best)
    && (forall h <- best :: var k := Key(client, h.kind, h.featuresHash, h.ts);
                            k in labels && labels[k].row == best[h])
  }

  lemma {:induction false} ReaderAgreesWithFold(recs: seq<LabelRecord>, client: string)
    requires forall rec <- recs :: rec.row.client == client
    ensures SameRows(BestRows(RowsIn(recs)), UpsertAll(map[], recs), client)
  {
    if recs != [] {
      var n := |recs| - 1;
      assert recs[n] in recs;
      ReaderAgreesWithFold(recs[..n], client);
      assert RowsIn(recs)[..n] == RowsIn(recs[..n]);
    }
  }

  lemma {:induction false} AcceptedAreTheClients(rows: seq<Row>, client: string, kind: string, stamp: int)
    ensures forall rec <- AcceptedRecords(rows, client, kind, stamp) :: rec.row.client == client
  {
    if rows != [] {
      AcceptedAreTheClients(rows[..|rows| - 1], client, kind, stamp);
    }
  }

  lemma {:induction false} StreamIsTheClients(batches: seq<BatchSent>, client: string, kind: string)
    requires OneClient(batches, client)
    ensures forall rec <- Stream(batches, kind) :: rec.row.client == client
  {
    if batches != [] {
      var n := |batches| - 1;
      StreamIsTheClients(batches[..n], client, kind);
      AcceptedAreTheClients(batches[n].rows, client, kind, batches[n].stamp);
    }
  }

  /**
   For one client, the reader over the accepted rows of a run keeps, per key, the row that
   reading the run's file back yields, however the rows were cut into batches.
   */
  lemma ReaderAgreesWithIngest(files: seq<seq<Record>>, batches: seq<BatchSent>, client: string, kind: string)
    requires IsRun(files, batches, kind) && files[0] == [] && OneClient(batches, client)
    ensures SameRows(BestRows(RowsIn(Stream(batches, kind))), LabelsOf(files[|batches|]), client)
  {
    RunIsFold(files, batches, kind);
    FileFollowsIndex([], Stream(batches, kind));
    StreamIsTheClients(batches, client, kind);
    ReaderAgreesWithFold(Stream(batches, kind), client);
  }
}
