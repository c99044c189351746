/**
 The per-kind label log: revision-based upsert of label rows into an append-or-
 rewrite file with an in-memory index, and the training mirror derived from it.

 A file is the sequence of its parsed lines. `Other` stands for every line the
 label reader skips and every rewrite keeps: records of other types, and label
 records without a usable key.
 */
module LabelLog {
  import opened Options

  /******* Rows, records, the index *******/

  datatype UserAction = Accepted | AutoActed | Dismissed | Ignored | Unrecognized(name: string)
  datatype Feature = Finite(v: real) | NotFinite

  datatype Row = Row(
    client: string, kind: string, featuresHash: string, ts: int, revision: int,
    action: UserAction, complete: bool, features: map<string, Feature>, snapshot: Option<int>,
    contractVersion: Option<string>, size: nat)

  datatype Key = Key(client: string, kind: string, featuresHash: string, ts: int)

  datatype LabelRecord = LabelRecord(row: Row, ingestedAt: int)
  datatype Record = Label(rec: LabelRecord) | Other(line: string)

  function KeyOf(row: Row): Key {
    Key(row.client, row.kind, row.featuresHash, row.ts)
  }

  type Index = map<Key, LabelRecord>

  ghost predicate Keyed(m: Index) {
    forall k <- m :: KeyOf(m[k].row) == k
  }

  /** The frozen contract for one record: a strictly higher revision replaces, the first of a tie stays. */
  function Upsert(m: Index, rec: LabelRecord): Index {
    var k := KeyOf(rec.row);
    if k in m && rec.row.revision <= m[k].row.revision then m else m[k := rec]
  }

  function UpsertAll(m: Index, recs: seq<LabelRecord>): (r: Index)
    ensures Keyed(m) ==> Keyed(r)
    ensures m.Keys <= r.Keys
  {
    if recs == [] then m
    else Upsert(UpsertAll(m, recs[..|recs| - 1]), recs[|recs| - 1])
  }

  /** What reading a file back yields: label records by key, highest revision winning. */
  function LabelsOf(file: seq<Record>): (r: Index)
    ensures Keyed(r)
  {
    if file == [] then map[]
    else
      var before := LabelsOf(file[..|file| - 1]);
      var last := file[|file| - 1];
      if last.Label? then Upsert(before, last.rec) else before
  }

  predicate IsLabelFor(record: Record, k: Key) {
    record.Label? && KeyOf(record.rec.row) == k
  }

  /** `LabelLogRead.labels`. */
  method ReadLabels(file: seq<Record>) returns (out: Index)
    ensures out == LabelsOf(file)
  {
    out := map[];
    for i := 0 to |file|
      invariant out == LabelsOf(file[..i])
    {
      assert file[..i + 1][..i] == file[..i];
      if file[i].Label? {
        var k := KeyOf(file[i].rec.row);
        if k !in out || file[i].rec.row.revision > out[k].row.revision {
          out := out[k := file[i].rec];
        }
      }
    }
    assert file[..|file|] == file;
  }

  /** Line `i` carries `k` at the highest revision of all, and no earlier line does. */
  ghost predicate Wins(file: seq<Record>, i: nat, k: Key) {
    && i < |file| && IsLabelFor(file[i], k)
    && (forall j | 0 <= j < |file| && IsLabelFor(file[j], k) ::
          && file[j].rec.row.revision <= file[i].rec.row.revision
          && (j < i ==> file[j].rec.row.revision < file[i].rec.row.revision))
  }

  /** A key is known exactly when some line carries it, and its record is the winning line. */
  lemma {:induction false} HighestRevisionFirstSeen(file: seq<Record>, k: Key)
    ensures k in LabelsOf(file) <==> exists i | 0 <= i < |file| :: IsLabelFor(file[i], k)
    ensures k in LabelsOf(file) ==> exists i: nat :: Wins(file, i, k) && file[i].rec == LabelsOf(file)[k]
  {
    if file != [] {
      var n := |file| - 1;
      var before := file[..n];
      HighestRevisionFirstSeen(before, k);
      if k in LabelsOf(before) {
        var i: nat :| Wins(before, i, k) && before[i].rec == LabelsOf(before)[k];
        var w := if LabelsOf(file)[k] == LabelsOf(before)[k] then i else n;
        assert IsLabelFor(file[w], k);
        forall j | 0 <= j < |file| && IsLabelFor(file[j], k)
          ensures file[j].rec.row.revision <= file[w].rec.row.revision
          ensures j < w ==> file[j].rec.row.revision < file[w].rec.row.revision
        {
          assert j < n ==> IsLabelFor(before[j], k);
        }
        assert Wins(file, w, k);
      } else if k in LabelsOf(file) {
        forall j | 0 <= j < n ensures !IsLabelFor(file[j], k) {
          assert before[j] == file[j];
        }
        assert Wins(file, n, k);
      } else {
        forall j | 0 <= j < |file| ensures !IsLabelFor(file[j], k) {
          assert j < n ==> before[j] == file[j];
        }
      }
    }
  }

  lemma KeyOnAnEarlierLine(file: seq<Record>, n: nat, k: Key)
    requires n <= |file|
    ensures k in LabelsOf(file[..n]) <==> exists i | 0 <= i < n :: IsLabelFor(file[i], k)
  {
    HighestRevisionFirstSeen(file[..n], k);
    if i :| 0 <= i < n && IsLabelFor(file[i], k) {
      assert IsLabelFor(file[..n][i], k);
    }
  }

  /******* The file the upsert leaves *******/

  ghost predicate UniqueKeys(file: seq<Record>) {
    forall i, j | 0 <= i < j < |file| && file[i].Label? && file[j].Label? ::
      KeyOf(file[i].rec.row) != KeyOf(file[j].rec.row)
  }

  /** Every label line replaced by what `m` holds for its key; nothing moves. */
  function Overlay(file: seq<Record>, m: Index): seq<Record> {
    seq(|file|, i requires 0 <= i < |file| =>
      if file[i].Label? && KeyOf(file[i].rec.row) in m then Label(m[KeyOf(file[i].rec.row)]) else file[i])
  }

  /** One record upserted into a file: replaced where it stands, or appended. */
  function FileUpsert(file: seq<Record>, rec: LabelRecord): seq<Record> {
    var k := KeyOf(rec.row);
    var labels := LabelsOf(file);
    if k !in labels then file + [Label(rec)]
    else if rec.row.revision > labels[k].row.revision then Overlay(file, map[k := rec])
    else file
  }

  function FileUpsertAll(file: seq<Record>, recs: seq<LabelRecord>): seq<Record> {
    if recs == [] then file
    else FileUpsert(FileUpsertAll(file, recs[..|recs| - 1]), recs[|recs| - 1])
  }

  /** The rewrite: the first line of each key carries `m`'s record, stale duplicates go. */
  function Collapse(file: seq<Record>, m: Index): seq<Record> {
    if file == [] then []
    else
      var n := |file| - 1;
      var before := Collapse(file[..n], m);
      var last := file[n];
      if last.Other? then before + [last]
      else
        var k := KeyOf(last.rec.row);
        if k in LabelsOf(file[..n]) then before
        else before + [Label(if k in m then m[k] else last.rec)]
  }

  method Rewrite(file: seq<Record>, replaced: Index, index: Index) returns (lines: seq<Record>)
    ensures lines == Collapse(file, index + replaced)
  {
    lines := [];
    var seen: set<Key> := {};
    for i := 0 to |file|
      invariant lines == Collapse(file[..i], index + replaced)
      invariant seen == LabelsOf(file[..i]).Keys
    {
      assert file[..i + 1][..i] == file[..i];
      match file[i]
      case Other(_) => lines := lines + [file[i]];
      case Label(rec) =>
        var k := KeyOf(rec.row);
        if k !in seen {
          seen := seen + {k};
          lines := lines + [Label(if k in replaced then replaced[k] else if k in index then index[k] else rec)];
        }
    }
    assert file[..|file|] == file;
  }

  lemma {:induction false} LabelsOfCollapse(file: seq<Record>, m: Index)
    requires Keyed(m) && LabelsOf(file).Keys <= m.Keys
    ensures LabelsOf(Collapse(file, m)) == map k | k in LabelsOf(file) :: m[k]
  {
    if file != [] {
      var n := |file| - 1;
      LabelsOfCollapse(file[..n], m);
      var before, whole := Collapse(file[..n], m), Collapse(file, m);
      if whole != before {
        assert whole[..|whole| - 1] == before;
      }
    }
  }

  lemma {:induction false} LabelsOfOverlay(file: seq<Record>, m: Index)
    requires Keyed(m) && UniqueKeys(file)
    ensures LabelsOf(Overlay(file, m)) == map k | k in LabelsOf(file) :: if k in m then m[k] else LabelsOf(file)[k]
    ensures UniqueKeys(Overlay(file, m))
  {
    if file != [] {
      var n := |file| - 1;
      LabelsOfOverlay(file[..n], m);
      assert Overlay(file, m)[..n] == Overlay(file[..n], m);
      if file[n].Label? {
        var k := KeyOf(file[n].rec.row);
        KeyOnAnEarlierLine(file, n, k);
      }
    }
  }

  /** In a file without stale duplicates every label line is the record kept for its key. */
  lemma {:induction false} LineIsItsLabel(file: seq<Record>, i: nat)
    requires UniqueKeys(file) && i < |file| && file[i].Label?
    ensures KeyOf(file[i].rec.row) in LabelsOf(file)
    ensures LabelsOf(file)[KeyOf(file[i].rec.row)] == file[i].rec
  {
    var k := KeyOf(file[i].rec.row);
    assert IsLabelFor(file[i], k);
    HighestRevisionFirstSeen(file, k);
    var w: nat :| Wins(file, w, k) && file[w].rec == LabelsOf(file)[k];
    assert w == i;
  }

  /** ...so the rewrite replaces in place and drops nothing. */
  lemma {:induction false} CollapseInPlace(file: seq<Record>, m: Index)
    requires UniqueKeys(file)
    ensures Collapse(file, m) == Overlay(file, m)
  {
    if file != [] {
      var n := |file| - 1;
      CollapseInPlace(file[..n], m);
      if file[n].Label? {
        var k := KeyOf(file[n].rec.row);
        KeyOnAnEarlierLine(file, n, k);
      }
    }
  }

  /******* Upserting record by record: file and index stay equal *******/

  lemma {:induction false} FileFollowsIndex(file: seq<Record>, recs: seq<LabelRecord>)
    requires UniqueKeys(file)
    ensures UniqueKeys(FileUpsertAll(file, recs))
    ensures LabelsOf(FileUpsertAll(file, recs)) == UpsertAll(LabelsOf(file), recs)
  {
    if recs != [] {
      var n := |recs| - 1;
      var before := FileUpsertAll(file, recs[..n]);
      FileFollowsIndex(file, recs[..n]);
      FileUpsertLabels(before, recs[n]);
    }
  }

  lemma FileUpsertLabels(file: seq<Record>, rec: LabelRecord)
    requires UniqueKeys(file)
    ensures UniqueKeys(FileUpsert(file, rec))
    ensures LabelsOf(FileUpsert(file, rec)) == Upsert(LabelsOf(file), rec)
  {
    var k := KeyOf(rec.row);
    HighestRevisionFirstSeen(file, k);
    if k !in LabelsOf(file) {
      var after := file + [Label(rec)];
      assert after[..|file|] == file;
      forall i | 0 <= i < |file| && file[i].Label? ensures KeyOf(file[i].rec.row) != k {
        assert !IsLabelFor(file[i], k);
      }
    } else if rec.row.revision > LabelsOf(file)[k].row.revision {
      LabelsOfOverlay(file, map[k := rec]);
    }
  }

  /** Lines that are not label records. */
  function Others(file: seq<Record>): seq<Record> {
    if file == [] then []
    else
      var n := |file| - 1;
      if file[n].Other? then Others(file[..n]) + [file[n]] else Others(file[..n])
  }

  lemma {:induction false} OthersConcat(a: seq<Record>, b: seq<Record>)
    ensures Others(a + b) == Others(a) + Others(b)
  {
    if b == [] {
      assert a + b == a;
    } else {
      var n := |b| - 1;
      assert (a + b)[..|a| + n] == a + b[..n];
      OthersConcat(a, b[..n]);
    }
  }

  lemma {:induction false} OthersSurviveRewrite(file: seq<Record>, m: Index)
    ensures Others(Collapse(file, m)) == Others(file)
  {
    if file != [] {
      var n := |file| - 1;
      OthersSurviveRewrite(file[..n], m);
      var before, whole := Collapse(file[..n], m), Collapse(file, m);
      if whole != before {
        assert whole[..|whole| - 1] == before;
      }
    }
  }

  lemma {:induction false} NoOthersAmongLabels(file: seq<Record>)
    requires forall r <- file :: r.Label?
    ensures Others(file) == []
  {
    if file != [] {
      assert file[|file| - 1] in file;
      NoOthersAmongLabels(file[..|file| - 1]);
    }
  }

  /******* Refusals and the training mapping *******/

  datatype RowReason = ClientMismatch | KindMismatch | UnknownUserAction | FeaturesInvalid | RowTooLarge
  datatype BatchReason = ContractMismatch | NamesMismatch | RetainedRefused | IoError

  datatype Contract = Contract(version: string, names: seq<string>)

  const MAX_ROW_BYTES := 64 * 1024

  function RowRefusal(row: Row, client: string, kind: string): Option<RowReason> {
    if row.client != client then Some(ClientMismatch)
    else if row.kind != kind then Some(KindMismatch)
    else if row.action.Unrecognized? then Some(UnknownUserAction)
    else if exists name <- row.features :: row.features[name].NotFinite? then Some(FeaturesInvalid)
    else if row.size > MAX_ROW_BYTES then Some(RowTooLarge)
    else None
  }

  predicate NamesFit(row: Row, contract: Contract) {
    && (forall name <- row.features :: name in contract.names)
    && (row.complete ==> forall name <- contract.names :: name in row.features)
  }

  predicate RowFits(row: Row, contract: Contract) {
    (row.contractVersion.Some? ==> row.contractVersion.value == contract.version) && NamesFit(row, contract)
  }

  /** `_contract_refusal`: any row outside the contract refuses the whole batch. */
  method ContractRefusal(rows: seq<Row>, contract: Contract) returns (refusal: Option<BatchReason>)
    ensures refusal.None? <==> forall row <- rows :: RowFits(row, contract)
    ensures refusal.Some? ==>
              exists i | 0 <= i < |rows| ::
                && (forall j | 0 <= j < i :: RowFits(rows[j], contract)) && !RowFits(rows[i], contract)
                && refusal == Some(if rows[i].contractVersion in {None, Some(contract.version)} then NamesMismatch else ContractMismatch)
  {
    for i := 0 to |rows|
      invariant forall j | 0 <= j < i :: RowFits(rows[j], contract)
    {
      if rows[i].contractVersion.Some? && rows[i].contractVersion.value != contract.version {
        assert rows[i] in rows;
        return Some(ContractMismatch);
      }
      if !NamesFit(rows[i], contract) {
        assert rows[i] in rows;
        return Some(NamesMismatch);
      }
    }
    return None;
  }

  datatype Example = Example(x: seq<Feature>, y: real, asOf: int)

  function TrainingLabel(row: Row): Option<real> {
    if !row.complete then None
    else match row.action
      case Accepted => Some(1.0)
      case AutoActed => Some(1.0)
      case Dismissed => Some(0.0)
      case _ => None
  }

  predicate Trainable(row: Row) {
    TrainingLabel(row).Some?
  }

  function AsOf(row: Row): int {
    row.snapshot.GetOr(row.ts)
  }

  /** The positional vector; a trainable row under the contract carries every name. */
  function VectorOf(row: Row, names: seq<string>): seq<Feature> {
    seq(|names|, i requires 0 <= i < |names| =>
      if names[i] in row.features then row.features[names[i]] else NotFinite)
  }

  function ExampleFor(row: Row, names: seq<string>): Example
    requires Trainable(row)
  {
    Example(VectorOf(row, names), TrainingLabel(row).value, AsOf(row))
  }

  /** The trainable records, in order, and their examples. */
  function TrainableOf(recs: seq<LabelRecord>): seq<LabelRecord> {
    if recs == [] then []
    else
      var n := |recs| - 1;
      TrainableOf(recs[..n]) + (if Trainable(recs[n].row) then [recs[n]] else [])
  }

  lemma {:induction false} TrainableMembers(recs: seq<LabelRecord>)
    ensures forall rec :: rec in TrainableOf(recs) <==> rec in recs && Trainable(rec.row)
  {
    if recs != [] {
      var n := |recs| - 1;
      assert recs == recs[..n] + [recs[n]];
      TrainableMembers(recs[..n]);
    }
  }

  lemma {:induction false} TrainableIndices(recs: seq<LabelRecord>)
    ensures forall i | 0 <= i < |TrainableOf(recs)| :: Trainable(TrainableOf(recs)[i].row)
  {
    if recs != [] {
      TrainableIndices(recs[..|recs| - 1]);
    }
  }

  function ExamplesOf(recs: seq<LabelRecord>, names: seq<string>): seq<Example> {
    var out := TrainableOf(recs);
    TrainableIndices(recs);
    seq(|out|, i requires 0 <= i < |out| => ExampleFor(out[i].row, names))
  }

  /******* The mirror *******/

  predicate TrainableKey(labels: Index, k: Key) {
    k in labels && Trainable(labels[k].row)
  }

  /** Example `i` of the mirror is that of its owner. */
  predicate Owns(mirror: seq<Example>, owners: seq<Key>, labels: Index, names: seq<string>, i: nat)
    requires i < |owners| == |mirror|
  {
    TrainableKey(labels, owners[i]) && mirror[i] == ExampleFor(labels[owners[i]].row, names)
  }

  ghost predicate DistinctSeq(keys: seq<Key>) {
    forall i, j | 0 <= i < j < |keys| :: keys[i] != keys[j]
  }

  ghost predicate Owned(mirror: seq<Example>, owners: seq<Key>, labels: Index, names: seq<string>) {
    && |owners| == |mirror| && DistinctSeq(owners)
    && (forall i | 0 <= i < |owners| :: Owns(mirror, owners, labels, names, i))
    && (forall k | TrainableKey(labels, k) :: k in owners)
  }

  /** One example per trainable label, carrying its current `y`, and nothing else. */
  ghost predicate MirrorMatches(mirror: seq<Example>, labels: Index, names: seq<string>) {
    exists owners :: Owned(mirror, owners, labels, names)
  }

  ghost predicate DistinctKeys(recs: seq<LabelRecord>) {
    forall i, j | 0 <= i < j < |recs| :: KeyOf(recs[i].row) != KeyOf(recs[j].row)
  }

  /** `recs` are examples `labels` lacks and `after` has. */
  ghost predicate Additions(recs: seq<LabelRecord>, labels: Index, after: Index, names: seq<string>) {
    forall rec <- recs | Trainable(rec.row) ::
      && !TrainableKey(labels, KeyOf(rec.row)) && TrainableKey(after, KeyOf(rec.row))
      && ExampleFor(after[KeyOf(rec.row)].row, names) == ExampleFor(rec.row, names)
  }

  /** Every example of `labels` is unchanged in `after`. */
  ghost predicate StillThere(labels: Index, after: Index, names: seq<string>) {
    forall k | TrainableKey(labels, k) ::
      TrainableKey(after, k) && ExampleFor(after[k].row, names) == ExampleFor(labels[k].row, names)
  }

  lemma {:induction false} TrainableDistinct(recs: seq<LabelRecord>)
    requires DistinctKeys(recs)
    ensures DistinctKeys(TrainableOf(recs))
  {
    if recs != [] {
      var n := |recs| - 1;
      TrainableDistinct(recs[..n]);
      TrainableMembers(recs[..n]);
      assert forall rec <- TrainableOf(recs[..n]) :: KeyOf(rec.row) != KeyOf(recs[n].row);
    }
  }

  function KeysOf(recs: seq<LabelRecord>): seq<Key> {
    seq(|recs|, i requires 0 <= i < |recs| => KeyOf(recs[i].row))
  }

  lemma JoinedOwnersDiffer(owners: seq<Key>, added: seq<Key>)
    requires DistinctSeq(owners) && DistinctSeq(added) && forall k <- added :: k !in owners
    ensures DistinctSeq(owners + added)
  {
    var all := owners + added;
    forall i, j | 0 <= i < j < |all| ensures all[i] != all[j] {
      if i < |owners| <= j {
        assert all[j] in added && all[i] in owners;
      }
    }
  }

  /** An added record owns its example. */
  lemma AddedOwns(labels: Index, after: Index, recs: seq<LabelRecord>, names: seq<string>, i: nat)
    requires Additions(recs, labels, after, names) && i < |TrainableOf(recs)|
    ensures Owns(ExamplesOf(recs, names), KeysOf(TrainableOf(recs)), after, names, i)
    ensures !TrainableKey(labels, KeysOf(TrainableOf(recs))[i])
  {
    TrainableMembers(recs);
    assert TrainableOf(recs)[i] in TrainableOf(recs);
  }

  lemma OwnersKeepOwning(mirror: seq<Example>, owners: seq<Key>, labels: Index, after: Index, names: seq<string>, i: nat)
    requires i < |owners| == |mirror| && Owns(mirror, owners, labels, names, i) && StillThere(labels, after, names)
    ensures Owns(mirror, owners, after, names, i)
  {
  }

  lemma OwnsJoined(m: seq<Example>, n: seq<Example>, a: seq<Key>, b: seq<Key>, labels: Index, names: seq<string>, i: nat)
    requires |a| == |m| && |b| == |n| && i < |a + b|
    requires if i < |a| then Owns(m, a, labels, names, i) else Owns(n, b, labels, names, i - |a|)
    ensures Owns(m + n, a + b, labels, names, i)
  {
  }

  lemma OwnerIsTrainable(mirror: seq<Example>, owners: seq<Key>, labels: Index, names: seq<string>, k: Key)
    requires Owned(mirror, owners, labels, names) && k in owners
    ensures TrainableKey(labels, k)
  {
    var i :| 0 <= i < |owners| && owners[i] == k;
    assert Owns(mirror, owners, labels, names, i);
  }

  lemma EveryKeyOwned(labels: Index, recs: seq<LabelRecord>, owners: seq<Key>, k: Key)
    requires TrainableKey(labels, k) ==> k in owners
    requires TrainableKey(labels, k) || exists rec <- recs :: Trainable(rec.row) && KeyOf(rec.row) == k
    ensures k in owners + KeysOf(TrainableOf(recs))
  {
    if !TrainableKey(labels, k) {
      var rec :| rec in recs && Trainable(rec.row) && KeyOf(rec.row) == k;
      TrainableMembers(recs);
      var i :| 0 <= i < |TrainableOf(recs)| && TrainableOf(recs)[i] == rec;
      assert KeysOf(TrainableOf(recs))[i] == k;
    }
  }

  lemma ExtendMirror(mirror: seq<Example>, labels: Index, after: Index, recs: seq<LabelRecord>, names: seq<string>)
    requires MirrorMatches(mirror, labels, names) && DistinctKeys(recs)
    requires StillThere(labels, after, names) && Additions(recs, labels, after, names)
    requires forall k | TrainableKey(after, k) ::
               TrainableKey(labels, k) || exists rec <- recs :: Trainable(rec.row) && KeyOf(rec.row) == k
    ensures MirrorMatches(mirror + ExamplesOf(recs, names), after, names)
  {
    var owners :| Owned(mirror, owners, labels, names);
    ExtendOwned(mirror, owners, labels, after, recs, names);
  }

  lemma ExtendOwned(mirror: seq<Example>, owners: seq<Key>, labels: Index, after: Index, recs: seq<LabelRecord>, names: seq<string>)
    requires Owned(mirror, owners, labels, names) && DistinctKeys(recs)
    requires StillThere(labels, after, names) && Additions(recs, labels, after, names)
    requires forall k | TrainableKey(after, k) ::
               TrainableKey(labels, k) || exists rec <- recs :: Trainable(rec.row) && KeyOf(rec.row) == k
    ensures Owned(mirror + ExamplesOf(recs, names), owners + KeysOf(TrainableOf(recs)), after, names)
  {
    var added := KeysOf(TrainableOf(recs));
    TrainableDistinct(recs);
    forall k <- added ensures k !in owners {
      var i :| 0 <= i < |added| && added[i] == k;
      AddedOwns(labels, after, recs, names, i);
      if k in owners {
        OwnerIsTrainable(mirror, owners, labels, names, k);
      }
    }
    JoinedOwnersDiffer(owners, added);
    forall i | 0 <= i < |owners + added| ensures Owns(mirror + ExamplesOf(recs, names), owners + added, after, names, i) {
      if i < |owners| {
        OwnersKeepOwning(mirror, owners, labels, after, names, i);
      } else {
        AddedOwns(labels, after, recs, names, i - |owners|);
      }
      OwnsJoined(mirror, ExamplesOf(recs, names), owners, added, after, names, i);
    }
    forall k | TrainableKey(after, k) ensures k in owners + added {
      EveryKeyOwned(labels, recs, owners, k);
    }
  }

  function TrainableKeys(labels: Index): set<Key> {
    set k | k in labels && TrainableKey(labels, k)
  }

  /** An exact mirror is as long as there are trainable labels. */
  lemma MirrorLength(mirror: seq<Example>, labels: Index, names: seq<string>)
    requires MirrorMatches(mirror, labels, names)
    ensures |mirror| == |TrainableKeys(labels)|
  {
    var owners :| Owned(mirror, owners, labels, names);
    DistinctCount(owners);
    forall k ensures k in owners <==> k in TrainableKeys(labels) {
      if k in owners {
        OwnerIsTrainable(mirror, owners, labels, names, k);
      }
    }
    assert (set k | k in owners) == TrainableKeys(labels);
  }

  lemma {:induction false} DistinctCount(keys: seq<Key>)
    requires DistinctSeq(keys)
    ensures |set k | k in keys| == |keys|
  {
    if keys != [] {
      var n := |keys| - 1;
      DistinctCount(keys[..n]);
      assert keys == keys[..n] + [keys[n]];
      assert (set k | k in keys) == (set k | k in keys[..n]) + {keys[n]};
    }
  }
}
