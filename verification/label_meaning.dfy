/**
 What labels, refusals, acks, training examples and training sets mean, said over the fields
 of the rows sent.
 */
module LabelMeaning {
  import opened Options
  import opened LabelLog
  import opened LabelBatch
  import opened LabelIngest
  import opened StoreRuns

  /******* Rows *******/

  /** Two rows are of one label exactly if client, kind, hash and time are the same. */
  lemma SameLabelExactly(a: Row, b: Row)
    ensures KeyOf(a) == KeyOf(b) <==> a.client == b.client && a.kind == b.kind && a.featuresHash == b.featuresHash && a.ts == b.ts
  {
  }

  /**
   A row is stored if it comes from the client and of the kind it is sent as, with a known action,
   finite features and no more than 64 KiB.
   */
  predicate Storable(row: Row, client: string, kind: string) {
    && row.client == client && row.kind == kind
    && row.action in {Accepted, AutoActed, Dismissed, Ignored}
    && (forall name <- row.features :: row.features[name].Finite?)
    && row.size <= 65536
  }

  /** Each refusal, and the order in which they are tried. */
  lemma RowRefusedExactly(row: Row, client: string, kind: string)
    ensures RowRefusal(row, client, kind).None? <==> Storable(row, client, kind)
    ensures RowRefusal(row, client, kind) == Some(ClientMismatch) <==> row.client != client
    ensures RowRefusal(row, client, kind) == Some(KindMismatch) <==> row.client == client && row.kind != kind
    ensures RowRefusal(row, client, kind) == Some(UnknownUserAction)
            <==> row.client == client && row.kind == kind && row.action !in {Accepted, AutoActed, Dismissed, Ignored}
    ensures RowRefusal(row, client, kind) == Some(RowTooLarge)
            <==> Storable(row.(size := 0), client, kind) && row.size > 65536
  {
    assert row.(size := 0).features == row.features;
  }

  /** A row fits the contract if it names its version or none, only its features, and all of them when complete. */
  lemma FitsExactly(row: Row, contract: Contract)
    ensures RowFits(row, contract)
            <==> && row.contractVersion in {None, Some(contract.version)}
                 && row.features.Keys <= (set name | name in contract.names)
                 && (row.complete ==> forall name <- contract.names :: name in row.features)
  {
  }

  /** The ack is the time and revision of the last row sent, in that order. */
  lemma AckIsTheLastRow(rows: seq<Row>, ts: int, revision: int)
    ensures LastSent(rows) == Some((ts, revision))
            <==> rows != [] && rows[|rows| - 1].ts == ts && rows[|rows| - 1].revision == revision
    ensures LastSent(rows).None? <==> rows == []
  {
  }

  /** What is stored of a batch: the storable rows, with the batch's stamp, in the order sent. */
  lemma {:induction false} StoredRows(rows: seq<Row>, client: string, kind: string, stamp: int)
    ensures forall rec <- AcceptedRecords(rows, client, kind, stamp) ::
              rec.ingestedAt == stamp && rec.row in rows && Storable(rec.row, client, kind)
    ensures forall row <- rows | Storable(row, client, kind) :: LabelRecord(row, stamp) in AcceptedRecords(rows, client, kind, stamp)
  {
    if rows != [] {
      var n := |rows| - 1;
      StoredRows(rows[..n], client, kind, stamp);
      RowRefusedExactly(rows[n], client, kind);
      assert rows == rows[..n] + [rows[n]];
    }
  }

  /******* Outcomes *******/

  /** What upserting holds of a label: its record of highest revision, known or sent. */
  lemma {:induction false} HighestSoFar(index: Index, recs: seq<LabelRecord>, k: Key)
    ensures k in UpsertAll(index, recs) <==> k in index || exists rec <- recs :: KeyOf(rec.row) == k
    ensures k in UpsertAll(index, recs) ==>
              && (k in index ==> index[k].row.revision <= UpsertAll(index, recs)[k].row.revision)
              && (forall rec <- recs | KeyOf(rec.row) == k :: rec.row.revision <= UpsertAll(index, recs)[k].row.revision)
              && ((k in index && UpsertAll(index, recs)[k] == index[k])
                  || exists rec <- recs :: KeyOf(rec.row) == k && UpsertAll(index, recs)[k] == rec)
  {
    if recs != [] {
      var n := |recs| - 1;
      HighestSoFar(index, recs[..n], k);
      assert recs == recs[..n] + [recs[n]];
      assert forall rec <- recs :: rec in recs[..n] || rec == recs[n];
      assert recs[n] in recs && forall rec <- recs[..n] :: rec in recs;
    }
  }

  /** An earlier row of the batch that was stored for the same label as row `i`. */
  predicate EarlierRow(rows: seq<Row>, client: string, kind: string, i: nat, j: nat)
    requires i < |rows|
  {
    j < i && Storable(rows[j], client, kind) && KeyOf(rows[j]) == KeyOf(rows[i])
  }

  /** Row `i` is beyond every revision of its label, known or earlier in the batch. */
  ghost predicate Newest(index: Index, rows: seq<Row>, client: string, kind: string, i: nat)
    requires i < |rows|
  {
    && (KeyOf(rows[i]) in index ==> rows[i].revision > index[KeyOf(rows[i])].row.revision)
    && (forall j: nat | EarlierRow(rows, client, kind, i, j) :: rows[i].revision > rows[j].revision)
  }

  ghost predicate AlreadyThere(index: Index, rows: seq<Row>, client: string, kind: string, i: nat)
    requires i < |rows|
  {
    KeyOf(rows[i]) in index || exists j: nat :: EarlierRow(rows, client, kind, i, j)
  }

  lemma StoredBefore(rows: seq<Row>, client: string, kind: string, stamp: int, i: nat, rec: LabelRecord)
    requires i < |rows|
    ensures rec in AcceptedRecords(rows[..i], client, kind, stamp) && KeyOf(rec.row) == KeyOf(rows[i])
            <==> rec.ingestedAt == stamp && exists j: nat :: EarlierRow(rows, client, kind, i, j) && rows[j] == rec.row
  {
    StoredRows(rows[..i], client, kind, stamp);
    if rec in AcceptedRecords(rows[..i], client, kind, stamp) && KeyOf(rec.row) == KeyOf(rows[i]) {
      var j :| 0 <= j < i && rows[..i][j] == rec.row;
      assert EarlierRow(rows, client, kind, i, j);
    }
    if j: nat :| EarlierRow(rows, client, kind, i, j) && rows[j] == rec.row {
      assert rows[..i][j] in rows[..i];
      assert rec.ingestedAt == stamp ==> rec == LabelRecord(rows[j], stamp);
    }
  }

  lemma NewestExactly(index: Index, rows: seq<Row>, client: string, kind: string, stamp: int, i: nat)
    requires i < |rows|
    ensures var now := UpsertAll(index, AcceptedRecords(rows[..i], client, kind, stamp));
            && (KeyOf(rows[i]) in now <==> AlreadyThere(index, rows, client, kind, i))
            && (KeyOf(rows[i]) in now ==>
                  (rows[i].revision > now[KeyOf(rows[i])].row.revision <==> Newest(index, rows, client, kind, i)))
  {
    var recs, k := AcceptedRecords(rows[..i], client, kind, stamp), KeyOf(rows[i]);
    HighestSoFar(index, recs, k);
    forall rec ensures rec in recs && KeyOf(rec.row) == k
                       <==> rec.ingestedAt == stamp && exists j: nat :: EarlierRow(rows, client, kind, i, j) && rows[j] == rec.row {
      StoredBefore(rows, client, kind, stamp, i, rec);
    }
    forall j: nat | EarlierRow(rows, client, kind, i, j) ensures LabelRecord(rows[j], stamp) in recs {
      StoredBefore(rows, client, kind, stamp, i, LabelRecord(rows[j], stamp));
    }
  }

  /** The outcome of every row of a batch, by position. */
  lemma OutcomeExactly(index: Index, rows: seq<Row>, client: string, kind: string, stamp: int, i: nat)
    requires i < |rows|
    ensures var out := OutcomesOf(index, rows, client, kind, stamp)[i];
            && out.ts == rows[i].ts && out.revision == rows[i].revision
            && (out.status.Refused? <==> !Storable(rows[i], client, kind))
            && (out.status.New? <==> Storable(rows[i], client, kind) && !AlreadyThere(index, rows, client, kind, i))
            && (out.status.Superseding? <==> && Storable(rows[i], client, kind) && AlreadyThere(index, rows, client, kind, i)
                                             && Newest(index, rows, client, kind, i))
  {
    OutcomeAt(index, rows, client, kind, stamp, i, |rows|);
    assert rows[..|rows|] == rows;
    RowRefusedExactly(rows[i], client, kind);
    NewestExactly(index, rows, client, kind, stamp, i);
  }

  lemma {:induction false} OutcomeAt(index: Index, rows: seq<Row>, client: string, kind: string, stamp: int, i: nat, upTo: nat)
    requires i < upTo <= |rows|
    ensures OutcomesOf(index, rows[..upTo], client, kind, stamp)[i]
            == OutcomeAgainst(UpsertAll(index, AcceptedRecords(rows[..i], client, kind, stamp)), rows[i], client, kind)
  {
    OneMoreRow(index, rows, upTo - 1, client, kind, stamp);
    if i < upTo - 1 {
      OutcomeAt(index, rows, client, kind, stamp, i, upTo - 1);
    }
  }

  /******* Training examples *******/

  /** Labels by what the user did with a complete row: taken up, or dismissed. */
  function TakenUp(labels: Index): set<Key> {
    set k | k in labels && labels[k].row.complete && labels[k].row.action in {Accepted, AutoActed}
  }

  function Dismissals(labels: Index): set<Key> {
    set k | k in labels && labels[k].row.complete && labels[k].row.action == Dismissed
  }

  /** The example of a row: its features in contract order, when they were taken, and 1 or 0 by what the user did. */
  predicate IsExampleOf(e: Example, row: Row, names: seq<string>) {
    && row.complete && row.action in {Accepted, AutoActed, Dismissed}
    && e.y == (if row.action == Dismissed then 0.0 else 1.0)
    && e.asOf == (match row.snapshot case Some(t) => t case None => row.ts)
    && |e.x| == |names|
    && forall i | 0 <= i < |names| :: names[i] in row.features ==> e.x[i] == row.features[names[i]]
  }

  lemma ExampleIsOfItsRow(row: Row, names: seq<string>)
    ensures Trainable(row) <==> row.complete && row.action in {Accepted, AutoActed, Dismissed}
    ensures Trainable(row) ==> IsExampleOf(ExampleFor(row, names), row, names)
  {
  }

  /******* What a batch asks of log and mirror *******/

  /** What a row is trained as: 1 if taken up, 0 if dismissed, or nothing. */
  function TrainedAs(row: Row): Option<real> {
    if !row.complete then None
    else if row.action in {Accepted, AutoActed} then Some(1.0)
    else if row.action == Dismissed then Some(0.0)
    else None
  }

  /** The `i`th record of the stream supersedes what is held of a label known before the batch. */
  predicate SupersedesAt(index: Index, recs: seq<LabelRecord>, i: nat)
    requires i < |recs|
  {
    var k := KeyOf(recs[i].row);
    k in index && recs[i].row.revision > index[k].row.revision
    && forall j | 0 <= j < i && KeyOf(recs[j].row) == k :: recs[i].row.revision > recs[j].row.revision
  }

  /** The row held of a label when the `i`th record of the stream arrives: that of highest revision so far. */
  function HeldAt(index: Index, recs: seq<LabelRecord>, i: nat, k: Key): Option<Row>
    requires i <= |recs|
  {
    var now := UpsertAll(index, recs[..i]);
    if k in now then Some(now[k].row) else None
  }

  /** It does so changing or withdrawing what the label is trained as. */
  predicate ChangesAt(index: Index, recs: seq<LabelRecord>, i: nat)
    requires i < |recs|
  {
    SupersedesAt(index, recs, i)
    && match HeldAt(index, recs, i, KeyOf(recs[i].row))
       case Some(held) => TrainedAs(held).Some? && TrainedAs(recs[i].row) != TrainedAs(held)
       case None => false
  }

  /** It does so making trainable what was not. */
  predicate UpgradesAt(index: Index, recs: seq<LabelRecord>, i: nat)
    requires i < |recs|
  {
    SupersedesAt(index, recs, i) && TrainedAs(recs[i].row).Some?
    && match HeldAt(index, recs, i, KeyOf(recs[i].row))
       case Some(held) => TrainedAs(held).None?
       case None => false
  }

  lemma SupersedesExactly(index: Index, recs: seq<LabelRecord>, i: nat)
    requires i < |recs|
    ensures Supersedes(index, UpsertAll(index, recs[..i]), recs[i]) <==> SupersedesAt(index, recs, i)
  {
    var before, k := recs[..i], KeyOf(recs[i].row);
    HighestSoFar(index, before, k);
    assert forall j | 0 <= j < i :: before[j] == recs[j] && recs[j] in before;
  }

  lemma MirrorWorkStep(index: Index, recs: seq<LabelRecord>, i: nat)
    requires i < |recs|
    ensures LabelChanged(index, recs[..i + 1]) <==> LabelChanged(index, recs[..i]) || ChangesAt(index, recs, i)
    ensures Upgrades(index, recs[..i + 1])
            == Upgrades(index, recs[..i]) + if UpgradesAt(index, recs, i) then [recs[i]] else []
  {
    assert recs[..i + 1] == recs[..i] + [recs[i]];
    OneMore(index, recs[..i], recs[i]);
    SupersedesExactly(index, recs, i);
  }

  /**
   A batch has the mirror rebuilt exactly if some record of it changes or withdraws what a known
   label is trained as.
   */
  lemma {:induction false} RebuildExactly(index: Index, recs: seq<LabelRecord>, n: nat)
    requires n <= |recs|
    ensures LabelChanged(index, recs[..n]) <==> exists i | 0 <= i < n :: ChangesAt(index, recs, i)
  {
    if n > 0 {
      RebuildExactly(index, recs, n - 1);
      MirrorWorkStep(index, recs, n - 1);
    }
  }

  /** The known labels it queues examples of are those a record makes trainable. */
  lemma {:induction false} QueuedExactly(index: Index, recs: seq<LabelRecord>, n: nat, rec: LabelRecord)
    requires n <= |recs|
    ensures rec in Upgrades(index, recs[..n]) <==> exists i | 0 <= i < n :: recs[i] == rec && UpgradesAt(index, recs, i)
  {
    if n > 0 {
      QueuedExactly(index, recs, n - 1, rec);
      MirrorWorkStep(index, recs, n - 1);
    }
  }

  /** The keys appended are those sent and not known, once each. */
  lemma {:induction false} NewKeysExactly(index: Index, recs: seq<LabelRecord>)
    ensures forall k :: k in NewKeys(index, recs) <==> k !in index && exists rec <- recs :: KeyOf(rec.row) == k
    ensures forall i, j | 0 <= i < j < |NewKeys(index, recs)| :: NewKeys(index, recs)[i] != NewKeys(index, recs)[j]
  {
    if recs != [] {
      var n := |recs| - 1;
      NewKeysExactly(index, recs[..n]);
      assert recs == recs[..n] + [recs[n]];
      assert forall rec <- recs :: rec in recs[..n] || rec == recs[n];
      assert recs[n] in recs && forall rec <- recs[..n] :: rec in recs;
    }
  }

  /** Every example of an exact mirror is of a current label, and every complete label acted on has one. */
  lemma MirrorInFields(mirror: seq<Example>, labels: Index, names: seq<string>)
    requires MirrorMatches(mirror, labels, names)
    ensures forall e <- mirror :: exists k <- labels :: IsExampleOf(e, labels[k].row, names)
    ensures forall k <- TakenUp(labels) + Dismissals(labels) :: exists e <- mirror :: IsExampleOf(e, labels[k].row, names)
  {
    MirrorIsTheLabels(mirror, labels, names);
    forall e <- mirror ensures exists k <- labels :: IsExampleOf(e, labels[k].row, names) {
      var k :| TrainableKey(labels, k) && e == ExampleFor(labels[k].row, names);
      ExampleIsOfItsRow(labels[k].row, names);
      assert k in labels;
    }
    forall k <- TakenUp(labels) + Dismissals(labels) ensures exists e <- mirror :: IsExampleOf(e, labels[k].row, names) {
      ExampleIsOfItsRow(labels[k].row, names);
      assert TrainableKey(labels, k) && ExampleFor(labels[k].row, names) in mirror;
    }
  }

  /** How many examples carry `y`. */
  function CountOf(examples: seq<Example>, y: real): nat {
    if examples == [] then 0
    else CountOf(examples[..|examples| - 1], y) + if examples[|examples| - 1].y == y then 1 else 0
  }

  /** The label's example carries `y` and is not leaked by `read`. */
  predicate KeepsWith(labels: Index, read: Index, names: seq<string>, y: real, k: Key) {
    TrainableKey(labels, k) && ExampleFor(labels[k].row, names).y == y && !Leaked(ExampleFor(labels[k].row, names), read, names)
  }

  function KeptWith(owners: seq<Key>, labels: Index, read: Index, names: seq<string>, y: real): set<Key> {
    set k | k in owners && KeepsWith(labels, read, names, y, k)
  }

  lemma CountOneMore(examples: seq<Example>, e: Example, y: real)
    ensures CountOf(examples + [e], y) == CountOf(examples, y) + if e.y == y then 1 else 0
  {
    assert (examples + [e])[..|examples|] == examples;
  }

  lemma KeptOneMore(owners: seq<Key>, k: Key, labels: Index, read: Index, names: seq<string>, y: real)
    requires k !in owners
    ensures |KeptWith(owners + [k], labels, read, names, y)|
            == |KeptWith(owners, labels, read, names, y)| + if KeepsWith(labels, read, names, y, k) then 1 else 0
  {
    var fewer, more := KeptWith(owners, labels, read, names, y), KeptWith(owners + [k], labels, read, names, y);
    assert more == if KeepsWith(labels, read, names, y, k) then fewer + {k} else fewer;
  }

  lemma NotLeakedOneMore(mirror: seq<Example>, e: Example, read: Index, names: seq<string>)
    ensures NotLeaked(mirror + [e], read, names)
            == NotLeaked(mirror, read, names) + if Leaked(e, read, names) then [] else [e]
  {
    assert (mirror + [e])[..|mirror|] == mirror;
  }

  lemma {:induction false} KeptCount(owners: seq<Key>, labels: Index, read: Index, names: seq<string>, y: real)
    requires AllTrainable(owners, labels) && DistinctSeq(owners)
    ensures CountOf(NotLeaked(Mapped(owners, labels, names), read, names), y) == |KeptWith(owners, labels, read, names, y)|
  {
    if owners == [] {
      assert KeptWith(owners, labels, read, names, y) == {};
    } else {
      var fewer, k := owners[..|owners| - 1], owners[|owners| - 1];
      var e := ExampleFor(labels[k].row, names);
      assert owners == fewer + [k] && k !in fewer;
      KeptCount(fewer, labels, read, names, y);
      MappedOneMore(fewer, k, labels, names);
      NotLeakedOneMore(Mapped(fewer, labels, names), e, read, names);
      KeptOneMore(fewer, k, labels, read, names, y);
      CountOneMore(NotLeaked(Mapped(fewer, labels, names), read, names), e, y);
    }
  }

  /** Of these labels, those whose example is not leaked by what was read of the log. */
  function Unleaked(keys: set<Key>, labels: Index, read: Index, names: seq<string>): set<Key> {
    set k | k in keys && k in labels && Trainable(labels[k].row) && !Leaked(ExampleFor(labels[k].row, names), read, names)
  }

  /**
   From an exact mirror, the rows trained on: as many with 1 as complete labels were accepted or
   acted on automatically, as many with 0 as were dismissed, each less the leaked ones, and no
   others.
   */
  lemma TrainingSetCounts(mirror: seq<Example>, labels: Index, read: Index, names: seq<string>)
    requires MirrorMatches(mirror, labels, names)
    ensures CountOf(NotLeaked(mirror, read, names), 1.0) == |Unleaked(TakenUp(labels), labels, read, names)|
    ensures CountOf(NotLeaked(mirror, read, names), 0.0) == |Unleaked(Dismissals(labels), labels, read, names)|
    ensures forall e <- mirror :: e.y == 1.0 || e.y == 0.0
  {
    var owners :| Owned(mirror, owners, labels, names);
    OwnersAreMapped(mirror, owners, labels, names);
    KeptCount(owners, labels, read, names, 1.0);
    KeptCount(owners, labels, read, names, 0.0);
    KeptAre(owners, labels, read, names, 1.0, TakenUp(labels));
    KeptAre(owners, labels, read, names, 0.0, Dismissals(labels));
    MirrorInFields(mirror, labels, names);
  }

  lemma KeptAre(owners: seq<Key>, labels: Index, read: Index, names: seq<string>, y: real, keys: set<Key>)
    requires forall k | TrainableKey(labels, k) :: k in owners
    requires (y == 1.0 && keys == TakenUp(labels)) || (y == 0.0 && keys == Dismissals(labels))
    ensures KeptWith(owners, labels, read, names, y) == Unleaked(keys, labels, read, names)
  {
    forall k | k in labels
      ensures k in keys && Trainable(labels[k].row) <==> TrainableKey(labels, k) && ExampleFor(labels[k].row, names).y == y
    {
      ExampleIsOfItsRow(labels[k].row, names);
    }
  }

  /** The same of a mirror as a whole. */
  lemma MirrorCounts(mirror: seq<Example>, labels: Index, names: seq<string>)
    requires MirrorMatches(mirror, labels, names)
    ensures CountOf(mirror, 1.0) == |TakenUp(labels)| && CountOf(mirror, 0.0) == |Dismissals(labels)|
    ensures forall e <- mirror :: e.y == 1.0 || e.y == 0.0
  {
    var owners :| Owned(mirror, owners, labels, names);
    OwnersAreMapped(mirror, owners, labels, names);
    TrainingSetCounts(mirror, labels, map[], names);
    NothingLeaks(mirror, names);
    NoneLeaked(TakenUp(labels), labels, names);
    NoneLeaked(Dismissals(labels), labels, names);
  }

  lemma NoneLeaked(keys: set<Key>, labels: Index, names: seq<string>)
    requires forall k <- keys :: TrainableKey(labels, k)
    ensures Unleaked(keys, labels, map[], names) == keys
  {
    forall k | k in keys ensures !Leaked(ExampleFor(labels[k].row, names), map[], names) {
      LeakedExactly(ExampleFor(labels[k].row, names), map[], names);
    }
  }

  lemma {:induction false} NothingLeaks(mirror: seq<Example>, names: seq<string>)
    requires forall i | 0 <= i < |mirror| :: |mirror[i].x| == |names|
    ensures NotLeaked(mirror, map[], names) == mirror
  {
    if mirror != [] {
      NothingLeaks(mirror[..|mirror| - 1], names);
    }
  }

  /******* Leaked rows *******/

  /** The time a row's features were taken. */
  function TakenAt(row: Row): int {
    match row.snapshot
    case Some(t) => t
    case None => row.ts
  }

  /** An incomplete row that carries exactly the example's features, taken at its time. */
  predicate LeaksVector(row: Row, e: Example, names: seq<string>) {
    && !row.complete && TakenAt(row) == e.asOf && |e.x| == |names|
    && forall i | 0 <= i < |names| :: names[i] in row.features && row.features[names[i]] == e.x[i]
  }

  /** An incomplete row taken at the example's time that lacks a feature. */
  predicate LeaksTime(row: Row, e: Example, names: seq<string>) {
    !row.complete && TakenAt(row) == e.asOf && exists name <- names :: name !in row.features
  }

  /**
   Exactly which examples are excluded: of another length; with the features and time of an
   incomplete row; or of a time at which an incomplete row lacks a feature and no complete row
   was taken.
   */
  lemma LeakedExactly(e: Example, labels: Index, names: seq<string>)
    ensures Leaked(e, labels, names)
            <==> || |e.x| != |names|
                 || (exists k <- labels :: LeaksVector(labels[k].row, e, names))
                 || ((exists k <- labels :: LeaksTime(labels[k].row, e, names))
                     && forall k <- labels :: labels[k].row.complete ==> TakenAt(labels[k].row) != e.asOf)
  {
    forall k | k in labels ensures AsOf(labels[k].row) == TakenAt(labels[k].row) {
    }
    if |e.x| == |names| {
      forall k | k in labels
        ensures LeaksVector(labels[k].row, e, names)
                <==> && !labels[k].row.complete && HasEveryName(labels[k].row, names)
                     && (AsOf(labels[k].row), VectorOf(labels[k].row, names)) == (e.asOf, e.x)
      {
        VectorExactly(labels[k].row, e, names);
      }
    }
  }

  lemma VectorExactly(row: Row, e: Example, names: seq<string>)
    requires |e.x| == |names|
    ensures LeaksVector(row, e, names)
            <==> !row.complete && HasEveryName(row, names) && (AsOf(row), VectorOf(row, names)) == (e.asOf, e.x)
  {
    if LeaksVector(row, e, names) {
      assert VectorOf(row, names) == e.x;
    } else if !row.complete && HasEveryName(row, names) && (AsOf(row), VectorOf(row, names)) == (e.asOf, e.x) {
      forall i | 0 <= i < |names| ensures names[i] in row.features && row.features[names[i]] == e.x[i] {
        assert names[i] in names && VectorOf(row, names)[i] == e.x[i];
      }
    }
  }

  /** What a training set holds, from the fields of the log's labels: nothing while marked, never fewer than 20 rows. */
  lemma TrainingSetInFields(s: Snapshot, names: seq<string>, readable: bool)
    requires Reconciled(s, names)
    ensures TrainingRows(s, names, readable).Some? ==>
              var labels, read := LabelsOf(s.file), LabelsOf(ReadLog(s.file, readable));
              var rows := TrainingRows(s, names, readable).value;
              && !s.dirty && |rows| >= 20
              && CountOf(rows, 1.0) == |Unleaked(TakenUp(labels), labels, read, names)|
              && CountOf(rows, 0.0) == |Unleaked(Dismissals(labels), labels, read, names)|
              && forall e <- rows :: (e.y == 1.0 || e.y == 0.0) && exists k <- labels :: IsExampleOf(e, labels[k].row, names)
    ensures TrainingRows(s, names, readable).None? ==>
              s.dirty || |NotLeaked(s.mirror, LabelsOf(ReadLog(s.file, readable)), names)| < 20
  {
    if TrainingRows(s, names, readable).Some? {
      TrainingSetCounts(s.mirror, LabelsOf(s.file), LabelsOf(ReadLog(s.file, readable)), names);
      MirrorInFields(s.mirror, LabelsOf(s.file), names);
    }
  }
}
