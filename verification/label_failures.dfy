/**
 A label batch refused for I/O: what it leaves, and what sending its rows again makes of
 it, with the store's index still cached or read again; and what a log that cannot be read
 costs a rewrite.
 */
module LabelFailures {
  import opened Options
  import opened LabelLog
  import opened LabelBatch
  import opened LabelIngest
  import opened LabelRuns

  /******* What a refusal for I/O leaves *******/

  lemma NewKeysAreNew(known: Index, recs: seq<LabelRecord>)
    ensures DistinctSeq(NewKeys(known, recs)) && forall k <- NewKeys(known, recs) :: k !in known
  {
    var b := AbsorbAll(known, [], recs);
  }

  /** The labels read back when a first part of the new records landed. */
  function LandedLabels(known: Index, recs: seq<LabelRecord>, n: nat): Index
    requires n <= |NewKeys(known, recs)|
  {
    known + Restricted(UpsertAll(known, recs), NewKeys(known, recs)[..n])
  }

  lemma LabelsAfterIoError(s: Snapshot, recs: seq<LabelRecord>, landed: nat)
    requires Synced(s)
    ensures LabelsOf(AfterIoError(s, recs, landed).file) == LandedLabels(s.known, recs, Landed(s.known, recs, landed))
  {
    var n, keys := Landed(s.known, recs, landed), NewKeys(s.known, recs);
    NewKeysAreNew(s.known, recs);
    LabelsOfAppended(s.file, NewRecords(s.known, recs)[..n]);
    assert NewRecords(s.known, recs)[..n] == RecordsFor(keys[..n], UpsertAll(s.known, recs));
    assert DistinctSeq(keys[..n]);
    UnknownUpserted(s.known, keys[..n], UpsertAll(s.known, recs));
  }

  /** A store that knew its file still does exactly when no line landed. */
  lemma SyncLostExactly(s: Snapshot, recs: seq<LabelRecord>, landed: nat)
    requires Synced(s)
    ensures Synced(AfterIoError(s, recs, landed)) <==> Landed(s.known, recs, landed) == 0
    ensures AfterIoError(s, recs, landed) == s <==> Landed(s.known, recs, landed) == 0
  {
    var n, keys := Landed(s.known, recs, landed), NewKeys(s.known, recs);
    LabelsAfterIoError(s, recs, landed);
    NewKeysAreNew(s.known, recs);
    if n == 0 {
      NothingLands(s.file, NewRecords(s.known, recs));
    } else {
      assert keys[..n][0] in keys[..n] && keys[0] in keys;
      assert keys[0] in LandedLabels(s.known, recs, n) && keys[0] !in s.known;
    }
  }

  /**
   A refusal for I/O leaves file and index as they were, whatever a failed write leaves,
   exactly when the batch rewrites the log, that is, supersedes a known label.
   */
  lemma RefusalIsHarmlessExactly(s: Snapshot, recs: seq<LabelRecord>)
    requires Synced(s) && LogWork(s.known, recs)
    ensures (forall landed: nat :: AfterIoError(s, recs, landed) == s) <==> Replacements(s.known, recs) != map[]
    ensures (forall landed: nat :: Synced(AfterIoError(s, recs, landed))) <==> Replacements(s.known, recs) != map[]
  {
    forall landed: nat
      ensures Synced(AfterIoError(s, recs, landed)) <==> Landed(s.known, recs, landed) == 0
      ensures AfterIoError(s, recs, landed) == s <==> Landed(s.known, recs, landed) == 0
    {
      SyncLostExactly(s, recs, landed);
    }
    if Replacements(s.known, recs) == map[] {
      assert Landed(s.known, recs, 1) == 1;
      SyncLostExactly(s, recs, 1);
      assert AfterIoError(s, recs, 1) != s && !Synced(AfterIoError(s, recs, 1));
    }
  }

  /** A first row, refused for I/O, that is in the file all the same and unknown to the store. */
  lemma RefusedRowStays(rec: LabelRecord)
    ensures var empty := EMPTY_STORE;
            && Synced(empty) && LogWork(empty.known, [rec])
            && AfterIoError(empty, [rec], 1).file == [Label(rec)] && !Synced(AfterIoError(empty, [rec], 1))
  {
    var empty := EMPTY_STORE;
    assert [rec] == [] + [rec];
    OneMore(map[], [], rec);
    assert NewKeys(map[], [rec]) == [] + [KeyOf(rec.row)];
    assert NewRecords(map[], [rec]) == [rec] && Replacements(map[], [rec]) == map[];
    SyncLostExactly(empty, [rec], 1);
  }

  /******* What a log that cannot be read costs *******/

  lemma NothingAdded<K, V>(m: map<K, V>)
    ensures map[] + m == m
  {
  }

  lemma NewRecordsAlone(known: Index, recs: seq<LabelRecord>)
    requires Keyed(known)
    ensures LabelsOf(AsLines(NewRecords(known, recs))) == Restricted(UpsertAll(known, recs), NewKeys(known, recs))
  {
    var keys := NewKeys(known, recs);
    LabelsOfAppended([], NewRecords(known, recs));
    assert [] + AsLines(NewRecords(known, recs)) == AsLines(NewRecords(known, recs));
    NewKeysAreNew(known, recs);
    UnknownUpserted(map[], keys, UpsertAll(known, recs));
    NothingAdded(Restricted(UpsertAll(known, recs), keys));
  }

  /**
   A batch is upserted into the log whether or not the log can be read again exactly when it
   rewrites nothing. A rewrite of a log that cannot be read loses every label known before,
   the superseding records with them.
   */
  lemma UnreadRewriteLosesExactly(s: Snapshot, recs: seq<LabelRecord>)
    requires Synced(s)
    ensures (forall after, rereads | LogStep(s, after, recs, rereads) :: LabelsOf(after.file) == UpsertAll(s.known, recs))
            <==> Replacements(s.known, recs) == map[]
    ensures Replacements(s.known, recs) != map[] ==>
              forall after | LogStep(s, after, recs, false) :: forall k <- s.known :: k !in LabelsOf(after.file)
  {
    NewRecordsAlone(s.known, recs);
    NewKeysAreNew(s.known, recs);
    if k :| k in Replacements(s.known, recs) {
      var after := s.(file := AsLines(NewRecords(s.known, recs)), known := UpsertAll(s.known, recs), cached := true);
      assert LogStep(s, after, recs, false);
      SupersededRises(s.known, recs, k);
      assert k in UpsertAll(s.known, recs) && k !in LabelsOf(after.file);
    } else {
      forall after, rereads | LogStep(s, after, recs, rereads) ensures LabelsOf(after.file) == UpsertAll(s.known, recs) {
        SyncedLogStep(s, after, recs, rereads);
      }
    }
  }

  /******* The same rows, stamped anew *******/

  lemma {:induction false} UnstampUpsertAll(m: Index, recs: seq<LabelRecord>)
    ensures UnstampIndex(UpsertAll(m, recs)) == UpsertAll(UnstampIndex(m), UnstampAll(recs))
  {
    if recs != [] {
      var n := |recs| - 1;
      UnstampUpsertAll(m, recs[..n]);
      assert UnstampAll(recs)[..n] == UnstampAll(recs[..n]);
    }
  }

  lemma {:induction false} UnstampNewKeys(m: Index, recs: seq<LabelRecord>)
    ensures NewKeys(UnstampIndex(m), UnstampAll(recs)) == NewKeys(m, recs)
  {
    if recs != [] {
      var n := |recs| - 1;
      UnstampNewKeys(m, recs[..n]);
      assert UnstampAll(recs)[..n] == UnstampAll(recs[..n]);
    }
  }

  /** `again` is `recs` sent again: the same rows with other stamps. */
  predicate SameRowsAgain(recs: seq<LabelRecord>, again: seq<LabelRecord>) {
    UnstampAll(recs) == UnstampAll(again)
  }

  lemma AgainYieldsTheSame(known: Index, recs: seq<LabelRecord>, again: seq<LabelRecord>)
    requires SameRowsAgain(recs, again)
    ensures UnstampIndex(UpsertAll(known, recs)) == UnstampIndex(UpsertAll(known, again))
    ensures NewKeys(known, recs) == NewKeys(known, again)
  {
    UnstampUpsertAll(known, recs);
    UnstampUpsertAll(known, again);
    UnstampNewKeys(known, recs);
    UnstampNewKeys(known, again);
  }

  lemma RowAtKey(m: Index, n: Index, k: Key)
    requires UnstampIndex(m) == UnstampIndex(n) && k in m
    ensures k in n && m[k].row == n[k].row
  {
    assert k in UnstampIndex(m) && UnstampIndex(m)[k] == Unstamp(m[k]);
    assert k in UnstampIndex(n) && UnstampIndex(n)[k] == Unstamp(n[k]);
  }

  lemma SupersededRises(known: Index, recs: seq<LabelRecord>, k: Key)
    requires k in Replacements(known, recs)
    ensures UpsertAll(known, recs)[k].row.revision > known[k].row.revision
  {
    var b := AbsorbAll(known, [], recs);
    BatchIsDetermined(known, recs, b);
  }

  lemma ReplacedByBoth(known: Index, recs: seq<LabelRecord>, again: seq<LabelRecord>, k: Key)
    requires SameRowsAgain(recs, again) && k in Replacements(known, again)
    ensures k in Replacements(known, recs)
  {
    AgainYieldsTheSame(known, recs, again);
    SupersededRises(known, again, k);
    RowAtKey(UpsertAll(known, again), UpsertAll(known, recs), k);
  }

  lemma AgainRewritesTheSame(known: Index, recs: seq<LabelRecord>, again: seq<LabelRecord>)
    requires SameRowsAgain(recs, again) && Replacements(known, recs) == map[]
    ensures Replacements(known, again) == map[]
  {
    forall k ensures k !in Replacements(known, again) {
      if k in Replacements(known, again) {
        ReplacedByBoth(known, recs, again, k);
      }
    }
  }

  /******* Records that raise nothing known *******/

  lemma {:induction false} UpsertAtKey(m: Index, n: Index, recs: seq<LabelRecord>, k: Key)
    requires (k in m <==> k in n) && (k in m ==> m[k] == n[k])
    ensures k in UpsertAll(m, recs) <==> k in UpsertAll(n, recs)
    ensures k in UpsertAll(m, recs) ==> UpsertAll(m, recs)[k] == UpsertAll(n, recs)[k]
  {
    if recs != [] {
      UpsertAtKey(m, n, recs[..|recs| - 1], k);
    }
  }

  ghost predicate RaisesNothing(m: Index, recs: seq<LabelRecord>) {
    forall i | 0 <= i < |recs| && KeyOf(recs[i].row) in m :: recs[i].row.revision <= m[KeyOf(recs[i].row)].row.revision
  }

  lemma {:induction false} KnownStays(m: Index, recs: seq<LabelRecord>)
    requires RaisesNothing(m, recs)
    ensures (forall k <- m :: UpsertAll(m, recs)[k] == m[k]) && !LabelChanged(m, recs)
  {
    if recs != [] {
      KnownStays(m, recs[..|recs| - 1]);
    }
  }

  /** `part` covers `known` and holds nothing `whole` does not. */
  ghost predicate IsPart(known: Index, part: Index, whole: Index) {
    known.Keys <= part.Keys && forall k <- part :: k in whole && part[k] == whole[k]
  }

  /** Part of what a stream yields already is there: the records of the stream raise nothing of it. */
  lemma PartRaisesNothing(known: Index, part: Index, recs: seq<LabelRecord>, whole: Index)
    requires UnstampIndex(UpsertAll(known, recs)) == UnstampIndex(whole)
    requires forall k <- part :: k in whole && part[k] == whole[k]
    ensures RaisesNothing(part, recs)
  {
    forall i | 0 <= i < |recs| && KeyOf(recs[i].row) in part
      ensures recs[i].row.revision <= part[KeyOf(recs[i].row)].row.revision
    {
      var k := KeyOf(recs[i].row);
      StoredAtLeast(known, recs, recs[i]);
      RowAtKey(UpsertAll(known, recs), whole, k);
    }
  }

  predicate AgreeAt(a: Index, b: Index, k: Key) {
    (k in a <==> k in b) && (k in b ==> a[k] == b[k])
  }

  lemma AgreeEverywhere(a: Index, b: Index)
    requires forall k :: AgreeAt(a, b, k)
    ensures a == b
  {
    assert forall k :: AgreeAt(a, b, k) ==> ((k in a <==> k in b) && (k in b ==> a[k] == b[k]));
  }

  lemma CompletesAtKey(known: Index, part: Index, recs: seq<LabelRecord>, whole: Index, k: Key)
    requires UnstampIndex(UpsertAll(known, recs)) == UnstampIndex(whole) && RaisesNothing(part, recs)
    requires (k in known ==> k in part) && (k in part ==> k in whole && part[k] == whole[k])
    ensures AgreeAt(UnstampIndex(UpsertAll(part, recs)), UnstampIndex(whole), k)
  {
    KnownStays(part, recs);
    if k in part {
      assert k in UpsertAll(part, recs) && UnstampIndex(UpsertAll(part, recs))[k] == Unstamp(part[k]);
    } else {
      UpsertAtKey(known, part, recs, k);
      assert k in UnstampIndex(UpsertAll(known, recs)) <==> k in UnstampIndex(UpsertAll(part, recs));
    }
  }

  lemma CompletesAt(known: Index, part: Index, recs: seq<LabelRecord>, whole: Index, k: Key)
    requires UnstampIndex(UpsertAll(known, recs)) == UnstampIndex(whole) && IsPart(known, part, whole)
    ensures AgreeAt(UnstampIndex(UpsertAll(part, recs)), UnstampIndex(whole), k)
  {
    PartRaisesNothing(known, part, recs, whole);
    CompletesAtKey(known, part, recs, whole, k);
  }

  /** Sent over a part of what it yields, a stream still yields the whole. */
  lemma CompletesThePart(known: Index, part: Index, recs: seq<LabelRecord>, whole: Index)
    requires UnstampIndex(UpsertAll(known, recs)) == UnstampIndex(whole) && IsPart(known, part, whole)
    ensures UnstampIndex(UpsertAll(part, recs)) == UnstampIndex(whole)
  {
    forall k ensures AgreeAt(UnstampIndex(UpsertAll(part, recs)), UnstampIndex(whole), k) {
      CompletesAt(known, part, recs, whole, k);
    }
    AgreeEverywhere(UnstampIndex(UpsertAll(part, recs)), UnstampIndex(whole));
  }

  lemma LandedIsAPart(known: Index, recs: seq<LabelRecord>, n: nat)
    requires n <= |NewKeys(known, recs)| && Replacements(known, recs) == map[]
    ensures var part, whole := LandedLabels(known, recs, n), UpsertAll(known, recs);
            IsPart(known, part, whole)
  {
    var whole := UpsertAll(known, recs);
    forall k | k in known ensures whole[k] == known[k] {
      assert k !in Replacements(known, recs);
    }
  }

  /** With nothing superseded, a stream yields what its new records alone yield. */
  lemma NewRecordsSuffice(known: Index, recs: seq<LabelRecord>)
    requires Replacements(known, recs) == map[]
    ensures UpsertAll(known, NewRecords(known, recs)) == UpsertAll(known, recs)
  {
    var b := AbsorbAll(known, [], recs);
    BatchIsDetermined(known, recs, b);
    PendingUpserted(known, b);
    assert known + b.replaced == known;
  }

  /******* Sent again, with the index still cached *******/

  /** What the log holds after the same rows were refused for I/O and sent again. */
  lemma ResentFile(s: Snapshot, recs: seq<LabelRecord>, landed: nat, again: seq<LabelRecord>, after: Snapshot, rereads: bool)
    requires Synced(s) && LogWork(s.known, recs) && Replacements(s.known, recs) == map[] && SameRowsAgain(recs, again)
    requires LogStep(AfterIoError(s, recs, landed), after, again, rereads)
    ensures after.file == AfterIoError(s, recs, landed).file + AsLines(NewRecords(s.known, again))
  {
    AgainYieldsTheSame(s.known, recs, again);
    AgainRewritesTheSame(s.known, recs, again);
  }

  /** The labels heal: stamps aside, file and index agree, on what they would hold had the first attempt succeeded. */
  lemma ResendHealsLabels(s: Snapshot, recs: seq<LabelRecord>, landed: nat, again: seq<LabelRecord>, after: Snapshot, rereads: bool)
    requires Synced(s) && LogWork(s.known, recs) && Replacements(s.known, recs) == map[] && SameRowsAgain(recs, again)
    requires LogStep(AfterIoError(s, recs, landed), after, again, rereads)
    ensures UnstampIndex(LabelsOf(after.file)) == UnstampIndex(UpsertAll(s.known, recs)) == UnstampIndex(after.known)
  {
    var n, whole := Landed(s.known, recs, landed), UpsertAll(s.known, recs);
    var sent := NewRecords(s.known, again);
    ResentFile(s, recs, landed, again, after, rereads);
    LabelsAfterIoError(s, recs, landed);
    LabelsOfAppended(AfterIoError(s, recs, landed).file, sent);
    AgainYieldsTheSame(s.known, recs, again);
    AgainRewritesTheSame(s.known, recs, again);
    NewRecordsSuffice(s.known, again);
    LandedIsAPart(s.known, recs, n);
    CompletesThePart(s.known, LandedLabels(s.known, recs, n), sent, whole);
  }

  /** ...but every line that landed is now there twice. */
  lemma DuplicatesExactly(s: Snapshot, recs: seq<LabelRecord>, landed: nat, again: seq<LabelRecord>, after: Snapshot, rereads: bool)
    requires Synced(s) && LogWork(s.known, recs) && Replacements(s.known, recs) == map[] && SameRowsAgain(recs, again)
    requires LogStep(AfterIoError(s, recs, landed), after, again, rereads)
    ensures UniqueKeys(after.file) <==> UniqueKeys(s.file) && Landed(s.known, recs, landed) == 0
  {
    var n := Landed(s.known, recs, landed);
    ResentFile(s, recs, landed, again, after, rereads);
    AgainYieldsTheSame(s.known, recs, again);
    assert after.file[..|s.file|] == s.file;
    if n == 0 {
      NothingLands(s.file, NewRecords(s.known, recs));
      AgainRewritesTheSame(s.known, recs, again);
      WrittenUpserts(s.file, again);
      assert forall i | 0 <= i < |s.file| :: after.file[i] == s.file[i];
    } else {
      TwiceInTheFile(s.file, NewRecords(s.known, recs)[..n], NewRecords(s.known, again));
      FirstKeys(s.known, recs, again, n);
    }
  }

  lemma FirstKeys(known: Index, recs: seq<LabelRecord>, again: seq<LabelRecord>, n: nat)
    requires NewKeys(known, recs) == NewKeys(known, again) && 0 < n <= |NewKeys(known, recs)|
    ensures KeyOf(NewRecords(known, recs)[..n][0].row) == KeyOf(NewRecords(known, again)[0].row)
  {
    var k := NewKeys(known, recs)[0];
    assert k in NewKeys(known, recs) && k in NewKeys(known, again);
    KeyedUpserts(known, recs, k);
    KeyedUpserts(known, again, k);
  }

  lemma {:induction false} KeyedUpserts(known: Index, recs: seq<LabelRecord>, k: Key)
    requires k in NewKeys(known, recs)
    ensures KeyOf(UpsertAll(known, recs)[k].row) == k
  {
    var b := AbsorbAll(known, [], recs);
  }

  lemma TwiceInTheFile(file: seq<Record>, a: seq<LabelRecord>, b: seq<LabelRecord>)
    requires a != [] && b != []
    ensures KeyOf(a[0].row) == KeyOf(b[0].row) ==> !UniqueKeys(file + AsLines(a) + AsLines(b))
  {
    var all := file + AsLines(a) + AsLines(b);
    assert all[|file|] == Label(a[0]) && all[|file| + |a|] == Label(b[0]);
  }

  /******* The mirror after sending again *******/

  lemma UnstampKeepsMirror(mirror: seq<Example>, labels: Index, names: seq<string>)
    requires MirrorMatches(mirror, labels, names)
    ensures MirrorMatches(mirror, UnstampIndex(labels), names)
  {
    var owners :| Owned(mirror, owners, labels, names);
    forall i | 0 <= i < |owners| ensures Owns(mirror, owners, UnstampIndex(labels), names, i) {
      assert Owns(mirror, owners, labels, names, i);
    }
    forall k | TrainableKey(UnstampIndex(labels), k) ensures k in owners {
      assert TrainableKey(labels, k);
    }
    assert Owned(mirror, owners, UnstampIndex(labels), names);
  }

  lemma StampsKeepMirror(mirror: seq<Example>, labels: Index, names: seq<string>)
    requires MirrorMatches(mirror, UnstampIndex(labels), names)
    ensures MirrorMatches(mirror, labels, names)
  {
    var bare := UnstampIndex(labels);
    var owners :| Owned(mirror, owners, bare, names);
    forall i | 0 <= i < |owners| ensures Owns(mirror, owners, labels, names, i) {
      assert Owns(mirror, owners, bare, names, i);
    }
    forall k | TrainableKey(labels, k) ensures k in owners {
      assert TrainableKey(bare, k);
    }
    assert Owned(mirror, owners, labels, names);
  }

  /** With the index still cached the mirror heals too, exactly unless a rebuild could not read the log it is to match. */
  lemma ResendHealsMirror(s: Snapshot, recs: seq<LabelRecord>, landed: nat, again: seq<LabelRecord>, after: Snapshot,
                          env: IngestEnv, status: MirrorStatus, names: seq<string>, inputs: Key -> Inputs)
    requires Synced(s) && Reconciled(s, names) && FixedInputs(s.known, inputs) && RecordsFixed(again, inputs)
    requires LogWork(s.known, recs) && Replacements(s.known, recs) == map[] && SameRowsAgain(recs, again)
    requires LogStep(AfterIoError(s, recs, landed), after, again, env.rereads)
    requires MirrorStep(AfterIoError(s, recs, landed), after, env, status, names, again) && !status.MirrorFailed?
    ensures Reconciled(after, names)
            <==> (Rebuilds(s, again) ==> after.dirty || env.rebuildReads || TrainableKeys(LabelsOf(after.file)) == {})
  {
    if Rebuilds(s, again) {
      EmptyMirrorExactly(after.mirror, LabelsOf(after.file), names);
    } else {
      IncrementalMirror(s.mirror, s.known, again, names, inputs);
      AddsExactly(s.known, again, names);
      assert s.mirror + [] == s.mirror;
      ResendHealsLabels(s, recs, landed, again, after, env.rereads);
      UnstampKeepsMirror(after.mirror, after.known, names);
      StampsKeepMirror(after.mirror, LabelsOf(after.file), names);
    }
  }

  /******* Sent again, with the index read again *******/

  /** The labels heal here as well, and no line is doubled. */
  lemma RereadHealsLabels(s: Snapshot, recs: seq<LabelRecord>, landed: nat, again: seq<LabelRecord>, after: Snapshot, rereads: bool)
    requires Synced(s) && Replacements(s.known, recs) == map[] && SameRowsAgain(recs, again)
    requires LogStep(Reopened(AfterIoError(s, recs, landed)), after, again, rereads)
    ensures Synced(after) && UnstampIndex(LabelsOf(after.file)) == UnstampIndex(UpsertAll(s.known, recs))
    ensures UniqueKeys(s.file) ==> UniqueKeys(after.file)
  {
    var n, broken := Landed(s.known, recs, landed), AfterIoError(s, recs, landed);
    LabelsAfterIoError(s, recs, landed);
    PartIsNotRewritten(s.known, recs, n, again);
    SyncedLogStep(Reopened(broken), after, again, rereads);
    AgainYieldsTheSame(s.known, recs, again);
    LandedIsAPart(s.known, recs, n);
    CompletesThePart(s.known, LandedLabels(s.known, recs, n), again, UpsertAll(s.known, recs));
    if UniqueKeys(s.file) {
      BrokenFileIsUnique(s, recs, landed);
    }
  }

  /** Of what landed nothing is superseded by the rows sent again. */
  lemma PartIsNotRewritten(known: Index, recs: seq<LabelRecord>, n: nat, again: seq<LabelRecord>)
    requires n <= |NewKeys(known, recs)| && Replacements(known, recs) == map[] && SameRowsAgain(recs, again)
    ensures Replacements(LandedLabels(known, recs, n), again) == map[]
  {
    var part := LandedLabels(known, recs, n);
    AgainYieldsTheSame(known, recs, again);
    LandedIsAPart(known, recs, n);
    PartRaisesNothing(known, part, again, UpsertAll(known, recs));
    KnownStays(part, again);
  }

  lemma BrokenFileIsUnique(s: Snapshot, recs: seq<LabelRecord>, landed: nat)
    requires Synced(s) && UniqueKeys(s.file)
    ensures UniqueKeys(AfterIoError(s, recs, landed).file)
  {
    var n, keys := Landed(s.known, recs, landed), NewKeys(s.known, recs);
    var file := AfterIoError(s, recs, landed).file;
    NewKeysAreNew(s.known, recs);
    forall i | 0 <= i < n ensures KeyOf(file[|s.file| + i].rec.row) == keys[i] && keys[i] !in s.known {
      assert keys[i] in keys;
      KeyedUpserts(s.known, recs, keys[i]);
    }
    forall i | 0 <= i < |s.file| && s.file[i].Label? ensures KeyOf(s.file[i].rec.row) in s.known {
      LineIsItsLabel(s.file, i);
    }
  }

  /** The records that landed, and the examples they should have brought. */
  function LandedRecords(known: Index, recs: seq<LabelRecord>, landed: nat): seq<LabelRecord> {
    NewRecords(known, recs)[..Landed(known, recs, landed)]
  }

  lemma LandedAt(known: Index, recs: seq<LabelRecord>, landed: nat, i: nat)
    requires i < Landed(known, recs, landed)
    ensures var keys, rec := NewKeys(known, recs), LandedRecords(known, recs, landed)[i];
            var part := LandedLabels(known, recs, Landed(known, recs, landed));
            KeyOf(rec.row) == keys[i] && keys[i] !in known && keys[i] in part && part[keys[i]] == rec
  {
    var n, keys := Landed(known, recs, landed), NewKeys(known, recs);
    NewKeysAreNew(known, recs);
    assert keys[i] in keys && keys[..n][i] in keys[..n];
    KeyedUpserts(known, recs, keys[i]);
  }

  lemma LandedAreDistinct(known: Index, recs: seq<LabelRecord>, landed: nat)
    ensures DistinctKeys(LandedRecords(known, recs, landed))
  {
    NewKeysAreNew(known, recs);
    var records := LandedRecords(known, recs, landed);
    forall i, j | 0 <= i < j < |records| ensures KeyOf(records[i].row) != KeyOf(records[j].row) {
      LandedAt(known, recs, landed, i);
      LandedAt(known, recs, landed, j);
    }
  }

  lemma LandedKeepsKnown(known: Index, recs: seq<LabelRecord>, n: nat, names: seq<string>)
    requires n <= |NewKeys(known, recs)|
    ensures StillThere(known, LandedLabels(known, recs, n), names)
  {
    NewKeysAreNew(known, recs);
    assert forall k <- NewKeys(known, recs)[..n] :: k in NewKeys(known, recs);
  }

  /** With the examples of what landed the mirror would match the labels read back. */
  lemma LandedExtend(mirror: seq<Example>, known: Index, recs: seq<LabelRecord>, landed: nat, names: seq<string>)
    requires MirrorMatches(mirror, known, names) && Replacements(known, recs) == map[]
    ensures MirrorMatches(mirror + ExamplesOf(LandedRecords(known, recs, landed), names),
                          LandedLabels(known, recs, Landed(known, recs, landed)), names)
  {
    var n, records := Landed(known, recs, landed), LandedRecords(known, recs, landed);
    var part := LandedLabels(known, recs, n);
    LandedAreDistinct(known, recs, landed);
    LandedKeepsKnown(known, recs, n, names);
    forall i | 0 <= i < n
      ensures KeyOf(records[i].row) !in known && KeyOf(records[i].row) in part && part[KeyOf(records[i].row)] == records[i]
    {
      LandedAt(known, recs, landed, i);
    }
    forall k | TrainableKey(part, k) && !TrainableKey(known, k)
      ensures exists rec <- records :: Trainable(rec.row) && KeyOf(rec.row) == k
    {
      LandedOwnsKey(known, recs, landed, k);
    }
    ExtendMirror(mirror, known, part, records, names);
  }

  lemma LandedOwnsKey(known: Index, recs: seq<LabelRecord>, landed: nat, k: Key)
    requires var part := LandedLabels(known, recs, Landed(known, recs, landed));
             TrainableKey(part, k) && !TrainableKey(known, k)
    ensures exists rec <- LandedRecords(known, recs, landed) :: Trainable(rec.row) && KeyOf(rec.row) == k
  {
    var n := Landed(known, recs, landed);
    var i :| 0 <= i < n && NewKeys(known, recs)[..n][i] == k;
    LandedAt(known, recs, landed, i);
    assert LandedRecords(known, recs, landed)[i] in LandedRecords(known, recs, landed);
  }

  /** Sent again over the index read again, the rows that landed bring the mirror nothing. */
  lemma RereadMirror(s: Snapshot, recs: seq<LabelRecord>, landed: nat, again: seq<LabelRecord>, after: Snapshot,
                     env: IngestEnv, status: MirrorStatus, names: seq<string>, inputs: Key -> Inputs)
    requires Synced(s) && Reconciled(s, names) && !s.dirty && Replacements(s.known, recs) == map[] && SameRowsAgain(recs, again)
    requires FixedInputs(s.known, inputs) && RecordsFixed(recs, inputs) && RecordsFixed(again, inputs)
    requires LogStep(Reopened(AfterIoError(s, recs, landed)), after, again, env.rereads)
    requires MirrorStep(Reopened(AfterIoError(s, recs, landed)), after, env, status, names, again) && !status.MirrorFailed?
    ensures var part := LandedLabels(s.known, recs, Landed(s.known, recs, landed));
            var missing, added := ExamplesOf(LandedRecords(s.known, recs, landed), names), ExamplesOf(Added(part, again), names);
            && !after.dirty && after.mirror == s.mirror + added
            && MirrorMatches(s.mirror + missing + added, after.known, names)
  {
    var n := Landed(s.known, recs, landed);
    var part := LandedLabels(s.known, recs, n);
    LabelsAfterIoError(s, recs, landed);
    AgainYieldsTheSame(s.known, recs, again);
    LandedIsAPart(s.known, recs, n);
    PartRaisesNothing(s.known, part, again, UpsertAll(s.known, recs));
    KnownStays(part, again);
    LandedExtend(s.mirror, s.known, recs, landed, names);
    PartKeepsInputs(s.known, recs, n, inputs);
    IncrementalMirror(s.mirror + ExamplesOf(LandedRecords(s.known, recs, landed), names), part, again, names, inputs);
    AddsExactly(part, again, names);
    assert s.mirror + [] == s.mirror;
  }

  /**
   Read again, the rows that landed are taken for duplicates: their examples are never added and
   nothing is marked. The mirror is exact afterwards exactly when no record that landed is trainable.
   */
  lemma RereadMissesExactly(s: Snapshot, recs: seq<LabelRecord>, landed: nat, again: seq<LabelRecord>, after: Snapshot,
                            env: IngestEnv, status: MirrorStatus, names: seq<string>, inputs: Key -> Inputs)
    requires Synced(s) && Reconciled(s, names) && !s.dirty && Replacements(s.known, recs) == map[] && SameRowsAgain(recs, again)
    requires FixedInputs(s.known, inputs) && RecordsFixed(recs, inputs) && RecordsFixed(again, inputs)
    requires LogStep(Reopened(AfterIoError(s, recs, landed)), after, again, env.rereads)
    requires MirrorStep(Reopened(AfterIoError(s, recs, landed)), after, env, status, names, again) && !status.MirrorFailed?
    ensures !after.dirty
    ensures Reconciled(after, names) <==> forall rec <- LandedRecords(s.known, recs, landed) :: !Trainable(rec.row)
  {
    var part := LandedLabels(s.known, recs, Landed(s.known, recs, landed));
    var missing, added := ExamplesOf(LandedRecords(s.known, recs, landed), names), ExamplesOf(Added(part, again), names);
    RereadMirror(s, recs, landed, again, after, env, status, names, inputs);
    RereadHealsLabels(s, recs, landed, again, after, env.rereads);
    NoneTrainable(LandedRecords(s.known, recs, landed), names);
    ShorterDoesNotMatch(s.mirror, missing, added, after.known, names);
  }

  lemma ShorterDoesNotMatch(a: seq<Example>, b: seq<Example>, c: seq<Example>, labels: Index, names: seq<string>)
    requires MirrorMatches(a + b + c, labels, names)
    ensures MirrorMatches(a + c, labels, names) <==> b == []
  {
    MirrorLength(a + b + c, labels, names);
    if b == [] {
      assert a + b + c == a + c;
    } else if MirrorMatches(a + c, labels, names) {
      MirrorLength(a + c, labels, names);
    }
  }

  lemma PartKeepsInputs(known: Index, recs: seq<LabelRecord>, n: nat, inputs: Key -> Inputs)
    requires n <= |NewKeys(known, recs)| && Replacements(known, recs) == map[]
    requires FixedInputs(known, inputs) && RecordsFixed(recs, inputs)
    ensures FixedInputs(LandedLabels(known, recs, n), inputs)
  {
    UpsertKeepsInputs(known, recs, inputs);
    LandedIsAPart(known, recs, n);
  }

  lemma NoneTrainable(recs: seq<LabelRecord>, names: seq<string>)
    ensures ExamplesOf(recs, names) == [] <==> forall rec <- recs :: !Trainable(rec.row)
  {
    TrainableMembers(recs);
    assert TrainableOf(recs) != [] ==> TrainableOf(recs)[0] in TrainableOf(recs);
  }
}
