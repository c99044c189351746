/**
 One stream's retained training sets in S3: the mirror's push and pull, and the purge
 of a whole prefix. Every request may fail with any part of it carried out.
 */
module RetainedMirror {
  import opened Options
  import opened ObjectStore

  predicate EndsWith(text: string, suffix: string) {
    |suffix| <= |text| && text[|text| - |suffix|..] == suffix
  }

  /** A name `*.jsonl` matches inside one directory. */
  predicate RetainedName(name: string) {
    '/' !in name && EndsWith(name, ".jsonl")
  }

  lemma EndsWithExactly(text: string, suffix: string)
    ensures EndsWith(text, suffix) <==> exists front :: text == front + suffix
  {
    if EndsWith(text, suffix) {
      assert text == text[..|text| - |suffix|] + suffix;
    }
    if front :| text == front + suffix {
      assert text[|text| - |suffix|..] == suffix;
    }
  }

  /** A retained file is one of the directory itself, named `*.jsonl`. */
  lemma RetainedNameExactly(name: string)
    ensures RetainedName(name) <==> '/' !in name && exists front :: name == front + ".jsonl"
  {
    EndsWithExactly(name, ".jsonl");
  }

  function Names(order: seq<string>): set<string> {
    set name | name in order
  }

  function NameUnder(prefix: string, key: string): string
    requires prefix <= key
  {
    key[|prefix|..]
  }

  lemma NameOfKey(prefix: string, name: string)
    ensures prefix <= prefix + name && NameUnder(prefix, prefix + name) == name
  {
  }

  lemma KeyOfName(prefix: string, key: string)
    requires prefix <= key
    ensures prefix + NameUnder(prefix, key) == key
  {
  }

  /******* What push leaves *******/

  /** Under `prefix` there are exactly these files, each in one version. */
  ghost predicate Mirrors(h: History, prefix: string, files: map<string, string>) {
    && (forall v <- h | prefix <= v.key ::
          NameUnder(prefix, v.key) in files && v.body == Some(files[NameUnder(prefix, v.key)]) && IsLatest(h, v))
    && (forall name <- files :: Read(h, prefix + name) == Some(files[name]))
  }

  lemma MirrorsOneVersionEach(h: History, prefix: string, files: map<string, string>, i: nat, j: nat)
    requires Ordered(h) && Mirrors(h, prefix, files)
    requires i < |h| && j < |h| && prefix <= h[i].key && h[i].key == h[j].key
    ensures i == j
  {
    assert h[i] in h && h[j] in h;
  }

  /** Two buckets that mirror the same files show the same keys and bytes under the prefix. */
  lemma MirrorsAgree(g: History, h: History, prefix: string, files: map<string, string>)
    requires Mirrors(g, prefix, files) && Mirrors(h, prefix, files)
    ensures (set v | v in g && prefix <= v.key :: (v.key, v.body)) == (set v | v in h && prefix <= v.key :: (v.key, v.body))
  {
    MirrorsShow(g, prefix, files);
    MirrorsShow(h, prefix, files);
  }

  lemma MirrorsShow(h: History, prefix: string, files: map<string, string>)
    requires Mirrors(h, prefix, files)
    ensures (set v | v in h && prefix <= v.key :: (v.key, v.body)) == (set name | name in files :: (prefix + name, Some(files[name])))
  {
    var shown := set v | v in h && prefix <= v.key :: (v.key, v.body);
    var wanted := set name | name in files :: (prefix + name, Some(files[name]));
    forall v | v in h && prefix <= v.key ensures (v.key, v.body) in wanted {
      KeyOfName(prefix, v.key);
    }
    forall name | name in files ensures (prefix + name, Some(files[name])) in shown {
      LatestIsMember(h, prefix + name);
      NameOfKey(prefix, name);
    }
  }

  /******* Uploading *******/

  /** What the bucket holds once the files in `done` were put. */
  ghost predicate Uploaded(was: History, h: History, prefix: string, files: map<string, string>, done: set<string>) {
    && Elsewhere(h, prefix) == Elsewhere(was, prefix)
    && (forall name <- done :: name in files && Read(h, prefix + name) == Some(files[name]))
    && (forall key :: !(prefix <= key && NameUnder(prefix, key) in done) ==> Latest(h, key) == Latest(was, key))
    && (forall v <- h :: v in was || IsUpload(v, prefix, files))
  }

  predicate IsUpload(v: Version, prefix: string, files: map<string, string>) {
    prefix <= v.key && NameUnder(prefix, v.key) in files && v.body == Some(files[NameUnder(prefix, v.key)])
  }

  lemma UploadedStep(was: History, h: History, prefix: string, files: map<string, string>, done: set<string>,
                     name: string, id: nat, now: int)
    requires Uploaded(was, h, prefix, files, done) && name in files
    ensures Uploaded(was, Written(h, prefix + name, id, files[name], now), prefix, files, done + {name})
  {
    var key, body := prefix + name, files[name];
    var after := Written(h, key, id, body, now);
    NameOfKey(prefix, name);
    WriteElsewhere(h, key, id, body, now, prefix);
    forall other ensures Read(after, other) == if other == key then Some(body) else Read(h, other) {
      WriteIsRead(h, key, id, body, now, other);
    }
    forall other | !(prefix <= other && NameUnder(prefix, other) in done + {name})
      ensures Latest(after, other) == Latest(was, other)
    {
      WriteIsRead(h, key, id, body, now, other);
    }
  }

  /******* Sweeping *******/

  /** What push deletes: versions of files that are gone, and every version that is not the current one. */
  function Doomed(h: History, prefix: string, local: set<string>): set<nat> {
    set v | v in h && prefix <= v.key && (NameUnder(prefix, v.key) !in local || !IsLatest(h, v)) :: v.id
  }

  lemma CurrentFileSurvives(h: History, prefix: string, local: set<string>, gone: set<nat>, name: string)
    requires Ordered(h) && name in local && gone <= Doomed(h, prefix, local) && Read(h, prefix + name).Some?
    ensures Latest(Remaining(h, gone), prefix + name) == Latest(h, prefix + name)
  {
    var key := prefix + name;
    LatestIsMember(h, key);
    NameOfKey(prefix, name);
    var v := Latest(h, key).value;
    if v.id in gone {
      var w :| w in h && prefix <= w.key && (NameUnder(prefix, w.key) !in local || !IsLatest(h, w)) && w.id == v.id;
      IdsAreUnique(h, v, w);
      assert false;
    }
    LatestSurvives(h, gone, key);
  }

  lemma SweepLeavesOthers(h: History, prefix: string, local: set<string>, gone: set<nat>)
    requires Ordered(h) && gone <= Doomed(h, prefix, local)
    ensures Elsewhere(Remaining(h, gone), prefix) == Elsewhere(h, prefix)
  {
    forall v | v in h && v.id in gone ensures prefix <= v.key {
      var w :| w in h && prefix <= w.key && w.id == v.id;
      IdsAreUnique(h, v, w);
    }
    ElsewhereRemaining(h, prefix, gone);
  }

  /** Sweeping after a complete upload leaves exactly the files. */
  lemma SweepMirrors(was: History, h: History, prefix: string, files: map<string, string>)
    requires Ordered(h) && Uploaded(was, h, prefix, files, files.Keys)
    ensures Mirrors(Remaining(h, Doomed(h, prefix, files.Keys)), prefix, files)
  {
    var gone := Doomed(h, prefix, files.Keys);
    var after := Remaining(h, gone);
    AllRemainingMembers(h, gone);
    forall name | name in files ensures Read(after, prefix + name) == Some(files[name]) {
      CurrentFileSurvives(h, prefix, files.Keys, gone, name);
    }
    forall v | v in after && prefix <= v.key
      ensures NameUnder(prefix, v.key) in files && IsLatest(after, v)
              && v.body == Some(files[NameUnder(prefix, v.key)])
    {
      assert v in h && v.id !in gone;
      KeyOfName(prefix, v.key);
      LatestSurvives(h, gone, v.key);
    }
  }

  /** What an interrupted sweep leaves readable. */
  lemma PartialSweep(was: History, h: History, prefix: string, files: map<string, string>, gone: set<nat>)
    requires Ordered(h) && Uploaded(was, h, prefix, files, files.Keys) && gone <= Doomed(h, prefix, files.Keys)
    ensures forall name <- files :: Read(Remaining(h, gone), prefix + name) == Some(files[name])
    ensures forall v <- Remaining(h, gone) :: v in was || IsUpload(v, prefix, files)
  {
    AllRemainingMembers(h, gone);
    forall name | name in files ensures Read(Remaining(h, gone), prefix + name) == Some(files[name]) {
      CurrentFileSurvives(h, prefix, files.Keys, gone, name);
    }
  }

  /**
   An interrupted sweep may bring back a file the directory no longer has: of its two
   versions only the newer one was deleted when the request broke off.
   */
  lemma InterruptedSweepResurfaces(prefix: string, name: string, older: string, newer: string)
    requires older != newer
    ensures var h := [Version(prefix + name, 0, Some(older), None), Version(prefix + name, 1, Some(newer), None)];
            && Ordered(h) && {1} <= Doomed(h, prefix, {})
            && Read(h, prefix + name) == Some(newer) && Read(Remaining(h, {1}), prefix + name) == Some(older)
  {
    var v, w := Version(prefix + name, 0, Some(older), None), Version(prefix + name, 1, Some(newer), None);
    NameOfKey(prefix, name);
    OfTwo(v, w);
  }

  /**
   A push that breaks off in its sweep can bring an older version of a key back exactly when
   the directory has no file for it and the bucket holds it in more than one version.
   */
  lemma BrokenSweepResurfacesExactly(h: History, prefix: string, local: set<string>, key: string)
    requires Ordered(h)
    ensures MayResurface(h, Doomed(h, prefix, local), key)
            <==> && prefix <= key && NameUnder(prefix, key) !in local && Latest(h, key).Some?
                 && exists v <- h :: v.key == key && v != Latest(h, key).value
  {
    LatestIsMember(h, key);
    MayResurfaceExactly(h, Doomed(h, prefix, local), key);
    if Latest(h, key).Some? {
      LatestDoomedExactly(h, prefix, local, Latest(h, key).value);
    }
  }

  lemma LatestDoomedExactly(h: History, prefix: string, local: set<string>, v: Version)
    requires Ordered(h) && v in h && IsLatest(h, v)
    ensures v.id in Doomed(h, prefix, local) <==> prefix <= v.key && NameUnder(prefix, v.key) !in local
  {
    if v.id in Doomed(h, prefix, local) {
      var w :| w in h && prefix <= w.key && (NameUnder(prefix, w.key) !in local || !IsLatest(h, w)) && w.id == v.id;
      IdsAreUnique(h, v, w);
    }
  }

  /** The request list of a push: the versions of `gone` files, then the noncurrent ones. */
  method DeletionList(entries: seq<Listed>, prefix: string, local: set<string>) returns (objects: seq<nat>)
    requires forall e <- entries :: prefix <= e.version.key
    ensures forall id :: id in objects
              <==> exists e <- entries :: e.version.id == id && (NameUnder(prefix, e.version.key) !in local || !e.isLatest)
  {
    var gone, noncurrent := [], [];
    for i := 0 to |entries|
      invariant forall id :: id in gone
                  <==> exists e <- entries[..i] :: e.version.id == id && NameUnder(prefix, e.version.key) !in local
      invariant forall id :: id in noncurrent
                  <==> exists e <- entries[..i] ::
                         e.version.id == id && NameUnder(prefix, e.version.key) in local && !e.isLatest
    {
      var e := entries[i];
      assert entries[..i + 1] == entries[..i] + [e];
      if NameUnder(prefix, e.version.key) !in local {
        gone := gone + [e.version.id];
      } else if !e.isLatest {
        noncurrent := noncurrent + [e.version.id];
      }
    }
    assert entries[..|entries|] == entries;
    objects := gone + noncurrent;
  }

  /** What even a broken-off push keeps: each file reads as its old or new bytes, and no version comes from nowhere. */
  ghost predicate Safe(was: History, h: History, prefix: string, files: map<string, string>) {
    && Elsewhere(h, prefix) == Elsewhere(was, prefix)
    && (forall name <- files ::
          Read(h, prefix + name) == Some(files[name]) || Read(h, prefix + name) == Read(was, prefix + name))
    && (forall v <- h :: v in was || IsUpload(v, prefix, files))
  }

  lemma UploadedIsSafe(was: History, h: History, prefix: string, files: map<string, string>, done: set<string>)
    requires Uploaded(was, h, prefix, files, done)
    ensures Safe(was, h, prefix, files)
  {
    forall name | name in files
      ensures Read(h, prefix + name) == Some(files[name]) || Read(h, prefix + name) == Read(was, prefix + name)
    {
      NameOfKey(prefix, name);
      if name !in done {
        assert Latest(h, prefix + name) == Latest(was, prefix + name);
      }
    }
  }

  lemma SweepIsSafe(was: History, h: History, prefix: string, files: map<string, string>, gone: set<nat>)
    requires Ordered(h) && Uploaded(was, h, prefix, files, files.Keys) && gone <= Doomed(h, prefix, files.Keys)
    ensures Safe(was, Remaining(h, gone), prefix, files)
  {
    PartialSweep(was, h, prefix, files, gone);
    SweepLeavesOthers(h, prefix, files.Keys, gone);
  }

  /** The uploads of `push`. */
  method Upload(bucket: Bucket, prefix: string, files: map<string, string>, order: seq<string>, now: int, puts: nat -> Reply)
    returns (ok: bool, ghost done: set<string>)
    requires bucket.Valid() && Names(order) == files.Keys
    modifies bucket
    ensures bucket.Valid()
    ensures (forall k :: puts(k).Done?) ==> ok
    ensures ok ==> done == files.Keys
    ensures Uploaded(old(bucket.history), bucket.history, prefix, files, done)
  {
    ok, done := true, {};
    for i := 0 to |order|
      invariant bucket.Valid() && ok && done == Names(order[..i])
      invariant Uploaded(old(bucket.history), bucket.history, prefix, files, done)
    {
      NamesOneMore(order, i);
      ghost var before, id := bucket.history, bucket.next;
      UploadedStep(old(bucket.history), before, prefix, files, done, order[i], id, now);
      ok := bucket.Put(prefix + order[i], files[order[i]], now, puts(i));
      if bucket.history != before {
        done := done + {order[i]};
      }
      if !ok {
        return;
      }
      WrittenDiffers(before, prefix + order[i], id, files[order[i]], now);
    }
    TakeAll(order);
  }

  lemma NamesOneMore(order: seq<string>, i: nat)
    requires i < |order|
    ensures order[i] in Names(order) && Names(order[..i + 1]) == Names(order[..i]) + {order[i]}
  {
    TakeOneMore(order, i);
  }

  lemma WrittenDiffers(h: History, key: string, id: nat, body: string, now: int)
    ensures Written(h, key, id, body, now) != h
  {
    assert |Written(h, key, id, body, now)| == |h| + 1;
  }

  /**
   `push`: put every file, delete the objects with no file, then every noncurrent
   version. From any history, when it answers the bucket holds exactly the files; when
   it breaks off it is still safe, so a rerun completes it.
   */
  method Push(bucket: Bucket, prefix: string, files: map<string, string>, order: seq<string>, now: int,
              puts: nat -> Reply, deletes: nat -> Reply)
    returns (ok: bool)
    requires bucket.Valid() && Names(order) == files.Keys
    modifies bucket
    ensures bucket.Valid()
    ensures (forall k :: puts(k).Done?) && (forall k :: deletes(k).Done?) ==> ok
    ensures ok ==> Mirrors(bucket.history, prefix, files)
    ensures Safe(old(bucket.history), bucket.history, prefix, files)
  {
    ghost var was := bucket.history;
    ghost var done, gone;
    ok, done := Upload(bucket, prefix, files, order, now, puts);
    ghost var uploaded := bucket.history;
    if !ok {
      UploadedIsSafe(was, uploaded, prefix, files, done);
      return;
    }
    var entries := bucket.List(prefix);
    var objects := DeletionList(entries, prefix, files.Keys);
    DeletionListIsDoomed(uploaded, entries, prefix, files.Keys, objects);
    ok, gone := DeleteVersions(bucket, objects, deletes);
    SweepMirrors(was, uploaded, prefix, files);
    SweepIsSafe(was, uploaded, prefix, files, gone);
  }

  /** `push` of a directory: only its retained files are uploaded, and they are counted. */
  method PushDirectory(bucket: Bucket, prefix: string, directory: map<string, string>, order: seq<string>, now: int,
                       puts: nat -> Reply, deletes: nat -> Reply)
    returns (ok: bool, uploaded: nat)
    requires bucket.Valid() && Names(order) == set name | name in directory && RetainedName(name)
    modifies bucket
    ensures bucket.Valid()
    ensures (forall k :: puts(k).Done?) && (forall k :: deletes(k).Done?) ==> ok
    ensures ok ==> Holds(bucket.history, prefix, directory)
    ensures ok ==> uploaded == |set name | name in directory && RetainedName(name)|
    ensures Elsewhere(bucket.history, prefix) == Elsewhere(old(bucket.history), prefix)
  {
    var files := map name | name in directory && RetainedName(name) :: directory[name];
    assert files.Keys == set name | name in directory && RetainedName(name);
    ok := Push(bucket, prefix, files, order, now, puts, deletes);
    uploaded := |files|;
    if ok {
      MirrorsHold(bucket.history, prefix, directory, files);
    }
  }

  /** Name by name: the bucket reads exactly the directory's retained files under the prefix, and keeps no version of anything else there. */
  ghost predicate Holds(h: History, prefix: string, directory: map<string, string>) {
    && (forall name :: Read(h, prefix + name)
                       == if name in directory && RetainedName(name) then Some(directory[name]) else None)
    && (forall v <- h | prefix <= v.key ::
          exists name <- directory :: RetainedName(name) && v.key == prefix + name && v.body == Some(directory[name]))
  }

  lemma MirrorsHold(h: History, prefix: string, directory: map<string, string>, files: map<string, string>)
    requires Mirrors(h, prefix, files) && files == map name | name in directory && RetainedName(name) :: directory[name]
    ensures Holds(h, prefix, directory)
  {
    forall name ensures Read(h, prefix + name) == if name in directory && RetainedName(name) then Some(directory[name]) else None {
      LatestIsMember(h, prefix + name);
      NameOfKey(prefix, name);
      assert name in files <==> name in directory && RetainedName(name);
    }
    forall v | v in h && prefix <= v.key
      ensures exists name <- directory :: RetainedName(name) && v.key == prefix + name && v.body == Some(directory[name])
    {
      KeyOfName(prefix, v.key);
      var name := NameUnder(prefix, v.key);
      assert name in files && name in directory;
    }
  }

  lemma DeletionListIsDoomed(h: History, entries: seq<Listed>, prefix: string, local: set<string>, objects: seq<nat>)
    requires forall e: Listed :: e in entries
               <==> e.version in h && prefix <= e.version.key && e.isLatest == IsLatest(h, e.version)
    requires forall id :: id in objects
               <==> exists e <- entries :: e.version.id == id && (NameUnder(prefix, e.version.key) !in local || !e.isLatest)
    ensures Ids(objects) == Doomed(h, prefix, local)
  {
    forall id | id in Doomed(h, prefix, local) ensures id in objects {
      var v :| v in h && prefix <= v.key && (NameUnder(prefix, v.key) !in local || !IsLatest(h, v)) && v.id == id;
      assert Listed(v, IsLatest(h, v)) in entries;
    }
  }

  /******* Pulling *******/

  /** The retained files a pull finds. */
  function Pulled(h: History, prefix: string): map<string, string> {
    map name | name in PulledNames(h, prefix) :: Read(h, prefix + name).GetOr("")
  }

  function PulledNames(h: History, prefix: string): set<string> {
    set v | v in h && prefix <= v.key && Read(h, v.key).Some? && RetainedName(NameUnder(prefix, v.key)) :: NameUnder(prefix, v.key)
  }

  lemma PulledMembers(h: History, prefix: string, name: string)
    ensures name in Pulled(h, prefix) <==> RetainedName(name) && Read(h, prefix + name).Some?
  {
    if name in PulledNames(h, prefix) {
      var v :| v in h && prefix <= v.key && Read(h, v.key).Some? && RetainedName(NameUnder(prefix, v.key)) && NameUnder(prefix, v.key) == name;
      KeyOfName(prefix, v.key);
    }
    if RetainedName(name) && Read(h, prefix + name).Some? {
      LatestIsMember(h, prefix + name);
      NameOfKey(prefix, name);
      var v := Latest(h, prefix + name).value;
      assert v in h && v.key == prefix + name;
    }
  }

  function Others(directory: map<string, string>): map<string, string> {
    map name | name in directory && !RetainedName(name) :: directory[name]
  }

  /** What was pushed is what is pulled. */
  lemma PushThenPull(h: History, prefix: string, files: map<string, string>)
    requires Mirrors(h, prefix, files) && forall name <- files :: RetainedName(name)
    ensures Pulled(h, prefix) == files
  {
    forall name ensures name in Pulled(h, prefix) <==> name in files {
      PulledMembers(h, prefix, name);
      LatestIsMember(h, prefix + name);
      NameOfKey(prefix, name);
    }
  }

  /**
   Name by name, what a directory holds after a pull that answered: a retained file exactly if the
   bucket reads it, with those bytes; any other file exactly if it was there, with its bytes.
   */
  ghost predicate PulledInto(result: map<string, string>, directory: map<string, string>, h: History, prefix: string) {
    && (forall name | RetainedName(name) ::
          (if name in result then Some(result[name]) else None) == Read(h, prefix + name))
    && OthersStay(result, directory)
  }

  ghost predicate OthersStay(result: map<string, string>, directory: map<string, string>) {
    forall name | !RetainedName(name) :: (name in result <==> name in directory) && (name in result ==> result[name] == directory[name])
  }

  lemma MergedIsPulledInto(directory: map<string, string>, h: History, prefix: string)
    ensures PulledInto(Others(directory) + Pulled(h, prefix), directory, h, prefix)
    ensures |Pulled(h, prefix)| == |set name | name in Others(directory) + Pulled(h, prefix) && RetainedName(name)|
  {
    var result := Others(directory) + Pulled(h, prefix);
    forall name ensures name in Pulled(h, prefix) <==> RetainedName(name) && Read(h, prefix + name).Some? {
      PulledMembers(h, prefix, name);
    }
    assert (set name | name in result && RetainedName(name)) == Pulled(h, prefix).Keys;
  }

  /** A pull that breaks off leaves no retained file the bucket does not read so, and no other file touched. */
  ghost predicate PartlyPulled(result: map<string, string>, directory: map<string, string>, h: History, prefix: string) {
    && (forall name <- result | RetainedName(name) :: Read(h, prefix + name) == Some(result[name]))
    && OthersStay(result, directory)
  }

  lemma BrokenIsPartlyPulled(result: map<string, string>, directory: map<string, string>, h: History, prefix: string)
    requires FromEither(result, Others(directory), Pulled(h, prefix)) && Others(directory).Keys <= result.Keys
    ensures PartlyPulled(result, directory, h, prefix)
  {
    forall name ensures name in Pulled(h, prefix) <==> RetainedName(name) && Read(h, prefix + name).Some? {
      PulledMembers(h, prefix, name);
    }
  }

  /** From any directory to any other: after a push and a pull that answer, the retained files are the same, the others untouched. */
  lemma PushedThenPulled(from: map<string, string>, h: History, prefix: string, into: map<string, string>, result: map<string, string>)
    requires Holds(h, prefix, from) && PulledInto(result, into, h, prefix)
    ensures forall name | RetainedName(name) ::
              (name in result <==> name in from) && (name in result ==> result[name] == from[name])
    ensures OthersStay(result, into)
  {
  }

  /** The copies made of the objects in `done`. */
  ghost predicate Copied(copied: map<string, string>, h: History, prefix: string, done: seq<Version>) {
    && (forall name <- copied :: RetainedName(name) && Read(h, prefix + name) == Some(copied[name]))
    && (forall name <- copied :: exists v <- done :: v.key == prefix + name)
    && (forall v <- done | prefix <= v.key && RetainedName(NameUnder(prefix, v.key)) :: NameUnder(prefix, v.key) in copied)
  }

  lemma CopiedStep(copied: map<string, string>, h: History, prefix: string, done: seq<Version>, v: Version)
    requires Copied(copied, h, prefix, done)
    requires prefix <= v.key && IsLatest(h, v) && v.body.Some? && forall w <- done :: w.key != v.key
    ensures var name := NameUnder(prefix, v.key);
            if RetainedName(name) then name !in copied && Copied(copied[name := v.body.value], h, prefix, done + [v])
            else Copied(copied, h, prefix, done + [v])
  {
    KeyOfName(prefix, v.key);
  }

  lemma CopiedAreSome(copied: map<string, string>, h: History, prefix: string, done: seq<Version>)
    requires Copied(copied, h, prefix, done)
    ensures forall name <- copied :: name in Pulled(h, prefix) && copied[name] == Pulled(h, prefix)[name]
  {
    forall name | name in copied ensures name in Pulled(h, prefix) && copied[name] == Pulled(h, prefix)[name] {
      PulledMembers(h, prefix, name);
    }
  }

  lemma CopiedAreAll(copied: map<string, string>, h: History, prefix: string, done: seq<Version>)
    requires Copied(copied, h, prefix, done)
    requires forall v | v in h && prefix <= v.key && IsLatest(h, v) && v.body.Some? :: v in done
    ensures copied == Pulled(h, prefix)
  {
    CopiedAreSome(copied, h, prefix, done);
    forall name | name in Pulled(h, prefix) ensures name in copied {
      PulledMembers(h, prefix, name);
      LatestIsMember(h, prefix + name);
      NameOfKey(prefix, name);
      assert Latest(h, prefix + name).value in done;
    }
  }

  /**
   `pull`: drop the directory's retained files, then copy every retained object. When it
   answers, the directory holds exactly the pulled files beside its other ones; a pull that
   breaks off leaves only such files.
   */
  method Pull(bucket: Bucket, prefix: string, directory: map<string, string>, replies: nat -> Reply)
    returns (ok: bool, result: map<string, string>, pulled: nat)
    requires bucket.Valid()
    ensures (forall k :: replies(k).Done?) ==> ok
    ensures ok ==> PulledInto(result, directory, bucket.history, prefix)
    ensures ok ==> pulled == |set name | name in result && RetainedName(name)|
    ensures PartlyPulled(result, directory, bucket.history, prefix)
  {
    var found := bucket.ListCurrent(prefix);
    result, ok, pulled := CopyInto(Others(directory), bucket.history, prefix, found, replies);
    MergedIsPulledInto(directory, bucket.history, prefix);
    BrokenIsPartlyPulled(result, directory, bucket.history, prefix);
  }

  /** The copying loop of `pull`, over the objects listed. */
  method CopyInto(kept: map<string, string>, ghost h: History, prefix: string, found: seq<Version>, replies: nat -> Reply)
    returns (result: map<string, string>, ok: bool, pulled: nat)
    requires forall v :: v in found <==> v in h && prefix <= v.key && IsLatest(h, v) && v.body.Some?
    requires forall i, j | 0 <= i < j < |found| :: found[i].key != found[j].key
    ensures (forall k :: replies(k).Done?) ==> ok
    ensures ok ==> result == kept + Pulled(h, prefix) && pulled == |Pulled(h, prefix)|
    ensures FromEither(result, kept, Pulled(h, prefix)) && kept.Keys <= result.Keys
  {
    result, ok, pulled := kept, true, 0;
    ghost var copied: map<string, string> := map[];
    for i := 0 to |found|
      invariant ok && pulled == |copied| && result == kept + copied
      invariant Copied(copied, h, prefix, found[..i])
    {
      TakeOneMore(found, i);
      CopiedStep(copied, h, prefix, found[..i], found[i]);
      var name := NameUnder(prefix, found[i].key);
      if RetainedName(name) {
        ok := replies(i).Done?;
        if !ok {
          CopiedAreSome(copied, h, prefix, found[..i]);
          MergeIsFromEither(kept, copied, Pulled(h, prefix));
          return;
        }
        MergeOneMore(kept, copied, name, found[i].body.value);
        result, pulled := result[name := found[i].body.value], pulled + 1;
        copied := copied[name := found[i].body.value];
      }
    }
    TakeAll(found);
    CopiedAreAll(copied, h, prefix, found);
    MergeIsFromEither(kept, copied, Pulled(h, prefix));
  }

  lemma TakeAll<T>(s: seq<T>)
    ensures s[..|s|] == s
  {
  }

  lemma TakeOneMore<T>(s: seq<T>, i: nat)
    requires i < |s|
    ensures s[i] in s && s[..i + 1] == s[..i] + [s[i]]
    ensures forall x <- s[..i] :: exists j | 0 <= j < i :: s[j] == x
  {
  }

  lemma MergeOneMore(kept: map<string, string>, copied: map<string, string>, name: string, body: string)
    ensures (kept + copied)[name := body] == kept + copied[name := body]
    ensures name !in copied ==> |copied[name := body]| == |copied| + 1
  {
    if name !in copied {
      assert copied[name := body].Keys == copied.Keys + {name};
    }
  }

  ghost predicate FromEither(result: map<string, string>, kept: map<string, string>, pulled: map<string, string>) {
    forall name <- result ::
      (name in kept && result[name] == kept[name]) || (name in pulled && result[name] == pulled[name])
  }

  lemma MergeIsFromEither(kept: map<string, string>, copied: map<string, string>, pulled: map<string, string>)
    requires forall name <- copied :: name in pulled && copied[name] == pulled[name]
    ensures FromEither(kept + copied, kept, pulled)
  {
  }

  /******* Purging a prefix *******/

  datatype Purge = Refused | Broken | Purged(count: nat)

  lemma {:induction false} EverythingUnderGone(h: History, prefix: string, gone: set<nat>)
    requires Ordered(h) && forall v <- h :: v.id in gone <==> prefix <= v.key
    ensures Remaining(h, gone) == Elsewhere(h, prefix)
  {
    if h != [] {
      assert h == h[..|h| - 1] + [h[|h| - 1]];
      assert h[|h| - 1] in h && forall v <- h[..|h| - 1] :: v in h;
      EverythingUnderGone(h[..|h| - 1], prefix, gone);
    }
  }

  /** `purge_prefix`: nothing under the prefix is left, not even a version hidden behind another. */
  method PurgePrefix(bucket: Bucket, prefix: string, replies: nat -> Reply) returns (outcome: Purge)
    requires bucket.Valid()
    modifies bucket`history
    ensures bucket.Valid()
    ensures outcome.Refused? <==> prefix == "" || prefix[|prefix| - 1] != '/' || prefix == "/"
    ensures outcome.Refused? ==> bucket.history == old(bucket.history)
    ensures (forall k :: replies(k).Done?) ==> !outcome.Broken?
    ensures outcome.Purged? ==> forall v :: v in bucket.history <==> v in old(bucket.history) && !(prefix <= v.key)
    ensures outcome.Purged? ==> |bucket.history| + outcome.count == |old(bucket.history)|
    ensures outcome.Purged? ==> bucket.history == Elsewhere(old(bucket.history), prefix)
    ensures Elsewhere(bucket.history, prefix) == Elsewhere(old(bucket.history), prefix)
  {
    if !EndsWith(prefix, "/") || prefix == "/" {
      return Refused;
    }
    ghost var was := bucket.history;
    var entries := bucket.List(prefix);
    var objects := seq(|entries|, i requires 0 <= i < |entries| => entries[i].version.id);
    forall v | v in was ensures v.id in Ids(objects) <==> prefix <= v.key {
      ListedIds(was, prefix, entries, objects, v);
    }
    var ok, gone := DeleteVersions(bucket, objects, replies);
    assert forall v <- was :: v.id in gone ==> prefix <= v.key;
    ElsewhereRemaining(was, prefix, gone);
    if !ok {
      return Broken;
    }
    EverythingUnderGone(was, prefix, gone);
    AllRemainingMembers(was, gone);
    NamedAreGone(was, prefix, entries, objects);
    return Purged(|objects|);
  }

  /** The versions listed are named once each. */
  lemma NamedAreGone(h: History, prefix: string, entries: seq<Listed>, objects: seq<nat>)
    requires Ordered(h) && |objects| == |entries|
    requires forall i | 0 <= i < |entries| :: entries[i].version in h && objects[i] == entries[i].version.id
    requires forall i, j | 0 <= i < j < |entries| :: entries[i].version.id != entries[j].version.id
    ensures |Remaining(h, Ids(objects))| + |objects| == |h|
  {
    DistinctIds(objects);
    RemainingCount(h, Ids(objects));
  }

  lemma ListedIds(h: History, prefix: string, entries: seq<Listed>, objects: seq<nat>, v: Version)
    requires Ordered(h) && v in h && |objects| == |entries|
    requires forall e: Listed :: e in entries
               <==> e.version in h && prefix <= e.version.key && e.isLatest == IsLatest(h, e.version)
    requires forall i | 0 <= i < |entries| :: objects[i] == entries[i].version.id
    ensures v.id in objects <==> prefix <= v.key
  {
    if v.id in objects {
      var i :| 0 <= i < |objects| && objects[i] == v.id;
      assert entries[i] in entries;
      IdsAreUnique(h, v, entries[i].version);
    }
    if prefix <= v.key {
      assert Listed(v, IsLatest(h, v)) in entries;
    }
  }
}
