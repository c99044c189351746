/**
 The S3 model store: artifacts under versioned keys, a `latest` pointer naming one of
 them, and the purge that removes superseded versions for good.
 */
module ModelStore {
  import opened Options
  import opened Text
  import opened ObjectStore
  import RetainedMirror

  /******* Keys *******/

  function ModelPrefix(tenant: string, model: string): string {
    tenant + "/models/" + model + "/"
  }

  function LatestKey(tenant: string, model: string): string {
    ModelPrefix(tenant, model) + "latest"
  }

  function VersionedKey(tenant: string, model: string, version: string): string {
    ModelPrefix(tenant, model) + (version + "/model.joblib")
  }

  /** One non-empty path segment. */
  predicate IsModelName(model: string) {
    model != "" && '/' !in model && model != "." && model != ".."
  }

  lemma KeysDiffer(tenant: string, model: string, version: string)
    ensures LatestKey(tenant, model) != VersionedKey(tenant, model, version)
  {
    var latest, versioned := LatestKey(tenant, model), VersionedKey(tenant, model, version);
    assert latest[|latest| - 1] == 't';
    assert versioned[|versioned| - 1] == 'b';
  }

  lemma VersionedKeyIsInjective(tenant: string, model: string, v: string, w: string)
    requires VersionedKey(tenant, model, v) == VersionedKey(tenant, model, w)
    ensures v == w
  {
    var prefix := ModelPrefix(tenant, model);
    var key := VersionedKey(tenant, model, v);
    assert key[|prefix|..][..|v|] == v;
    assert key[|prefix|..][..|w|] == w;
  }

  lemma LongerNameHasSlash(tenant: string, m: string, n: string, key: string)
    requires |m| < |n| && ModelPrefix(tenant, m) <= key && ModelPrefix(tenant, n) <= key
    ensures '/' in n
  {
    var at := |tenant + "/models/"| + |m|;
    assert key[at] == ModelPrefix(tenant, m)[at] == '/';
    assert key[at] == ModelPrefix(tenant, n)[at] == n[|m|];
  }

  /** No key lies under the prefixes of two models. */
  lemma PrefixesAreDisjoint(tenant: string, m: string, n: string, key: string)
    requires '/' !in m && '/' !in n && ModelPrefix(tenant, m) <= key && ModelPrefix(tenant, n) <= key
    ensures m == n
  {
    if |m| < |n| {
      LongerNameHasSlash(tenant, m, n, key);
    } else if |n| < |m| {
      LongerNameHasSlash(tenant, n, m, key);
    } else {
      var base := |tenant + "/models/"|;
      assert m == key[base..base + |m|];
      assert n == key[base..base + |n|];
    }
  }

  /******* Reading *******/

  /** The version named by `latest`. */
  function Pointed(h: History, tenant: string, model: string): Option<string> {
    match Read(h, LatestKey(tenant, model))
    case Some(body) => Some(Strip(body))
    case None => None
  }

  /** `load`: the version named by `latest`, if it is there. */
  function Load(h: History, tenant: string, model: string): Option<string> {
    match Pointed(h, tenant, model)
    case Some(version) => Read(h, VersionedKey(tenant, model, version))
    case None => None
  }

  /** `current_version`: an empty pointer names nothing. */
  function CurrentVersion(h: History, tenant: string, model: string): Option<string> {
    if Pointed(h, tenant, model) == Some("") then None else Pointed(h, tenant, model)
  }

  /** The newest object the bucket holds under a key is this. */
  ghost predicate Shows(h: History, key: string, body: string) {
    exists v <- h :: v.key == key && v.body == Some(body) && IsNewest(h, v)
  }

  /** What loads is the object of the version that `latest` names, each under its own key. */
  lemma LoadExactly(h: History, tenant: string, model: string, data: string)
    requires Ordered(h)
    ensures Load(h, tenant, model) == Some(data)
            <==> exists body: string :: && Shows(h, tenant + "/models/" + model + "/latest", body)
                                        && Shows(h, tenant + "/models/" + model + "/" + Strip(body) + "/model.joblib", data)
  {
    KeysExactly(tenant, model, "");
    forall body ensures Shows(h, LatestKey(tenant, model), body) <==> Read(h, LatestKey(tenant, model)) == Some(body) {
      ReadExactly(h, LatestKey(tenant, model), body);
    }
    forall version
      ensures VersionedKey(tenant, model, version) == tenant + "/models/" + model + "/" + version + "/model.joblib"
      ensures Shows(h, VersionedKey(tenant, model, version), data) <==> Read(h, VersionedKey(tenant, model, version)) == Some(data)
    {
      KeysExactly(tenant, model, version);
      ReadExactly(h, VersionedKey(tenant, model, version), data);
    }
  }

  /** The current version is what `latest` names, spaces stripped, unless that is nothing. */
  lemma CurrentVersionExactly(h: History, tenant: string, model: string, version: string)
    requires Ordered(h)
    ensures CurrentVersion(h, tenant, model) == Some(version)
            <==> && version != ""
                 && exists body: string :: Shows(h, tenant + "/models/" + model + "/latest", body) && Strip(body) == version
  {
    KeysExactly(tenant, model, version);
    forall body ensures Shows(h, LatestKey(tenant, model), body) <==> Read(h, LatestKey(tenant, model)) == Some(body) {
      ReadExactly(h, LatestKey(tenant, model), body);
    }
  }

  lemma KeysExactly(tenant: string, model: string, version: string)
    ensures ModelPrefix(tenant, model) == tenant + "/models/" + model + "/"
    ensures LatestKey(tenant, model) == tenant + "/models/" + model + "/latest"
    ensures VersionedKey(tenant, model, version) == tenant + "/models/" + model + "/" + version + "/model.joblib"
  {
    assert "/" + "latest" == "/latest";
  }

  /** Loading depends on two keys only. */
  lemma LoadReadsTwoKeys(g: History, h: History, tenant: string, model: string)
    requires Read(g, LatestKey(tenant, model)) == Read(h, LatestKey(tenant, model))
    requires match Pointed(h, tenant, model)
             case Some(v) => Read(g, VersionedKey(tenant, model, v)) == Read(h, VersionedKey(tenant, model, v))
             case None => true
    ensures Load(g, tenant, model) == Load(h, tenant, model)
  {
  }

  /******* Saving *******/

  lemma {:induction false} TightStays(text: string)
    requires Tight(text)
    ensures Strip(text) == text
  {
  }

  /** The pointer is written last, so an interrupted save is seen only when it reuses the live version's name. */
  lemma HalfSaved(h: History, tenant: string, model: string, version: string, id: nat, data: string, now: int)
    ensures Load(Written(h, VersionedKey(tenant, model, version), id, data, now), tenant, model)
            == if Pointed(h, tenant, model) == Some(version) then Some(data) else Load(h, tenant, model)
  {
    var key := VersionedKey(tenant, model, version);
    var half := Written(h, key, id, data, now);
    KeysDiffer(tenant, model, version);
    WriteIsRead(h, key, id, data, now, LatestKey(tenant, model));
    match Pointed(h, tenant, model) {
      case Some(v) =>
        WriteIsRead(h, key, id, data, now, VersionedKey(tenant, model, v));
        if VersionedKey(tenant, model, v) == key {
          VersionedKeyIsInjective(tenant, model, v, version);
        }
      case None =>
    }
  }

  function Saved(h: History, tenant: string, model: string, version: string, id: nat, data: string, now: int, later: int): History {
    Written(Written(h, VersionedKey(tenant, model, version), id, data, now), LatestKey(tenant, model), id + 1, version, later)
  }

  lemma SaveThenLoad(h: History, tenant: string, model: string, version: string, id: nat, data: string, now: int, later: int)
    requires Tight(version)
    ensures Load(Saved(h, tenant, model, version, id, data, now, later), tenant, model) == Some(data)
    ensures CurrentVersion(Saved(h, tenant, model, version, id, data, now, later), tenant, model) == Some(version)
  {
    var key, pointer := VersionedKey(tenant, model, version), LatestKey(tenant, model);
    var half := Written(h, key, id, data, now);
    KeysDiffer(tenant, model, version);
    TightStays(version);
    WriteIsRead(half, pointer, id + 1, version, later, pointer);
    WriteIsRead(half, pointer, id + 1, version, later, key);
    WriteIsRead(h, key, id, data, now, key);
  }

  /** Saving one model leaves what every other model loads. */
  lemma SaveLeavesOthers(h: History, tenant: string, model: string, version: string, id: nat, data: string,
                         now: int, later: int, other: string)
    requires IsModelName(model) && IsModelName(other) && other != model
    ensures Load(Saved(h, tenant, model, version, id, data, now, later), tenant, other) == Load(h, tenant, other)
  {
    var key, pointer := VersionedKey(tenant, model, version), LatestKey(tenant, model);
    var half := Written(h, key, id, data, now);
    forall k | ModelPrefix(tenant, other) <= k ensures Read(Saved(h, tenant, model, version, id, data, now, later), k) == Read(h, k) {
      if k == key || k == pointer {
        PrefixesAreDisjoint(tenant, model, other, k);
      }
      WriteIsRead(h, key, id, data, now, k);
      WriteIsRead(half, pointer, id + 1, version, later, k);
    }
    LoadReadsTwoKeys(Saved(h, tenant, model, version, id, data, now, later), h, tenant, other);
  }

  /** `save`: the artifact, then the pointer. */
  method Save(bucket: Bucket, tenant: string, model: string, data: string, version: string, now: int, later: int,
              first: Reply, second: Reply)
    returns (ok: bool)
    requires bucket.Valid()
    modifies bucket
    ensures bucket.Valid() && ok == (first.Done? && second.Done?)
    ensures ok ==>
              bucket.history
              == old(bucket.history)
                 + [Version(tenant + "/models/" + model + "/" + version + "/model.joblib", old(bucket.next), Some(data), Some(now)),
                    Version(tenant + "/models/" + model + "/latest", old(bucket.next) + 1, Some(version), Some(later))]
    ensures ok ==> bucket.history == Saved(old(bucket.history), tenant, model, version, old(bucket.next), data, now, later)
    ensures !ok ==>
              || bucket.history == old(bucket.history)
              || bucket.history
                 == Written(old(bucket.history), VersionedKey(tenant, model, version), old(bucket.next), data, now)
              || bucket.history
                 == Saved(old(bucket.history), tenant, model, version, old(bucket.next), data, now, later)
  {
    KeysExactly(tenant, model, version);
    ok := bucket.Put(VersionedKey(tenant, model, version), data, now, first);
    if ok {
      ok := bucket.Put(LatestKey(tenant, model), version, later, second);
    }
  }

  /******* Purging superseded versions *******/

  predicate Old(v: Version, before: int) {
    v.modified.None? || v.modified.value < before
  }

  /** The keys whose current version is never deleted. */
  function Kept(tenant: string, model: string, current: string): set<string> {
    {LatestKey(tenant, model), VersionedKey(tenant, model, current)}
  }

  predicate Superseded(h: History, prefix: string, keep: set<string>, before: int, v: Version) {
    prefix <= v.key && !(IsLatest(h, v) && v.key in keep) && Old(v, before)
  }

  function SupersededIds(h: History, prefix: string, keep: set<string>, before: int): set<nat> {
    set v | v in h && Superseded(h, prefix, keep, before, v) :: v.id
  }

  lemma GoneIsSuperseded(h: History, prefix: string, keep: set<string>, before: int, v: Version)
    requires Ordered(h) && v in h
    ensures v.id in SupersededIds(h, prefix, keep, before) <==> Superseded(h, prefix, keep, before, v)
  {
    if v.id in SupersededIds(h, prefix, keep, before) {
      var w :| w in h && Superseded(h, prefix, keep, before, w) && w.id == v.id;
      IdsAreUnique(h, v, w);
    }
  }

  lemma KeptKeyIsRead(h: History, prefix: string, keep: set<string>, before: int, gone: set<nat>, key: string)
    requires Ordered(h) && key in keep && gone <= SupersededIds(h, prefix, keep, before)
    ensures Read(Remaining(h, gone), key) == Read(h, key)
  {
    LatestIsMember(h, key);
    match Latest(h, key) {
      case Some(v) =>
        GoneIsSuperseded(h, prefix, keep, before, v);
        LatestSurvives(h, gone, key);
      case None =>
        LatestIsMember(Remaining(h, gone), key);
        AllRemainingMembers(h, gone);
    }
  }

  /** Whatever part of a purge is carried out, the model loads as before. */
  lemma PurgeKeepsLoad(h: History, tenant: string, model: string, before: int, gone: set<nat>)
    requires Ordered(h) && CurrentVersion(h, tenant, model).Some?
    requires gone <= SupersededIds(h, ModelPrefix(tenant, model), Kept(tenant, model, CurrentVersion(h, tenant, model).value), before)
    ensures Load(Remaining(h, gone), tenant, model) == Load(h, tenant, model)
    ensures CurrentVersion(Remaining(h, gone), tenant, model) == CurrentVersion(h, tenant, model)
  {
    var current := CurrentVersion(h, tenant, model).value;
    var keep, prefix := Kept(tenant, model, current), ModelPrefix(tenant, model);
    KeptKeyIsRead(h, prefix, keep, before, gone, LatestKey(tenant, model));
    KeptKeyIsRead(h, prefix, keep, before, gone, VersionedKey(tenant, model, current));
    LoadReadsTwoKeys(Remaining(h, gone), h, tenant, model);
  }

  /** A completed purge leaves nothing older than the cutoff but the live pointer and its artifact. */
  lemma PurgeLeavesNothingOld(h: History, prefix: string, keep: set<string>, before: int, v: Version)
    requires Ordered(h)
    ensures v in Remaining(h, SupersededIds(h, prefix, keep, before))
            <==> v in h && (!(prefix <= v.key) || !Old(v, before) || (IsLatest(h, v) && v.key in keep))
  {
    RemainingMembers(h, SupersededIds(h, prefix, keep, before), v);
    if v in h {
      GoneIsSuperseded(h, prefix, keep, before, v);
    }
  }

  lemma PurgeLeavesOthers(h: History, prefix: string, keep: set<string>, before: int, gone: set<nat>)
    requires Ordered(h) && gone <= SupersededIds(h, prefix, keep, before)
    ensures Elsewhere(Remaining(h, gone), prefix) == Elsewhere(h, prefix)
  {
    forall v | v in h && v.id in gone ensures prefix <= v.key {
      GoneIsSuperseded(h, prefix, keep, before, v);
    }
    ElsewhereRemaining(h, prefix, gone);
  }

  /**
   A purge brings an older version back into view exactly when the current version of a
   key it does not keep is older than the cutoff and another version of that key is not.
   */
  lemma PurgeResurfacesExactly(h: History, prefix: string, keep: set<string>, before: int, key: string)
    requires Ordered(h)
    ensures Resurfaces(h, SupersededIds(h, prefix, keep, before), key)
            <==> && prefix <= key && key !in keep && Latest(h, key).Some? && Old(Latest(h, key).value, before)
                 && exists v <- h :: v.key == key && !Old(v, before)
  {
    LatestIsMember(h, key);
    forall v | v in h
      ensures v.id in SupersededIds(h, prefix, keep, before) <==> Superseded(h, prefix, keep, before, v)
    {
      GoneIsSuperseded(h, prefix, keep, before, v);
    }
  }

  /**
   A purge that breaks off can bring an older version back exactly when the current version
   of a key it does not keep is older than the cutoff and is not that key's only version.
   */
  lemma BrokenPurgeResurfacesExactly(h: History, prefix: string, keep: set<string>, before: int, key: string)
    requires Ordered(h)
    ensures MayResurface(h, SupersededIds(h, prefix, keep, before), key)
            <==> && prefix <= key && key !in keep && Latest(h, key).Some? && Old(Latest(h, key).value, before)
                 && exists v <- h :: v.key == key && v != Latest(h, key).value
  {
    LatestIsMember(h, key);
    MayResurfaceExactly(h, SupersededIds(h, prefix, keep, before), key);
    if Latest(h, key).Some? {
      GoneIsSuperseded(h, prefix, keep, before, Latest(h, key).value);
    }
  }

  /** A deleted object, dated in order, readable again because the purge broke off after its marker. */
  lemma BrokenPurgeResurfaces(prefix: string, keep: set<string>, name: string, body: string, before: int)
    requires prefix + name !in keep
    ensures var key := prefix + name;
            var h := [Version(key, 0, Some(body), Some(before - 2)), Version(key, 1, None, Some(before - 1))];
            && Ordered(h) && DatedInOrder(h) && {1} <= SupersededIds(h, prefix, keep, before)
            && !Resurfaces(h, SupersededIds(h, prefix, keep, before), key)
            && Read(h, key) == None && Read(Remaining(h, {1}), key) == Some(body)
  {
    var key := prefix + name;
    var hidden, marker := Version(key, 0, Some(body), Some(before - 2)), Version(key, 1, None, Some(before - 1));
    OfTwo(hidden, marker);
    GoneIsSuperseded([hidden, marker], prefix, keep, before, hidden);
    GoneIsSuperseded([hidden, marker], prefix, keep, before, marker);
  }

  /** Every key's versions are dated, in the order they were written. */
  ghost predicate DatedInOrder(h: History) {
    && (forall v <- h :: v.modified.Some?)
    && (forall v, w | v in h && w in h && v.key == w.key && v.id <= w.id :: v.modified.value <= w.modified.value)
  }

  /** With ordered dates no deleted or replaced object comes back. */
  lemma OrderedDatesNeverResurface(h: History, prefix: string, keep: set<string>, before: int, key: string)
    requires Ordered(h) && DatedInOrder(h)
    ensures var after := Remaining(h, SupersededIds(h, prefix, keep, before));
            Latest(after, key) == Latest(h, key) || Latest(after, key) == None
  {
    var gone := SupersededIds(h, prefix, keep, before);
    PurgeResurfacesExactly(h, prefix, keep, before, key);
    if Resurfaces(h, gone, key) {
      LatestIsMember(h, key);
      var v :| v in h && v.key == key && !Old(v, before);
      LatestHasGreatestId(h, v);
      assert false;
    }
    ResurfacesExactly(h, gone, key);
  }

  /** With a delete marker dated before the object it hides, the deleted object is readable again. */
  lemma EarlierMarkerResurfaces(prefix: string, keep: set<string>, name: string, body: string, before: int)
    requires prefix + name !in keep
    ensures var key := prefix + name;
            var h := [Version(key, 0, Some(body), Some(before)), Version(key, 1, None, Some(before - 1))];
            && Read(h, key) == None
            && Read(Remaining(h, SupersededIds(h, prefix, keep, before)), key) == Some(body)
  {
    var key := prefix + name;
    var hidden, marker := Version(key, 0, Some(body), Some(before)), Version(key, 1, None, Some(before - 1));
    var h := [hidden, marker];
    var gone := SupersededIds(h, prefix, keep, before);
    assert marker in h && hidden in h;
    GoneIsSuperseded(h, prefix, keep, before, hidden);
    GoneIsSuperseded(h, prefix, keep, before, marker);
    assert [] + [hidden] == [hidden] && [hidden] + [marker] == h;
    OneMore([], hidden, gone, key, prefix);
    OneMore([hidden], marker, gone, key, prefix);
  }

  /**
   An erasure: when every version of the model predates the cutoff, saving a retrained
   model after it and purging leaves the retrained artifact and its pointer, nothing else.
   */
  lemma EraseByRetraining(h: History, tenant: string, model: string, version: string, id: nat, data: string,
                          now: int, later: int, before: int)
    requires Ordered(h) && IdsBelow(h, id) && Tight(version) && before <= now && before <= later
    requires forall v <- h | ModelPrefix(tenant, model) <= v.key :: Old(v, before)
    ensures var whole := Saved(h, tenant, model, version, id, data, now, later);
            var after := Remaining(whole, SupersededIds(whole, ModelPrefix(tenant, model), Kept(tenant, model, version), before));
            && Load(after, tenant, model) == Some(data)
            && forall v :: v in after && ModelPrefix(tenant, model) <= v.key
                           <==> v in {Version(VersionedKey(tenant, model, version), id, Some(data), Some(now)),
                                      Version(LatestKey(tenant, model), id + 1, Some(version), Some(later))}
  {
    var prefix, keep := ModelPrefix(tenant, model), Kept(tenant, model, version);
    var whole := Saved(h, tenant, model, version, id, data, now, later);
    var artifact := Version(VersionedKey(tenant, model, version), id, Some(data), Some(now));
    var pointer := Version(LatestKey(tenant, model), id + 1, Some(version), Some(later));
    assert whole == h + [artifact, pointer];
    KeysDiffer(tenant, model, version);
    assert Latest(whole, pointer.key) == Some(pointer);
    WriteIsRead(h + [artifact], pointer.key, id + 1, version, later, artifact.key);
    WriteIsRead(h, artifact.key, id, data, now, artifact.key);
    assert IsLatest(whole, artifact) && IsLatest(whole, pointer);
    var after := Remaining(whole, SupersededIds(whole, prefix, keep, before));
    forall v ensures v in after && prefix <= v.key <==> v in {artifact, pointer} {
      PurgeLeavesNothingOld(whole, prefix, keep, before, v);
    }
    SaveThenLoad(h, tenant, model, version, id, data, now, later);
    PurgeKeepsLoad(whole, tenant, model, before, SupersededIds(whole, prefix, keep, before));
  }

  /** Only keys that can resurface, in a purge that completed or one that broke off, show an older version. */
  ghost predicate ShowsNothingNew(was: History, h: History, prefix: string, keep: set<string>, before: int, completed: bool) {
    var doomed := SupersededIds(was, prefix, keep, before);
    forall key: string | !(if completed then Resurfaces(was, doomed, key) else MayResurface(was, doomed, key)) ::
      Latest(h, key) == Latest(was, key) || Latest(h, key) == None
  }

  lemma PurgeShowsNothingNew(h: History, prefix: string, keep: set<string>, before: int, gone: set<nat>)
    requires Ordered(h) && gone <= SupersededIds(h, prefix, keep, before)
    ensures ShowsNothingNew(h, Remaining(h, gone), prefix, keep, before, gone == SupersededIds(h, prefix, keep, before))
    ensures ShowsNothingNew(h, Remaining(h, gone), prefix, keep, before, false)
  {
    var doomed := SupersededIds(h, prefix, keep, before);
    forall key: string
      ensures !Resurfaces(h, gone, key) ==> Latest(Remaining(h, gone), key) in {Latest(h, key), None}
      ensures !MayResurface(h, doomed, key) ==> Latest(Remaining(h, gone), key) in {Latest(h, key), None}
    {
      ResurfacesExactly(h, gone, key);
      if !MayResurface(h, doomed, key) {
        PartNeverResurfaces(h, doomed, gone, key);
      }
    }
  }

  /**
   What a purge leaves in the bucket, version by version: all that lies elsewhere, all that is
   dated at or after the cutoff, and of the rest the newest version of the pointer and of the
   artifact it names.
   */
  ghost predicate LeftByPurge(h: History, tenant: string, model: string, current: string, before: int, v: Version) {
    v in h
    && (|| !(tenant + "/models/" + model + "/" <= v.key)
        || (v.modified.Some? && v.modified.value >= before)
        || (IsNewest(h, v) && (|| v.key == tenant + "/models/" + model + "/latest"
                               || v.key == tenant + "/models/" + model + "/" + current + "/model.joblib")))
  }

  lemma PurgeLeavesExactly(h: History, tenant: string, model: string, current: string, before: int, v: Version)
    requires Ordered(h)
    ensures v in Remaining(h, SupersededIds(h, ModelPrefix(tenant, model), Kept(tenant, model, current), before))
            <==> LeftByPurge(h, tenant, model, current, before, v)
  {
    KeysExactly(tenant, model, current);
    PurgeLeavesNothingOld(h, ModelPrefix(tenant, model), Kept(tenant, model, current), before, v);
    LatestExactly(h, v.key, v);
  }

  datatype Purge = BadName | NoCurrentVersion | Broken | Purged(count: nat)

  /** The versions a purge names. */
  method SupersededList(entries: seq<Listed>, ghost h: History, prefix: string, keep: set<string>, before: int)
    returns (objects: seq<nat>)
    requires forall e: Listed :: e in entries
               <==> e.version in h && prefix <= e.version.key && e.isLatest == IsLatest(h, e.version)
    requires forall i, j | 0 <= i < j < |entries| :: entries[i].version.id != entries[j].version.id
    ensures Ids(objects) == SupersededIds(h, prefix, keep, before)
    ensures |objects| == |Ids(objects)|
  {
    objects := [];
    for i := 0 to |entries|
      invariant forall id :: id in objects
                  <==> exists e <- entries[..i] ::
                         e.version.id == id && !(e.isLatest && e.version.key in keep) && Old(e.version, before)
      invariant Distinct(objects)
    {
      var e := entries[i];
      assert entries[..i + 1] == entries[..i] + [e];
      ghost var id := e.version.id;
      assert forall other <- entries[..i] :: other.version.id != id;
      assert id !in objects;
      if !(e.isLatest && e.version.key in keep) && Old(e.version, before) {
        objects := objects + [e.version.id];
      }
    }
    DistinctIds(objects);
    assert entries[..|entries|] == entries;
    forall id | id in SupersededIds(h, prefix, keep, before) ensures id in objects {
      var v :| v in h && Superseded(h, prefix, keep, before, v) && v.id == id;
      assert Listed(v, IsLatest(h, v)) in entries;
    }
  }

  /** `purge_versions_before`. */
  method PurgeVersionsBefore(bucket: Bucket, tenant: string, model: string, before: int, replies: nat -> Reply)
    returns (outcome: Purge)
    requires bucket.Valid()
    modifies bucket`history
    ensures bucket.Valid()
    ensures outcome.BadName? <==> model == "" || model == "." || model == ".." || '/' in model
    ensures outcome.NoCurrentVersion? <==> !outcome.BadName? && CurrentVersion(old(bucket.history), tenant, model).None?
    ensures outcome.BadName? || outcome.NoCurrentVersion? ==> bucket.history == old(bucket.history)
    ensures (forall k :: replies(k).Done?) ==> !outcome.Broken?
    ensures outcome.Purged? ==>
              var current := CurrentVersion(old(bucket.history), tenant, model).value;
              && (forall v :: v in bucket.history <==> LeftByPurge(old(bucket.history), tenant, model, current, before, v))
              && |bucket.history| + outcome.count == |old(bucket.history)|
    ensures outcome.Broken? || outcome.Purged? ==>
              var keep := Kept(tenant, model, CurrentVersion(old(bucket.history), tenant, model).value);
              ShowsNothingNew(old(bucket.history), bucket.history, ModelPrefix(tenant, model), keep, before, outcome.Purged?)
    ensures Load(bucket.history, tenant, model) == Load(old(bucket.history), tenant, model)
    ensures Elsewhere(bucket.history, ModelPrefix(tenant, model)) == Elsewhere(old(bucket.history), ModelPrefix(tenant, model))
  {
    if !IsModelName(model) {
      return BadName;
    }
    var was := bucket.history;
    var current := CurrentVersion(was, tenant, model);
    if current.None? {
      return NoCurrentVersion;
    }
    var keep, prefix := Kept(tenant, model, current.value), ModelPrefix(tenant, model);
    var entries := bucket.List(prefix);
    var objects := SupersededList(entries, was, prefix, keep, before);
    var ok, gone := DeleteVersions(bucket, objects, replies);
    PurgeKeepsLoad(was, tenant, model, before, gone);
    PurgeLeavesOthers(was, prefix, keep, before, gone);
    PurgeShowsNothingNew(was, prefix, keep, before, gone);
    if !ok {
      return Broken;
    }
    forall v ensures v in bucket.history <==> LeftByPurge(was, tenant, model, current.value, before, v) {
      PurgeLeavesExactly(was, tenant, model, current.value, before, v);
    }
    RemainingCount(was, gone);
    return Purged(|objects|);
  }

  /******* Deleting a model *******/

  /** Whatever happens under one model's prefix, another model loads the same. */
  lemma OthersLoadTheSame(g: History, h: History, tenant: string, model: string, other: string)
    requires IsModelName(model) && IsModelName(other) && other != model
    requires Elsewhere(g, ModelPrefix(tenant, model)) == Elsewhere(h, ModelPrefix(tenant, model))
    ensures Load(g, tenant, other) == Load(h, tenant, other)
  {
    var prefix := ModelPrefix(tenant, model);
    forall key | ModelPrefix(tenant, other) <= key ensures Read(g, key) == Read(h, key) {
      if prefix <= key {
        PrefixesAreDisjoint(tenant, model, other, key);
      }
      LatestElsewhere(g, prefix, key);
      LatestElsewhere(h, prefix, key);
    }
    LoadReadsTwoKeys(g, h, tenant, other);
  }

  lemma NothingUnderNothingLoads(h: History, tenant: string, model: string)
    requires forall v <- h :: !(ModelPrefix(tenant, model) <= v.key)
    ensures Load(h, tenant, model) == None
  {
    LatestIsMember(h, LatestKey(tenant, model));
  }

  /** `delete_model`: the model is gone, with every version of it, and no other model notices. */
  method DeleteModel(bucket: Bucket, tenant: string, model: string, replies: nat -> Reply)
    returns (outcome: RetainedMirror.Purge)
    requires bucket.Valid()
    modifies bucket`history
    ensures bucket.Valid()
    ensures outcome.Refused? <==> model == "" || model == "." || model == ".." || '/' in model
    ensures outcome.Refused? ==> bucket.history == old(bucket.history)
    ensures outcome.Purged? ==>
              && (forall v :: v in bucket.history <==> v in old(bucket.history) && !(tenant + "/models/" + model + "/" <= v.key))
              && |bucket.history| + outcome.count == |old(bucket.history)|
    ensures outcome.Purged? ==> Load(bucket.history, tenant, model) == None
    ensures Elsewhere(bucket.history, ModelPrefix(tenant, model)) == Elsewhere(old(bucket.history), ModelPrefix(tenant, model))
  {
    if !IsModelName(model) {
      return RetainedMirror.Refused;
    }
    var prefix := ModelPrefix(tenant, model);
    KeysExactly(tenant, model, "");
    assert |prefix| > 1;
    ghost var was := bucket.history;
    outcome := RetainedMirror.PurgePrefix(bucket, prefix, replies);
    if outcome.Purged? {
      forall v | v in bucket.history ensures !(prefix <= v.key) {
        ElsewhereMembers(was, prefix, v);
      }
      NothingUnderNothingLoads(bucket.history, tenant, model);
    }
  }
}
