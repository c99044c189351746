/**
 A versioned S3 bucket as the code uses it: every write adds a version, deleting a
 version is permanent, and a request may fail with any part of it carried out.
 */
module ObjectStore {
  import opened Options

  /** One object version; no body is a delete marker. `id` stands for the pair of key and version id. */
  datatype Version = Version(key: string, id: nat, body: Option<string>, modified: Option<int>)

  /** The versions a bucket holds, oldest write first. */
  type History = seq<Version>

  /** One line of a version listing. */
  datatype Listed = Listed(version: Version, isLatest: bool)

  /** How a request ends; a failed one may still have taken effect on the versions in `applied`. */
  datatype Reply = Done | Failed(applied: set<nat>)

  const DELETE_BATCH := 1000

  ghost predicate Ordered(h: History) {
    forall i, j | 0 <= i < j < |h| :: h[i].id < h[j].id
  }

  ghost predicate IdsBelow(h: History, next: nat) {
    forall v <- h :: v.id < next
  }

  /** The current version of `key`, a delete marker included. */
  function Latest(h: History, key: string): Option<Version> {
    if h == [] then None
    else if h[|h| - 1].key == key then Some(h[|h| - 1])
    else Latest(h[..|h| - 1], key)
  }

  /** What `get_object` answers. */
  function Read(h: History, key: string): Option<string> {
    match Latest(h, key)
    case Some(v) => v.body
    case None => None
  }

  predicate IsLatest(h: History, v: Version) {
    Latest(h, v.key) == Some(v)
  }

  function Remaining(h: History, gone: set<nat>): History {
    if h == [] then []
    else
      var before := Remaining(h[..|h| - 1], gone);
      if h[|h| - 1].id in gone then before else before + [h[|h| - 1]]
  }

  function Elsewhere(h: History, prefix: string): History {
    if h == [] then []
    else
      var before := Elsewhere(h[..|h| - 1], prefix);
      if prefix <= h[|h| - 1].key then before else before + [h[|h| - 1]]
  }

  function Under(h: History, prefix: string): History {
    if h == [] then []
    else
      var before := Under(h[..|h| - 1], prefix);
      if prefix <= h[|h| - 1].key then before + [h[|h| - 1]] else before
  }

  /******* What the pieces mean *******/

  lemma OneMore(h: History, v: Version, gone: set<nat>, key: string, prefix: string)
    ensures Remaining(h + [v], gone) == if v.id in gone then Remaining(h, gone) else Remaining(h, gone) + [v]
    ensures Latest(h + [v], key) == if v.key == key then Some(v) else Latest(h, key)
    ensures Elsewhere(h + [v], prefix) == if prefix <= v.key then Elsewhere(h, prefix) else Elsewhere(h, prefix) + [v]
  {
    assert (h + [v])[..|h|] == h;
  }

  lemma {:induction false} UnderMembers(h: History, prefix: string, v: Version)
    ensures v in Under(h, prefix) <==> v in h && prefix <= v.key
  {
    if h != [] {
      assert h == h[..|h| - 1] + [h[|h| - 1]];
      UnderMembers(h[..|h| - 1], prefix, v);
    }
  }

  lemma {:induction false} ElsewhereMembers(h: History, prefix: string, v: Version)
    ensures v in Elsewhere(h, prefix) <==> v in h && !(prefix <= v.key)
  {
    if h != [] {
      assert h == h[..|h| - 1] + [h[|h| - 1]];
      ElsewhereMembers(h[..|h| - 1], prefix, v);
    }
  }

  lemma {:induction false} RemainingMembers(h: History, gone: set<nat>, v: Version)
    ensures v in Remaining(h, gone) <==> v in h && v.id !in gone
  {
    if h != [] {
      assert h == h[..|h| - 1] + [h[|h| - 1]];
      RemainingMembers(h[..|h| - 1], gone, v);
    }
  }

  lemma AllRemainingMembers(h: History, gone: set<nat>)
    ensures forall v :: v in Remaining(h, gone) <==> v in h && v.id !in gone
  {
    forall v ensures v in Remaining(h, gone) <==> v in h && v.id !in gone {
      RemainingMembers(h, gone, v);
    }
  }

  lemma {:induction false} LatestIsMember(h: History, key: string)
    ensures match Latest(h, key)
            case Some(v) => v in h && v.key == key
            case None => forall v <- h :: v.key != key
  {
    if h != [] {
      assert h == h[..|h| - 1] + [h[|h| - 1]];
      LatestIsMember(h[..|h| - 1], key);
    }
  }

  /** The latest version of a key is the one written last. */
  lemma {:induction false} LatestHasGreatestId(h: History, v: Version)
    requires Ordered(h) && v in h
    ensures Latest(h, v.key).Some? && v.id <= Latest(h, v.key).value.id
    ensures IsLatest(h, v) || v.id < Latest(h, v.key).value.id
  {
    var init, last := h[..|h| - 1], h[|h| - 1];
    assert h == init + [last];
    if v == last {
    } else {
      assert v in init;
      LatestHasGreatestId(init, v);
      LatestIsMember(init, v.key);
    }
  }

  lemma {:induction false} RemainingStaysOrdered(h: History, gone: set<nat>)
    requires Ordered(h)
    ensures Ordered(Remaining(h, gone))
  {
    if h != [] {
      var init := h[..|h| - 1];
      RemainingStaysOrdered(init, gone);
      AllRemainingMembers(init, gone);
      var kept := Remaining(init, gone);
      forall i | 0 <= i < |kept| ensures kept[i].id < h[|h| - 1].id {
        assert kept[i] in kept;
      }
    }
  }

  lemma {:induction false} RemainingTwice(h: History, gone: set<nat>, more: set<nat>)
    ensures Remaining(Remaining(h, gone), more) == Remaining(h, gone + more)
  {
    if h != [] {
      var init, last := h[..|h| - 1], h[|h| - 1];
      RemainingTwice(init, gone, more);
      OneMore(Remaining(init, gone), last, more, "", "");
    }
  }

  lemma {:induction false} NoneGone(h: History)
    ensures Remaining(h, {}) == h
  {
    if h != [] {
      NoneGone(h[..|h| - 1]);
      assert h == h[..|h| - 1] + [h[|h| - 1]];
    }
  }

  lemma {:induction false} UnderStaysOrdered(h: History, prefix: string)
    requires Ordered(h)
    ensures Ordered(Under(h, prefix))
  {
    if h != [] {
      var init := h[..|h| - 1];
      UnderStaysOrdered(init, prefix);
      var under := Under(init, prefix);
      forall i | 0 <= i < |under| ensures under[i].id < h[|h| - 1].id {
        UnderMembers(init, prefix, under[i]);
      }
    }
  }

  /** Each version deleted is one less. */
  lemma {:induction false} RemainingCount(h: History, gone: set<nat>)
    requires Ordered(h) && forall id <- gone :: exists v <- h :: v.id == id
    ensures |Remaining(h, gone)| + |gone| == |h|
  {
    if h == [] {
      assert gone == {};
    } else {
      var init, last := h[..|h| - 1], h[|h| - 1];
      var others := gone - {last.id};
      forall id <- others ensures exists v <- init :: v.id == id {
        var v :| v in h && v.id == id;
        assert v in init;
      }
      RemainingCount(init, others);
      SameRemaining(init, gone, others);
    }
  }

  lemma {:induction false} SameRemaining(h: History, gone: set<nat>, others: set<nat>)
    requires forall v <- h :: v.id in gone <==> v.id in others
    ensures Remaining(h, gone) == Remaining(h, others)
  {
    if h != [] {
      assert h[|h| - 1] in h && forall v <- h[..|h| - 1] :: v in h;
      SameRemaining(h[..|h| - 1], gone, others);
    }
  }

  lemma {:induction false} LatestSurvives(h: History, gone: set<nat>, key: string)
    requires Latest(h, key).Some? && Latest(h, key).value.id !in gone
    ensures Latest(Remaining(h, gone), key) == Latest(h, key)
  {
    var init, last := h[..|h| - 1], h[|h| - 1];
    if last.key != key {
      LatestSurvives(init, gone, key);
    }
    OneMore(Remaining(init, gone), last, {}, key, "");
  }

  lemma {:induction false} ElsewhereRemaining(h: History, prefix: string, gone: set<nat>)
    requires forall v <- h :: v.id in gone ==> prefix <= v.key
    ensures Elsewhere(Remaining(h, gone), prefix) == Elsewhere(h, prefix)
  {
    if h != [] {
      var init, last := h[..|h| - 1], h[|h| - 1];
      assert forall v <- init :: v in h;
      ElsewhereRemaining(init, prefix, gone);
      assert last in h;
      OneMore(Remaining(init, gone), last, {}, "", prefix);
    }
  }

  /** What is read outside a prefix is decided by what lies outside it. */
  lemma {:induction false} LatestElsewhere(h: History, prefix: string, key: string)
    requires !(prefix <= key)
    ensures Latest(Elsewhere(h, prefix), key) == Latest(h, key)
  {
    if h != [] {
      LatestElsewhere(h[..|h| - 1], prefix, key);
      OneMore(Elsewhere(h[..|h| - 1], prefix), h[|h| - 1], {}, key, prefix);
    }
  }

  lemma IdsAreUnique(h: History, v: Version, w: Version)
    requires Ordered(h) && v in h && w in h && v.id == w.id
    ensures v == w
  {
  }

  /** Nothing was written under the version's key after it. */
  ghost predicate IsNewest(h: History, v: Version) {
    v in h && forall w <- h | w.key == v.key :: w.id <= v.id
  }

  lemma LatestExactly(h: History, key: string, v: Version)
    requires Ordered(h)
    ensures Latest(h, key) == Some(v) <==> v.key == key && IsNewest(h, v)
  {
    LatestIsMember(h, key);
    forall w <- h | w.key == key ensures Latest(h, key).Some? && w.id <= Latest(h, key).value.id {
      LatestHasGreatestId(h, w);
    }
    if v.key == key && IsNewest(h, v) {
      IdsAreUnique(h, v, Latest(h, key).value);
    }
  }

  /** What is read under a key is the body of the newest version; a deleted key reads as nothing. */
  lemma ReadExactly(h: History, key: string, body: string)
    requires Ordered(h)
    ensures Read(h, key) == Some(body) <==> exists v <- h :: v.key == key && v.body == Some(body) && IsNewest(h, v)
  {
    LatestIsMember(h, key);
    forall v <- h ensures Latest(h, key) == Some(v) <==> v.key == key && IsNewest(h, v) {
      LatestExactly(h, key, v);
    }
  }

  /** Two versions of one key: the newer is read, and without it the older. */
  lemma OfTwo(v: Version, w: Version)
    requires v.key == w.key && v.id < w.id
    ensures var h := [v, w];
            && Ordered(h) && v in h && w in h && Latest(h, v.key) == Some(w)
            && Remaining(h, {w.id}) == [v] && Latest([v], v.key) == Some(v)
  {
    assert [] + [v] == [v] && [v] + [w] == [v, w];
    OneMore([], v, {w.id}, v.key, "");
    OneMore([v], w, {w.id}, v.key, "");
  }

  /** An older version comes back into view exactly when the latest goes and an earlier one stays. */
  ghost predicate Resurfaces(h: History, gone: set<nat>, key: string) {
    && Latest(h, key).Some? && Latest(h, key).value.id in gone
    && exists v <- h :: v.key == key && v.id !in gone
  }

  lemma ResurfacesExactly(h: History, gone: set<nat>, key: string)
    requires Ordered(h)
    ensures Latest(Remaining(h, gone), key) == Latest(h, key) || Latest(Remaining(h, gone), key) == None
            <==> !Resurfaces(h, gone, key)
  {
    LatestIsMember(h, key);
    LatestIsMember(Remaining(h, gone), key);
    AllRemainingMembers(h, gone);
    if Latest(h, key).Some? && Latest(h, key).value.id !in gone {
      LatestSurvives(h, gone, key);
    }
  }

  /** A deletion of `doomed` that breaks off may have carried out any part of it. */
  ghost predicate MayResurface(h: History, doomed: set<nat>, key: string) {
    exists gone: set<nat> | gone <= doomed :: Resurfaces(h, gone, key)
  }

  /**
   What a broken-off deletion can do, from what is known before it: an older version of a
   key can come back exactly when its current version is to go and is not its only one.
   */
  lemma MayResurfaceExactly(h: History, doomed: set<nat>, key: string)
    requires Ordered(h)
    ensures MayResurface(h, doomed, key)
            <==> && Latest(h, key).Some? && Latest(h, key).value.id in doomed
                 && exists v <- h :: v.key == key && v != Latest(h, key).value
  {
    LatestIsMember(h, key);
    if Latest(h, key).Some? && Latest(h, key).value.id in doomed {
      var latest := Latest(h, key).value;
      if v :| v in h && v.key == key && v != latest {
        if v.id == latest.id {
          IdsAreUnique(h, v, latest);
        }
        assert Resurfaces(h, {latest.id}, key);
      }
    }
  }

  /** Whatever part is carried out, a key that may not resurface shows its current version or nothing. */
  lemma PartNeverResurfaces(h: History, doomed: set<nat>, gone: set<nat>, key: string)
    requires Ordered(h) && gone <= doomed && !MayResurface(h, doomed, key)
    ensures Latest(Remaining(h, gone), key) == Latest(h, key) || Latest(Remaining(h, gone), key) == None
  {
    ResurfacesExactly(h, gone, key);
  }

  /******* One write *******/

  function Written(h: History, key: string, id: nat, body: string, now: int): History {
    h + [Version(key, id, Some(body), Some(now))]
  }

  lemma WriteIsRead(h: History, key: string, id: nat, body: string, now: int, other: string)
    ensures Read(Written(h, key, id, body, now), other) == if other == key then Some(body) else Read(h, other)
    ensures Latest(Written(h, key, id, body, now), other)
            == if other == key then Some(Version(key, id, Some(body), Some(now))) else Latest(h, other)
  {
    OneMore(h, Version(key, id, Some(body), Some(now)), {}, other, "");
  }

  lemma WriteElsewhere(h: History, key: string, id: nat, body: string, now: int, prefix: string)
    requires prefix <= key
    ensures Elsewhere(Written(h, key, id, body, now), prefix) == Elsewhere(h, prefix)
  {
    OneMore(h, Version(key, id, Some(body), Some(now)), {}, "", prefix);
  }

  /** The ids a request list names. */
  function Ids(s: seq<nat>): set<nat> {
    set id | id in s
  }

  ghost predicate Distinct(s: seq<nat>) {
    forall i, j | 0 <= i < j < |s| :: s[i] != s[j]
  }

  lemma {:induction false} DistinctIds(s: seq<nat>)
    requires Distinct(s)
    ensures |Ids(s)| == |s|
  {
    if s != [] {
      var n := |s| - 1;
      DistinctIds(s[..n]);
      assert s == s[..n] + [s[n]];
      assert Ids(s) == Ids(s[..n]) + {s[n]};
    }
  }

  lemma IdsOfTwo(s: seq<nat>, t: seq<nat>)
    ensures Ids(s + t) == Ids(s) + Ids(t)
  {
  }

  /** The bucket as the S3 client shows it. */
  class Bucket {
    var history: History
    var next: nat

    ghost predicate Valid() reads this {
      Ordered(history) && IdsBelow(history, next)
    }

    constructor ()
      ensures Valid() && history == []
    {
      history, next := [], 0;
    }

    /** `put_object`. */
    method Put(key: string, body: string, now: int, reply: Reply) returns (ok: bool)
      requires Valid()
      modifies this
      ensures Valid() && ok == reply.Done?
      ensures || (history == old(history) + [Version(key, old(next), Some(body), Some(now))] && next == old(next) + 1)
              || (!ok && history == old(history) && next == old(next))
    {
      ok := reply.Done?;
      if ok || next in reply.applied {
        history, next := Written(history, key, next, body, now), next + 1;
      }
    }

    /** `_versions`: every version and delete marker under `prefix`, in an order the callers do not rely on. */
    method List(prefix: string) returns (entries: seq<Listed>)
      requires Valid()
      ensures forall e: Listed :: e in entries
                <==> e.version in history && prefix <= e.version.key && e.isLatest == IsLatest(history, e.version)
      ensures forall i, j | 0 <= i < j < |entries| :: entries[i].version.id != entries[j].version.id
    {
      var h, found := history, Under(history, prefix);
      UnderStaysOrdered(history, prefix);
      entries := seq(|found|, i requires 0 <= i < |found| => Listed(found[i], IsLatest(h, found[i])));
      forall e: Listed | e.version in history && prefix <= e.version.key && e.isLatest == IsLatest(history, e.version)
        ensures e in entries
      {
        UnderMembers(history, prefix, e.version);
        var i :| 0 <= i < |found| && found[i] == e.version;
        assert entries[i] == e;
      }
      forall i | 0 <= i < |entries|
        ensures entries[i].version in history && prefix <= entries[i].version.key
        ensures entries[i].isLatest == IsLatest(history, entries[i].version)
      {
        UnderMembers(history, prefix, found[i]);
        assert found[i] in found;
      }
    }

    /** `list_objects_v2`: every current object under `prefix`, once. */
    method ListCurrent(prefix: string) returns (found: seq<Version>)
      requires Valid()
      ensures forall v :: v in found <==> v in history && prefix <= v.key && IsLatest(history, v) && v.body.Some?
      ensures forall i, j | 0 <= i < j < |found| :: found[i].key != found[j].key
    {
      found := [];
      assert history[..|history|] == history;
      for n := 0 to |history|
        invariant forall v :: v in found
                    <==> v in history[..n] && prefix <= v.key && IsLatest(history, v) && v.body.Some?
        invariant forall i, j | 0 <= i < j < |found| :: found[i].key != found[j].key
      {
        var v := history[n];
        assert history[..n + 1] == history[..n] + [v];
        if prefix <= v.key && IsLatest(history, v) && v.body.Some? {
          forall w | w in history[..n] ensures w != v {
            assert exists i | 0 <= i < n :: history[i] == w;
          }
          found := found + [v];
        }
      }
    }

    /** `delete_objects`: removes the named versions, or on a failure any part of them. */
    method Delete(batch: seq<nat>, reply: Reply) returns (ok: bool, ghost gone: set<nat>)
      requires Valid()
      modifies this`history
      ensures Valid() && ok == reply.Done?
      ensures gone <= Ids(batch) && (ok ==> gone == Ids(batch))
      ensures history == Remaining(old(history), gone)
    {
      ok := reply.Done?;
      var cut := if ok then Ids(batch) else Ids(batch) * reply.applied;
      gone := cut;
      RemainingStaysOrdered(history, cut);
      AllRemainingMembers(history, cut);
      history := Remaining(history, cut);
    }
  }

  /** The versions of the first `k` batches of a thousand. */
  ghost function FirstBatches(objects: seq<nat>, k: nat): set<nat> {
    Ids(objects[..if k * 1000 < |objects| then k * 1000 else |objects|])
  }

  ghost predicate AllDone(replies: nat -> Reply, k: nat) {
    forall j: nat | j < k :: replies(j).Done?
  }

  /** Every batch before the `k`th went, and of that one, which was refused, some part. */
  ghost predicate StoppedAt(objects: seq<nat>, replies: nat -> Reply, gone: set<nat>, k: nat) {
    && k * 1000 < |objects| && replies(k).Failed? && AllDone(replies, k)
    && FirstBatches(objects, k) <= gone <= FirstBatches(objects, k + 1)
  }

  /** Every batch was sent, and none was refused. */
  ghost predicate WentThrough(objects: seq<nat>, replies: nat -> Reply) {
    exists k: nat :: |objects| <= k * 1000 && k * 1000 < |objects| + 1000 && AllDone(replies, k)
  }

  /** Where a deletion in batches stands: the next version to send, and the next request. */
  datatype Sending = Sending(start: nat, request: nat)

  ghost predicate Sent(objects: seq<nat>, replies: nat -> Reply, gone: set<nat>, at: Sending) {
    match at
    case Sending(start, request) =>
      && start <= |objects| && start <= request * 1000 < |objects| + 1000 && (start < |objects| ==> start == request * 1000)
      && gone == FirstBatches(objects, request)
      && AllDone(replies, request)
  }

  lemma OneMoreBatch(objects: seq<nat>, replies: nat -> Reply, gone: set<nat>, at: Sending, stop: nat, part: set<nat>)
    requires Sent(objects, replies, gone, at) && at.start < |objects|
    requires stop == (if at.start + 1000 < |objects| then at.start + 1000 else |objects|)
    requires part <= Ids(objects[at.start..stop]) && (replies(at.request).Done? ==> part == Ids(objects[at.start..stop]))
    ensures replies(at.request).Done? ==> Sent(objects, replies, gone + part, Sending(stop, at.request + 1))
    ensures replies(at.request).Failed? ==> StoppedAt(objects, replies, gone + part, at.request)
    ensures gone + part <= Ids(objects)
  {
    assert objects[..stop] == objects[..at.start] + objects[at.start..stop];
    assert objects == objects[..stop] + objects[stop..];
    IdsOfTwo(objects[..at.start], objects[at.start..stop]);
    IdsOfTwo(objects[..stop], objects[stop..]);
    assert FirstBatches(objects, at.request + 1) == gone + Ids(objects[at.start..stop]);
  }

  lemma AllBatches(objects: seq<nat>, replies: nat -> Reply, gone: set<nat>, at: Sending)
    requires Sent(objects, replies, gone, at) && at.start == |objects|
    ensures gone == Ids(objects) && WentThrough(objects, replies)
  {
    assert objects[..|objects|] == objects;
  }

  /**
   `_delete_versions`: batch by batch, giving up at the first refused batch. When it
   answers, exactly the named versions are gone, whatever the number of batches.
   */
  method DeleteVersions(bucket: Bucket, objects: seq<nat>, replies: nat -> Reply)
    returns (ok: bool, ghost gone: set<nat>)
    requires bucket.Valid()
    modifies bucket`history
    ensures bucket.Valid()
    ensures (forall k :: replies(k).Done?) ==> ok
    ensures gone <= Ids(objects) && (ok ==> gone == Ids(objects))
    ensures if ok then WentThrough(objects, replies) else exists k: nat :: StoppedAt(objects, replies, gone, k)
    ensures bucket.history == Remaining(old(bucket.history), gone)
  {
    ok, gone := true, {};
    var start, request := 0, 0;
    NoneGone(bucket.history);
    while start < |objects|
      invariant ok && bucket.Valid() && start <= |objects|
      invariant Sent(objects, replies, gone, Sending(start, request))
      invariant bucket.history == Remaining(old(bucket.history), gone)
    {
      var stop := if start + DELETE_BATCH < |objects| then start + DELETE_BATCH else |objects|;
      ghost var part;
      ok, part := bucket.Delete(objects[start..stop], replies(request));
      OneMoreBatch(objects, replies, gone, Sending(start, request), stop, part);
      RemainingTwice(old(bucket.history), gone, part);
      gone := gone + part;
      if !ok {
        return;
      }
      start, request := stop, request + 1;
    }
    AllBatches(objects, replies, gone, Sending(start, request));
  }
}
