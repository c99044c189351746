/**
 The bounded in-process store behind `POST /v1/features`: one queue per key, a
 global arrival order with lazily dropped stale entries, and compaction. It is
 proved to be one bounded list.
 */
module FeaturePush {
  import opened Options

  datatype EventKey = EventKey(eventClass: string, session: Option<string>)

  datatype Event = Event(client: string, key: EventKey, tsMs: int, receivedMs: int, seqNo: nat)

  type Entry = (nat, EventKey)

  /******* The specification: one list *******/

  /** The events of one key, in order. */
  function ForKey(events: seq<Event>, k: EventKey): seq<Event> {
    if events == [] then []
    else
      var n := |events| - 1;
      if events[n].key == k then ForKey(events[..n], k) + [events[n]] else ForKey(events[..n], k)
  }

  /** Everything but the first event of key `k`. */
  function DropFirstOf(events: seq<Event>, k: EventKey): seq<Event> {
    if events == [] then []
    else if events[0].key == k then events[1..]
    else [events[0]] + DropFirstOf(events[1..], k)
  }

  function DropToLimit(events: seq<Event>, limit: nat): seq<Event> {
    if |events| > limit then events[|events| - limit..] else events
  }

  /** Append; drop the key's oldest if the key is over its limit. */
  function Trimmed(events: seq<Event>, e: Event, perKey: nat): seq<Event> {
    if |ForKey(events + [e], e.key)| > perKey then DropFirstOf(events + [e], e.key) else events + [e]
  }

  /** ...then drop the oldest of all if over the total. */
  function Pushed(events: seq<Event>, e: Event, perKey: nat, total: nat): seq<Event> {
    DropToLimit(Trimmed(events, e, perKey), total)
  }

  ghost predicate Ascending(events: seq<Event>) {
    forall i, j | 0 <= i < j < |events| :: events[i].seqNo < events[j].seqNo
  }

  ghost predicate OrderAscending(order: seq<Entry>) {
    forall i, j | 0 <= i < j < |order| :: order[i].0 < order[j].0
  }

  function EntryOf(e: Event): Entry {
    (e.seqNo, e.key)
  }

  /******* Facts about the list *******/

  lemma {:induction false} ForKeyMembers(events: seq<Event>, k: EventKey)
    ensures forall e :: e in ForKey(events, k) <==> e in events && e.key == k
    ensures Ascending(events) ==> Ascending(ForKey(events, k))
    ensures |ForKey(events, k)| <= |events|
  {
    if events != [] {
      var n := |events| - 1;
      assert events == events[..n] + [events[n]];
      ForKeyMembers(events[..n], k);
    }
  }

  lemma {:induction false} ForKeyFront(events: seq<Event>, k: EventKey)
    requires events != []
    ensures ForKey(events, k) == if events[0].key == k then [events[0]] + ForKey(events[1..], k) else ForKey(events[1..], k)
  {
    if |events| > 1 {
      var n := |events| - 1;
      ForKeyFront(events[..n], k);
      assert events[..n][1..] == events[1..][..n - 1];
    }
  }

  lemma {:induction false} DropFirstKeeps(events: seq<Event>, k: EventKey)
    requires ForKey(events, k) != []
    ensures var d := DropFirstOf(events, k);
            && |d| == |events| - 1
            && ForKey(d, k) == ForKey(events, k)[1..]
            && (forall j | j != k :: ForKey(d, j) == ForKey(events, j))
            && (forall e <- d :: e in events)
            && (Ascending(events) ==> Ascending(d))
            && (forall e <- events :: e in d || e == ForKey(events, k)[0])
  {
    ForKeyFront(events, k);
    if events[0].key == k {
      forall j | j != k ensures ForKey(events[1..], j) == ForKey(events, j) {
        ForKeyFront(events, j);
      }
      assert events == [events[0]] + events[1..];
    } else {
      DropFirstKeeps(events[1..], k);
      var d := DropFirstOf(events, k);
      assert d[1..] == DropFirstOf(events[1..], k);
      forall j ensures ForKey(d, j) == if events[0].key == j then [events[0]] + ForKey(d[1..], j) else ForKey(d[1..], j) {
        ForKeyFront(d, j);
      }
      forall j ensures ForKey(events, j) == if events[0].key == j then [events[0]] + ForKey(events[1..], j) else ForKey(events[1..], j) {
        ForKeyFront(events, j);
      }
      assert events == [events[0]] + events[1..];
      if Ascending(events) {
        forall i, j | 0 <= i < j < |d| ensures d[i].seqNo < d[j].seqNo {
          if i == 0 {
            assert d[j] in events[1..];
          } else {
            assert d[1..][i - 1] == d[i] && d[1..][j - 1] == d[j];
          }
        }
      }
    }
  }

  /******* How the queues and the arrival order represent the list *******/

  function BucketOf(buckets: map<EventKey, seq<Event>>, k: EventKey): seq<Event> {
    if k in buckets then buckets[k] else []
  }

  /** Each queue is the list filtered by key; every listed event has an order entry. */
  ghost predicate Represents(buckets: map<EventKey, seq<Event>>, order: seq<Entry>, events: seq<Event>) {
    && Ascending(events)
    && OrderAscending(order)
    && (forall k :: BucketOf(buckets, k) == ForKey(events, k))
    && (forall e <- events :: EntryOf(e) in order)
  }

  /** The oldest order entry, when its key's queue begins with it, is the oldest event of all. */
  lemma HeadIsOldest(buckets: map<EventKey, seq<Event>>, order: seq<Entry>, events: seq<Event>)
    requires Represents(buckets, order, events) && order != []
    requires var b := BucketOf(buckets, order[0].1); b != [] && b[0].seqNo == order[0].0
    ensures events != [] && events[0] == BucketOf(buckets, order[0].1)[0]
    ensures forall e <- events[1..] :: EntryOf(e) in order[1..]
  {
    var k := order[0].1;
    var head := BucketOf(buckets, k)[0];
    ForKeyMembers(events, k);
    assert head in ForKey(events, k);
    var i :| 0 <= i < |events| && events[i] == head;
    assert EntryOf(events[0]) in order;
    assert i == 0;
    forall e <- events[1..] ensures EntryOf(e) in order[1..] {
      assert e in events;
      assert EntryOf(e) != order[0];
    }
  }

  predicate StaleEntry(buckets: map<EventKey, seq<Event>>, entry: Entry) {
    var b := BucketOf(buckets, entry.1);
    b == [] || b[0].seqNo > entry.0
  }

  /** An oldest entry whose queue does not begin with it belongs to no listed event. */
  lemma HeadIsStale(buckets: map<EventKey, seq<Event>>, order: seq<Entry>, events: seq<Event>)
    requires Represents(buckets, order, events) && order != []
    requires var b := BucketOf(buckets, order[0].1); b == [] || b[0].seqNo != order[0].0
    ensures forall e <- events :: EntryOf(e) in order[1..]
  {
    var k := order[0].1;
    var b := BucketOf(buckets, k);
    ForKeyMembers(events, k);
    if b != [] {
      assert b[0] in b && EntryOf(b[0]) in order;
    }
    forall e <- events ensures EntryOf(e) in order[1..] {
      assert e.key == k ==> e in b;
    }
  }

  lemma RepresentsRest(buckets: map<EventKey, seq<Event>>, order: seq<Entry>, events: seq<Event>, rest: map<EventKey, seq<Event>>)
    requires Represents(buckets, order, events) && order != [] && events != []
    requires forall e <- events[1..] :: EntryOf(e) in order[1..]
    requires var k := events[0].key;
             && BucketOf(buckets, k) != [] && BucketOf(rest, k) == BucketOf(buckets, k)[1..]
             && forall j | j != k :: BucketOf(rest, j) == BucketOf(buckets, j)
    ensures Represents(rest, order[1..], events[1..])
  {
    forall k ensures BucketOf(rest, k) == ForKey(events[1..], k) {
      ForKeyFront(events, k);
    }
  }

  /** Appending an event younger than all keeps the representation... */
  lemma RepresentsAppended(buckets: map<EventKey, seq<Event>>, order: seq<Entry>, events: seq<Event>, e: Event)
    requires Represents(buckets, order, events)
    requires (forall x <- events :: x.seqNo < e.seqNo) && (forall x <- order :: x.0 < e.seqNo)
    ensures Represents(buckets[e.key := BucketOf(buckets, e.key) + [e]], order + [EntryOf(e)], events + [e])
  {
    var after := buckets[e.key := BucketOf(buckets, e.key) + [e]];
    forall k ensures BucketOf(after, k) == ForKey(events + [e], k) {
      AppendedBucket(buckets, events, e, k);
    }
    AppendedAscends(events, e);
    AppendedOrderAscends(order, EntryOf(e));
    forall x <- events + [e] ensures EntryOf(x) in order + [EntryOf(e)] {
      if x != e {
        assert x in events;
      }
    }
  }

  lemma AppendedBucket(buckets: map<EventKey, seq<Event>>, events: seq<Event>, e: Event, k: EventKey)
    requires BucketOf(buckets, k) == ForKey(events, k)
    ensures BucketOf(buckets[e.key := BucketOf(buckets, e.key) + [e]], k) == ForKey(events + [e], k)
  {
    assert (events + [e])[..|events|] == events;
  }

  lemma AppendedAscends(events: seq<Event>, e: Event)
    requires Ascending(events) && forall x <- events :: x.seqNo < e.seqNo
    ensures Ascending(events + [e])
  {
  }

  lemma AppendedOrderAscends(order: seq<Entry>, entry: Entry)
    requires OrderAscending(order) && forall x <- order :: x.0 < entry.0
    ensures OrderAscending(order + [entry])
  {
  }

  /** ...and so does dropping the first event of one key. */
  lemma RepresentsTrimmed(buckets: map<EventKey, seq<Event>>, order: seq<Entry>, events: seq<Event>, k: EventKey)
    requires Represents(buckets, order, events) && BucketOf(buckets, k) != []
    ensures Represents(buckets[k := BucketOf(buckets, k)[1..]], order, DropFirstOf(events, k))
    ensures |DropFirstOf(events, k)| == |events| - 1
  {
    DropFirstKeeps(events, k);
  }

  /******* Compaction *******/

  function EntriesOf(events: seq<Event>): seq<Entry> {
    seq(|events|, i requires 0 <= i < |events| => EntryOf(events[i]))
  }

  lemma NonEmptyHasMember<T>(s: seq<T>)
    ensures s == [] || exists x :: x in s
  {
    if s != [] {
      assert s[0] in s;
    }
  }

  /** Two ascending orders over the same entries are the same order. */
  lemma {:induction false} AscendingUnique(a: seq<Entry>, b: seq<Entry>)
    requires OrderAscending(a) && OrderAscending(b) && forall x :: x in a <==> x in b
    ensures a == b
  {
    NonEmptyHasMember(a);
    NonEmptyHasMember(b);
    if a != [] && b != [] {
      assert a[0] in b && b[0] in a;
      assert a[0] == b[0];
      forall x ensures x in a[1..] <==> x in b[1..] {
        assert x in a[1..] <==> x in a && x != a[0];
        assert x in b[1..] <==> x in b && x != b[0];
      }
      AscendingUnique(a[1..], b[1..]);
    }
  }

  function InsertEntry(order: seq<Entry>, x: Entry): seq<Entry> {
    if order == [] || x.0 < order[0].0 then [x] + order else [order[0]] + InsertEntry(order[1..], x)
  }

  lemma {:induction false} InsertEntrySorted(order: seq<Entry>, x: Entry)
    requires OrderAscending(order) && forall y <- order :: y.0 != x.0
    ensures OrderAscending(InsertEntry(order, x))
    ensures forall y :: y in InsertEntry(order, x) <==> y in order || y == x
  {
    if order != [] && x.0 > order[0].0 {
      var rest := InsertEntry(order[1..], x);
      InsertEntrySorted(order[1..], x);
      assert order == [order[0]] + order[1..];
      assert forall y <- rest :: order[0].0 < y.0;
      assert InsertEntry(order, x) == [order[0]] + rest;
    }
  }

  /** `live` is the ascending order of exactly the events `from`. */
  ghost predicate LiveOrder(live: seq<Entry>, from: set<Event>) {
    && OrderAscending(live)
    && (forall e <- from :: EntryOf(e) in live)
    && (forall x <- live :: exists e <- from :: x == EntryOf(e))
  }

  method InsertBucket(live: seq<Entry>, bucket: seq<Event>, ghost from: set<Event>) returns (out: seq<Entry>)
    requires LiveOrder(live, from) && Ascending(bucket)
    requires forall e <- bucket, f <- from :: e.seqNo != f.seqNo
    ensures LiveOrder(out, from + set e | e in bucket)
  {
    out := live;
    for i := 0 to |bucket|
      invariant LiveOrder(out, from + set e | e in bucket[..i])
    {
      assert bucket[..i + 1] == bucket[..i] + [bucket[i]];
      InsertEntrySorted(out, EntryOf(bucket[i]));
      out := InsertEntry(out, EntryOf(bucket[i]));
    }
    assert bucket[..|bucket|] == bucket;
  }

  /** `sorted` over every live event of every queue. */
  method SortedLive(buckets: map<EventKey, seq<Event>>, ghost events: seq<Event>) returns (live: seq<Entry>)
    requires Ascending(events) && forall k :: BucketOf(buckets, k) == ForKey(events, k)
    ensures live == EntriesOf(events)
  {
    live := [];
    var keys := buckets.Keys;
    ghost var from: set<Event> := {};
    forall e <- events ensures e.key in keys {
      ForKeyMembers(events, e.key);
    }
    while keys != {}
      invariant keys <= buckets.Keys
      invariant LiveOrder(live, from)
      invariant forall e :: e in from <==> e in events && e.key !in keys
      decreases keys
    {
      var k :| k in keys;
      ForKeyMembers(events, k);
      assert buckets[k] == BucketOf(buckets, k);
      live := InsertBucket(live, buckets[k], from);
      keys, from := keys - {k}, from + set e | e in buckets[k];
    }
    LiveIsAll(buckets, events, live, from);
  }

  lemma LiveIsAll(buckets: map<EventKey, seq<Event>>, events: seq<Event>, live: seq<Entry>, from: set<Event>)
    requires Ascending(events) && LiveOrder(live, from) && forall e :: e in from <==> e in events
    ensures live == EntriesOf(events)
  {
    forall x ensures x in live <==> x in EntriesOf(events) {
      if x in live {
        var e :| e in from && x == EntryOf(e);
        var i :| 0 <= i < |events| && events[i] == e;
        assert EntriesOf(events)[i] == x;
      }
    }
    AscendingUnique(live, EntriesOf(events));
  }

  /******* Validation *******/

  /** A JSON value, as far as validation looks at it. */
  datatype Json = Null | Bool(b: bool) | Int(n: int) | Str(s: string) | Object(keys: set<string>) | OtherJson

  datatype WireEvent = WireEvent(eventClass: Json, ts: Json, session: Json, fields: Json)

  datatype Reason = UnknownClass | SchemaNotDefined | BadTimestamp | BadFields | BadSession

  const CLASS_COMMIT := "commit"
  const DEFERRED_CLASSES: set<string> := {"egress_deny", "run_outcome", "budget_pressure", "lifecycle"}

  function Validate(w: WireEvent): Option<Reason> {
    if w.eventClass.Str? && w.eventClass.s in DEFERRED_CLASSES then Some(SchemaNotDefined)
    else if w.eventClass != Str(CLASS_COMMIT) then Some(UnknownClass)
    else if !w.ts.Int? || w.ts.n <= 0 then Some(BadTimestamp)
    else if !w.session.Null? && (!w.session.Str? || w.session.s == "") then Some(BadSession)
    else if w.fields.Null? || w.fields == Object({}) then None
    else Some(BadFields)
  }

  function ToEvent(client: string, w: WireEvent, receivedMs: int, seqNo: nat): Event
    requires Validate(w).None?
  {
    Event(client, EventKey(w.eventClass.s, if w.session.Null? then None else Some(w.session.s)), w.ts.n, receivedMs, seqNo)
  }

  /******* The specification over whole runs *******/

  function PushedOnto(start: seq<Event>, events: seq<Event>, perKey: nat, total: nat): seq<Event> {
    if events == [] then start
    else Pushed(PushedOnto(start, events[..|events| - 1], perKey, total), events[|events| - 1], perKey, total)
  }

  /** The valid events of a batch, numbered on from `seqNo`. */
  function StoredOf(client: string, events: seq<WireEvent>, clock: seq<int>, seqNo: nat): seq<Event>
    requires |clock| == |events|
  {
    if events == [] then []
    else
      var n := |events| - 1;
      var before := StoredOf(client, events[..n], clock[..n], seqNo);
      if Validate(events[n]).Some? then before
      else before + [ToEvent(client, events[n], clock[n], seqNo + |before| + 1)]
  }

  lemma StoredOneMore(client: string, events: seq<WireEvent>, clock: seq<int>, i: nat, seqNo: nat)
    requires i < |events| == |clock|
    ensures var before := StoredOf(client, events[..i], clock[..i], seqNo);
            StoredOf(client, events[..i + 1], clock[..i + 1], seqNo)
            == if Validate(events[i]).Some? then before else before + [ToEvent(client, events[i], clock[i], seqNo + |before| + 1)]
  {
    assert events[..i + 1][..i] == events[..i] && clock[..i + 1][..i] == clock[..i];
  }

  lemma PushedOneMore(start: seq<Event>, events: seq<Event>, e: Event, perKey: nat, total: nat)
    ensures PushedOnto(start, events + [e], perKey, total) == Pushed(PushedOnto(start, events, perKey, total), e, perKey, total)
  {
    assert (events + [e])[..|events|] == events;
  }

  /** The refused events of a batch, by index. */
  function RefusalsOf(events: seq<WireEvent>): seq<(nat, Reason)> {
    if events == [] then []
    else
      var n := |events| - 1;
      var before := RefusalsOf(events[..n]);
      if Validate(events[n]).Some? then before + [(n, Validate(events[n]).value)] else before
  }

  /** Exactly the invalid events are refused, once each; all others are stored. */
  lemma {:induction false} RefusedOrStored(client: string, events: seq<WireEvent>, clock: seq<int>, seqNo: nat)
    requires |clock| == |events|
    ensures forall i: nat, r :: (i, r) in RefusalsOf(events) <==> i < |events| && Validate(events[i]) == Some(r)
    ensures |RefusalsOf(events)| + |StoredOf(client, events, clock, seqNo)| == |events|
  {
    if events != [] {
      RefusedOrStored(client, events[..|events| - 1], clock[..|events| - 1], seqNo);
    }
  }

  /** A batch, the store it is pushed into, and that store's limits. */
  datatype Batch = Batch(client: string, events: seq<WireEvent>, clock: seq<int>, start: seq<Event>, seqNo: nat, perKey: nat, total: nat)

  /** What a batch has stored when its first `i` events are dealt with. */
  function StoredUpTo(b: Batch, i: nat): seq<Event>
    requires i <= |b.events| == |b.clock|
  {
    StoredOf(b.client, b.events[..i], b.clock[..i], b.seqNo)
  }

  function ContentsUpTo(b: Batch, i: nat): seq<Event>
    requires i <= |b.events| == |b.clock|
  {
    PushedOnto(b.start, StoredUpTo(b, i), b.perKey, b.total)
  }

  lemma RefusedStep(b: Batch, i: nat, reason: Reason)
    requires i < |b.events| == |b.clock| && Validate(b.events[i]) == Some(reason)
    ensures RefusalsOf(b.events[..i + 1]) == RefusalsOf(b.events[..i]) + [(i, reason)]
    ensures StoredUpTo(b, i + 1) == StoredUpTo(b, i) && ContentsUpTo(b, i + 1) == ContentsUpTo(b, i)
  {
    StoredOneMore(b.client, b.events, b.clock, i, b.seqNo);
    assert b.events[..i + 1][..i] == b.events[..i];
  }

  /** The event a valid wire event becomes when it is the next one stored. */
  function NextStored(b: Batch, i: nat): Event
    requires i < |b.events| == |b.clock| && Validate(b.events[i]).None?
  {
    ToEvent(b.client, b.events[i], b.clock[i], b.seqNo + |StoredUpTo(b, i)| + 1)
  }

  lemma StoredStep(b: Batch, i: nat)
    requires i < |b.events| == |b.clock| && Validate(b.events[i]).None?
    ensures RefusalsOf(b.events[..i + 1]) == RefusalsOf(b.events[..i])
    ensures StoredUpTo(b, i + 1) == StoredUpTo(b, i) + [NextStored(b, i)]
  {
    StoredOneMore(b.client, b.events, b.clock, i, b.seqNo);
    assert b.events[..i + 1][..i] == b.events[..i];
  }

  lemma ContentsStep(b: Batch, i: nat, before: seq<Event>, e: Event, after: seq<Event>)
    requires i < |b.events| == |b.clock| && Validate(b.events[i]).None?
    requires StoredUpTo(b, i + 1) == StoredUpTo(b, i) + [NextStored(b, i)]
    requires before == ContentsUpTo(b, i) && e == NextStored(b, i) && after == Pushed(before, e, b.perKey, b.total)
    ensures after == ContentsUpTo(b, i + 1)
  {
    PushedOneMore(b.start, StoredUpTo(b, i), e, b.perKey, b.total);
  }

  lemma AllOfBatch(b: Batch)
    requires |b.events| == |b.clock|
    ensures RefusalsOf(b.events[..|b.events|]) == RefusalsOf(b.events)
    ensures StoredUpTo(b, |b.events|) == StoredOf(b.client, b.events, b.clock, b.seqNo)
  {
    assert b.events[..|b.events|] == b.events && b.clock[..|b.clock|] == b.clock;
  }

  predicate IsSuffix<T(==)>(a: seq<T>, b: seq<T>) {
    |a| <= |b| && a == b[|b| - |a|..]
  }

  lemma SuffixTransitive<T>(a: seq<T>, b: seq<T>, c: seq<T>)
    requires IsSuffix(a, b) && IsSuffix(b, c)
    ensures IsSuffix(a, c)
  {
  }

  lemma SuffixExtended<T>(a: seq<T>, b: seq<T>, x: T)
    requires IsSuffix(a, b)
    ensures IsSuffix(a + [x], b + [x])
  {
  }

  lemma {:induction false} DroppedFront(events: seq<Event>, n: nat, k: EventKey)
    requires n <= |events|
    ensures IsSuffix(ForKey(events[n..], k), ForKey(events, k))
  {
    if n == 0 {
      assert events[0..] == events;
    } else {
      DroppedFront(events, n - 1, k);
      ForKeyFront(events[n - 1..], k);
      assert events[n - 1..][1..] == events[n..];
      SuffixTransitive(ForKey(events[n..], k), ForKey(events[n - 1..], k), ForKey(events, k));
    }
  }

  lemma TrimmedKeepsSuffix(events: seq<Event>, e: Event, perKey: nat, k: EventKey)
    ensures var trimmed := Trimmed(events, e, perKey);
            && IsSuffix(ForKey(trimmed, k), ForKey(events + [e], k))
            && (|ForKey(events, k)| <= perKey ==> |ForKey(trimmed, k)| <= perKey)
            && (perKey > 0 ==> trimmed != [] && Last(trimmed) == e)
  {
    var appended := events + [e];
    assert appended[..|events|] == events;
    if |ForKey(appended, e.key)| > perKey {
      DropFirstKeeps(appended, e.key);
      LastSurvives(events, e);
    }
  }

  lemma LimitedKeepsSuffix(events: seq<Event>, total: nat, k: EventKey)
    ensures IsSuffix(ForKey(DropToLimit(events, total), k), ForKey(events, k))
    ensures |DropToLimit(events, total)| <= total
    ensures total > 0 && events != [] ==> DropToLimit(events, total) != [] && Last(DropToLimit(events, total)) == Last(events)
  {
    if |events| > total {
      DroppedFront(events, |events| - total, k);
    }
  }

  /** One push takes from the front of each key's queue only, and respects both limits. */
  lemma PushedKeepsSuffix(events: seq<Event>, e: Event, perKey: nat, total: nat, k: EventKey)
    ensures var pushed := Pushed(events, e, perKey, total);
            && IsSuffix(ForKey(pushed, k), ForKey(events + [e], k))
            && |pushed| <= total
            && (|ForKey(events, k)| <= perKey ==> |ForKey(pushed, k)| <= perKey)
            && (perKey > 0 && total > 0 ==> pushed != [] && Last(pushed) == e)
  {
    var trimmed := Trimmed(events, e, perKey);
    TrimmedKeepsSuffix(events, e, perKey, k);
    LimitedKeepsSuffix(trimmed, total, k);
    SuffixTransitive(ForKey(Pushed(events, e, perKey, total), k), ForKey(trimmed, k), ForKey(events + [e], k));
  }

  function Last<T>(s: seq<T>): T
    requires s != []
  {
    s[|s| - 1]
  }

  /** Dropping a key's first event spares the last event when the key has an earlier one. */
  lemma {:induction false} LastSurvives(events: seq<Event>, e: Event)
    ensures ForKey(events, e.key) != [] ==>
              DropFirstOf(events + [e], e.key) != [] && Last(DropFirstOf(events + [e], e.key)) == e
  {
    if events != [] {
      ForKeyFront(events, e.key);
      assert (events + [e])[1..] == events[1..] + [e];
      LastSurvives(events[1..], e);
    }
  }

  /**
   Over every run of pushes: each key keeps exactly the newest stretch of what was
   pushed under it, never more than its limit, never more than the total in all,
   and the newest event is always there.
   */
  lemma {:induction false} RetainsNewest(events: seq<Event>, perKey: nat, total: nat, k: EventKey)
    ensures var kept := PushedOnto([], events, perKey, total);
            && IsSuffix(ForKey(kept, k), ForKey(events, k))
            && |ForKey(kept, k)| <= perKey && |kept| <= total
            && (perKey > 0 && total > 0 && events != [] ==> kept != [] && Last(kept) == Last(events))
  {
    if events != [] {
      var n := |events| - 1;
      var e := events[n];
      var before := PushedOnto([], events[..n], perKey, total);
      RetainsNewest(events[..n], perKey, total, k);
      PushedKeepsSuffix(before, e, perKey, total, k);
      assert (before + [e])[..|before|] == before;
      if e.key == k {
        SuffixExtended(ForKey(before, k), ForKey(events[..n], k), e);
      }
      SuffixTransitive(ForKey(Pushed(before, e, perKey, total), k), ForKey(before + [e], k), ForKey(events, k));
    }
  }

  /******* The queues, as a value *******/

  datatype Queues = Queues(buckets: map<EventKey, seq<Event>>, order: seq<Entry>, total: nat, seqNo: nat)

  /** The queues represent `events`, count them, and have numbered nothing beyond `seqNo`. */
  ghost predicate Consistent(q: Queues, events: seq<Event>) {
    match q
    case Queues(buckets, order, total, seqNo) =>
      && Represents(buckets, order, events)
      && total == |events|
      && (forall e <- events :: e.seqNo <= seqNo)
      && (forall x <- order :: x.0 <= seqNo)
  }

  function Appended(q: Queues, e: Event): Queues {
    Queues(q.buckets[e.key := BucketOf(q.buckets, e.key) + [e]], q.order + [EntryOf(e)], q.total + 1, e.seqNo)
  }

  lemma AppendedConsistent(q: Queues, events: seq<Event>, e: Event)
    requires Consistent(q, events) && e.seqNo == q.seqNo + 1
    ensures Consistent(Appended(q, e), events + [e])
    ensures BucketOf(q.buckets, e.key) + [e] == ForKey(events + [e], e.key)
  {
    RepresentsAppended(q.buckets, q.order, events, e);
    assert (events + [e])[..|events|] == events;
  }

  lemma TrimmedConsistent(q: Queues, events: seq<Event>, k: EventKey)
    requires Consistent(q, events) && BucketOf(q.buckets, k) != [] && q.total > 0
    ensures Consistent(q.(buckets := q.buckets[k := BucketOf(q.buckets, k)[1..]], total := q.total - 1), DropFirstOf(events, k))
  {
    RepresentsTrimmed(q.buckets, q.order, events, k);
    DropFirstKeeps(events, k);
  }

  /** Popping the oldest order entry, and with it the event it stands for unless it is stale. */
  lemma PoppedConsistent(q: Queues, events: seq<Event>, rest: map<EventKey, seq<Event>>)
    requires Consistent(q, events) && q.order != []
    requires var b := BucketOf(q.buckets, q.order[0].1);
             && b != [] && b[0].seqNo == q.order[0].0
             && BucketOf(rest, q.order[0].1) == b[1..]
             && forall j | j != q.order[0].1 :: BucketOf(rest, j) == BucketOf(q.buckets, j)
    ensures events != [] && q.total > 0
    ensures Consistent(q.(buckets := rest, order := q.order[1..], total := q.total - 1), events[1..])
  {
    HeadIsOldest(q.buckets, q.order, events);
    ForKeyMembers(events, q.order[0].1);
    assert BucketOf(q.buckets, q.order[0].1)[0] in BucketOf(q.buckets, q.order[0].1);
    RepresentsRest(q.buckets, q.order, events, rest);
  }

  lemma StaleConsistent(q: Queues, events: seq<Event>)
    requires Consistent(q, events) && q.order != []
    requires var b := BucketOf(q.buckets, q.order[0].1); b == [] || b[0].seqNo != q.order[0].0
    ensures Consistent(q.(order := q.order[1..]), events)
  {
    HeadIsStale(q.buckets, q.order, events);
  }

  lemma CompactedConsistent(q: Queues, events: seq<Event>)
    requires Consistent(q, events)
    ensures Consistent(q.(order := EntriesOf(events)), events)
  {
    var live := EntriesOf(events);
    forall e <- events ensures EntryOf(e) in live {
      var i :| 0 <= i < |events| && events[i] == e;
      assert live[i] == EntryOf(e);
    }
  }

  lemma NothingOrderedNothingHeld(q: Queues, events: seq<Event>)
    requires Consistent(q, events) && q.order == []
    ensures events == []
  {
    NonEmptyHasMember(events);
  }

  lemma DropOneThenLimit(events: seq<Event>, limit: nat)
    requires |events| > limit
    ensures DropToLimit(events[1..], limit) == DropToLimit(events, limit)
  {
  }

  /** An append with its per-key trim. */
  function Taken(q: Queues, e: Event, perKey: nat): Queues {
    var appended, bucket := Appended(q, e), BucketOf(q.buckets, e.key) + [e];
    if |bucket| > perKey && appended.total > 0 then
      appended.(buckets := appended.buckets[e.key := bucket[1..]], total := appended.total - 1)
    else appended
  }

  lemma TakenConsistent(q: Queues, events: seq<Event>, e: Event, perKey: nat)
    requires Consistent(q, events) && e.seqNo == q.seqNo + 1
    ensures Appended(q, e).total > 0 && Consistent(Taken(q, e, perKey), Trimmed(events, e, perKey))
  {
    AppendedConsistent(q, events, e);
    if |BucketOf(q.buckets, e.key) + [e]| > perKey {
      TrimmedConsistent(Appended(q, e), events + [e], e.key);
    }
  }

  /** The oldest order entry stands for the event its key's queue begins with. */
  predicate HeadIsLive(q: Queues)
    requires q.order != []
  {
    var b := BucketOf(q.buckets, q.order[0].1);
    b != [] && b[0].seqNo == q.order[0].0
  }

  function WithoutHead(buckets: map<EventKey, seq<Event>>, k: EventKey): map<EventKey, seq<Event>>
    requires BucketOf(buckets, k) != []
  {
    if |buckets[k]| == 1 then buckets - {k} else buckets[k := buckets[k][1..]]
  }

  /** The oldest order entry taken, with the event it stands for. */
  function Popped(q: Queues): Queues
    requires q.order != []
  {
    if HeadIsLive(q) && q.total > 0 then
      q.(buckets := WithoutHead(q.buckets, q.order[0].1), order := q.order[1..], total := q.total - 1)
    else q.(order := q.order[1..])
  }

  lemma PoppedStep(q: Queues, events: seq<Event>)
    requires Consistent(q, events) && q.order != []
    ensures if HeadIsLive(q) then events != [] && q.total > 0 && Consistent(Popped(q), events[1..])
            else Consistent(Popped(q), events)
  {
    if HeadIsLive(q) {
      PoppedConsistent(q, events, WithoutHead(q.buckets, q.order[0].1));
    } else {
      StaleConsistent(q, events);
    }
  }

  /******* The store *******/

  class Store {
    const perKey: nat
    const totalLimit: nat
    var buckets: map<EventKey, seq<Event>>
    var order: seq<Entry>
    var total: nat
    var seqNo: nat
    ghost var contents: seq<Event>

    function Q(): Queues
      reads this
    {
      Queues(buckets, order, total, seqNo)
    }

    ghost predicate Valid()
      reads this
    {
      Consistent(Q(), contents) && |order| <= 2 * totalLimit && total <= totalLimit
    }

    constructor (perKey: nat, totalLimit: nat)
      ensures Valid() && contents == [] && this.perKey == perKey && this.totalLimit == totalLimit && seqNo == 0
    {
      this.perKey, this.totalLimit := perKey, totalLimit;
      buckets, order, total, seqNo, contents := map[], [], 0, 0, [];
    }

    /** `_insert` up to the per-key trim. */
    method Append(e: Event)
      requires Consistent(Q(), contents) && e.seqNo == seqNo + 1
      modifies this
      ensures Consistent(Q(), contents) && seqNo == e.seqNo
      ensures contents == Trimmed(old(contents), e, perKey)
    {
      TakenConsistent(Q(), contents, e, perKey);
      ghost var taken := Taken(Q(), e, perKey);
      contents := Trimmed(contents, e, perKey);
      seqNo := e.seqNo;
      var bucket := BucketOf(buckets, e.key) + [e];
      buckets := buckets[e.key := bucket];
      order := order + [EntryOf(e)];
      total := total + 1;
      if |bucket| > perKey {
        buckets := buckets[e.key := bucket[1..]];
        total := total - 1;
      }
      assert Q() == taken;
    }

    /** Take the oldest order entry and, unless it is stale, the event it stands for. */
    method PopOldest()
      requires Consistent(Q(), contents) && order != []
      modifies this`buckets, this`order, this`total, this`contents
      ensures Consistent(Q(), contents) && order == old(order[1..])
      ensures contents == old(contents) || (old(contents) != [] && contents == old(contents)[1..])
    {
      PoppedStep(Q(), contents);
      ghost var popped := Popped(Q());
      var (s, k) := order[0];
      var bucket := BucketOf(buckets, k);
      if bucket != [] && bucket[0].seqNo == s {
        buckets := if |bucket| == 1 then buckets - {k} else buckets[k := bucket[1..]];
        total := total - 1;
        contents := contents[1..];
      }
      order := order[1..];
      assert Q() == popped;
    }

    /** Evict the oldest until the total limit holds. */
    method EvictToLimit()
      requires Consistent(Q(), contents)
      modifies this`buckets, this`order, this`total, this`contents
      ensures Consistent(Q(), contents) && contents == DropToLimit(old(contents), totalLimit)
    {
      ghost var limited := DropToLimit(contents, totalLimit);
      while total > totalLimit && order != []
        invariant Consistent(Q(), contents)
        invariant DropToLimit(contents, totalLimit) == limited
        decreases |order|
      {
        assert total == |contents|;
        DropOneThenLimit(contents, totalLimit);
        PopOldest();
      }
      if order == [] {
        NothingOrderedNothingHeld(Q(), contents);
      }
      assert total == |contents|;
    }

    /** Drop stale entries from the front, then compact if they still pile up. */
    method TidyOrder()
      requires Consistent(Q(), contents) && total <= totalLimit
      modifies this`order
      ensures Valid()
    {
      while order != [] && StaleEntry(buckets, order[0])
        invariant Consistent(Q(), contents)
        decreases |order|
      {
        StaleConsistent(Q(), contents);
        order := order[1..];
      }
      if |order| > 2 * totalLimit {
        CompactedConsistent(Q(), contents);
        order := SortedLive(buckets, contents);
        assert total == |contents|;
      }
    }

    method Insert(client: string, w: WireEvent, receivedMs: int)
      requires Valid() && Validate(w).None?
      modifies this
      ensures Valid() && seqNo == old(seqNo) + 1
      ensures contents == Pushed(old(contents), ToEvent(client, w, receivedMs, seqNo), perKey, totalLimit)
    {
      Append(ToEvent(client, w, receivedMs, seqNo + 1));
      EvictToLimit();
      assert total == |contents|;
      TidyOrder();
    }

    ghost predicate Reached(b: Batch, i: nat)
      reads this
    {
      && Valid() && i <= |b.events| == |b.clock| && b.perKey == perKey && b.total == totalLimit
      && contents == ContentsUpTo(b, i) && seqNo == b.seqNo + |StoredUpTo(b, i)|
    }

    /** The next event of a batch: refused for a reason, or inserted. */
    method PushNext(client: string, w: WireEvent, receivedMs: int, ghost b: Batch, ghost i: nat) returns (reason: Option<Reason>)
      requires Reached(b, i) && i < |b.events|
      requires client == b.client && w == b.events[i] && receivedMs == b.clock[i]
      modifies this
      ensures Reached(b, i + 1)
      ensures reason == Validate(w) && seqNo == old(seqNo) + if reason.None? then 1 else 0
      ensures RefusalsOf(b.events[..i + 1]) == RefusalsOf(b.events[..i]) + if reason.Some? then [(i, reason.value)] else []
    {
      reason := Validate(w);
      if reason.Some? {
        RefusedStep(b, i, reason.value);
      } else {
        StoredStep(b, i);
        ghost var e := ToEvent(client, w, receivedMs, seqNo + 1);
        Insert(client, w, receivedMs);
        ContentsStep(b, i, old(contents), e, contents);
      }
    }

    /** One batch: invalid events are refused by index and never block the others. */
    method Push(client: string, events: seq<WireEvent>, clock: seq<int>) returns (accepted: nat, refusals: seq<(nat, Reason)>)
      requires Valid() && |clock| == |events|
      modifies this
      ensures Valid()
      ensures refusals == RefusalsOf(events)
      ensures var stored := StoredOf(client, events, clock, old(seqNo));
              accepted == |stored| && contents == PushedOnto(old(contents), stored, perKey, totalLimit)
    {
      accepted, refusals := 0, [];
      ghost var b := Batch(client, events, clock, contents, seqNo, perKey, totalLimit);
      for i := 0 to |events|
        invariant Reached(b, i) && seqNo == b.seqNo + accepted && refusals == RefusalsOf(events[..i])
      {
        var reason := PushNext(client, events[i], clock[i], b, i);
        if reason.Some? {
          refusals := refusals + [(i, reason.value)];
        } else {
          accepted := accepted + 1;
        }
      }
      AllOfBatch(b);
    }

    /** The most recently pushed event of the key that is still held. */
    method Latest(k: EventKey) returns (e: Option<Event>)
      requires Valid()
      ensures e == if ForKey(contents, k) == [] then None else Some(Last(ForKey(contents, k)))
    {
      var bucket := BucketOf(buckets, k);
      return if bucket == [] then None else Some(bucket[|bucket| - 1]);
    }

    /** The greatest commit timestamp still held for the session, whatever order they arrived in. */
    method CommitTsMs(session: Option<string>) returns (ts: Option<int>)
      requires Valid()
      ensures ts.None? <==> forall e <- contents :: e.key != EventKey("commit", session)
      ensures ts.Some? ==>
                && (exists e <- contents :: e.key == EventKey("commit", session) && e.tsMs == ts.value)
                && (forall e <- contents | e.key == EventKey("commit", session) :: e.tsMs <= ts.value)
    {
      var k := EventKey(CLASS_COMMIT, session);
      var bucket := BucketOf(buckets, k);
      ForKeyMembers(contents, k);
      NonEmptyHasMember(bucket);
      if bucket == [] {
        return None;
      }
      var best := bucket[0].tsMs;
      ghost var at := bucket[0];
      for i := 1 to |bucket|
        invariant at in bucket && at.tsMs == best
        invariant forall j | 0 <= j < i :: bucket[j].tsMs <= best
      {
        if bucket[i].tsMs > best {
          best, at := bucket[i].tsMs, bucket[i];
        }
      }
      return Some(best);
    }
  }
}
