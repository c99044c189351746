/**
 What the pushed-feature store makes of the events on the wire, said over their fields, and
 exactly how many it retains.
 */
module FeatureMeaning {
  import opened Options
  import opened FeaturePush

  /******* What is stored *******/

  /** A commit with a positive time, a session that is absent or not empty, and no fields. */
  predicate WellFormed(w: WireEvent) {
    && w.eventClass == Str("commit")
    && w.ts.Int? && w.ts.n > 0
    && (w.session.Null? || (w.session.Str? && w.session.s != ""))
    && w.fields in {Null, Object({})}
  }

  /** Which events are refused, and for which reason first. */
  lemma RefusedExactly(w: WireEvent)
    ensures Validate(w).None? <==> WellFormed(w)
    ensures Validate(w) == Some(SchemaNotDefined)
            <==> w.eventClass in {Str("egress_deny"), Str("run_outcome"), Str("budget_pressure"), Str("lifecycle")}
    ensures Validate(w) == Some(UnknownClass)
            <==> w.eventClass !in {Str("commit"), Str("egress_deny"), Str("run_outcome"), Str("budget_pressure"), Str("lifecycle")}
    ensures Validate(w) == Some(BadTimestamp) <==> w.eventClass == Str("commit") && (!w.ts.Int? || w.ts.n <= 0)
    ensures Validate(w) == Some(BadSession)
            <==> && w.eventClass == Str("commit") && w.ts.Int? && w.ts.n > 0
                 && !w.session.Null? && (!w.session.Str? || w.session.s == "")
  {
    assert "egress_deny" != "commit" && "run_outcome" != "commit" && "budget_pressure" != "commit" && "lifecycle" != "commit";
  }

  /** The indices of the events of a batch that are stored. */
  function ValidIndices(events: seq<WireEvent>): (at: seq<nat>)
    ensures forall k | 0 <= k < |at| :: at[k] < |events| && WellFormed(events[at[k]])
    ensures forall i | 0 <= i < |events| && WellFormed(events[i]) :: i in at
    ensures forall j, k | 0 <= j < k < |at| :: at[j] < at[k]
  {
    if events == [] then []
    else
      var n := |events| - 1;
      if WellFormed(events[n]) then ValidIndices(events[..n]) + [n] else ValidIndices(events[..n])
  }

  /** `e` is what is stored of `w` from `client` when the clock reads `now`. */
  predicate IsStored(e: Event, client: string, w: WireEvent, now: int, seqNo: nat) {
    && e.client == client && e.key.eventClass == "commit" && SessionIs(w, e.key.session)
    && w.ts == Int(e.tsMs) && e.receivedMs == now && e.seqNo == seqNo
  }

  predicate SessionIs(w: WireEvent, session: Option<string>) {
    w.session == (match session case None => Null case Some(name) => Str(name))
  }

  /** The k-th event stored of a batch comes from its k-th well-formed one, field by field. */
  lemma {:induction false} StoredInFields(client: string, events: seq<WireEvent>, clock: seq<int>, seqNo: nat)
    requires |clock| == |events|
    ensures var at, stored := ValidIndices(events), StoredOf(client, events, clock, seqNo);
            && |stored| == |at|
            && forall k | 0 <= k < |at| :: IsStored(stored[k], client, events[at[k]], clock[at[k]], seqNo + k + 1)
  {
    if events != [] {
      var n := |events| - 1;
      StoredInFields(client, events[..n], clock[..n], seqNo);
      RefusedExactly(events[n]);
    }
  }

  /** Every event the store holds was there or comes from the batch. */
  lemma {:induction false} HeldWasPushed(start: seq<Event>, events: seq<Event>, perKey: nat, total: nat)
    ensures forall e <- PushedOnto(start, events, perKey, total) :: e in start || e in events
  {
    if events != [] {
      var n := |events| - 1;
      var before := PushedOnto(start, events[..n], perKey, total);
      HeldWasPushed(start, events[..n], perKey, total);
      PushedMembers(before, events[n], perKey, total);
    }
  }

  lemma PushedMembers(events: seq<Event>, e: Event, perKey: nat, total: nat)
    ensures forall x <- Pushed(events, e, perKey, total) :: x in events || x == e
  {
    var appended, trimmed := events + [e], Trimmed(events, e, perKey);
    if |ForKey(appended, e.key)| > perKey {
      DropFirstKeeps(appended, e.key);
    }
    assert forall x <- trimmed :: x in appended;
    assert forall x <- DropToLimit(trimmed, total) :: x in trimmed;
    assert forall x <- appended :: x in events || x == e;
  }

  /** What `CommitTsMs` answers of the events held: the greatest time among the session's commits. */
  ghost predicate Answers(held: seq<Event>, session: Option<string>, ts: int) {
    && (exists e <- held :: e.key == EventKey("commit", session) && e.tsMs == ts)
    && (forall e <- held | e.key == EventKey("commit", session) :: e.tsMs <= ts)
  }

  /** The batch has a commit of the session with this wire time. */
  ghost predicate Sent(events: seq<WireEvent>, session: Option<string>, ts: int) {
    exists i | 0 <= i < |events| :: WellFormed(events[i]) && SessionIs(events[i], session) && events[i].ts == Int(ts)
  }

  /**
   After a batch the answer is a commit time held already or the wire time of a commit of the
   session in the batch. The clock readings have no part in it.
   */
  lemma CommitAfterPush(start: seq<Event>, client: string, events: seq<WireEvent>, clock: seq<int>, seqNo: nat,
                        perKey: nat, total: nat, session: Option<string>, ts: int)
    requires |clock| == |events|
    requires Answers(PushedOnto(start, StoredOf(client, events, clock, seqNo), perKey, total), session, ts)
    ensures (exists e <- start :: e.key == EventKey("commit", session) && e.tsMs == ts) || Sent(events, session, ts)
  {
    var stored, at := StoredOf(client, events, clock, seqNo), ValidIndices(events);
    HeldWasPushed(start, stored, perKey, total);
    var e :| e in PushedOnto(start, stored, perKey, total) && e.key == EventKey("commit", session) && e.tsMs == ts;
    if e !in start {
      StoredInFields(client, events, clock, seqNo);
      var k :| 0 <= k < |stored| && stored[k] == e;
      assert WellFormed(events[at[k]]) && SessionIs(events[at[k]], session);
    }
  }

  /** ...and no less than the wire time of any commit of the session that is still held. */
  lemma NoHeldCommitIsLater(held: seq<Event>, e: Event, client: string, w: WireEvent, now: int, seqNo: nat,
                            session: Option<string>, ts: int)
    requires Answers(held, session, ts) && e in held && IsStored(e, client, w, now, seqNo) && SessionIs(w, session)
    ensures w.ts.Int? && w.ts.n <= ts
  {
    assert e.key == EventKey("commit", session);
  }

  /**
   Into an empty store within its limits, a batch is held whole, so the answer is the greatest wire
   time of the session's commits.
   */
  lemma CommitOfOneBatch(client: string, events: seq<WireEvent>, clock: seq<int>, perKey: nat, total: nat,
                         session: Option<string>, ts: int)
    requires |clock| == |events| && 0 < |events| <= perKey && |events| <= total
    requires Answers(PushedOnto([], StoredOf(client, events, clock, 0), perKey, total), session, ts)
    ensures Sent(events, session, ts) && forall later | Sent(events, session, later) :: later <= ts
  {
    var stored, at := StoredOf(client, events, clock, 0), ValidIndices(events);
    CommitAfterPush([], client, events, clock, 0, perKey, total, session, ts);
    StoredInFields(client, events, clock, 0);
    RefusedOrStored(client, events, clock, 0);
    forall k ensures |ForKey(stored, k)| <= perKey {
      ForKeyMembers(stored, k);
    }
    RetainsNewestOfAll(stored, perKey, total);
    forall later | Sent(events, session, later) ensures later <= ts {
      var i :| 0 <= i < |events| && WellFormed(events[i]) && SessionIs(events[i], session) && events[i].ts == Int(later);
      var k :| 0 <= k < |at| && at[k] == i;
      NoHeldCommitIsLater(stored, stored[k], client, events[i], clock[i], k + 1, session, ts);
    }
  }

  /******* How many are retained *******/

  function Newest<T>(s: seq<T>, n: nat): seq<T> {
    if |s| <= n then s else s[|s| - n..]
  }

  lemma NewestOfNewest<T>(s: seq<T>, x: T, n: nat)
    requires n > 0
    ensures Newest(Newest(s, n) + [x], n) == Newest(s + [x], n)
  {
  }

  lemma ForKeyOneMore(events: seq<Event>, e: Event, k: EventKey)
    ensures ForKey(events + [e], k) == if e.key == k then ForKey(events, k) + [e] else ForKey(events, k)
  {
    assert (events + [e])[..|events|] == events;
  }

  /**
   One push drops the oldest event of its key if that has its limit, then the oldest of all if the
   store has its own, and nothing else.
   */
  lemma PushedExactly(events: seq<Event>, e: Event, perKey: nat, total: nat, k: EventKey)
    requires perKey > 0 && |ForKey(events, e.key)| <= perKey && |events| <= total
    ensures var trimmed, pushed := Trimmed(events, e, perKey), Pushed(events, e, perKey, total);
            && ForKey(trimmed, k)
               == (if e.key == k then Newest(ForKey(events, k) + [e], perKey) else ForKey(events, k))
            && |trimmed| == |events| + (if |ForKey(events, e.key)| == perKey then 0 else 1)
            && pushed == Newest(trimmed, total)
  {
    ForKeyOneMore(events, e, k);
    ForKeyOneMore(events, e, e.key);
    if |ForKey(events, e.key)| == perKey {
      DropFirstKeeps(events + [e], e.key);
    }
  }

  lemma RetainsStep(before: seq<Event>, fewer: seq<Event>, e: Event, perKey: nat, total: nat, k: EventKey)
    requires perKey > 0 && |before| <= |fewer| < total
    requires ForKey(before, k) == Newest(ForKey(fewer, k), perKey) && |ForKey(before, e.key)| <= perKey
    ensures var pushed := Pushed(before, e, perKey, total);
            ForKey(pushed, k) == Newest(ForKey(fewer + [e], k), perKey) && |pushed| <= |fewer| + 1
  {
    PushedExactly(before, e, perKey, total, k);
    ForKeyOneMore(fewer, e, k);
    if e.key == k {
      NewestOfNewest(ForKey(fewer, k), e, perKey);
    }
  }

  /** While the total limit is not reached, every key holds exactly its newest events up to its own. */
  lemma {:induction false} RetainsExactly(events: seq<Event>, perKey: nat, total: nat, k: EventKey)
    requires perKey > 0 && |events| <= total
    ensures var kept := PushedOnto([], events, perKey, total);
            ForKey(kept, k) == Newest(ForKey(events, k), perKey) && |kept| <= |events|
  {
    if events != [] {
      var fewer, e := events[..|events| - 1], events[|events| - 1];
      assert events == fewer + [e];
      RetainsExactly(fewer, perKey, total, k);
      RetainsExactly(fewer, perKey, total, e.key);
      RetainsStep(PushedOnto([], fewer, perKey, total), fewer, e, perKey, total, k);
    }
  }

  lemma NewestStep(fewer: seq<Event>, e: Event, perKey: nat, total: nat)
    requires total > 0 && |ForKey(fewer + [e], e.key)| <= perKey
    ensures Pushed(Newest(fewer, total), e, perKey, total) == Newest(fewer + [e], total)
  {
    FewerOfKey(fewer, e, perKey, total);
    AppendedOnly(Newest(fewer, total), e, perKey, total);
    NewestOfNewest(fewer, e, total);
  }

  lemma AppendedOnly(before: seq<Event>, e: Event, perKey: nat, total: nat)
    requires |ForKey(before + [e], e.key)| <= perKey
    ensures Pushed(before, e, perKey, total) == Newest(before + [e], total)
  {
  }

  /** While no key reaches its limit, the store holds exactly the newest events up to the total. */
  lemma {:induction false} RetainsNewestOfAll(events: seq<Event>, perKey: nat, total: nat)
    requires perKey > 0 && total > 0 && forall k :: |ForKey(events, k)| <= perKey
    ensures PushedOnto([], events, perKey, total) == Newest(events, total)
  {
    if events != [] {
      var fewer, e := events[..|events| - 1], events[|events| - 1];
      assert events == fewer + [e];
      forall k ensures |ForKey(fewer, k)| <= perKey {
        ForKeyOneMore(fewer, e, k);
      }
      RetainsNewestOfAll(fewer, perKey, total);
      NewestStep(fewer, e, perKey, total);
    }
  }

  lemma FewerOfKey(fewer: seq<Event>, e: Event, perKey: nat, total: nat)
    requires |ForKey(fewer + [e], e.key)| <= perKey
    ensures |ForKey(Newest(fewer, total) + [e], e.key)| <= perKey
  {
    ForKeyOneMore(fewer, e, e.key);
    ForKeyOneMore(Newest(fewer, total), e, e.key);
    if |fewer| > total {
      DroppedFront(fewer, |fewer| - total, e.key);
    }
  }
}
