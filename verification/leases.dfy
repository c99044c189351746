/**
 Client leases: renewals, the liveness sweep and the idle timer. Exiting is a claim about
 the whole history of the table, stated and proved over every run.
 */
module Leases {
  import opened Options

  const MAX_LEASES_PER_CLIENT := 8

  datatype Lease = Lease(client: string, pid: int, version: string, contracts: string, renewedAt: real) {
    predicate IsFor(c: string, p: int) {
      client == c && pid == p
    }
  }

  /** The table: its leases in the order their keys were first inserted, and the two clocks. */
  datatype State = State(leases: seq<Lease>, lastPoll: Option<real>, lastLive: real)

  /******* The leases of a table *******/

  predicate Holds(leases: seq<Lease>, client: string, pid: int) {
    exists l <- leases :: l.IsFor(client, pid)
  }

  function Count(leases: seq<Lease>, client: string): nat {
    if leases == [] then 0
    else Count(leases[..|leases| - 1], client) + if leases[|leases| - 1].client == client then 1 else 0
  }

  ghost predicate Distinct(leases: seq<Lease>) {
    forall i, j | 0 <= i < j < |leases| :: leases[i].client != leases[j].client || leases[i].pid != leases[j].pid
  }

  /** One lease per key, and no client over its cap. */
  ghost predicate Bounded(leases: seq<Lease>) {
    && Distinct(leases)
    && (forall client :: Count(leases, client) <= MAX_LEASES_PER_CLIENT)
  }

  /** The first of `client`'s least recently renewed leases. */
  predicate IsOldest(leases: seq<Lease>, client: string, k: nat) {
    && k < |leases| && leases[k].client == client
    && (forall i | 0 <= i < |leases| && leases[i].client == client :: leases[k].renewedAt <= leases[i].renewedAt)
    && (forall i | 0 <= i < k && leases[i].client == client :: leases[k].renewedAt < leases[i].renewedAt)
  }

  function OldestIndex(leases: seq<Lease>, client: string): (k: nat)
    requires Count(leases, client) > 0
    ensures IsOldest(leases, client, k)
  {
    var n := |leases| - 1;
    if Count(leases[..n], client) == 0 then
      NoneCounted(leases[..n], client);
      n
    else
      var best := OldestIndex(leases[..n], client);
      if leases[n].client == client && leases[n].renewedAt < leases[best].renewedAt then n else best
  }

  lemma {:induction false} NoneCounted(leases: seq<Lease>, client: string)
    ensures Count(leases, client) == 0 <==> forall l <- leases :: l.client != client
  {
    if leases != [] {
      var init := leases[..|leases| - 1];
      NoneCounted(init, client);
      assert leases == init + [leases[|leases| - 1]];
    }
  }

  function Without(leases: seq<Lease>, k: nat): seq<Lease>
    requires k < |leases|
  {
    leases[..k] + leases[k + 1..]
  }

  /** The table with `lease` in it, put where its key is or else at the end. */
  function Placed(leases: seq<Lease>, lease: Lease): seq<Lease> {
    if !Holds(leases, lease.client, lease.pid) then leases + [lease]
    else seq(|leases|, i requires 0 <= i < |leases| => if leases[i].IsFor(lease.client, lease.pid) then lease else leases[i])
  }

  function MakeRoom(leases: seq<Lease>, client: string, pid: int): seq<Lease> {
    if Holds(leases, client, pid) || Count(leases, client) < MAX_LEASES_PER_CLIENT then leases
    else Without(leases, OldestIndex(leases, client))
  }

  function Kept(leases: seq<Lease>, alive: Lease -> bool): seq<Lease> {
    if leases == [] then []
    else
      var before := Kept(leases[..|leases| - 1], alive);
      if alive(leases[|leases| - 1]) then before + [leases[|leases| - 1]] else before
  }

  function Dead(leases: seq<Lease>, alive: Lease -> bool): seq<Lease> {
    if leases == [] then []
    else
      var before := Dead(leases[..|leases| - 1], alive);
      if alive(leases[|leases| - 1]) then before else before + [leases[|leases| - 1]]
  }

  /******* Steps *******/

  /** What happens to a table, with the clock readings it makes. */
  datatype Event =
    | Renew(client: string, pid: int, version: string, contracts: string, at: real)
    | Poll(at: real)
    | Sweep(alive: Lease -> bool, looked: real, at: real)
    | Restart(at: real)

  predicate ImplicitLive(s: State, implicit: real, now: real) {
    s.lastPoll.Some? && now - s.lastPoll.value < implicit
  }

  predicate Live(s: State, implicit: real, now: real) {
    s.leases != [] || ImplicitLive(s, implicit, now)
  }

  function Max(a: real, b: real): real {
    if a >= b then a else b
  }

  function Next(s: State, e: Event, implicit: real): State {
    match e
    case Renew(client, pid, version, contracts, at) =>
      State(Placed(MakeRoom(s.leases, client, pid), Lease(client, pid, version, contracts, at)), s.lastPoll, at)
    case Poll(at) => s.(lastPoll := Some(at), lastLive := at)
    case Sweep(alive, looked, at) =>
      var swept := s.(leases := Kept(s.leases, alive));
      if Live(swept, implicit, looked) then swept.(lastLive := at) else swept
    case Restart(at) => s.(lastLive := Max(s.lastLive, at))
  }

  /** `idle_for`, which reads the clock twice. */
  function IdleFor(s: State, implicit: real, looked: real, now: real): (r: real)
    ensures r >= 0.0
  {
    if Live(s, implicit, looked) then 0.0
    else
      var last := if s.lastPoll.Some? then Max(s.lastLive, s.lastPoll.value + implicit) else s.lastLive;
      Max(0.0, now - last)
  }

  predicate ExitDue(s: State, implicit: real, idle: real, managed: bool, looked: real, now: real) {
    managed && IdleFor(s, implicit, looked, now) >= idle
  }

  /******* The cap *******/

  lemma CountOneMore(leases: seq<Lease>, lease: Lease, client: string)
    ensures Count(leases + [lease], client) == Count(leases, client) + if lease.client == client then 1 else 0
  {
    assert (leases + [lease])[..|leases|] == leases;
  }

  lemma {:induction false} CountConcat(a: seq<Lease>, b: seq<Lease>, client: string)
    ensures Count(a + b, client) == Count(a, client) + Count(b, client)
  {
    if b == [] {
      assert a + b == a;
    } else {
      var init, last := b[..|b| - 1], b[|b| - 1];
      CountConcat(a, init, client);
      CountOneMore(a + init, last, client);
      CountOneMore(init, last, client);
      assert a + b == (a + init) + [last] && b == init + [last];
    }
  }

  lemma CountWithout(leases: seq<Lease>, k: nat, client: string)
    requires k < |leases|
    ensures Count(Without(leases, k), client) == Count(leases, client) - if leases[k].client == client then 1 else 0
  {
    CountConcat(leases[..k], leases[k + 1..], client);
    CountOneMore(leases[..k], leases[k], client);
    CountConcat(leases[..k] + [leases[k]], leases[k + 1..], client);
    assert leases == leases[..k] + [leases[k]] + leases[k + 1..];
  }

  lemma {:induction false} SameClientsSameCount(a: seq<Lease>, b: seq<Lease>, client: string)
    requires |a| == |b| && forall i | 0 <= i < |a| :: a[i].client == b[i].client
    ensures Count(a, client) == Count(b, client)
  {
    if a != [] {
      SameClientsSameCount(a[..|a| - 1], b[..|b| - 1], client);
    }
  }

  lemma PlacedStaysBounded(leases: seq<Lease>, lease: Lease)
    requires Bounded(leases)
    requires Holds(leases, lease.client, lease.pid) || Count(leases, lease.client) < MAX_LEASES_PER_CLIENT
    ensures Bounded(Placed(leases, lease))
  {
    var placed := Placed(leases, lease);
    if Holds(leases, lease.client, lease.pid) {
      assert forall i | 0 <= i < |leases| :: placed[i].client == leases[i].client && placed[i].pid == leases[i].pid;
    } else {
      assert forall i | 0 <= i < |leases| :: leases[i] in leases;
    }
    forall client ensures Count(placed, client) <= MAX_LEASES_PER_CLIENT {
      if Holds(leases, lease.client, lease.pid) {
        SameClientsSameCount(leases, placed, client);
      } else {
        CountOneMore(leases, lease, client);
      }
    }
  }

  lemma MakeRoomIsBounded(leases: seq<Lease>, client: string, pid: int)
    requires Bounded(leases)
    ensures var room := MakeRoom(leases, client, pid);
            Bounded(room) && (Holds(room, client, pid) || Count(room, client) < MAX_LEASES_PER_CLIENT)
  {
    if !Holds(leases, client, pid) && Count(leases, client) >= MAX_LEASES_PER_CLIENT {
      var k := OldestIndex(leases, client);
      forall c ensures Count(Without(leases, k), c) <= MAX_LEASES_PER_CLIENT {
        CountWithout(leases, k, c);
      }
      CountWithout(leases, k, client);
    }
  }

  lemma {:induction false} KeptFacts(leases: seq<Lease>, alive: Lease -> bool)
    ensures forall l :: l in Kept(leases, alive) <==> l in leases && alive(l)
    ensures forall client :: Count(Kept(leases, alive), client) <= Count(leases, client)
  {
    if leases != [] {
      var init, last := leases[..|leases| - 1], leases[|leases| - 1];
      KeptFacts(init, alive);
      assert leases == init + [last];
      forall client ensures Count(Kept(leases, alive), client) <= Count(leases, client) {
        CountOneMore(Kept(init, alive), last, client);
      }
    }
  }

  /** A sweep keeps and discards between them every lease, by whether its process is alive. */
  lemma {:induction false} DeadFacts(leases: seq<Lease>, alive: Lease -> bool)
    ensures forall l :: l in Dead(leases, alive) <==> l in leases && !alive(l)
    ensures |Kept(leases, alive)| + |Dead(leases, alive)| == |leases|
  {
    if leases != [] {
      DeadFacts(leases[..|leases| - 1], alive);
      assert leases == leases[..|leases| - 1] + [leases[|leases| - 1]];
    }
  }

  lemma {:induction false} KeptStaysDistinct(leases: seq<Lease>, alive: Lease -> bool)
    requires Distinct(leases)
    ensures Distinct(Kept(leases, alive))
  {
    if leases != [] {
      var init, last := leases[..|leases| - 1], leases[|leases| - 1];
      KeptStaysDistinct(init, alive);
      KeptFacts(init, alive);
      var before := Kept(init, alive);
      forall i | 0 <= i < |before| ensures before[i].client != last.client || before[i].pid != last.pid {
        assert before[i] in before && before[i] in init;
        var j :| 0 <= j < |init| && init[j] == before[i];
      }
    }
  }

  /** No step puts a client over its cap or a key in twice. */
  lemma NextStaysBounded(s: State, e: Event, implicit: real)
    requires Bounded(s.leases)
    ensures Bounded(Next(s, e, implicit).leases)
  {
    match e {
      case Renew(client, pid, version, contracts, at) =>
        MakeRoomIsBounded(s.leases, client, pid);
        PlacedStaysBounded(MakeRoom(s.leases, client, pid), Lease(client, pid, version, contracts, at));
      case Sweep(alive, looked, at) =>
        KeptFacts(s.leases, alive);
        KeptStaysDistinct(s.leases, alive);
      case Poll(at) =>
      case Restart(at) =>
    }
  }

  /**
   A renewal takes nothing from anyone but, at the cap, the renewing client's least
   recently renewed lease.
   */
  lemma RenewalDisplacesOnlyTheOldest(s: State, client: string, pid: int, version: string, contracts: string, at: real,
                                      implicit: real, l: Lease)
    requires Bounded(s.leases) && l in s.leases && !l.IsFor(client, pid)
    ensures var after := Next(s, Renew(client, pid, version, contracts, at), implicit).leases;
            l !in after ==>
              && l.client == client && Count(s.leases, client) >= MAX_LEASES_PER_CLIENT && !Holds(s.leases, client, pid)
              && forall other <- s.leases | other.client == client :: l.renewedAt <= other.renewedAt
  {
    var room := MakeRoom(s.leases, client, pid);
    var lease := Lease(client, pid, version, contracts, at);
    var i :| 0 <= i < |s.leases| && s.leases[i] == l;
    if room != s.leases {
      var k := OldestIndex(s.leases, client);
      if i < k {
        assert room[i] == l;
      } else if i > k {
        assert room[i - 1] == l;
      }
    }
    if l in room {
      PlacedKeeps(room, lease, l);
    }
  }

  /**
   What a renewal makes of the table: the lease takes the place of its key; or goes to the end;
   or, if its client has eight already, goes to the end and the first of those least recently
   renewed goes.
   */
  ghost predicate RenewedAs(was: seq<Lease>, now: seq<Lease>, lease: Lease) {
    match lease
    case Lease(client, pid, _, _, _) =>
      if exists l <- was :: l.client == client && l.pid == pid then
        && |now| == |was|
        && forall i | 0 <= i < |was| :: now[i] == if was[i].client == client && was[i].pid == pid then lease else was[i]
      else if Count(was, client) < 8 then now == was + [lease]
      else exists k | 0 <= k < |was| :: GoesFirst(was, client, k) && now == was[..k] + was[k + 1..] + [lease]
  }

  ghost predicate GoesFirst(was: seq<Lease>, client: string, k: nat)
    requires k < |was|
  {
    && was[k].client == client
    && (forall i | 0 <= i < k && was[i].client == client :: was[i].renewedAt > was[k].renewedAt)
    && (forall i | k < i < |was| && was[i].client == client :: was[i].renewedAt >= was[k].renewedAt)
  }

  lemma RenewalExactly(leases: seq<Lease>, lease: Lease)
    requires Bounded(leases)
    ensures RenewedAs(leases, Placed(MakeRoom(leases, lease.client, lease.pid), lease), lease)
  {
    if !Holds(leases, lease.client, lease.pid) && Count(leases, lease.client) >= MAX_LEASES_PER_CLIENT {
      var k := OldestIndex(leases, lease.client);
      var room := Without(leases, k);
      assert !Holds(room, lease.client, lease.pid) by {
        assert forall l <- room :: l in leases;
      }
      assert GoesFirst(leases, lease.client, k);
    }
  }

  lemma PlacedKeeps(leases: seq<Lease>, lease: Lease, l: Lease)
    requires l in leases && !l.IsFor(lease.client, lease.pid)
    ensures l in Placed(leases, lease)
  {
    var i :| 0 <= i < |leases| && leases[i] == l;
    assert Placed(leases, lease)[i] == l;
  }

  /******* Runs *******/

  function Start(at: real): State {
    State([], None, at)
  }

  function Run(start: real, es: seq<Event>, implicit: real): State {
    if es == [] then Start(start) else Next(Run(start, es[..|es| - 1], implicit), es[|es| - 1], implicit)
  }

  /** The last clock reading of a run. */
  function End(start: real, es: seq<Event>): real {
    if es == [] then start else es[|es| - 1].at
  }

  /** The clock never goes back. */
  predicate InOrder(start: real, es: seq<Event>) {
    es == [] ||
    var before, last := es[..|es| - 1], es[|es| - 1];
    && InOrder(start, before)
    && End(start, before) <= last.at
    && (last.Sweep? ==> End(start, before) <= last.looked <= last.at)
  }

  /** Event `e` met in state `s` is a sign of life: a renewal, a poll, a restart, or a sweep that found something live. */
  predicate SignOfLife(s: State, e: Event, implicit: real) {
    e.Sweep? ==> Live(s.(leases := Kept(s.leases, e.alive)), implicit, e.looked)
  }

  /** No sign of life since `limit`, the start of the table among them. */
  predicate QuietSince(start: real, es: seq<Event>, implicit: real, limit: real) {
    if es == [] then start <= limit
    else
      var before, last := es[..|es| - 1], es[|es| - 1];
      && QuietSince(start, before, implicit, limit)
      && (SignOfLife(Run(start, before, implicit), last, implicit) ==> last.at <= limit)
  }

  predicate NoPollAfter(es: seq<Event>, limit: real) {
    forall n | 0 <= n < |es| && es[n].Poll? :: es[n].at <= limit
  }

  /** The two clocks are the latest sign of life and the latest poll. */
  lemma {:induction false} ClocksAreLatest(start: real, es: seq<Event>, implicit: real)
    requires InOrder(start, es)
    ensures var s := Run(start, es, implicit);
            && s.lastLive <= End(start, es)
            && (forall limit :: QuietSince(start, es, implicit, limit) <==> s.lastLive <= limit)
            && (forall limit :: NoPollAfter(es, limit) <==> (s.lastPoll.Some? ==> s.lastPoll.value <= limit))
            && (s.lastPoll.Some? ==> s.lastPoll.value <= s.lastLive)
  {
    if es != [] {
      var before, e := es[..|es| - 1], es[|es| - 1];
      ClocksAreLatest(start, before, implicit);
      var was, s := Run(start, before, implicit), Run(start, es, implicit);
      forall limit ensures NoPollAfter(es, limit) <==> NoPollAfter(before, limit) && (e.Poll? ==> e.at <= limit) {
        NoPollOneMore(es, limit);
      }
    }
  }

  lemma NoPollOneMore(es: seq<Event>, limit: real)
    requires es != []
    ensures var before, e := es[..|es| - 1], es[|es| - 1];
            NoPollAfter(es, limit) <==> NoPollAfter(before, limit) && (e.Poll? ==> e.at <= limit)
  {
    var before := es[..|es| - 1];
    assert forall n | 0 <= n < |before| :: es[n] == before[n];
  }

  lemma {:induction false} RunStaysBounded(start: real, es: seq<Event>, implicit: real)
    ensures Bounded(Run(start, es, implicit).leases)
  {
    if es != [] {
      RunStaysBounded(start, es[..|es| - 1], implicit);
      NextStaysBounded(Run(start, es[..|es| - 1], implicit), es[|es| - 1], implicit);
    }
  }

  /**
   The exit decision, exactly: the install is managed, no lease is held, every sign of life
   is at least the idle window old, and every health poll is older still by the implicit window.
   */
  lemma ExitsExactly(start: real, es: seq<Event>, implicit: real, idle: real, managed: bool, looked: real, now: real)
    requires InOrder(start, es) && End(start, es) <= looked <= now && idle > 0.0
    ensures ExitDue(Run(start, es, implicit), implicit, idle, managed, looked, now)
            <==> && managed && Run(start, es, implicit).leases == []
                 && QuietSince(start, es, implicit, now - idle)
                 && NoPollAfter(es, now - idle - implicit)
                 && NoPollAfter(es, looked - implicit)
  {
    ClocksAreLatest(start, es, implicit);
  }

  /******* Every abandoned engine exits *******/

  /** Only sweeps, each taking at most `gap` between its two clock readings. */
  predicate OnlySweeps(es: seq<Event>, gap: real) {
    forall n | 0 <= n < |es| :: es[n].Sweep? && es[n].at - es[n].looked <= gap
  }

  lemma {:induction false} AbandonedStaysIdle(start: real, es: seq<Event>, rest: seq<Event>, implicit: real, gap: real)
    requires InOrder(start, es + rest) && OnlySweeps(rest, gap) && Run(start, es, implicit).leases == []
    ensures var was, s := Run(start, es, implicit), Run(start, es + rest, implicit);
            && s.leases == [] && s.lastPoll == was.lastPoll
            && (s.lastLive == was.lastLive || (was.lastPoll.Some? && s.lastLive < was.lastPoll.value + implicit + gap))
  {
    if rest == [] {
      assert es + rest == es;
    } else {
      var before := rest[..|rest| - 1];
      assert (es + rest)[..|es + rest| - 1] == es + before;
      AbandonedStaysIdle(start, es, before, implicit, gap);
    }
  }

  /**
   Once nothing is held and nothing renews, polls or restarts any more, a managed engine
   exits as soon as the idle window has passed since the last sign of life and since the
   last poll's implicit lease ran out.
   */
  lemma AbandonedEngineExits(start: real, es: seq<Event>, rest: seq<Event>, implicit: real, idle: real, gap: real,
                             looked: real, now: real)
    requires InOrder(start, es) && InOrder(start, es + rest) && OnlySweeps(rest, gap) && gap >= 0.0
    requires Run(start, es, implicit).leases == [] && End(start, es + rest) <= looked <= now
    requires now >= End(start, es) + idle
    requires match Run(start, es, implicit).lastPoll
             case Some(poll) => looked >= poll + implicit && now >= poll + implicit + gap + idle
             case None => true
    ensures ExitDue(Run(start, es + rest, implicit), implicit, idle, true, looked, now)
  {
    ClocksAreLatest(start, es, implicit);
    AbandonedStaysIdle(start, es, rest, implicit, gap);
  }

  lemma {:induction false} NoneKept(leases: seq<Lease>, alive: Lease -> bool)
    requires forall l <- leases :: !alive(l)
    ensures Kept(leases, alive) == []
  {
    if leases != [] {
      assert leases[|leases| - 1] in leases && forall l <- leases[..|leases| - 1] :: l in leases;
      NoneKept(leases[..|leases| - 1], alive);
    }
  }

  /** A sweep that finds every pid dead holds nothing afterwards. */
  lemma DeadClientsAreSwept(s: State, alive: Lease -> bool, looked: real, at: real, implicit: real)
    requires forall l <- s.leases :: !alive(l)
    ensures Next(s, Sweep(alive, looked, at), implicit).leases == []
  {
    NoneKept(s.leases, alive);
  }

  /******* A live client is never abandoned *******/

  function PidsOf(leases: seq<Lease>, client: string): set<int> {
    set l | l in leases && l.client == client :: l.pid
  }

  /** The pids `client` renewed in a run. */
  ghost function RenewedPids(es: seq<Event>, client: string): set<int> {
    set n | 0 <= n < |es| && es[n].Renew? && es[n].client == client :: es[n].pid
  }

  lemma PidsOneMore(leases: seq<Lease>, last: Lease, client: string)
    ensures PidsOf(leases + [last], client) == PidsOf(leases, client) + if last.client == client then {last.pid} else {}
  {
    assert forall l :: l in leases + [last] <==> l in leases || l == last;
  }

  lemma {:induction false} CountIsPids(leases: seq<Lease>, client: string)
    requires Distinct(leases)
    ensures Count(leases, client) == |PidsOf(leases, client)|
  {
    if leases != [] {
      var init, last := leases[..|leases| - 1], leases[|leases| - 1];
      CountIsPids(init, client);
      assert leases == init + [last];
      PidsOneMore(init, last, client);
      assert last.client == client ==> last.pid !in PidsOf(init, client);
    }
  }

  lemma RenewedOneMore(es: seq<Event>, client: string)
    requires es != []
    ensures var before, e := es[..|es| - 1], es[|es| - 1];
            RenewedPids(es, client)
            == RenewedPids(before, client) + if e.Renew? && e.client == client then {e.pid} else {}
  {
    var before, e := es[..|es| - 1], es[|es| - 1];
    assert forall n | 0 <= n < |before| :: before[n] == es[n];
    forall pid | pid in RenewedPids(before, client) ensures pid in RenewedPids(es, client) {
      var n :| 0 <= n < |before| && before[n].Renew? && before[n].client == client && before[n].pid == pid;
      assert es[n].pid == pid;
    }
  }

  /** A step adds a pid to what a client holds only by renewing it. */
  lemma StepHoldsRenewed(s: State, e: Event, implicit: real, client: string)
    ensures PidsOf(Next(s, e, implicit).leases, client)
            <= PidsOf(s.leases, client) + if e.Renew? && e.client == client then {e.pid} else {}
  {
    match e {
      case Renew(c, p, version, contracts, at) =>
        var room := MakeRoom(s.leases, c, p);
        assert forall l <- room :: l in s.leases;
        assert forall l <- Placed(room, Lease(c, p, version, contracts, at)) ::
            l in room || l == Lease(c, p, version, contracts, at);
      case Sweep(alive, looked, at) => KeptFacts(s.leases, alive);
      case Poll(at) =>
      case Restart(at) =>
    }
  }

  lemma {:induction false} HeldWereRenewed(start: real, es: seq<Event>, implicit: real, client: string)
    ensures PidsOf(Run(start, es, implicit).leases, client) <= RenewedPids(es, client)
  {
    if es != [] {
      var before, e := es[..|es| - 1], es[|es| - 1];
      HeldWereRenewed(start, before, implicit, client);
      RenewedOneMore(es, client);
      StepHoldsRenewed(Run(start, before, implicit), e, implicit, client);
    }
  }

  /** One step keeps a lease its client may hold and no sweep finds dead. */
  lemma StepKeepsHeld(s: State, e: Event, implicit: real, client: string, pid: int)
    requires Bounded(s.leases) && Holds(s.leases, client, pid)
    requires e.Renew? && e.client == client && !Holds(s.leases, client, e.pid)
             ==> Count(s.leases, client) < MAX_LEASES_PER_CLIENT
    requires e.Sweep? ==> forall l: Lease | l.IsFor(client, pid) :: e.alive(l)
    ensures Holds(Next(s, e, implicit).leases, client, pid)
  {
    var l :| l in s.leases && l.IsFor(client, pid);
    match e {
      case Renew(c, p, version, contracts, at) =>
        if c == client && p == pid {
          PlacedHolds(MakeRoom(s.leases, c, p), Lease(c, p, version, contracts, at));
        } else {
          RenewalDisplacesOnlyTheOldest(s, c, p, version, contracts, at, implicit, l);
        }
      case Sweep(alive, looked, at) => KeptFacts(s.leases, alive);
      case Poll(at) =>
      case Restart(at) =>
    }
  }

  /** Of a client that renews at most eight pids, every renewed lease no sweep finds dead is held to the end. */
  lemma {:induction false} LiveLeaseIsHeld(start: real, es: seq<Event>, implicit: real, client: string, pid: int, at: nat)
    requires at < |es| && es[at].Renew? && es[at].client == client && es[at].pid == pid
    requires |RenewedPids(es, client)| <= 8
    requires forall n | at < n < |es| && es[n].Sweep? :: forall l: Lease | l.IsFor(client, pid) :: es[n].alive(l)
    ensures Holds(Run(start, es, implicit).leases, client, pid)
  {
    var before, e := es[..|es| - 1], es[|es| - 1];
    var s := Run(start, before, implicit);
    RenewedOneMore(es, client);
    if at == |before| {
      PlacedHolds(MakeRoom(s.leases, client, pid), Lease(client, pid, e.version, e.contracts, e.at));
    } else {
      FewerOrEqual(RenewedPids(before, client), RenewedPids(es, client));
      LiveLeaseIsHeld(start, before, implicit, client, pid, at);
      RunStaysBounded(start, before, implicit);
      HeldWereRenewed(start, before, implicit, client);
      CountIsPids(s.leases, client);
      if e.Renew? && e.client == client && !Holds(s.leases, client, e.pid) {
        FewerOrEqual(PidsOf(s.leases, client) + {e.pid}, RenewedPids(es, client));
      }
      StepKeepsHeld(s, e, implicit, client, pid);
    }
  }

  lemma {:induction false} FewerOrEqual(a: set<int>, b: set<int>)
    requires a <= b
    ensures |a| <= |b|
  {
    assert b == a + (b - a);
  }

  /** ...so the engine does not exit under it. */
  lemma NoExitUnderALiveLease(start: real, es: seq<Event>, implicit: real, idle: real, client: string, pid: int, at: nat,
                              managed: bool, looked: real, now: real)
    requires at < |es| && es[at].Renew? && es[at].client == client && es[at].pid == pid && idle > 0.0
    requires |RenewedPids(es, client)| <= 8
    requires forall n | at < n < |es| && es[n].Sweep? :: forall l: Lease | l.IsFor(client, pid) :: es[n].alive(l)
    ensures !ExitDue(Run(start, es, implicit), implicit, idle, managed, looked, now)
  {
    LiveLeaseIsHeld(start, es, implicit, client, pid, at);
  }

  /******* The table *******/

  /** The loop behind `min(mine, key=...)`: the first of the client's oldest leases. */
  method FindOldest(leases: seq<Lease>, client: string) returns (k: nat)
    requires Count(leases, client) > 0
    ensures IsOldest(leases, client, k) && k == OldestIndex(leases, client)
  {
    NoneCounted(leases, client);
    var i := 0;
    while leases[i].client != client
      invariant 0 <= i < |leases| && forall j | 0 <= j < i :: leases[j].client != client
      decreases |leases| - i
    {
      i := i + 1;
    }
    k := i;
    while i < |leases|
      invariant k < |leases| && k <= i <= |leases| && leases[k].client == client
      invariant forall j | 0 <= j < i && leases[j].client == client :: leases[k].renewedAt <= leases[j].renewedAt
      invariant forall j | 0 <= j < k && leases[j].client == client :: leases[k].renewedAt < leases[j].renewedAt
    {
      if leases[i].client == client && leases[i].renewedAt < leases[k].renewedAt {
        k := i;
      }
      i := i + 1;
    }
  }

  lemma RunOneMore(start: real, es: seq<Event>, e: Event, implicit: real, was: State, s: State)
    requires was == Run(start, es, implicit) && s == Next(was, e, implicit)
    ensures s == Run(start, es + [e], implicit)
  {
    assert (es + [e])[..|es|] == es;
  }

  /** What `renew` makes of the dictionary: room at the cap, then the lease under its key. */
  method Replaced(leases: seq<Lease>, lease: Lease) returns (table: seq<Lease>)
    requires Bounded(leases)
    ensures table == Placed(MakeRoom(leases, lease.client, lease.pid), lease) && lease in table
    ensures RenewedAs(leases, table, lease)
  {
    table := leases;
    if !Holds(leases, lease.client, lease.pid) && Count(leases, lease.client) >= MAX_LEASES_PER_CLIENT {
      var oldest := FindOldest(leases, lease.client);
      table := leases[..oldest] + leases[oldest + 1..];
    }
    PlacedHolds(table, lease);
    table := Placed(table, lease);
    RenewalExactly(leases, lease);
  }

  class LeaseTable {
    const implicit: real
    const idle: real
    ghost const start: real
    var leases: seq<Lease>
    var lastHealthPoll: Option<real>
    var lastLive: real
    ghost var history: seq<Event>

    /** The fields are what the table's whole history amounts to. */
    ghost predicate Valid()
      reads this
    {
      Abs() == Run(start, history, implicit)
    }

    function Abs(): State
      reads this
    {
      State(leases, lastHealthPoll, lastLive)
    }

    constructor (implicit: real, idle: real, now: real)
      ensures Valid() && history == [] && start == now && this.implicit == implicit && this.idle == idle
      ensures leases == [] && lastHealthPoll == None && lastLive == now
    {
      this.implicit, this.idle, start := implicit, idle, now;
      leases, lastHealthPoll, lastLive, history := [], None, now, [];
    }

    method RestartCountdown(now: real)
      requires Valid()
      modifies this`lastLive, this`history
      ensures Valid() && history == old(history) + [Restart(now)]
      ensures lastLive == if old(lastLive) < now then now else old(lastLive)
    {
      lastLive := Max(lastLive, now);
      RunOneMore(start, history, Restart(now), implicit, old(Abs()), Abs());
      history := history + [Restart(now)];
    }

    method NoteHealthPoll(now: real)
      requires Valid()
      modifies this`lastHealthPoll, this`lastLive, this`history
      ensures Valid() && history == old(history) + [Poll(now)]
      ensures lastHealthPoll == Some(now) && lastLive == now
    {
      lastHealthPoll := Some(now);
      lastLive := now;
      RunOneMore(start, history, Poll(now), implicit, old(Abs()), Abs());
      history := history + [Poll(now)];
    }

    method Renew(client: string, pid: int, version: string, contracts: string, now: real) returns (lease: Lease)
      requires Valid()
      modifies this`leases, this`lastLive, this`history
      ensures Valid() && history == old(history) + [Event.Renew(client, pid, version, contracts, now)]
      ensures lease.client == client && lease.pid == pid && lease.version == version && lease.contracts == contracts
      ensures lease.renewedAt == now && lastLive == now
      ensures lease in leases && Bounded(leases) && forall c: string :: Count(leases, c) <= 8
      ensures RenewedAs(old(leases), leases, lease)
    {
      lease := Lease(client, pid, version, contracts, now);
      RunStaysBounded(start, history, implicit);
      leases := Replaced(leases, lease);
      lastLive := now;
      RunOneMore(start, history, Event.Renew(client, pid, version, contracts, now), implicit, old(Abs()), Abs());
      history := history + [Event.Renew(client, pid, version, contracts, now)];
      RunStaysBounded(start, history, implicit);
    }

    /** `sweep`: probe every pid, drop the dead, refresh the idle clock if anything is live. */
    method Sweep(alive: Lease -> bool, looked: real, now: real) returns (dead: seq<Lease>)
      requires Valid()
      modifies this`leases, this`lastLive, this`history
      ensures Valid() && history == old(history) + [Event.Sweep(alive, looked, now)]
      ensures forall l :: l in leases <==> l in old(leases) && alive(l)
      ensures dead == Dead(old(leases), alive) && forall l :: l in dead <==> l in old(leases) && !alive(l)
      ensures lastLive == if leases != [] || (lastHealthPoll.Some? && looked < lastHealthPoll.value + implicit)
                          then now else old(lastLive)
    {
      var live := [];
      dead := [];
      for i := 0 to |leases|
        invariant live == Kept(leases[..i], alive) && dead == Dead(leases[..i], alive)
        invariant leases == old(leases) && lastLive == old(lastLive) && history == old(history)
      {
        assert leases[..i + 1][..i] == leases[..i];
        if alive(leases[i]) {
          live := live + [leases[i]];
        } else {
          dead := dead + [leases[i]];
        }
      }
      assert leases[..|leases|] == leases;
      DeadFacts(leases, alive);
      KeptFacts(leases, alive);
      leases := live;
      if Live(Abs(), implicit, looked) {
        lastLive := now;
      }
      RunOneMore(start, history, Event.Sweep(alive, looked, now), implicit, old(Abs()), Abs());
      history := history + [Event.Sweep(alive, looked, now)];
    }

    /**
     `should_exit`, over the table's whole history: with a clock that never went back it says yes
     exactly when the install is managed, nothing is held, every sign of life is at least the
     idle window old, and every health poll older still by the implicit window.
     */
    method ShouldExit(managed: bool, looked: real, now: real) returns (r: bool)
      requires Valid()
      ensures r == ExitDue(Run(start, history, implicit), implicit, idle, managed, looked, now)
      ensures InOrder(start, history) && End(start, history) <= looked <= now && idle > 0.0 ==>
                (r <==> && managed && leases == []
                        && QuietSince(start, history, implicit, now - idle)
                        && NoPollAfter(history, now - idle - implicit) && NoPollAfter(history, looked - implicit))
    {
      r := managed && IdleFor(Abs(), implicit, looked, now) >= idle;
      if InOrder(start, history) && End(start, history) <= looked <= now && idle > 0.0 {
        ExitsExactly(start, history, implicit, idle, managed, looked, now);
      }
    }
  }

  lemma PlacedHolds(leases: seq<Lease>, lease: Lease)
    ensures lease in Placed(leases, lease)
  {
    if Holds(leases, lease.client, lease.pid) {
      var i :| 0 <= i < |leases| && leases[i].IsFor(lease.client, lease.pid);
      assert Placed(leases, lease)[i] == lease;
    }
  }
}
