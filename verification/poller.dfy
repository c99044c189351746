/**
 The event poller and the intake of the signal engine: a stored cursor, a rolling
 buffer and last-seen ids, over an event ledger with ascending ids, with failures
 at any point of a cycle.
 */
module Poller {
  /******* The ledger *******/

  datatype Event = Event(id: int, kind: string)

  const EXCLUDED_KINDS: set<string> :=
    {"advice.label", "advice.features", "model.switch", "branch.created", "agent.turn_profile"}
  const FETCH_LIMIT: nat := 100
  const BUFFER_SIZE: nat := 200

  ghost predicate Ascending(events: seq<Event>) {
    && (forall i | 0 <= i < |events| :: events[i].id > 0)
    && (forall i, j | 0 <= i < j < |events| :: events[i].id < events[j].id)
  }

  /** The events the poller is meant to see, after `since`, in id order. */
  function After(ledger: seq<Event>, since: int): seq<Event> {
    if ledger == [] then []
    else
      var n := |ledger| - 1;
      var e := ledger[n];
      if e.id > since && e.kind !in EXCLUDED_KINDS then After(ledger[..n], since) + [e] else After(ledger[..n], since)
  }

  function Take<T>(s: seq<T>, n: nat): seq<T> {
    if |s| <= n then s else s[..n]
  }

  function LastOnes<T>(s: seq<T>, n: nat): seq<T> {
    if |s| <= n then s else s[|s| - n..]
  }

  /** `get_events_since`, excluded kinds filtered in the query. */
  function Fetch(ledger: seq<Event>, since: int): seq<Event> {
    Take(After(ledger, since), FETCH_LIMIT)
  }

  function LastId(events: seq<Event>): int {
    if events == [] then 0 else events[|events| - 1].id
  }

  /** The events of a sequence with an id beyond `id`. */
  function Beyond(events: seq<Event>, id: int): seq<Event> {
    if events == [] then []
    else
      var n := |events| - 1;
      if events[n].id > id then Beyond(events[..n], id) + [events[n]] else Beyond(events[..n], id)
  }

  /******* One cycle *******/

  /**
   How far the signal engine gets: nothing, the first events of a profile update
   that then raises, the profile only, or both models.
   */
  datatype EngineOutcome = NotRun | PartOfProfile(events: nat) | ProfileOnly | BothModels

  /** Where a cycle fails, if it does. A failed commit may or may not leave the new cursor visible. */
  datatype Fault = NoFault | BeforeBuffering | BeforeEngine | BeforeCursor | AtCommit(visible: bool)

  datatype PollEnv = PollEnv(fault: Fault, engine: EngineOutcome)

  /**
   `taken`, `profiled` and `modelled` are history: what this process ever buffered
   and what each model was ever given.
   */
  datatype State = State(
    ledger: seq<Event>, cursor: int, buffer: seq<Event>, lastProfileId: int, lastNgramId: int,
    start: int, taken: seq<Event>, profiled: seq<Event>, modelled: seq<Event>)

  function Started(ledger: seq<Event>, cursor: nat): State {
    State(ledger, cursor, [], 0, 0, cursor, [], [], [])
  }

  /** `_process_events_inner` on the buffer: each model gets the events beyond its last-seen id. */
  function EngineStep(s: State, outcome: EngineOutcome): State {
    if outcome.NotRun? then s else
    var forProfile := Beyond(s.buffer, s.lastProfileId);
    if outcome.PartOfProfile? then s.(profiled := s.profiled + Take(forProfile, outcome.events)) else
    var s1 := if forProfile == [] then s
              else s.(lastProfileId := LastId(forProfile), profiled := s.profiled + forProfile);
    if outcome.ProfileOnly? then s1 else
    var forModel := Beyond(s1.buffer, s1.lastNgramId);
    if forModel == [] then s1
    else s1.(lastNgramId := LastId(forModel), modelled := s1.modelled + forModel)
  }

  /** The rows of a cycle, less those a failed cycle already buffered, join the buffer. */
  function Buffered(s: State): State {
    var unseen := Beyond(Fetch(s.ledger, s.cursor), LastId(s.buffer));
    s.(buffer := LastOnes(s.buffer + unseen, BUFFER_SIZE), taken := s.taken + unseen)
  }

  predicate ReachesEngine(env: PollEnv) {
    !env.fault.BeforeBuffering? && !env.fault.BeforeEngine?
  }

  predicate MovesCursor(env: PollEnv) {
    env.fault.NoFault? || env.fault == AtCommit(true)
  }

  function Polled(s: State, env: PollEnv): State {
    var rows := Fetch(s.ledger, s.cursor);
    if rows == [] || env.fault.BeforeBuffering? then s else
    var s1 := Buffered(s);
    if env.fault.BeforeEngine? then s1 else
    var s2 := EngineStep(s1, env.engine);
    if MovesCursor(env) then s2.(cursor := LastId(rows)) else s2
  }

  datatype Step = Arrive(gap: nat, kind: string) | Poll(env: PollEnv)

  function Next(s: State, step: Step): State {
    match step
    case Arrive(gap, kind) => s.(ledger := s.ledger + [Event(LastId(s.ledger) + 1 + gap, kind)])
    case Poll(env) => Polled(s, env)
  }

  function Run(s: State, steps: seq<Step>): State
    decreases |steps|
  {
    if steps == [] then s else Run(Next(s, steps[0]), steps[1..])
  }

  /******* Filters of ascending sequences are slices *******/

  lemma {:induction false} AfterAscending(ledger: seq<Event>, since: int)
    requires Ascending(ledger)
    ensures Ascending(After(ledger, since))
    ensures forall e :: e in After(ledger, since) <==> e in ledger && e.id > since && e.kind !in EXCLUDED_KINDS
  {
    if ledger != [] {
      var n := |ledger| - 1;
      assert ledger == ledger[..n] + [ledger[n]];
      AfterAscending(ledger[..n], since);
      assert forall e <- ledger[..n] :: e.id < ledger[n].id;
    }
  }

  lemma {:induction false} BeyondConcat(a: seq<Event>, b: seq<Event>, id: int)
    ensures Beyond(a + b, id) == Beyond(a, id) + Beyond(b, id)
  {
    if b == [] {
      assert a + b == a;
    } else {
      var n := |b| - 1;
      BeyondConcat(a, b[..n], id);
      assert (a + b)[..|a| + n] == a + b[..n];
    }
  }

  lemma {:induction false} BeyondAll(events: seq<Event>, id: int)
    requires forall i | 0 <= i < |events| :: events[i].id > id
    ensures Beyond(events, id) == events
  {
    if events != [] {
      BeyondAll(events[..|events| - 1], id);
    }
  }

  lemma {:induction false} BeyondNone(events: seq<Event>, id: int)
    requires forall i | 0 <= i < |events| :: events[i].id <= id
    ensures Beyond(events, id) == []
  {
    if events != [] {
      BeyondNone(events[..|events| - 1], id);
    }
  }

  lemma BeyondIsDrop(events: seq<Event>, id: int, n: nat)
    requires n <= |events|
    requires forall i | 0 <= i < n :: events[i].id <= id
    requires forall i | n <= i < |events| :: events[i].id > id
    ensures Beyond(events, id) == events[n..]
  {
    assert events == events[..n] + events[n..];
    BeyondConcat(events[..n], events[n..], id);
    BeyondNone(events[..n], id);
    BeyondAll(events[n..], id);
  }

  /** Asking again from a later cursor yields what lies beyond it of an earlier answer. */
  lemma {:induction false} AfterIsBeyond(ledger: seq<Event>, start: int, cursor: int)
    requires start <= cursor
    ensures After(ledger, cursor) == Beyond(After(ledger, start), cursor)
  {
    if ledger != [] {
      var m := |ledger| - 1;
      AfterIsBeyond(ledger[..m], start, cursor);
      var all, fewer := After(ledger, start), After(ledger[..m], start);
      assert all != fewer ==> all[..|all| - 1] == fewer;
    }
  }

  /** What the query shows of the ledger: all but five kinds of event, after the cursor, in id order. */
  lemma VisibleExactly(ledger: seq<Event>, since: int, e: Event)
    requires Ascending(ledger)
    ensures Ascending(After(ledger, since))
    ensures e in After(ledger, since)
            <==> && e in ledger && e.id > since
                 && e.kind != "advice.label" && e.kind != "advice.features" && e.kind != "model.switch"
                 && e.kind != "branch.created" && e.kind != "agent.turn_profile"
  {
    AfterAscending(ledger, since);
  }

  /******* The intake invariant *******/

  /**
   With `all` the visible ledger beyond the starting cursor: the first `t` events
   were taken in, the cursor stands after the first `a`, and `t - a` is at most
   one fetch.
   */
  ghost predicate Intake(s: State, a: nat, t: nat) {
    match s
    case State(ledger, cursor, buffer, _, _, start, taken, _, _) =>
      var all := After(ledger, start);
      && Ascending(ledger)
      && 0 <= start
      && a <= t <= |all| && t <= a + FETCH_LIMIT
      && cursor == (if a == 0 then start else all[a - 1].id)
      && taken == all[..t]
      && buffer == LastOnes(taken, BUFFER_SIZE)
  }

  lemma IntakeStarts(ledger: seq<Event>, cursor: nat)
    requires Ascending(ledger)
    ensures Intake(Started(ledger, cursor), 0, 0)
  {
    AfterAscending(ledger, cursor);
    var all := After(ledger, cursor);
    if all != [] {
      assert all[0] in all;
    }
  }

  lemma ArriveKeepsIntake(s: State, a: nat, t: nat, gap: nat, kind: string)
    requires Intake(s, a, t)
    ensures Intake(Next(s, Arrive(gap, kind)), a, t)
  {
    var e := Event(LastId(s.ledger) + 1 + gap, kind);
    AscendingAppend(s.ledger, e);
    AfterAppend(s.ledger, e, s.start);
  }

  lemma AscendingAppend(ledger: seq<Event>, e: Event)
    requires Ascending(ledger) && e.id > LastId(ledger)
    ensures Ascending(ledger + [e])
  {
  }

  lemma AfterAppend(ledger: seq<Event>, e: Event, since: int)
    ensures After(ledger, since) <= After(ledger + [e], since)
  {
    assert (ledger + [e])[..|ledger|] == ledger;
  }

  lemma TrimmedTwice<T>(s: seq<T>, more: seq<T>, n: nat)
    ensures LastOnes(LastOnes(s, n) + more, n) == LastOnes(s + more, n)
  {
  }

  /** The first `a` visible events are up to the cursor, the others beyond it. */
  lemma CursorSplits(s: State, a: nat, t: nat)
    requires Intake(s, a, t)
    ensures var all := After(s.ledger, s.start);
            && Ascending(all) && s.start <= s.cursor
            && forall i | 0 <= i < |all| :: all[i].id > s.cursor <==> i >= a
  {
    AfterAscending(s.ledger, s.start);
    var all := After(s.ledger, s.start);
    assert forall i | 0 <= i < |all| :: all[i] in all;
  }

  /** Of the rows `all[a..r]`, those beyond the last buffered event are `all[t..r]`. */
  lemma NewRows(all: seq<Event>, a: nat, t: nat, r: nat)
    requires Ascending(all) && a <= t <= r <= |all|
    ensures Beyond(all[a..r], LastId(all[..t])) == all[t..r]
  {
    var rows, id := all[a..r], LastId(all[..t]);
    forall i | 0 <= i < |rows| ensures if i < t - a then rows[i].id <= id else rows[i].id > id {
      assert rows[i] == all[a + i];
    }
    BeyondIsDrop(rows, id, t - a);
    assert rows[t - a..] == all[t..r];
  }

  lemma FetchedRows(s: State, all: seq<Event>, a: nat)
    requires all == After(s.ledger, s.start) && a <= |all| && s.start <= s.cursor
    requires forall i | 0 <= i < |all| :: all[i].id > s.cursor <==> i >= a
    ensures Fetch(s.ledger, s.cursor) == Take(all[a..], FETCH_LIMIT)
  {
    AfterIsBeyond(s.ledger, s.start, s.cursor);
    BeyondIsDrop(all, s.cursor, a);
  }

  /** How many events a cycle's fetch reaches. */
  function Reached(all: seq<Event>, a: nat): nat
    requires a <= |all|
  {
    if |all| - a <= FETCH_LIMIT then |all| else a + FETCH_LIMIT
  }

  lemma LastOfBuffer(events: seq<Event>, n: nat)
    requires n > 0
    ensures LastId(LastOnes(events, n)) == LastId(events)
  {
  }

  /** Buffering takes the intake as far as the fetch reaches. */
  lemma BufferedKeepsIntake(s: State, all: seq<Event>, a: nat, t: nat)
    requires Intake(s, a, t) && all == After(s.ledger, s.start)
    ensures Intake(Buffered(s), a, Reached(all, a)) && t <= Reached(all, a)
    ensures Fetch(s.ledger, s.cursor) == all[a..Reached(all, a)]
    ensures Buffered(s).taken[..t] == s.taken
  {
    var r := Reached(all, a);
    CursorSplits(s, a, t);
    FetchedRows(s, all, a);
    assert Take(all[a..], FETCH_LIMIT) == all[a..r];
    LastOfBuffer(s.taken, BUFFER_SIZE);
    NewRows(all, a, t, r);
    TrimmedTwice(s.taken, all[t..r], BUFFER_SIZE);
    assert s.taken + all[t..r] == all[..r];
  }

  lemma EngineKeepsIntake(s: State, a: nat, t: nat, outcome: EngineOutcome)
    requires Intake(s, a, t)
    ensures Intake(EngineStep(s, outcome), a, t)
  {
  }

  lemma CursorKeepsIntake(s: State, all: seq<Event>, a: nat, t: nat)
    requires Intake(s, a, t) && all == After(s.ledger, s.start) && a < t
    ensures Intake(s.(cursor := LastId(all[a..t])), t, t)
  {
  }

  /** Every cycle, failing wherever it may, keeps the intake invariant. */
  lemma PollKeepsIntake(s: State, a: nat, t: nat, env: PollEnv) returns (a': nat, t': nat)
    requires Intake(s, a, t)
    ensures Intake(Polled(s, env), a', t') && a <= a' && t <= t'
    ensures a' == a || (a' == t' && MovesCursor(env))
  {
    var all := After(s.ledger, s.start);
    var r := Reached(all, a);
    BufferedKeepsIntake(s, all, a, t);
    a', t' := a, t;
    if a < r && !env.fault.BeforeBuffering? {
      t' := r;
      if !env.fault.BeforeEngine? {
        var s1 := Buffered(s);
        EngineKeepsIntake(s1, a, r, env.engine);
        if MovesCursor(env) {
          CursorKeepsIntake(EngineStep(s1, env.engine), all, a, r);
          a' := r;
        }
      }
    }
  }

  /**
   One cycle, exactly: unless it fails before buffering it takes in what is due up to a
   hundred events past the cursor, and the cursor moves to the last of them if nothing failed, or
   nothing but an acknowledgement of the commit.
   */
  lemma CycleTakesIn(s: State, a: nat, t: nat, env: PollEnv)
    requires Intake(s, a, t)
    ensures var all := After(s.ledger, s.start);
            var due := if |all| < a + 100 then |all| else a + 100;
            var after := Next(s, Poll(env));
            && after.ledger == s.ledger && after.start == s.start
            && after.taken == (if a == due || env.fault == BeforeBuffering then s.taken else all[..due])
            && after.cursor == if a < due && env.fault in {NoFault, AtCommit(true)} then all[due - 1].id else s.cursor
  {
    var all := After(s.ledger, s.start);
    var due := Reached(all, a);
    BufferedKeepsIntake(s, all, a, t);
    CycleMoves(s, all[a..due], env);
    if a < due {
      assert all[a..due][|all[a..due]| - 1] == all[due - 1];
    }
  }

  /** What a cycle does with the rows of its fetch, whatever the engine makes of the buffer. */
  lemma CycleMoves(s: State, rows: seq<Event>, env: PollEnv)
    requires Fetch(s.ledger, s.cursor) == rows
    ensures var after := Next(s, Poll(env));
            && after.ledger == s.ledger && after.start == s.start
            && after.taken == (if rows == [] || env.fault == BeforeBuffering then s.taken else Buffered(s).taken)
            && after.cursor == if rows != [] && env.fault in {NoFault, AtCommit(true)} then LastId(rows) else s.cursor
  {
  }

  /**
   For every run of arrivals and cycles failing at any point: the process takes in
   each visible event from its starting cursor on exactly once and in order, its
   buffer is the last of these, its cursor never passes what it took in, and at
   most one fetch of taken events lies beyond the cursor.
   */
  lemma {:induction false} IntakeOverRuns(s: State, a: nat, t: nat, steps: seq<Step>) returns (a': nat, t': nat)
    requires Intake(s, a, t)
    ensures Intake(Run(s, steps), a', t')
    decreases |steps|
  {
    a', t' := a, t;
    if steps != [] {
      match steps[0] {
        case Arrive(gap, kind) => ArriveKeepsIntake(s, a, t, gap, kind);
        case Poll(env) => a', t' := PollKeepsIntake(s, a, t, env);
      }
      a', t' := IntakeOverRuns(Next(s, steps[0]), a', t', steps[1..]);
    }
  }

  /******* What the signal models are given *******/

  /** Each model was given the first events taken in, in order, up to its last-seen id. */
  ghost predicate Delivered(s: State, p: nat, m: nat) {
    && p <= |s.taken| && s.profiled == s.taken[..p] && s.lastProfileId == LastId(s.taken[..p])
    && m <= |s.taken| && s.modelled == s.taken[..m] && s.lastNgramId == LastId(s.taken[..m])
  }

  /** Of the buffer, the events beyond the first `p` taken: those of them it still holds. */
  lemma UnseenInBuffer(taken: seq<Event>, p: nat)
    requires Ascending(taken) && p <= |taken|
    ensures Beyond(LastOnes(taken, BUFFER_SIZE), LastId(taken[..p]))
            == (if |taken| - p <= BUFFER_SIZE then taken[p..] else LastOnes(taken, BUFFER_SIZE))
  {
    var from := if |taken| <= BUFFER_SIZE then 0 else |taken| - BUFFER_SIZE;
    var buffer := taken[from..];
    assert LastOnes(taken, BUFFER_SIZE) == buffer;
    if from <= p {
      assert taken[from..|taken|] == buffer && taken[p..|taken|] == taken[p..];
      NewRows(taken, from, p, |taken|);
    } else {
      assert forall i | 0 <= i < |buffer| :: buffer[i] == taken[from + i];
      BeyondAll(buffer, LastId(taken[..p]));
    }
  }

  lemma TakenAscending(s: State, a: nat, t: nat)
    requires Intake(s, a, t)
    ensures Ascending(s.taken) && s.buffer == LastOnes(s.taken, BUFFER_SIZE) && |s.taken| == t
  {
    AfterAscending(s.ledger, s.start);
    var all := After(s.ledger, s.start);
    assert Ascending(all[..t]);
  }

  /** What one model has after being given everything unseen in the buffer. */
  lemma GivenUnseen(taken: seq<Event>, p: nat)
    requires Ascending(taken) && p <= |taken|
    ensures var given := Beyond(LastOnes(taken, BUFFER_SIZE), LastId(taken[..p]));
            && (taken[..p] + given == taken <==> |taken| - p <= BUFFER_SIZE)
            && (|taken| - p <= BUFFER_SIZE ==> (if given == [] then LastId(taken[..p]) else LastId(given)) == LastId(taken))
            && (given == [] ==> p == |taken|)
  {
    UnseenInBuffer(taken, p);
    assert |taken| - p <= BUFFER_SIZE ==> taken[..p] + taken[p..] == taken;
    assert taken[..|taken|] == taken;
  }

  /**
   An engine that runs leaves both models with exactly the events taken in, once
   each and in order, exactly when no model was more than a buffer behind.
   */
  lemma EngineCatchesUpExactly(s: State, a: nat, t: nat, p: nat, m: nat)
    requires Intake(s, a, t) && Delivered(s, p, m)
    ensures var after := EngineStep(s, BothModels);
            && (after.profiled == s.taken && after.modelled == s.taken <==> t - p <= BUFFER_SIZE && t - m <= BUFFER_SIZE)
            && (t - p <= BUFFER_SIZE && t - m <= BUFFER_SIZE ==> Delivered(after, t, t))
  {
    TakenAscending(s, a, t);
    GivenUnseen(s.taken, p);
    GivenUnseen(s.taken, m);
    assert s.taken[..t] == s.taken;
  }

  lemma ProfileCatchesUp(s: State, a: nat, t: nat, p: nat, m: nat)
    requires Intake(s, a, t) && Delivered(s, p, m) && t - p <= BUFFER_SIZE
    ensures Delivered(EngineStep(s, ProfileOnly), t, m)
  {
    TakenAscending(s, a, t);
    GivenUnseen(s.taken, p);
    assert s.taken[..t] == s.taken;
  }

  /**
   A profile update that raises after some of its events does not move the
   last-seen id: the next run gives all of them again. Everything taken in was
   then given once exactly when there was nothing to give or none of it was taken.
   */
  lemma PartialUpdateRepeatsExactly(s: State, a: nat, t: nat, p: nat, m: nat, n: nat)
    requires Intake(s, a, t) && Delivered(s, p, m) && t - p <= BUFFER_SIZE
    ensures var after := EngineStep(EngineStep(s, PartOfProfile(n)), BothModels);
            && after.profiled == s.taken[..p] + Take(s.taken[p..], n) + s.taken[p..]
            && (after.profiled == s.taken <==> p == t || n == 0)
  {
    TakenAscending(s, a, t);
    UnseenInBuffer(s.taken, p);
    GivenTwice(s.taken, p, n);
    GivenAgain(s, n, s.taken[p..]);
  }

  lemma GivenAgain(s: State, n: nat, unseen: seq<Event>)
    requires Beyond(s.buffer, s.lastProfileId) == unseen
    ensures EngineStep(EngineStep(s, PartOfProfile(n)), BothModels).profiled == s.profiled + Take(unseen, n) + unseen
  {
    var part := EngineStep(s, PartOfProfile(n));
    assert part.buffer == s.buffer && part.lastProfileId == s.lastProfileId && part.profiled == s.profiled + Take(unseen, n);
    assert unseen == [] ==> part.profiled + unseen == part.profiled;
  }

  lemma GivenTwice(taken: seq<Event>, p: nat, n: nat)
    requires p <= |taken|
    ensures taken[..p] + Take(taken[p..], n) + taken[p..] == taken <==> p == |taken| || n == 0
  {
    var given := taken[..p] + Take(taken[p..], n) + taken[p..];
    assert |given| == |taken| + |Take(taken[p..], n)|;
    if p == |taken| || n == 0 {
      assert Take(taken[p..], n) == [];
      assert given == taken[..p] + taken[p..] == taken;
    }
  }

  /** The engine updates the profile as a whole or not at all. */
  predicate Whole(step: Step) {
    step.Poll? && ReachesEngine(step.env) ==> !step.env.engine.PartOfProfile?
  }

  /** An engine run of the step finds a model it updates more than a buffer behind. */
  predicate TooFarBehind(s: State, step: Step) {
    && step.Poll? && ReachesEngine(step.env) && Fetch(s.ledger, s.cursor) != []
    && var taken := Buffered(s).taken;
       || (!step.env.engine.NotRun? && |taken| > |s.profiled| + BUFFER_SIZE)
       || (step.env.engine.BothModels? && |taken| > |s.modelled| + BUFFER_SIZE)
  }

  predicate NeverTooFarBehind(s: State, steps: seq<Step>)
    decreases |steps|
  {
    steps == [] || (!TooFarBehind(s, steps[0]) && NeverTooFarBehind(Next(s, steps[0]), steps[1..]))
  }

  /** Each model was given the first events taken in, once each and in order. */
  predicate Prefixes(s: State) {
    s.profiled <= s.taken && s.modelled <= s.taken
  }

  /** What was given differs from what was taken in at some place, for good. */
  ghost predicate Departs(given: seq<Event>, taken: seq<Event>) {
    exists i | 0 <= i < |given| && i < |taken| :: given[i] != taken[i]
  }

  lemma StepExtends(s: State, step: Step)
    ensures s.taken <= Next(s, step).taken && s.profiled <= Next(s, step).profiled && s.modelled <= Next(s, step).modelled
  {
  }

  lemma {:induction false} DepartureLasts(s: State, steps: seq<Step>)
    requires Departs(s.profiled, s.taken) || Departs(s.modelled, s.taken)
    ensures !Prefixes(Run(s, steps))
    decreases |steps|
  {
    if steps != [] {
      StepExtends(s, steps[0]);
      DepartureLasts(Next(s, steps[0]), steps[1..]);
    }
  }

  /** A model more than a buffer behind is given what the buffer still holds, at the place of what it does not. */
  lemma SkippedDeparts(taken: seq<Event>, p: nat)
    requires Ascending(taken) && p + BUFFER_SIZE < |taken|
    ensures Departs(taken[..p] + Beyond(LastOnes(taken, BUFFER_SIZE), LastId(taken[..p])), taken)
  {
    UnseenInBuffer(taken, p);
    var given := taken[..p] + LastOnes(taken, BUFFER_SIZE);
    assert given[p] == taken[|taken| - BUFFER_SIZE];
    assert taken[p].id < taken[|taken| - BUFFER_SIZE].id;
  }

  /** One engine run, exactly. */
  lemma EngineRunExactly(s: State, a: nat, t: nat, p: nat, m: nat, outcome: EngineOutcome) returns (p': nat, m': nat)
    requires Intake(s, a, t) && Delivered(s, p, m) && !outcome.PartOfProfile?
    ensures var after := EngineStep(s, outcome);
            var behind := || (!outcome.NotRun? && t > p + BUFFER_SIZE) || (outcome.BothModels? && t > m + BUFFER_SIZE);
            if behind then Departs(after.profiled, after.taken) || Departs(after.modelled, after.taken)
            else Delivered(after, p', m')
  {
    p', m' := p, m;
    TakenAscending(s, a, t);
    if !outcome.NotRun? {
      if t > p + BUFFER_SIZE {
        SkippedDeparts(s.taken, p);
      } else {
        ProfileCatchesUp(s, a, t, p, m);
        p' := t;
        if outcome.BothModels? {
          if t > m + BUFFER_SIZE {
            SkippedDeparts(s.taken, m);
          } else {
            EngineCatchesUpExactly(s, a, t, p, m);
            m' := t;
          }
        }
      }
    }
  }

  /** One cycle, exactly: both models stay prefixes of the intake unless the engine found one too far behind. */
  lemma CycleDeliversExactly(s: State, a: nat, t: nat, p: nat, m: nat, env: PollEnv) returns (a': nat, t': nat, p': nat, m': nat)
    requires Intake(s, a, t) && Delivered(s, p, m) && Whole(Poll(env))
    ensures Intake(Polled(s, env), a', t')
    ensures if TooFarBehind(s, Poll(env)) then
              Departs(Polled(s, env).profiled, Polled(s, env).taken) || Departs(Polled(s, env).modelled, Polled(s, env).taken)
            else Delivered(Polled(s, env), p', m')
  {
    var all := After(s.ledger, s.start);
    var r, s1 := Reached(all, a), Buffered(s);
    BufferedKeepsIntake(s, all, a, t);
    DeliveredAlso(s, s1, p, m);
    TakenAscending(s1, a, r);
    a', t' := PollKeepsIntake(s, a, t, env);
    p', m' := p, m;
    if a < r && ReachesEngine(env) {
      p', m' := EngineRunExactly(s1, a, r, p, m, env.engine);
    }
  }

  /**
   The exact condition over whole runs of an engine that updates the profile as a whole or not
   at all, failing cycles and silent engines included: both models hold a prefix of the intake,
   each event once and in order, exactly if no engine run of the run found one of them more than
   a buffer behind.
   */
  lemma {:induction false} DeliveryExactly(s: State, a: nat, t: nat, p: nat, m: nat, steps: seq<Step>)
    requires Intake(s, a, t) && Delivered(s, p, m)
    requires forall i | 0 <= i < |steps| :: Whole(steps[i])
    ensures Prefixes(Run(s, steps)) <==> NeverTooFarBehind(s, steps)
    decreases |steps|
  {
    if steps != [] {
      var next := Next(s, steps[0]);
      match steps[0] {
        case Arrive(gap, kind) =>
          ArriveKeepsIntake(s, a, t, gap, kind);
          DeliveryExactly(next, a, t, p, m, steps[1..]);
        case Poll(env) =>
          var a', t', p', m' := CycleDeliversExactly(s, a, t, p, m, env);
          if TooFarBehind(s, steps[0]) {
            DepartureLasts(next, steps[1..]);
          } else {
            DeliveryExactly(next, a', t', p', m', steps[1..]);
          }
      }
    }
  }

  /** The engine updates a model as a whole or not at all, and both in every cycle that moves the cursor. */
  predicate EngineHealthy(step: Step) {
    step.Poll? && ReachesEngine(step.env) ==>
      && !step.env.engine.PartOfProfile?
      && (MovesCursor(step.env) ==> step.env.engine.BothModels?)
  }

  lemma EngineDelivers(s: State, a: nat, t: nat, p: nat, m: nat, outcome: EngineOutcome) returns (p': nat, m': nat)
    requires Intake(s, a, t) && Delivered(s, p, m) && a <= p && a <= m && !outcome.PartOfProfile?
    ensures Delivered(EngineStep(s, outcome), p', m') && p <= p' && m <= m'
    ensures outcome.BothModels? ==> p' == m' == t
  {
    p', m' := p, m;
    if outcome.BothModels? {
      EngineCatchesUpExactly(s, a, t, p, m);
      p', m' := t, t;
    } else if outcome.ProfileOnly? {
      ProfileCatchesUp(s, a, t, p, m);
      p' := t;
    }
  }

  /** A healthy engine run, and the cursor after it. */
  lemma EngineThenCursor(s: State, all: seq<Event>, a: nat, t: nat, p: nat, m: nat, env: PollEnv) returns (a': nat, p': nat, m': nat)
    requires Intake(s, a, t) && Delivered(s, p, m) && a <= p && a <= m && a < t && all == After(s.ledger, s.start)
    requires EngineHealthy(Poll(env)) && ReachesEngine(env)
    ensures var after := EngineStep(s, env.engine);
            var moved := if MovesCursor(env) then after.(cursor := LastId(all[a..t])) else after;
            Intake(moved, a', t) && Delivered(moved, p', m') && a' <= p' && a' <= m'
  {
    EngineKeepsIntake(s, a, t, env.engine);
    p', m' := EngineDelivers(s, a, t, p, m, env.engine);
    a' := a;
    if MovesCursor(env) {
      CursorKeepsIntake(EngineStep(s, env.engine), all, a, t);
      a' := t;
    }
  }

  /** A cycle of a healthy run keeps both models within one fetch of the intake, never behind the cursor. */
  lemma PollKeepsDelivery(s: State, a: nat, t: nat, p: nat, m: nat, env: PollEnv)
    returns (a': nat, t': nat, p': nat, m': nat)
    requires Intake(s, a, t) && Delivered(s, p, m) && a <= p && a <= m && EngineHealthy(Poll(env))
    ensures Intake(Polled(s, env), a', t') && Delivered(Polled(s, env), p', m') && a' <= p' && a' <= m'
  {
    var all := After(s.ledger, s.start);
    var r, s1 := Reached(all, a), Buffered(s);
    BufferedKeepsIntake(s, all, a, t);
    DeliveredAlso(s, s1, p, m);
    a', t', p', m' := a, t, p, m;
    if a < r && !env.fault.BeforeBuffering? {
      t' := r;
      if !env.fault.BeforeEngine? {
        a', p', m' := EngineThenCursor(s1, all, a, r, p, m, env);
      }
    }
  }

  lemma DeliveredAlso(s: State, after: State, p: nat, m: nat)
    requires Delivered(s, p, m) && |s.taken| <= |after.taken| && after.taken[..|s.taken|] == s.taken
    requires after.profiled == s.profiled && after.lastProfileId == s.lastProfileId
    requires after.modelled == s.modelled && after.lastNgramId == s.lastNgramId
    ensures Delivered(after, p, m)
  {
    assert after.taken[..p] == s.taken[..p] && after.taken[..m] == s.taken[..m];
  }

  /**
   For every run in which the engine works in each cycle that moves the cursor,
   the profile and the n-gram model are each given a prefix of the intake, each
   event once and in order, and nothing up to the cursor is missing.
   */
  lemma {:induction false} DeliveryOverRuns(s: State, a: nat, t: nat, p: nat, m: nat, steps: seq<Step>)
    returns (a': nat, t': nat, p': nat, m': nat)
    requires Intake(s, a, t) && Delivered(s, p, m) && a <= p && a <= m
    requires forall i | 0 <= i < |steps| :: EngineHealthy(steps[i])
    ensures Intake(Run(s, steps), a', t') && Delivered(Run(s, steps), p', m') && a' <= p' && a' <= m'
    decreases |steps|
  {
    a', t', p', m' := a, t, p, m;
    if steps != [] {
      match steps[0] {
        case Arrive(gap, kind) => ArriveKeepsIntake(s, a, t, gap, kind);
        case Poll(env) => a', t', p', m' := PollKeepsDelivery(s, a, t, p, m, env);
      }
      a', t', p', m' := DeliveryOverRuns(Next(s, steps[0]), a', t', p', m', steps[1..]);
    }
  }

  /**
   From a process start, over every run: what was taken in is a prefix of the
   visible ledger beyond the starting cursor, the cursor never passes it, and at
   most one fetch of it lies beyond the cursor.
   */
  lemma ExactlyOnceIntake(ledger: seq<Event>, cursor: nat, steps: seq<Step>)
    requires Ascending(ledger)
    ensures var s := Run(Started(ledger, cursor), steps);
            && s.taken <= After(s.ledger, s.start)
            && s.buffer == (if |s.taken| <= 200 then s.taken else s.taken[|s.taken| - 200..])
            && (s.taken != [] ==> s.cursor <= s.taken[|s.taken| - 1].id)
            && (s.taken == [] ==> s.cursor == s.start)
            && (forall i | 0 <= i < |s.taken| - 100 :: s.taken[i].id <= s.cursor)
  {
    IntakeStarts(ledger, cursor);
    var a, t := IntakeOverRuns(Started(ledger, cursor), 0, 0, steps);
    BeyondCursor(Run(Started(ledger, cursor), steps), a, t);
  }

  lemma BeyondCursor(s: State, a: nat, t: nat)
    requires Intake(s, a, t)
    ensures Beyond(s.taken, s.cursor) == s.taken[a..]
    ensures if s.taken == [] then s.cursor == s.start else s.cursor <= LastId(s.taken)
    ensures forall i | 0 <= i < t :: s.taken[i].id <= s.cursor <==> i < a
  {
    CursorSplits(s, a, t);
    var all := After(s.ledger, s.start);
    assert forall i | 0 <= i < t :: s.taken[i] == all[i];
    BeyondIsDrop(s.taken, s.cursor, a);
  }

  /** ...and if the engine is healthy, each model has everything up to the cursor, once each and in order. */
  lemma ExactlyOnceDelivery(ledger: seq<Event>, cursor: nat, steps: seq<Step>)
    requires Ascending(ledger) && forall i | 0 <= i < |steps| :: EngineHealthy(steps[i])
    ensures var s := Run(Started(ledger, cursor), steps);
            && s.profiled <= s.taken && s.modelled <= s.taken
            && forall i | 0 <= i < |s.taken| && s.taken[i].id <= s.cursor :: i < |s.profiled| && i < |s.modelled|
  {
    IntakeStarts(ledger, cursor);
    var a, t, p, m := DeliveryOverRuns(Started(ledger, cursor), 0, 0, 0, 0, steps);
    BeyondCursor(Run(Started(ledger, cursor), steps), a, t);
  }

  /******* An unhealthy engine loses events *******/

  /** A ledger of `n` file events with ids 1 to n. */
  function FileEvents(n: nat): seq<Event> {
    seq(n, i => Event(i + 1, "file"))
  }

  lemma {:induction false} FileEventsAfter(n: nat)
    ensures Ascending(FileEvents(n)) && After(FileEvents(n), 0) == FileEvents(n)
  {
    if n > 0 {
      FileEventsAfter(n - 1);
      assert FileEvents(n)[..n - 1] == FileEvents(n - 1);
    }
  }

  const SILENT := Poll(PollEnv(NoFault, NotRun))

  /** A cycle over a full backlog in which the engine does not run. */
  lemma SilentCycle(s: State, a: nat)
    requires Intake(s, a, a) && Delivered(s, 0, 0) && a + FETCH_LIMIT <= |After(s.ledger, s.start)|
    ensures var s' := Next(s, SILENT);
            && Intake(s', a + FETCH_LIMIT, a + FETCH_LIMIT) && Delivered(s', 0, 0)
            && s'.ledger == s.ledger && s'.start == s.start
  {
    var all := After(s.ledger, s.start);
    BufferedKeepsIntake(s, all, a, a);
    CursorKeepsIntake(Buffered(s), all, a, a + FETCH_LIMIT);
  }

  /** Neither model was given any of the first events taken in, and a whole buffer was taken in after them. */
  ghost predicate Evicted(s: State, first: seq<Event>) {
    && first <= s.taken && |first| + BUFFER_SIZE <= |s.taken|
    && NoneOf(first, s.profiled) && NoneOf(first, s.modelled)
  }

  ghost predicate NoneOf(first: seq<Event>, given: seq<Event>) {
    forall e <- first :: e !in given
  }

  lemma {:induction false} BeyondIsPart(events: seq<Event>, id: int)
    ensures forall e <- Beyond(events, id) :: e in events
  {
    if events != [] {
      BeyondIsPart(events[..|events| - 1], id);
    }
  }

  /** The buffer holds none of the evicted events, so no filter of it does. */
  lemma EvictedLeftBuffer(taken: seq<Event>, first: seq<Event>, id: int)
    requires Ascending(taken) && first <= taken && |first| + BUFFER_SIZE <= |taken|
    ensures NoneOf(first, Beyond(LastOnes(taken, BUFFER_SIZE), id))
  {
    var buffer := LastOnes(taken, BUFFER_SIZE);
    BeyondIsPart(buffer, id);
    forall e <- first ensures e !in buffer {
      var i :| 0 <= i < |first| && first[i] == e;
      assert taken[i] == e;
      assert forall j | 0 <= j < |buffer| :: buffer[j] == taken[|taken| - BUFFER_SIZE + j];
    }
  }

  lemma EngineKeepsEvicted(s: State, a: nat, t: nat, first: seq<Event>, outcome: EngineOutcome)
    requires Intake(s, a, t) && Evicted(s, first)
    ensures Evicted(EngineStep(s, outcome), first)
  {
    TakenAscending(s, a, t);
    EvictedLeftBuffer(s.taken, first, s.lastProfileId);
    EvictedLeftBuffer(s.taken, first, s.lastNgramId);
  }

  lemma PollKeepsEvicted(s: State, a: nat, t: nat, first: seq<Event>, env: PollEnv)
    requires Intake(s, a, t) && Evicted(s, first)
    ensures Evicted(Polled(s, env), first)
  {
    var all := After(s.ledger, s.start);
    BufferedKeepsIntake(s, all, a, t);
    assert s.taken <= Buffered(s).taken;
    EngineKeepsEvicted(Buffered(s), a, Reached(all, a), first, env.engine);
  }

  /**
   An event that no model was given before 200 later ones were taken in is given
   to neither in any continuation, whatever the engine then does.
   */
  lemma {:induction false} EvictedIsLost(s: State, a: nat, t: nat, first: seq<Event>, steps: seq<Step>)
    requires Intake(s, a, t) && Evicted(s, first)
    ensures Evicted(Run(s, steps), first)
    decreases |steps|
  {
    if steps != [] {
      var a', t' := a, t;
      match steps[0] {
        case Arrive(gap, kind) => ArriveKeepsIntake(s, a, t, gap, kind);
        case Poll(env) =>
          a', t' := PollKeepsIntake(s, a, t, env);
          PollKeepsEvicted(s, a, t, first, env);
      }
      EvictedIsLost(Next(s, steps[0]), a', t', first, steps[1..]);
    }
  }

  /**
   Three silent cycles over any backlog of 300 visible events: the cursor is past
   all of them, and in no continuation is either model given one of the first
   hundred.
   */
  lemma SilentEngineLosesEvents(ledger: seq<Event>, cursor: nat, steps: seq<Step>)
    requires Ascending(ledger) && |After(ledger, cursor)| == 300
    ensures var s := Run(Started(ledger, cursor), [SILENT, SILENT, SILENT]);
            var later := Run(s, steps);
            && s.taken == After(ledger, cursor)
            && s.cursor == LastId(s.taken)
            && forall e <- s.taken[..100] :: e !in later.profiled && e !in later.modelled
  {
    var s0 := Started(ledger, cursor);
    IntakeStarts(ledger, cursor);
    SilentCycle(s0, 0);
    var s1 := Next(s0, SILENT);
    SilentCycle(s1, 100);
    var s2 := Next(s1, SILENT);
    SilentCycle(s2, 200);
    RunThree(s0);
    AfterSilence(Next(s2, SILENT));
    EvictedIsLost(Next(s2, SILENT), 300, 300, After(ledger, cursor)[..100], steps);
  }

  lemma AfterSilence(s: State)
    requires Intake(s, 300, 300) && Delivered(s, 0, 0) && |After(s.ledger, s.start)| == 300
    ensures s.taken == After(s.ledger, s.start) && s.cursor == LastId(s.taken)
    ensures Evicted(s, s.taken[..100])
  {
    assert s.profiled == [] && s.modelled == [];
  }

  lemma RunThree(s: State)
    ensures Run(s, [SILENT, SILENT, SILENT]) == Next(Next(Next(s, SILENT), SILENT), SILENT)
  {
    var s1 := Next(s, SILENT);
    var s2 := Next(s1, SILENT);
    assert [SILENT, SILENT, SILENT][1..] == [SILENT, SILENT] && [SILENT, SILENT][1..] == [SILENT] && [SILENT][1..] == [];
    assert Run(s2, [SILENT]) == Run(Next(s2, SILENT), []);
    assert Run(s1, [SILENT, SILENT]) == Run(s2, [SILENT]);
  }

  /******* The code itself *******/

  /** `max(e["id"] for e in rows)`; the rows come in id order, so it is the last one's. */
  method MaxId(rows: seq<Event>) returns (id: int)
    requires rows != [] && Ascending(rows)
    ensures id == LastId(rows)
  {
    id := rows[0].id;
    for i := 1 to |rows|
      invariant id == rows[i - 1].id
    {
      if rows[i].id > id {
        id := rows[i].id;
      }
    }
  }

  method KeepBeyond(events: seq<Event>, id: int) returns (kept: seq<Event>)
    ensures kept == Beyond(events, id)
  {
    kept := [];
    for i := 0 to |events|
      invariant kept == Beyond(events[..i], id)
    {
      assert events[..i + 1][..i] == events[..i];
      if events[i].id > id {
        kept := kept + [events[i]];
      }
    }
    assert events[..|events|] == events;
  }

  class EventPoller {
    var ledger: seq<Event>
    var cursor: int
    var buffer: seq<Event>
    var lastProfileId: int
    var lastNgramId: int
    ghost var start: int
    ghost var taken: seq<Event>
    ghost var profiled: seq<Event>
    ghost var modelled: seq<Event>

    ghost function Abs(): State
      reads this
    {
      State(ledger, cursor, buffer, lastProfileId, lastNgramId, start, taken, profiled, modelled)
    }

    constructor (ledger: seq<Event>, cursor: nat)
      ensures Abs() == Started(ledger, cursor)
    {
      this.ledger, this.cursor, this.buffer, this.lastProfileId, this.lastNgramId := ledger, cursor, [], 0, 0;
      start, taken, profiled, modelled := cursor, [], [], [];
    }

    /** `SignalEngine._process_events_inner`, failing after as much as `outcome` says. */
    method ProcessEvents(outcome: EngineOutcome)
      modifies this`lastProfileId, this`lastNgramId, this`profiled, this`modelled
      ensures Abs() == EngineStep(old(Abs()), outcome)
    {
      if outcome.NotRun? {
        return;
      }
      var forProfile := KeepBeyond(buffer, lastProfileId);
      if outcome.PartOfProfile? {
        profiled := profiled + Take(forProfile, outcome.events);
        return;
      }
      if forProfile != [] {
        profiled := profiled + forProfile;
        lastProfileId := forProfile[|forProfile| - 1].id;
      }
      if outcome.ProfileOnly? {
        return;
      }
      var forModel := KeepBeyond(buffer, lastNgramId);
      if forModel != [] {
        modelled := modelled + forModel;
        lastNgramId := forModel[|forModel| - 1].id;
      }
    }

    method PollOnce(env: PollEnv)
      requires Ascending(ledger)
      modifies this`cursor, this`buffer, this`taken, this`lastProfileId, this`lastNgramId, this`profiled, this`modelled
      ensures Abs() == Next(old(Abs()), Poll(env))
    {
      var rows := Fetch(ledger, cursor);
      if rows == [] || env.fault.BeforeBuffering? {
        return;
      }
      AfterAscending(ledger, cursor);
      var maxId := MaxId(rows);
      var unseen := KeepBeyond(rows, LastId(buffer));
      buffer := LastOnes(buffer + unseen, BUFFER_SIZE);
      taken := taken + unseen;
      if env.fault.BeforeEngine? {
        return;
      }
      ProcessEvents(env.engine);
      if MovesCursor(env) {
        cursor := maxId;
      }
    }
  }
}
