/**
 The life of one recommendation kind: retrain, hot reload, flip to `classic`,
 rollback, post-flip evaluation, demotion and restart, acting on the persisted
 model pair (artifact + manifest) and on the in-memory dispatch entry.

 Every manifest read and write and every registry resolution may fail: the outcome
 of each is a field of the step's environment. SHA-256 is modelled as an injective
 constructor.
 */
module AdviceLifecycle {
  import opened Options

  /******* Persisted and in-memory state *******/

  type Bytes = seq<nat>
  datatype Digest = Sha256(of: Bytes)

  datatype Backend = Heuristic | Classic | Other(name: string)
  datatype Number = Int(n: int) | Text(s: string)
  type Recorded = map<string, Number>

  /**
   A manifest's `metrics`: the keys that decide or describe serving, and every
   number and verdict that is only recorded.
   */
  datatype Metrics = Metrics(
    backend: Option<Backend>, rung: Option<string>,
    flippedAt: Option<int>, flippedGeneration: Option<nat>,
    demotedGeneration: Option<nat>, demotedAt: Option<int>,
    recorded: Recorded)

  const NO_METRICS := Metrics(None, None, None, None, None, None, map[])
  const RUNG_SHADOW := "R2"
  const RUNG_LIVE := "R3"
  const FLIPBACK_VERDICT := "flipback_verdict"
  const VERDICT_REASON := "verdict_reason"

  datatype Manifest = Manifest(version: nat, sha: Digest, metrics: Metrics)

  /** The local slot: `<kind>.joblib` and `<kind>.json`. */
  datatype Disk = Disk(artifact: Option<Bytes>, manifest: Option<Manifest>)

  /** One kind's dispatch entry: which generation of which model answers, if any. */
  datatype Entry = NotServed | Shadow(generation: nat, model: Bytes) | Serving(generation: nat, model: Bytes)

  /** `demoted` is history: every generation a demotion was ever applied to. */
  datatype State = State(disk: Disk, entry: Entry, demoted: set<nat>)

  predicate SaysClassic(d: Disk) {
    d.manifest.Some? && d.manifest.value.metrics.backend == Some(Classic)
  }

  predicate PairMatches(d: Disk) {
    d.manifest.Some? && d.artifact.Some? && d.manifest.value.sha == Sha256(d.artifact.value)
  }

  /** A manifest that is present describes the artifact beside it. */
  predicate PairOk(d: Disk) {
    d.manifest.Some? ==> PairMatches(d)
  }

  /******* Retraining: the write window *******/

  datatype WriteFault = NoFault | UnlinkFails | ArtifactFails | ManifestFails

  /**
   How a retrain fares: whether its two reads of the previous manifest succeed, the one for
   the keys it carries forward and the one for the number, and how its writes end.
   */
  datatype TrainEnv = TrainEnv(
    carries: bool, numbers: bool, fault: WriteFault, restoresArtifact: bool, restoresManifest: bool)

  /** The slot after each action of the write window, the restoring actions included. */
  function WindowTrace(d: Disk, payload: Bytes, m: Manifest, env: TrainEnv): (trace: seq<Disk>)
    ensures |trace| >= 3
  {
    var cleared := d.(manifest := None);
    var written := Disk(Some(payload), None);
    match env.fault
    case NoFault => [d, cleared, written, Disk(Some(payload), Some(m))]
    case UnlinkFails => [d, d, d]
    case ArtifactFails => [d, cleared, cleared, if env.restoresManifest then d else cleared]
    case ManifestFails =>
      var restored := if env.restoresArtifact then cleared else written;
      [d, cleared, written, restored, if env.restoresManifest then restored.(manifest := d.manifest) else restored]
  }

  function Last<T>(s: seq<T>): T
    requires s != []
  {
    s[|s| - 1]
  }

  /** What a read of the manifest yields: an unreadable one is as good as none. */
  function ReadManifest(d: Disk, readable: bool): Option<Manifest> {
    if readable then d.manifest else None
  }

  /** The serving keys a retrain carries forward from the manifest it read. */
  function CarriedForward(prior: Option<Manifest>): Metrics {
    if prior.None? then NO_METRICS else
    var m := prior.value.metrics;
    m.(rung := None,
       recorded := if FLIPBACK_VERDICT in m.recorded then map[FLIPBACK_VERDICT := m.recorded[FLIPBACK_VERDICT]] else map[])
  }

  /** The manifest a retrain writes: the number after `previous`'s, the serving keys of `prior` carried forward. */
  function NextManifest(prior: Option<Manifest>, previous: Option<Manifest>, payload: Bytes, fit: Recorded): Manifest {
    var version := if previous.Some? then previous.value.version + 1 else 1;
    var carried := CarriedForward(prior);
    var rung := if carried.backend == Some(Classic) then RUNG_LIVE else RUNG_SHADOW;
    Manifest(version, Sha256(payload), carried.(rung := Some(rung), recorded := carried.recorded + fit))
  }

  function TrainTrace(d: Disk, payload: Bytes, fit: Recorded, env: TrainEnv): (trace: seq<Disk>)
    ensures trace != []
  {
    WindowTrace(d, payload, NextManifest(ReadManifest(d, env.carries), ReadManifest(d, env.numbers), payload, fit), env)
  }

  /******* Manifest updates, reload, flip, demotion *******/

  /** What an update does to one key: the merge either sets it, removes it or lets it survive. */
  datatype Change<T> = Keep | Set(value: T) | Remove {
    function On(previous: Option<T>): Option<T> {
      match this
      case Keep => previous
      case Set(v) => Some(v)
      case Remove => None
    }
  }

  /** The change that puts a key back to what it was: absent if it was absent. */
  function Restore<T>(previous: Option<T>): Change<T> {
    if previous.Some? then Set(previous.value) else Remove
  }

  datatype Update = Update(
    backend: Change<Backend>, rung: Change<string>,
    flippedAt: Change<int>, flippedGeneration: Change<nat>,
    demotedGeneration: Change<nat>, demotedAt: Change<int>,
    recorded: Recorded)

  function RecordOnly(recorded: Recorded): Update {
    Update(Keep, Keep, Keep, Keep, Keep, Keep, recorded)
  }

  function Merged(m: Metrics, u: Update): Metrics {
    Metrics(u.backend.On(m.backend), u.rung.On(m.rung),
            u.flippedAt.On(m.flippedAt), u.flippedGeneration.On(m.flippedGeneration),
            u.demotedGeneration.On(m.demotedGeneration), u.demotedAt.On(m.demotedAt),
            m.recorded + u.recorded)
  }

  /** `update_manifest_metrics`; `writes` says whether the manifest could be read once more and written. */
  function Updated(d: Disk, u: Update, expected: Option<nat>, writes: bool): (Disk, bool) {
    if d.manifest.None? || (expected.Some? && d.manifest.value.version != expected.value) || !writes then
      (d, false)
    else
      var m := d.manifest.value;
      (d.(manifest := Some(m.(metrics := Merged(m.metrics, u)))), true)
  }

  /** `_entry_for`: the entry the slot yields when the registry `accepts` the pair. */
  function EntryFor(d: Disk, accepts: bool): Entry {
    if accepts && PairMatches(d) then
      var m := d.manifest.value;
      match m.metrics.backend
      case Some(Classic) => Serving(m.version, d.artifact.value)
      case Some(Other(_)) => NotServed
      case _ => Shadow(m.version, d.artifact.value)
    else NotServed
  }

  function Reloaded(s: State, expected: Option<nat>, accepts: bool): (State, bool) {
    var e := EntryFor(s.disk, accepts);
    if e.NotServed? || (expected.Some? && e.generation != expected.value) then (s, false)
    else (s.(entry := e), true)
  }

  datatype Graduation = Graduation(generation: Option<nat>, eligible: bool, promoted: bool, recorded: Recorded)
  datatype FlipEnv = FlipEnv(now: int, writes: bool, accepts: bool, rollsBack: bool)

  /** The flip's write: serving keys set, the demotion marker cleared. */
  function FlipUpdate(generation: nat, now: int, recorded: Recorded): Update {
    Update(Set(Classic), Set(RUNG_LIVE), Set(now), Set(generation), Remove, Remove, recorded)
  }

  const ROLLED_BACK: Recorded := map[VERDICT_REASON := Text("flip rolled back")]

  function RollbackUpdate(previous: Metrics): Update {
    Update(Restore(previous.backend), Restore(previous.rung),
           Restore(previous.flippedAt), Restore(previous.flippedGeneration),
           Restore(previous.demotedGeneration), Restore(previous.demotedAt), ROLLED_BACK)
  }

  /** Every check `apply_flip` makes before it writes. */
  predicate FlipAllowed(d: Disk, result: Graduation) {
    && result.eligible && result.generation.Some? && !result.promoted
    && d.manifest.Some? && d.manifest.value.version == result.generation.value
    && d.manifest.value.metrics.demotedGeneration != result.generation
  }

  function Flipped(s: State, result: Graduation, env: FlipEnv): (State, bool) {
    if !FlipAllowed(s.disk, result) then (s, false) else
    var g := result.generation.value;
    var (disk1, written) := Updated(s.disk, FlipUpdate(g, env.now, result.recorded), Some(g), env.writes);
    if !written then (s, false) else
    var (s2, reloaded) := Reloaded(s.(disk := disk1), Some(g), env.accepts);
    if reloaded && s2.entry.Serving? then (s2, true) else
    var (disk3, _) := Updated(s2.disk, RollbackUpdate(s.disk.manifest.value.metrics), None, env.rollsBack);
    (s2.(disk := disk3), false)
  }

  datatype FlipbackFinding = EvaluationFailed | Holds | Demote
  datatype EvalEnv = EvalEnv(finding: FlipbackFinding, recorded: Recorded, now: int, writes: bool, accepts: bool)

  /** The demotion's write: heuristic again, the generation marked, the flip forgotten. */
  function DemotionUpdate(generation: nat, now: int, recorded: Recorded): Update {
    Update(Set(Heuristic), Set(RUNG_SHADOW), Remove, Remove, Set(generation), Set(now), recorded)
  }

  /** `apply_demotion` for the generation evaluated. */
  function Demoted(s: State, generation: nat, env: EvalEnv): State {
    var (disk1, written) :=
      Updated(s.disk, DemotionUpdate(generation, env.now, env.recorded), Some(generation), env.writes);
    if !written then s else
    var (s2, reloaded) := Reloaded(s.(disk := disk1), Some(generation), env.accepts);
    s2.(entry := if reloaded && !s2.entry.Serving? then s2.entry else NotServed,
        demoted := s.demoted + {generation})
  }

  /** `evaluate_flipped_kind`: only a manifest that says classic is evaluated. */
  function Evaluated(s: State, env: EvalEnv): State {
    if !SaysClassic(s.disk) then s else
    var version := s.disk.manifest.value.version;
    match env.finding
    case Demote => Demoted(s, version, env)
    case Holds => s.(disk := Updated(s.disk, RecordOnly(env.recorded), Some(version), env.writes).0)
    case EvaluationFailed => s.(disk := Updated(s.disk, RecordOnly(env.recorded), None, env.writes).0)
  }

  datatype GraduationFinding = CheckFailed | Checked(eligible: bool)
  datatype RetrainEnv = RetrainEnv(
    reloadAccepts: bool, finding: GraduationFinding, recorded: Recorded, flipEnabled: bool, flip: FlipEnv,
    verdictWrites: bool, eval: EvalEnv)

  /** `graduation_check`, as far as it depends on the manifest. */
  function GraduationOf(d: Disk, env: RetrainEnv): Graduation {
    if env.finding.CheckFailed? || d.manifest.None? then Graduation(None, false, false, env.recorded)
    else Graduation(Some(d.manifest.value.version), env.finding.eligible, SaysClassic(d), env.recorded)
  }

  /** `after_retrain`: hot reload, graduation verdict, then flip-back or flip. */
  function Settled(s: State, generation: nat, env: RetrainEnv): State {
    var s1 := Reloaded(s, Some(generation), env.reloadAccepts).0;
    var result := GraduationOf(s1.disk, env);
    if result.promoted then
      var disk2 := Updated(s1.disk, RecordOnly(result.recorded), Some(generation), env.verdictWrites).0;
      Evaluated(s1.(disk := disk2), env.eval)
    else
      var (s2, flipped) := if env.flipEnabled && result.eligible then Flipped(s1, result, env.flip) else (s1, false);
      if flipped then s2
      else s2.(disk := Updated(s2.disk, RecordOnly(result.recorded), Some(generation), env.verdictWrites).0)
  }

  /******* Steps and runs *******/

  datatype Step =
    | Train(payload: Bytes, fit: Recorded, io: TrainEnv)
    | Crash(payload: Bytes, fit: Recorded, io: TrainEnv, after: nat, accepts: bool)
    | AfterRetrain(generation: nat, env: RetrainEnv)
    | Evaluate(eval: EvalEnv)
    | Reload(expected: Option<nat>, accepts: bool)
    | Restart(accepts: bool)

  /** The slot a process that died after `after` actions of the window leaves. */
  function CrashedDisk(d: Disk, payload: Bytes, fit: Recorded, io: TrainEnv, after: nat): Disk {
    var trace := TrainTrace(d, payload, fit, io);
    if after < |trace| then trace[after] else Last(trace)
  }

  function Next(s: State, step: Step): State {
    match step
    case Train(payload, fit, io) => s.(disk := Last(TrainTrace(s.disk, payload, fit, io)))
    case Crash(payload, fit, io, after, accepts) =>
      var disk := CrashedDisk(s.disk, payload, fit, io, after);
      State(disk, EntryFor(disk, accepts), s.demoted)
    case AfterRetrain(generation, env) => Settled(s, generation, env)
    case Evaluate(env) => Evaluated(s, env)
    case Reload(expected, accepts) => Reloaded(s, expected, accepts).0
    case Restart(accepts) => s.(entry := EntryFor(s.disk, accepts))
  }

  function Run(s: State, steps: seq<Step>): State
    decreases |steps|
  {
    if steps == [] then s else Run(Next(s, steps[0]), steps[1..])
  }

  /******* The serving invariant *******/

  /** What keeps generation `g` out of service: a manifest past it, or one of it that is marked and not classic. */
  predicate Bars(d: Disk, g: nat) {
    && d.manifest.Some? && g <= d.manifest.value.version
    && (d.manifest.value.version == g ==> !SaysClassic(d) && d.manifest.value.metrics.demotedGeneration == Some(g))
  }

  predicate ServesNow(s: State, g: nat) {
    s.entry.Serving? && s.entry.generation == g
  }

  predicate KeptOut(s: State, g: nat) {
    g >= 1 && Bars(s.disk, g) && !ServesNow(s, g)
  }

  /** Generations are numbered from 1, and a manifest that says classic carries no demotion marker. */
  predicate WellNumbered(d: Disk) {
    d.manifest.Some? ==>
      d.manifest.value.version >= 1 && (SaysClassic(d) ==> d.manifest.value.metrics.demotedGeneration.None?)
  }

  /** Every generation ever demoted is kept out of service. */
  ghost predicate Inv(s: State) {
    WellNumbered(s.disk) && forall g <- s.demoted :: KeptOut(s, g)
  }

  /** What is served is what the manifest declares classic, or an earlier generation of it. */
  predicate Declared(s: State) {
    s.entry.Serving? ==> SaysClassic(s.disk) && s.entry.generation <= s.disk.manifest.value.version
  }

  /** A write window that removes the manifest and does not put it back. */
  predicate DropsManifest(s: State, step: Step) {
    match step
    case Train(_, _, io) =>
      (io.fault.ArtifactFails? || io.fault.ManifestFails?) && !io.restoresManifest && s.disk.manifest.Some?
    case Crash(payload, fit, io, after, _) =>
      CrashedDisk(s.disk, payload, fit, io, after).manifest.None? && s.disk.manifest.Some?
    case _ => false
  }

  /** A retrain that writes its pair without having read the number of the manifest it replaces. */
  predicate Renumbers(s: State, step: Step) {
    match step
    case Train(_, _, io) => io.fault.NoFault? && !io.numbers && s.disk.manifest.Some?
    case Crash(_, _, io, after, _) => io.fault.NoFault? && after >= 3 && !io.numbers && s.disk.manifest.Some?
    case _ => false
  }

  /** The marker of generation 1 is read, and so carried to the manifest that is numbered 1 again. */
  predicate CarriesMark(s: State, step: Step, g: nat) {
    && g == 1 && (step.Train? || step.Crash?) && step.io.carries
    && s.disk.manifest.Some? && !SaysClassic(s.disk) && s.disk.manifest.value.metrics.demotedGeneration == Some(1)
  }

  /** The ways to lose what keeps `g` out: dropping the manifest, or numbering from 1 again without g's mark. */
  predicate Forgets(s: State, step: Step, g: nat) {
    DropsManifest(s, step) || (Renumbers(s, step) && !CarriesMark(s, step, g))
  }

  /** Exactly which steps end the keeping out of one generation. */
  lemma KeptOutExactly(s: State, step: Step, g: nat)
    requires WellNumbered(s.disk) && KeptOut(s, g)
    ensures KeptOut(Next(s, step), g) <==> !Forgets(s, step, g)
  {
    match step
    case Train(_, _, _) =>
    case Crash(payload, fit, io, after, accepts) => CrashKeepsOut(s, payload, fit, io, after, accepts, g);
    case AfterRetrain(generation, env) => SettledKeepsOut(s, generation, env, g);
    case Evaluate(env) => EvaluatedKeepsOut(s, env, g);
    case Reload(_, _) =>
    case Restart(_) =>
  }

  lemma CrashKeepsOut(s: State, payload: Bytes, fit: Recorded, io: TrainEnv, after: nat, accepts: bool, g: nat)
    requires KeptOut(s, g)
    ensures KeptOut(Next(s, Crash(payload, fit, io, after, accepts)), g) <==> !Forgets(s, Crash(payload, fit, io, after, accepts), g)
  {
    var disk := CrashedDisk(s.disk, payload, fit, io, after);
    assert Bars(disk, g) ==> EntryFor(disk, accepts) != Serving(g, if disk.artifact.Some? then disk.artifact.value else []);
    assert Bars(disk, g) <==> !Forgets(s, Crash(payload, fit, io, after, accepts), g);
  }

  lemma FlippedKeepsOut(s: State, result: Graduation, env: FlipEnv, g: nat)
    requires KeptOut(s, g)
    ensures KeptOut(Flipped(s, result, env).0, g)
  {
  }

  lemma EvaluatedKeepsOut(s: State, env: EvalEnv, g: nat)
    requires KeptOut(s, g)
    ensures KeptOut(Evaluated(s, env), g)
  {
  }

  lemma RecordingKeepsOut(s: State, recorded: Recorded, expected: Option<nat>, writes: bool, g: nat)
    requires KeptOut(s, g)
    ensures KeptOut(s.(disk := Updated(s.disk, RecordOnly(recorded), expected, writes).0), g)
  {
  }

  lemma SettledKeepsOut(s: State, generation: nat, env: RetrainEnv, g: nat)
    requires KeptOut(s, g)
    ensures KeptOut(Settled(s, generation, env), g)
  {
    var s1 := Reloaded(s, Some(generation), env.reloadAccepts).0;
    var result := GraduationOf(s1.disk, env);
    RecordingKeepsOut(s1, result.recorded, Some(generation), env.verdictWrites, g);
    if result.promoted {
      EvaluatedKeepsOut(s1.(disk := Updated(s1.disk, RecordOnly(result.recorded), Some(generation), env.verdictWrites).0), env.eval, g);
    } else {
      FlippedKeepsOut(s1, result, env.flip, g);
      RecordingKeepsOut(Flipped(s1, result, env.flip).0, result.recorded, Some(generation), env.verdictWrites, g);
    }
  }

  /** Some generation demoted so far is no longer kept out. */
  ghost predicate ForgetsDemoted(s: State, step: Step) {
    exists g <- s.demoted :: Forgets(s, step, g)
  }

  /** Exactly which steps break the invariant. */
  lemma InvPreservedExactly(s: State, step: Step)
    requires Inv(s)
    ensures Inv(Next(s, step)) <==> !ForgetsDemoted(s, step)
  {
    StepsStayNumbered(s, step);
    DemotedGrows(s, step);
    forall g <- s.demoted ensures KeptOut(Next(s, step), g) <==> !Forgets(s, step, g) {
      KeptOutExactly(s, step, g);
    }
    forall g | g in Next(s, step).demoted && g !in s.demoted ensures KeptOut(Next(s, step), g) {
      NewlyDemotedIsKeptOut(s, step, g);
    }
  }

  lemma NewlyDemotedIsKeptOut(s: State, step: Step, g: nat)
    requires WellNumbered(s.disk) && g in Next(s, step).demoted && g !in s.demoted
    ensures KeptOut(Next(s, step), g)
  {
    if step.AfterRetrain? {
      SettledDemotes(s, step.generation, step.env, g);
    }
  }

  lemma SettledDemotes(s: State, generation: nat, env: RetrainEnv, g: nat)
    requires WellNumbered(s.disk) && g in Settled(s, generation, env).demoted && g !in s.demoted
    ensures KeptOut(Settled(s, generation, env), g)
  {
  }

  lemma StepsStayNumbered(s: State, step: Step)
    requires WellNumbered(s.disk)
    ensures WellNumbered(Next(s, step).disk)
  {
    match step
    case AfterRetrain(generation, env) => SettledStaysNumbered(s, generation, env);
    case _ =>
  }

  lemma RecordingStaysNumbered(d: Disk, recorded: Recorded, expected: Option<nat>, writes: bool)
    requires WellNumbered(d)
    ensures WellNumbered(Updated(d, RecordOnly(recorded), expected, writes).0)
  {
  }

  lemma FlippedStaysNumbered(s: State, result: Graduation, env: FlipEnv)
    requires WellNumbered(s.disk)
    ensures WellNumbered(Flipped(s, result, env).0.disk)
  {
  }

  lemma EvaluatedStaysNumbered(s: State, env: EvalEnv)
    requires WellNumbered(s.disk)
    ensures WellNumbered(Evaluated(s, env).disk)
  {
  }

  lemma SettledStaysNumbered(s: State, generation: nat, env: RetrainEnv)
    requires WellNumbered(s.disk)
    ensures WellNumbered(Settled(s, generation, env).disk)
  {
    var s1 := Reloaded(s, Some(generation), env.reloadAccepts).0;
    var result := GraduationOf(s1.disk, env);
    RecordingStaysNumbered(s1.disk, result.recorded, Some(generation), env.verdictWrites);
    if result.promoted {
      EvaluatedStaysNumbered(s1.(disk := Updated(s1.disk, RecordOnly(result.recorded), Some(generation), env.verdictWrites).0), env.eval);
    } else {
      FlippedStaysNumbered(s1, result, env.flip);
      RecordingStaysNumbered(Flipped(s1, result, env.flip).0.disk, result.recorded, Some(generation), env.verdictWrites);
    }
  }

  /** A retrain of a served kind that drops the manifest, or writes one that no longer declares what is served. */
  predicate Undeclares(s: State, step: Step) {
    && step.Train? && s.entry.Serving?
    && (DropsManifest(s, step)
        || (step.io.fault.NoFault? && (!step.io.carries || (!step.io.numbers && s.entry.generation > 1))))
  }

  /** What is served stays declared exactly unless a retrain drops or misreads the manifest under it. */
  lemma DeclaredExactly(s: State, step: Step)
    requires WellNumbered(s.disk) && Declared(s)
    ensures Declared(Next(s, step)) <==> !Undeclares(s, step)
  {
    match step
    case AfterRetrain(generation, env) => SettledKeepsDeclared(s, generation, env);
    case _ =>
  }

  lemma SettledKeepsDeclared(s: State, generation: nat, env: RetrainEnv)
    requires Declared(s)
    ensures Declared(Settled(s, generation, env))
  {
    var s1 := Reloaded(s, Some(generation), env.reloadAccepts).0;
    var result := GraduationOf(s1.disk, env);
    assert Declared(s1);
    if result.promoted {
      var s2 := s1.(disk := Updated(s1.disk, RecordOnly(result.recorded), Some(generation), env.verdictWrites).0);
      assert Declared(s2) && Declared(Evaluated(s2, env.eval));
    } else {
      assert Declared(Flipped(s1, result, env.flip).0);
    }
  }

  /** No step of the run forgets a generation demoted before it. */
  ghost predicate Lossless(s: State, steps: seq<Step>)
    decreases |steps|
  {
    steps == [] || (!ForgetsDemoted(s, steps[0]) && Lossless(Next(s, steps[0]), steps[1..]))
  }

  lemma {:induction false} RunKeepsInv(s: State, steps: seq<Step>)
    requires Inv(s) && Lossless(s, steps)
    ensures Inv(Run(s, steps))
    ensures s.demoted <= Run(s, steps).demoted
    decreases |steps|
  {
    if steps != [] {
      InvPreservedExactly(s, steps[0]);
      DemotedGrows(s, steps[0]);
      RunKeepsInv(Next(s, steps[0]), steps[1..]);
    }
  }

  lemma DemotedGrows(s: State, step: Step)
    ensures s.demoted <= Next(s, step).demoted
  {
  }

  /** No step of the run forgets `g`. */
  predicate Remembers(s: State, steps: seq<Step>, g: nat)
    decreases |steps|
  {
    steps == [] || (!Forgets(s, steps[0], g) && Remembers(Next(s, steps[0]), steps[1..], g))
  }

  lemma {:induction false} RunKeepsOut(s: State, steps: seq<Step>, g: nat)
    requires WellNumbered(s.disk) && KeptOut(s, g) && Remembers(s, steps, g)
    ensures KeptOut(Run(s, steps), g)
    decreases |steps|
  {
    if steps != [] {
      KeptOutExactly(s, steps[0], g);
      StepsStayNumbered(s, steps[0]);
      RunKeepsOut(Next(s, steps[0]), steps[1..], g);
    }
  }

  /**
   Safety over whole runs: a generation demoted in the first part of a run is not served
   at the end of any continuation that does not forget it, whatever later flips did to the
   marker and whatever happens to other generations. A manifest may be lost or misread as
   long as nothing was demoted.
   */
  lemma DemotedNeverServedAgain(s: State, before: seq<Step>, after: seq<Step>, g: nat)
    requires Inv(s) && Lossless(s, before) && g in Run(s, before).demoted && Remembers(Run(s, before), after, g)
    ensures !ServesNow(Run(Run(s, before), after), g)
  {
    RunKeepsInv(s, before);
    RunKeepsOut(Run(s, before), after, g);
  }

  /** No retrain of the run undeclares what is served. */
  ghost predicate NeverUndeclared(s: State, steps: seq<Step>)
    decreases |steps|
  {
    steps == [] || (!Undeclares(s, steps[0]) && NeverUndeclared(Next(s, steps[0]), steps[1..]))
  }

  /** At every step of such a run what is served is what the manifest declares classic. */
  lemma {:induction false} RunKeepsDeclared(s: State, steps: seq<Step>)
    requires WellNumbered(s.disk) && Declared(s) && NeverUndeclared(s, steps)
    ensures Declared(Run(s, steps))
    decreases |steps|
  {
    if steps != [] {
      StepsStayNumbered(s, steps[0]);
      DeclaredExactly(s, steps[0]);
      RunKeepsDeclared(Next(s, steps[0]), steps[1..]);
    }
  }

  const FRESH_INSTALL := State(Disk(None, None), NotServed, {})

  /** A retrain that reads and writes everything, and one whose manifest is lost. */
  function CleanTrain(payload: Bytes): Step {
    Train(payload, map[], TrainEnv(true, true, NoFault, true, true))
  }

  function LosingTrain(payload: Bytes): Step {
    Train(payload, map[], TrainEnv(true, true, ManifestFails, true, false))
  }

  /** One whose writes all succeed, but which could not read the manifest it replaces. */
  function UnreadTrain(payload: Bytes): Step {
    Train(payload, map[], TrainEnv(false, false, NoFault, true, true))
  }

  /** An eligible verdict, every write and reload succeeding. */
  function CleanFlip(generation: nat): Step {
    AfterRetrain(generation, RetrainEnv(true, Checked(true), map[], true, FlipEnv(0, true, true, true), true,
                                        EvalEnv(Holds, map[], 0, true, true)))
  }

  function CleanDemotion(): Step {
    Evaluate(EvalEnv(Demote, map[], 0, true, true))
  }

  /**
   When a failed retrain cannot put the manifest back, the generation counter
   starts again at 1, and the number that was demoted is flipped and served again.
   */
  lemma LostManifestServesDemotedAgain()
    ensures var end := Run(FRESH_INSTALL, [CleanTrain([1]), CleanFlip(1), CleanDemotion(), LosingTrain([2]),
                                           CleanTrain([3]), CleanFlip(1)]);
            Inv(FRESH_INSTALL) && 1 in end.demoted && end.entry == Serving(1, [3])
  {
    var steps := [CleanTrain([1]), CleanFlip(1), CleanDemotion(), LosingTrain([2]), CleanTrain([3]), CleanFlip(1)];
    FirstFlip(FRESH_INSTALL, [1]);
    var c := Next(Next(Next(FRESH_INSTALL, steps[0]), steps[1]), steps[2]);
    assert 1 in c.demoted && c.disk.manifest.Some?;
    var d := Next(c, steps[3]);
    assert d.disk.manifest.None? && d.demoted == c.demoted;
    FirstFlip(d, [3]);
    RunThree(FRESH_INSTALL, steps);
    RunThree(c, steps[3..]);
    assert steps[3..][3..] == [];
  }

  lemma FirstFlip(s: State, payload: Bytes)
    requires s.disk.manifest.None?
    ensures var f := Next(Next(s, CleanTrain(payload)), CleanFlip(1));
            && f.entry == Serving(1, payload) && SaysClassic(f.disk) && f.disk.manifest.value.version == 1
            && f.demoted == s.demoted
  {
  }

  lemma RunThree(s: State, steps: seq<Step>)
    requires |steps| >= 3
    ensures Run(s, steps) == Run(Next(Next(Next(s, steps[0]), steps[1]), steps[2]), steps[3..])
  {
    var s1 := Next(s, steps[0]);
    var s2 := Next(s1, steps[1]);
    assert steps[1..][1..] == steps[2..] && Run(s1, steps[1..]) == Run(s2, steps[2..]);
    assert steps[2..][1..] == steps[3..] && Run(s2, steps[2..]) == Run(Next(s2, steps[2]), steps[3..]);
  }

  /** With no write failing at all: a retrain that could not read the manifest numbers its model 1, and a demoted 1 is served. */
  lemma UnreadManifestServesDemotedAgain(s: State, payload: Bytes)
    requires Inv(s) && 1 in s.demoted
    ensures var end := Run(s, [UnreadTrain(payload), CleanFlip(1)]);
            1 in end.demoted && end.entry == Serving(1, payload)
  {
    var s1 := Next(s, UnreadTrain(payload));
    assert s1.disk.manifest.value.metrics.backend.None?;
    CleanFlipServes(s1, 1);
    assert [UnreadTrain(payload), CleanFlip(1)][1..] == [CleanFlip(1)];
    RunOne(s1, CleanFlip(1));
    DemotedGrows(s, UnreadTrain(payload));
    DemotedGrows(s1, CleanFlip(1));
  }

  /******* Every loss is fatal *******/

  lemma {:induction false} RunConcat(s: State, a: seq<Step>, b: seq<Step>)
    ensures Run(s, a + b) == Run(Run(s, a), b)
    decreases |a|
  {
    if a == [] {
      assert a + b == b;
    } else {
      assert (a + b)[1..] == a[1..] + b;
      RunConcat(Next(s, a[0]), a[1..], b);
    }
  }

  lemma RunOne(s: State, step: Step)
    ensures Run(s, [step]) == Next(s, step)
  {
    assert [step][1..] == [];
  }

  lemma CleanFlipServes(s: State, g: nat)
    requires PairMatches(s.disk) && s.disk.manifest.value.version == g && !SaysClassic(s.disk)
    requires s.disk.manifest.value.metrics.demotedGeneration != Some(g)
    ensures var after := Next(s, CleanFlip(g));
            && after.entry == Serving(g, s.disk.artifact.value) && SaysClassic(after.disk) && PairMatches(after.disk)
            && after.disk.manifest.value.version == g && after.disk.artifact == s.disk.artifact
  {
  }

  /** Steps that write what they mean to. */
  predicate Clean(step: Step) {
    match step
    case Train(_, _, io) => io.carries && io.numbers && io.fault.NoFault?
    case Crash(_, _, _, _, _) => false
    case _ => true
  }

  lemma {:induction false} CleanRemembers(s: State, steps: seq<Step>, g: nat)
    requires forall step <- steps :: Clean(step)
    ensures Remembers(s, steps, g)
    decreases |steps|
  {
    if steps != [] {
      assert Clean(steps[0]);
      CleanRemembers(Next(s, steps[0]), steps[1..], g);
    }
  }

  /** A matching pair at or below `g` that does not bar it. */
  predicate Reaches(d: Disk, g: nat) {
    && PairMatches(d) && d.manifest.value.version <= g
    && (d.manifest.value.version == g ==> SaysClassic(d) || d.manifest.value.metrics.demotedGeneration != Some(g))
  }

  /** Two steps nearer `g`: flip what carries g's mark, so that the mark goes, and retrain. */
  lemma Nearer(s: State, g: nat) returns (steps: seq<Step>)
    requires Reaches(s.disk, g) && s.disk.manifest.value.version < g
    ensures Reaches(Run(s, steps).disk, g) && Run(s, steps).disk.manifest.value.version == s.disk.manifest.value.version + 1
    ensures forall step <- steps :: Clean(step)
  {
    var m := s.disk.manifest.value;
    RunOne(s, CleanTrain([]));
    if SaysClassic(s.disk) || m.metrics.demotedGeneration != Some(g) {
      steps := [CleanTrain([])];
    } else {
      CleanFlipServes(s, m.version);
      RunOne(s, CleanFlip(m.version));
      steps := [CleanFlip(m.version)] + [CleanTrain([])];
      RunConcat(s, [CleanFlip(m.version)], [CleanTrain([])]);
      RunOne(Next(s, CleanFlip(m.version)), CleanTrain([]));
    }
  }

  /** From a pair that does not bar it, any later number is trained to and served, every read and write succeeding. */
  lemma {:induction false} NumbersComeBack(s: State, g: nat) returns (steps: seq<Step>)
    requires Reaches(s.disk, g)
    ensures ServesNow(Run(s, steps), g)
    ensures forall step <- steps :: Clean(step)
    decreases g - s.disk.manifest.value.version
  {
    var version := s.disk.manifest.value.version;
    if version < g {
      var nearer := Nearer(s, g);
      var rest := NumbersComeBack(Run(s, nearer), g);
      steps := nearer + rest;
      RunConcat(s, nearer, rest);
    } else if SaysClassic(s.disk) {
      steps := [Reload(None, true)];
      RunOne(s, steps[0]);
    } else {
      steps := [CleanFlip(g)];
      CleanFlipServes(s, g);
      RunOne(s, steps[0]);
    }
  }

  /** ...and from a slot without a manifest. */
  lemma NumbersStartAgain(s: State, g: nat) returns (steps: seq<Step>)
    requires s.disk.manifest.None? && g >= 1
    ensures ServesNow(Run(s, steps), g)
    ensures forall step <- steps :: Clean(step)
  {
    RunOne(s, CleanTrain([]));
    var rest := NumbersComeBack(Next(s, CleanTrain([])), g);
    steps := [CleanTrain([])] + rest;
    RunConcat(s, [CleanTrain([])], rest);
  }

  /** Whatever follows without forgetting `g`, it is not served. */
  ghost predicate StaysOut(s: State, g: nat) {
    forall steps | Remembers(s, steps, g) :: !ServesNow(Run(s, steps), g)
  }

  /** What a step that forgets `g` leaves: no manifest, or a pair numbered 1 that does not bar it. */
  lemma ForgottenReaches(s: State, step: Step, g: nat)
    requires Forgets(s, step, g) && g >= 1
    ensures Next(s, step).disk.manifest.None? || Reaches(Next(s, step).disk, g)
  {
  }

  /**
   The exact condition, for each demoted generation: it stays out of service over every
   continuation that does not forget it exactly when the step does not forget it. After
   any step that does it can be served again, with every later read and write succeeding.
   */
  lemma DemotedStaysOutExactly(s: State, step: Step, g: nat)
    requires Inv(s) && g in s.demoted
    ensures StaysOut(Next(s, step), g) <==> !Forgets(s, step, g)
  {
    var after := Next(s, step);
    assert KeptOut(s, g);
    if !Forgets(s, step, g) {
      KeptOutExactly(s, step, g);
      StepsStayNumbered(s, step);
      forall steps | Remembers(after, steps, g) ensures !ServesNow(Run(after, steps), g) {
        RunKeepsOut(after, steps, g);
      }
    } else {
      ForgottenReaches(s, step, g);
      var steps;
      if after.disk.manifest.None? {
        steps := NumbersStartAgain(after, g);
      } else {
        steps := NumbersComeBack(after, g);
      }
      CleanRemembers(after, steps, g);
      assert ServesNow(Run(after, steps), g);
    }
  }

  /******* Manifest and table agree *******/

  /** The manifest never says classic about a kind the table does not serve. */
  predicate Agrees(s: State) {
    SaysClassic(s.disk) ==> s.entry.Serving?
  }

  /** The flip was written, could not be served, and its rollback failed too. */
  predicate FlipDiverges(s: State, step: Step) {
    && step.AfterRetrain? && step.env.flipEnabled
    && FlipAllowed(s.disk, GraduationOf(s.disk, step.env)) && step.env.flip.writes
    && !(step.env.flip.accepts && PairMatches(s.disk))
    && !step.env.flip.rollsBack
  }

  /** Without a restart, agreement is lost exactly by a diverging flip. */
  lemma AgreementLostExactly(s: State, step: Step)
    requires Inv(s) && Declared(s) && Agrees(s) && !step.Restart? && !step.Crash?
    ensures Agrees(Next(s, step)) <==> !FlipDiverges(s, step)
  {
    if step.AfterRetrain? {
      var s1 := Reloaded(s, Some(step.generation), step.env.reloadAccepts).0;
      FlipOutcome(s1, GraduationOf(s1.disk, step.env), step.env.flip);
    }
  }

  /** A flip written but refused by the registry, its rollback failing: classic in the manifest, not served. */
  lemma FailedRollbackDiverges()
    ensures var d := Disk(Some([1]), Some(Manifest(1, Sha256([1]), NO_METRICS)));
            var s := State(d, Shadow(1, [1]), {});
            var env := RetrainEnv(true, Checked(true), map[], true, FlipEnv(0, true, false, false), true,
                                  EvalEnv(EvaluationFailed, map[], 0, false, false));
            var after := Next(s, AfterRetrain(1, env));
            Inv(s) && Agrees(s) && SaysClassic(after.disk) && !after.entry.Serving?
  {
  }

  /** When a flip takes, when it diverges, and that it otherwise changes no serving state. */
  lemma FlipOutcome(s: State, result: Graduation, env: FlipEnv)
    ensures var (after, flipped) := Flipped(s, result, env);
            var reached := FlipAllowed(s.disk, result) && env.writes;
            && (flipped <==> reached && env.accepts && PairMatches(s.disk))
            && (flipped ==>
                  && after.entry == Serving(result.generation.value, s.disk.artifact.value) && SaysClassic(after.disk)
                  && after.disk.manifest.value.metrics.flippedGeneration == result.generation
                  && after.disk.manifest.value.metrics.flippedAt == Some(env.now)
                  && after.disk.manifest.value.metrics.demotedGeneration.None?)
            && (!flipped ==> after.entry == s.entry)
            && (!flipped ==> (SaysClassic(after.disk) <==> SaysClassic(s.disk) || (reached && !env.rollsBack)))
  {
  }

  /** A demotion that cannot be written changes nothing; one that is takes the kind out of service, marked, in table and manifest. */
  lemma DemotionOutcome(s: State, generation: nat, env: EvalEnv)
    ensures var after := Demoted(s, generation, env);
            if s.disk.manifest.Some? && s.disk.manifest.value.version == generation && env.writes then
              var metrics := after.disk.manifest.value.metrics;
              && !after.entry.Serving? && generation in after.demoted
              && !SaysClassic(after.disk) && metrics.demotedGeneration == Some(generation)
              && metrics.flippedAt.None? && metrics.flippedGeneration.None?
              && forall result: Graduation | result.generation == Some(generation) :: !FlipAllowed(after.disk, result)
            else after == s
  {
  }

  /** A rolled-back flip leaves every serving key as it was: only recorded numbers differ. */
  lemma RollbackRestoresServingKeys(s: State, result: Graduation, env: FlipEnv)
    requires FlipAllowed(s.disk, result) && env.writes && env.rollsBack && !Flipped(s, result, env).1
    ensures var previous := s.disk.manifest.value;
            var recorded := previous.metrics.recorded + result.recorded + ROLLED_BACK;
            Flipped(s, result, env).0 ==
            s.(disk := s.disk.(manifest := Some(previous.(metrics := previous.metrics.(recorded := recorded)))))
  {
  }

  /******* The model pair *******/

  /** The window puts the old manifest back beside bytes it does not describe. */
  predicate Mismatches(d: Disk, payload: Bytes, env: TrainEnv) {
    && env.fault.ManifestFails? && !env.restoresArtifact && env.restoresManifest
    && d.manifest.Some? && d.artifact != Some(payload)
  }

  /**
   At every point of the write window, and so at every point a crash can fall, a
   manifest that is present describes the artifact beside it: exactly unless the
   artifact could not be restored and the manifest then was.
   */
  lemma PairOkThroughoutExactly(d: Disk, payload: Bytes, fit: Recorded, env: TrainEnv)
    requires PairOk(d)
    ensures (forall i | 0 <= i < |TrainTrace(d, payload, fit, env)| :: PairOk(TrainTrace(d, payload, fit, env)[i]))
            <==> !Mismatches(d, payload, env)
  {
    var trace := TrainTrace(d, payload, fit, env);
    assert PairOk(trace[|trace| - 1]) <==> !Mismatches(d, payload, env);
  }

  /** A manifest write that fails, an artifact that cannot be restored, a manifest that can: the old manifest over new bytes. */
  lemma FailedRestoreMismatchesThePair()
    ensures var d := Disk(Some([1]), Some(Manifest(1, Sha256([1]), NO_METRICS)));
            PairOk(d) && !PairOk(Last(TrainTrace(d, [2], map[], TrainEnv(true, true, ManifestFails, false, true))))
  {
  }

  /**
   A retrain whose write failed and whose restores succeeded leaves the previous
   pair; one whose write succeeded leaves a matching pair of the next generation.
   */
  lemma TrainEndsWithAWholePair(d: Disk, payload: Bytes, fit: Recorded, env: TrainEnv)
    requires env.restoresArtifact && env.restoresManifest
    ensures var end := Last(TrainTrace(d, payload, fit, env));
            if env.fault.NoFault? then
              && PairMatches(end) && end.artifact == Some(payload)
              && (SaysClassic(end) <==> SaysClassic(d) && env.carries)
            else end == d
  {
  }

  /** The keys that decide or describe serving. */
  predicate SameServingKeys(m: Metrics, n: Metrics) {
    && m.backend == n.backend && m.flippedAt == n.flippedAt && m.flippedGeneration == n.flippedGeneration
    && m.demotedGeneration == n.demotedGeneration && m.demotedAt == n.demotedAt
  }

  /**
   A retrain never un-flips, un-demotes or goes back in number, exactly unless the read it
   takes the keys or the number from fails and there was a key or a number to lose.
   */
  lemma RetrainCarriesExactly(d: Disk, payload: Bytes, fit: Recorded, env: TrainEnv)
    requires d.manifest.Some? && env.fault.NoFault?
    ensures var end := Last(TrainTrace(d, payload, fit, env));
            && end.manifest.Some?
            && var was, now := d.manifest.value, end.manifest.value;
            && (SameServingKeys(now.metrics, was.metrics) <==> env.carries || SameServingKeys(NO_METRICS, was.metrics))
            && (now.version > was.version <==> env.numbers || was.version == 0)
            && (now.metrics.rung == Some(RUNG_LIVE) <==> SaysClassic(d) && env.carries)
  {
  }

  /******* The code itself, changing its state step by step *******/

  class AdviceKind {
    var artifact: Option<Bytes>
    var manifestFile: Option<Manifest>
    var entry: Entry
    ghost var demoted: set<nat>

    function OnDisk(): Disk
      reads this
    {
      Disk(artifact, manifestFile)
    }

    ghost function Abs(): State
      reads this
    {
      State(OnDisk(), entry, demoted)
    }

    constructor ()
      ensures Abs() == FRESH_INSTALL
    {
      artifact, manifestFile, entry, demoted := None, None, NotServed, {};
    }

    /** The write window of `_train_kind`; `trace` is the slot after each action. */
    method WriteWindow(payload: Bytes, manifest: Manifest, io: TrainEnv) returns (trained: bool, ghost trace: seq<Disk>)
      modifies this`artifact, this`manifestFile
      ensures trace == WindowTrace(old(OnDisk()), payload, manifest, io)
      ensures OnDisk() == Last(trace)
      ensures trained == io.fault.NoFault?
    {
      var previousArtifact, previousManifest := artifact, manifestFile;
      trace := [OnDisk()];
      if !io.fault.UnlinkFails? {
        manifestFile := None;
        trace := trace + [OnDisk()];
        if !io.fault.ArtifactFails? {
          artifact := Some(payload);
          trace := trace + [OnDisk()];
          if !io.fault.ManifestFails? {
            manifestFile := Some(manifest);
            trace := trace + [OnDisk()];
            return true, trace;
          }
        }
      }
      if io.restoresArtifact {
        artifact := previousArtifact;
      }
      trace := trace + [OnDisk()];
      if io.restoresManifest {
        manifestFile := previousManifest;
      }
      trace := trace + [OnDisk()];
      return false, trace;
    }

    /** `_train_kind` once the model is fitted: read the previous manifest twice, then write the pair. */
    method TrainKind(payload: Bytes, fit: Recorded, io: TrainEnv) returns (trained: bool, ghost trace: seq<Disk>)
      modifies this`artifact, this`manifestFile
      ensures trace == TrainTrace(old(OnDisk()), payload, fit, io)
      ensures Abs() == Next(old(Abs()), Train(payload, fit, io))
      ensures trained == io.fault.NoFault?
    {
      var prior := if io.carries then manifestFile else None;
      var previous := if io.numbers then manifestFile else None;
      trained, trace := WriteWindow(payload, NextManifest(prior, previous, payload, fit), io);
    }

    method UpdateManifestMetrics(u: Update, expected: Option<nat>, writes: bool) returns (ok: bool)
      modifies this`manifestFile
      ensures (OnDisk(), ok) == Updated(old(OnDisk()), u, expected, writes)
    {
      if manifestFile.None? || (expected.Some? && manifestFile.value.version != expected.value) || !writes {
        return false;
      }
      var current := manifestFile.value;
      manifestFile := Some(current.(metrics := Merged(current.metrics, u)));
      return true;
    }

    method ReloadKind(expected: Option<nat>, accepts: bool) returns (reloaded: bool)
      modifies this`entry
      ensures (Abs(), reloaded) == Reloaded(old(Abs()), expected, accepts)
    {
      var resolved := EntryFor(OnDisk(), accepts);
      if resolved.NotServed? || (expected.Some? && resolved.generation != expected.value) {
        return false;
      }
      entry := resolved;
      return true;
    }

    method ApplyFlip(result: Graduation, env: FlipEnv) returns (flipped: bool)
      modifies this`entry, this`manifestFile
      ensures (Abs(), flipped) == Flipped(old(Abs()), result, env)
    {
      if !FlipAllowed(OnDisk(), result) {
        return false;
      }
      var generation := result.generation.value;
      var previous := manifestFile.value.metrics;
      var written := UpdateManifestMetrics(FlipUpdate(generation, env.now, result.recorded), Some(generation), env.writes);
      if !written {
        return false;
      }
      var reloaded := ReloadKind(Some(generation), env.accepts);
      if !reloaded || !entry.Serving? {
        var _ := UpdateManifestMetrics(RollbackUpdate(previous), None, env.rollsBack);
        return false;
      }
      return true;
    }

    method ApplyDemotion(generation: nat, env: EvalEnv)
      modifies this`entry, this`manifestFile, this`demoted
      ensures Abs() == Demoted(old(Abs()), generation, env)
    {
      var written := UpdateManifestMetrics(DemotionUpdate(generation, env.now, env.recorded), Some(generation), env.writes);
      if !written {
        return;
      }
      var reloaded := ReloadKind(Some(generation), env.accepts);
      if !reloaded || entry.Serving? {
        entry := NotServed;
      }
      demoted := demoted + {generation};
    }

    method EvaluateFlippedKind(env: EvalEnv)
      modifies this`entry, this`manifestFile, this`demoted
      ensures Abs() == Next(old(Abs()), Evaluate(env))
      ensures old(Inv(Abs())) ==> Inv(Abs())
    {
      if Inv(Abs()) { InvPreservedExactly(Abs(), Evaluate(env)); }
      if !SaysClassic(OnDisk()) {
        return;
      }
      var version := manifestFile.value.version;
      match env.finding
      case Demote => ApplyDemotion(version, env);
      case Holds => var _ := UpdateManifestMetrics(RecordOnly(env.recorded), Some(version), env.writes);
      case EvaluationFailed => var _ := UpdateManifestMetrics(RecordOnly(env.recorded), None, env.writes);
    }

    method OnTrained(generation: nat, env: RetrainEnv)
      modifies this`entry, this`manifestFile, this`demoted
      ensures Abs() == Next(old(Abs()), AfterRetrain(generation, env))
      ensures old(Inv(Abs())) ==> Inv(Abs())
    {
      if Inv(Abs()) { InvPreservedExactly(Abs(), AfterRetrain(generation, env)); }
      var _ := ReloadKind(Some(generation), env.reloadAccepts);
      var result := GraduationOf(OnDisk(), env);
      if result.promoted {
        var _ := UpdateManifestMetrics(RecordOnly(result.recorded), Some(generation), env.verdictWrites);
        EvaluateFlippedKind(env.eval);
        return;
      }
      if env.flipEnabled && result.eligible {
        var flipped := ApplyFlip(result, env.flip);
        if flipped {
          return;
        }
      }
      var _ := UpdateManifestMetrics(RecordOnly(result.recorded), Some(generation), env.verdictWrites);
    }
  }
}
