/**
 What each step of a recommendation kind's life leaves, field by field: which model answers
 with which bytes, what the manifest holds, and what is recorded.
 */
module AdviceOutcomes {
  import opened Options
  import opened AdviceLifecycle

  /******* Reload and restart *******/

  /**
   An accepted, matching pair of the expected generation takes over: serving if the manifest says
   classic, else as shadow.
   */
  lemma ReloadSwaps(a: Bytes, m: Manifest, e: Entry, demoted: set<nat>, expected: Option<nat>, accepts: bool)
    requires m.sha == Sha256(a)
    ensures var s := State(Disk(Some(a), Some(m)), e, demoted);
            Next(s, Reload(expected, accepts))
            == s.(entry := if !accepts || expected !in {None, Some(m.version)} then e
                           else match m.metrics.backend
                                case Some(Classic) => Serving(m.version, a)
                                case Some(Heuristic) => Shadow(m.version, a)
                                case Some(Other(_)) => e
                                case None => Shadow(m.version, a))
  {
  }

  /** A restart resolves the slot alike, whatever was served before; what it cannot serve is not served. */
  lemma RestartResolves(a: Bytes, m: Manifest, e: Entry, demoted: set<nat>, accepts: bool)
    requires m.sha == Sha256(a)
    ensures var s := State(Disk(Some(a), Some(m)), e, demoted);
            Next(s, Restart(accepts))
            == s.(entry := if !accepts then NotServed
                           else match m.metrics.backend
                                case Some(Classic) => Serving(m.version, a)
                                case Some(Heuristic) => Shadow(m.version, a)
                                case Some(Other(_)) => NotServed
                                case None => Shadow(m.version, a))
  {
  }

  predicate Unmatched(d: Disk) {
    d.artifact.None? || d.manifest.None? || d.manifest.value.sha != Sha256(d.artifact.value)
  }

  /** No pair, or one that does not match, is never swapped in. */
  lemma MismatchIsNotServed(s: State, expected: Option<nat>, accepts: bool)
    requires Unmatched(s.disk)
    ensures Next(s, Reload(expected, accepts)) == s
    ensures Next(s, Restart(accepts)) == s.(entry := NotServed)
  {
  }

  /******* What is written into the manifest *******/

  /** Each key is set, removed or kept on its own; the rest of the manifest and the artifact stay. */
  lemma UpdateMerges(a: Option<Bytes>, m: Manifest, u: Update, expected: Option<nat>, writes: bool)
    ensures var (d, ok) := Updated(Disk(a, Some(m)), u, expected, writes);
            && (ok <==> writes && expected in {None, Some(m.version)})
            && (!ok ==> d == Disk(a, Some(m)))
            && (ok ==>
                  && d.artifact == a && d.manifest.Some?
                  && d.manifest.value.version == m.version && d.manifest.value.sha == m.sha
                  && var was, now := m.metrics, d.manifest.value.metrics;
                  && Changed(u.backend, was.backend, now.backend) && Changed(u.rung, was.rung, now.rung)
                  && Changed(u.flippedAt, was.flippedAt, now.flippedAt)
                  && Changed(u.flippedGeneration, was.flippedGeneration, now.flippedGeneration)
                  && Changed(u.demotedGeneration, was.demotedGeneration, now.demotedGeneration)
                  && Changed(u.demotedAt, was.demotedAt, now.demotedAt)
                  && (forall k <- u.recorded :: k in now.recorded && now.recorded[k] == u.recorded[k])
                  && (forall k <- was.recorded | k !in u.recorded :: k in now.recorded && now.recorded[k] == was.recorded[k])
                  && (forall k <- now.recorded :: k in u.recorded || k in was.recorded))
  {
  }

  predicate Changed<T(==)>(change: Change<T>, was: Option<T>, now: Option<T>) {
    && (change.Keep? ==> now == was)
    && (change.Remove? ==> now == None)
    && (change.Set? ==> now == Some(change.value))
  }

  /** What a flip that takes leaves in the manifest. */
  lemma FlipWrites(s: State, result: Graduation, env: FlipEnv)
    requires Flipped(s, result, env).1
    ensures var after := Flipped(s, result, env).0;
            && s.disk.manifest.Some? && s.disk.artifact.Some?
            && var m := s.disk.manifest.value;
            && result.generation == Some(m.version)
            && after == State(Disk(s.disk.artifact, Some(m.(metrics :=
                                Metrics(Some(Classic), Some("R3"), Some(env.now), Some(m.version), None, None,
                                        m.metrics.recorded + result.recorded)))),
                              Serving(m.version, s.disk.artifact.value), s.demoted)
  {
  }

  /** What a demotion that is written leaves: the manifest, the table, and the mark. */
  lemma DemotionWrites(s: State, env: EvalEnv)
    requires s.disk.manifest.Some? && env.writes
    ensures var m := s.disk.manifest.value;
            var readable := env.accepts && s.disk.artifact.Some? && m.sha == Sha256(s.disk.artifact.value);
            Demoted(s, m.version, env)
            == State(Disk(s.disk.artifact, Some(m.(metrics :=
                            Metrics(Some(Heuristic), Some("R2"), None, None, Some(m.version), Some(env.now),
                                    m.metrics.recorded + env.recorded)))),
                     if readable then Shadow(m.version, s.disk.artifact.value) else NotServed,
                     s.demoted + {m.version})
  {
  }

  /**
   What a successful retrain writes: the bytes, their digest, the number, the keys carried, the
   rung and what is recorded.
   */
  lemma RetrainWrites(s: State, payload: Bytes, fit: Recorded, io: TrainEnv)
    requires io.fault.NoFault?
    ensures var after := Next(s, Train(payload, fit, io));
            && after.entry == s.entry && after.demoted == s.demoted
            && after.disk.artifact == Some(payload) && after.disk.manifest.Some?
            && var m := after.disk.manifest.value;
            && m.sha == Sha256(payload)
            && m.version == (if io.numbers && s.disk.manifest.Some? then s.disk.manifest.value.version + 1 else 1)
            && if io.carries && s.disk.manifest.Some? then
                 var was := s.disk.manifest.value.metrics;
                 && m.metrics.backend == was.backend
                 && m.metrics.rung == Some(if was.backend == Some(Classic) then "R3" else "R2")
                 && m.metrics.flippedAt == was.flippedAt && m.metrics.flippedGeneration == was.flippedGeneration
                 && m.metrics.demotedGeneration == was.demotedGeneration && m.metrics.demotedAt == was.demotedAt
                 && m.metrics.recorded == (map k | k in was.recorded && k == "flipback_verdict" :: was.recorded[k]) + fit
               else m.metrics == Metrics(None, Some("R2"), None, None, None, None, fit)
  {
    if io.carries && s.disk.manifest.Some? {
      var was := s.disk.manifest.value.metrics.recorded;
      assert (if "flipback_verdict" in was then map["flipback_verdict" := was["flipback_verdict"]] else map[])
             == map k | k in was && k == "flipback_verdict" :: was[k];
    }
  }

  /** What a crash in the write window may leave: the slot as it was, one without a manifest, or a new pair whole. */
  lemma CrashLeaves(s: State, payload: Bytes, fit: Recorded, io: TrainEnv, after: nat, accepts: bool)
    ensures var end := Next(s, Crash(payload, fit, io, after, accepts));
            && end.demoted == s.demoted && end.entry == Next(end, Restart(accepts)).entry
            && (after == 0 ==> end.disk == s.disk)
            && (|| end.disk == s.disk
                || end.disk == Disk(s.disk.artifact, None)
                || end.disk == Disk(Some(payload), None)
                || (io.fault.ManifestFails? && io.restoresManifest && end.disk == Disk(Some(payload), s.disk.manifest))
                || (io.fault.NoFault? && end.disk == Next(s, Train(payload, fit, io)).disk))
  {
  }

  /******* What follows a retrain *******/

  /** The flip-back evaluation of a classic kind has it demoted. */
  predicate DemotesNow(m: Manifest, env: RetrainEnv) {
    m.metrics.backend == Some(Classic) && env.finding.Checked? && env.eval.finding.Demote? && env.eval.writes
  }

  /** An eligible verdict about a kind that is not classic has a flip written. */
  predicate WritesFlip(m: Manifest, env: RetrainEnv) {
    && m.metrics.backend != Some(Classic) && env.finding == Checked(true) && env.flipEnabled
    && m.metrics.demotedGeneration != Some(m.version) && env.flip.writes
  }

  /** The hot reload of what was retrained swaps it in. */
  predicate ReloadsNow(m: Manifest, generation: nat, env: RetrainEnv) {
    env.reloadAccepts && m.version == generation && m.metrics.backend in {None, Some(Heuristic), Some(Classic)}
  }

  /** The table entry after the hot reload. */
  function EntryReloaded(a: Bytes, m: Manifest, e: Entry, generation: nat, env: RetrainEnv): Entry {
    if !ReloadsNow(m, generation, env) then e
    else if m.metrics.backend == Some(Classic) then Serving(m.version, a)
    else Shadow(m.version, a)
  }

  function WithMore(m: Manifest, recorded: Recorded): Manifest {
    m.(metrics := m.metrics.(recorded := m.metrics.recorded + recorded))
  }

  /** The manifest with the verdict recorded, if its generation is the one retrained and the write succeeds. */
  function WithVerdict(m: Manifest, generation: nat, env: RetrainEnv): Manifest {
    if env.verdictWrites && m.version == generation then WithMore(m, env.recorded) else m
  }

  lemma VerdictRecorded(a: Bytes, m: Manifest, generation: nat, env: RetrainEnv)
    ensures Updated(Disk(Some(a), Some(m)), RecordOnly(env.recorded), Some(generation), env.verdictWrites).0
            == Disk(Some(a), Some(WithVerdict(m, generation, env)))
  {
  }

  /** After a retrain of a classic kind: reloaded, its verdict recorded, and evaluated. */
  lemma SettledWhenClassic(a: Bytes, m: Manifest, e: Entry, demoted: set<nat>, generation: nat, env: RetrainEnv)
    requires m.sha == Sha256(a) && m.metrics.backend == Some(Classic) && env.finding.Checked?
    ensures Next(State(Disk(Some(a), Some(m)), e, demoted), AfterRetrain(generation, env))
            == Next(State(Disk(Some(a), Some(WithVerdict(m, generation, env))), EntryReloaded(a, m, e, generation, env), demoted),
                    Evaluate(env.eval))
  {
    ReloadSwaps(a, m, e, demoted, Some(generation), env.reloadAccepts);
    VerdictRecorded(a, m, generation, env);
  }

  /**
   After a retrain of one that is not, or could not be checked, without a flip being written:
   reloaded, its verdict recorded.
   */
  lemma SettledWithoutFlip(a: Bytes, m: Manifest, e: Entry, demoted: set<nat>, generation: nat, env: RetrainEnv)
    requires m.sha == Sha256(a) && (m.metrics.backend != Some(Classic) || env.finding.CheckFailed?) && !WritesFlip(m, env)
    ensures Next(State(Disk(Some(a), Some(m)), e, demoted), AfterRetrain(generation, env))
            == State(Disk(Some(a), Some(WithVerdict(m, generation, env))), EntryReloaded(a, m, e, generation, env), demoted)
  {
    ReloadSwaps(a, m, e, demoted, Some(generation), env.reloadAccepts);
    VerdictRecorded(a, m, generation, env);
  }

  /** What a flip writes. */
  function FlippedManifest(m: Manifest, env: RetrainEnv): Manifest {
    m.(metrics := Metrics(Some(Classic), Some("R3"), Some(env.flip.now), Some(m.version), None, None,
                          m.metrics.recorded + env.recorded))
  }

  /** What it leaves if it could not be served: rolled back, or not, with the verdict recorded. */
  function UnservedManifest(m: Manifest, generation: nat, env: RetrainEnv): Manifest {
    var rolledBack := m.(metrics := m.metrics.(recorded := m.metrics.recorded + env.recorded + ROLLED_BACK));
    WithVerdict(if env.flip.rollsBack then rolledBack else FlippedManifest(m, env), generation, env)
  }

  /** After a retrain with a flip written: served, or rolled back if it could not be. */
  lemma SettledWithFlip(a: Bytes, m: Manifest, e: Entry, demoted: set<nat>, generation: nat, env: RetrainEnv)
    requires m.sha == Sha256(a) && WritesFlip(m, env)
    ensures Next(State(Disk(Some(a), Some(m)), e, demoted), AfterRetrain(generation, env))
            == if env.flip.accepts then State(Disk(Some(a), Some(FlippedManifest(m, env))), Serving(m.version, a), demoted)
               else State(Disk(Some(a), Some(UnservedManifest(m, generation, env))), EntryReloaded(a, m, e, generation, env), demoted)
  {
    var result := Graduation(Some(m.version), true, false, env.recorded);
    var s1 := State(Disk(Some(a), Some(m)), EntryReloaded(a, m, e, generation, env), demoted);
    ReloadSwaps(a, m, e, demoted, Some(generation), env.reloadAccepts);
    if env.flip.accepts {
      FlipWrites(s1, result, env.flip);
    } else {
      UnservedFlip(s1, a, m, result, env.flip);
      VerdictRecorded(a, if env.flip.rollsBack then m.(metrics := m.metrics.(recorded := m.metrics.recorded + env.recorded + ROLLED_BACK))
                         else FlippedManifest(m, env), generation, env);
    }
  }

  lemma UnservedFlip(s: State, a: Bytes, m: Manifest, result: Graduation, env: FlipEnv)
    requires s.disk == Disk(Some(a), Some(m)) && FlipAllowed(s.disk, result) && env.writes && !env.accepts
    ensures Flipped(s, result, env)
            == (s.(disk := Disk(Some(a), Some(
                     if env.rollsBack then m.(metrics := m.metrics.(recorded := m.metrics.recorded + result.recorded + ROLLED_BACK))
                     else m.(metrics := Metrics(Some(Classic), Some("R3"), Some(env.now), Some(m.version), None, None,
                                                m.metrics.recorded + result.recorded))))),
                false)
  {
  }

  /**
   Everything that follows a retrain, for a pair that matches: which model the table ends on,
   what the manifest says, and whether the generation was demoted.
   */
  lemma SettledOutcome(a: Bytes, m: Manifest, e: Entry, demoted: set<nat>, generation: nat, env: RetrainEnv)
    requires m.sha == Sha256(a)
    ensures var after := Next(State(Disk(Some(a), Some(m)), e, demoted), AfterRetrain(generation, env));
            && after.disk.artifact == Some(a) && after.disk.manifest.Some?
            && var now := after.disk.manifest.value;
            && now.version == m.version && now.sha == m.sha
            && after.demoted == demoted + (if DemotesNow(m, env) then {m.version} else {})
            && now.metrics.backend
               == (if DemotesNow(m, env) then Some(Heuristic)
                   else if WritesFlip(m, env) && (env.flip.accepts || !env.flip.rollsBack) then Some(Classic)
                   else m.metrics.backend)
            && after.entry
               == if WritesFlip(m, env) && env.flip.accepts then Serving(m.version, a)
                  else if DemotesNow(m, env) then (if env.eval.accepts then Shadow(m.version, a) else NotServed)
                  else EntryReloaded(a, m, e, generation, env)
  {
    if m.metrics.backend == Some(Classic) && env.finding.Checked? {
      var s1 := State(Disk(Some(a), Some(WithVerdict(m, generation, env))), EntryReloaded(a, m, e, generation, env), demoted);
      SettledWhenClassic(a, m, e, demoted, generation, env);
      EvaluationOutcome(s1, env.eval);
      if DemotesNow(m, env) {
        DemotionWrites(s1, env.eval);
      }
    } else if WritesFlip(m, env) {
      SettledWithFlip(a, m, e, demoted, generation, env);
    } else {
      SettledWithoutFlip(a, m, e, demoted, generation, env);
    }
  }

  /**
   A model that was retrained takes over: once its reload is accepted the table ends on its
   bytes, serving if the manifest then says classic and as shadow if it does not, exactly
   unless a demotion could not read the model again or a flip diverged.
   */
  lemma RetrainedModelTakesOver(a: Bytes, m: Manifest, e: Entry, demoted: set<nat>, env: RetrainEnv)
    requires m.sha == Sha256(a) && env.reloadAccepts && m.metrics.backend in {None, Some(Heuristic), Some(Classic)}
    ensures var after := Next(State(Disk(Some(a), Some(m)), e, demoted), AfterRetrain(m.version, env));
            after.entry == (if after.disk.manifest.Some? && after.disk.manifest.value.metrics.backend == Some(Classic)
                            then Serving(m.version, a) else Shadow(m.version, a))
            <==> && !(DemotesNow(m, env) && !env.eval.accepts)
                 && !(WritesFlip(m, env) && !env.flip.accepts && !env.flip.rollsBack)
  {
    SettledOutcome(a, m, e, demoted, m.version, env);
  }

  lemma UnmatchedFlips(s: State, result: Graduation, env: FlipEnv)
    requires Unmatched(s.disk)
    ensures var (after, flipped) := Flipped(s, result, env);
            !flipped && after.entry == s.entry && after.disk.artifact == s.disk.artifact
  {
  }

  lemma UnmatchedEvaluates(s: State, env: EvalEnv)
    requires Unmatched(s.disk)
    ensures Evaluated(s, env).entry in {s.entry, NotServed} && Evaluated(s, env).disk.artifact == s.disk.artifact
  {
  }

  /** Without a pair that matches, nothing new is served after a retrain. */
  lemma UnmatchedTakesNothingOver(s: State, generation: nat, env: RetrainEnv)
    requires Unmatched(s.disk)
    ensures Next(s, AfterRetrain(generation, env)).entry in {s.entry, NotServed}
    ensures Next(s, AfterRetrain(generation, env)).disk.artifact == s.disk.artifact
  {
    var result := GraduationOf(s.disk, env);
    assert Reloaded(s, Some(generation), env.reloadAccepts).0 == s;
    if result.promoted {
      UnmatchedEvaluates(s.(disk := Updated(s.disk, RecordOnly(env.recorded), Some(generation), env.verdictWrites).0), env.eval);
    } else {
      UnmatchedFlips(s, result, env.flip);
    }
  }

  /**
   Retrain and everything after it in one: the bytes just trained answer, or nothing does, if the
   flip-back could not read them.
   */
  lemma NewBytesAnswer(s: State, payload: Bytes, fit: Recorded, io: TrainEnv, env: RetrainEnv)
    requires io.fault.NoFault? && env.reloadAccepts
    requires io.carries && s.disk.manifest.Some? ==>
               s.disk.manifest.value.metrics.backend in {None, Some(Heuristic), Some(Classic)}
    ensures var trained := Next(s, Train(payload, fit, io));
            trained.disk.manifest.Some?
            && var m := trained.disk.manifest.value;
            var after := Next(trained, AfterRetrain(m.version, env));
            if DemotesNow(m, env) && !env.eval.accepts then after.entry == NotServed
            else after.entry in {Serving(m.version, payload), Shadow(m.version, payload)}
  {
    var trained := Next(s, Train(payload, fit, io));
    RetrainWrites(s, payload, fit, io);
    SettledOutcome(payload, trained.disk.manifest.value, trained.entry, trained.demoted, trained.disk.manifest.value.version, env);
  }

  /******* The flip-back evaluation *******/

  /**
   Only a classic kind is evaluated: demoted, or its numbers recorded, pinned to its generation
   unless the evaluation failed.
   */
  lemma EvaluationOutcome(s: State, env: EvalEnv)
    ensures var after := Next(s, Evaluate(env));
            if s.disk.manifest.None? || s.disk.manifest.value.metrics.backend != Some(Classic) || !env.writes then after == s
            else if env.finding.Demote? then after == Demoted(s, s.disk.manifest.value.version, env)
            else after == s.(disk := s.disk.(manifest := Some(s.disk.manifest.value.(metrics :=
                               s.disk.manifest.value.metrics.(recorded := s.disk.manifest.value.metrics.recorded + env.recorded)))))
  {
  }
}
